/** The response rendezvous: Wait and Push calls interleaved step by step over a locked map of
    one-shot channels. */
module MessagePool {
  import opened Bytes

  type Key = string
  type Payload = seq<byte>

  /** A message in a channel, with the call that sent it. */
  datatype Letter = Letter(from: nat, msg: Payload)

  /** A channel of capacity 1; `owner` is the Wait call that made it and `closedBy` the Push that closed it. */
  datatype Chan = Chan(owner: nat, buf: seq<Letter>, closedBy: Option<nat>)

  datatype Outcome = Received(letter: Letter) | ZeroValue | TimedOut

  datatype WaitPC =
    | WaitStart
    | WaitCheck                              // holds the lock
    | WaitReject                             // holds the lock, found the key taken
    | WaitRegistered(ch: nat)                // holds the lock, inserted ch
    | WaitSelect(ch: nat)
    | WaitCleanup(ch: nat, out: Outcome)
    | WaitDelete(ch: nat, out: Outcome)      // holds the lock
    | WaitUnlock(ch: nat, out: Outcome)      // holds the lock, deleted the key
    | WaitRejected
    | WaitDone(ch: nat, out: Outcome)

  datatype PushPC =
    | PushStart
    | PushLookup                             // holds the read lock, as do the next four
    | PushMissing
    | PushSend(ch: nat)
    | PushClose(ch: nat)
    | PushReturn(ch: nat)
    | PushFailed
    | PushDone(ch: nat)

  datatype Proc = Waiter(key: Key, wait: WaitPC) | Pusher(key: Key, msg: Payload, push: PushPC)

  datatype State = State(
    pool: map<Key, nat>, chans: seq<Chan>, procs: seq<Proc>,
    writer: Option<nat>, readers: set<nat>, panicked: bool)

  // ----- the steps -----

  function Goto(s: State, i: nat, pc: WaitPC): State
    requires i < |s.procs| && s.procs[i].Waiter?
  {
    s.(procs := s.procs[i := s.procs[i].(wait := pc)])
  }

  function Move(s: State, i: nat, pc: PushPC): State
    requires i < |s.procs| && s.procs[i].Pusher?
  {
    s.(procs := s.procs[i := s.procs[i].(push := pc)])
  }

  /** The next step of Wait call i; `expired` picks the timeout branch of the select. None if it has to wait. */
  function WaitStep(s: State, i: nat, expired: bool): Option<State>
    requires i < |s.procs| && s.procs[i].Waiter?
  {
    var key := s.procs[i].key;
    match s.procs[i].wait
    case WaitStart =>
      if s.writer.None? && s.readers == {} then Some(Goto(s, i, WaitCheck).(writer := Some(i))) else None
    case WaitCheck =>
      if key in s.pool then Some(Goto(s, i, WaitReject))
      else
        var ch := |s.chans|;
        Some(Goto(s, i, WaitRegistered(ch)).(chans := s.chans + [Chan(i, [], None)], pool := s.pool[key := ch]))
    case WaitReject => Some(Goto(s, i, WaitRejected).(writer := None))
    case WaitRegistered(ch) => Some(Goto(s, i, WaitSelect(ch)).(writer := None))
    case WaitSelect(ch) =>
      if expired then Some(Goto(s, i, WaitCleanup(ch, TimedOut)))
      else if ch >= |s.chans| then None
      else if s.chans[ch].buf != [] then
        var c := s.chans[ch];
        Some(Goto(s, i, WaitCleanup(ch, Received(c.buf[0]))).(chans := s.chans[ch := c.(buf := c.buf[1..])]))
      else if s.chans[ch].closedBy.Some? then Some(Goto(s, i, WaitCleanup(ch, ZeroValue)))
      else None
    case WaitCleanup(ch, out) =>
      if s.writer.None? && s.readers == {} then Some(Goto(s, i, WaitDelete(ch, out)).(writer := Some(i))) else None
    case WaitDelete(ch, out) => Some(Goto(s, i, WaitUnlock(ch, out)).(pool := s.pool - {key}))
    case WaitUnlock(ch, out) => Some(Goto(s, i, WaitDone(ch, out)).(writer := None))
    case WaitRejected => None
    case WaitDone(_, _) => None
  }

  /** The next step of Push call i. Sending on or closing a closed channel panics; sending on a full one waits. */
  function PushStep(s: State, i: nat): Option<State>
    requires i < |s.procs| && s.procs[i].Pusher?
  {
    var key := s.procs[i].key;
    match s.procs[i].push
    case PushStart =>
      if s.writer.None? then Some(Move(s, i, PushLookup).(readers := s.readers + {i})) else None
    case PushLookup =>
      Some(Move(s, i, if key in s.pool then PushSend(s.pool[key]) else PushMissing))
    case PushMissing => Some(Move(s, i, PushFailed).(readers := s.readers - {i}))
    case PushSend(ch) =>
      if ch >= |s.chans| then None
      else
        var c := s.chans[ch];
        if c.closedBy.Some? then Some(s.(panicked := true))
        else if c.buf == [] then
          Some(Move(s, i, PushClose(ch)).(chans := s.chans[ch := c.(buf := [Letter(i, s.procs[i].msg)])]))
        else None
    case PushClose(ch) =>
      if ch >= |s.chans| then None
      else
        var c := s.chans[ch];
        if c.closedBy.Some? then Some(s.(panicked := true))
        else Some(Move(s, i, PushReturn(ch)).(chans := s.chans[ch := c.(closedBy := Some(i))]))
    case PushReturn(ch) => Some(Move(s, i, PushDone(ch)).(readers := s.readers - {i}))
    case PushFailed => None
    case PushDone(_) => None
  }

  /** A panic ends the program. */
  function Step(s: State, i: nat, expired: bool): Option<State> {
    if s.panicked || i >= |s.procs| then None
    else if s.procs[i].Waiter? then WaitStep(s, i, expired)
    else PushStep(s, i)
  }

  predicate Starting(p: Proc) {
    match p
    case Waiter(_, pc) => pc == WaitStart
    case Pusher(_, _, pc) => pc == PushStart
  }

  /** Any number of calls, none begun; a call that arrives later is one whose first step comes later. */
  function Start(calls: seq<Proc>): State {
    State(map[], [], calls, None, {}, false)
  }

  datatype Choice = Choice(call: nat, expired: bool)

  /** Lets the chosen calls step in turn; choosing a call that cannot step changes nothing. */
  function Run(s: State, schedule: seq<Choice>): State
    decreases |schedule|
  {
    if schedule == [] then s
    else
      var next := Step(s, schedule[0].call, schedule[0].expired);
      Run(if next.Some? then next.value else s, schedule[1..])
  }

  // ----- what holds in every reachable state -----

  predicate HoldsLock(p: Proc) {
    p.Waiter?
    && (p.wait.WaitCheck? || p.wait.WaitReject? || p.wait.WaitRegistered? || p.wait.WaitDelete? || p.wait.WaitUnlock?)
  }

  predicate HoldsReadLock(p: Proc) {
    p.Pusher?
    && (p.push.PushLookup? || p.push.PushMissing? || p.push.PushSend? || p.push.PushClose? || p.push.PushReturn?)
  }

  /** Between registering and the deferred delete. */
  predicate Registered(p: Proc) {
    p.Waiter? && (p.wait.WaitRegistered? || p.wait.WaitSelect? || p.wait.WaitCleanup? || p.wait.WaitDelete?)
  }

  predicate HasChan(p: Proc) {
    match p
    case Waiter(_, pc) => Registered(p) || pc.WaitUnlock? || pc.WaitDone?
    case Pusher(_, _, pc) => pc.PushSend? || pc.PushClose? || pc.PushReturn? || pc.PushDone?
  }

  function ChanOf(p: Proc): nat
    requires HasChan(p)
  {
    if p.Waiter? then p.wait.ch else p.push.ch
  }

  predicate HasOutcome(p: Proc) {
    p.Waiter? && (p.wait.WaitCleanup? || p.wait.WaitDelete? || p.wait.WaitUnlock? || p.wait.WaitDone?)
  }

  function OutcomeOf(p: Proc): Outcome
    requires HasOutcome(p)
  {
    p.wait.out
  }

  predicate HasSent(p: Proc) {
    p.Pusher? && (p.push.PushClose? || p.push.PushReturn? || p.push.PushDone?)
  }

  predicate HasClosed(p: Proc) {
    p.Pusher? && (p.push.PushReturn? || p.push.PushDone?)
  }

  ghost predicate LockOk(s: State, i: nat)
    requires i < |s.procs|
  {
    && (HoldsLock(s.procs[i]) <==> s.writer == Some(i))
    && (HoldsReadLock(s.procs[i]) <==> i in s.readers)
  }

  /** Mutual exclusion: a lock-holding Wait excludes every other lock holder. */
  ghost predicate LockInv(s: State) {
    && (forall i :: 0 <= i < |s.procs| ==> LockOk(s, i))
    && (forall i :: i in s.readers ==> i < |s.procs|)
    && (s.writer.Some? ==> s.writer.value < |s.procs| && s.readers == {})
  }

  ghost predicate WaiterOk(s: State, i: nat)
    requires i < |s.procs|
  {
    var p := s.procs[i];
    && (p.Waiter? && HasChan(p) ==> ChanOf(p) < |s.chans| && s.chans[ChanOf(p)].owner == i)
    && (Registered(p) ==> p.key in s.pool && s.pool[p.key] == ChanOf(p))
  }

  ghost predicate ChanOk(s: State, c: nat)
    requires c < |s.chans|
  {
    var o := s.chans[c].owner;
    o < |s.procs| && s.procs[o].Waiter? && HasChan(s.procs[o]) && ChanOf(s.procs[o]) == c
  }

  ghost predicate KeyOk(s: State, k: Key)
    requires k in s.pool
  {
    var c := s.pool[k];
    c < |s.chans| && ChanOk(s, c) && Registered(s.procs[s.chans[c].owner]) && s.procs[s.chans[c].owner].key == k
  }

  /** Every channel belongs to one Wait, and the pool holds the channels of the registered ones. */
  ghost predicate OwnerInv(s: State) {
    && (forall i :: 0 <= i < |s.procs| ==> WaiterOk(s, i))
    && (forall c :: 0 <= c < |s.chans| ==> ChanOk(s, c))
    && (forall k :: k in s.pool ==> KeyOk(s, k))
  }

  ghost predicate PusherOk(s: State, i: nat)
    requires i < |s.procs|
  {
    var p := s.procs[i];
    p.Pusher? && HasChan(p) ==>
      && ChanOf(p) < |s.chans| && ChanOk(s, ChanOf(p))
      && s.procs[s.chans[ChanOf(p)].owner].key == p.key
  }

  /** A Push works on the channel of a Wait for the same key. */
  ghost predicate PushInv(s: State) {
    forall i :: 0 <= i < |s.procs| ==> PusherOk(s, i)
  }

  /** Push call i sent this letter on channel c. */
  ghost predicate SentOn(s: State, l: Letter, c: nat) {
    l.from < |s.procs| && HasSent(s.procs[l.from]) && ChanOf(s.procs[l.from]) == c && s.procs[l.from].msg == l.msg
  }

  ghost predicate IsBuffered(s: State, l: Letter, c: nat) {
    c < |s.chans| && s.chans[c].buf == [l]
  }

  ghost predicate IsReceived(s: State, l: Letter, c: nat) {
    c < |s.chans| && s.chans[c].owner < |s.procs|
    && HasOutcome(s.procs[s.chans[c].owner]) && OutcomeOf(s.procs[s.chans[c].owner]) == Received(l)
  }

  ghost predicate BufferOk(s: State, c: nat)
    requires c < |s.chans|
  {
    |s.chans[c].buf| <= 1 && (|s.chans[c].buf| == 1 ==> SentOn(s, s.chans[c].buf[0], c))
  }

  ghost predicate OutcomeOk(s: State, i: nat)
    requires i < |s.procs|
  {
    HasOutcome(s.procs[i]) ==>
      match OutcomeOf(s.procs[i])
      case Received(l) => SentOn(s, l, ChanOf(s.procs[i]))
      case ZeroValue => false
      case TimedOut => true
  }

  ghost predicate SenderOk(s: State, i: nat)
    requires i < |s.procs|
  {
    HasSent(s.procs[i]) ==>
      var l, c := Letter(i, s.procs[i].msg), ChanOf(s.procs[i]);
      IsBuffered(s, l, c) != IsReceived(s, l, c)
  }

  /** Every letter sent is in exactly one place, every letter anywhere was sent there, and no Wait
      ends with the zero value of a closed channel. */
  ghost predicate LetterInv(s: State) {
    && (forall c :: 0 <= c < |s.chans| ==> BufferOk(s, c))
    && (forall i :: 0 <= i < |s.procs| ==> OutcomeOk(s, i))
    && (forall i :: 0 <= i < |s.procs| ==> SenderOk(s, i))
  }

  ghost predicate ClosedOk(s: State, c: nat)
    requires c < |s.chans|
  {
    s.chans[c].closedBy.Some? ==>
      var j := s.chans[c].closedBy.value;
      j < |s.procs| && HasClosed(s.procs[j]) && ChanOf(s.procs[j]) == c
  }

  ghost predicate CloserOk(s: State, i: nat)
    requires i < |s.procs|
  {
    HasClosed(s.procs[i]) ==> ChanOf(s.procs[i]) < |s.chans| && s.chans[ChanOf(s.procs[i])].closedBy == Some(i)
  }

  /** Every closed channel was closed by one Push, and a Push that returned success closed its channel. */
  ghost predicate CloseInv(s: State) {
    && (forall c :: 0 <= c < |s.chans| ==> ClosedOk(s, c))
    && (forall i :: 0 <= i < |s.procs| ==> CloserOk(s, i))
  }

  /** Two Push calls found the same registration. */
  ghost predicate PushedTwice(s: State) {
    exists i, j :: 0 <= i < j < |s.procs| && s.procs[i].Pusher? && s.procs[j].Pusher?
                   && HasChan(s.procs[i]) && HasChan(s.procs[j]) && ChanOf(s.procs[i]) == ChanOf(s.procs[j])
  }

  ghost predicate Inv(s: State) {
    && LockInv(s) && OwnerInv(s) && PushInv(s) && LetterInv(s) && CloseInv(s)
    && (s.panicked ==> PushedTwice(s))
  }

  lemma InvHoldsAtStart(calls: seq<Proc>)
    requires forall p :: p in calls ==> Starting(p)
    ensures Inv(Start(calls))
  {
    forall i | 0 <= i < |calls| ensures Starting(calls[i]) {
      assert calls[i] in calls;
    }
  }

  // ----- what one step does -----

  /** A call keeps its arguments and what it has: its channel, its letter, its outcome. */
  predicate Advance(p: Proc, p': Proc) {
    && p.Waiter? == p'.Waiter? && p.key == p'.key && (p.Pusher? ==> p.msg == p'.msg)
    && (HasChan(p) ==> HasChan(p') && ChanOf(p') == ChanOf(p))
    && (HasSent(p) ==> HasSent(p')) && (HasClosed(p) ==> HasClosed(p'))
    && (HasOutcome(p) ==> HasOutcome(p') && OutcomeOf(p') == OutcomeOf(p))
  }

  /** Only call i moves; channels stay and keep their owners. */
  ghost predicate Frame(s: State, i: nat, s': State) {
    && i < |s.procs| && |s'.procs| == |s.procs| && Advance(s.procs[i], s'.procs[i])
    && (forall j :: 0 <= j < |s.procs| && j != i ==> s'.procs[j] == s.procs[j])
    && |s.chans| <= |s'.chans|
    && (forall c :: 0 <= c < |s.chans| ==> s'.chans[c].owner == s.chans[c].owner)
  }

  lemma WaitFrame(s: State, i: nat, expired: bool, s': State)
    requires i < |s.procs| && s.procs[i].Waiter? && WaitStep(s, i, expired) == Some(s')
    ensures Frame(s, i, s')
  {
  }

  lemma PushFrame(s: State, i: nat, s': State)
    requires i < |s.procs| && s.procs[i].Pusher? && PushStep(s, i) == Some(s')
    ensures Frame(s, i, s')
  {
  }

  /** Call i registers a new channel. */
  predicate Inserts(s: State, i: nat, s': State)
    requires i < |s.procs| && |s'.procs| == |s.procs|
  {
    var p, ch := s.procs[i], |s.chans|;
    && p.key !in s.pool && s'.pool == s.pool[p.key := ch] && s'.chans == s.chans + [Chan(i, [], None)]
    && p == Waiter(p.key, WaitCheck) && s'.procs[i] == Waiter(p.key, WaitRegistered(ch))
  }

  /** Call i deletes its key. */
  predicate Deletes(s: State, i: nat, s': State)
    requires i < |s.procs| && |s'.procs| == |s.procs|
  {
    var p := s.procs[i];
    && p.Waiter? && p.wait.WaitDelete? && s'.pool == s.pool - {p.key} && s'.chans == s.chans
    && s'.procs[i] == Waiter(p.key, WaitUnlock(p.wait.ch, p.wait.out))
  }

  predicate KeepsPool(s: State, i: nat, s': State)
    requires i < |s.procs| && |s'.procs| == |s.procs|
  {
    var p, p' := s.procs[i], s'.procs[i];
    && s'.pool == s.pool && |s'.chans| == |s.chans| && Registered(p) == Registered(p')
    && (p.Waiter? ==> HasChan(p) == HasChan(p'))
    && (p.Pusher? && HasChan(p') && !HasChan(p) ==> p.key in s.pool && ChanOf(p') == s.pool[p.key])
  }

  lemma WaitPool(s: State, i: nat, expired: bool, s': State)
    requires i < |s.procs| && s.procs[i].Waiter? && WaitStep(s, i, expired) == Some(s')
    ensures |s'.procs| == |s.procs| && (Inserts(s, i, s') || Deletes(s, i, s') || KeepsPool(s, i, s'))
  {
    match s.procs[i].wait
    case WaitCheck =>
    case WaitDelete(_, _) =>
    case _ =>
  }

  lemma PushPool(s: State, i: nat, s': State)
    requires i < |s.procs| && s.procs[i].Pusher? && PushStep(s, i) == Some(s')
    ensures |s'.procs| == |s.procs| && (Inserts(s, i, s') || Deletes(s, i, s') || KeepsPool(s, i, s'))
  {
  }

  predicate Sends(s: State, i: nat, s': State)
    requires i < |s.procs| && |s'.procs| == |s.procs|
  {
    var p := s.procs[i];
    && p.Pusher? && p.push.PushSend? && p.push.ch < |s.chans| && s.chans[p.push.ch].buf == []
    && s'.chans == s.chans[p.push.ch := s.chans[p.push.ch].(buf := [Letter(i, p.msg)])]
    && s'.procs[i] == p.(push := PushClose(p.push.ch))
  }

  predicate Receives(s: State, i: nat, s': State)
    requires i < |s.procs| && |s'.procs| == |s.procs|
  {
    var p := s.procs[i];
    && p.Waiter? && p.wait.WaitSelect? && p.wait.ch < |s.chans| && s.chans[p.wait.ch].buf != []
    && s'.chans == s.chans[p.wait.ch := s.chans[p.wait.ch].(buf := s.chans[p.wait.ch].buf[1..])]
    && s'.procs[i] == p.(wait := WaitCleanup(p.wait.ch, Received(s.chans[p.wait.ch].buf[0])))
  }

  predicate ReadsZero(s: State, i: nat)
    requires i < |s.procs|
  {
    var p := s.procs[i];
    p.Waiter? && p.wait.WaitSelect? && p.wait.ch < |s.chans|
    && s.chans[p.wait.ch].buf == [] && s.chans[p.wait.ch].closedBy.Some?
  }

  ghost predicate KeepsLetters(s: State, i: nat, s': State)
    requires i < |s.procs| && |s'.procs| == |s.procs|
  {
    && HasSent(s'.procs[i]) == HasSent(s.procs[i])
    && (HasOutcome(s'.procs[i]) && !HasOutcome(s.procs[i]) ==> OutcomeOf(s'.procs[i]) == TimedOut)
    && (forall c :: 0 <= c < |s'.chans| ==> s'.chans[c].buf == if c < |s.chans| then s.chans[c].buf else [])
  }

  lemma WaitLetters(s: State, i: nat, expired: bool, s': State)
    requires i < |s.procs| && s.procs[i].Waiter? && WaitStep(s, i, expired) == Some(s')
    ensures |s'.procs| == |s.procs|
    ensures Sends(s, i, s') || Receives(s, i, s') || ReadsZero(s, i) || KeepsLetters(s, i, s')
  {
  }

  lemma PushLetters(s: State, i: nat, s': State)
    requires i < |s.procs| && s.procs[i].Pusher? && PushStep(s, i) == Some(s')
    ensures |s'.procs| == |s.procs|
    ensures Sends(s, i, s') || Receives(s, i, s') || ReadsZero(s, i) || KeepsLetters(s, i, s')
  {
  }

  predicate Closes(s: State, i: nat, s': State)
    requires i < |s.procs| && |s'.procs| == |s.procs|
  {
    var p := s.procs[i];
    && p.Pusher? && p.push.PushClose? && p.push.ch < |s.chans| && s.chans[p.push.ch].closedBy.None?
    && s'.chans == s.chans[p.push.ch := s.chans[p.push.ch].(closedBy := Some(i))]
    && s'.procs[i] == p.(push := PushReturn(p.push.ch))
  }

  ghost predicate KeepsClosed(s: State, i: nat, s': State)
    requires i < |s.procs| && |s'.procs| == |s.procs|
  {
    && HasClosed(s'.procs[i]) == HasClosed(s.procs[i])
    && (forall c :: 0 <= c < |s'.chans| ==> s'.chans[c].closedBy == if c < |s.chans| then s.chans[c].closedBy else None)
  }

  lemma WaitCloses(s: State, i: nat, expired: bool, s': State)
    requires i < |s.procs| && s.procs[i].Waiter? && WaitStep(s, i, expired) == Some(s')
    ensures |s'.procs| == |s.procs| && (Closes(s, i, s') || KeepsClosed(s, i, s'))
  {
  }

  lemma PushCloses(s: State, i: nat, s': State)
    requires i < |s.procs| && s.procs[i].Pusher? && PushStep(s, i) == Some(s')
    ensures |s'.procs| == |s.procs| && (Closes(s, i, s') || KeepsClosed(s, i, s'))
  {
  }

  /** What a step may do to the lock. */
  ghost predicate LockEffect(s: State, i: nat, s': State) {
    && Frame(s, i, s')
    && var p, p' := s.procs[i], s'.procs[i];
    && (p.Waiter? ==>
          && s'.readers == s.readers
          && (|| (HoldsLock(p') == HoldsLock(p) && s'.writer == s.writer)
              || (!HoldsLock(p) && HoldsLock(p') && s.writer.None? && s.readers == {} && s'.writer == Some(i))
              || (HoldsLock(p) && !HoldsLock(p') && s'.writer.None?)))
    && (p.Pusher? ==>
          && s'.writer == s.writer
          && (|| (HoldsReadLock(p') == HoldsReadLock(p) && s'.readers == s.readers)
              || (!HoldsReadLock(p) && HoldsReadLock(p') && s.writer.None? && s'.readers == s.readers + {i})
              || (HoldsReadLock(p) && !HoldsReadLock(p') && s'.readers == s.readers - {i})))
  }

  lemma WaitLock(s: State, i: nat, expired: bool, s': State)
    requires i < |s.procs| && s.procs[i].Waiter? && WaitStep(s, i, expired) == Some(s') && Frame(s, i, s')
    ensures LockEffect(s, i, s')
  {
    hide Frame;
  }

  lemma PushLock(s: State, i: nat, s': State)
    requires i < |s.procs| && s.procs[i].Pusher? && PushStep(s, i) == Some(s') && Frame(s, i, s')
    ensures LockEffect(s, i, s')
  {
    hide Frame;
  }

  /** What a step may do to the pool, to letters and to closed channels. */
  ghost predicate Effect(s: State, i: nat, s': State) {
    && Frame(s, i, s') && LockEffect(s, i, s')
    && (Inserts(s, i, s') || Deletes(s, i, s') || KeepsPool(s, i, s'))
    && (Sends(s, i, s') || Receives(s, i, s') || ReadsZero(s, i) || KeepsLetters(s, i, s'))
    && (Closes(s, i, s') || KeepsClosed(s, i, s'))
  }

  lemma StepEffect(s: State, i: nat, expired: bool, s': State)
    requires Step(s, i, expired) == Some(s')
    ensures Effect(s, i, s')
  {
    hide WaitStep, PushStep, Frame, Inserts, Deletes, KeepsPool, Sends, Receives, ReadsZero, KeepsLetters,
         Closes, KeepsClosed, LockEffect;
    if s.procs[i].Waiter? {
      WaitFrame(s, i, expired, s');
      WaitPool(s, i, expired, s');
      WaitLetters(s, i, expired, s');
      WaitCloses(s, i, expired, s');
      WaitLock(s, i, expired, s');
    } else {
      PushFrame(s, i, s');
      PushPool(s, i, s');
      PushLetters(s, i, s');
      PushCloses(s, i, s');
      PushLock(s, i, s');
    }
  }

  // ----- every step keeps the invariant -----

  lemma LockAfter(s: State, i: nat, s': State, j: nat)
    requires LockEffect(s, i, s') && j < |s.procs| && LockOk(s, i) && LockOk(s, j)
    ensures LockOk(s', j)
  {
  }

  lemma WaiterAfter(s: State, i: nat, s': State, j: nat)
    requires Frame(s, i, s') && (Inserts(s, i, s') || Deletes(s, i, s') || KeepsPool(s, i, s'))
    requires j < |s.procs| && WaiterOk(s, i) && WaiterOk(s, j)
    ensures WaiterOk(s', j)
  {
  }

  lemma ChanAfter(s: State, i: nat, s': State, c: nat)
    requires Frame(s, i, s') && (Inserts(s, i, s') || Deletes(s, i, s') || KeepsPool(s, i, s'))
    requires c < |s'.chans| && (c < |s.chans| ==> ChanOk(s, c))
    ensures ChanOk(s', c)
  {
  }

  lemma KeyAfter(s: State, i: nat, s': State, k: Key)
    requires Frame(s, i, s') && (Inserts(s, i, s') || Deletes(s, i, s') || KeepsPool(s, i, s'))
    requires WaiterOk(s, i) && k in s'.pool && (k in s.pool ==> KeyOk(s, k))
    ensures KeyOk(s', k)
  {
  }

  lemma PusherAfter(s: State, i: nat, s': State, j: nat)
    requires Frame(s, i, s') && (Inserts(s, i, s') || Deletes(s, i, s') || KeepsPool(s, i, s'))
    requires j < |s.procs| && PusherOk(s, j) && (s.procs[j].key in s.pool ==> KeyOk(s, s.procs[j].key))
    ensures PusherOk(s', j)
  {
  }

  lemma BufferAfter(s: State, i: nat, s': State, c: nat)
    requires Frame(s, i, s') && (Sends(s, i, s') || Receives(s, i, s') || KeepsLetters(s, i, s'))
    requires c < |s'.chans| && (c < |s.chans| ==> BufferOk(s, c))
    ensures BufferOk(s', c)
  {
  }

  /** A closed channel that is empty has been read: its owner is past the select. */
  lemma NeverZero(s: State, i: nat)
    requires i < |s.procs| && WaiterOk(s, i)
    requires ReadsZero(s, i) ==>
               var ch := s.procs[i].wait.ch;
               ClosedOk(s, ch) && SenderOk(s, s.chans[ch].closedBy.value)
    ensures !ReadsZero(s, i)
  {
  }

  lemma OutcomeAfter(s: State, i: nat, s': State, j: nat)
    requires Frame(s, i, s') && (Sends(s, i, s') || Receives(s, i, s') || KeepsLetters(s, i, s'))
    requires j < |s.procs| && OutcomeOk(s, j) && (Receives(s, i, s') ==> BufferOk(s, s.procs[i].wait.ch))
    ensures OutcomeOk(s', j)
  {
  }

  lemma SenderAfter(s: State, i: nat, s': State, j: nat)
    requires Frame(s, i, s') && (Sends(s, i, s') || Receives(s, i, s') || KeepsLetters(s, i, s'))
    requires j < |s.procs| && SenderOk(s, j) && PusherOk(s, j) && WaiterOk(s, i)
    requires s.procs[j].Pusher? && HasChan(s.procs[j]) ==>
               BufferOk(s, ChanOf(s.procs[j])) && OutcomeOk(s, s.chans[ChanOf(s.procs[j])].owner)
    ensures SenderOk(s', j)
  {
  }

  lemma ClosedAfter(s: State, i: nat, s': State, c: nat)
    requires Frame(s, i, s') && (Closes(s, i, s') || KeepsClosed(s, i, s'))
    requires c < |s'.chans| && (c < |s.chans| ==> ClosedOk(s, c))
    ensures ClosedOk(s', c)
  {
  }

  lemma CloserAfter(s: State, i: nat, s': State, j: nat)
    requires Frame(s, i, s') && (Closes(s, i, s') || KeepsClosed(s, i, s'))
    requires j < |s.procs| && CloserOk(s, j)
    requires HasClosed(s.procs[j]) && Closes(s, i, s') ==> ChanOf(s.procs[j]) < |s.chans|
    ensures CloserOk(s', j)
  {
  }

  lemma StepKeepsLock(s: State, i: nat, s': State)
    requires LockInv(s) && LockEffect(s, i, s')
    ensures LockInv(s')
  {
    hide LockOk;
    forall j | 0 <= j < |s'.procs| ensures LockOk(s', j) {
      LockAfter(s, i, s', j);
    }
  }

  lemma StepKeepsOwner(s: State, i: nat, s': State)
    requires OwnerInv(s) && PushInv(s) && Effect(s, i, s')
    ensures OwnerInv(s') && PushInv(s')
  {
    hide WaiterOk, ChanOk, KeyOk, PusherOk, Inserts, Deletes, KeepsPool;
    forall j | 0 <= j < |s'.procs| ensures WaiterOk(s', j) && PusherOk(s', j) {
      WaiterAfter(s, i, s', j);
      PusherAfter(s, i, s', j);
    }
    forall c | 0 <= c < |s'.chans| ensures ChanOk(s', c) {
      ChanAfter(s, i, s', c);
    }
    forall k | k in s'.pool ensures KeyOk(s', k) {
      KeyAfter(s, i, s', k);
    }
  }

  lemma StepReadsNoZero(s: State, i: nat)
    requires OwnerInv(s) && LetterInv(s) && CloseInv(s) && i < |s.procs|
    ensures !ReadsZero(s, i)
  {
    hide WaiterOk, SenderOk, BufferOk, OutcomeOk, CloserOk;
    if ReadsZero(s, i) {
      assert ClosedOk(s, s.procs[i].wait.ch);
      NeverZero(s, i);
    }
  }

  lemma StepKeepsLetters(s: State, i: nat, s': State)
    requires OwnerInv(s) && PushInv(s) && LetterInv(s) && CloseInv(s) && Effect(s, i, s')
    ensures LetterInv(s')
  {
    StepReadsNoZero(s, i);
    hide WaiterOk, KeyOk, ChanOk, PusherOk, BufferOk, OutcomeOk, SenderOk, ReadsZero, KeepsLetters;
    forall c | 0 <= c < |s'.chans| ensures BufferOk(s', c) {
      BufferAfter(s, i, s', c);
    }
    forall j | 0 <= j < |s'.procs| ensures OutcomeOk(s', j) {
      OutcomeAfter(s, i, s', j);
    }
    forall j | 0 <= j < |s'.procs| ensures SenderOk(s', j) {
      PusherChan(s, j);
      SenderAfter(s, i, s', j);
    }
  }

  lemma PusherChan(s: State, j: nat)
    requires j < |s.procs| && PusherOk(s, j)
    ensures s.procs[j].Pusher? && HasChan(s.procs[j]) ==>
              ChanOf(s.procs[j]) < |s.chans| && s.chans[ChanOf(s.procs[j])].owner < |s.procs|
  {
  }

  lemma StepKeepsClosed(s: State, i: nat, s': State)
    requires CloseInv(s) && Effect(s, i, s')
    ensures CloseInv(s')
  {
    hide ClosedOk, KeepsClosed;
    forall c | 0 <= c < |s'.chans| ensures ClosedOk(s', c) {
      ClosedAfter(s, i, s', c);
    }
    forall j | 0 <= j < |s'.procs| ensures CloserOk(s', j) {
      CloserAfter(s, i, s', j);
    }
  }

  lemma PanicMeansTwice(s: State, i: nat, expired: bool, s': State)
    requires PushInv(s) && CloseInv(s) && Step(s, i, expired) == Some(s') && s'.panicked
    ensures PushedTwice(s')
  {
    PanicCause(s, i, expired, s');
    var c := ChanOf(s.procs[i]);
    assert ClosedOk(s, c);
    var j := s.chans[c].closedBy.value;
    assert i < j || j < i;
  }

  lemma PanicCause(s: State, i: nat, expired: bool, s': State)
    requires Step(s, i, expired) == Some(s') && s'.panicked
    ensures s'.procs == s.procs && s.procs[i].Pusher? && HasChan(s.procs[i]) && !HasClosed(s.procs[i])
    ensures ChanOf(s.procs[i]) < |s.chans| && s.chans[ChanOf(s.procs[i])].closedBy.Some?
  {
  }

  lemma StepKeepsInv(s: State, i: nat, expired: bool, s': State)
    requires Inv(s) && Step(s, i, expired) == Some(s')
    ensures Inv(s')
  {
    hide Step, LockInv, OwnerInv, PushInv, LetterInv, CloseInv, LockEffect, Frame, Inserts, Deletes, KeepsPool,
         Sends, Receives, ReadsZero, KeepsLetters, Closes, KeepsClosed;
    StepEffect(s, i, expired, s');
    StepKeepsLock(s, i, s');
    StepKeepsOwner(s, i, s');
    StepKeepsLetters(s, i, s');
    StepKeepsClosed(s, i, s');
    if s'.panicked {
      PanicMeansTwice(s, i, expired, s');
    }
  }

  /** The invariant holds in every reachable state, whatever the interleaving. */
  lemma {:induction false} InvOverRun(s: State, schedule: seq<Choice>)
    requires Inv(s)
    ensures Inv(Run(s, schedule))
    decreases |schedule|
  {
    hide Inv, Step;
    if schedule != [] {
      var next := Step(s, schedule[0].call, schedule[0].expired);
      if next.Some? {
        StepKeepsInv(s, schedule[0].call, schedule[0].expired, next.value);
      }
      InvOverRun(if next.Some? then next.value else s, schedule[1..]);
    }
  }

  ghost predicate AllStarting(calls: seq<Proc>) {
    forall i :: 0 <= i < |calls| ==> Starting(calls[i])
  }

  lemma Reachable(calls: seq<Proc>, schedule: seq<Choice>) returns (s: State)
    requires AllStarting(calls)
    ensures s == Run(Start(calls), schedule) && Inv(s)
  {
    hide Inv;
    InvHoldsAtStart(calls);
    InvOverRun(Start(calls), schedule);
    s := Run(Start(calls), schedule);
  }

  // ----- main results -----

  /** In every interleaving the map holds a key exactly while one Wait for it is registered, there is
      never a second one, and the deferred delete removes the channel its own Wait made. */
  lemma Registration(calls: seq<Proc>, schedule: seq<Choice>)
    requires AllStarting(calls)
    ensures var s := Run(Start(calls), schedule);
            && (forall k :: k in s.pool <==> exists i :: 0 <= i < |s.procs| && Registered(s.procs[i]) && s.procs[i].key == k)
            && (forall i, j :: 0 <= i < |s.procs| && 0 <= j < |s.procs| ==>
                  (Registered(s.procs[i]) && Registered(s.procs[j]) && s.procs[i].key == s.procs[j].key ==> i == j))
            && (forall i :: 0 <= i < |s.procs| && Registered(s.procs[i]) ==>
                  && s.procs[i].key in s.pool && s.pool[s.procs[i].key] == ChanOf(s.procs[i]) < |s.chans|
                  && s.chans[ChanOf(s.procs[i])].owner == i)
  {
    var s := Reachable(calls, schedule);
    hide Run;
    forall k | k in s.pool
      ensures exists i :: 0 <= i < |s.procs| && Registered(s.procs[i]) && s.procs[i].key == k
    {
      assert KeyOk(s, k);
    }
    forall i | 0 <= i < |s.procs| && Registered(s.procs[i])
      ensures s.procs[i].key in s.pool && s.pool[s.procs[i].key] == ChanOf(s.procs[i]) < |s.chans|
      ensures s.chans[ChanOf(s.procs[i])].owner == i
    {
      assert WaiterOk(s, i);
    }
  }

  /** A key leaves the map only by the deferred delete of the Wait that made its channel. In particular a
      Wait rejected as a duplicate removes nothing. */
  lemma OnlyOwnDelete(calls: seq<Proc>, schedule: seq<Choice>, i: nat, expired: bool, k: Key)
    requires AllStarting(calls)
    ensures var s := Run(Start(calls), schedule);
            var next := Step(s, i, expired);
            next.Some? && k in s.pool && k !in next.value.pool ==>
              && i < |s.procs| && s.procs[i].Waiter? && s.procs[i].wait.WaitDelete? && s.procs[i].key == k
              && s.pool[k] == ChanOf(s.procs[i]) < |s.chans| && s.chans[s.pool[k]].owner == i
  {
    var s := Reachable(calls, schedule);
    hide Run, Step;
    var next := Step(s, i, expired);
    if next.Some? && k in s.pool && k !in next.value.pool {
      StepEffect(s, i, expired, next.value);
      assert WaiterOk(s, i);
    }
  }

  /** A Wait that returns a message returns one that a Push for its key sent on the channel this very
      Wait made; it never returns the zero value of a closed channel. */
  lemma OwnWindow(calls: seq<Proc>, schedule: seq<Choice>, i: nat)
    requires AllStarting(calls)
    ensures var s := Run(Start(calls), schedule);
            i < |s.procs| && HasOutcome(s.procs[i]) ==>
              && OutcomeOf(s.procs[i]) != ZeroValue
              && (OutcomeOf(s.procs[i]).Received? ==>
                    var l := OutcomeOf(s.procs[i]).letter;
                    && SentOn(s, l, ChanOf(s.procs[i])) && s.procs[l.from].key == s.procs[i].key
                    && ChanOf(s.procs[i]) < |s.chans| && s.chans[ChanOf(s.procs[i])].owner == i)
  {
    var s := Reachable(calls, schedule);
    hide Run;
    if i < |s.procs| && HasOutcome(s.procs[i]) {
      assert OutcomeOk(s, i) && WaiterOk(s, i);
      if OutcomeOf(s.procs[i]).Received? {
        assert PusherOk(s, OutcomeOf(s.procs[i]).letter.from);
      }
    }
  }

  lemma SamePush(s: State, i: nat, j: nat)
    requires !PushedTwice(s) && i < |s.procs| && j < |s.procs| && s.procs[i].Pusher? && s.procs[j].Pusher?
    requires HasChan(s.procs[i]) && HasChan(s.procs[j]) && ChanOf(s.procs[i]) == ChanOf(s.procs[j])
    ensures i == j
  {
  }

  lemma SoleSender(s: State, i: nat)
    requires Inv(s) && !PushedTwice(s) && i < |s.procs| && HoldsReadLock(s.procs[i])
    ensures var next := Step(s, i, false); next.Some? && !next.value.panicked
  {
    hide PushedTwice;
    assert PusherOk(s, i);
    if HasChan(s.procs[i]) && !HasClosed(s.procs[i]) {
      var c := ChanOf(s.procs[i]);
      assert ClosedOk(s, c) && BufferOk(s, c);
      if s.chans[c].closedBy.Some? {
        SamePush(s, i, s.chans[c].closedBy.value);
      } else if s.procs[i].push.PushSend? && |s.chans[c].buf| == 1 {
        SamePush(s, i, s.chans[c].buf[0].from);
      }
    }
  }

  /** With at most one Push per registration nothing panics, and a Push that holds the read lock can
      always take its next step: no send meets a full or a closed channel. */
  lemma PushNeverBlocks(calls: seq<Proc>, schedule: seq<Choice>)
    requires AllStarting(calls)
    ensures var s := Run(Start(calls), schedule);
            !PushedTwice(s) ==>
              && !s.panicked
              && forall i :: 0 <= i < |s.procs| && HoldsReadLock(s.procs[i]) ==>
                   Step(s, i, false).Some? && !Step(s, i, false).value.panicked
  {
    var s := Reachable(calls, schedule);
    hide Run, Step;
    if !PushedTwice(s) {
      forall i | 0 <= i < |s.procs| && HoldsReadLock(s.procs[i])
        ensures Step(s, i, false).Some? && !Step(s, i, false).value.panicked
      {
        SoleSender(s, i);
      }
    }
  }

  predicate Finished(p: Proc) {
    match p
    case Waiter(_, pc) => pc.WaitRejected? || pc.WaitDone?
    case Pusher(_, _, pc) => pc.PushFailed? || pc.PushDone?
  }

  ghost predicate AllFinished(s: State) {
    forall i :: 0 <= i < |s.procs| ==> Finished(s.procs[i])
  }

  ghost predicate Stuck(s: State) {
    forall i: nat, expired: bool :: Step(s, i, expired).None?
  }

  lemma SomeoneSteps(s: State, i: nat)
    requires Inv(s) && !PushedTwice(s) && i < |s.procs| && !Finished(s.procs[i])
    ensures !Stuck(s)
  {
    if s.writer.Some? {
      assert LockOk(s, s.writer.value);
      LockHolderSteps(s, s.writer.value);
    } else if s.readers != {} {
      var j :| j in s.readers;
      assert LockOk(s, j);
      SoleSender(s, j);
    } else {
      assert LockOk(s, i);
      FreeLockSteps(s, i);
    }
  }

  lemma LockHolderSteps(s: State, i: nat)
    requires !s.panicked && i < |s.procs| && HoldsLock(s.procs[i])
    ensures Step(s, i, false).Some?
  {
  }

  lemma FreeLockSteps(s: State, i: nat)
    requires !s.panicked && s.writer.None? && s.readers == {}
    requires i < |s.procs| && !Finished(s.procs[i]) && !HoldsLock(s.procs[i]) && !HoldsReadLock(s.procs[i])
    ensures Step(s, i, true).Some?
  {
  }

  /** In a state where nothing can step and nothing has panicked, a Push that found a channel has closed it. */
  lemma StuckPusher(s: State, i: nat)
    requires Inv(s) && Stuck(s) && !s.panicked && i < |s.procs| && s.procs[i].Pusher? && HasChan(s.procs[i])
    ensures HasClosed(s.procs[i])
  {
    assert PusherOk(s, i) && Step(s, i, false).None?;
    var c := ChanOf(s.procs[i]);
    assert BufferOk(s, c);
    assert |s.chans[c].buf| == 1 ==>
        var j := s.chans[c].buf[0].from; Step(s, j, false).None? && CloserOk(s, j);
  }

  /** A run that can go no further has panicked exactly when two Push calls found one registration. */
  lemma PanicsIff(calls: seq<Proc>, schedule: seq<Choice>)
    requires AllStarting(calls) && Stuck(Run(Start(calls), schedule))
    ensures var s := Run(Start(calls), schedule); s.panicked <==> PushedTwice(s)
  {
    var s := Reachable(calls, schedule);
    hide Run, Step, Stuck;
    if !s.panicked {
      forall i, j | 0 <= i < j < |s.procs| && s.procs[i].Pusher? && s.procs[j].Pusher?
                    && HasChan(s.procs[i]) && HasChan(s.procs[j])
        ensures ChanOf(s.procs[i]) != ChanOf(s.procs[j])
      {
        StuckPusher(s, i);
        StuckPusher(s, j);
        assert CloserOk(s, i) && CloserOk(s, j);
      }
    }
  }

  /** ... and otherwise it has finished every call. A Wait can always take its timeout, so this supposes
      that every context ends in time. */
  lemma CompletesIff(calls: seq<Proc>, schedule: seq<Choice>)
    requires AllStarting(calls) && Stuck(Run(Start(calls), schedule))
    ensures var s := Run(Start(calls), schedule); AllFinished(s) <==> !PushedTwice(s)
  {
    var s := Reachable(calls, schedule);
    hide Run, Step;
    if !PushedTwice(s) {
      forall i | 0 <= i < |s.procs| ensures Finished(s.procs[i]) {
        if !Finished(s.procs[i]) {
          SomeoneSteps(s, i);
        }
      }
    }
    if AllFinished(s) {
      FinishedOnce(s);
    }
  }

  lemma FinishedOnce(s: State)
    requires Inv(s) && AllFinished(s)
    ensures !PushedTwice(s)
  {
    forall i, j | 0 <= i < j < |s.procs| && s.procs[i].Pusher? && s.procs[j].Pusher?
                  && HasChan(s.procs[i]) && HasChan(s.procs[j])
      ensures ChanOf(s.procs[i]) != ChanOf(s.procs[j])
    {
      assert CloserOk(s, i) && CloserOk(s, j);
    }
  }

  lemma RunOne(s: State, call: nat, rest: seq<Choice>, s': State)
    requires Step(s, call, false) == Some(s')
    ensures Run(s, [Choice(call, false)] + rest) == Run(s', rest)
  {
    assert ([Choice(call, false)] + rest)[1..] == rest;
  }

  /** Two Push calls for one registration do panic the program in some interleaving. */
  lemma TwoPushesPanic(key: Key, a: Payload, b: Payload)
    ensures exists schedule ::
              Run(Start([Waiter(key, WaitStart), Pusher(key, a, PushStart), Pusher(key, b, PushStart)]), schedule).panicked
  {
    var s3 := BothMayPush(key, a, b);
    var s7, r7 := PanicFollows(key, a, b);
    var s4 := Step(s3, 1, false).value;
    var s5 := Step(s4, 1, false).value;
    var s6 := Step(s5, 2, false).value;
    var looked := Step(s6, 2, false).value;
    assert looked.procs == s7.procs && looked.readers == s7.readers;
    hide Step;
    var r6 := [Choice(2, false)] + r7;
    RunOne(s6, 2, r7, s7);
    var r5 := [Choice(2, false)] + r6;
    RunOne(s5, 2, r6, s6);
    var r4 := [Choice(1, false)] + r5;
    RunOne(s4, 1, r5, s5);
    var r3 := [Choice(1, false)] + r4;
    RunOne(s3, 1, r4, s4);
    var schedule := WaitFirst(key, a, b, r3);
  }

  /** The Wait has registered and is in its select; both Push calls are still to come. */
  ghost function BothMayPush(key: Key, a: Payload, b: Payload): State {
    State(map[key := 0], [Chan(0, [], None)],
          [Waiter(key, WaitSelect(0)), Pusher(key, a, PushStart), Pusher(key, b, PushStart)], None, {}, false)
  }

  lemma WaitFirst(key: Key, a: Payload, b: Payload, r3: seq<Choice>) returns (schedule: seq<Choice>)
    ensures Run(Start([Waiter(key, WaitStart), Pusher(key, a, PushStart), Pusher(key, b, PushStart)]), schedule)
         == Run(BothMayPush(key, a, b), r3)
  {
    var s0 := Start([Waiter(key, WaitStart), Pusher(key, a, PushStart), Pusher(key, b, PushStart)]);
    var s3 := BothMayPush(key, a, b);
    var s1 := Step(s0, 0, false).value;
    var s2 := Step(s1, 0, false).value;
    var selecting := Step(s2, 0, false).value;
    assert selecting.procs == s3.procs && selecting.chans == s3.chans && selecting.pool == s3.pool;
    hide Step;
    var r2 := [Choice(0, false)] + r3;
    RunOne(s2, 0, r3, s3);
    var r1 := [Choice(0, false)] + r2;
    RunOne(s1, 0, r2, s2);
    RunOne(s0, 0, r1, s1);
    schedule := [Choice(0, false)] + r1;
  }

  /** Once both Push calls have looked the channel up, the first to finish makes the other panic. */
  lemma PanicFollows(key: Key, a: Payload, b: Payload) returns (s7: State, r7: seq<Choice>)
    ensures s7 == State(map[key := 0], [Chan(0, [], None)],
                        [Waiter(key, WaitSelect(0)), Pusher(key, a, PushSend(0)), Pusher(key, b, PushSend(0))],
                        None, {1, 2}, false)
    ensures Run(s7, r7).panicked
  {
    s7 := State(map[key := 0], [Chan(0, [], None)],
                [Waiter(key, WaitSelect(0)), Pusher(key, a, PushSend(0)), Pusher(key, b, PushSend(0))],
                None, {1, 2}, false);
    var s8 := Step(s7, 1, false).value;
    var s9 := Step(s8, 1, false).value;
    var s10 := Step(s9, 2, false).value;
    hide Step;
    var r9 := [Choice(2, false)] + [];
    RunOne(s9, 2, [], s10);
    var r8 := [Choice(1, false)] + r9;
    RunOne(s8, 1, r9, s9);
    RunOne(s7, 1, r8, s8);
    r7 := [Choice(1, false)] + r8;
  }

  // ----- calls find each other, and messages arrive -----

  /** A Wait that holds the lock registers exactly when no Wait for its key is registered; otherwise it is
      rejected. */
  lemma RegistersIff(calls: seq<Proc>, schedule: seq<Choice>, i: nat)
    requires AllStarting(calls)
    ensures var s := Run(Start(calls), schedule);
            !s.panicked && i < |s.procs| && s.procs[i].Waiter? && s.procs[i].wait.WaitCheck? ==>
              var next := Step(s, i, false);
              && next.Some? && |next.value.procs| == |s.procs|
              && (Registered(next.value.procs[i])
                  <==> !exists j :: 0 <= j < |s.procs| && Registered(s.procs[j]) && s.procs[j].key == s.procs[i].key)
              && (!Registered(next.value.procs[i]) ==> next.value.procs[i].wait == WaitReject)
  {
    var s := Reachable(calls, schedule);
    Registration(calls, schedule);
    hide Run;
  }

  /** A Push that holds the read lock goes on to send exactly when some Wait for its key is registered, and
      then on the channel of that Wait. */
  lemma FindsIff(calls: seq<Proc>, schedule: seq<Choice>, i: nat)
    requires AllStarting(calls)
    ensures var s := Run(Start(calls), schedule);
            !s.panicked && i < |s.procs| && s.procs[i].Pusher? && s.procs[i].push.PushLookup? ==>
              var next := Step(s, i, false);
              && next.Some? && |next.value.procs| == |s.procs| && next.value.procs[i].Pusher?
              && (next.value.procs[i].push == PushMissing
                  <==> !exists j :: 0 <= j < |s.procs| && Registered(s.procs[j]) && s.procs[j].key == s.procs[i].key)
              && (forall j :: 0 <= j < |s.procs| && Registered(s.procs[j]) && s.procs[j].key == s.procs[i].key ==>
                    next.value.procs[i].push == PushSend(ChanOf(s.procs[j])))
  {
    var s := Reachable(calls, schedule);
    Registration(calls, schedule);
    hide Run;
  }

  lemma ReceiveStep(s: State, i: nat, ch: nat)
    requires Inv(s) && !s.panicked && i < |s.procs| && s.procs[i].Waiter? && s.procs[i].wait == WaitSelect(ch)
    ensures ch < |s.chans|
    ensures s.chans[ch].buf != [] ==>
              var next := Step(s, i, false);
              && next.Some? && |next.value.procs| == |s.procs|
              && next.value.procs[i] == Waiter(s.procs[i].key, WaitCleanup(ch, Received(s.chans[ch].buf[0])))
  {
    assert WaiterOk(s, i);
  }

  /** Whenever a message is in the channel of a Wait in its select, the Wait can take it without a timeout. */
  lemma SelectReceives(calls: seq<Proc>, schedule: seq<Choice>, i: nat)
    requires AllStarting(calls)
    ensures var s := Run(Start(calls), schedule);
            !s.panicked && i < |s.procs| && s.procs[i].Waiter? && s.procs[i].wait.WaitSelect? ==>
              var ch := s.procs[i].wait.ch;
              && ch < |s.chans|
              && (s.chans[ch].buf != [] ==>
                    var next := Step(s, i, false);
                    && next.Some? && |next.value.procs| == |s.procs|
                    && next.value.procs[i] == Waiter(s.procs[i].key, WaitCleanup(ch, Received(s.chans[ch].buf[0]))))
  {
    var s := Reachable(calls, schedule);
    hide Run, Inv, Step;
    if !s.panicked && i < |s.procs| && s.procs[i].Waiter? && s.procs[i].wait.WaitSelect? {
      ReceiveStep(s, i, s.procs[i].wait.ch);
    }
  }

  ghost predicate NoneTimedOut(s: State) {
    forall i :: 0 <= i < |s.procs| && HasOutcome(s.procs[i]) ==> OutcomeOf(s.procs[i]) != TimedOut
  }

  lemma NoTimeoutStep(s: State, i: nat, s': State)
    requires i < |s.procs| && s.procs[i].Waiter? && WaitStep(s, i, false) == Some(s')
    ensures |s'.procs| == |s.procs|
    ensures HasOutcome(s'.procs[i]) && !HasOutcome(s.procs[i]) ==> OutcomeOf(s'.procs[i]) != TimedOut
  {
  }

  lemma StepTimesNoneOut(s: State, i: nat, s': State)
    requires NoneTimedOut(s) && Step(s, i, false) == Some(s')
    ensures NoneTimedOut(s')
  {
    StepEffect(s, i, false, s');
    if s.procs[i].Waiter? {
      NoTimeoutStep(s, i, s');
    }
    hide WaitStep, PushStep;
  }

  ghost predicate NoneExpires(schedule: seq<Choice>) {
    forall i :: 0 <= i < |schedule| ==> !schedule[i].expired
  }

  /** A Wait times out only when its context expires. */
  lemma {:induction false} TimeoutNeedsExpiry(s: State, schedule: seq<Choice>)
    requires NoneTimedOut(s) && NoneExpires(schedule)
    ensures NoneTimedOut(Run(s, schedule))
    decreases |schedule|
  {
    hide Step, NoneTimedOut;
    if schedule != [] {
      var next := Step(s, schedule[0].call, false);
      if next.Some? {
        StepTimesNoneOut(s, schedule[0].call, next.value);
      }
      TimeoutNeedsExpiry(if next.Some? then next.value else s, schedule[1..]);
    }
  }

  /** No call can step unless a context expires. */
  ghost predicate Quiet(s: State) {
    forall i: nat :: Step(s, i, false).None?
  }

  /** In a quiet state nobody holds the lock. */
  lemma QuietIsUnlocked(s: State)
    requires Inv(s) && Quiet(s) && !PushedTwice(s)
    ensures s.writer.None? && s.readers == {}
  {
    hide Step;
    if s.writer.Some? {
      assert LockOk(s, s.writer.value);
      LockHolderSteps(s, s.writer.value);
    } else if s.readers != {} {
      var j :| j in s.readers;
      assert LockOk(s, j);
      SoleSender(s, j);
    }
  }

  /** In a quiet state a Wait has been rejected, has its outcome, or selects on an empty channel. */
  lemma QuietWait(s: State, i: nat)
    requires Inv(s) && Quiet(s) && !PushedTwice(s) && i < |s.procs| && s.procs[i].Waiter?
    ensures match s.procs[i].wait
            case WaitRejected => true
            case WaitDone(_, _) => true
            case WaitSelect(ch) => ch < |s.chans| && s.chans[ch].buf == []
            case _ => false
  {
    QuietIsUnlocked(s);
    assert LockOk(s, i) && Step(s, i, false).None?;
    if s.procs[i].wait.WaitSelect? {
      ReceiveStep(s, i, s.procs[i].wait.ch);
    }
  }

  lemma SentArrives(s: State, j: nat)
    requires Inv(s) && Quiet(s) && !PushedTwice(s) && NoneTimedOut(s) && j < |s.procs| && HasSent(s.procs[j])
    ensures var ch := ChanOf(s.procs[j]);
            && ch < |s.chans| && s.chans[ch].owner < |s.procs|
            && s.procs[s.chans[ch].owner]
               == Waiter(s.procs[j].key, WaitDone(ch, Received(Letter(j, s.procs[j].msg))))
  {
    hide Step, Quiet, PushedTwice;
    var ch, l := ChanOf(s.procs[j]), Letter(j, s.procs[j].msg);
    assert PusherOk(s, j) && SenderOk(s, j);
    var o := s.chans[ch].owner;
    assert WaiterOk(s, o) && OutcomeOk(s, o);
    QuietWait(s, o);
    if s.procs[o].wait.WaitDone? {
      var got := OutcomeOf(s.procs[o]).letter;
      SamePush(s, j, got.from);
    }
  }

  /** Delivery: when no context expires and no registration is found by two Push calls, every run that can go
      no further has handed the message of each Push that found a channel to the very Wait whose channel it
      was, and that Wait has returned it. The other Waits were rejected or still select, with nothing sent. */
  lemma Delivered(calls: seq<Proc>, schedule: seq<Choice>)
    requires AllStarting(calls) && NoneExpires(schedule)
    requires Quiet(Run(Start(calls), schedule)) && !PushedTwice(Run(Start(calls), schedule))
    ensures var s := Run(Start(calls), schedule);
            && (forall j :: 0 <= j < |s.procs| && s.procs[j].Pusher? ==>
                  && Finished(s.procs[j])
                  && (HasChan(s.procs[j]) ==>
                        var ch := ChanOf(s.procs[j]);
                        && ch < |s.chans| && s.chans[ch].owner < |s.procs|
                        && s.procs[s.chans[ch].owner]
                           == Waiter(s.procs[j].key, WaitDone(ch, Received(Letter(j, s.procs[j].msg))))))
            && (forall i :: 0 <= i < |s.procs| && s.procs[i].Waiter? ==>
                  match s.procs[i].wait
                  case WaitRejected => true
                  case WaitDone(ch, out) => out.Received? && SentOn(s, out.letter, ch)
                  case WaitSelect(ch) => ch < |s.chans| && s.chans[ch].buf == []
                  case _ => false)
  {
    var s := Reachable(calls, schedule);
    TimeoutNeedsExpiry(Start(calls), schedule);
    hide Run, Step, Quiet, PushedTwice;
    forall j | 0 <= j < |s.procs| && s.procs[j].Pusher?
      ensures Finished(s.procs[j])
      ensures HasChan(s.procs[j]) ==>
                var ch := ChanOf(s.procs[j]);
                && ch < |s.chans| && s.chans[ch].owner < |s.procs|
                && s.procs[s.chans[ch].owner] == Waiter(s.procs[j].key, WaitDone(ch, Received(Letter(j, s.procs[j].msg))))
    {
      QuietPush(s, j);
      if HasChan(s.procs[j]) {
        SentArrives(s, j);
      }
    }
    forall i | 0 <= i < |s.procs| && s.procs[i].Waiter?
      ensures match s.procs[i].wait
              case WaitRejected => true
              case WaitDone(ch, out) => out.Received? && SentOn(s, out.letter, ch)
              case WaitSelect(ch) => ch < |s.chans| && s.chans[ch].buf == []
              case _ => false
    {
      QuietWait(s, i);
      assert OutcomeOk(s, i);
    }
  }

  lemma QuietPush(s: State, j: nat)
    requires Inv(s) && Quiet(s) && !PushedTwice(s) && j < |s.procs| && s.procs[j].Pusher?
    ensures Finished(s.procs[j])
  {
    QuietIsUnlocked(s);
    assert LockOk(s, j) && Step(s, j, false).None?;
  }

  // ----- every run is short -----

  function Rank(p: Proc): nat {
    match p
    case Waiter(_, pc) =>
      (match pc
       case WaitStart => 7
       case WaitCheck => 6
       case WaitRegistered(_) => 5
       case WaitSelect(_) => 4
       case WaitCleanup(_, _) => 3
       case WaitDelete(_, _) => 2
       case WaitUnlock(_, _) => 1
       case WaitReject => 1
       case _ => 0)
    case Pusher(_, _, pc) =>
      (match pc
       case PushStart => 5
       case PushLookup => 4
       case PushSend(_) => 3
       case PushClose(_) => 2
       case PushReturn(_) => 1
       case PushMissing => 1
       case _ => 0)
  }

  function Left(procs: seq<Proc>): nat {
    if procs == [] then 0 else Rank(procs[0]) + Left(procs[1..])
  }

  lemma {:induction false} LeftUpdate(procs: seq<Proc>, i: nat, p: Proc)
    requires i < |procs|
    ensures Left(procs[i := p]) + Rank(procs[i]) == Left(procs) + Rank(p)
  {
    if i == 0 {
      assert procs[0 := p][1..] == procs[1..];
    } else {
      assert procs[i := p][1..] == procs[1..][i - 1 := p];
      LeftUpdate(procs[1..], i - 1, p);
    }
  }

  predicate Registering(pc: WaitPC) {
    pc.WaitStart? || pc.WaitCheck? || pc.WaitReject? || pc.WaitRegistered?
  }

  lemma EarlyRanks(s: State, i: nat, expired: bool, s': State)
    requires i < |s.procs| && s.procs[i].Waiter? && WaitStep(s, i, expired) == Some(s')
    requires Registering(s.procs[i].wait)
    ensures |s'.procs| == |s.procs| && s'.panicked == s.panicked && Rank(s'.procs[i]) < Rank(s.procs[i])
  {
  }

  lemma LateRanks(s: State, i: nat, expired: bool, s': State)
    requires i < |s.procs| && s.procs[i].Waiter? && WaitStep(s, i, expired) == Some(s')
    requires !Registering(s.procs[i].wait)
    ensures |s'.procs| == |s.procs| && s'.panicked == s.panicked && Rank(s'.procs[i]) < Rank(s.procs[i])
  {
  }

  lemma WaitRanks(s: State, i: nat, expired: bool, s': State)
    requires i < |s.procs| && s.procs[i].Waiter? && WaitStep(s, i, expired) == Some(s')
    ensures |s'.procs| == |s.procs| && s'.panicked == s.panicked && Rank(s'.procs[i]) < Rank(s.procs[i])
  {
    hide WaitStep, Rank;
    if Registering(s.procs[i].wait) {
      EarlyRanks(s, i, expired, s');
    } else {
      LateRanks(s, i, expired, s');
    }
  }

  lemma PushRanks(s: State, i: nat, s': State)
    requires i < |s.procs| && s.procs[i].Pusher? && PushStep(s, i) == Some(s')
    ensures |s'.procs| == |s.procs| && (s'.panicked || Rank(s'.procs[i]) < Rank(s.procs[i]))
    ensures Rank(s'.procs[i]) <= Rank(s.procs[i])
  {
  }

  /** Every choice of the schedule is one that can step. */
  ghost predicate Effective(s: State, schedule: seq<Choice>)
    decreases |schedule|
  {
    schedule == [] ||
    var next := Step(s, schedule[0].call, schedule[0].expired);
    next.Some? && Effective(next.value, schedule[1..])
  }

  lemma {:induction false} RunLength(s: State, schedule: seq<Choice>)
    requires Effective(s, schedule)
    ensures |schedule| <= if s.panicked then 0 else Left(s.procs) + 1
    decreases |schedule|
  {
    if schedule != [] {
      var i, s' := schedule[0].call, Step(s, schedule[0].call, schedule[0].expired).value;
      StepEffect(s, i, schedule[0].expired, s');
      if s.procs[i].Waiter? {
        WaitRanks(s, i, schedule[0].expired, s');
      } else {
        PushRanks(s, i, s');
      }
      hide Step, Effect, Rank;
      assert s'.procs == s.procs[i := s'.procs[i]];
      LeftUpdate(s.procs, i, s'.procs[i]);
      RunLength(s', schedule[1..]);
    }
  }

  lemma {:induction false} LeftAtStart(calls: seq<Proc>)
    requires AllStarting(calls)
    ensures Left(calls) <= 7 * |calls|
  {
    if calls != [] {
      LeftAtStart(calls[1..]);
    }
  }

  /** No call steps for ever: a run of n calls takes at most 7n + 1 steps, so every run reaches a stuck state. */
  lemma RunsAreShort(calls: seq<Proc>, schedule: seq<Choice>)
    requires AllStarting(calls) && Effective(Start(calls), schedule)
    ensures |schedule| <= 7 * |calls| + 1
  {
    RunLength(Start(calls), schedule);
    LeftAtStart(calls);
  }

  // ----- conservation -----

  function Senders(s: State): set<nat> {
    set i | 0 <= i < |s.procs| && HasSent(s.procs[i])
  }

  function Receivers(s: State): set<nat> {
    set i | 0 <= i < |s.procs| && HasOutcome(s.procs[i]) && OutcomeOf(s.procs[i]).Received?
  }

  function FullChans(s: State): set<nat> {
    set c | 0 <= c < |s.chans| && s.chans[c].buf != []
  }

  function SenderTo(s: State, i: nat): nat {
    if i in Receivers(s) then OutcomeOf(s.procs[i]).letter.from else 0
  }

  function SenderIn(s: State, c: nat): nat {
    if c in FullChans(s) then s.chans[c].buf[0].from else 0
  }

  lemma {:induction false} ImageSize(a: set<nat>, b: set<nat>, f: nat -> nat)
    requires forall x :: x in a ==> f(x) in b
    requires forall y :: y in b ==> exists x :: x in a && f(x) == y
    requires forall x, y :: x in a && y in a && f(x) == f(y) ==> x == y
    ensures |a| == |b|
    decreases |a|
  {
    if a == {} {
      assert b == {};
    } else {
      var x :| x in a;
      ImageSize(a - {x}, b - {f(x)}, f);
    }
  }

  lemma LettersAreSomewhere(s: State)
    requires Inv(s)
    ensures forall i :: i in Receivers(s) ==> SenderTo(s, i) in Senders(s)
    ensures forall c :: c in FullChans(s) ==> SenderIn(s, c) in Senders(s)
    ensures forall i, c :: i in Receivers(s) && c in FullChans(s) ==> SenderTo(s, i) != SenderIn(s, c)
    ensures forall j :: j in Senders(s) ==>
              (exists i :: i in Receivers(s) && SenderTo(s, i) == j) || (exists c :: c in FullChans(s) && SenderIn(s, c) == j)
  {
    forall i | i in Receivers(s) ensures SenderTo(s, i) in Senders(s) {
      assert OutcomeOk(s, i);
    }
    forall c | c in FullChans(s) ensures SenderIn(s, c) in Senders(s) {
      assert BufferOk(s, c);
    }
    forall i, c | i in Receivers(s) && c in FullChans(s) ensures SenderTo(s, i) != SenderIn(s, c) {
      assert OutcomeOk(s, i) && BufferOk(s, c) && WaiterOk(s, i) && SenderOk(s, SenderIn(s, c));
    }
    forall j | j in Senders(s)
      ensures (exists i :: i in Receivers(s) && SenderTo(s, i) == j) || (exists c :: c in FullChans(s) && SenderIn(s, c) == j)
    {
      assert SenderOk(s, j) && PusherOk(s, j);
      var c := ChanOf(s.procs[j]);
      if IsBuffered(s, Letter(j, s.procs[j].msg), c) {
        assert c in FullChans(s) && SenderIn(s, c) == j;
      } else {
        var o := s.chans[c].owner;
        assert o in Receivers(s) && SenderTo(s, o) == j;
      }
    }
  }

  lemma SendersDiffer(s: State)
    requires Inv(s)
    ensures forall i, j :: i in Receivers(s) && j in Receivers(s) && SenderTo(s, i) == SenderTo(s, j) ==> i == j
    ensures forall c, d :: c in FullChans(s) && d in FullChans(s) && SenderIn(s, c) == SenderIn(s, d) ==> c == d
  {
    forall i, j | i in Receivers(s) && j in Receivers(s) && SenderTo(s, i) == SenderTo(s, j) ensures i == j {
      assert OutcomeOk(s, i) && OutcomeOk(s, j) && WaiterOk(s, i) && WaiterOk(s, j);
    }
    forall c, d | c in FullChans(s) && d in FullChans(s) && SenderIn(s, c) == SenderIn(s, d) ensures c == d {
      assert BufferOk(s, c) && BufferOk(s, d);
    }
  }

  lemma {:induction false} TwoImages(a: set<nat>, f: nat -> nat, b: set<nat>, g: nat -> nat, all: set<nat>)
    requires forall x :: x in a ==> f(x) in all
    requires forall y :: y in b ==> g(y) in all
    requires forall x, y :: x in a && y in b ==> f(x) != g(y)
    requires forall z :: z in all ==> (exists x :: x in a && f(x) == z) || (exists y :: y in b && g(y) == z)
    requires forall x, y :: x in a && y in a && f(x) == f(y) ==> x == y
    requires forall x, y :: x in b && y in b && g(x) == g(y) ==> x == y
    ensures |all| == |a| + |b|
    decreases |a|
  {
    if a == {} {
      ImageSize(b, all, g);
    } else {
      var x :| x in a;
      TwoImages(a - {x}, f, b, g, all - {f(x)});
    }
  }

  /** Conservation: the letters sent are the messages returned or about to be returned by a Wait, plus
      those still in a channel, where a timeout may have abandoned them. */
  lemma Conservation(calls: seq<Proc>, schedule: seq<Choice>)
    requires AllStarting(calls)
    ensures var s := Run(Start(calls), schedule); |Senders(s)| == |Receivers(s)| + |FullChans(s)|
  {
    var s := Reachable(calls, schedule);
    LettersAreSomewhere(s);
    SendersDiffer(s);
    hide Inv, Senders, Receivers, FullChans, SenderTo, SenderIn, Run;
    TwoImages(Receivers(s), i => SenderTo(s, i), FullChans(s), c => SenderIn(s, c), Senders(s));
  }
}
