/** Unknown fields: a grammar of complete wire fields, and the skipper that recognises it. */
module Wire {
  import opened Bytes
  import opened Varint

  /** Buffers are assumed to end at least 8 below the largest int, so adding a fixed width cannot wrap. */
  const MAX_BUFFER: int := TWO63 - 1 - 8

  type Buffer = s: seq<byte> | |s| <= MAX_BUFFER witness []

  datatype Skip = Skipped(len: nat) | Bad(error: WireError)

  // ----- lengths -----

  /** Where the payload of a delimited field starts and ends; the end may lie past the buffer. */
  datatype Extent = Extent(start: nat, end: nat) | NoExtent(error: WireError)

  /** The extent announced by the length at `s[i]`, when s[0] stands at position `base` of a buffer. */
  function ReadExtent(s: Buffer, i: nat, base: nat): Extent {
    match ReadVarint(From(s, i))
    case Broken(e, _) => NoExtent(e)
    case Read(length, n) =>
      if length >= TWO63 || base + i + n + length >= TWO63 then NoExtent(InvalidLength)
      else Extent(i + n, i + n + length)
  }

  // ----- the skipper as a function -----

  predicate IsSkipError(e: WireError) {
    e.IntOverflow? || e.UnexpectedEOF? || e.InvalidLength? || e.IllegalWireType?
  }

  /** The length of the field at the front of `s`; for fixed-width and delimited fields it may lie past the end. */
  function SkipField(s: Buffer): (r: Skip)
    requires s != []
    ensures r.Skipped? ==> 0 < r.len < TWO63
    ensures r.Bad? ==> IsSkipError(r.error)
    decreases |s|, 0
  {
    ReadBounds(s);
    match ReadVarint(s)
    case Broken(e, _) => Bad(e)
    case Read(wire, k) => SkipBody(s, k, wire % 8)
  }

  /** The same, after a tag of k bytes. */
  function SkipBody(s: Buffer, k: nat, wireType: nat): (r: Skip)
    requires 0 < k <= |s|
    ensures r.Skipped? ==> 0 < r.len < TWO63
    ensures r.Bad? ==> IsSkipError(r.error)
    decreases |s| - k, 2
  {
    match wireType
    case 0 =>
      ReadBounds(s[k..]);
      (match ReadVarint(s[k..])
       case Broken(e, _) => Bad(e)
       case Read(_, n) => Skipped(k + n))
    case 1 => Skipped(k + 8)
    case 2 =>
      ReadBounds(From(s, k));
      (match ReadExtent(s, k, 0)
       case NoExtent(e) => Bad(e)
       case Extent(_, end) => Skipped(end))
    case 3 => SkipGroup(s, k)
    case 4 => Skipped(k)
    case 5 => Skipped(k + 4)
    case other => Bad(IllegalWireType(other))
  }

  /** Skips the fields of a group from position i on, up to and including its end tag. */
  function SkipGroup(s: Buffer, i: nat): (r: Skip)
    requires i > 0
    ensures r.Skipped? ==> i < r.len <= |s|
    ensures r.Bad? ==> IsSkipError(r.error)
    decreases if i <= |s| then |s| - i else 0, 1
  {
    ReadBounds(From(s, i));
    match ReadVarint(From(s, i))
    case Broken(e, _) => Bad(e)
    case Read(wire, k) =>
      if wire % 8 == 4 then Skipped(i + k)
      else match SkipField(s[i..])
        case Bad(e) => Bad(e)
        case Skipped(n) => if i + n >= TWO63 then Bad(InvalidLength) else SkipGroup(s, i + n)
  }

  /** One pass of the group loop. */
  lemma GroupOnce(s: Buffer, i: nat)
    requires i > 0
    ensures var r := ReadVarint(From(s, i));
            && (r.Broken? ==> SkipGroup(s, i) == Bad(r.error))
            && (r.Read? ==> i < |s|)
            && (r.Read? && r.value % 8 == 4 ==> SkipGroup(s, i) == Skipped(i + r.len))
            && (r.Read? && r.value % 8 != 4 ==>
                  SkipGroup(s, i) == match SkipField(s[i..])
                                     case Bad(e) => Bad(e)
                                     case Skipped(n) =>
                                       if i + n >= TWO63 then Bad(InvalidLength) else SkipGroup(s, i + n))
  {
    ReadBounds(From(s, i));
  }

  // ----- the grammar of complete fields -----

  datatype Field =
    | Scalar(tag: seq<byte>, body: seq<byte>)
    | Fixed(tag: seq<byte>, body: seq<byte>)
    | Delimited(tag: seq<byte>, length: seq<byte>, body: seq<byte>)
    | Group(tag: seq<byte>, items: Fields, end: seq<byte>)

  datatype Fields = Nil | Cons(head: Field, tail: Fields)

  function Render(f: Field): seq<byte> {
    match f
    case Scalar(tag, body) => tag + body
    case Fixed(tag, body) => tag + body
    case Delimited(tag, length, body) => tag + length + body
    case Group(tag, items, end) => tag + RenderAll(items) + end
  }

  function RenderAll(fs: Fields): seq<byte> {
    match fs
    case Nil => []
    case Cons(f, rest) => Render(f) + RenderAll(rest)
  }

  /** `s` is one varint and nothing else; it need not be in shortest form. */
  predicate IsVarint(s: seq<byte>) {
    ReadVarint(s).Read? && ReadVarint(s).len == |s|
  }

  function WireType(tag: seq<byte>): nat {
    ReadVarint(tag).value % 8
  }

  predicate Complete(f: Field) {
    IsVarint(f.tag) && match f
    case Scalar(tag, body) => WireType(tag) == 0 && IsVarint(body)
    case Fixed(tag, body) => (WireType(tag) == 1 && |body| == 8) || (WireType(tag) == 5 && |body| == 4)
    case Delimited(tag, length, body) => WireType(tag) == 2 && IsVarint(length) && ReadVarint(length).value == |body|
    case Group(tag, items, end) => WireType(tag) == 3 && AllComplete(items) && IsVarint(end) && WireType(end) == 4
  }

  predicate AllComplete(fs: Fields) {
    fs.Cons? ==> Complete(fs.head) && AllComplete(fs.tail)
  }

  function Append(a: Fields, b: Fields): Fields {
    match a
    case Nil => b
    case Cons(f, rest) => Cons(f, Append(rest, b))
  }

  lemma {:induction false} RenderAppend(a: Fields, b: Fields)
    ensures RenderAll(Append(a, b)) == RenderAll(a) + RenderAll(b)
    ensures AllComplete(a) && AllComplete(b) ==> AllComplete(Append(a, b))
  {
    if a.Cons? {
      RenderAppend(a.tail, b);
    }
  }

  // ----- the skipper recognises the grammar -----

  lemma VarintAt(v: seq<byte>, t: seq<byte>)
    requires IsVarint(v)
    ensures v != [] && ReadVarint(v + t) == ReadVarint(v)
  {
    ReadBounds(v);
    ReadLocal(v, t);
  }

  lemma TagStarts(f: Field)
    requires Complete(f)
    ensures f.tag <= Render(f) && f.tag != []
  {
    ReadBounds(f.tag);
  }

  /** Completeness: in front of any bytes, a complete field is skipped exactly. */
  lemma {:induction false} SkipComplete(f: Field, t: seq<byte>)
    requires Complete(f) && |Render(f) + t| <= MAX_BUFFER
    ensures Render(f) != [] && SkipField(Render(f) + t) == Skipped(|Render(f)|)
    decreases f
  {
    hide ReadVarint, SkipGroup;
    var s, k := Render(f) + t, |f.tag|;
    TagStarts(f);
    match f
    case Scalar(tag, body) =>
      assert s == tag + (body + t);
      VarintAt(tag, body + t);
      assert s[k..] == body + t;
      VarintAt(body, t);
    case Fixed(tag, body) =>
      assert s == tag + (body + t);
      VarintAt(tag, body + t);
    case Delimited(tag, length, body) =>
      assert s == tag + (length + (body + t));
      VarintAt(tag, length + (body + t));
      assert s[k..] == length + (body + t);
      VarintAt(length, body + t);
    case Group(tag, items, end) =>
      assert s == tag + (RenderAll(items) + (end + t));
      VarintAt(tag, RenderAll(items) + (end + t));
      assert s[k..] == RenderAll(items) + (end + t);
      SkipItems(s, k, items, end, t);
  }

  lemma {:induction false} SkipItems(s: Buffer, i: nat, items: Fields, end: seq<byte>, t: seq<byte>)
    requires 0 < i <= |s| && s[i..] == RenderAll(items) + (end + t)
    requires AllComplete(items) && IsVarint(end) && WireType(end) == 4
    ensures SkipGroup(s, i) == Skipped(i + |RenderAll(items)| + |end|)
    decreases items
  {
    hide ReadVarint, SkipField, SkipGroup;
    GroupOnce(s, i);
    match items
    case Nil =>
      assert s[i..] == end + t;
      VarintAt(end, t);
    case Cons(f, rest) =>
      var after := RenderAll(rest) + (end + t);
      var n := |Render(f)|;
      assert s[i..] == Render(f) + after;
      SkipComplete(f, after);
      CompleteTag(f, after);
      assert s[i + n..] == s[i..][n..] == after;
      SkipItems(s, i + n, rest, end, t);
  }

  lemma CompleteTag(f: Field, t: seq<byte>)
    requires Complete(f)
    ensures ReadVarint(Render(f) + t) == ReadVarint(f.tag)
    ensures WireType(f.tag) != 4
  {
    TagStarts(f);
    var rest := Render(f)[|f.tag|..] + t;
    assert Render(f) + t == f.tag + rest;
    VarintAt(f.tag, rest);
  }

  lemma VarintFront(s: seq<byte>) returns (v: seq<byte>)
    requires ReadVarint(s).Read?
    ensures ReadVarint(s).len <= |s| && v == s[..ReadVarint(s).len]
    ensures v != [] && IsVarint(v) && ReadVarint(v) == ReadVarint(s)
  {
    ReadPrefix(s);
    ReadBounds(s);
    v := s[..ReadVarint(s).len];
  }

  lemma ParseScalar(s: Buffer, tag: seq<byte>) returns (f: Field)
    requires s != [] && IsVarint(tag) && tag <= s && WireType(tag) == 0
    requires ReadVarint(s[|tag|..]).Read?
    ensures |tag| + ReadVarint(s[|tag|..]).len <= |s|
    ensures Complete(f) && f.tag == tag && Render(f) == s[..|tag| + ReadVarint(s[|tag|..]).len]
  {
    var body := VarintFront(s[|tag|..]);
    f := Scalar(tag, body);
  }

  lemma ParseDelimited(s: Buffer, tag: seq<byte>, end: nat) returns (f: Field)
    requires s != [] && IsVarint(tag) && tag <= s && WireType(tag) == 2
    requires var r := ReadVarint(s[|tag|..]); r.Read? && |tag| + r.len + r.value == end <= |s|
    ensures Complete(f) && f.tag == tag && Render(f) == s[..end]
  {
    var length := VarintFront(s[|tag|..]);
    f := Delimited(tag, length, s[|tag| + |length|..end]);
  }

  /** Soundness: what is skipped, unless it is a lone end-group tag, is a complete field. */
  lemma {:induction false} ParseField(s: Buffer) returns (f: Field)
    requires s != [] && SkipField(s).Skipped? && SkipField(s).len <= |s|
    requires ReadVarint(s).value % 8 != 4
    ensures Complete(f) && Render(f) == s[..SkipField(s).len]
    ensures ReadVarint(f.tag) == ReadVarint(s)
    decreases |s|, 0
  {
    hide ReadVarint, SkipGroup;
    var tag := VarintFront(s);
    var k, end, kind := |tag|, SkipField(s).len, WireType(tag);
    if kind == 0 {
      f := ParseScalar(s, tag);
    } else if kind == 2 {
      f := ParseDelimited(s, tag, end);
    } else if kind == 3 {
      var items, close := ParseItems(s, k);
      f := Group(tag, items, close);
      assert s[..end] == tag + s[k..end];
    } else {
      f := Fixed(tag, s[k..end]);
      assert s[..end] == tag + s[k..end];
    }
  }

  lemma JoinItems(s: seq<byte>, i: nat, n: nat, stop: nat, head: Field, tail: Fields, end: seq<byte>)
    requires i + n <= stop <= |s|
    requires Render(head) == s[i..][..n] && RenderAll(tail) + end == s[i + n..stop]
    ensures RenderAll(Cons(head, tail)) + end == s[i..stop]
  {
    assert s[i..stop] == s[i..][..n] + s[i + n..stop];
  }

  lemma {:induction false} ParseItems(s: Buffer, i: nat) returns (items: Fields, end: seq<byte>)
    requires 0 < i && SkipGroup(s, i).Skipped?
    ensures i < SkipGroup(s, i).len <= |s| && RenderAll(items) + end == s[i..SkipGroup(s, i).len]
    ensures AllComplete(items) && IsVarint(end) && WireType(end) == 4
    decreases if i <= |s| then |s| - i else 0, 1
  {
    hide ReadVarint, SkipField, SkipGroup;
    var stop := SkipGroup(s, i).len;
    GroupOnce(s, i);
    var tag := VarintFront(s[i..]);
    if WireType(tag) == 4 {
      items, end := Nil, tag;
    } else {
      var n := SkipField(s[i..]).len;
      var head := ParseField(s[i..]);
      var tail, close := ParseItems(s, i + n);
      items, end := Cons(head, tail), close;
      JoinItems(s, i, n, stop, head, tail, close);
    }
  }

  lemma SkipTakes(s: Buffer, f: Field)
    requires Complete(f) && Render(f) <= s
    ensures s != [] && SkipField(s) == Skipped(|Render(f)|)
  {
    var rest := s[|Render(f)|..];
    assert s == Render(f) + rest;
    SkipComplete(f, rest);
  }

  /** `s` starts with a complete field of n bytes. */
  ghost predicate StartsWithField(s: seq<byte>, n: nat) {
    exists f: Field :: Complete(f) && Render(f) <= s && |Render(f)| == n
  }

  /** The skipper takes n bytes exactly when the first n bytes are one complete field, to any nesting depth. */
  lemma SkipExact(s: Buffer, n: nat)
    requires s != [] && ReadVarint(s).value % 8 != 4
    ensures SkipField(s) == Skipped(n) && n <= |s| <==> StartsWithField(s, n)
  {
    if SkipField(s) == Skipped(n) && n <= |s| {
      var f := ParseField(s);
      assert Render(f) <= s && |Render(f)| == n;
    }
    if StartsWithField(s, n) {
      var f: Field :| Complete(f) && Render(f) <= s && |Render(f)| == n;
      SkipTakes(s, f);
    }
  }

  /** What a field takes does not depend on the bytes after it. */
  lemma SkipLocal(s: Buffer, t: seq<byte>)
    requires s != [] && SkipField(s).Skipped? && SkipField(s).len <= |s|
    requires ReadVarint(s).value % 8 != 4 && |s + t| <= MAX_BUFFER
    ensures SkipField(s + t) == SkipField(s)
  {
    var f := ParseField(s);
    assert Render(f) <= s <= s + t;
    SkipTakes(s + t, f);
  }

  /** Behind a one-byte tag: 8 bytes for wire type 1 and 4 for wire type 5, whether or not they are there;
      wire types 6 and 7 are illegal. */
  lemma FixedWidths(tag: byte, t: seq<byte>)
    requires tag < 128 && |t| < MAX_BUFFER
    ensures tag % 8 == 1 ==> SkipField([tag] + t) == Skipped(1 + 8)
    ensures tag % 8 == 5 ==> SkipField([tag] + t) == Skipped(1 + 4)
    ensures tag % 8 >= 6 ==> SkipField([tag] + t) == Bad(IllegalWireType(tag % 8))
  {
    hide SkipGroup;
    assert ReadVarint([tag] + t) == Read(tag, 1);
  }

  // ----- truncation -----

  /** The skipper runs out of input: it says so, or it points past the end, though not past `full`. */
  predicate RunsOut(s: seq<byte>, r: Skip, full: nat) {
    r == Bad(UnexpectedEOF) || (r.Skipped? && |s| < r.len <= full)
  }

  /** What is left of a field behind its tag, when it is cut after k bytes. */
  lemma CutBehindTag(f: Field, k: nat) returns (rest: seq<byte>)
    requires Complete(f) && |f.tag| <= k < |Render(f)| <= MAX_BUFFER
    ensures f.tag != [] && Render(f)[..k] == f.tag + rest && Render(f)[..k][|f.tag|..] == rest
    ensures rest == Render(f)[|f.tag|..][..k - |f.tag|]
    ensures SkipField(Render(f)[..k]) == SkipBody(Render(f)[..k], |f.tag|, WireType(f.tag))
  {
    hide ReadVarint, SkipBody;
    TagStarts(f);
    rest := Render(f)[|f.tag|..][..k - |f.tag|];
    VarintAt(f.tag, rest);
    assert Render(f)[..k] == f.tag + rest;
  }

  lemma ScalarTruncated(f: Field, k: nat)
    requires f.Scalar? && Complete(f) && |f.tag| <= k < |Render(f)| <= MAX_BUFFER
    ensures RunsOut(Render(f)[..k], SkipField(Render(f)[..k]), |Render(f)|)
  {
    hide ReadVarint, SkipField;
    var rest := CutBehindTag(f, k);
    assert Render(f)[|f.tag|..] == f.body;
    ReadTruncated(f.body, k - |f.tag|);
  }

  lemma FixedTruncated(f: Field, k: nat)
    requires f.Fixed? && Complete(f) && |f.tag| <= k < |Render(f)| <= MAX_BUFFER
    ensures RunsOut(Render(f)[..k], SkipField(Render(f)[..k]), |Render(f)|)
  {
    hide ReadVarint, SkipField;
    var rest := CutBehindTag(f, k);
  }

  lemma DelimitedTruncated(f: Field, k: nat)
    requires f.Delimited? && Complete(f) && |f.tag| <= k < |Render(f)| <= MAX_BUFFER
    ensures RunsOut(Render(f)[..k], SkipField(Render(f)[..k]), |Render(f)|)
  {
    hide ReadVarint, SkipField;
    var rest := CutBehindTag(f, k);
    var n := k - |f.tag|;
    assert Render(f)[|f.tag|..] == f.length + f.body;
    if n < |f.length| {
      assert rest == f.length[..n];
      ReadTruncated(f.length, n);
    } else {
      assert rest == f.length + f.body[..n - |f.length|];
      VarintAt(f.length, f.body[..n - |f.length|]);
    }
  }

  lemma TagCutShort(f: Field, k: nat)
    requires Complete(f) && 0 < k < |f.tag| && |Render(f)| <= MAX_BUFFER
    ensures |f.tag| <= |Render(f)| && SkipField(Render(f)[..k]) == Bad(UnexpectedEOF)
    ensures RunsOut(Render(f)[..k], SkipField(Render(f)[..k]), |Render(f)|)
  {
    hide ReadVarint, SkipBody;
    TagStarts(f);
    assert Render(f)[..k] == f.tag[..k];
    ReadTruncated(f.tag, k);
  }

  lemma GroupParts(f: Field, k: nat)
    requires f.Group? && Complete(f) && |f.tag| <= k < |Render(f)| <= MAX_BUFFER
    ensures 0 < |f.tag| && |Render(f)| == |f.tag| + |RenderAll(f.items) + f.end|
    ensures Render(f)[..k][|f.tag|..] == (RenderAll(f.items) + f.end)[..k - |f.tag|]
    ensures AllComplete(f.items) && IsVarint(f.end) && WireType(f.end) == 4
  {
    hide ReadVarint, SkipField, SkipBody;
    var rest := CutBehindTag(f, k);
    assert Render(f)[|f.tag|..] == RenderAll(f.items) + f.end;
  }

  lemma GroupTruncated(f: Field, k: nat)
    requires f.Group? && Complete(f) && 0 < |f.tag| <= k < |Render(f)| <= MAX_BUFFER
    requires SkipGroup(Render(f)[..k], |f.tag|) == Bad(UnexpectedEOF)
    ensures RunsOut(Render(f)[..k], SkipField(Render(f)[..k]), |Render(f)|)
  {
    hide ReadVarint, SkipField, SkipGroup;
    var rest := CutBehindTag(f, k);
  }

  /** A complete field cut short makes the skipper run out of input, at any depth of nesting. */
  lemma {:induction false} SkipTruncated(f: Field, k: nat)
    requires Complete(f) && 0 < k < |Render(f)| <= MAX_BUFFER
    ensures RunsOut(Render(f)[..k], SkipField(Render(f)[..k]), |Render(f)|)
    decreases f, 0
  {
    hide ReadVarint, SkipField, SkipBody, RunsOut, Complete;
    if k < |f.tag| {
      TagCutShort(f, k);
    } else {
      match f
      case Scalar(_, _) => ScalarTruncated(f, k);
      case Fixed(_, _) => FixedTruncated(f, k);
      case Delimited(_, _, _) => DelimitedTruncated(f, k);
      case Group(tag, items, end) =>
        GroupParts(f, k);
        ItemsTruncated(Render(f)[..k], |tag|, items, end, k - |tag|);
        GroupTruncated(f, k);
    }
  }

  lemma {:induction false} ItemsTruncated(s: Buffer, i: nat, items: Fields, end: seq<byte>, k: nat)
    requires 0 < i <= |s| && k < |RenderAll(items) + end| && i + |RenderAll(items) + end| <= MAX_BUFFER
    requires s[i..] == (RenderAll(items) + end)[..k]
    requires AllComplete(items) && IsVarint(end) && WireType(end) == 4
    ensures SkipGroup(s, i) == Bad(UnexpectedEOF)
    decreases items
  {
    hide ReadVarint, SkipField, SkipGroup;
    GroupOnce(s, i);
    if k == 0 {
      assert From(s, i) == end[..0];
      ReadTruncated(end, 0);
    } else if items.Nil? {
      assert From(s, i) == end[..k];
      ReadTruncated(end, k);
    } else {
      var f, after := items.head, RenderAll(items.tail) + end;
      var n := |Render(f)|;
      assert RenderAll(items) + end == Render(f) + after;
      if k < n {
        assert s[i..] == Render(f)[..k];
        FieldTruncated(f, k);
        GroupRunsOut(s, i, n);
      } else {
        assert s[i..] == Render(f) + after[..k - n];
        SkipComplete(f, after[..k - n]);
        CompleteTag(f, after[..k - n]);
        assert s[i + n..] == after[..k - n];
        ItemsTruncated(s, i + n, items.tail, end, k - n);
      }
    }
  }

  /** A field cut short runs out while its tag is read, or after a tag that does not end a group. */
  lemma {:induction false} FieldTruncated(f: Field, k: nat)
    requires Complete(f) && 0 < k < |Render(f)| <= MAX_BUFFER
    ensures var t := Render(f)[..k];
            && RunsOut(t, SkipField(t), |Render(f)|)
            && (ReadVarint(t).Broken? ==> ReadVarint(t).error == UnexpectedEOF)
            && (ReadVarint(t).Read? ==> ReadVarint(t).value % 8 != 4)
    decreases f, 1
  {
    hide ReadVarint, SkipField, Complete;
    SkipTruncated(f, k);
    TagTruncated(f, k);
  }

  lemma TagTruncated(f: Field, k: nat)
    requires Complete(f) && 0 < k < |Render(f)|
    ensures var t := Render(f)[..k];
            && (ReadVarint(t).Broken? ==> ReadVarint(t).error == UnexpectedEOF)
            && (ReadVarint(t).Read? ==> ReadVarint(t) == ReadVarint(f.tag) && WireType(f.tag) != 4)
  {
    hide ReadVarint;
    var t, n := Render(f)[..k], |f.tag|;
    TagStarts(f);
    if k < n {
      assert t == f.tag[..k];
      ReadTruncated(f.tag, k);
    } else {
      assert t == f.tag + t[n..];
      VarintAt(f.tag, t[n..]);
    }
  }

  /** In a group, a field that runs out makes the group run out. */
  lemma GroupRunsOut(s: Buffer, i: nat, full: nat)
    requires 0 < i < |s| && RunsOut(s[i..], SkipField(s[i..]), full) && i + full <= MAX_BUFFER
    requires var r := ReadVarint(s[i..]);
             (r.Broken? ==> r.error == UnexpectedEOF) && (r.Read? ==> r.value % 8 != 4)
    ensures SkipGroup(s, i) == Bad(UnexpectedEOF)
  {
    hide ReadVarint, SkipField, SkipGroup;
    GroupOnce(s, i);
    if SkipField(s[i..]).Skipped? {
      GroupOnce(s, i + SkipField(s[i..]).len);
      NothingToRead();
    }
  }

  lemma NothingToRead()
    ensures ReadVarint([]) == Broken(UnexpectedEOF, 0)
  {
  }

  // ----- the skipper as code -----

  /** Reads a length and adds it to the index, with the two checks for negative values. */
  method ReadExtentLoop(dAtA: array<byte>, lo: nat, index: nat)
    returns (start: nat, end: int, error: Option<WireError>)
    requires lo <= dAtA.Length <= MAX_BUFFER
    ensures error.None? ==> index < start <= end && start <= dAtA.Length - lo
    ensures ReadExtent(dAtA[lo..], index, 0)
         == if error.Some? then NoExtent(error.value) else Extent(start, end)
  {
    hide ReadRaw;
    var word, next, err := ReadVarintLoop(dAtA, lo, index, TWO64);
    if err.Some? {
      return next, 0, err;
    }
    var length := Int64(word);
    if length < 0 {
      return next, 0, Some(InvalidLength);
    }
    NegativeIffWrapped(next, length);
    end := Int64(next + length);
    if end < 0 {
      return next, 0, Some(InvalidLength);
    }
    return next, end, None;
  }

  /** skipMsg on the slice of `dAtA` that starts at `lo`. It panics on an empty slice only; its callers have
      read a tag from theirs first. */
  method SkipMsg(dAtA: array<byte>, lo: nat) returns (n: int, error: Option<WireError>)
    requires lo <= dAtA.Length <= MAX_BUFFER
    ensures error.None? ==> 0 < n < TWO63
    ensures error == Some(NoFieldPanic) <==> lo == dAtA.Length
    ensures lo < dAtA.Length ==> SkipField(dAtA[lo..]) == if error.Some? then Bad(error.value) else Skipped(n)
    decreases dAtA.Length - lo, 0
  {
    if lo >= dAtA.Length {
      return 0, Some(NoFieldPanic);
    }
    var wire, iNdEx, err := ReadVarintLoop(dAtA, lo, 0, TWO64);
    assert From(dAtA[lo..], 0) == dAtA[lo..];
    if err.Some? {
      ReadBounds(dAtA[lo..]);
      return 0, err;
    }
    assert SkipField(dAtA[lo..]) == SkipBody(dAtA[lo..], iNdEx, wire % 8);
    match wire % 8
    case 0 =>
      var _, next, err := ReadVarintLoop(dAtA, lo, iNdEx, TWO64);
      return next, err;
    case 1 =>
      return iNdEx + 8, None;
    case 2 =>
      var _, end, err := ReadExtentLoop(dAtA, lo, iNdEx);
      return end, err;
    case 3 =>
      n, error := SkipGroupLoop(dAtA, lo, iNdEx);
    case 4 =>
      return iNdEx, None;
    case 5 =>
      return iNdEx + 4, None;
    case _ =>
      return 0, Some(IllegalWireType(wire % 8));
  }

  /** The loop over the fields of a group, from position `first` of the slice. */
  method SkipGroupLoop(dAtA: array<byte>, lo: nat, first: nat) returns (n: int, error: Option<WireError>)
    requires 0 < first && lo + first <= dAtA.Length <= MAX_BUFFER
    ensures error.None? ==> 0 < n <= dAtA.Length - lo
    ensures SkipGroup(dAtA[lo..], first) == if error.Some? then Bad(error.value) else Skipped(n)
    decreases dAtA.Length - lo - first, 1
  {
    hide SkipGroup, SkipField;
    ghost var s: Buffer := dAtA[lo..];
    ghost var goal := SkipGroup(s, first);
    var iNdEx := first;
    while true
      invariant first <= iNdEx < TWO63
      invariant SkipGroup(s, iNdEx) == goal
      decreases |s| - iNdEx
    {
      var start := iNdEx;
      GroupOnce(s, start);
      var innerWire, after, err := ReadVarintLoop(dAtA, lo, start, TWO64);
      if err.Some? {
        return 0, err;
      }
      if innerWire % 8 == 4 {
        return after, None;
      }
      assert dAtA[lo + start..] == s[start..];
      var next, err' := SkipMsg(dAtA, lo + start);
      if err'.Some? {
        return 0, err';
      }
      NegativeIffWrapped(start, next);
      iNdEx := Int64(start + next);
      if iNdEx < 0 {
        return 0, Some(InvalidLength);
      }
      assert iNdEx == start + next;
    }
  }
}
