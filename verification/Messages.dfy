/** Decoding and encoding of a message, for any message type whose fields are numbered 1, 2, ... */
module Messages {
  import opened Bytes
  import opened Varint
  import opened Wire

  /** `Blob` stands for bytes and string fields, `Blobs` for repeated bytes. */
  datatype Kind = Blob | Blobs | Uint32 | Uint64

  datatype Value = Data(data: seq<byte>) | List(items: seq<seq<byte>>) | Number(n: nat)

  /** `schema[i]` is the kind of field number i+1; numbers up to 15 have one-byte tags. */
  type Schema = s: seq<Kind> | |s| <= 15 witness []

  datatype Message = Message(values: seq<Value>, unknown: seq<byte>)

  predicate Fits(kind: Kind, v: Value) {
    match kind
    case Blob => v.Data?
    case Blobs => v.List?
    case Uint32 => v.Number? && v.n < TWO32
    case Uint64 => v.Number? && v.n < TWO64
  }

  ghost predicate Conforms(schema: Schema, m: Message) {
    |m.values| == |schema| && forall i :: 0 <= i < |schema| ==> Fits(schema[i], m.values[i])
  }

  function Zero(kind: Kind): Value {
    match kind
    case Blob => Data([])
    case Blobs => List([])
    case _ => Number(0)
  }

  function Fresh(schema: Schema): Message {
    Message(seq(|schema|, i requires 0 <= i < |schema| => Zero(schema[i])), [])
  }

  function Put(m: Message, i: nat, v: Value): Message
    requires i < |m.values|
  {
    m.(values := m.values[i := v])
  }

  // ----- decoding -----

  datatype Step = Next(m: Message, len: nat) | Stop(m: Message, error: WireError)

  /** The message as it stands when decoding ends, and the error if it ended early. */
  datatype Decoded = Decoded(m: Message, error: Option<WireError>)

  function Width(kind: Kind): (w: nat)
    ensures w > 0
  {
    if kind == Uint32 then TWO32 else TWO64
  }

  predicate IsScalar(kind: Kind) {
    kind == Uint32 || kind == Uint64
  }

  function WireTypeFor(kind: Kind): nat {
    if IsScalar(kind) then 0 else 2
  }

  /** A later payload replaces a bytes field and joins a repeated one. */
  function Absorb(v: Value, data: seq<byte>): Value {
    if v.List? then List(v.items + [data]) else Data(data)
  }

  /** Decodes the field at the front of `t`, which stands at position `base` of the buffer. */
  function DecodeField(schema: Schema, m: Message, t: Buffer, base: nat): (r: Step)
    requires t != [] && Conforms(schema, m)
    ensures Conforms(schema, r.m)
    ensures r.Next? ==> 0 < r.len <= |t|
  {
    ReadBounds(t);
    match ReadVarint(t)
    case Broken(e, _) => Stop(m, e)
    case Read(wire, k) =>
      var fieldNum, wireType := Int32(wire / 8), wire % 8;
      if wireType == 4 then Stop(m, EndGroup)
      else if fieldNum <= 0 then Stop(m, IllegalTag(fieldNum, wire))
      else if fieldNum <= |schema| then DecodeKnown(schema, m, fieldNum - 1, t, k, wireType, base)
      else DecodeUnknown(schema, m, t, base)
  }

  function DecodeKnown(schema: Schema, m: Message, i: nat, t: Buffer, k: nat, wireType: nat, base: nat): (r: Step)
    requires 0 < k <= |t| && i < |schema| && Conforms(schema, m)
    ensures Conforms(schema, r.m)
    ensures r.Next? ==> 0 < r.len <= |t|
  {
    if wireType != WireTypeFor(schema[i]) then Stop(m, WrongWireType(wireType, i + 1))
    else if IsScalar(schema[i]) then
      ReadBounds(t[k..]);
      match ReadVarint(t[k..])
      case Broken(e, v) => Stop(Put(m, i, Number(v % Width(schema[i]))), e)
      case Read(v, n) => Next(Put(m, i, Number(v % Width(schema[i]))), k + n)
    else
      match ReadExtent(t, k, base)
      case NoExtent(e) => Stop(m, e)
      case Extent(start, end) =>
        if end > |t| then Stop(m, UnexpectedEOF)
        else Next(Put(m, i, Absorb(m.values[i], t[start..end])), end)
  }

  /** A field with an unknown number is kept byte for byte. */
  function DecodeUnknown(schema: Schema, m: Message, t: Buffer, base: nat): (r: Step)
    requires t != [] && Conforms(schema, m)
    ensures Conforms(schema, r.m)
    ensures r.Next? ==> 0 < r.len <= |t|
  {
    match SkipField(t)
    case Bad(e) => Stop(m, e)
    case Skipped(n) =>
      if base + n >= TWO63 then Stop(m, InvalidLength)
      else if n > |t| then Stop(m, UnexpectedEOF)
      else Next(m.(unknown := m.unknown + t[..n]), n)
  }

  function Decode(schema: Schema, m: Message, t: Buffer, base: nat): (r: Decoded)
    requires Conforms(schema, m)
    ensures Conforms(schema, r.m)
    decreases |t|
  {
    if t == [] then Decoded(m, None)
    else match DecodeField(schema, m, t, base)
      case Stop(m', e) => Decoded(m', Some(e))
      case Next(m', n) => Decode(schema, m', t[n..], base + n)
  }

  // ----- encoding -----

  function EncodeData(field: nat, data: seq<byte>): seq<byte>
    requires field <= 15
  {
    [8 * field + 2] + Encode(|data|) + data
  }

  function EncodeItems(field: nat, items: seq<seq<byte>>): seq<byte>
    requires field <= 15
  {
    if items == [] then [] else EncodeData(field, items[0]) + EncodeItems(field, items[1..])
  }

  /** Zero values are left out, except inside a repeated field. */
  function EncodeValue(field: nat, v: Value): seq<byte>
    requires field <= 15
  {
    match v
    case Data(data) => if data == [] then [] else EncodeData(field, data)
    case List(items) => EncodeItems(field, items)
    case Number(n) => if n == 0 then [] else [8 * field] + Encode(n)
  }

  /** Fields number i+1 and up, then the bytes of unknown fields. */
  function EncodingFrom(schema: Schema, m: Message, i: nat): seq<byte>
    requires |m.values| == |schema| && i <= |schema|
    decreases |schema| - i
  {
    if i == |schema| then m.unknown
    else EncodeValue(i + 1, m.values[i]) + EncodingFrom(schema, m, i + 1)
  }

  function Encoding(schema: Schema, m: Message): seq<byte>
    requires |m.values| == |schema|
  {
    EncodingFrom(schema, m, 0)
  }

  /** The fields are written in the order of their numbers, the unknown bytes after the last of them. */
  lemma EncodingInOrder(schema: Schema, values: seq<Value>, unknown: seq<byte>, kind: Kind, v: Value)
    requires |values| == |schema| < 15
    ensures Encoding([], Message([], unknown)) == unknown
    ensures Encoding(schema + [kind], Message(values + [v], unknown))
         == Encoding(schema, Message(values, [])) + EncodeValue(|schema| + 1, v) + unknown
  {
    EncodingLast(schema, values, unknown, kind, v, 0);
  }

  lemma {:induction false} EncodingLast(schema: Schema, values: seq<Value>, unknown: seq<byte>, kind: Kind, v: Value, i: nat)
    requires |values| == |schema| < 15 && i <= |schema|
    ensures EncodingFrom(schema + [kind], Message(values + [v], unknown), i)
         == EncodingFrom(schema, Message(values, []), i) + EncodeValue(|schema| + 1, v) + unknown
    decreases |schema| - i
  {
    hide EncodeValue;
    if i < |schema| {
      EncodingLast(schema, values, unknown, kind, v, i + 1);
    }
  }

  // ----- decoding is local, so it composes -----

  lemma FieldLocal(schema: Schema, m: Message, t: Buffer, base: nat, u: seq<byte>, base': nat)
    requires t != [] && Conforms(schema, m) && DecodeField(schema, m, t, base).Next?
    requires base' + |t + u| <= MAX_BUFFER
    ensures DecodeField(schema, m, t + u, base') == DecodeField(schema, m, t, base)
  {
    hide ReadVarint, SkipField;
    ReadBounds(t);
    ReadLocal(t, u);
    var wire, k := ReadVarint(t).value, ReadVarint(t).len;
    var fieldNum := Int32(wire / 8);
    if fieldNum <= |schema| {
      KnownLocal(schema, m, fieldNum - 1, t, k, wire % 8, base, u, base');
    } else {
      SkipLocal(t, u);
      var n := SkipField(t).len;
      assert (t + u)[..n] == t[..n];
    }
  }

  lemma KnownLocal(schema: Schema, m: Message, i: nat, t: Buffer, k: nat, wireType: nat, base: nat,
                   u: seq<byte>, base': nat)
    requires 0 < k <= |t| && i < |schema| && Conforms(schema, m)
    requires DecodeKnown(schema, m, i, t, k, wireType, base).Next? && base' + |t + u| <= MAX_BUFFER
    ensures DecodeKnown(schema, m, i, t + u, k, wireType, base') == DecodeKnown(schema, m, i, t, k, wireType, base)
  {
    hide ReadVarint;
    assert (t + u)[k..] == t[k..] + u;
    ReadLocal(t[k..], u);
    if !IsScalar(schema[i]) {
      var e := ReadExtent(t, k, base);
      assert (t + u)[e.start..e.end] == t[e.start..e.end];
    }
  }

  /** Decoding a concatenation is decoding its second part into what the first part left: the last
      scalar wins, repeated items and unknown bytes join up. */
  lemma {:induction false} DecodeConcat(schema: Schema, m: Message, a: Buffer, b: Buffer, base: nat, base': nat)
    requires Conforms(schema, m) && base + |a + b| <= MAX_BUFFER
    requires Decode(schema, m, a, base').error.None?
    ensures Decode(schema, m, a + b, base)
         == Decode(schema, Decode(schema, m, a, base').m, b, base + |a|)
    decreases |a|
  {
    hide DecodeField;
    if a == [] {
      assert a + b == b;
    } else {
      var next := DecodeField(schema, m, a, base');
      FieldLocal(schema, m, a, base', b, base);
      assert (a + b)[next.len..] == a[next.len..] + b;
      DecodeConcat(schema, next.m, a[next.len..], b, base + next.len, base' + next.len);
    }
  }

  /** Where a buffer's bytes stand moves nothing but the choice between the two errors for a length
      that points past the end. */
  ghost predicate SameButForLengths(a: Decoded, b: Decoded) {
    && a.m == b.m
    && (a.error == b.error || (IsLengthError(a.error) && IsLengthError(b.error)))
  }

  ghost predicate IsLengthError(e: Option<WireError>) {
    e == Some(InvalidLength) || e == Some(UnexpectedEOF)
  }

  lemma StopAnywhere(schema: Schema, m: Message, t: Buffer, base: nat, base': nat)
    requires t != [] && Conforms(schema, m)
    requires DecodeField(schema, m, t, base).Stop? && DecodeField(schema, m, t, base').Stop?
    ensures DecodeField(schema, m, t, base).m == DecodeField(schema, m, t, base').m
    ensures DecodeField(schema, m, t, base).error == DecodeField(schema, m, t, base').error
         || (IsLengthError(Some(DecodeField(schema, m, t, base).error))
             && IsLengthError(Some(DecodeField(schema, m, t, base').error)))
  {
    hide ReadVarint, SkipField;
  }

  lemma {:induction false} DecodeAnywhere(schema: Schema, m: Message, t: Buffer, base: nat, base': nat)
    requires Conforms(schema, m) && base + |t| <= MAX_BUFFER && base' + |t| <= MAX_BUFFER
    ensures SameButForLengths(Decode(schema, m, t, base), Decode(schema, m, t, base'))
    decreases |t|
  {
    hide DecodeField;
    if t != [] {
      assert t + [] == t;
      var next := DecodeField(schema, m, t, base);
      if next.Next? {
        FieldLocal(schema, m, t, base, [], base');
        DecodeAnywhere(schema, next.m, t[next.len..], base + next.len, base' + next.len);
      } else {
        if DecodeField(schema, m, t, base').Next? {
          FieldLocal(schema, m, t, base', [], base);
        }
        StopAnywhere(schema, m, t, base, base');
      }
    }
  }

  /** So, for buffers decoded on their own: if `a` decodes, `a + b` decodes exactly when `b` does from
      the message `a` left, and leaves the same message. */
  lemma ConcatBuffers(schema: Schema, m: Message, a: Buffer, b: Buffer)
    requires Conforms(schema, m) && |a + b| <= MAX_BUFFER && Decode(schema, m, a, 0).error.None?
    ensures SameButForLengths(Decode(schema, m, a + b, 0), Decode(schema, Decode(schema, m, a, 0).m, b, 0))
  {
    DecodeConcat(schema, m, a, b, 0, 0);
    DecodeAnywhere(schema, Decode(schema, m, a, 0).m, b, |a|, 0);
  }

  /** The end that the field at the front of `t` announces, before it is tested against anything. */
  function Announced(schema: Schema, t: Buffer): Option<nat> {
    ReadBounds(t);
    match ReadVarint(t)
    case Broken(_, _) => None
    case Read(wire, k) =>
      var fieldNum, wireType := Int32(wire / 8), wire % 8;
      if wireType == 4 || fieldNum <= 0 then None
      else if fieldNum > |schema| then
        match SkipField(t)
        case Bad(_) => None
        case Skipped(n) => Some(n)
      else if wireType != WireTypeFor(schema[fieldNum - 1]) || IsScalar(schema[fieldNum - 1]) then None
      else match ReadVarint(t[k..])
        case Broken(_, _) => None
        case Read(length, n) => if length >= TWO63 then None else Some(k + n + length)
  }

  /** What is left of `t` where decoding stops; nothing if it does not. */
  function StopsAt(schema: Schema, m: Message, t: Buffer, base: nat): (u: Buffer)
    requires Conforms(schema, m)
    ensures |u| <= |t|
    decreases |t|
  {
    if t == [] then []
    else match DecodeField(schema, m, t, base)
      case Stop(_, _) => t
      case Next(m', n) => StopsAt(schema, m', t[n..], base + n)
  }

  /** The wrap test of the announced end comes out alike at the two positions. */
  ghost predicate WrapsAlike(schema: Schema, u: Buffer, at: nat, at': nat) {
    match Announced(schema, u)
    case None => true
    case Some(e) => at + e >= TWO63 <==> at' + e >= TWO63
  }

  lemma StopMoves(schema: Schema, m: Message, t: Buffer, base: nat, base': nat)
    requires t != [] && Conforms(schema, m) && base + |t| <= MAX_BUFFER && base' + |t| <= MAX_BUFFER
    requires DecodeField(schema, m, t, base).Stop? && DecodeField(schema, m, t, base').Stop?
    ensures DecodeField(schema, m, t, base) == DecodeField(schema, m, t, base') <==> WrapsAlike(schema, t, base, base')
  {
    hide ReadVarint, SkipField;
    ReadBounds(t);
  }

  lemma {:induction false} ErrorsMove(schema: Schema, m: Message, t: Buffer, base: nat, base': nat)
    requires Conforms(schema, m) && base + |t| <= MAX_BUFFER && base' + |t| <= MAX_BUFFER
    ensures var u := StopsAt(schema, m, t, base);
            var p := |t| - |u|;
            Decode(schema, m, t, base) == Decode(schema, m, t, base') <==> WrapsAlike(schema, u, base + p, base' + p)
    decreases |t|
  {
    hide DecodeField, WrapsAlike;
    if t == [] {
      NothingAnnounced(schema, base, base');
    } else {
      assert t + [] == t;
      var next := DecodeField(schema, m, t, base);
      if next.Next? {
        FieldLocal(schema, m, t, base, [], base');
        ErrorsMove(schema, next.m, t[next.len..], base + next.len, base' + next.len);
      } else {
        if DecodeField(schema, m, t, base').Next? {
          FieldLocal(schema, m, t, base', [], base);
        }
        StopAnywhere(schema, m, t, base, base');
        StopMoves(schema, m, t, base, base');
      }
    }
  }

  lemma NothingAnnounced(schema: Schema, at: nat, at': nat)
    ensures WrapsAlike(schema, [], at, at')
  {
  }

  /** Decoding `a + b` is exactly decoding `b` alone into the message `a` left, unless `b` stops at a field
      whose announced end fits where the field stands in `b` and wraps behind `a`. */
  lemma ConcatExact(schema: Schema, m: Message, a: Buffer, b: Buffer)
    requires Conforms(schema, m) && |a + b| <= MAX_BUFFER && Decode(schema, m, a, 0).error.None?
    ensures var m' := Decode(schema, m, a, 0).m;
            var u := StopsAt(schema, m', b, 0);
            var p := |b| - |u|;
            Decode(schema, m, a + b, 0) == Decode(schema, m', b, 0)
            <==> match Announced(schema, u)
                 case None => true
                 case Some(e) => p + e >= TWO63 || |a| + p + e < TWO63
  {
    hide Decode, StopsAt, Announced;
    DecodeConcat(schema, m, a, b, 0, 0);
    ErrorsMove(schema, Decode(schema, m, a, 0).m, b, 0, |a|);
  }

  /** The kinds of error do differ for some inputs: this length ends just below the largest int where the
      field stands alone, and wraps when two bytes come before it. */
  lemma LengthErrorsMove()
    ensures var b := [0x0a] + Encode(TWO63 - 11);
            && |b| == 10
            && Decode([Blob], Fresh([Blob]), b, 0).error == Some(UnexpectedEOF)
            && Decode([Blob], Fresh([Blob]), [0x0a, 0x00] + b, 0).error == Some(InvalidLength)
  {
    var b := LongField(0);
    b := LongField(2);
    var m, a: Buffer := Fresh([Blob]), [0x0a, 0x00];
    EmptyBlob();
    DataRoundTrip([Blob], m, 0, [], [], 0);
    hide DecodeField, Encode;
    assert a == EncodeData(1, []) + [];
    assert Put(m, 0, Data([])) == m;
    assert a[2..] == [];
    DecodeConcat([Blob], m, a, b, 0, 0);
  }

  lemma LongField(base: nat) returns (b: Buffer)
    requires base <= 2
    ensures b == [0x0a] + Encode(TWO63 - 11) && |b| == 10
    ensures DecodeField([Blob], Fresh([Blob]), b, base)
         == Stop(Fresh([Blob]), if base == 0 then UnexpectedEOF else InvalidLength)
  {
    hide ReadVarint, Encode, SkipField;
    NineBytes();
    b := [0x0a] + Encode(TWO63 - 11);
    TagByte(0x0a, Encode(TWO63 - 11));
    assert b[1..] == Encode(TWO63 - 11) + [];
    VarintRoundTrip(TWO63 - 11, []);
  }

  lemma EmptyBlob()
    ensures EncodeData(1, []) == [0x0a, 0x00]
  {
  }

  lemma NineBytes()
    ensures |Encode(TWO63 - 11)| == 9
  {
    SevenBitWords();
    EncodeSize(TWO63 - 11, 8);
    EncodeSize(TWO63 - 11, 9);
  }

  // ----- unknown fields -----

  function FieldNumber(f: Field): int {
    Int32(ReadVarint(f.tag).value / 8)
  }

  predicate AllUnknown(schema: Schema, fs: Fields) {
    fs.Cons? ==> FieldNumber(fs.head) > |schema| && AllUnknown(schema, fs.tail)
  }

  lemma {:induction false} AllUnknownAppend(schema: Schema, a: Fields, b: Fields)
    requires AllUnknown(schema, a) && AllUnknown(schema, b)
    ensures AllUnknown(schema, Append(a, b))
  {
    if a.Cons? {
      AllUnknownAppend(schema, a.tail, b);
    }
  }

  /** `u` is a run of complete fields, none of which the schema knows. */
  ghost predicate UnknownFields(schema: Schema, u: seq<byte>) {
    exists fs: Fields :: AllComplete(fs) && AllUnknown(schema, fs) && RenderAll(fs) == u
  }

  lemma UnknownFieldsAppend(schema: Schema, u: seq<byte>, f: Field)
    requires UnknownFields(schema, u) && Complete(f) && FieldNumber(f) > |schema|
    ensures UnknownFields(schema, u + Render(f))
  {
    var fs: Fields :| AllComplete(fs) && AllUnknown(schema, fs) && RenderAll(fs) == u;
    var one := Cons(f, Nil);
    RenderAppend(fs, one);
    AllUnknownAppend(schema, fs, one);
    assert RenderAll(one) == Render(f) + [] == Render(f);
    assert RenderAll(Append(fs, one)) == u + Render(f);
  }

  lemma FieldKeepsUnknown(schema: Schema, m: Message, t: Buffer, base: nat)
    requires t != [] && Conforms(schema, m) && UnknownFields(schema, m.unknown)
    ensures UnknownFields(schema, DecodeField(schema, m, t, base).m.unknown)
  {
    hide ReadVarint, SkipField, UnknownFields;
    var next := DecodeField(schema, m, t, base);
    if next.m.unknown != m.unknown {
      var f := ParseField(t);
      UnknownFieldsAppend(schema, m.unknown, f);
    }
  }

  /** Decoding, whatever its input, collects nothing but complete unknown fields. */
  lemma {:induction false} DecodeKeepsUnknown(schema: Schema, m: Message, t: Buffer, base: nat)
    requires Conforms(schema, m) && UnknownFields(schema, m.unknown)
    ensures UnknownFields(schema, Decode(schema, m, t, base).m.unknown)
    decreases |t|
  {
    hide DecodeField, UnknownFields;
    if t != [] {
      FieldKeepsUnknown(schema, m, t, base);
      var next := DecodeField(schema, m, t, base);
      if next.Next? {
        DecodeKeepsUnknown(schema, next.m, t[next.len..], base + next.len);
      }
    }
  }

  // ----- round trip -----

  lemma TagByte(b: byte, rest: seq<byte>)
    requires b < 128
    ensures ReadVarint([b] + rest) == Read(b, 1)
  {
  }

  lemma NumberRoundTrip(schema: Schema, m: Message, i: nat, n: nat, rest: seq<byte>, base: nat)
    requires Conforms(schema, m) && i < |schema| && IsScalar(schema[i]) && n < Width(schema[i])
    requires |[8 * (i + 1)] + Encode(n) + rest| <= MAX_BUFFER
    ensures DecodeField(schema, m, [8 * (i + 1)] + Encode(n) + rest, base)
         == Next(Put(m, i, Number(n)), 1 + |Encode(n)|)
  {
    hide ReadVarint, SkipField, Encode, DecodeKnown;
    var t := [8 * (i + 1)] + Encode(n) + rest;
    assert t == [8 * (i + 1)] + (Encode(n) + rest);
    TagByte(8 * (i + 1), Encode(n) + rest);
    assert t[1..] == Encode(n) + rest;
    NumberKnown(schema, m, i, n, t, base, rest);
  }

  lemma NumberKnown(schema: Schema, m: Message, i: nat, n: nat, t: Buffer, base: nat, rest: seq<byte>)
    requires Conforms(schema, m) && i < |schema| && IsScalar(schema[i]) && n < Width(schema[i])
    requires |t| > 0 && t[1..] == Encode(n) + rest
    ensures DecodeKnown(schema, m, i, t, 1, 0, base) == Next(Put(m, i, Number(n)), 1 + |Encode(n)|)
  {
    hide ReadVarint, Encode;
    VarintRoundTrip(n, rest);
    assert n % Width(schema[i]) == n;
  }

  lemma DataRoundTrip(schema: Schema, m: Message, i: nat, data: seq<byte>, rest: seq<byte>, base: nat)
    requires Conforms(schema, m) && i < |schema| && !IsScalar(schema[i])
    requires base + |EncodeData(i + 1, data) + rest| <= MAX_BUFFER
    ensures DecodeField(schema, m, EncodeData(i + 1, data) + rest, base)
         == Next(Put(m, i, Absorb(m.values[i], data)), |EncodeData(i + 1, data)|)
  {
    hide ReadVarint, SkipField, Encode, DecodeKnown, Absorb;
    var t, word := EncodeData(i + 1, data) + rest, Encode(|data|);
    assert t == [8 * (i + 1) + 2] + (word + (data + rest));
    TagByte(8 * (i + 1) + 2, word + (data + rest));
    assert t[1..] == word + (data + rest);
    DataKnown(schema, m, i, data, t, base, rest);
  }

  lemma DataKnown(schema: Schema, m: Message, i: nat, data: seq<byte>, t: Buffer, base: nat, rest: seq<byte>)
    requires Conforms(schema, m) && i < |schema| && !IsScalar(schema[i])
    requires |t| > 0 && t[1..] == Encode(|data|) + (data + rest) && base + |t| <= MAX_BUFFER
    ensures DecodeKnown(schema, m, i, t, 1, 2, base)
         == Next(Put(m, i, Absorb(m.values[i], data)), 1 + |Encode(|data|)| + |data|)
  {
    hide ReadVarint, Encode, Absorb;
    VarintRoundTrip(|data|, data + rest);
    var start := 1 + |Encode(|data|)|;
    assert t[start..start + |data|] == t[1..][start - 1..start - 1 + |data|] == data;
  }

  lemma {:induction false} ItemsRoundTrip(
      schema: Schema, m: Message, i: nat, items: seq<seq<byte>>, rest: seq<byte>, base: nat)
    requires Conforms(schema, m) && i < |schema| && schema[i].Blobs?
    requires base + |EncodeItems(i + 1, items) + rest| <= MAX_BUFFER
    ensures Decode(schema, m, EncodeItems(i + 1, items) + rest, base)
         == Decode(schema, Put(m, i, List(m.values[i].items + items)), rest, base + |EncodeItems(i + 1, items)|)
    decreases |items|
  {
    hide DecodeField;
    var had := m.values[i].items;
    if items == [] {
      assert had + items == had && EncodeItems(i + 1, items) + rest == rest;
      assert Put(m, i, List(had)) == m;
    } else {
      var first, more := EncodeData(i + 1, items[0]), EncodeItems(i + 1, items[1..]) + rest;
      var m' := Put(m, i, List(had + [items[0]]));
      assert EncodeItems(i + 1, items) + rest == first + more;
      DataRoundTrip(schema, m, i, items[0], more, base);
      assert (first + more)[|first|..] == more;
      ItemsRoundTrip(schema, m', i, items[1..], rest, base + |first|);
      assert had + [items[0]] + items[1..] == had + items;
      assert Put(m', i, List(had + items)) == Put(m, i, List(had + items));
    }
  }

  lemma ValueRoundTrip(schema: Schema, m: Message, i: nat, v: Value, rest: seq<byte>, base: nat)
    requires Conforms(schema, m) && i < |schema| && m.values[i] == Zero(schema[i]) && Fits(schema[i], v)
    requires base + |EncodeValue(i + 1, v) + rest| <= MAX_BUFFER
    ensures Decode(schema, m, EncodeValue(i + 1, v) + rest, base)
         == Decode(schema, Put(m, i, v), rest, base + |EncodeValue(i + 1, v)|)
  {
    hide DecodeField;
    var s := EncodeValue(i + 1, v);
    if s == [] {
      assert s + rest == rest;
      assert Put(m, i, v) == m;
    } else {
      assert (s + rest)[|s|..] == rest;
      match v
      case List(items) =>
        assert [] + items == items;
        ItemsRoundTrip(schema, m, i, items, rest, base);
      case Data(data) => DataRoundTrip(schema, m, i, data, rest, base);
      case Number(n) => NumberRoundTrip(schema, m, i, n, rest, base);
    }
  }

  /** Unknown fields mean their own bytes. */
  lemma {:induction false} UnknownMeaning(schema: Schema, m: Message, fs: Fields)
    requires Conforms(schema, m) && AllComplete(fs) && AllUnknown(schema, fs)
    ensures AllAcceptable(schema, fs)
    ensures ApplyAll(schema, m, fs) == m.(unknown := m.unknown + RenderAll(fs))
    decreases fs
  {
    hide ReadVarint, Complete, Render;
    match fs
    case Nil =>
      assert m.unknown + [] == m.unknown;
    case Cons(f, rest) =>
      UnknownMeaning(schema, m.(unknown := m.unknown + Render(f)), rest);
      assert m.unknown + Render(f) + RenderAll(rest) == m.unknown + (Render(f) + RenderAll(rest));
  }

  /** What has been decoded once the fields before number i+1 are. */
  ghost function Partial(schema: Schema, m: Message, i: nat): Message
    requires |m.values| == |schema| && i <= |schema|
  {
    Message(m.values[..i] + Fresh(schema).values[i..], [])
  }

  lemma PartialStep(schema: Schema, m: Message, i: nat)
    requires Conforms(schema, m) && i < |schema|
    ensures Conforms(schema, Partial(schema, m, i)) && Partial(schema, m, i).values[i] == Zero(schema[i])
    ensures Put(Partial(schema, m, i), i, m.values[i]) == Partial(schema, m, i + 1)
  {
  }

  lemma {:induction false} RoundTripFrom(schema: Schema, m: Message, i: nat, base: nat)
    requires Conforms(schema, m) && UnknownFields(schema, m.unknown) && i <= |schema|
    requires base + |EncodingFrom(schema, m, i)| <= MAX_BUFFER
    ensures Decode(schema, Partial(schema, m, i), EncodingFrom(schema, m, i), base) == Decoded(m, None)
    decreases |schema| - i
  {
    hide DecodeField, Decode, EncodeValue;
    var p := Partial(schema, m, i);
    if i == |schema| {
      var fs: Fields :| AllComplete(fs) && AllUnknown(schema, fs) && RenderAll(fs) == m.unknown;
      UnknownMeaning(schema, p, fs);
      DecodeAccepts(schema, p, fs, base);
      assert p.unknown + m.unknown == m.unknown;
      assert p.values == m.values;
    } else {
      hide Partial;
      PartialStep(schema, m, i);
      ValueRoundTrip(schema, p, i, m.values[i], EncodingFrom(schema, m, i + 1), base);
      RoundTripFrom(schema, m, i + 1, base + |EncodeValue(i + 1, m.values[i])|);
    }
  }

  /** Unmarshal undoes Marshal. */
  lemma RoundTrip(schema: Schema, m: Message)
    requires Conforms(schema, m) && UnknownFields(schema, m.unknown) && |Encoding(schema, m)| <= MAX_BUFFER
    ensures Decode(schema, Fresh(schema), Encoding(schema, m), 0) == Decoded(m, None)
  {
    assert Partial(schema, m, 0) == Fresh(schema);
    RoundTripFrom(schema, m, 0, 0);
  }

  // ----- canonical form -----

  lemma {:induction false} EncodingPut(schema: Schema, m: Message, i: nat, v: Value, from: nat)
    requires |m.values| == |schema| && i < |schema| && from <= |schema|
    ensures |EncodingFrom(schema, Put(m, i, v), from)| + (if from <= i then |EncodeValue(i + 1, m.values[i])| else 0)
         == |EncodingFrom(schema, m, from)| + (if from <= i then |EncodeValue(i + 1, v)| else 0)
    decreases |schema| - from
  {
    hide EncodeValue;
    if from < |schema| {
      EncodingPut(schema, m, i, v, from + 1);
    }
  }

  lemma {:induction false} EncodingUnknown(schema: Schema, m: Message, u: seq<byte>, from: nat)
    requires |m.values| == |schema| && from <= |schema|
    ensures |EncodingFrom(schema, m.(unknown := m.unknown + u), from)| == |EncodingFrom(schema, m, from)| + |u|
    decreases |schema| - from
  {
    hide EncodeValue;
    if from < |schema| {
      EncodingUnknown(schema, m, u, from + 1);
    }
  }

  lemma {:induction false} EncodeItemsJoin(field: nat, items: seq<seq<byte>>, data: seq<byte>)
    requires field <= 15
    ensures EncodeItems(field, items + [data]) == EncodeItems(field, items) + EncodeData(field, data)
  {
    if items == [] {
      assert EncodeItems(field, [data]) == EncodeData(field, data) + EncodeItems(field, []);
    } else {
      assert (items + [data])[1..] == items[1..] + [data];
      EncodeItemsJoin(field, items[1..], data);
    }
  }

  lemma AbsorbedSize(field: nat, v: Value, data: seq<byte>)
    requires field <= 15 && !v.Number?
    ensures |EncodeValue(field, Absorb(v, data))| <= |EncodeValue(field, v)| + 1 + |Encode(|data|)| + |data|
  {
    if v.List? {
      EncodeItemsJoin(field, v.items, data);
    }
  }

  /** Decoding a field adds no more to the encoding of the message than the field took. */
  lemma FieldShrinks(schema: Schema, m: Message, t: Buffer, base: nat)
    requires t != [] && Conforms(schema, m) && DecodeField(schema, m, t, base).Next?
    ensures |Encoding(schema, DecodeField(schema, m, t, base).m)|
         <= |Encoding(schema, m)| + DecodeField(schema, m, t, base).len
  {
    hide ReadVarint, SkipField, Encode, EncodeValue;
    ReadBounds(t);
    var wire, k := ReadVarint(t).value, ReadVarint(t).len;
    var i := Int32(wire / 8) - 1;
    if i < |schema| {
      KnownShrinks(schema, m, i, t, k, wire % 8, base);
    } else {
      EncodingUnknown(schema, m, t[..SkipField(t).len], 0);
    }
  }

  lemma KnownShrinks(schema: Schema, m: Message, i: nat, t: Buffer, k: nat, wireType: nat, base: nat)
    requires 0 < k <= |t| && i < |schema| && Conforms(schema, m)
    requires DecodeKnown(schema, m, i, t, k, wireType, base).Next?
    ensures |Encoding(schema, DecodeKnown(schema, m, i, t, k, wireType, base).m)|
         <= |Encoding(schema, m)| + DecodeKnown(schema, m, i, t, k, wireType, base).len
  {
    hide ReadVarint, Encode, EncodingFrom;
    EncodeShortest(t[k..], Width(schema[i]));
    if IsScalar(schema[i]) {
      EncodingPut(schema, m, i, Number(ReadVarint(t[k..]).value % Width(schema[i])), 0);
    } else {
      var e := ReadExtent(t, k, base);
      AbsorbedSize(i + 1, m.values[i], t[e.start..e.end]);
      EncodingPut(schema, m, i, Absorb(m.values[i], t[e.start..e.end]), 0);
    }
  }

  lemma {:induction false} DecodeShrinks(schema: Schema, m: Message, t: Buffer, base: nat)
    requires Conforms(schema, m) && Decode(schema, m, t, base).error.None?
    ensures |Encoding(schema, Decode(schema, m, t, base).m)| <= |Encoding(schema, m)| + |t|
    decreases |t|
  {
    hide DecodeField, Encoding;
    if t != [] {
      FieldShrinks(schema, m, t, base);
      var next := DecodeField(schema, m, t, base);
      DecodeShrinks(schema, next.m, t[next.len..], base + next.len);
    }
  }

  lemma {:induction false} FreshIsEmpty(schema: Schema, from: nat)
    requires from <= |schema|
    ensures EncodingFrom(schema, Fresh(schema), from) == []
    decreases |schema| - from
  {
    if from < |schema| {
      FreshIsEmpty(schema, from + 1);
    }
  }

  /** Decoding canonicalises: whatever a buffer held - varints in long form, duplicates, any order,
      unknown fields and groups - the message it decodes to marshals to no more bytes than the buffer,
      and those bytes decode to the same message. */
  lemma Canonicalises(schema: Schema, s: Buffer)
    requires Decode(schema, Fresh(schema), s, 0).error.None?
    ensures var m := Decode(schema, Fresh(schema), s, 0).m;
            && |Encoding(schema, m)| <= |s|
            && Decode(schema, Fresh(schema), Encoding(schema, m), 0) == Decoded(m, None)
  {
    FreshIsEmpty(schema, 0);
    DecodeShrinks(schema, Fresh(schema), s, 0);
    assert AllComplete(Nil) && AllUnknown(schema, Nil) && RenderAll(Nil) == [];
    DecodeKeepsUnknown(schema, Fresh(schema), s, 0);
    RoundTrip(schema, Decode(schema, Fresh(schema), s, 0).m);
  }

  // ----- decoding against the grammar -----

  /** A field the decoder takes: a positive number and, when the number is known, the wire type of its kind. */
  predicate Acceptable(schema: Schema, f: Field) {
    && Complete(f) && FieldNumber(f) > 0
    && (FieldNumber(f) <= |schema| ==> WireType(f.tag) == WireTypeFor(schema[FieldNumber(f) - 1]))
  }

  predicate AllAcceptable(schema: Schema, fs: Fields) {
    fs.Cons? ==> Acceptable(schema, fs.head) && AllAcceptable(schema, fs.tail)
  }

  /** What one field means for a message. */
  function Apply(schema: Schema, m: Message, f: Field): (r: Message)
    requires Conforms(schema, m) && Acceptable(schema, f)
    ensures Conforms(schema, r)
  {
    var i := FieldNumber(f) - 1;
    if i >= |schema| then m.(unknown := m.unknown + Render(f))
    else if f.Scalar? then Put(m, i, Number(ReadVarint(f.body).value % Width(schema[i])))
    else if f.Delimited? then Put(m, i, Absorb(m.values[i], f.body))
    else m
  }

  function ApplyAll(schema: Schema, m: Message, fs: Fields): Message
    requires Conforms(schema, m) && AllAcceptable(schema, fs)
    decreases fs
  {
    match fs
    case Nil => m
    case Cons(f, rest) => ApplyAll(schema, Apply(schema, m, f), rest)
  }

  lemma DecodeOne(schema: Schema, m: Message, f: Field, more: seq<byte>, base: nat)
    requires Conforms(schema, m) && Acceptable(schema, f) && base + |Render(f) + more| <= MAX_BUFFER
    ensures Render(f) != []
    ensures DecodeField(schema, m, Render(f) + more, base) == Next(Apply(schema, m, f), |Render(f)|)
  {
    hide ReadVarint, SkipField, RenderAll, AllComplete;
    SkipComplete(f, more);
    CompleteTag(f, more);
    var t, k := Render(f) + more, |f.tag|;
    if FieldNumber(f) > |schema| {
      assert t[..|Render(f)|] == Render(f);
    } else if f.Scalar? {
      assert t[k..] == f.body + more;
      VarintAt(f.body, more);
    } else if f.Delimited? {
      assert t[k..] == f.length + (f.body + more);
      VarintAt(f.length, f.body + more);
      assert t[k + |f.length|..|Render(f)|] == f.body;
    }
  }

  lemma ParseOne(schema: Schema, m: Message, t: Buffer, base: nat) returns (f: Field)
    requires t != [] && Conforms(schema, m) && DecodeField(schema, m, t, base).Next?
    ensures Acceptable(schema, f) && Render(f) == t[..DecodeField(schema, m, t, base).len]
  {
    hide ReadVarint, SkipField;
    var tag := VarintFront(t);
    var i := Int32(ReadVarint(t).value / 8) - 1;
    if i >= |schema| {
      f := ParseField(t);
    } else if IsScalar(schema[i]) {
      f := ParseScalar(t, tag);
    } else {
      f := ParseDelimited(t, tag, DecodeField(schema, m, t, base).len);
    }
  }

  lemma {:induction false} DecodeAccepts(schema: Schema, m: Message, fs: Fields, base: nat)
    requires Conforms(schema, m) && AllAcceptable(schema, fs) && base + |RenderAll(fs)| <= MAX_BUFFER
    ensures Decode(schema, m, RenderAll(fs), base) == Decoded(ApplyAll(schema, m, fs), None)
    decreases fs
  {
    hide DecodeField, Apply;
    if fs.Cons? {
      var f, more := fs.head, RenderAll(fs.tail);
      DecodeOne(schema, m, f, more, base);
      assert (Render(f) + more)[|Render(f)|..] == more;
      DecodeAccepts(schema, Apply(schema, m, f), fs.tail, base + |Render(f)|);
    }
  }

  lemma {:induction false} DecodeParses(schema: Schema, m: Message, t: Buffer, base: nat) returns (fs: Fields)
    requires Conforms(schema, m) && Decode(schema, m, t, base).error.None? && base + |t| <= MAX_BUFFER
    ensures AllAcceptable(schema, fs) && RenderAll(fs) == t
    decreases |t|
  {
    hide DecodeField, Acceptable;
    fs := Nil;
    if t != [] {
      var next := DecodeField(schema, m, t, base);
      var f := ParseOne(schema, m, t, base);
      var rest := DecodeParses(schema, next.m, t[next.len..], base + next.len);
      fs := Cons(f, rest);
    }
  }

  /** `t` is a run of acceptable fields that together turn m into m'. */
  ghost predicate Means(schema: Schema, m: Message, t: seq<byte>, m': Message)
    requires Conforms(schema, m)
  {
    exists fs: Fields :: AllAcceptable(schema, fs) && RenderAll(fs) == t && ApplyAll(schema, m, fs) == m'
  }

  /** The decoder accepts exactly the runs of acceptable complete fields, and gives them their meaning. */
  lemma DecodeExact(schema: Schema, m: Message, t: Buffer, m': Message)
    requires Conforms(schema, m)
    ensures Decode(schema, m, t, 0) == Decoded(m', None) <==> Means(schema, m, t, m')
  {
    hide Decode, ApplyAll;
    if Decode(schema, m, t, 0) == Decoded(m', None) {
      var fs := DecodeParses(schema, m, t, 0);
      DecodeAccepts(schema, m, fs, 0);
    }
    if Means(schema, m, t, m') {
      var fs: Fields :| AllAcceptable(schema, fs) && RenderAll(fs) == t && ApplyAll(schema, m, fs) == m';
      DecodeAccepts(schema, m, fs, 0);
    }
  }

  // ----- the last one wins -----

  /** Decoding one more payload, whatever the field held: a bytes field has it, a repeated field gains it. */
  lemma DataLastWins(schema: Schema, m: Message, i: nat, data: seq<byte>, rest: seq<byte>, base: nat)
    requires Conforms(schema, m) && i < |schema| && !IsScalar(schema[i])
    requires base + |EncodeData(i + 1, data) + rest| <= MAX_BUFFER
    ensures schema[i] == Blob || schema[i] == Blobs
    ensures schema[i] == Blob ==>
              Decode(schema, m, EncodeData(i + 1, data) + rest, base)
              == Decode(schema, m.(values := m.values[i := Data(data)]), rest, base + |EncodeData(i + 1, data)|)
    ensures schema[i] == Blobs ==>
              Decode(schema, m, EncodeData(i + 1, data) + rest, base)
              == Decode(schema, m.(values := m.values[i := List(m.values[i].items + [data])]), rest,
                        base + |EncodeData(i + 1, data)|)
  {
    hide DecodeField;
    var s := EncodeData(i + 1, data);
    DataRoundTrip(schema, m, i, data, rest, base);
    assert (s + rest)[|s|..] == rest;
  }

  /** ... and one more number is the field's value, 0 included. */
  lemma NumberLastWins(schema: Schema, m: Message, i: nat, n: nat, rest: seq<byte>, base: nat)
    requires Conforms(schema, m) && i < |schema| && IsScalar(schema[i])
    requires n < if schema[i] == Uint32 then TWO32 else TWO64
    requires base + |[8 * (i + 1)] + Encode(n) + rest| <= MAX_BUFFER
    ensures Conforms(schema, m.(values := m.values[i := Number(n)]))
    ensures Decode(schema, m, [8 * (i + 1)] + Encode(n) + rest, base)
         == Decode(schema, m.(values := m.values[i := Number(n)]), rest, base + 1 + |Encode(n)|)
  {
    hide DecodeField, Encode;
    NumberRoundTrip(schema, m, i, n, rest, base);
    assert ([8 * (i + 1)] + Encode(n) + rest)[1 + |Encode(n)|..] == rest;
  }

  /** The payloads of the delimited fields with a number, in order. */
  function Bodies(fs: Fields, number: int): seq<seq<byte>> {
    match fs
    case Nil => []
    case Cons(f, rest) =>
      (if f.Delimited? && FieldNumber(f) == number then [f.body] else []) + Bodies(rest, number)
  }

  /** The values of the varint fields with a number, in order. */
  function Scalars(fs: Fields, number: int): seq<nat> {
    match fs
    case Nil => []
    case Cons(f, rest) =>
      (if f.Scalar? && FieldNumber(f) == number then [ReadVarint(f.body).value] else []) + Scalars(rest, number)
  }

  /** The bytes of the fields with numbers above n, in order. */
  function Above(fs: Fields, n: nat): seq<byte> {
    match fs
    case Nil => []
    case Cons(f, rest) => (if FieldNumber(f) > n then Render(f) else []) + Above(rest, n)
  }

  /** A field's value after `fs`: the last payload or number, or all payloads in order; what it was if there are none. */
  ghost predicate Collected(kind: Kind, before: Value, after: Value, fs: Fields, number: int)
    requires Fits(kind, before)
  {
    var bodies, ns := Bodies(fs, number), Scalars(fs, number);
    match kind
    case Blob => after == if bodies == [] then before else Data(bodies[|bodies| - 1])
    case Blobs => after == List(before.items + bodies)
    case Uint32 => after == if ns == [] then before else Number(ns[|ns| - 1] % TWO32)
    case Uint64 => after == if ns == [] then before else Number(ns[|ns| - 1])
  }

  lemma ApplyOne(schema: Schema, m: Message, f: Field, i: nat)
    requires Conforms(schema, m) && Acceptable(schema, f) && i < |schema|
    ensures Collected(schema[i], m.values[i], Apply(schema, m, f).values[i], Cons(f, Nil), i + 1)
  {
    hide ReadVarint, Render, RenderAll, AllComplete;
    var one := Cons(f, Nil);
    assert Bodies(one, i + 1) == if f.Delimited? && FieldNumber(f) == i + 1 then [f.body] else [];
    assert Scalars(one, i + 1) == if f.Scalar? && FieldNumber(f) == i + 1 then [ReadVarint(f.body).value] else [];
    if f.Scalar? {
      ReadBounds(f.body);
    }
    if schema[i] == Blobs && FieldNumber(f) != i + 1 {
      assert m.values[i].items + [] == m.values[i].items;
    }
  }

  lemma CollectedJoin(kind: Kind, a: Value, b: Value, c: Value, f: Field, rest: Fields, number: int)
    requires Fits(kind, a) && Fits(kind, b)
    requires Collected(kind, a, b, Cons(f, Nil), number) && Collected(kind, b, c, rest, number)
    ensures Collected(kind, a, c, Cons(f, rest), number)
  {
    hide Bodies, Scalars;
    BodiesJoin(f, rest, number);
    if kind == Blobs {
      var one := Bodies(Cons(f, Nil), number);
      assert a.items + one + Bodies(rest, number) == a.items + (one + Bodies(rest, number));
    }
  }

  lemma BodiesJoin(f: Field, rest: Fields, number: int)
    ensures Bodies(Cons(f, rest), number) == Bodies(Cons(f, Nil), number) + Bodies(rest, number)
    ensures Scalars(Cons(f, rest), number) == Scalars(Cons(f, Nil), number) + Scalars(rest, number)
  {
    hide ReadVarint, FieldNumber;
  }

  lemma {:induction false} ApplyCollects(schema: Schema, m: Message, fs: Fields, i: nat)
    requires Conforms(schema, m) && AllAcceptable(schema, fs) && i < |schema|
    ensures Conforms(schema, ApplyAll(schema, m, fs))
    ensures Collected(schema[i], m.values[i], ApplyAll(schema, m, fs).values[i], fs, i + 1)
    decreases fs
  {
    hide Collected, Apply, Acceptable;
    match fs
    case Nil => NothingCollected(schema[i], m.values[i], i + 1);
    case Cons(f, rest) =>
      var next := Apply(schema, m, f);
      ApplyOne(schema, m, f, i);
      ApplyCollects(schema, next, rest, i);
      CollectedJoin(schema[i], m.values[i], next.values[i], ApplyAll(schema, next, rest).values[i], f, rest, i + 1);
  }

  lemma NothingCollected(kind: Kind, v: Value, number: int)
    requires Fits(kind, v)
    ensures Collected(kind, v, v, Nil, number)
  {
    if kind == Blobs {
      assert v.items + [] == v.items;
    }
  }

  lemma {:induction false} ApplyKeepsUnknown(schema: Schema, m: Message, fs: Fields)
    requires Conforms(schema, m) && AllAcceptable(schema, fs)
    ensures ApplyAll(schema, m, fs).unknown == m.unknown + Above(fs, |schema|)
    decreases fs
  {
    hide Acceptable, Render, FieldNumber;
    match fs
    case Nil => assert m.unknown + [] == m.unknown;
    case Cons(f, rest) =>
      UnknownAfter(schema, m, f);
      var next, one := Apply(schema, m, f), Above(Cons(f, Nil), |schema|);
      hide Apply;
      ApplyKeepsUnknown(schema, next, rest);
      assert Above(fs, |schema|) == one + Above(rest, |schema|);
      assert m.unknown + one + Above(rest, |schema|) == m.unknown + (one + Above(rest, |schema|));
  }

  lemma UnknownAfter(schema: Schema, m: Message, f: Field)
    requires Conforms(schema, m) && Acceptable(schema, f)
    ensures Apply(schema, m, f).unknown == m.unknown + Above(Cons(f, Nil), |schema|)
  {
    hide ReadVarint, Render, RenderAll, AllComplete;
    assert m.unknown + [] == m.unknown;
  }

  /** What any accepted buffer, read as its run of fields, does to any message: each bytes, string or number
      field has the last value given for it, each repeated field gains all of its payloads in order, and the
      unknown fields are kept byte for byte in order. */
  lemma DecodeMeaning(schema: Schema, m: Message, t: Buffer) returns (fs: Fields)
    requires Conforms(schema, m) && Decode(schema, m, t, 0).error.None?
    ensures AllAcceptable(schema, fs) && RenderAll(fs) == t
    ensures var after := Decode(schema, m, t, 0).m;
            && (forall i :: 0 <= i < |schema| ==> Collected(schema[i], m.values[i], after.values[i], fs, i + 1))
            && after.unknown == m.unknown + Above(fs, |schema|)
  {
    hide Decode, ApplyAll, Collected, AllAcceptable, RenderAll, Above;
    fs := DecodeParses(schema, m, t, 0);
    DecodeAccepts(schema, m, fs, 0);
    ApplyKeepsUnknown(schema, m, fs);
    forall i | 0 <= i < |schema|
      ensures Collected(schema[i], m.values[i], Decode(schema, m, t, 0).m.values[i], fs, i + 1)
    {
      ApplyCollects(schema, m, fs, i);
    }
  }

  /** For example, of two strings for field 1 the second stays, whatever was there. */
  lemma SecondStringStays(held: seq<byte>)
    ensures Decode([Blob], Message([Data(held)], []), [0x0a, 0x01, 0x41, 0x0a, 0x01, 0x42], 0)
         == Decoded(Message([Data([0x42])], []), None)
  {
    hide DecodeField;
    var a, b := [0x0a, 0x01, 0x41], [0x0a, 0x01, 0x42];
    assert EncodeData(1, [0x41]) == a && EncodeData(1, [0x42]) == b;
    assert b + [] == b && a + b == [0x0a, 0x01, 0x41, 0x0a, 0x01, 0x42];
    DataLastWins([Blob], Message([Data(held)], []), 0, [0x41], b, 0);
    assert [Data(held)][0 := Data([0x41])] == [Data([0x41])];
    DataLastWins([Blob], Message([Data([0x41])], []), 0, [0x42], [], 3);
    assert [Data([0x41])][0 := Data([0x42])] == [Data([0x42])];
  }

  // ----- which errors mean what -----

  /** Each of the errors about tags is reported exactly for its tags, with what was found in them. */
  lemma TagErrors(schema: Schema, m: Message, t: Buffer, base: nat)
    requires t != [] && Conforms(schema, m)
    ensures var r, tag := DecodeField(schema, m, t, base), ReadVarint(t);
            var number, wireType := Int32(tag.value / 8), tag.value % 8;
            && (r == Stop(m, EndGroup) <==> tag.Read? && wireType == 4)
            && (r == Stop(m, IllegalTag(number, tag.value)) <==> tag.Read? && wireType != 4 && number <= 0)
            && (number > 0 ==>
                  (r == Stop(m, WrongWireType(wireType, number)) <==>
                     tag.Read? && wireType != 4 && number <= |schema|
                     && wireType != if schema[number - 1] == Uint32 || schema[number - 1] == Uint64 then 0 else 2))
            && (r.Stop? && r.error.IllegalWireType? ==> tag.Read? && number > |schema|)
  {
    hide ReadVarint, SkipField;
    var tag := ReadVarint(t);
    ReadBounds(t);
    if tag.Read? {
      ReadBounds(t[tag.len..]);
      ReadBounds(From(t, tag.len));
    }
  }

  /** Varint bytes that never end fail a number field, which is left with the bits they carry: seven from
      each of the first ten. */
  lemma FailedScalar(schema: Schema, m: Message, i: nat, s: seq<byte>, base: nat) returns (bits: nat)
    requires Conforms(schema, m) && i < |schema| && IsScalar(schema[i]) && |s| < MAX_BUFFER
    requires forall k :: 0 <= k < |s| ==> s[k] >= 128
    ensures forall k: nat :: Digit(bits, k) == if k < |s| && k < 10 then s[k] % 128 else 0
    ensures var width := if schema[i] == Uint32 then TWO32 else TWO64;
            Decode(schema, m, [8 * (i + 1)] + s, base)
            == Decoded(m.(values := m.values[i := Number(bits % width)]),
                       Some(if |s| >= 10 then IntOverflow else UnexpectedEOF))
  {
    hide ReadRaw, SkipField;
    bits := ReadRaw(s, 10).value;
    RawErrors(s, 10);
    forall k: nat ensures Digit(bits, k) == if k < |s| && k < 10 then s[k] % 128 else 0 {
      BrokenDigits(s, 10, k);
    }
    TagByte(8 * (i + 1), s);
    assert ([8 * (i + 1)] + s)[1..] == s;
    TruncateTwice(bits, schema[i]);
  }

  lemma TruncateTwice(bits: nat, kind: Kind)
    ensures bits % TWO64 % Width(kind) == bits % Width(kind)
  {
  }

  /** A bytes field is refused for its length exactly if that is no int64 or leads past the last one, and for
      the end of the input exactly if it is longer than what is left. */
  lemma DataErrors(schema: Schema, m: Message, i: nat, length: nat, rest: seq<byte>, base: nat)
    requires Conforms(schema, m) && i < |schema| && !IsScalar(schema[i]) && length < TWO64
    requires |[8 * (i + 1) + 2] + Encode(length) + rest| <= MAX_BUFFER
    ensures var r, start := DecodeField(schema, m, [8 * (i + 1) + 2] + Encode(length) + rest, base), 1 + |Encode(length)|;
            && (r == Stop(m, InvalidLength) <==> length >= TWO63 || base + start + length >= TWO63)
            && (r == Stop(m, UnexpectedEOF) <==> length > |rest| && length < TWO63 && base + start + length < TWO63)
            && (r.Next? <==> length <= |rest| && base + start + length < TWO63)
  {
    hide ReadVarint, SkipField, Encode;
    var t := [8 * (i + 1) + 2] + Encode(length) + rest;
    assert t == [8 * (i + 1) + 2] + (Encode(length) + rest);
    TagByte(8 * (i + 1) + 2, Encode(length) + rest);
    assert t[1..] == Encode(length) + rest == From(t, 1);
    VarintRoundTrip(length, rest);
  }

  /** No other error changes the message. */
  lemma StopLeaves(schema: Schema, m: Message, t: Buffer, base: nat)
    requires t != [] && Conforms(schema, m)
    ensures var r, tag := DecodeField(schema, m, t, base), ReadVarint(t);
            var number, wireType := Int32(tag.value / 8), tag.value % 8;
            r.Stop? && r.m != m ==> tag.Read? && wireType == 0 && 1 <= number <= |schema| && IsScalar(schema[number - 1])
  {
    hide ReadVarint, SkipField, ReadExtent;
  }

  // ----- truncation -----

  lemma FieldCut(schema: Schema, m: Message, f: Field, k: nat, base: nat)
    requires Conforms(schema, m) && Acceptable(schema, f)
    requires 0 < k < |Render(f)| && base + |Render(f)| <= MAX_BUFFER
    ensures var r := DecodeField(schema, m, Render(f)[..k], base); r.Stop? && r.error == UnexpectedEOF
  {
    hide ReadVarint, SkipField, RenderAll, AllComplete;
    var t, n := Render(f)[..k], |f.tag|;
    FieldTruncated(f, k);
    TagTruncated(f, k);
    if ReadVarint(t).Read? && FieldNumber(f) <= |schema| {
      KnownCut(schema, m, f, k, base);
    }
  }

  lemma KnownCut(schema: Schema, m: Message, f: Field, k: nat, base: nat)
    requires Conforms(schema, m) && Acceptable(schema, f) && FieldNumber(f) <= |schema|
    requires 0 < k < |Render(f)| && base + |Render(f)| <= MAX_BUFFER && ReadVarint(Render(f)[..k]) == ReadVarint(f.tag)
    ensures |f.tag| <= k
    ensures var r := DecodeKnown(schema, m, FieldNumber(f) - 1, Render(f)[..k], |f.tag|, WireType(f.tag), base);
            r.Stop? && r.error == UnexpectedEOF
  {
    hide ReadVarint, RenderAll, AllComplete;
    var t, n := Render(f)[..k], |f.tag|;
    ReadBounds(t);
    ReadBounds(f.tag);
    if f.Scalar? {
      assert t[n..] == f.body[..k - n];
      ReadTruncated(f.body, k - n);
    } else if f.Delimited? {
      assert From(t, n) == t[n..] == (f.length + f.body)[..k - n];
      if k - n < |f.length| {
        assert t[n..] == f.length[..k - n];
        ReadTruncated(f.length, k - n);
      } else {
        assert t[n..] == f.length + f.body[..k - n - |f.length|];
        VarintAt(f.length, f.body[..k - n - |f.length|]);
      }
    }
  }

  lemma {:induction false} FieldsCut(schema: Schema, m: Message, fs: Fields, k: nat, base: nat)
    requires Conforms(schema, m) && AllAcceptable(schema, fs)
    requires k <= |RenderAll(fs)| && base + |RenderAll(fs)| <= MAX_BUFFER
    ensures Decode(schema, m, RenderAll(fs)[..k], base).error in {None, Some(UnexpectedEOF)}
    decreases fs
  {
    hide DecodeField, Apply, Acceptable;
    if fs.Cons? && k > 0 {
      var f, more := fs.head, RenderAll(fs.tail);
      var n := |Render(f)|;
      if k < n {
        assert RenderAll(fs)[..k] == Render(f)[..k];
        FieldCut(schema, m, f, k, base);
      } else {
        assert RenderAll(fs)[..k] == Render(f) + more[..k - n];
        DecodeOne(schema, m, f, more[..k - n], base);
        assert (Render(f) + more[..k - n])[n..] == more[..k - n];
        FieldsCut(schema, Apply(schema, m, f), fs.tail, k - n, base + n);
      }
    }
  }

  /** An accepted buffer cut short, at any byte, is accepted or ends unexpectedly; no cut looks malformed. */
  lemma Truncation(schema: Schema, m: Message, s: Buffer, k: nat)
    requires Conforms(schema, m) && Decode(schema, m, s, 0).error.None? && k <= |s|
    ensures Decode(schema, m, s[..k], 0).error in {None, Some(UnexpectedEOF)}
  {
    hide Decode;
    var fs := DecodeParses(schema, m, s, 0);
    FieldsCut(schema, m, fs, k, 0);
  }
}
