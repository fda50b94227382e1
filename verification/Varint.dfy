/** Base-128 varints: the reader loops and the writer of the generated codec. */
module Varint {
  import opened Bytes
  import opened Buffers
  import opened NumberTheory

  /** `NoFieldPanic` stands for the closing panic of skipMsg. */
  datatype WireError =
    | IntOverflow
    | UnexpectedEOF
    | InvalidLength
    | EndGroup
    | IllegalWireType(wireType: nat)
    | IllegalTag(fieldNum: int, wire: nat)
    | WrongWireType(wireType: nat, field: nat)
    | NoFieldPanic

  /** What reading a varint from the front of a byte string yields: a value and the number of
      bytes it took, or an error together with the bits gathered before the error. */
  datatype Reading = Read(value: nat, len: nat) | Broken(error: WireError, value: nat)

  const MAX_VARINT_LEN := 10

  function Pow128(k: nat): (p: int)
    ensures p > 0
  {
    if k == 0 then 1 else 128 * Pow128(k - 1)
  }

  // ----- specification -----

  /** A digit in front of `rest`, as the reader combines them. */
  function AfterDigit(b: byte, rest: Reading): Reading {
    if b < 128 then Read(b, 1)
    else match rest
      case Read(v, n) => Read(b - 128 + 128 * v, n + 1)
      case Broken(e, v) => Broken(e, b - 128 + 128 * v)
  }

  /** Reads at most `room` bytes; values are not truncated. */
  function ReadRaw(s: seq<byte>, room: nat): Reading {
    if room == 0 then Broken(IntOverflow, 0)
    else if s == [] then Broken(UnexpectedEOF, 0)
    else AfterDigit(s[0], ReadRaw(s[1..], room - 1))
  }

  function Truncate(r: Reading, width: nat): Reading
    requires width > 0
  {
    r.(value := r.value % width)
  }

  /** A varint read into a uint64. */
  function ReadVarint(s: seq<byte>): Reading {
    Truncate(ReadRaw(s, MAX_VARINT_LEN), TWO64)
  }

  function Encode(v: nat): seq<byte> {
    if v < 128 then [v] else [v % 128 + 128] + Encode(v / 128)
  }

  // ----- facts about reading -----

  lemma {:induction false} RawBounds(s: seq<byte>, room: nat)
    ensures ReadRaw(s, room).Read? ==>
              1 <= ReadRaw(s, room).len <= room
              && ReadRaw(s, room).len <= |s|
              && ReadRaw(s, room).value < Pow128(ReadRaw(s, room).len)
    ensures ReadRaw(s, room).Broken? ==> ReadRaw(s, room).error == IntOverflow || ReadRaw(s, room).error == UnexpectedEOF
  {
    if room > 0 && s != [] && s[0] >= 128 {
      RawBounds(s[1..], room - 1);
    }
  }

  /** What a varint takes, and its value, do not depend on the bytes after it. */
  lemma {:induction false} RawLocal(s: seq<byte>, t: seq<byte>, room: nat)
    requires ReadRaw(s, room).Read?
    ensures ReadRaw(s + t, room) == ReadRaw(s, room)
  {
    if s[0] >= 128 {
      assert (s + t)[1..] == s[1..] + t;
      RawLocal(s[1..], t, room - 1);
    }
  }

  /** ... nor on anything but the bytes taken. */
  lemma {:induction false} RawPrefix(s: seq<byte>, room: nat)
    requires ReadRaw(s, room).Read?
    ensures ReadRaw(s, room).len <= |s|
    ensures ReadRaw(s[..ReadRaw(s, room).len], room) == ReadRaw(s, room)
  {
    var n := ReadRaw(s, room).len;
    RawBounds(s, room);
    if s[0] >= 128 {
      RawPrefix(s[1..], room - 1);
      assert s[..n][1..] == s[1..][..n - 1];
    }
  }

  /** A read fails only when every byte asks for another: past the tenth it overflows, before that the
      input has ended. */
  lemma {:induction false} RawErrors(s: seq<byte>, room: nat)
    ensures ReadRaw(s, room).Broken? <==> forall i :: 0 <= i < |s| && i < room ==> s[i] >= 128
    ensures ReadRaw(s, room).Broken? ==> ReadRaw(s, room).error == if |s| >= room then IntOverflow else UnexpectedEOF
    decreases room
  {
    if room > 0 && s != [] {
      RawErrors(s[1..], room - 1);
      assert forall i :: 0 <= i < |s[1..]| ==> s[1..][i] == s[i + 1];
      if forall i :: 0 <= i < |s| && i < room ==> s[i] >= 128 {
        assert s[0] >= 128;
      }
      if ReadRaw(s, room).Broken? {
        forall i | 0 <= i < |s| && i < room ensures s[i] >= 128 {
          assert i > 0 ==> s[i] == s[1..][i - 1];
        }
      }
    }
  }

  /** A varint cut short is an unexpected end, and nothing else. */
  lemma {:induction false} RawTruncated(s: seq<byte>, room: nat, k: nat)
    requires ReadRaw(s, room).Read? && k < ReadRaw(s, room).len && k <= |s|
    ensures ReadRaw(s[..k], room).Broken? && ReadRaw(s[..k], room).error == UnexpectedEOF
    decreases room
  {
    if k > 0 {
      assert s[..k][1..] == s[1..][..k - 1];
      RawTruncated(s[1..], room - 1, k - 1);
    }
  }

  lemma ReadTruncated(s: seq<byte>, k: nat)
    requires ReadVarint(s).Read? && k < ReadVarint(s).len && k <= |s|
    ensures ReadVarint(s[..k]).Broken? && ReadVarint(s[..k]).error == UnexpectedEOF
  {
    RawTruncated(s, MAX_VARINT_LEN, k);
  }

  lemma ReadBounds(s: seq<byte>)
    ensures ReadVarint(s).Read? ==>
              1 <= ReadVarint(s).len <= MAX_VARINT_LEN && ReadVarint(s).len <= |s|
    ensures ReadVarint(s).value < TWO64
    ensures ReadVarint(s).Broken? ==> ReadVarint(s).error == IntOverflow || ReadVarint(s).error == UnexpectedEOF
  {
    RawBounds(s, MAX_VARINT_LEN);
  }

  lemma ReadLocal(s: seq<byte>, t: seq<byte>)
    requires ReadVarint(s).Read?
    ensures ReadVarint(s + t) == ReadVarint(s)
  {
    RawLocal(s, t, MAX_VARINT_LEN);
  }

  lemma ReadPrefix(s: seq<byte>)
    requires ReadVarint(s).Read?
    ensures ReadVarint(s).len <= |s|
    ensures ReadVarint(s[..ReadVarint(s).len]) == ReadVarint(s)
  {
    RawPrefix(s, MAX_VARINT_LEN);
  }

  // ----- facts about writing -----

  /** A value takes at most k bytes exactly when it has at most 7k bits. */
  lemma {:induction false} EncodeSize(v: nat, k: nat)
    requires k > 0
    ensures |Encode(v)| <= k <==> v < Pow128(k)
    ensures |Encode(v)| >= 1
    decreases k
  {
    if v >= 128 && k > 1 {
      assert v / 128 < Pow128(k - 1) <==> v < 128 * Pow128(k - 1);
      EncodeSize(v / 128, k - 1);
    }
  }

  lemma SevenBitWords()
    ensures Pow128(8) == 0x100_0000_0000_0000 && Pow128(9) == TWO63
  {
    assert Pow128(4) == 0x1000_0000;
    assert Pow128(6) == 128 * (128 * Pow128(4)) && Pow128(8) == 128 * (128 * Pow128(6));
  }

  lemma EncodeLength(v: nat)
    requires v < TWO64
    ensures 1 <= |Encode(v)| <= MAX_VARINT_LEN
  {
    SevenBitWords();
    EncodeSize(v, MAX_VARINT_LEN);
  }

  lemma {:induction false} RawRoundTrip(v: nat, t: seq<byte>, room: nat)
    requires |Encode(v)| <= room
    ensures ReadRaw(Encode(v) + t, room) == Read(v, |Encode(v)|)
  {
    var s := Encode(v) + t;
    if v >= 128 {
      assert s[1..] == Encode(v / 128) + t;
      RawRoundTrip(v / 128, t, room - 1);
      assert 128 * (v / 128) + v % 128 == v;
    }
  }

  /** Every uint64 is read back from its encoding, whatever follows it. */
  lemma VarintRoundTrip(v: nat, t: seq<byte>)
    requires v < TWO64
    ensures ReadVarint(Encode(v) + t) == Read(v, |Encode(v)|)
  {
    EncodeLength(v);
    RawRoundTrip(v, t, MAX_VARINT_LEN);
  }

  lemma {:induction false} EncodeMonotone(u: nat, v: nat)
    requires u <= v
    ensures |Encode(u)| <= |Encode(v)|
  {
    if u >= 128 {
      EncodeMonotone(u / 128, v / 128);
    }
  }

  lemma {:induction false} RawMinimal(s: seq<byte>, room: nat)
    requires ReadRaw(s, room).Read?
    ensures |Encode(ReadRaw(s, room).value)| <= ReadRaw(s, room).len
  {
    if s[0] >= 128 {
      var v := ReadRaw(s[1..], room - 1).value;
      RawMinimal(s[1..], room - 1);
      assert (s[0] - 128 + 128 * v) / 128 == v;
    }
  }

  /** The writer's form of a value is the shortest a reader takes for it, also after truncation. */
  lemma EncodeShortest(s: seq<byte>, width: nat)
    requires width > 0 && ReadVarint(s).Read?
    ensures |Encode(ReadVarint(s).value % width)| <= ReadVarint(s).len
    ensures |Encode(ReadVarint(s).value)| <= ReadVarint(s).len
  {
    hide ReadRaw, Encode;
    var raw := ReadRaw(s, MAX_VARINT_LEN);
    RawMinimal(s, MAX_VARINT_LEN);
    ModAtMost(raw.value, TWO64);
    ModAtMost(raw.value % TWO64, width);
    EncodeMonotone(raw.value % TWO64, raw.value);
    EncodeMonotone(raw.value % TWO64 % width, raw.value % TWO64);
  }

  // ----- seven bits at a time, the lowest first -----

  /** The k-th group of seven bits. */
  function Digit(v: nat, k: nat): nat
    decreases k
  {
    if k == 0 then v % 128 else Digit(v / 128, k - 1)
  }

  /** Byte k of an encoding holds group k, and asks for another byte unless it is the last. */
  lemma {:induction false} EncodeDigits(v: nat, k: nat)
    requires k < |Encode(v)|
    ensures Encode(v)[k] % 128 == Digit(v, k) && (Encode(v)[k] >= 128 <==> k < |Encode(v)| - 1)
    decreases k
  {
    if k > 0 {
      EncodeDigits(v / 128, k - 1);
    } else if v >= 128 {
      EncodeSize(v / 128, 1);
    }
  }

  /** A read takes the bytes up to the first below 128, and group k of its value is the low bits of byte k,
      in long forms too. */
  lemma {:induction false} ReadDigits(s: seq<byte>, room: nat, k: nat)
    requires ReadRaw(s, room).Read? && k < ReadRaw(s, room).len
    ensures k < |s| && Digit(ReadRaw(s, room).value, k) == s[k] % 128
    ensures s[k] >= 128 <==> k < ReadRaw(s, room).len - 1
    decreases room
  {
    RawBounds(s, room);
    if s[0] >= 128 {
      var rest := ReadRaw(s[1..], room - 1);
      RawBounds(s[1..], room - 1);
      assert (s[0] - 128 + 128 * rest.value) / 128 == rest.value;
      assert (s[0] - 128 + 128 * rest.value) % 128 == s[0] - 128;
      if k > 0 {
        ReadDigits(s[1..], room - 1, k - 1);
      }
    }
  }

  /** A read that fails has gathered the low bits of every byte it looked at. */
  lemma {:induction false} BrokenDigits(s: seq<byte>, room: nat, k: nat)
    requires ReadRaw(s, room).Broken?
    ensures Digit(ReadRaw(s, room).value, k) == if k < |s| && k < room then s[k] % 128 else 0
    decreases room
  {
    if room > 0 && s != [] {
      var rest := ReadRaw(s[1..], room - 1);
      assert (s[0] - 128 + 128 * rest.value) / 128 == rest.value;
      assert (s[0] - 128 + 128 * rest.value) % 128 == s[0] - 128;
      if k > 0 {
        BrokenDigits(s[1..], room - 1, k - 1);
      }
    } else {
      ZeroDigits(k);
    }
  }

  lemma {:induction false} ZeroDigits(k: nat)
    ensures Digit(0, k) == 0
    decreases k
  {
    if k > 0 {
      ZeroDigits(k - 1);
    }
  }

  /** A value wider than 64 bits is read modulo 2^64. */
  lemma ReadWraps(s: seq<byte>)
    ensures var raw := ReadRaw(s, 10).value;
            ReadVarint(s).value < TWO64 && (raw - ReadVarint(s).value) % TWO64 == 0
  {
  }

  // ----- the loops -----

  /** `acc | (b & 0x7f) << 7k`, truncated to `width`: the bits gathered so far lie below bit 7k,
      so the or of the two is their sum. */
  function OrShifted(acc: nat, b: byte, k: nat, width: nat): (r: nat)
    requires width > 0 && acc < Pow128(k)
    ensures r < width
  {
    (acc + (b % 128) * Pow128(k)) % width
  }

  /** What the rest of a read adds to `total`, gathered from the first k bytes. */
  ghost function Resume(total: nat, k: nat, rest: Reading): Reading {
    match rest
    case Read(v, n) => Read(total + Pow128(k) * v, n + k)
    case Broken(e, v) => Broken(e, total + Pow128(k) * v)
  }

  /** The unbounded value after one more byte. */
  ghost function Gather(total: nat, b: byte, k: nat): (r: nat) {
    total + (b % 128) * Pow128(k)
  }

  lemma GatherStep(total: nat, b: byte, k: nat, width: nat)
    requires width > 0 && total < Pow128(k)
    ensures total % width < Pow128(k)
    ensures OrShifted(total % width, b, k, width) == Gather(total, b, k) % width
  {
    ModAtMost(total, width);
    ModAdd(total, (b % 128) * Pow128(k), width);
  }

  lemma GatherBound(total: nat, b: byte, k: nat)
    requires total < Pow128(k)
    ensures Gather(total, b, k) < Pow128(k + 1)
  {
    ScaledDigit(b % 128, Pow128(k));
  }

  lemma ScaledDigit(d: nat, p: nat)
    requires d <= 127
    ensures 0 <= d * p <= 127 * p
  {
  }

  lemma ResumeStep(total: nat, k: nat, b: byte, rest: Reading)
    ensures Resume(total, k, AfterDigit(b, rest))
         == if b < 128 then Read(Gather(total, b, k), k + 1) else Resume(Gather(total, b, k), k + 1, rest)
  {
    if b >= 128 {
      ScaledSum(b - 128, Pow128(k), rest.value);
    }
  }

  lemma ScaledSum(d: int, p: int, v: int)
    ensures p * (d + 128 * v) == d * p + (128 * p) * v
  {
  }

  /** The loop invariant of the reader: where a read of `s` stands after k bytes. */
  ghost predicate Midway(s: seq<byte>, room: nat, k: nat, total: nat) {
    && k <= room && k <= |s| && total < Pow128(k)
    && ReadRaw(s, room) == Resume(total, k, ReadRaw(s[k..], room - k))
  }

  lemma ReadingStarts(s: seq<byte>, room: nat)
    ensures Midway(s, room, 0, 0)
  {
    assert s[0..] == s;
  }

  lemma ReadingStops(s: seq<byte>, room: nat, k: nat, total: nat)
    requires Midway(s, room, k, total)
    ensures k == room ==> ReadRaw(s, room) == Broken(IntOverflow, total)
    ensures k < room && k == |s| ==> ReadRaw(s, room) == Broken(UnexpectedEOF, total)
  {
  }

  lemma ReadingStep(s: seq<byte>, room: nat, k: nat, total: nat)
    requires Midway(s, room, k, total) && k < room && k < |s|
    ensures s[k] < 128 ==> ReadRaw(s, room) == Read(Gather(total, s[k], k), k + 1)
    ensures s[k] >= 128 ==> Midway(s, room, k + 1, Gather(total, s[k], k))
  {
    GatherBound(total, s[k], k);
    assert s[k..][1..] == s[k + 1..];
    ResumeStep(total, k, s[k], ReadRaw(s[k + 1..], room - k - 1));
  }

  /** The bytes from index i on; a reader that stands past the end sees none. */
  function From(s: seq<byte>, i: nat): seq<byte> {
    if i <= |s| then s[i..] else []
  }

  /** One inlined reader loop, over the slice of `dAtA` that starts at `lo`. The accumulator is
      `width` wide: 2^64 for tags, lengths and uint64 fields, 2^32 for uint32 fields. */
  method ReadVarintLoop(dAtA: array<byte>, lo: nat, index: nat, width: nat)
    returns (value: nat, iNdEx: nat, error: Option<WireError>)
    requires lo <= dAtA.Length && width > 0
    ensures error.None? ==> index < iNdEx <= dAtA.Length - lo
    ensures Truncate(ReadRaw(From(dAtA[lo..], index), MAX_VARINT_LEN), width)
         == if error.None? then Read(value, iNdEx - index) else Broken(error.value, value)
    ensures value < width
  {
    hide ReadRaw, Gather, OrShifted, Resume;
    ghost var s := From(dAtA[lo..], index);
    ghost var total: nat := 0;
    ReadingStarts(s, MAX_VARINT_LEN);
    value, iNdEx := 0, index;
    var shift := 0;
    while true
      invariant iNdEx >= index && shift == 7 * (iNdEx - index)
      invariant Midway(s, MAX_VARINT_LEN, iNdEx - index, total) && value == total % width
      decreases MAX_VARINT_LEN - (iNdEx - index)
    {
      ReadingStops(s, MAX_VARINT_LEN, iNdEx - index, total);
      if shift >= 64 {
        return value, iNdEx, Some(IntOverflow);
      }
      if iNdEx >= dAtA.Length - lo {
        return value, iNdEx, Some(UnexpectedEOF);
      }
      var b := dAtA[lo + iNdEx];
      GatherStep(total, b, iNdEx - index, width);
      ReadingStep(s, MAX_VARINT_LEN, iNdEx - index, total);
      value := OrShifted(value, b, shift / 7, width);
      iNdEx := iNdEx + 1;
      if b < 128 {
        return value, iNdEx, None;
      }
      total := Gather(total, b, iNdEx - index - 1);
      shift := shift + 7;
    }
  }

  /** sovMsg: the number of bytes a varint takes. */
  method Sov(v: nat) returns (n: nat)
    ensures n == |Encode(v)|
  {
    n := 0;
    var x := v;
    while true
      invariant n + |Encode(x)| == |Encode(v)|
      decreases x
    {
      n := n + 1;
      x := x / 128;
      if x == 0 {
        break;
      }
    }
  }

  /** encodeVarintMsg: writes a varint in place and returns the offset after it. */
  method WriteVarint(dAtA: array<byte>, offset: nat, v: nat) returns (end: nat)
    requires offset + |Encode(v)| <= dAtA.Length
    modifies dAtA
    ensures end == offset + |Encode(v)|
    ensures dAtA[..] == Patched(old(dAtA[..]), offset, Encode(v))
  {
    hide Patched;
    ghost var s := dAtA[..];
    ghost var done: seq<byte> := [];
    assert Patched(s, offset, done) == s by { PatchNothing(s, offset); }
    end := offset;
    var x := v;
    while x >= 128
      invariant done + Encode(x) == Encode(v)
      invariant end == offset + |done| && end + |Encode(x)| <= dAtA.Length
      invariant dAtA[..] == Patched(s, offset, done)
      decreases x
    {
      PatchByte(s, offset, done, x % 128 + 128);
      dAtA[end] := x % 128 + 128;
      done := done + [x % 128 + 128];
      x := x / 128;
      end := end + 1;
    }
    PatchByte(s, offset, done, x);
    dAtA[end] := x;
    end := end + 1;
  }
}
