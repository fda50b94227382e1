/** Reading and writing single fields in a byte buffer, shared by the message classes. */
module Codec {
  import opened Bytes
  import opened Buffers
  import opened Varint
  import opened Wire
  import opened Messages

  // ----- writing -----

  /** Tag, length and payload. */
  method WriteData(dAtA: array<byte>, i: nat, field: nat, data: seq<byte>, ghost s: seq<byte>, ghost w: seq<byte>)
    returns (end: nat)
    requires field <= 15 && i == |w| && |w + EncodeData(field, data)| <= |s| && dAtA[..] == Patched(s, 0, w)
    modifies dAtA
    ensures end == |w + EncodeData(field, data)| && dAtA[..] == Patched(s, 0, w + EncodeData(field, data))
  {
    hide Patched, Encode;
    ghost var tag, length := [(8 * field + 2) as byte], Encode(|data|);
    PatchJoin(s, w, tag);
    end := CopyInto(dAtA, i, [8 * field + 2]);
    PatchJoin(s, w + tag, length);
    end := WriteVarint(dAtA, end, |data|);
    PatchJoin(s, w + tag + length, data);
    end := CopyInto(dAtA, end, data);
    assert w + tag + length + data == w + EncodeData(field, data);
  }

  method WriteBlob(dAtA: array<byte>, i: nat, field: nat, data: seq<byte>, ghost s: seq<byte>, ghost w: seq<byte>)
    returns (end: nat)
    requires field <= 15 && i == |w| && |w + EncodeValue(field, Data(data))| <= |s| && dAtA[..] == Patched(s, 0, w)
    modifies dAtA
    ensures end == |w + EncodeValue(field, Data(data))|
    ensures dAtA[..] == Patched(s, 0, w + EncodeValue(field, Data(data)))
  {
    hide Patched;
    end := i;
    if |data| > 0 {
      end := WriteData(dAtA, i, field, data, s, w);
    } else {
      assert w + [] == w;
    }
  }

  method WriteNumber(dAtA: array<byte>, i: nat, field: nat, n: nat, ghost s: seq<byte>, ghost w: seq<byte>)
    returns (end: nat)
    requires field <= 15 && i == |w| && |w + EncodeValue(field, Number(n))| <= |s| && dAtA[..] == Patched(s, 0, w)
    modifies dAtA
    ensures end == |w + EncodeValue(field, Number(n))|
    ensures dAtA[..] == Patched(s, 0, w + EncodeValue(field, Number(n)))
  {
    hide Patched, Encode;
    end := i;
    if n != 0 {
      ghost var tag, word := [(8 * field) as byte], Encode(n);
      PatchJoin(s, w, tag);
      end := CopyInto(dAtA, i, [8 * field]);
      PatchJoin(s, w + tag, word);
      end := WriteVarint(dAtA, end, n);
      assert w + tag + word == w + EncodeValue(field, Number(n));
    } else {
      assert w + [] == w;
    }
  }

  lemma ItemsSplit(field: nat, items: seq<seq<byte>>, k: nat)
    requires field <= 15 && k < |items|
    ensures EncodeItems(field, items[k..]) == EncodeData(field, items[k]) + EncodeItems(field, items[k + 1..])
  {
    assert items[k..][1..] == items[k + 1..];
  }

  method WriteItems(
      dAtA: array<byte>, i: nat, field: nat, items: seq<seq<byte>>, ghost s: seq<byte>, ghost w: seq<byte>)
    returns (end: nat)
    requires field <= 15 && i == |w| && |w + EncodeItems(field, items)| <= |s| && dAtA[..] == Patched(s, 0, w)
    modifies dAtA
    ensures end == |w + EncodeItems(field, items)| && dAtA[..] == Patched(s, 0, w + EncodeItems(field, items))
  {
    hide Patched, EncodeData, EncodeItems;
    end := i;
    ghost var w' := w;
    ghost var goal := w + EncodeItems(field, items);
    assert items[0..] == items;
    for k := 0 to |items|
      invariant w' + EncodeItems(field, items[k..]) == goal
      invariant end == |w'| <= |goal| && dAtA[..] == Patched(s, 0, w')
    {
      ghost var one := EncodeData(field, items[k]);
      ItemsSplit(field, items, k);
      assert w' + (one + EncodeItems(field, items[k + 1..])) == (w' + one) + EncodeItems(field, items[k + 1..]);
      end := WriteData(dAtA, end, field, items[k], s, w');
      w' := w' + one;
    }
    NoItems(field);
    assert items[|items|..] == [] && w' + [] == w';
  }

  lemma NoItems(field: nat)
    requires field <= 15
    ensures EncodeItems(field, []) == []
  {
  }

  // ----- sizes -----

  method SizeOfBlob(field: nat, data: seq<byte>) returns (n: nat)
    requires field <= 15
    ensures n == |EncodeValue(field, Data(data))|
  {
    n := 0;
    if |data| > 0 {
      var sov := Sov(|data|);
      n := 1 + |data| + sov;
    }
  }

  method SizeOfNumber(field: nat, v: nat) returns (n: nat)
    requires field <= 15
    ensures n == |EncodeValue(field, Number(v))|
  {
    n := 0;
    if v != 0 {
      var sov := Sov(v);
      n := 1 + sov;
    }
  }

  method SizeOfItems(field: nat, items: seq<seq<byte>>) returns (n: nat)
    requires field <= 15
    ensures n == |EncodeItems(field, items)|
  {
    n := 0;
    assert items[0..] == items;
    for k := 0 to |items|
      invariant n + |EncodeItems(field, items[k..])| == |EncodeItems(field, items)|
    {
      ItemsSplit(field, items, k);
      var sov := Sov(|items[k]|);
      n := n + 1 + |items[k]| + sov;
    }
  }

  // ----- reading -----

  lemma ExtentShift(s: Buffer, p: nat, i: nat)
    requires p <= i <= |s|
    ensures ReadExtent(s[p..], i - p, p)
         == match ReadExtent(s, i, 0)
            case NoExtent(e) => NoExtent(e)
            case Extent(start, end) => Extent(start - p, end - p)
  {
    assert From(s[p..], i - p) == From(s, i);
  }

  /** What decoding the field at position `pre` of `s` comes to, when its tag announces field i+1. */
  lemma KnownField(schema: Schema, m: Message, s: Buffer, pre: nat, i: nat)
    requires pre < |s| && Conforms(schema, m) && i < |schema|
    requires var r := ReadVarint(s[pre..]); r.Read? && Int32(r.value / 8) == i + 1 && r.value % 8 != 4
    ensures var r := ReadVarint(s[pre..]);
            && 0 < r.len <= |s| - pre
            && DecodeField(schema, m, s[pre..], pre)
               == DecodeKnown(schema, m, i, s[pre..], r.len, r.value % 8, pre)
  {
    ReadBounds(s[pre..]);
  }

  lemma WrongType(schema: Schema, m: Message, s: Buffer, pre: nat, at: nat, i: nat, wireType: nat)
    requires pre < at <= |s| && Conforms(schema, m) && i < |schema| && wireType != WireTypeFor(schema[i])
    ensures DecodeKnown(schema, m, i, s[pre..], at - pre, wireType, pre) == Stop(m, WrongWireType(wireType, i + 1))
  {
  }

  /** ... and field i+1 is a bytes field whose extent has been read at position `at`. */
  lemma DataField(schema: Schema, m: Message, s: Buffer, pre: nat, at: nat, i: nat)
    requires pre < at <= |s| && Conforms(schema, m) && i < |schema| && !IsScalar(schema[i])
    ensures DecodeKnown(schema, m, i, s[pre..], at - pre, 2, pre)
         == match ReadExtent(s, at, 0)
            case NoExtent(e) => Stop(m, e)
            case Extent(start, end) =>
              if end > |s| then Stop(m, UnexpectedEOF)
              else Next(Put(m, i, Absorb(m.values[i], s[start..end])), end - pre)
  {
    hide ReadVarint;
    ExtentShift(s, pre, at);
    var e := ReadExtent(s, at, 0);
    if e.Extent? && e.end <= |s| {
      assert s[pre..][e.start - pre..e.end - pre] == s[e.start..e.end];
    }
  }

  /** ... or a scalar field, whose varint is read into its own width. */
  lemma ScalarField(schema: Schema, m: Message, s: Buffer, pre: nat, at: nat, i: nat)
    requires pre < at <= |s| && Conforms(schema, m) && i < |schema| && IsScalar(schema[i])
    ensures DecodeKnown(schema, m, i, s[pre..], at - pre, 0, pre)
         == match Truncate(ReadRaw(From(s, at), MAX_VARINT_LEN), Width(schema[i]))
            case Broken(e, v) => Stop(Put(m, i, Number(v)), e)
            case Read(v, n) => Next(Put(m, i, Number(v)), at + n - pre)
  {
    hide ReadRaw, Width;
    assert s[pre..][at - pre..] == From(s, at);
    var raw := ReadRaw(From(s, at), MAX_VARINT_LEN);
    NarrowTwice(raw.value, schema[i]);
  }

  lemma NarrowTwice(x: nat, kind: Kind)
    ensures x % TWO64 % Width(kind) == x % Width(kind)
  {
  }

  /** The unknown-field branch: the bytes taken by skipMsg, with the checks around its result. */
  method SkipUnknown(dAtA: array<byte>, preIndex: nat, ghost schema: Schema, ghost m: Message)
    returns (end: nat, error: Option<WireError>)
    requires preIndex < dAtA.Length <= MAX_BUFFER && Conforms(schema, m)
    ensures error.None? ==> preIndex < end <= dAtA.Length
    ensures DecodeUnknown(schema, m, dAtA[preIndex..], preIndex)
         == if error.Some? then Stop(m, error.value)
            else Next(m.(unknown := m.unknown + dAtA[preIndex..end]), end - preIndex)
  {
    hide SkipField;
    end := preIndex;
    var skippy, err := SkipMsg(dAtA, preIndex);
    if err.Some? {
      return preIndex, err;
    }
    if skippy < 0 {
      return preIndex, Some(InvalidLength);
    }
    NegativeIffWrapped(preIndex, skippy);
    if Int64(preIndex + skippy) < 0 {
      return preIndex, Some(InvalidLength);
    }
    if Int64(preIndex + skippy) > dAtA.Length {
      return preIndex, Some(UnexpectedEOF);
    }
    assert dAtA[preIndex..][..skippy] == dAtA[preIndex..preIndex + skippy];
    return preIndex + skippy, None;
  }
}
