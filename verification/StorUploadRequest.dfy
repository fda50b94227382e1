/** The upload request: two bytes fields, a string, a uint32 and a uint64. */
module StorUpload {
  import opened Bytes
  import opened Buffers
  import opened Varint
  import opened Wire
  import opened Messages
  import opened Codec

  const SCHEMA: Schema := [Blob, Blob, Uint32, Blob, Uint64]

  class StorUploadRequest {
    var owner: seq<byte>
    var sig: seq<byte>
    var ordinal: uint32
    var cid: seq<byte>
    var fileSize: uint64
    var unrecognized: seq<byte>

    ghost function Model(): (m: Message)
      reads this
      ensures Conforms(SCHEMA, m)
    {
      Message([Data(owner), Data(sig), Number(ordinal), Data(cid), Number(fileSize)], unrecognized)
    }

    constructor ()
      ensures Model() == Fresh(SCHEMA)
    {
      owner, sig, ordinal, cid, fileSize, unrecognized := [], [], 0, [], 0, [];
    }

    method Size() returns (n: nat)
      ensures n == |Encoding(SCHEMA, Model())|
    {
      hide EncodeValue;
      Layout(Model());
      var a := SizeOfBlob(1, owner);
      var b := SizeOfBlob(2, sig);
      var c := SizeOfNumber(3, ordinal);
      var d := SizeOfBlob(4, cid);
      var e := SizeOfNumber(5, fileSize);
      n := a + b + c + d + e + |unrecognized|;
    }

    method MarshalTo(dAtA: array<byte>) returns (n: nat)
      requires |Encoding(SCHEMA, Model())| <= dAtA.Length
      modifies dAtA
      ensures n == |Encoding(SCHEMA, Model())|
      ensures dAtA[..] == Patched(old(dAtA[..]), 0, Encoding(SCHEMA, Model()))
    {
      hide Patched, EncodeValue;
      ghost var s := dAtA[..];
      ghost var v1, v2, v3 := EncodeValue(1, Data(owner)), EncodeValue(2, Data(sig)), EncodeValue(3, Number(ordinal));
      ghost var v4, v5 := EncodeValue(4, Data(cid)), EncodeValue(5, Number(fileSize));
      Layout(Model());
      PatchNothing(s, 0);
      assert [] + v1 == v1;
      var i := WriteBlob(dAtA, 0, 1, owner, s, []);
      i := WriteBlob(dAtA, i, 2, sig, s, v1);
      i := WriteNumber(dAtA, i, 3, ordinal, s, v1 + v2);
      i := WriteBlob(dAtA, i, 4, cid, s, v1 + v2 + v3);
      i := WriteNumber(dAtA, i, 5, fileSize, s, v1 + v2 + v3 + v4);
      PatchJoin(s, v1 + v2 + v3 + v4 + v5, unrecognized);
      n := CopyInto(dAtA, i, unrecognized);
    }

    method Marshal() returns (dAtA: array<byte>, n: nat)
      ensures fresh(dAtA) && n == dAtA.Length && dAtA[..] == Encoding(SCHEMA, Model())
    {
      hide Encoding, Patched;
      var size := Size();
      dAtA := new byte[size];
      ghost var s := dAtA[..];
      n := MarshalTo(dAtA);
      PatchAll(s, Encoding(SCHEMA, Model()));
    }

    /** One pass of the Unmarshal loop, from position i. */
    method UnmarshalField(dAtA: array<byte>, i: nat) returns (next: nat, error: Option<WireError>)
      requires i < dAtA.Length <= MAX_BUFFER
      modifies this
      ensures error.None? ==> i < next <= dAtA.Length
      ensures DecodeField(SCHEMA, old(Model()), dAtA[i..], i)
           == if error.Some? then Stop(Model(), error.value) else Next(Model(), next - i)
    {
      hide ReadRaw, SkipField, ReadExtent, DecodeKnown, DecodeUnknown;
      ghost var s: Buffer, m := dAtA[..], Model();
      assert From(s, i) == s[i..] && dAtA[0..] == s;
      var wire, iNdEx, err := ReadVarintLoop(dAtA, 0, i, TWO64);
      if err.Some? {
        return i, err;
      }
      var fieldNum, wireType := Int32(wire / 8), wire % 8;
      if wireType == 4 {
        return i, Some(EndGroup);
      }
      if fieldNum <= 0 {
        return i, Some(IllegalTag(fieldNum, wire));
      }
      if fieldNum > 5 {
        next, error := SkipUnknown(dAtA, i, SCHEMA, m);
        if error.None? {
          unrecognized := unrecognized + dAtA[i..next];
        }
        return;
      }
      KnownField(SCHEMA, m, s, i, fieldNum - 1);
      next, error := UnmarshalKnown(dAtA, i, iNdEx, fieldNum, wireType);
    }

    /** The cases of the switch for fields 1 to 5, after a tag that ends at position iNdEx. */
    method UnmarshalKnown(dAtA: array<byte>, i: nat, iNdEx: nat, fieldNum: nat, wireType: nat)
      returns (next: nat, error: Option<WireError>)
      requires i < iNdEx <= dAtA.Length <= MAX_BUFFER && 1 <= fieldNum <= 5
      modifies this
      ensures error.None? ==> i < next <= dAtA.Length
      ensures DecodeKnown(SCHEMA, old(Model()), fieldNum - 1, dAtA[i..], iNdEx - i, wireType, i)
           == if error.Some? then Stop(Model(), error.value) else Next(Model(), next - i)
    {
      hide ReadRaw, SkipField, ReadExtent, DecodeKnown;
      ghost var s: Buffer, m := dAtA[..], Model();
      assert dAtA[0..] == s;
      if fieldNum == 3 || fieldNum == 5 {
        if wireType != 0 {
          WrongType(SCHEMA, m, s, i, iNdEx, fieldNum - 1, wireType);
          return i, Some(WrongWireType(wireType, fieldNum));
        }
        ScalarField(SCHEMA, m, s, i, iNdEx, fieldNum - 1);
        if fieldNum == 3 {
          ordinal, next, error := ReadVarintLoop(dAtA, 0, iNdEx, TWO32);
        } else {
          fileSize, next, error := ReadVarintLoop(dAtA, 0, iNdEx, TWO64);
        }
        return;
      }
      if wireType != 2 {
        WrongType(SCHEMA, m, s, i, iNdEx, fieldNum - 1, wireType);
        return i, Some(WrongWireType(wireType, fieldNum));
      }
      DataField(SCHEMA, m, s, i, iNdEx, fieldNum - 1);
      var start, postIndex, err' := ReadExtentLoop(dAtA, 0, iNdEx);
      if err'.Some? {
        return i, err';
      }
      if postIndex > dAtA.Length {
        return i, Some(UnexpectedEOF);
      }
      match fieldNum {
        case 1 => owner := dAtA[start..postIndex];
        case 2 => sig := dAtA[start..postIndex];
        case 4 => cid := dAtA[start..postIndex];
      }
      return postIndex, None;
    }

    method Unmarshal(dAtA: array<byte>) returns (error: Option<WireError>)
      requires dAtA.Length <= MAX_BUFFER
      modifies this
      ensures Decode(SCHEMA, old(Model()), dAtA[..], 0) == Decoded(Model(), error)
    {
      hide DecodeField;
      ghost var goal := Decode(SCHEMA, Model(), dAtA[..], 0);
      var iNdEx := 0;
      assert dAtA[0..] == dAtA[..];
      while iNdEx < dAtA.Length
        invariant iNdEx <= dAtA.Length
        invariant Decode(SCHEMA, Model(), dAtA[iNdEx..], iNdEx) == goal
      {
        var next, err := UnmarshalField(dAtA, iNdEx);
        if err.Some? {
          return err;
        }
        assert dAtA[iNdEx..][next - iNdEx..] == dAtA[next..];
        iNdEx := next;
      }
      return None;
    }
  }

  lemma Layout(m: Message)
    requires |m.values| == |SCHEMA|
    ensures Encoding(SCHEMA, m)
         == EncodeValue(1, m.values[0]) + EncodeValue(2, m.values[1]) + EncodeValue(3, m.values[2])
            + EncodeValue(4, m.values[3]) + EncodeValue(5, m.values[4]) + m.unknown
  {
    hide EncodeValue;
    var v := m.values;
    assert EncodingFrom(SCHEMA, m, 4) == EncodeValue(5, v[4]) + m.unknown;
    assert EncodingFrom(SCHEMA, m, 3) == EncodeValue(4, v[3]) + EncodingFrom(SCHEMA, m, 4);
    assert EncodingFrom(SCHEMA, m, 2) == EncodeValue(3, v[2]) + EncodingFrom(SCHEMA, m, 3);
    assert EncodingFrom(SCHEMA, m, 1) == EncodeValue(2, v[1]) + EncodingFrom(SCHEMA, m, 2);
    assert EncodingFrom(SCHEMA, m, 0) == EncodeValue(1, v[0]) + EncodingFrom(SCHEMA, m, 1);
  }
}
