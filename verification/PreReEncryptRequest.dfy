/** The re-encryption request: two strings, a bytes field and a repeated bytes field. */
module PreReEncrypt {
  import opened Bytes
  import opened Buffers
  import opened Varint
  import opened Wire
  import opened Messages
  import opened Codec

  const SCHEMA: Schema := [Blob, Blob, Blobs, Blob]

  class PreReEncryptRequest {
    var cid: seq<byte>
    var lpp: seq<byte>
    var reKeys: seq<seq<byte>>
    var txid: seq<byte>
    var unrecognized: seq<byte>

    ghost function Model(): (m: Message)
      reads this
      ensures Conforms(SCHEMA, m)
    {
      Message([Data(cid), Data(lpp), List(reKeys), Data(txid)], unrecognized)
    }

    constructor ()
      ensures Model() == Fresh(SCHEMA)
    {
      cid, lpp, reKeys, txid, unrecognized := [], [], [], [], [];
    }

    method Size() returns (n: nat)
      ensures n == |Encoding(SCHEMA, Model())|
    {
      hide EncodeValue;
      Layout(Model());
      var a := SizeOfBlob(1, cid);
      var b := SizeOfBlob(2, lpp);
      var c := SizeOfItems(3, reKeys);
      var d := SizeOfBlob(4, txid);
      assert EncodeValue(3, List(reKeys)) == EncodeItems(3, reKeys) by { ListForm(reKeys); }
      n := a + b + c + d + |unrecognized|;
    }

    method MarshalTo(dAtA: array<byte>) returns (n: nat)
      requires |Encoding(SCHEMA, Model())| <= dAtA.Length
      modifies dAtA
      ensures n == |Encoding(SCHEMA, Model())|
      ensures dAtA[..] == Patched(old(dAtA[..]), 0, Encoding(SCHEMA, Model()))
    {
      hide Patched, EncodeValue, EncodeItems;
      ghost var s, m := dAtA[..], Model();
      ghost var v1, v2 := EncodeValue(1, Data(cid)), EncodeValue(2, Data(lpp));
      ghost var v3, v4 := EncodeItems(3, reKeys), EncodeValue(4, Data(txid));
      Layout(m);
      ListForm(reKeys);
      PatchNothing(s, 0);
      assert [] + v1 == v1;
      var i := WriteBlob(dAtA, 0, 1, cid, s, []);
      i := WriteBlob(dAtA, i, 2, lpp, s, v1);
      i := WriteItems(dAtA, i, 3, reKeys, s, v1 + v2);
      i := WriteBlob(dAtA, i, 4, txid, s, v1 + v2 + v3);
      PatchJoin(s, v1 + v2 + v3 + v4, unrecognized);
      n := CopyInto(dAtA, i, unrecognized);
    }

    method Marshal() returns (dAtA: array<byte>, n: nat)
      ensures fresh(dAtA) && n == dAtA.Length && dAtA[..] == Encoding(SCHEMA, Model())
    {
      hide Encoding, Patched;
      var size := Size();
      dAtA := new byte[size];
      ghost var s := dAtA[..];
      n := MarshalTo(dAtA);
      PatchAll(s, Encoding(SCHEMA, Model()));
    }

    /** One pass of the Unmarshal loop, from position i. */
    method UnmarshalField(dAtA: array<byte>, i: nat) returns (next: nat, error: Option<WireError>)
      requires i < dAtA.Length <= MAX_BUFFER
      modifies this
      ensures error.None? ==> i < next <= dAtA.Length
      ensures DecodeField(SCHEMA, old(Model()), dAtA[i..], i)
           == if error.Some? then Stop(Model(), error.value) else Next(Model(), next - i)
    {
      hide ReadRaw, SkipField, ReadExtent, DecodeKnown, DecodeUnknown;
      ghost var s: Buffer, m := dAtA[..], Model();
      assert From(s, i) == s[i..];
      var wire, iNdEx, err := ReadVarintLoop(dAtA, 0, i, TWO64);
      assert dAtA[0..] == s;
      if err.Some? {
        return i, err;
      }
      var fieldNum, wireType := Int32(wire / 8), wire % 8;
      if wireType == 4 {
        return i, Some(EndGroup);
      }
      if fieldNum <= 0 {
        return i, Some(IllegalTag(fieldNum, wire));
      }
      if fieldNum > 4 {
        next, error := SkipUnknown(dAtA, i, SCHEMA, m);
        if error.None? {
          unrecognized := unrecognized + dAtA[i..next];
        }
        return;
      }
      KnownField(SCHEMA, m, s, i, fieldNum - 1);
      if wireType != 2 {
        WrongType(SCHEMA, m, s, i, iNdEx, fieldNum - 1, wireType);
        return i, Some(WrongWireType(wireType, fieldNum));
      }
      DataField(SCHEMA, m, s, i, iNdEx, fieldNum - 1);
      var start, postIndex, err' := ReadExtentLoop(dAtA, 0, iNdEx);
      if err'.Some? {
        return i, err';
      }
      if postIndex > dAtA.Length {
        return i, Some(UnexpectedEOF);
      }
      match fieldNum {
        case 1 => cid := dAtA[start..postIndex];
        case 2 => lpp := dAtA[start..postIndex];
        case 3 => reKeys := reKeys + [dAtA[start..postIndex]];
        case 4 => txid := dAtA[start..postIndex];
      }
      return postIndex, None;
    }

    method Unmarshal(dAtA: array<byte>) returns (error: Option<WireError>)
      requires dAtA.Length <= MAX_BUFFER
      modifies this
      ensures Decode(SCHEMA, old(Model()), dAtA[..], 0) == Decoded(Model(), error)
    {
      hide DecodeField;
      ghost var goal := Decode(SCHEMA, Model(), dAtA[..], 0);
      var iNdEx := 0;
      assert dAtA[0..] == dAtA[..];
      while iNdEx < dAtA.Length
        invariant iNdEx <= dAtA.Length
        invariant Decode(SCHEMA, Model(), dAtA[iNdEx..], iNdEx) == goal
      {
        var next, err := UnmarshalField(dAtA, iNdEx);
        if err.Some? {
          return err;
        }
        assert dAtA[iNdEx..][next - iNdEx..] == dAtA[next..];
        iNdEx := next;
      }
      return None;
    }
  }

  lemma ListForm(items: seq<seq<byte>>)
    ensures EncodeValue(3, List(items)) == EncodeItems(3, items)
  {
  }

  lemma Layout(m: Message)
    requires |m.values| == |SCHEMA|
    ensures Encoding(SCHEMA, m)
         == EncodeValue(1, m.values[0]) + EncodeValue(2, m.values[1]) + EncodeValue(3, m.values[2])
            + EncodeValue(4, m.values[3]) + m.unknown
  {
    hide EncodeValue;
    var v := m.values;
    assert EncodingFrom(SCHEMA, m, 3) == EncodeValue(4, v[3]) + m.unknown;
    assert EncodingFrom(SCHEMA, m, 2) == EncodeValue(3, v[2]) + EncodingFrom(SCHEMA, m, 3);
    assert EncodingFrom(SCHEMA, m, 1) == EncodeValue(2, v[1]) + EncodingFrom(SCHEMA, m, 2);
    assert EncodingFrom(SCHEMA, m, 0) == EncodeValue(1, v[0]) + EncodingFrom(SCHEMA, m, 1);
  }
}
