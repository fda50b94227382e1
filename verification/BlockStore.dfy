/** The in-memory file: an array of bytes seen as numbered blocks, the last of which may be short. */
module BlockStore {
  import opened Bytes
  import opened Buffers

  /** `SlicePanic` stands for the panic of slicing the file at an offset outside it. */
  datatype FileError = OutOfBlockIndex | WrongBlockSize | SlicePanic

  function BlockCount(fileSize: nat, blockSize: nat): nat
    requires blockSize > 0
  {
    fileSize / blockSize + if fileSize % blockSize > 0 then 1 else 0
  }

  function Zeros(n: nat): (s: seq<byte>)
    ensures |s| == n
  {
    seq(n, _ => 0)
  }

  /** The bytes of block blk that lie inside a file. */
  function InFile(fileSize: nat, blockSize: nat, blk: nat): (n: nat)
    requires blockSize > 0 && blk < BlockCount(fileSize, blockSize)
    ensures 0 <= blockSize * blk + n <= fileSize && n <= blockSize && (n == blockSize || blockSize * blk + n == fileSize)
  {
    BlockInside(fileSize, blockSize, blk);
    if blockSize <= fileSize - blockSize * blk then blockSize else fileSize - blockSize * blk
  }

  /** A block that exists starts inside the file. */
  lemma BlockInside(fileSize: nat, blockSize: nat, blk: nat)
    requires blockSize > 0 && blk < BlockCount(fileSize, blockSize)
    ensures 0 <= blockSize * blk < fileSize
  {
    var count := fileSize / blockSize;
    assert fileSize == blockSize * count + fileSize % blockSize;
    if blk < count {
      assert blockSize * (blk + 1) <= blockSize * count;
    }
  }

  /** Block blk as it reads back: its bytes in the file, then zeros. */
  function Block(data: seq<byte>, blockSize: nat, blk: nat): (b: seq<byte>)
    requires blockSize > 0 && blk < BlockCount(|data|, blockSize)
    ensures |b| == blockSize
  {
    BlockInside(|data|, blockSize, blk);
    var at, n := blockSize * blk, InFile(|data|, blockSize, blk);
    data[at..at + n] + Zeros(blockSize - n)
  }

  /** The file as its list of blocks. */
  function Blocks(data: seq<byte>, blockSize: nat): (bs: seq<seq<byte>>)
    requires blockSize > 0
    ensures |bs| == BlockCount(|data|, blockSize)
  {
    seq(BlockCount(|data|, blockSize), i requires 0 <= i < BlockCount(|data|, blockSize) => Block(data, blockSize, i))
  }

  /** The blocks that exist are those that start inside the file, so whole blocks leave none over. */
  lemma BlockCountExact(fileSize: nat, blockSize: nat, blk: nat)
    requires blockSize > 0
    ensures blk < BlockCount(fileSize, blockSize) <==> blockSize * blk < fileSize
  {
    if blk < BlockCount(fileSize, blockSize) {
      BlockInside(fileSize, blockSize, blk);
    } else {
      var count := BlockCount(fileSize, blockSize);
      assert fileSize == blockSize * (fileSize / blockSize) + fileSize % blockSize <= blockSize * count;
      assert blockSize * count <= blockSize * blk;
    }
  }

  /** Byte i of a block is that byte of the file, or zero past its end. */
  lemma BlockByte(data: seq<byte>, blockSize: nat, blk: nat, i: nat)
    requires i < blockSize && blk < BlockCount(|data|, blockSize)
    ensures blockSize * blk >= 0
    ensures Blocks(data, blockSize)[blk][i] == if blockSize * blk + i < |data| then data[blockSize * blk + i] else 0
  {
    BlockInside(|data|, blockSize, blk);
  }

  /** Every byte of the file is in a block. */
  lemma BlocksCover(data: seq<byte>, blockSize: nat, p: nat)
    requires blockSize > 0 && p < |data|
    ensures p / blockSize < BlockCount(|data|, blockSize)
    ensures Blocks(data, blockSize)[p / blockSize][p % blockSize] == data[p]
  {
    assert p == blockSize * (p / blockSize) + p % blockSize;
    BlockCountExact(|data|, blockSize, p / blockSize);
    BlockByte(data, blockSize, p / blockSize, p % blockSize);
  }

  function Concat(blocks: seq<seq<byte>>): seq<byte>
    decreases |blocks|
  {
    if blocks == [] then [] else Concat(blocks[..|blocks| - 1]) + blocks[|blocks| - 1]
  }

  lemma {:induction false} ConcatAt(blocks: seq<seq<byte>>, size: nat, k: nat, i: nat)
    requires (forall j :: 0 <= j < |blocks| ==> |blocks[j]| == size) && k < |blocks| && i < size
    ensures |Concat(blocks)| == size * |blocks| && 0 <= size * k + i < size * |blocks|
    ensures Concat(blocks)[size * k + i] == blocks[k][i]
    decreases |blocks|
  {
    var n := |blocks| - 1;
    assert size * (n + 1) == size * n + size;
    assert size * k + i < size * (k + 1) <= size * (n + 1);
    if n > 0 {
      ConcatAt(blocks[..n], size, if k < n then k else 0, i);
    }
  }

  /** The blocks one after the other, cut at the size of the file, are the file. */
  lemma BlocksJoin(data: seq<byte>, blockSize: nat)
    requires blockSize > 0
    ensures |Concat(Blocks(data, blockSize))| >= |data|
    ensures Concat(Blocks(data, blockSize))[..|data|] == data
  {
    hide Concat, Blocks;
    forall p | 0 <= p < |data|
      ensures p < |Concat(Blocks(data, blockSize))| && Concat(Blocks(data, blockSize))[p] == data[p]
    {
      JoinedByte(data, blockSize, p);
    }
    if data != [] {
      JoinedByte(data, blockSize, |data| - 1);
    }
  }

  lemma JoinedByte(data: seq<byte>, blockSize: nat, p: nat)
    requires blockSize > 0 && p < |data|
    ensures p < |Concat(Blocks(data, blockSize))| && Concat(Blocks(data, blockSize))[p] == data[p]
  {
    hide Concat, Blocks;
    assert p == blockSize * (p / blockSize) + p % blockSize;
    JoinedAt(data, blockSize, p / blockSize, p % blockSize);
  }

  lemma JoinedAt(data: seq<byte>, blockSize: nat, k: nat, i: nat)
    requires i < blockSize && 0 <= blockSize * k + i < |data|
    ensures blockSize * k + i < |Concat(Blocks(data, blockSize))|
    ensures Concat(Blocks(data, blockSize))[blockSize * k + i] == data[blockSize * k + i]
  {
    hide Concat, BlockCount, Block;
    BlockCountExact(|data|, blockSize, k);
    BlockByte(data, blockSize, k, i);
    ConcatAt(Blocks(data, blockSize), blockSize, k, i);
  }

  /** What is kept of a block written at blk: its in-file prefix. */
  function Kept(fileSize: nat, blockSize: nat, blk: nat, block: seq<byte>): seq<byte>
    requires blockSize > 0 && blk < BlockCount(fileSize, blockSize) && |block| == blockSize
  {
    BlockInside(fileSize, blockSize, blk);
    var n := InFile(fileSize, blockSize, blk);
    block[..n] + Zeros(blockSize - n)
  }

  /** A block reads back as written exactly when whatever reaches past the file was zero. */
  lemma ReadsBack(fileSize: nat, blockSize: nat, blk: nat, block: seq<byte>)
    requires blockSize > 0 && blk < BlockCount(fileSize, blockSize) && |block| == blockSize
    ensures blockSize * blk < fileSize
    ensures Kept(fileSize, blockSize, blk, block) == block
       <==> forall i :: 0 <= i < blockSize && blockSize * blk + i >= fileSize ==> block[i] == 0
  {
    BlockInside(fileSize, blockSize, blk);
    var n, kept := InFile(fileSize, blockSize, blk), Kept(fileSize, blockSize, blk, block);
    assert forall i :: 0 <= i < blockSize ==> kept[i] == if i < n then block[i] else 0;
    if forall i :: 0 <= i < blockSize && blockSize * blk + i >= fileSize ==> block[i] == 0 {
      assert kept == block;
    }
    if kept == block {
      forall i | 0 <= i < blockSize && blockSize * blk + i >= fileSize ensures block[i] == 0 {
        assert kept[i] == 0;
      }
    }
  }

  /** In a file of one byte, a block of two does not. */
  lemma DoesNotReadBack()
    ensures BlockCount(1, 2) == 1 && Kept(1, 2, 0, [7, 7]) == [7, 0]
  {
  }

  lemma WriteOne(data: seq<byte>, blockSize: nat, blk: nat, block: seq<byte>)
    requires blockSize > 0 && blk < BlockCount(|data|, blockSize) && |block| == blockSize
    ensures blockSize * blk + InFile(|data|, blockSize, blk) <= |data|
    ensures var data' := Patched(data, blockSize * blk, block[..InFile(|data|, blockSize, blk)]);
            && |data'| == |data|
            && Block(data', blockSize, blk) == Kept(|data|, blockSize, blk, block)
  {
    BlockInside(|data|, blockSize, blk);
    var at, n := blockSize * blk, InFile(|data|, blockSize, blk);
    assert Patched(data, at, block[..n])[at..at + n] == block[..n];
  }

  lemma WriteOther(data: seq<byte>, blockSize: nat, blk: nat, part: seq<byte>, other: nat)
    requires blockSize > 0 && blk < BlockCount(|data|, blockSize) && other < BlockCount(|data|, blockSize) && other != blk
    requires |part| <= blockSize && blockSize * blk + |part| <= |data|
    ensures Block(Patched(data, blockSize * blk, part), blockSize, other) == Block(data, blockSize, other)
  {
    BlockInside(|data|, blockSize, other);
    var from, n := blockSize * other, InFile(|data|, blockSize, other);
    Apart(blockSize, blk, other);
    PatchedApart(data, blockSize * blk, part, from, n);
  }

  lemma PatchedApart(data: seq<byte>, at: nat, part: seq<byte>, from: nat, n: nat)
    requires at + |part| <= |data| && from + n <= |data| && (at + |part| <= from || from + n <= at)
    ensures Patched(data, at, part)[from..from + n] == data[from..from + n]
  {
  }

  /** Writing a block replaces it in the list of blocks, and no other. */
  lemma WriteBlocks(data: seq<byte>, blockSize: nat, blk: nat, block: seq<byte>)
    requires blockSize > 0 && blk < BlockCount(|data|, blockSize) && |block| == blockSize
    ensures blockSize * blk + InFile(|data|, blockSize, blk) <= |data|
    ensures Blocks(Patched(data, blockSize * blk, block[..InFile(|data|, blockSize, blk)]), blockSize)
         == Blocks(data, blockSize)[blk := Kept(|data|, blockSize, blk, block)]
  {
    hide Kept, Patched, Block, InFile;
    WriteOne(data, blockSize, blk, block);
    var n := InFile(|data|, blockSize, blk);
    var data' := Patched(data, blockSize * blk, block[..n]);
    var goal := Blocks(data, blockSize)[blk := Kept(|data|, blockSize, blk, block)];
    forall i | 0 <= i < |goal| ensures Block(data', blockSize, i) == goal[i] {
      if i != blk {
        WriteOther(data, blockSize, blk, block[..n], i);
      }
    }
  }

  lemma Apart(blockSize: nat, a: nat, b: nat)
    requires a != b
    ensures blockSize * a + blockSize <= blockSize * b || blockSize * b + blockSize <= blockSize * a
  {
    if a < b {
      assert blockSize * (a + 1) <= blockSize * b;
    } else {
      assert blockSize * (b + 1) <= blockSize * a;
    }
  }

  // ----- negative block numbers -----

  /** The 64-bit product the source slices the file at. */
  function Offset(blockSize: nat, blk: int): int {
    Int64(blockSize * blk)
  }

  /** How many bytes of a block fit between an offset and the end of the file. */
  function Fits(fileSize: nat, blockSize: nat, at: nat): (n: nat)
    requires at <= fileSize
    ensures at + n <= fileSize && n <= blockSize && (n == blockSize || at + n == fileSize)
  {
    if blockSize <= fileSize - at then blockSize else fileSize - at
  }

  lemma OffsetExact(fileSize: nat, blockSize: nat, blk: nat)
    requires blockSize > 0 && fileSize < TWO63 && blk < BlockCount(fileSize, blockSize)
    ensures 0 <= Offset(blockSize, blk) == blockSize * blk < fileSize
    ensures Fits(fileSize, blockSize, blockSize * blk) == InFile(fileSize, blockSize, blk)
  {
    BlockInside(fileSize, blockSize, blk);
  }

  /** The index test lets negative block numbers through. Most panic, but where the product wraps around to
      an offset inside the file, the source reads and writes there: here, at block 0. */
  lemma NegativeBlockAliases()
    ensures Offset(0x1_0000_0000, -0x1_0000_0000) == 0
    ensures Offset(1, -1) == -1
  {
  }

  /** A zeroed buffer with `part` copied to its front. */
  method PaddedCopy(part: seq<byte>, size: nat) returns (block: seq<byte>)
    requires |part| <= size
    ensures block == part + Zeros(size - |part|)
  {
    var buffer := new byte[size](_ => 0);
    var _ := CopyInto(buffer, 0, part);
    block := buffer[..];
  }

  class MemFileObj {
    var data: array<byte>
    var fileSize: nat
    var blockSize: nat
    var blockCount: nat

    ghost predicate Valid()
      reads this
    {
      blockSize > 0 && fileSize == data.Length < TWO63 && blockCount == BlockCount(fileSize, blockSize)
    }

    ghost function Model(): seq<seq<byte>>
      requires Valid()
      reads this, data
    {
      Blocks(data[..], blockSize)
    }

    /** `content` is what the random source fills the file with; its length is the file size. */
    constructor (content: seq<byte>, blockSize: nat)
      requires blockSize > 0 && |content| < TWO63
      ensures Valid() && fresh(data) && data[..] == content && this.blockSize == blockSize
    {
      data := new byte[|content|](i requires 0 <= i < |content| => content[i]);
      fileSize, this.blockSize := |content|, blockSize;
      blockCount := BlockCount(|content|, blockSize);
      new;
      assert data[..] == content;
    }

    method UpdateBlockCount()
      requires blockSize > 0
      modifies this`blockCount
      ensures blockCount == BlockCount(fileSize, blockSize)
    {
      var count, rem := fileSize / blockSize, fileSize % blockSize;
      if rem > 0 {
        count := count + 1;
      }
      blockCount := count;
    }

    method UpdateMeta()
      requires blockSize > 0 && data.Length < TWO63
      modifies this`fileSize, this`blockCount
      ensures Valid()
    {
      fileSize := data.Length;
      UpdateBlockCount();
    }

    method GetBlock(blk: int) returns (block: seq<byte>, error: Option<FileError>)
      requires Valid()
      ensures if blk >= blockCount then error == Some(OutOfBlockIndex) && block == []
              else if blk >= 0 then error == None && block == Model()[blk]
              else if !(0 <= Offset(blockSize, blk) <= fileSize) then error == Some(SlicePanic) && block == []
              else var at := Offset(blockSize, blk);
                   var n := Fits(fileSize, blockSize, at);
                   error == None && block == data[at..at + n] + Zeros(blockSize - n)
    {
      if blockCount <= blk {
        return [], Some(OutOfBlockIndex);
      }
      if blk >= 0 {
        OffsetExact(fileSize, blockSize, blk);
      }
      hide Offset;
      var at := Offset(blockSize, blk);
      if at < 0 || at > data.Length {
        return [], Some(SlicePanic);
      }
      var n := Fits(data.Length, blockSize, at);
      block := PaddedCopy(data[at..at + n], blockSize);
      if blk >= 0 {
        assert block == Block(data[..], blockSize, blk);
      }
      return block, None;
    }

    method SetBlock(blk: int, block: seq<byte>) returns (error: Option<FileError>)
      requires Valid()
      modifies this`fileSize, this`blockCount, data
      ensures Valid() && data == old(data) && fileSize == old(fileSize) && blockCount == old(blockCount)
      ensures if blk >= blockCount then error == Some(OutOfBlockIndex) && data[..] == old(data[..])
              else if |block| != blockSize then error == Some(WrongBlockSize) && data[..] == old(data[..])
              else if blk >= 0 then
                error == None && Model() == old(Model())[blk := Kept(fileSize, blockSize, blk, block)]
              else if !(0 <= Offset(blockSize, blk) <= fileSize) then
                error == Some(SlicePanic) && data[..] == old(data[..])
              else
                var at := Offset(blockSize, blk);
                error == None && data[..] == Patched(old(data[..]), at, block[..Fits(fileSize, blockSize, at)])
    {
      if blockCount <= blk {
        return Some(OutOfBlockIndex);
      }
      if |block| != blockSize {
        return Some(WrongBlockSize);
      }
      if blk >= 0 {
        OffsetExact(fileSize, blockSize, blk);
      }
      hide Offset;
      var at := Offset(blockSize, blk);
      if at < 0 || at > data.Length {
        return Some(SlicePanic);
      }
      ghost var s := data[..];
      var n := Fits(data.Length, blockSize, at);
      var _ := CopyInto(data, at, block[..n]);
      UpdateMeta();
      if blk >= 0 {
        WriteBlocks(s, blockSize, blk, block);
      }
      return None;
    }
  }

  /** Every byte of a file object is in one of the blocks that GetBlock serves. */
  lemma ObjectCovered(obj: MemFileObj, p: nat)
    requires obj.Valid() && p < obj.data.Length
    ensures p / obj.blockSize < obj.blockCount
    ensures obj.Model()[p / obj.blockSize][p % obj.blockSize] == obj.data[p]
  {
    BlocksCover(obj.data[..], obj.blockSize, p);
  }

  // ----- runs of writes -----

  datatype Write = Write(blk: nat, block: seq<byte>)

  function WriteAll(blocks: seq<seq<byte>>, fileSize: nat, blockSize: nat, writes: seq<Write>): (r: seq<seq<byte>>)
    requires blockSize > 0 && |blocks| == BlockCount(fileSize, blockSize)
    requires forall w :: w in writes ==> w.blk < |blocks| && |w.block| == blockSize
    ensures |r| == |blocks|
    decreases |writes|
  {
    if writes == [] then blocks
    else
      var w := writes[|writes| - 1];
      WriteAll(blocks, fileSize, blockSize, writes[..|writes| - 1])[w.blk := Kept(fileSize, blockSize, w.blk, w.block)]
  }

  /** A run of SetBlock calls on one file leaves the blocks of WriteAll, in the same array. */
  method SetBlocks(obj: MemFileObj, writes: seq<Write>)
    requires obj.Valid() && forall w :: w in writes ==> w.blk < obj.blockCount && |w.block| == obj.blockSize
    modifies obj`fileSize, obj`blockCount, obj.data
    ensures obj.Valid() && obj.data == old(obj.data)
    ensures obj.fileSize == old(obj.fileSize) && obj.blockCount == old(obj.blockCount)
    ensures obj.Model() == WriteAll(old(obj.Model()), obj.fileSize, obj.blockSize, writes)
  {
    ghost var blocks := obj.Model();
    for i := 0 to |writes|
      invariant obj.Valid() && obj.data == old(obj.data)
      invariant obj.fileSize == old(obj.fileSize) && obj.blockCount == old(obj.blockCount)
      invariant obj.Model() == WriteAll(blocks, obj.fileSize, obj.blockSize, writes[..i])
    {
      assert writes[..i + 1][..i] == writes[..i];
      var _ := obj.SetBlock(writes[i].blk, writes[i].block);
    }
    assert writes[..|writes|] == writes;
  }

  /** After any run of writes a block is the kept part of the last write to it. */
  lemma {:induction false} LastWriteWins(blocks: seq<seq<byte>>, fileSize: nat, blockSize: nat, writes: seq<Write>, k: nat)
    requires blockSize > 0 && |blocks| == BlockCount(fileSize, blockSize)
    requires forall w :: w in writes ==> w.blk < |blocks| && |w.block| == blockSize
    requires k < |writes| && forall j :: k < j < |writes| ==> writes[j].blk != writes[k].blk
    ensures WriteAll(blocks, fileSize, blockSize, writes)[writes[k].blk]
         == Kept(fileSize, blockSize, writes[k].blk, writes[k].block)
    decreases |writes|
  {
    if k < |writes| - 1 {
      LastWriteWins(blocks, fileSize, blockSize, writes[..|writes| - 1], k);
    }
  }

  /** ... and a block that was not written is the one from before. */
  lemma {:induction false} UnwrittenStays(blocks: seq<seq<byte>>, fileSize: nat, blockSize: nat, writes: seq<Write>, b: nat)
    requires blockSize > 0 && |blocks| == BlockCount(fileSize, blockSize)
    requires forall w :: w in writes ==> w.blk < |blocks| && |w.block| == blockSize
    requires b < |blocks| && forall w :: w in writes ==> w.blk != b
    ensures WriteAll(blocks, fileSize, blockSize, writes)[b] == blocks[b]
    decreases |writes|
  {
    if writes != [] {
      UnwrittenStays(blocks, fileSize, blockSize, writes[..|writes| - 1], b);
    }
  }
}
