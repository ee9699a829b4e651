/** A sparse file of fixed-size blocks, and the flat byte array it stands for. */
module BlockFile {
  import opened Vault
  import opened Arithmetic

  /** Number.MAX_SAFE_INTEGER. */
  const MAX_SAFE_INTEGER := 9_007_199_254_740_991

  /// ---- the flat file ------------------------------------------------------------------------------------

  /** A flat file cut or zero-extended to `n` bytes. */
  function Resized(f: seq<Byte>, n: nat): (g: seq<Byte>)
    ensures |g| == n
  {
    seq(n, k requires 0 <= k < n => if k < |f| then f[k] else 0)
  }

  /** Writing past the end zero-fills the gap. */
  function Written(f: seq<Byte>, source: seq<Byte>, offset: nat): (g: seq<Byte>)
    ensures |g| == Max(|f|, offset + |source|)
  {
    var n := Max(|f|, offset + |source|);
    seq(n, k requires 0 <= k < n =>
      if offset <= k < offset + |source| then source[k - offset] else if k < |f| then f[k] else 0)
  }

  /** The bytes a read of `length` bytes at `offset` yields; a read ends at the end of the file. */
  function ReadOf(f: seq<Byte>, offset: nat, length: nat): seq<Byte> {
    if offset >= |f| then [] else f[offset..Min(|f|, offset + length)]
  }

  lemma WriteThenRead(f: seq<Byte>, source: seq<Byte>, offset: nat)
    requires source != []
    ensures ReadOf(Written(f, source, offset), offset, |source|) == source
  {
    var g := Written(f, source, offset);
    assert ReadOf(g, offset, |source|) == g[offset..offset + |source|];
    forall k | 0 <= k < |source| ensures g[offset..offset + |source|][k] == source[k] {
      assert g[offset + k] == source[k];
    }
  }

  /** Cutting a file and growing it again leaves zeros, not the old bytes. */
  lemma CutThenGrow(f: seq<Byte>, cut: nat, size: nat, k: nat)
    requires cut <= k < size
    ensures Resized(Resized(f, cut), size)[k] == 0
  {
  }

  /** Resizing to the present size changes nothing, and cutting twice is cutting once. */
  lemma ResizeTwice(f: seq<Byte>, m: nat, n: nat)
    ensures Resized(f, |f|) == f
    ensures n <= m ==> Resized(Resized(f, m), n) == Resized(f, n)
  {
  }

  /** Reading a whole file yields it, and reading a part of it that part. */
  lemma ReadPart(f: seq<Byte>, offset: nat, length: nat)
    ensures offset + length <= |f| && length > 0 ==> ReadOf(f, offset, length) == f[offset..offset + length]
    ensures offset <= |f| < offset + length ==> ReadOf(f, offset, length) == f[offset..]
    ensures offset >= |f| ==> ReadOf(f, offset, length) == []
  {
  }

  /// ---- positions ------------------------------------------------------------------------------------------

  /** Within a block, positions move with the offset. */
  lemma SameBlock(k: nat, j: nat, b: nat)
    requires b >= 1 && k % b + j < b
    ensures (k + j) / b == k / b && (k + j) % b == k % b + j
  {
    DivMod(k, b);
    DivUnique(k / b, k % b + j, b);
  }

  /** Two positions are in the same block exactly when their offsets differ as they do. */
  lemma BlockDistance(k: nat, m: nat, b: nat)
    requires b >= 1
    ensures k / b == m / b ==> k - m == k % b - m % b
    ensures k % b <= k
    ensures k <= m ==> k / b <= m / b
  {
    DivMod(k, b);
    DivMod(m, b);
    Multiples(b, k / b - m / b);
    assert b * (k / b - m / b) == b * (k / b) - b * (m / b);
  }

  /** How many blocks a file of `size` bytes has, the last perhaps short. */
  function BlocksFor(size: nat, b: nat): nat
    requires b >= 1
  {
    size / b + if size % b == 0 then 0 else 1
  }

  /** That is the size rounded up to whole blocks. */
  lemma RoundedUp(size: nat, b: nat)
    requires b >= 1
    ensures size <= b * BlocksFor(size, b) < size + b
  {
    DivMod(size, b);
    assert b * (size / b + 1) == b * (size / b) + b;
  }

  lemma BlocksForGrows(size: nat, bigger: nat, b: nat)
    requires b >= 1 && size <= bigger
    ensures BlocksFor(size, b) <= BlocksFor(bigger, b)
  {
    BlockDistance(size, bigger, b);
  }

  lemma BlockInFile(k: nat, size: nat, b: nat)
    requires b >= 1 && k < size
    ensures k / b < BlocksFor(size, b)
  {
    BlockDistance(k, size, b);
  }

  /** The block that starts at `offset`: only the last one of the file is short. */
  lemma BlockAt(index: nat, offset: nat, size: nat, b: nat)
    requires b >= 1 && offset == b * index < size
    ensures offset / b == index < BlocksFor(size, b) && offset % b == 0
    ensures index + 1 < BlocksFor(size, b) ==> offset + b <= size
    ensures offset + b == b * (index + 1)
  {
    DivUnique(index, 0, b);
    BlockInFile(offset, size, b);
    RoundedUp(size, b);
    Multiples(b, BlocksFor(size, b) - (index + 2));
    assert b * (BlocksFor(size, b) - (index + 2)) == b * BlocksFor(size, b) - offset - 2 * b;
  }

  /** The caller's range check: safe integers only. */
  predicate RangeOk(offset: int, length: nat) {
    0 <= offset && length <= MAX_SAFE_INTEGER && offset + length <= MAX_SAFE_INTEGER
  }

  /** A write, byte by byte. */
  lemma WrittenBytes(before: seq<Byte>, now: seq<Byte>, source: seq<Byte>, offset: nat)
    requires |now| == Max(|before|, offset + |source|)
    requires forall k :: 0 <= k < |now| ==>
               now[k] == if offset <= k < offset + |source| then source[k - offset] else if k < |before| then before[k] else 0
    ensures now == Written(before, source, offset)
  {
  }

  /** A sparse file. Blocks are heap arrays, as in the source. */
  class BlockFile {
    const name: string
    const blockSize: nat
    var blocks: map<nat, array<Byte>>
    var size: nat
    var readCount: nat
    var writeCount: nat

    ghost function Repr(): set<array<Byte>>
      reads this`blocks
    {
      set i | i in blocks :: blocks[i]
    }

    /** Each block is an array of its own, at most blockSize long. */
    ghost predicate Owned()
      reads this`blocks
    {
      && blockSize >= 1
      && (forall i, j :: i in blocks && j in blocks && i != j ==> blocks[i] != blocks[j])
      && (forall i :: i in blocks ==> blocks[i].Length <= blockSize)
    }

    /** The byte at any position; whatever is not materialized is zero. */
    ghost function ByteAt(k: nat): Byte
      requires blockSize >= 1
      reads this`blocks, Repr()
    {
      var i, s := k / blockSize, k % blockSize;
      if i in blocks && s < blocks[i].Length then blocks[i][s] else 0
    }

    /** Materialized bytes past the size are zero, and no block lies wholly past it. */
    ghost predicate Valid()
      reads this`blocks, this`size, Repr()
    {
      && Owned()
      && (forall i :: i in blocks ==> i < BlocksFor(size, blockSize))
      && (forall k: nat :: size <= k ==> ByteAt(k) == 0)
    }

    ghost function FirstBytes(n: nat): (f: seq<Byte>)
      requires blockSize >= 1
      reads this`blocks, Repr()
      ensures |f| == n && forall k :: 0 <= k < n ==> f[k] == ByteAt(k)
    {
      if n == 0 then [] else FirstBytes(n - 1) + [ByteAt(n - 1)]
    }

    /** The flat file. */
    ghost function Contents(): (f: seq<Byte>)
      requires blockSize >= 1
      reads this`blocks, this`size, Repr()
      ensures |f| == size && forall k :: 0 <= k < size ==> f[k] == ByteAt(k)
    {
      FirstBytes(size)
    }

    constructor (name: string, blockSize: nat)
      requires blockSize >= 1
      ensures Valid() && Contents() == [] && this.name == name && this.blockSize == blockSize
      ensures blocks == map[] && readCount == writeCount == 0
    {
      this.name, this.blockSize := name, blockSize;
      blocks, size, readCount, writeCount := map[], 0, 0, 0;
    }

    /** The writable block of an index, full length; allocating or lengthening one changes no byte. */
    method EnsureWritable(index: nat) returns (block: array<Byte>)
      requires Owned()
      modifies this`blocks
      ensures Owned() && index in blocks && blocks[index] == block && block.Length == blockSize
      ensures blocks.Keys == old(blocks).Keys + {index}
      ensures forall i :: i in blocks && i != index ==> blocks[i] == old(blocks)[i]
      ensures block in old(Repr()) || fresh(block)
      ensures forall k: nat :: ByteAt(k) == old(ByteAt(k))
    {
      if index in blocks && blocks[index].Length == blockSize {
        return blocks[index];
      }
      block := new Byte[blockSize](_ => 0);
      if index in blocks {
        var existing := blocks[index];
        for s := 0 to existing.Length
          modifies block
          invariant forall t :: 0 <= t < blockSize ==> block[t] == if t < s then existing[t] else 0
        {
          block[s] := existing[s];
        }
      }
      blocks := blocks[index := block];
    }

    /** Stores the bytes into one writable block. */
    method StoreChunk(source: seq<Byte>, done: nat, want: nat, absolute: nat)
      requires Owned() && done + want <= |source| && absolute % blockSize + want <= blockSize
      modifies this`blocks, Repr()
      ensures Owned() && blocks.Keys == old(blocks).Keys + {absolute / blockSize}
      ensures fresh(Repr() - old(Repr()))
      ensures forall k: nat :: ByteAt(k) ==
                if absolute <= k < absolute + want then source[done + (k - absolute)] else old(ByteAt(k))
    {
      var index, start := absolute / blockSize, absolute % blockSize;
      var block := EnsureWritable(index);
      label Ready:
      CopyInto(block, start, source[done..done + want]);
      forall k: nat
        ensures ByteAt(k) == if absolute <= k < absolute + want then source[done + (k - absolute)] else old(ByteAt(k))
      {
        assert old@Ready(ByteAt(k)) == old(ByteAt(k));
        BlockDistance(k, absolute, blockSize);
        if absolute <= k < absolute + want {
          SameBlock(absolute, k - absolute, blockSize);
        } else if k / blockSize == index {
          assert ByteAt(k) == block[k % blockSize] == old@Ready(block[k % blockSize]);
        }
      }
    }

    /** The next chunk of a write: the rest of its block, or of the source. */
    method StoreNext(source: seq<Byte>, offset: nat, done: nat) returns (want: nat)
      requires Owned() && done < |source|
      modifies this`blocks, Repr()
      ensures 0 < want && done + want <= |source|
      ensures Owned() && fresh(Repr() - old(Repr()))
      ensures forall i :: i in blocks ==> i in old(blocks) || i < BlocksFor(offset + |source|, blockSize)
      ensures forall k: nat :: ByteAt(k) ==
                if offset + done <= k < offset + done + want then source[k - offset] else old(ByteAt(k))
    {
      var absolute := offset + done;
      BlockDistance(absolute, absolute, blockSize);
      BlockInFile(absolute, offset + |source|, blockSize);
      want := Min(|source| - done, blockSize - absolute % blockSize);
      StoreChunk(source, done, want, absolute);
    }

    /** The chunks of a write, block by block. */
    method StoreAll(source: seq<Byte>, offset: nat)
      requires Owned()
      modifies this`blocks, Repr()
      ensures Owned() && fresh(Repr() - old(Repr()))
      ensures forall i :: i in blocks ==> i in old(blocks) || i < BlocksFor(offset + |source|, blockSize)
      ensures forall k: nat :: ByteAt(k) ==
                if offset <= k < offset + |source| then source[k - offset] else old(ByteAt(k))
    {
      var done := 0;
      while done < |source|
        invariant done <= |source|
        invariant Owned() && fresh(Repr() - old(Repr()))
        invariant forall i :: i in blocks ==> i in old(blocks) || i < BlocksFor(offset + |source|, blockSize)
        invariant forall k: nat :: ByteAt(k) ==
                    if offset <= k < offset + done then source[k - offset] else old(ByteAt(k))
      {
        var want := StoreNext(source, offset, done);
        done := done + want;
      }
    }

    /** None is the thrown range error. */
    method Write(source: seq<Byte>, offset: int) returns (done: Option<nat>)
      requires Valid()
      modifies this`blocks, this`size, this`writeCount, Repr()
      ensures Valid() && fresh(Repr() - old(Repr()))
      ensures RangeOk(offset, |source|) ==>
                && done == Some(|source|)
                && Contents() == Written(old(Contents()), source, offset)
                && writeCount == old(writeCount) + 1
      ensures !RangeOk(offset, |source|) ==> done.None? && Contents() == old(Contents()) && writeCount == old(writeCount)
    {
      if !RangeOk(offset, |source|) {
        return None;
      }
      writeCount := writeCount + 1;
      StoreGrowing(source, offset);
      done := Some(|source|);
    }

    /** The bytes of a range that is within bounds; the file grows to hold them. */
    method StoreGrowing(source: seq<Byte>, offset: nat)
      requires Valid()
      modifies this`blocks, this`size, Repr()
      ensures Valid() && fresh(Repr() - old(Repr()))
      ensures Contents() == Written(old(Contents()), source, offset)
    {
      StoreAll(source, offset);
      var grown := Max(size, offset + |source|);
      BlocksForGrows(size, grown, blockSize);
      BlocksForGrows(offset + |source|, grown, blockSize);
      size := grown;
      forall k: nat | grown <= k ensures ByteAt(k) == 0 {
        assert old(ByteAt(k)) == 0;
      }
      WrittenBytes(old(Contents()), Contents(), source, offset);
    }

    /** Copies out of one block; what it lacks is zero-filled. */
    method LoadChunk(destination: array<Byte>, done: nat, want: nat, absolute: nat)
      requires Owned() && destination !in Repr()
      requires done + want <= destination.Length && absolute % blockSize + want <= blockSize
      modifies destination
      ensures forall t :: 0 <= t < destination.Length ==>
                destination[t] == if done <= t < done + want then ByteAt(absolute + (t - done)) else old(destination[t])
    {
      var index, start := absolute / blockSize, absolute % blockSize;
      var available := if index in blocks then Max(0, Min(want, blocks[index].Length - start)) else 0;
      if available > 0 {
        CopyInto(destination, done, blocks[index][start..start + available]);
      }
      FillZero(destination, done + available, done + want);
      forall t | done <= t < done + want ensures destination[t] == ByteAt(absolute + (t - done)) {
        SameBlock(absolute, t - done, blockSize);
      }
    }

    method Read(destination: array<Byte>, offset: int) returns (done: Option<nat>)
      requires Valid() && destination !in Repr()
      modifies this`readCount, destination
      ensures Valid() && Contents() == old(Contents())
      ensures RangeOk(offset, destination.Length) ==>
                && readCount == old(readCount) + 1
                && var bytes := ReadOf(Contents(), offset, destination.Length);
                   done == Some(|bytes|) && destination[..] == bytes + old(destination[..])[|bytes|..]
      ensures !RangeOk(offset, destination.Length) ==>
                done.None? && readCount == old(readCount) && destination[..] == old(destination[..])
    {
      if !RangeOk(offset, destination.Length) {
        return None;
      }
      readCount := readCount + 1;
      var limit := Max(0, Min(destination.Length, size - offset));
      var n := 0;
      while n < limit
        modifies destination
        invariant 0 <= n <= limit
        invariant forall t :: 0 <= t < destination.Length ==>
                    destination[t] == if t < n then ByteAt(offset + t) else old(destination[t])
      {
        var absolute := offset + n;
        BlockDistance(absolute, absolute, blockSize);
        var want := Min(limit - n, blockSize - absolute % blockSize);
        LoadChunk(destination, n, want, absolute);
        n := n + want;
      }
      done := Some(n);
    }

    /** A fresh flat copy. */
    method ToBytes() returns (out: array<Byte>)
      requires Valid()
      ensures fresh(out) && out[..] == Contents()
    {
      out := new Byte[size](_ => 0);
      var offset := 0;
      while offset < size
        modifies out
        invariant 0 <= offset <= size
        invariant forall t :: 0 <= t < size ==> out[t] == if t < offset then ByteAt(t) else 0
      {
        BlockDistance(offset, offset, blockSize);
        var want := Min(size - offset, blockSize - offset % blockSize);
        LoadChunk(out, offset, want, offset);
        offset := offset + want;
      }
    }

    /** Drops the blocks past the boundary, which is inclusive when it is a block's start. */
    method DropBlocks(boundaryIndex: nat, boundaryOffset: nat)
      requires Owned()
      modifies this`blocks
      ensures Owned() && blocks.Keys <= old(blocks).Keys
      ensures forall i :: i in blocks ==> blocks[i] == old(blocks)[i]
      ensures forall i :: i in old(blocks) ==>
                (i !in blocks <==> i > boundaryIndex || (boundaryOffset == 0 && i == boundaryIndex))
    {
      var keys := blocks.Keys;
      while keys != {}
        invariant keys <= old(blocks).Keys && blocks.Keys <= old(blocks).Keys
        invariant forall i :: i in blocks ==> blocks[i] == old(blocks)[i]
        invariant forall i :: i in old(blocks) ==>
                    (i !in blocks <==>
                       i !in keys && (i > boundaryIndex || (boundaryOffset == 0 && i == boundaryIndex)))
        decreases keys
      {
        var index :| index in keys;
        keys := keys - {index};
        if index > boundaryIndex || (boundaryOffset == 0 && index == boundaryIndex) {
          blocks := blocks - {index};
        }
      }
    }

    /** The bytes from the boundary on become zero. */
    method CutAt(n: nat)
      requires Owned()
      modifies this`blocks, Repr()
      ensures Owned() && Repr() <= old(Repr())
      ensures blocks.Keys <= old(blocks).Keys && forall i :: i in blocks ==> i < BlocksFor(n, blockSize)
      ensures forall k: nat :: ByteAt(k) == if k < n then old(ByteAt(k)) else 0
    {
      var boundaryIndex, boundaryOffset := n / blockSize, n % blockSize;
      DropBlocks(boundaryIndex, boundaryOffset);
      if boundaryOffset != 0 && boundaryIndex in blocks && blocks[boundaryIndex].Length > boundaryOffset {
        FillZero(blocks[boundaryIndex], boundaryOffset, blocks[boundaryIndex].Length);
      }
      forall k: nat ensures ByteAt(k) == if k < n then old(ByteAt(k)) else 0 {
        BlockDistance(k, n, blockSize);
        BlockDistance(n, k, blockSize);
      }
    }

    /** False is the thrown size error. */
    method Truncate(n: int) returns (ok: bool)
      requires Valid()
      modifies this`blocks, this`size, Repr()
      ensures Valid() && Repr() <= old(Repr())
      ensures ok <==> 0 <= n <= MAX_SAFE_INTEGER
      ensures ok ==> Contents() == Resized(old(Contents()), n)
      ensures !ok ==> Contents() == old(Contents())
    {
      if !(0 <= n <= MAX_SAFE_INTEGER) {
        return false;
      }
      if n < size {
        CutAt(n);
      } else {
        BlocksForGrows(size, n, blockSize);
      }
      size := n;
      ok := true;
    }

    /** Overwrites every block with zeros and lets them go. */
    method Release()
      requires Valid()
      modifies this`blocks, this`size, Repr()
      ensures Valid() && Contents() == [] && blocks == map[]
      ensures forall block, t :: block in old(Repr()) && 0 <= t < block.Length ==> block[t] == 0
    {
      var keys := blocks.Keys;
      while keys != {}
        modifies Repr()
        invariant keys <= blocks.Keys
        invariant forall i, t :: i in blocks && i !in keys && 0 <= t < blocks[i].Length ==> blocks[i][t] == 0
        decreases keys
      {
        var index :| index in keys;
        keys := keys - {index};
        FillZero(blocks[index], 0, blocks[index].Length);
      }
      blocks := map[];
      size := 0;
    }

    /** The materialized bytes of the blocks in `keys` below `n`. */
    ghost function LengthsOf(keys: set<nat>, n: nat): (total: nat)
      requires Owned()
      reads this`blocks
      ensures total <= blockSize * n
    {
      if n == 0 then 0
      else
        assert blockSize * n == blockSize * (n - 1) + blockSize;
        LengthsOf(keys, n - 1) + if n - 1 in keys && n - 1 in blocks then blocks[n - 1].Length else 0
    }

    lemma {:induction false} LengthsOfMore(keys: set<nat>, index: nat, n: nat)
      requires Owned() && index in blocks && index !in keys
      ensures LengthsOf(keys + {index}, n) == LengthsOf(keys, n) + if index < n then blocks[index].Length else 0
    {
      if n > 0 {
        LengthsOfMore(keys, index, n - 1);
      }
    }

    lemma {:induction false} LengthsOfNone(n: nat)
      requires Owned()
      ensures LengthsOf({}, n) == 0
    {
      if n > 0 {
        LengthsOfNone(n - 1);
      }
    }

    /** Never more than the size rounded up to a block. */
    method ResidentBytes() returns (total: nat)
      requires Valid()
      ensures total == LengthsOf(blocks.Keys, BlocksFor(size, blockSize))
      ensures total <= blockSize * BlocksFor(size, blockSize) < size + blockSize
    {
      total := 0;
      ghost var n := BlocksFor(size, blockSize);
      var keys := blocks.Keys;
      LengthsOfNone(n);
      assert blocks.Keys - keys == {};
      while keys != {}
        invariant keys <= blocks.Keys
        invariant total == LengthsOf(blocks.Keys - keys, n)
        decreases keys
      {
        var index :| index in keys;
        LengthsOfMore(blocks.Keys - keys, index, n);
        assert blocks.Keys - (keys - {index}) == blocks.Keys - keys + {index};
        keys := keys - {index};
        total := total + blocks[index].Length;
      }
      assert blocks.Keys - keys == blocks.Keys;
      RoundedUp(size, blockSize);
    }

    /** A file holding a copy of `bytes`; only its last block may be short. */
    static method FromBytes(name: string, bytes: seq<Byte>, blockSize: nat) returns (file: BlockFile)
      requires blockSize >= 1
      ensures fresh(file) && fresh(file.Repr()) && file.name == name && file.blockSize == blockSize
      ensures file.Valid() && file.Contents() == bytes
      ensures forall i: nat :: i in file.blocks && i + 1 < BlocksFor(|bytes|, blockSize) ==> file.blocks[i].Length == blockSize
    {
      file := new BlockFile(name, blockSize);
      file.size := |bytes|;
      file.Fill(bytes);
    }

    /** The blocks are below `n`, and all but the last of a file of `total` blocks are full. */
    ghost predicate FullBelow(n: nat, total: nat)
      reads this`blocks
    {
      forall i: nat :: i in blocks ==> i < n && i < total && (i + 1 < total ==> blocks[i].Length == blockSize)
    }

    method Fill(bytes: seq<Byte>)
      requires blockSize >= 1 && blocks == map[]
      modifies this`blocks
      ensures Owned() && fresh(Repr())
      ensures exists n :: FullBelow(n, BlocksFor(|bytes|, blockSize))
      ensures forall k: nat :: ByteAt(k) == if k < |bytes| then bytes[k] else 0
    {
      var offset, index := 0, 0;
      while offset < |bytes|
        invariant offset == blockSize * index
        invariant Owned() && fresh(Repr())
        invariant FullBelow(index, BlocksFor(|bytes|, blockSize))
        invariant forall k: nat :: ByteAt(k) == if k < offset && k < |bytes| then bytes[k] else 0
        decreases |bytes| - offset
      {
        AddBlock(index, offset, bytes);
        offset, index := offset + blockSize, index + 1;
      }
    }

    /** A copied block at a new index, short if the bytes end in it. */
    method AddBlock(index: nat, offset: nat, bytes: seq<Byte>)
      requires Owned() && FullBelow(index, BlocksFor(|bytes|, blockSize)) && offset == blockSize * index < |bytes|
      modifies this`blocks
      ensures Owned() && FullBelow(index + 1, BlocksFor(|bytes|, blockSize))
      ensures offset + blockSize == blockSize * (index + 1)
      ensures fresh(Repr() - old(Repr()))
      ensures forall k: nat :: ByteAt(k) ==
                if offset <= k < offset + blockSize then (if k < |bytes| then bytes[k] else 0) else old(ByteAt(k))
    {
      BlockAt(index, offset, |bytes|, blockSize);
      var end := Min(offset + blockSize, |bytes|);
      var block := new Byte[end - offset](j requires 0 <= j < end - offset => bytes[offset + j]);
      blocks := blocks[index := block];
      forall k: nat
        ensures ByteAt(k) ==
                if offset <= k < offset + blockSize then (if k < |bytes| then bytes[k] else 0) else old(ByteAt(k))
      {
        BlockDistance(k, offset, blockSize);
        if offset <= k < offset + blockSize {
          SameBlock(offset, k - offset, blockSize);
        }
      }
    }
  }

  /** Uint8Array.set at an offset. */
  method CopyInto(block: array<Byte>, start: nat, bytes: seq<Byte>)
    requires start + |bytes| <= block.Length
    modifies block
    ensures forall t :: 0 <= t < block.Length ==>
              block[t] == if start <= t < start + |bytes| then bytes[t - start] else old(block[t])
  {
    for j := 0 to |bytes|
      invariant forall t :: 0 <= t < block.Length ==>
                  block[t] == if start <= t < start + j then bytes[t - start] else old(block[t])
    {
      block[start + j] := bytes[j];
    }
  }

  /** Uint8Array.fill(0) of a range. */
  method FillZero(block: array<Byte>, from: nat, to: nat)
    requires from <= to <= block.Length
    modifies block
    ensures forall t :: 0 <= t < block.Length ==> block[t] == if from <= t < to then 0 else old(block[t])
  {
    for j := from to to
      invariant forall t :: 0 <= t < block.Length ==> block[t] == if from <= t < j then 0 else old(block[t])
    {
      block[j] := 0;
    }
  }
}
