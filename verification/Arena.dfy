/** The grow-only arena of fixed-size blocks that holds the nodes of a skip list. */
module Arena {
  import opened Base
  import opened Endian
  import opened Links

  const BLOCK_SIZE: nat := 0x40_0000
  const TWO_32: nat := 0x1_0000_0000
  /** keyOff, valOff, keyLen, valLen, ts, deleted, height and the links of a node. */
  const NODE_SIZE: nat := 32 + 4 * MAX_HEIGHT

  /** An address: a block of memory and a position in it. */
  datatype Pointer = Pointer(mem: array<Byte>, off: nat)

  /** What Alloc does: a region, nil for a negative size, or a panic when a block is too small. */
  datatype Allocation = Ok(ptr: Pointer) | Nil | Panic

  /** A region that was handed out. */
  datatype Region = Region(block: nat, off: nat, len: nat)

  /** size rounded up to 8 bytes, at least one byte. */
  function AlignedSize(size: nat): (r: nat)
    ensures size <= r && 0 < r && r % 8 == 0 && r <= size + 8
  {
    var s := if size == 0 then 1 else size;
    (s + 7) / 8 * 8
  }

  predicate Apart(a: Region, b: Region) {
    a.block != b.block || a.off + a.len <= b.off || b.off + b.len <= a.off
  }

  class Arena {
    var blocks: seq<array<Byte>>
    var blockIdx: nat
    var head: nat
    var total: nat
    /** Every region handed out so far. */
    ghost var regions: seq<Region>

    /** Regions are 8-byte aligned, inside one block, and pairwise disjoint. */
    ghost predicate Valid()
      reads this
    {
      && blocks != [] && blockIdx == |blocks| - 1 && head <= BLOCK_SIZE && head % 8 == 0
      && (forall i :: 0 <= i < |blocks| ==> blocks[i].Length == BLOCK_SIZE)
      && (forall i, j :: 0 <= i < j < |blocks| ==> blocks[i] != blocks[j])
      && (forall i :: 0 <= i < |regions| ==> InArena(regions[i]))
      && forall i, j :: 0 <= i < j < |regions| ==> Apart(regions[i], regions[j])
    }

    predicate InArena(r: Region)
      reads this
    {
      && r.block <= blockIdx && r.off % 8 == 0 && r.len % 8 == 0 && r.len > 0
      && r.off + r.len <= if r.block == blockIdx then head else BLOCK_SIZE
    }

    /** The bytes of a region. */
    function BytesOf(r: Region): Bytes
      requires r.block < |blocks| && r.off + r.len <= blocks[r.block].Length
      reads this, blocks
    {
      blocks[r.block][r.off..r.off + r.len]
    }

    constructor ()
      ensures Valid() && regions == [] && fresh(blocks) && |blocks| == 1 && total == 0
    {
      var block := new Byte[BLOCK_SIZE](_ => 0);
      blocks, blockIdx, head, total, regions := [block], 0, 0, 0, [];
    }

    /** Takes the region from the current block, or from a new block when it does not fit. */
    method Alloc(size: int) returns (r: Allocation)
      requires Valid()
      modifies this
      ensures Valid() && (r.Nil? <==> size < 0) && (r.Panic? <==> size >= 0 && AlignedSize(size) > BLOCK_SIZE)
      ensures old(blocks) <= blocks && |blocks| <= old(|blocks|) + 1
      ensures (|blocks| > old(|blocks|) ==> fresh(blocks[|blocks| - 1]))
      ensures !r.Ok? ==> regions == old(regions)
      ensures r.Ok? ==> |regions| == old(|regions|) + 1 && regions[..old(|regions|)] == old(regions)
      ensures r.Ok? ==> var g := regions[old(|regions|)];
        g.len == AlignedSize(size) && g.block == |blocks| - 1 && r.ptr == Pointer(blocks[g.block], g.off)
          && total == old(total) + g.len
    {
      if size < 0 {
        return Nil;
      }
      var alignedSize := AlignedSize(size);
      var block := blocks[blockIdx];
      var currentHead := head;
      if currentHead + alignedSize <= block.Length {
        head := currentHead + alignedSize;
        total := total + alignedSize;
        regions := regions + [Region(blockIdx, currentHead, alignedSize)];
        return Ok(Pointer(block, currentHead));
      }
      r := Grow(alignedSize);
    }

    /** A new block, and the allocation at its start. */
    method Grow(size: nat) returns (r: Allocation)
      requires Valid() && size > 0 && size % 8 == 0 && head + size > BLOCK_SIZE
      modifies this
      ensures Valid() && (r.Panic? <==> size > BLOCK_SIZE) && !r.Nil?
      ensures |blocks| == old(|blocks|) + 1 && old(blocks) <= blocks && fresh(blocks[|blocks| - 1])
      ensures !r.Ok? ==> regions == old(regions)
      ensures r.Ok? ==> regions == old(regions) + [Region(|blocks| - 1, 0, size)]
      ensures r.Ok? ==> r.ptr == Pointer(blocks[|blocks| - 1], 0) && total == old(total) + size
    {
      var newBlock := new Byte[BLOCK_SIZE](_ => 0);
      blocks := blocks + [newBlock];
      blockIdx := |blocks| - 1;
      head := 0;
      if size <= newBlock.Length {
        head := size;
        total := total + size;
        regions := regions + [Region(blockIdx, 0, size)];
        return Ok(Pointer(newBlock, 0));
      }
      return Panic;
    }

    /** The index of a pointer, which leads back to it exactly from the first 1024 blocks. */
    method Index(p: Pointer) returns (idx: nat)
      requires Valid() && p.off < BLOCK_SIZE
      ensures idx < TWO_32 && (p.mem !in blocks ==> idx == 0)
      ensures forall b :: 0 <= b < |blocks| && blocks[b] == p.mem ==>
        idx == Index32(b, p.off) && (NodeAt(idx) == Some(p) <==> b < 1024)
    {
      hide Index32;
      for bi := 0 to |blocks|
        invariant forall b :: 0 <= b < bi ==> blocks[b] != p.mem
      {
        if blocks[bi] == p.mem {
          LeadsBack(bi, p);
          return Index32(bi, p.off);
        }
      }
      return 0;
    }

    lemma LeadsBack(b: nat, p: Pointer)
      requires Valid() && b < |blocks| && blocks[b] == p.mem && p.off < BLOCK_SIZE
      ensures NodeAt(Index32(b, p.off)) == Some(p) <==> b < 1024
    {
      hide Index32;
      IndexRoundTrip(b, p.off);
    }

    /** The pointer at an index; nil when its block does not exist. */
    function NodeAt(idx: nat): Option<Pointer>
      requires Valid()
      reads this
    {
      if idx / BLOCK_SIZE >= |blocks| then None else Some(Pointer(blocks[idx / BLOCK_SIZE], idx % BLOCK_SIZE))
    }

    /** A node is laid out as header, key and value in one region. */
    method NewNode(key: Bytes, value: Option<Bytes>, height: nat) returns (r: Allocation)
      requires Valid() && height <= MAX_HEIGHT
      modifies this, blocks
      ensures Valid() && (r.Ok? <==> AlignedSize(NodeSize(key, value)) <= BLOCK_SIZE) && !r.Nil?
      ensures old(blocks) <= blocks && (!r.Ok? ==> regions == old(regions))
      ensures r.Ok? ==> |regions| == old(|regions|) + 1 && regions[..old(|regions|)] == old(regions)
      ensures r.Ok? ==> var g := regions[old(|regions|)];
        g.len >= NODE_SIZE && r.ptr == Pointer(blocks[g.block], g.off) && KeyOf(BytesOf(g)) == key
          && ValueOf(BytesOf(g)) == value
        && BytesOf(g)[16..NODE_SIZE] == State(height)
      ensures forall i :: 0 <= i < old(|regions|) ==> BytesOf(regions[i]) == old(BytesOf(regions[i]))
    {
      hide KeyOf, ValueOf, NodeImage, AlignedSize, NodeSize;
      NodeSizeIsPositive(key, value);
      r := Alloc(NodeSize(key, value));
      if r.Ok? {
        ghost var g := regions[old(|regions|)];
        var image := NodeImage(key, value, height);
        ImageFits(key, value, height);
        label Write:
        CopyInto(r.ptr.mem, r.ptr.off, image);
        assert BytesOf(g)[..|image|] == image;
        ImageReads(key, value, height, BytesOf(g));
        forall i | 0 <= i < old(|regions|) ensures BytesOf(regions[i]) == old@Write(BytesOf(regions[i])) {
          assert Apart(regions[i], g);
          KeptApart(old@Write(r.ptr.mem[..]), r.ptr.mem[..], g, regions[i]);
        }
      }
    }
  }

  /** A copy that stays within g leaves the bytes of a region apart from it alone. */
  lemma KeptApart(before: Bytes, after: Bytes, g: Region, r: Region)
    requires Apart(r, g) && |before| == |after| && g.off + g.len <= |before| && r.off + r.len <= |before|
    requires before[..g.off] == after[..g.off]
    requires forall i :: g.off + g.len <= i < |before| ==> before[i] == after[i]
    ensures r.block == g.block ==> before[r.off..r.off + r.len] == after[r.off..r.off + r.len]
  {
    if r.block == g.block && r.off + r.len <= g.off {
      SliceOfTake(before, g.off, r.off, r.off + r.len);
      SliceOfTake(after, g.off, r.off, r.off + r.len);
    }
  }

  // ------------------------------------------------------------------ the layout of a node

  /** Header, key, and the value or one byte for an empty value that is not nil. */
  function NodeSize(key: Bytes, value: Option<Bytes>): nat {
    NODE_SIZE + |key| + if value.None? then 0 else if value.value == [] then 1 else |value.value|
  }

  /** keyOff, valOff, keyLen and valLen. */
  function Lengths(key: Bytes, value: Option<Bytes>): (b: Bytes)
    ensures |b| == 16
  {
    LE(if key == [] then 0 else NODE_SIZE, 4) + LE(if value.None? then 0 else NODE_SIZE + |key|, 4)
    + LE(|key|, 4) + LE(if value.None? then 0 else |value.value|, 4)
  }

  /** ts, deleted, height and links. */
  function State(height: nat): (b: Bytes)
    ensures |b| == NODE_SIZE - 16
  {
    LE(0, 8) + LE(0, 4) + LE(height, 4) + LE(0, 4 * MAX_HEIGHT)
  }

  function NodeImage(key: Bytes, value: Option<Bytes>, height: nat): Bytes {
    Lengths(key, value) + State(height) + key + if value.None? then [] else value.value
  }

  /** Key and Value of a node, from the bytes of its region. */
  function KeyOf(b: Bytes): Bytes
    requires |b| >= NODE_SIZE
  {
    var off, len := LEAt(b, 0, 4), LEAt(b, 8, 4);
    if len == 0 || off + len > |b| then [] else b[off..off + len]
  }

  function ValueOf(b: Bytes): Option<Bytes>
    requires |b| >= NODE_SIZE
  {
    var off, len := LEAt(b, 4, 4), LEAt(b, 12, 4);
    if off == 0 then None else if len == 0 || off + len > |b| then Some([]) else Some(b[off..off + len])
  }

  lemma NodeSizeIsPositive(key: Bytes, value: Option<Bytes>)
    ensures NodeSize(key, value) >= NODE_SIZE
  {
  }

  lemma ImageFits(key: Bytes, value: Option<Bytes>, height: nat)
    ensures NODE_SIZE <= |NodeImage(key, value, height)| <= NodeSize(key, value) <= AlignedSize(NodeSize(key, value))
  {
  }

  /** A node written as its image gives back its key and its value, nil and empty told apart. */
  lemma ImageReads(key: Bytes, value: Option<Bytes>, height: nat, b: Bytes)
    requires |b| == AlignedSize(NodeSize(key, value)) <= BLOCK_SIZE
    requires |NodeImage(key, value, height)| <= |b|
    requires b[..|NodeImage(key, value, height)|] == NodeImage(key, value, height)
    ensures |b| >= NODE_SIZE && KeyOf(b) == key && ValueOf(b) == value && b[16..NODE_SIZE] == State(height)
  {
    hide LE, LEAt, Pow256, NodeImage;
    var val := if value.None? then [] else value.value;
    var image, n := NodeImage(key, value, height), NODE_SIZE + |key| + |val|;
    ImageParts(key, value, height);
    Pow256Values();
    SliceOfTake(b, n, 0, 4);
    SliceOfTake(b, n, 4, 8);
    SliceOfTake(b, n, 8, 12);
    SliceOfTake(b, n, 12, 16);
    SliceOfTake(b, n, 16, NODE_SIZE);
    SliceOfTake(b, n, NODE_SIZE, NODE_SIZE + |key|);
    SliceOfTake(b, n, NODE_SIZE + |key|, n);
    LEReads(b, 0, 4, if key == [] then 0 else NODE_SIZE);
    LEReads(b, 4, 4, if value.None? then 0 else NODE_SIZE + |key|);
    LEReads(b, 8, 4, |key|);
    LEReads(b, 12, 4, |val|);
  }

  lemma ImageParts(key: Bytes, value: Option<Bytes>, height: nat)
    ensures var image, val := NodeImage(key, value, height), if value.None? then [] else value.value;
      && |image| == NODE_SIZE + |key| + |val|
      && image[0..4] == LE(if key == [] then 0 else NODE_SIZE, 4)
      && image[4..8] == LE(if value.None? then 0 else NODE_SIZE + |key|, 4)
      && image[8..12] == LE(|key|, 4) && image[12..16] == LE(|val|, 4)
      && image[16..NODE_SIZE] == State(height)
      && image[NODE_SIZE..NODE_SIZE + |key|] == key && image[NODE_SIZE + |key|..] == val
  {
    var val := if value.None? then [] else value.value;
    var image := NodeImage(key, value, height);
    FourFields(LE(if key == [] then 0 else NODE_SIZE, 4), LE(if value.None? then 0 else NODE_SIZE + |key|, 4),
               LE(|key|, 4), LE(|val|, 4));
    hide LE, Lengths, State;
    FourParts(Lengths(key, value), State(height), key, val);
    SliceOfTake(image, 16, 0, 4);
    SliceOfTake(image, 16, 4, 8);
    SliceOfTake(image, 16, 8, 12);
    SliceOfTake(image, 16, 12, 16);
  }

  lemma FourParts(a: Bytes, b: Bytes, c: Bytes, d: Bytes)
    ensures var r := a + b + c + d;
      && r[..|a|] == a && r[|a|..|a| + |b|] == b && r[|a| + |b|..|a| + |b| + |c|] == c && r[|a| + |b| + |c|..] == d
  {
  }

  lemma FourFields(a: Bytes, b: Bytes, c: Bytes, d: Bytes)
    requires |a| == |b| == |c| == |d| == 4
    ensures var r := a + b + c + d; r[0..4] == a && r[4..8] == b && r[8..12] == c && r[12..16] == d
  {
  }

  // ------------------------------------------------------------------ indices

  /** The block times the block size plus the offset, in 32-bit arithmetic. */
  function Index32(block: nat, off: nat): (idx: nat)
    ensures idx < TWO_32
  {
    ((block % TWO_32) * BLOCK_SIZE % TWO_32 + off) % TWO_32
  }

  /** An index leads back to its block and offset exactly in the first 1024 blocks, where it
      still fits 32 bits; after them the indices start over. */
  lemma IndexRoundTrip(block: nat, off: nat)
    requires off < BLOCK_SIZE
    ensures var idx := Index32(block, off);
      idx / BLOCK_SIZE == block % 1024 && idx % BLOCK_SIZE == off
  {
    var low := block % TWO_32;
    var q, r := low / 1024, low % 1024;
    assert low * BLOCK_SIZE == q * TWO_32 + r * BLOCK_SIZE;
    DivUnique(low * BLOCK_SIZE, TWO_32, q, r * BLOCK_SIZE);
    assert r == block % 1024;
    DivUnique(r * BLOCK_SIZE + off, BLOCK_SIZE, r, off);
  }
}
