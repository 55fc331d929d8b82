/** The layout computed by fs/kfs_mkfs.c for the `kfs` command in percentage mode, and the block map
    it writes. Block I/O and the contents of the tables are not modelled. */
module MkfsLayout {
  import opened Bytes
  import opened Bitmap

  const BLOCK_SIZE: nat := 8192
  const EXTENT_HEADER_SIZE: nat := 32
  const SLOT_SIZE: nat := 40
  const SINODE_SIZE: nat := 96
  const BITS_PER_BLOCK: nat := (BLOCK_SIZE - EXTENT_HEADER_SIZE) * 8
  const SLOTS_PER_BLOCK: nat := (BLOCK_SIZE - EXTENT_HEADER_SIZE) / SLOT_SIZE
  const SINODES_PER_BLOCK: nat := (BLOCK_SIZE - EXTENT_HEADER_SIZE) / SINODE_SIZE
  const TWO_TO_THE_16: int := 0x1_0000

  /** The fields of blocks_calc_t that percentage mode fills in. */
  datatype BlocksCalc = BlocksCalc(
    fileBlocks: nat,
    slotsTableBlocks: nat, slotsBitmapBlocks: nat, slotsNum: nat,
    sinodesTableBlocks: nat, sinodesBitmapBlocks: nat, sinodesNum: nat,
    bitmapBlocks: nat, totalBlocksRequired: nat)

  datatype Extent = Extent(addr: nat, size: nat)

  ghost predicate Within(e: Extent, k: nat) {
    e.addr <= k < e.addr + e.size
  }

  ghost predicate Disjoint(exts: seq<Extent>) {
    forall i, j | 0 <= i < j < |exts| ::
      exts[i].addr + exts[i].size <= exts[j].addr || exts[j].addr + exts[j].size <= exts[i].addr
  }

  ghost predicate InsideAndNonEmpty(exts: seq<Extent>, blocks: nat) {
    forall e | e in exts :: 1 <= e.size && e.addr + e.size <= blocks
  }

  function CeilDiv(n: nat, d: nat): nat
    requires d > 0
  {
    n / d + (if n % d == 0 then 0 else 1)
  }

  // ----- placement -----

  function FsMapBlock(bc: BlocksCalc): int {
    bc.fileBlocks - bc.bitmapBlocks
  }

  function SlotMapBlock(bc: BlocksCalc): int {
    FsMapBlock(bc) - bc.slotsBitmapBlocks
  }

  function SinodeMapBlock(bc: BlocksCalc): int {
    SlotMapBlock(bc) - bc.sinodesBitmapBlocks
  }

  /** Superblock, super-inode table and map, slot table and map, block map, in the order in which
      their blocks are marked. */
  function Layout(bc: BlocksCalc): (l: seq<Extent>)
    requires SinodeMapBlock(bc) >= 0
    ensures |l| == 6
  {
    [Extent(0, 1),
     Extent(1, bc.sinodesTableBlocks),
     Extent(SinodeMapBlock(bc), bc.sinodesBitmapBlocks),
     Extent(bc.sinodesTableBlocks + 1, bc.slotsTableBlocks),
     Extent(SlotMapBlock(bc), bc.slotsBitmapBlocks),
     Extent(FsMapBlock(bc), bc.bitmapBlocks)]
  }

  /** What percentage mode promises: equal shares for slots and super-inodes out of `percentage` of
      the blocks, each share split into a table and a map with a bit for every block of the share,
      and a block map with a bit for every block. */
  ghost predicate Shared(bc: BlocksCalc, blocks: nat, percentage: nat) {
    SharedOut(bc, blocks, blocks * percentage / 200)
  }

  ghost predicate SharedOut(bc: BlocksCalc, blocks: nat, share: nat) {
    && bc.fileBlocks == blocks
    && bc.slotsTableBlocks + bc.slotsBitmapBlocks == share
    && bc.sinodesTableBlocks + bc.sinodesBitmapBlocks == share
    && (bc.slotsBitmapBlocks - 1) * BITS_PER_BLOCK < share <= bc.slotsBitmapBlocks * BITS_PER_BLOCK
    && (bc.sinodesBitmapBlocks - 1) * BITS_PER_BLOCK < share <= bc.sinodesBitmapBlocks * BITS_PER_BLOCK
    && (bc.bitmapBlocks - 1) * BITS_PER_BLOCK < blocks <= bc.bitmapBlocks * BITS_PER_BLOCK
    && bc.slotsNum == bc.slotsTableBlocks * SLOTS_PER_BLOCK
    && bc.sinodesNum == bc.sinodesTableBlocks * SINODES_PER_BLOCK
    && bc.totalBlocksRequired == 1 + 2 * share + bc.bitmapBlocks
  }

  /** The number of blocks in the first n extents. */
  function TotalSize(exts: seq<Extent>, n: nat): nat
    requires n <= |exts|
  {
    if n == 0 then 0 else TotalSize(exts, n - 1) + exts[n - 1].size
  }

  lemma CeilDivBounds(n: nat, d: nat)
    requires n > 0 && d > 0
    ensures 0 < CeilDiv(n, d) && (CeilDiv(n, d) - 1) * d < n <= CeilDiv(n, d) * d
  {
    assert n == d * (n / d) + n % d;
  }

  lemma SharedFromShare(blocks: nat, share: nat, bc: BlocksCalc)
    requires blocks >= 1280 && share >= 12
    requires var maps := CeilDiv(share, BITS_PER_BLOCK);
             var bitmaps := CeilDiv(blocks, BITS_PER_BLOCK);
             maps <= share &&
             bc == BlocksCalc(blocks, share - maps, maps, (share - maps) * SLOTS_PER_BLOCK,
                              share - maps, maps, (share - maps) * SINODES_PER_BLOCK,
                              bitmaps, 1 + share + share + bitmaps)
    ensures SharedOut(bc, blocks, share)
  {
    hide CeilDiv;
    CeilDivBounds(share, BITS_PER_BLOCK);
    CeilDivBounds(blocks, BITS_PER_BLOCK);
  }

  lemma CeilDivIs(n: nat, d: nat)
    requires d > 0
    ensures CeilDiv(n, d) == n / d + (if n % d == 0 then 0 else 1)
  {
  }

  lemma ShareBounds(blocks: nat, percentage: nat)
    requires blocks >= 1280 && 2 <= percentage <= 90
    ensures 12 <= blocks * percentage / 200 && 20 * (blocks * percentage / 200) <= 9 * blocks
  {
    assert 1280 * 2 <= blocks * percentage <= blocks * 90;
  }

  lemma SharesFit(bc: BlocksCalc, blocks: nat, share: nat)
    requires blocks >= 1280 && 12 <= share && 20 * share <= 9 * blocks
    requires SharedOut(bc, blocks, share)
    ensures bc.bitmapBlocks >= 1 && bc.slotsBitmapBlocks >= 1 && bc.sinodesBitmapBlocks >= 1
    ensures bc.slotsTableBlocks >= 1 && bc.sinodesTableBlocks >= 1
    ensures bc.totalBlocksRequired <= blocks
  {
  }

  /** For at least 1280 blocks and 2 to 90 percent, the six extents are non-empty, pairwise disjoint
      and inside the file, and they take up exactly the blocks computed as required. */
  lemma LayoutIsDisjoint(bc: BlocksCalc, blocks: nat, percentage: nat)
    requires blocks >= 1280 && 2 <= percentage <= 90
    requires Shared(bc, blocks, percentage)
    ensures SinodeMapBlock(bc) >= 0
    ensures Disjoint(Layout(bc)) && InsideAndNonEmpty(Layout(bc), blocks)
    ensures TotalSize(Layout(bc), 6) == bc.totalBlocksRequired
  {
    ShareBounds(blocks, percentage);
    SharesFit(bc, blocks, blocks * percentage / 200);
    LayoutArithmetic(bc, blocks);
  }

  lemma LayoutArithmetic(bc: BlocksCalc, blocks: nat)
    requires bc.bitmapBlocks >= 1 && bc.slotsBitmapBlocks >= 1 && bc.sinodesBitmapBlocks >= 1
    requires bc.slotsTableBlocks >= 1 && bc.sinodesTableBlocks >= 1
    requires bc.totalBlocksRequired <= blocks == bc.fileBlocks
    requires bc.totalBlocksRequired == 1 + bc.slotsTableBlocks + bc.slotsBitmapBlocks
                                       + bc.sinodesTableBlocks + bc.sinodesBitmapBlocks + bc.bitmapBlocks
    ensures SinodeMapBlock(bc) >= 0
    ensures Disjoint(Layout(bc)) && InsideAndNonEmpty(Layout(bc), blocks)
    ensures TotalSize(Layout(bc), 6) == bc.totalBlocksRequired
  {
    LayoutTotal(bc);
  }

  lemma LayoutTotal(bc: BlocksCalc)
    requires SinodeMapBlock(bc) >= 0
    ensures TotalSize(Layout(bc), 6) == 1 + bc.sinodesTableBlocks + bc.sinodesBitmapBlocks
                                        + bc.slotsTableBlocks + bc.slotsBitmapBlocks + bc.bitmapBlocks
  {
    var l := Layout(bc);
    assert TotalSize(l, 1) == 1;
    assert TotalSize(l, 2) == TotalSize(l, 1) + bc.sinodesTableBlocks;
    assert TotalSize(l, 3) == TotalSize(l, 2) + bc.sinodesBitmapBlocks;
    assert TotalSize(l, 4) == TotalSize(l, 3) + bc.slotsTableBlocks;
    assert TotalSize(l, 5) == TotalSize(l, 4) + bc.slotsBitmapBlocks;
  }

  lemma ItemsAreNat(blocks: nat)
    ensures blocks * SLOTS_PER_BLOCK >= 0 && blocks * SINODES_PER_BLOCK >= 0
  {
  }

  // ----- marking extents in the block map -----

  /** The end of the bits that marking e really sets in a map of N bits. */
  function MarkedEnd(N: nat, e: Extent): nat {
    SetExtentEnd(N, e.addr, e.size)
  }

  /** The last block of e is refused. */
  predicate LosesLastBlock(N: nat, e: Extent) {
    SetExtentCode(N, e.addr, e.size) == -2
  }

  /** The map after the first n extents were marked. */
  function Marked(v: seq<bool>, N: nat, exts: seq<Extent>, n: nat): (w: seq<bool>)
    requires n <= |exts| && InsideAndNonEmpty(exts, N) && N <= |v|
    ensures |w| == |v|
  {
    if n == 0 then v
    else
      var e := exts[n - 1];
      Fill(Marked(v, N, exts, n - 1), e.addr, MarkedEnd(N, e), true)
  }

  /** Marking e sets bit k. */
  ghost predicate InMark(N: nat, e: Extent, k: nat) {
    e.addr <= k < MarkedEnd(N, e)
  }

  /** One of the first n extents sets block k. */
  ghost predicate SomeHolds(N: nat, exts: seq<Extent>, n: nat, k: nat)
    requires n <= |exts|
  {
    exists i | 0 <= i < n :: InMark(N, exts[i], k)
  }

  /** How many of the first n extents lose their last block. */
  function Losses(N: nat, exts: seq<Extent>, n: nat): nat
    requires n <= |exts|
  {
    if n == 0 then 0 else Losses(N, exts, n - 1) + (if LosesLastBlock(N, exts[n - 1]) then 1 else 0)
  }

  lemma MarkedEndIs(N: nat, e: Extent)
    requires 1 <= e.size && e.addr + e.size <= N
    ensures MarkedEnd(N, e) == e.addr + e.size - (if LosesLastBlock(N, e) then 1 else 0)
    ensures LosesLastBlock(N, e) <==> e.size > 1 && (e.addr + e.size) % 8 == 1
    ensures SetExtentCode(N, e.addr, e.size) != -1
  {
  }

  /** Marking disjoint extents in a clear map: a block is set exactly when some extent holds it and
      did not lose it, and the population count is the total size less the blocks lost. */
  lemma {:induction false} MarkedExactly(v: seq<bool>, N: nat, exts: seq<Extent>, n: nat)
    requires n <= |exts| && InsideAndNonEmpty(exts, N) && Disjoint(exts) && N <= |v|
    requires AllEqual(v, 0, |v|, false)
    ensures var w := Marked(v, N, exts, n);
            && (forall k: nat | k < |v| :: w[k] <==> SomeHolds(N, exts, n, k))
            && PopCount(w) + Losses(N, exts, n) == TotalSize(exts, n)
    decreases n
  {
    hide MarkedEnd, LosesLastBlock, PopCount, SomeHolds;
    if n == 0 {
      PopCountUniform(v, false);
      NoneHold(N, exts);
    } else {
      MarkedExactly(v, N, exts, n - 1);
      var e := exts[n - 1];
      var before := Marked(v, N, exts, n - 1);
      MarkedEndIs(N, e);
      OneMoreHolds(N, exts, n);
      forall k | e.addr <= k < MarkedEnd(N, e)
        ensures !before[k]
      {
        assert InMark(N, e, k);
      }
      PopCountOfFill(before, e.addr, MarkedEnd(N, e));
    }
  }

  lemma MarkedNext(v: seq<bool>, N: nat, exts: seq<Extent>, n: nat)
    requires n < |exts| && InsideAndNonEmpty(exts, N) && N <= |v|
    ensures MarkedEnd(N, exts[n]) <= |v| && exts[n].addr <= MarkedEnd(N, exts[n])
    ensures Marked(v, N, exts, n + 1) == Fill(Marked(v, N, exts, n), exts[n].addr, MarkedEnd(N, exts[n]), true)
    ensures TotalSize(exts, n + 1) == TotalSize(exts, n) + exts[n].size
  {
    hide SetExtentCode, SetExtentEnd;
    assert exts[n] in exts;
    MarkedEndIs(N, exts[n]);
  }

  /** A number of blocks as the header's 32-bit field holds it. */
  function Count32(n: nat): nat {
    n % TWO_TO_THE_32
  }

  lemma CountsAdd(total: nat, size: nat)
    ensures Count32(Count32(total) + size) == Count32(total + size)
  {
  }

  /** The bits marked for earlier extents are none of those marked for extent n - 1. */
  lemma NoneHold(N: nat, exts: seq<Extent>)
    ensures forall k: nat :: !SomeHolds(N, exts, 0, k)
  {
  }

  /** The last of n disjoint extents sets blocks that none of those before it sets. */
  lemma OneMoreHolds(N: nat, exts: seq<Extent>, n: nat)
    requires 0 < n <= |exts| && InsideAndNonEmpty(exts, N) && Disjoint(exts)
    ensures forall k: nat ::
              SomeHolds(N, exts, n, k) <==> SomeHolds(N, exts, n - 1, k) || InMark(N, exts[n - 1], k)
    ensures var e := exts[n - 1]; forall k: nat | InMark(N, e, k) :: !SomeHolds(N, exts, n - 1, k)
  {
    hide MarkedEnd, LosesLastBlock, Disjoint, InsideAndNonEmpty;
    EarlierMarksMiss(N, exts, n);
  }

  lemma EarlierMarksMiss(N: nat, exts: seq<Extent>, n: nat)
    requires 0 < n <= |exts| && InsideAndNonEmpty(exts, N) && Disjoint(exts)
    ensures forall i, k: nat | 0 <= i < n - 1 && InMark(N, exts[n - 1], k) :: !InMark(N, exts[i], k)
  {
    hide MarkedEnd, LosesLastBlock;
    MarkedEndIs(N, exts[n - 1]);
    forall i | 0 <= i < n - 1
      ensures MarkedEnd(N, exts[i]) <= exts[i].addr + exts[i].size
    {
      MarkedEndIs(N, exts[i]);
    }
  }

  lemma BitmapHasRoom(bc: BlocksCalc, blocks: nat, percentage: nat)
    requires blocks >= 1280 && 2 <= percentage <= 90 && Shared(bc, blocks, percentage)
    ensures blocks == bc.fileBlocks <= bc.bitmapBlocks * 65536 - 256
    ensures 8 * (bc.bitmapBlocks * BLOCK_SIZE - EXTENT_HEADER_SIZE) == bc.bitmapBlocks * 65536 - 256
  {
  }

  lemma MarkedFirst(v: seq<bool>, bc: BlocksCalc)
    requires SinodeMapBlock(bc) >= 0 && InsideAndNonEmpty(Layout(bc), bc.fileBlocks) && 1 <= bc.fileBlocks <= |v|
    ensures Marked(v, bc.fileBlocks, Layout(bc), 1) == Fill(v, 0, 1, true)
    ensures TotalSize(Layout(bc), 1) == 1
  {
    assert Marked(v, bc.fileBlocks, Layout(bc), 0) == v;
    MarkedEndIs(bc.fileBlocks, Extent(0, 1));
  }

  lemma LayoutEntries(bc: BlocksCalc)
    requires SinodeMapBlock(bc) >= 0
    ensures var l := Layout(bc);
            && l[0] == Extent(0, 1)
            && l[1] == Extent(1, bc.sinodesTableBlocks)
            && l[2] == Extent(SinodeMapBlock(bc), bc.sinodesBitmapBlocks)
            && l[3] == Extent(bc.sinodesTableBlocks + 1, bc.slotsTableBlocks)
            && l[4] == Extent(SlotMapBlock(bc), bc.slotsBitmapBlocks)
            && l[5] == Extent(FsMapBlock(bc), bc.bitmapBlocks)
  {
  }

  lemma SlotExtents(bc: BlocksCalc)
    requires SinodeMapBlock(bc) >= 0
    ensures var slotMapBlock := bc.fileBlocks - bc.bitmapBlocks - bc.slotsBitmapBlocks;
            && slotMapBlock >= 0
            && Layout(bc)[3] == Extent(bc.sinodesTableBlocks + 1, bc.slotsTableBlocks)
            && Layout(bc)[4] == Extent(slotMapBlock, bc.slotsBitmapBlocks)
  {
    LayoutEntries(bc);
  }

  // ----- the code -----

  /** The on-disk extent record; its size field has 16 bits. */
  datatype DiskExtent = DiskExtent(blockAddr: nat, blockSize: nat)

  function Recorded(e: Extent): DiskExtent {
    DiskExtent(e.addr, e.size % TWO_TO_THE_16)
  }

  datatype Superblock = Superblock(sinodeTable: DiskExtent, sinodeMap: DiskExtent,
                                   slotTable: DiskExtent, slotMap: DiskExtent, blockMap: DiskExtent)

  /** The block map after its first n extents were marked, and the header's 32-bit count. */
  ghost predicate MarkedAt(bc: BlocksCalc, v: seq<bool>, count: nat, n: nat) {
    && SinodeMapBlock(bc) >= 0 && n <= 6
    && InsideAndNonEmpty(Layout(bc), bc.fileBlocks) && bc.fileBlocks < TWO_TO_THE_64 / 2
    && |v| == bc.bitmapBlocks * 65536 - 256 >= bc.fileBlocks
    && v == Marked(Cleared(|v|), bc.fileBlocks, Layout(bc), n)
    && count == Count32(TotalSize(Layout(bc), n))
  }

  /** The next extent lies in the map. */
  lemma NextFits(bc: BlocksCalc, v: seq<bool>, count: nat, n: nat)
    requires n < 6 && MarkedAt(bc, v, count, n)
    ensures SinodeMapBlock(bc) >= 0 && bc.fileBlocks <= |v| && bc.fileBlocks < TWO_TO_THE_64 / 2
    ensures var e := Layout(bc)[n];
            && e.addr + e.size <= bc.fileBlocks && SetExtentCode(bc.fileBlocks, e.addr, e.size) != -1
            && e.addr <= SetExtentEnd(bc.fileBlocks, e.addr, e.size) <= |v|
  {
    LayoutExtentFits(bc.fileBlocks, Layout(bc), n);
    hide Layout, Fill, Marked, TotalSize, Cleared, InsideAndNonEmpty, SetExtentCode, SetExtentEnd, Count32;
    MarkedEndIs(bc.fileBlocks, Layout(bc)[n]);
  }

  /** What setting the bits of extent n and adding its size to the count come to. */
  lemma NextIsMarked(bc: BlocksCalc, v: seq<bool>, count: nat, n: nat)
    requires n < 6 && MarkedAt(bc, v, count, n)
    requires var e := Layout(bc)[n]; e.addr <= SetExtentEnd(bc.fileBlocks, e.addr, e.size) <= |v|
    ensures var e := Layout(bc)[n];
            var end := SetExtentEnd(bc.fileBlocks, e.addr, e.size);
            MarkedAt(bc, Fill(v, e.addr, end, true), Count32(count + e.size), n + 1)
  {
    hide Layout, Fill, Marked, TotalSize, Cleared, InsideAndNonEmpty, SetExtentEnd, Count32;
    MarkedNext(Cleared(|v|), bc.fileBlocks, Layout(bc), n);
    CountsAdd(TotalSize(Layout(bc), n), Layout(bc)[n].size);
  }

  class Mkfs {
    var blocksCalc: BlocksCalc
    var superblock: Superblock
    var bitmap: array<bv8>
    var entriesInUse: nat

    ghost predicate LaidOut(blocks: nat, percentage: nat)
      reads this
    {
      blocks >= 1280 && 2 <= percentage <= 90 && blocks < TWO_TO_THE_64 / 2 && Shared(blocksCalc, blocks, percentage)
    }

    /** The block map after its first n extents were marked, and the header's 32-bit count. */
    ghost predicate MarkedUpTo(n: nat)
      reads this, bitmap
    {
      MarkedAt(blocksCalc, View(bitmap[..]), entriesInUse, n)
    }

    constructor ()
    {
      bitmap := new bv8[0];
    }

    /** Splits a share of the blocks into its table and its map. */
    static method SplitShare(itemsBlocks: nat) returns (table: nat, mapBlocks: nat)
      requires itemsBlocks >= 1
      ensures mapBlocks == CeilDiv(itemsBlocks, BITS_PER_BLOCK) && table + mapBlocks == itemsBlocks
    {
      var rem := if itemsBlocks % BITS_PER_BLOCK == 0 then 0 else 1;
      mapBlocks := itemsBlocks / BITS_PER_BLOCK + rem;
      table := itemsBlocks - mapBlocks;
    }

    /** compute_values in percentage mode of the kfs command, with the floating-point share taken as
        the exact quotient rounded down. */
    method ComputeValues(size: nat, percentage: nat)
      requires 2 <= percentage <= 90 && size / BLOCK_SIZE >= 1280 && size < TWO_TO_THE_64
      modifies this`blocksCalc
      ensures LaidOut(size / BLOCK_SIZE, percentage)
    {
      var fileBlocks := size / BLOCK_SIZE;
      var totalBlocksRequired := 1;
      ShareBounds(fileBlocks, percentage);
      var itemsBlocks := fileBlocks * percentage / 200;
      hide SharedOut, CeilDiv;

      totalBlocksRequired := totalBlocksRequired + itemsBlocks;
      var slotsBlocks, slotsMapBlocks := SplitShare(itemsBlocks);
      totalBlocksRequired := totalBlocksRequired + itemsBlocks;
      var sinodesBlocks, sinodesMapBlocks := SplitShare(itemsBlocks);
      var rem := if fileBlocks % BITS_PER_BLOCK == 0 then 0 else 1;
      var bitmapBlocks := fileBlocks / BITS_PER_BLOCK + rem;
      CeilDivIs(fileBlocks, BITS_PER_BLOCK);
      totalBlocksRequired := totalBlocksRequired + bitmapBlocks;
      ItemsAreNat(slotsBlocks);
      ItemsAreNat(sinodesBlocks);
      blocksCalc := BlocksCalc(fileBlocks, slotsBlocks, slotsMapBlocks, slotsBlocks * SLOTS_PER_BLOCK,
                               sinodesBlocks, sinodesMapBlocks, sinodesBlocks * SINODES_PER_BLOCK,
                               bitmapBlocks, totalBlocksRequired);
      SharedFromShare(fileBlocks, itemsBlocks, blocksCalc);
    }

    method BuildSuperblock()
      requires SinodeMapBlock(blocksCalc) >= 0
      modifies this`superblock
      ensures var l := Layout(blocksCalc);
              superblock == Superblock(Recorded(l[1]), Recorded(l[2]), Recorded(l[3]), Recorded(l[4]), Recorded(l[5]))
    {
      var bc := blocksCalc;
      var fsMapBlock := bc.fileBlocks - bc.bitmapBlocks;
      var slotMapBlock := fsMapBlock - bc.slotsBitmapBlocks;
      var sinodeMapBlock := slotMapBlock - bc.sinodesBitmapBlocks;
      superblock := Superblock(
        DiskExtent(1, bc.sinodesTableBlocks % TWO_TO_THE_16),
        DiskExtent(sinodeMapBlock, bc.sinodesBitmapBlocks % TWO_TO_THE_16),
        DiskExtent(bc.sinodesTableBlocks + 1, bc.slotsTableBlocks % TWO_TO_THE_16),
        DiskExtent(slotMapBlock, bc.slotsBitmapBlocks % TWO_TO_THE_16),
        DiskExtent(fsMapBlock, bc.bitmapBlocks % TWO_TO_THE_16));
    }

    method BuildMap(ghost blocks: nat, ghost percentage: nat)
      requires LaidOut(blocks, percentage)
      modifies this`bitmap, this`entriesInUse
      ensures MarkedUpTo(1) && fresh(bitmap)
    {
      hide View, Bit, Disjoint, PopCount;
      LayoutIsDisjoint(blocksCalc, blocks, percentage);
      BitmapHasRoom(blocksCalc, blocks, percentage);
      hide Shared;
      bitmap := new bv8[blocksCalc.bitmapBlocks * BLOCK_SIZE - EXTENT_HEADER_SIZE](_ => 0x00);
      entriesInUse := 0;
      ZeroedView(bitmap[..]);
      ghost var v := View(bitmap[..]);
      var rc := BmSetBit(bitmap, blocksCalc.fileBlocks, 0, true);
      entriesInUse := 1;
      assert v[0 := true] == Fill(v, 0, 1, true);
      MarkedFirst(v, blocksCalc);
    }

    /** Marks extent n of the layout and adds its size to the header's count. */
    method MarkExtent(ghost n: nat, addr: nat, size: nat)
      requires n < 6 && MarkedUpTo(n)
      requires Layout(blocksCalc)[n] == Extent(addr, size)
      modifies this`entriesInUse, bitmap
      ensures MarkedUpTo(n + 1)
    {
      hide View, Bit, Layout, Fill, SetExtentCode, SetExtentEnd, MarkedAt;
      NextFits(blocksCalc, View(bitmap[..]), entriesInUse, n);
      NextIsMarked(blocksCalc, View(bitmap[..]), entriesInUse, n);
      var rc := BmSetExtent(bitmap, blocksCalc.fileBlocks, addr, size, true);
      entriesInUse := (entriesInUse + size) % TWO_TO_THE_32;
    }

    /** The block-map updates of build_sinodes, build_slots and write_map. */
    method BuildSinodes()
      requires MarkedUpTo(1)
      modifies this`entriesInUse, bitmap
      ensures MarkedUpTo(3)
    {
      LayoutEntries(blocksCalc);
      hide View, Bit, Layout, MarkedAt, MarkedUpTo;
      var bc := blocksCalc;
      var sinodeMapBlock := bc.fileBlocks - bc.bitmapBlocks - bc.slotsBitmapBlocks - bc.sinodesBitmapBlocks;
      MarkExtent(1, 1, bc.sinodesTableBlocks);
      MarkExtent(2, sinodeMapBlock, bc.sinodesBitmapBlocks);
    }

    method BuildSlots()
      requires MarkedUpTo(3)
      modifies this`entriesInUse, bitmap
      ensures MarkedUpTo(5)
    {
      var bc := blocksCalc;
      SlotExtents(bc);
      hide View, Bit, Layout, MarkedAt, MarkedUpTo;
      var slotMapBlock := bc.fileBlocks - bc.bitmapBlocks - bc.slotsBitmapBlocks;
      MarkExtent(3, bc.sinodesTableBlocks + 1, bc.slotsTableBlocks);
      assert blocksCalc == bc;
      MarkExtent(4, slotMapBlock, bc.slotsBitmapBlocks);
    }

    method WriteMap()
      requires MarkedUpTo(5)
      modifies this`entriesInUse, bitmap
      ensures MarkedUpTo(6)
    {
      LayoutEntries(blocksCalc);
      hide View, Bit, Layout, MarkedAt, MarkedUpTo;
      MarkExtent(5, blocksCalc.fileBlocks - blocksCalc.bitmapBlocks, blocksCalc.bitmapBlocks);
    }

    method BuildBlockMap(ghost blocks: nat, ghost percentage: nat)
      requires LaidOut(blocks, percentage) && blocksCalc.fileBlocks == blocks
      modifies this`bitmap, this`entriesInUse
      ensures MarkedUpTo(6)
    {
      hide MarkedUpTo;
      BuildMap(blocks, percentage);
      BuildSinodes();
      BuildSlots();
      WriteMap();
    }

    /** build_filesystem_in_file, as far as the layout and the block map go. */
    method BuildFilesystem(size: nat, percentage: nat)
      requires 2 <= percentage <= 90 && size / BLOCK_SIZE >= 1280 && size < TWO_TO_THE_64
      modifies this
      ensures LaidOut(size / BLOCK_SIZE, percentage)
      ensures ExactMap(blocksCalc, View(bitmap[..]))
      ensures entriesInUse == Count32(blocksCalc.totalBlocksRequired)
      ensures entriesInUse == PopCount(View(bitmap[..])) <==> HeaderIsRight(size / BLOCK_SIZE, percentage)
    {
      hide View, Bit, Layout, Marked, TotalSize, Cleared, ExactMap, InsideAndNonEmpty, PopCount, HeaderIsRight;
      ComputeValues(size, percentage);
      ghost var blocks := size / BLOCK_SIZE;
      LayoutIsDisjoint(blocksCalc, blocks, percentage);
      assert blocksCalc.fileBlocks == blocks;
      hide Shared;
      BuildSuperblock();
      BuildBlockMap(blocks, percentage);
      FinalMapIsExact(blocksCalc, blocks, percentage, View(bitmap[..]));
      HeaderIsRightExactly(blocksCalc, blocks, percentage, View(bitmap[..]));
    }
  }

  /** The six extents are disjoint and inside the file; a block is set in the map exactly when one of
      them holds it and did not lose it; and the number of set bits and of lost blocks add up to the
      blocks required. */
  ghost predicate ExactMap(bc: BlocksCalc, v: seq<bool>) {
    && SinodeMapBlock(bc) >= 0 && bc.fileBlocks <= |v|
    && Disjoint(Layout(bc)) && InsideAndNonEmpty(Layout(bc), bc.fileBlocks)
    && (forall k: nat | k < |v| :: v[k] <==> SomeHolds(bc.fileBlocks, Layout(bc), 6, k))
    && PopCount(v) + Losses(bc.fileBlocks, Layout(bc), 6) == bc.totalBlocksRequired
  }

  lemma FinalMapIsExact(bc: BlocksCalc, blocks: nat, percentage: nat, v: seq<bool>)
    requires blocks >= 1280 && 2 <= percentage <= 90 && Shared(bc, blocks, percentage)
    requires SinodeMapBlock(bc) >= 0 && InsideAndNonEmpty(Layout(bc), blocks) && blocks <= |v|
    requires v == Marked(Cleared(|v|), blocks, Layout(bc), 6)
    ensures ExactMap(bc, v)
  {
    hide View, Layout, Marked, MarkedEnd, LosesLastBlock, TotalSize, Losses, Cleared;
    LayoutIsDisjoint(bc, blocks, percentage);
    MarkedExactly(Cleared(|v|), blocks, Layout(bc), 6);
  }

  lemma {:induction false} NoLossMeansNone(N: nat, exts: seq<Extent>, n: nat)
    requires n <= |exts|
    ensures Losses(N, exts, n) == 0 <==> forall i | 0 <= i < n :: !LosesLastBlock(N, exts[i])
  {
    if n > 0 {
      NoLossMeansNone(N, exts, n - 1);
    }
  }

  /** An extent of several blocks that ends one past a byte boundary of the block map. */
  predicate EndsInTail(e: Extent) {
    e.size > 1 && (e.addr + e.size) % 8 == 1
  }

  lemma SixExtents(l: seq<Extent>)
    requires |l| == 6
    ensures (forall e | e in l :: !EndsInTail(e)) <==>
              && !EndsInTail(l[0]) && !EndsInTail(l[1]) && !EndsInTail(l[2])
              && !EndsInTail(l[3]) && !EndsInTail(l[4]) && !EndsInTail(l[5])
  {
    hide EndsInTail;
    assert l == [l[0], l[1], l[2], l[3], l[4], l[5]];
  }

  /** The number of set bits is that of the blocks laid out, and the set bits are exactly the blocks of
      the six extents, if and only if no extent of several blocks ends one past a byte boundary. */
  lemma MapIsCompleteExactly(bc: BlocksCalc, v: seq<bool>)
    requires ExactMap(bc, v)
    ensures PopCount(v) == bc.totalBlocksRequired
            <==> forall e | e in Layout(bc) :: !EndsInTail(e)
    ensures PopCount(v) == bc.totalBlocksRequired ==>
              forall k: nat | k < |v| :: v[k] <==> exists i | 0 <= i < 6 :: Within(Layout(bc)[i], k)
  {
    hide Layout, PopCount, LosesLastBlock, EndsInTail, Losses, MarkedEnd, InMark, Within, Disjoint, InsideAndNonEmpty;
    var N, l := bc.fileBlocks, Layout(bc);
    NoLossMeansNone(N, l, 6);
    forall i | 0 <= i < 6
      ensures LosesLastBlock(N, l[i]) <==> EndsInTail(l[i])
      ensures !LosesLastBlock(N, l[i]) ==> forall k: nat :: InMark(N, l[i], k) == Within(l[i], k)
    {
      LayoutExtentFits(N, l, i);
      OneExtent(N, l[i]);
    }
    SixExtents(l);
  }

  lemma LayoutExtentFits(N: nat, l: seq<Extent>, i: nat)
    requires i < |l| && InsideAndNonEmpty(l, N)
    ensures 1 <= l[i].size && l[i].addr + l[i].size <= N
  {
    assert l[i] in l;
  }

  lemma OneExtent(N: nat, e: Extent)
    requires 1 <= e.size && e.addr + e.size <= N
    ensures LosesLastBlock(N, e) <==> EndsInTail(e)
    ensures !LosesLastBlock(N, e) ==> forall k: nat :: InMark(N, e, k) == Within(e, k)
  {
    hide LosesLastBlock, MarkedEnd;
    MarkedEndIs(N, e);
  }

  // ----- for which file sizes -----

  lemma CeilDivIsUnique(n: nat, d: nat, m: int)
    requires n > 0 && d > 0 && (m - 1) * d < n <= m * d
    ensures m == CeilDiv(n, d)
  {
    CeilDivBounds(n, d);
    var c := CeilDiv(n, d);
    assert m <= c - 1 ==> m * d <= (c - 1) * d;
    assert c <= m - 1 ==> c * d <= (m - 1) * d;
  }

  /** The share of the slots, and of the super-inodes, in blocks. */
  function Share(blocks: nat, percentage: nat): nat {
    blocks * percentage / 200
  }

  function MapBlocks(blocks: nat): nat {
    CeilDiv(blocks, BITS_PER_BLOCK)
  }

  /** The blocks of each of the two tables. */
  function TableBlocks(blocks: nat, percentage: nat): int {
    Share(blocks, percentage) - MapBlocks(Share(blocks, percentage))
  }

  /** The sizes that percentage mode computes are determined by the file's size and the percentage. */
  lemma SizesAreDetermined(bc: BlocksCalc, blocks: nat, percentage: nat)
    requires blocks >= 1280 && 2 <= percentage <= 90 && Shared(bc, blocks, percentage)
    ensures bc.slotsBitmapBlocks == bc.sinodesBitmapBlocks == MapBlocks(Share(blocks, percentage))
    ensures bc.slotsTableBlocks == bc.sinodesTableBlocks == TableBlocks(blocks, percentage) > 1
    ensures bc.bitmapBlocks == MapBlocks(blocks) && bc.fileBlocks == blocks
  {
    hide CeilDiv;
    ShareBounds(blocks, percentage);
    CeilDivIsUnique(Share(blocks, percentage), BITS_PER_BLOCK, bc.slotsBitmapBlocks);
    CeilDivIsUnique(Share(blocks, percentage), BITS_PER_BLOCK, bc.sinodesBitmapBlocks);
    CeilDivIsUnique(blocks, BITS_PER_BLOCK, bc.bitmapBlocks);
  }

  /** No extent of the layout ends one past a byte boundary: neither table, and none of the three maps
      that has several blocks. */
  predicate AvoidsTails(blocks: nat, percentage: nat) {
    var maps, bitmaps := MapBlocks(Share(blocks, percentage)), MapBlocks(blocks);
    && TableBlocks(blocks, percentage) % 4 != 0
    && (maps > 1 ==> (blocks - bitmaps - maps) % 8 != 1 && (blocks - bitmaps) % 8 != 1)
    && (bitmaps > 1 ==> blocks % 8 != 1)
  }

  /** For which files the block map is complete. */
  lemma MapIsCompleteExactlyFor(bc: BlocksCalc, blocks: nat, percentage: nat, v: seq<bool>)
    requires blocks >= 1280 && 2 <= percentage <= 90 && Shared(bc, blocks, percentage) && ExactMap(bc, v)
    ensures PopCount(v) == bc.totalBlocksRequired <==> AvoidsTails(blocks, percentage)
  {
    hide PopCount, ExactMap, Shared, SharedOut, TotalSize, Layout, Disjoint, InsideAndNonEmpty, AvoidsTails;
    SizesAreDetermined(bc, blocks, percentage);
    LayoutIsDisjoint(bc, blocks, percentage);
    MapIsCompleteExactly(bc, v);
    LayoutTails(bc, blocks, percentage);
  }

  /** The blocks of the layout. */
  function RequiredBlocks(blocks: nat, percentage: nat): nat {
    1 + 2 * Share(blocks, percentage) + MapBlocks(blocks)
  }

  /** The header's 32-bit count does not wrap, and no block is lost. */
  predicate HeaderIsRight(blocks: nat, percentage: nat) {
    AvoidsTails(blocks, percentage) && RequiredBlocks(blocks, percentage) < TWO_TO_THE_32
  }

  lemma {:induction false} FewLosses(N: nat, exts: seq<Extent>, n: nat)
    requires n <= |exts|
    ensures Losses(N, exts, n) <= n
  {
    if n > 0 {
      FewLosses(N, exts, n - 1);
    }
  }

  /** For which files the header's 32-bit count equals the number of set bits. */
  lemma HeaderIsRightExactly(bc: BlocksCalc, blocks: nat, percentage: nat, v: seq<bool>)
    requires blocks >= 1280 && 2 <= percentage <= 90 && Shared(bc, blocks, percentage) && ExactMap(bc, v)
    ensures bc.totalBlocksRequired == RequiredBlocks(blocks, percentage)
    ensures PopCount(v) == Count32(bc.totalBlocksRequired) <==> HeaderIsRight(blocks, percentage)
  {
    hide PopCount, Layout, Disjoint, InsideAndNonEmpty, InMark, AvoidsTails, Losses, MapBlocks;
    SizesAreDetermined(bc, blocks, percentage);
    MapIsCompleteExactlyFor(bc, blocks, percentage, v);
    FewLosses(bc.fileBlocks, Layout(bc), 6);
  }

  /** A file of 5 * 10^9 blocks at 90 percent has more blocks laid out than its header can count. */
  lemma HugeFileWrapsHeader(bc: BlocksCalc)
    requires Shared(bc, 5_000_000_000, 90)
    ensures bc.totalBlocksRequired == 4_500_076_595
    ensures Count32(bc.totalBlocksRequired) == 205_109_299
    ensures !HeaderIsRight(5_000_000_000, 90)
  {
    hide CeilDiv;
    CeilDivIsUnique(5_000_000_000, BITS_PER_BLOCK, bc.bitmapBlocks);
    CeilDivIsUnique(5_000_000_000, BITS_PER_BLOCK, 76594);
  }

  lemma LayoutTails(bc: BlocksCalc, blocks: nat, percentage: nat)
    requires SinodeMapBlock(bc) >= 0 && bc.fileBlocks == blocks
    requires bc.slotsBitmapBlocks == bc.sinodesBitmapBlocks == MapBlocks(Share(blocks, percentage))
    requires bc.slotsTableBlocks == bc.sinodesTableBlocks == TableBlocks(blocks, percentage) > 1
    requires bc.bitmapBlocks == MapBlocks(blocks)
    ensures AvoidsTails(blocks, percentage) <==> forall e | e in Layout(bc) :: !EndsInTail(e)
  {
    hide Layout, Share, MapBlocks, TableBlocks;
    LayoutEntries(bc);
    var l := Layout(bc);
    SixExtents(l);
    TableTails(bc.slotsTableBlocks);
  }

  lemma TableTails(size: nat)
    ensures (1 + size) % 8 == 1 || (2 * size + 1) % 8 == 1 <==> size % 4 == 0
  {
    var q, r := size / 8, size % 8;
    assert size == 8 * q + r;
    EightTimes(q, 1 + r);
    EightTimes(2 * q, 2 * r + 1);
    FourTimes(2 * q, r);
  }

  lemma EightTimes(q: int, r: nat)
    ensures (8 * q + r) % 8 == r % 8
  {
  }

  lemma FourTimes(q: int, r: nat)
    ensures (4 * q + r) % 4 == r % 4
  {
  }

  /** A file of 1280 blocks at 4 percent loses the last block of each table. */
  lemma SmallFileLosesBlocks(bc: BlocksCalc, v: seq<bool>)
    requires Shared(bc, 1280, 4) && ExactMap(bc, v)
    ensures bc.totalBlocksRequired == 52 && PopCount(v) == 50
  {
    hide PopCount, Losses, TotalSize, InMark, Disjoint, InsideAndNonEmpty;
    SizesAreDetermined(bc, 1280, 4);
    SmallLosses();
    assert Layout(bc) == SMALL_LAYOUT;
  }

  const SMALL_LAYOUT := [Extent(0, 1), Extent(1, 24), Extent(1277, 1), Extent(25, 24), Extent(1278, 1), Extent(1279, 1)]

  lemma SmallLosses()
    ensures Losses(1280, SMALL_LAYOUT, 6) == 2
  {
    assert Losses(1280, SMALL_LAYOUT, 1) == 0;
    assert Losses(1280, SMALL_LAYOUT, 2) == 1;
    assert Losses(1280, SMALL_LAYOUT, 3) == 1;
    assert Losses(1280, SMALL_LAYOUT, 4) == 2;
    assert Losses(1280, SMALL_LAYOUT, 5) == 2;
  }

  /** The superblock's 16-bit sizes describe the layout exactly when a share is at most 65537 blocks. */
  lemma RecordedExactly(bc: BlocksCalc, blocks: nat, percentage: nat)
    requires blocks >= 1280 && 2 <= percentage <= 90 && Shared(bc, blocks, percentage)
    ensures SinodeMapBlock(bc) >= 0
    ensures (forall e | e in Layout(bc) :: Recorded(e).blockSize == e.size) <==> Share(blocks, percentage) <= 65537
  {
    hide Shared, SharedOut, TotalSize, Layout, Recorded, Share, MapBlocks, TableBlocks, Disjoint, InsideAndNonEmpty;
    LayoutIsDisjoint(bc, blocks, percentage);
    SizesAreDetermined(bc, blocks, percentage);
    ShareDecides(blocks, percentage);
    LayoutEntries(bc);
    var l := Layout(bc);
    forall i | 0 <= i < 6
      ensures Recorded(l[i]).blockSize == l[i].size <==> i == 0 || l[i].size < TWO_TO_THE_16
    {
      SixteenBits(l[i]);
    }
    assert l[1] in l;
    assert forall e :: e in l <==> exists i | 0 <= i < 6 :: l[i] == e;
  }

  lemma SixteenBits(e: Extent)
    ensures Recorded(e).blockSize == e.size <==> e.size < TWO_TO_THE_16
  {
  }

  lemma ShareDecides(blocks: nat, percentage: nat)
    requires 2 <= percentage
    ensures TableBlocks(blocks, percentage) < TWO_TO_THE_16 <==> Share(blocks, percentage) <= 65537
    ensures Share(blocks, percentage) <= 65537 ==>
              MapBlocks(Share(blocks, percentage)) < TWO_TO_THE_16 && MapBlocks(blocks) < TWO_TO_THE_16
  {
    if Share(blocks, percentage) <= 65537 {
      assert 2 * blocks <= blocks * percentage < 200 * 65538;
    }
  }

  /** A file of 145640 blocks at 90 percent has tables of 65536 blocks, which are recorded as empty. */
  lemma LargeTableIsRecordedEmpty(bc: BlocksCalc)
    requires Shared(bc, 145640, 90)
    ensures SinodeMapBlock(bc) >= 0
    ensures Layout(bc)[1].size == 65536 == Layout(bc)[3].size
    ensures Recorded(Layout(bc)[1]).blockSize == 0 == Recorded(Layout(bc)[3]).blockSize
  {
    hide Shared, SharedOut, Layout, TotalSize, Disjoint, InsideAndNonEmpty, MapBlocks, Share, TableBlocks;
    LayoutIsDisjoint(bc, 145640, 90);
    SizesAreDetermined(bc, 145640, 90);
    LargeTable();
    LayoutEntries(bc);
  }

  lemma LargeTable()
    ensures TableBlocks(145640, 90) == 65536
  {
  }

  function Cleared(n: nat): (v: seq<bool>)
    ensures |v| == n && AllEqual(v, 0, n, false)
  {
    seq(n, _ => false)
  }

  lemma ZeroedView(s: seq<bv8>)
    requires forall i | 0 <= i < |s| :: s[i] == 0x00
    ensures View(s) == Cleared(8 * |s|)
  {
    hide Bit;
    forall k: nat | k < 8 * |s|
      ensures !View(s)[k]
    {
      UniformByte(s[k / 8]);
    }
  }
}
