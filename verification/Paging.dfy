/** The page directory and tables of paging.c, and the address translation they define. */
module Paging {

  const ENTRIES := 1024
  const FOUR_KB := 4096
  const FOUR_MB := 0x400000
  const USER_PAGE: nat := 0x8000000
  const USER_VIDEO: nat := 0x9000000
  const VIDEO: bv32 := 0xB8000

  /** A virtual address. */
  type address = a: int | 0 <= a < 0x100000000

  /** Where an address lands: the frame a table entry names and the offset inside it. */
  datatype Place = Unmapped | Place(frame: bv32, offset: nat)

  /** page_directory, page_table, user_video_page_table and the addresses of the two tables. */
  datatype Tables = Tables(dir: seq<bv32>, low: seq<bv32>, video: seq<bv32>, lowAt: bv32, videoAt: bv32)

  predicate Aligned4K(a: bv32) {
    a & 0xFFF == 0
  }

  predicate Aligned4M(a: bv32) {
    a & 0x3FFFFF == 0
  }

  predicate Ok(t: Tables) {
    && |t.dir| == |t.low| == |t.video| == ENTRIES
    && Aligned4K(t.lowAt) && Aligned4K(t.videoAt) && t.lowAt != t.videoAt
  }

  /** The number of the 4 MB region an address lies in, and of its page there. */
  function Region(va: address): (n: nat)
    ensures n < ENTRIES
  {
    va / FOUR_MB
  }

  function PageInRegion(va: address): (n: nat)
    ensures n < ENTRIES
  {
    va % FOUR_MB / FOUR_KB
  }

  predicate Present(entry: bv32) {
    entry & 1 != 0
  }

  predicate Large(entry: bv32) {
    entry & 0x80 != 0
  }

  /** The user and the write bit. */
  predicate UserWritable(entry: bv32) {
    entry & 6 == 6
  }

  function Base4M(entry: bv32): bv32 {
    entry & 0xFFC00000
  }

  function Base4K(entry: bv32): bv32 {
    entry & 0xFFFFF000
  }

  /** Section 4.3 of volume 3A of the Intel SDM: 32-bit paging with 4 MB pages enabled. */
  function Translate(t: Tables, va: address): Place
    requires Ok(t)
  {
    var pde := t.dir[Region(va)];
    if !Present(pde) then Unmapped
    else if Large(pde) then Place(Base4M(pde), va % FOUR_MB)
    else if Base4K(pde) == t.videoAt then TranslatePage(t.video[PageInRegion(va)], va)
    else if Base4K(pde) == t.lowAt then TranslatePage(t.low[PageInRegion(va)], va)
    else Unmapped
  }

  function TranslatePage(pte: bv32, va: address): Place {
    if Present(pte) then Place(Base4K(pte), va % FOUR_KB) else Unmapped
  }

  /** The last entry on the way to an address. */
  function LastEntry(t: Tables, va: address): bv32
    requires Ok(t)
  {
    var pde := t.dir[Region(va)];
    if Large(pde) then pde
    else if Base4K(pde) == t.videoAt then t.video[PageInRegion(va)]
    else t.low[PageInRegion(va)]
  }

  /** Section 4.6 of the same volume: user programs may read and write where both entries on the way say so. */
  predicate UserMayWrite(t: Tables, va: address)
    requires Ok(t)
  {
    UserWritable(t.dir[Region(va)]) && UserWritable(LastEntry(t, va))
  }

  /** map */
  function MapPage(t: Tables, virt: address, phys: bv32): (r: Tables)
    requires Ok(t)
    ensures Ok(r)
  {
    t.(dir := t.dir[Region(virt) := phys | 0x87])
  }

  /** map_w_pt and map_video_w_pt */
  function MapVideo(t: Tables, virt: address, phys: bv32): (r: Tables)
    requires Ok(t)
    ensures Ok(r)
  {
    t.(dir := t.dir[Region(virt) := t.videoAt | 7], video := t.video[0 := phys | 7])
  }

  lemma LargeEntry(phys: bv32)
    requires Aligned4M(phys)
    ensures Present(phys | 0x87) && Large(phys | 0x87) && Base4M(phys | 0x87) == phys
  {
  }

  lemma SmallEntry(phys: bv32)
    requires Aligned4K(phys)
    ensures Present(phys | 7) && !Large(phys | 7) && Base4K(phys | 7) == phys
  {
  }

  lemma LargeUser(phys: bv32)
    ensures UserWritable(phys | 0x87) && Present(phys | 0x87) && Large(phys | 0x87)
  {
  }

  lemma SmallUser(phys: bv32)
    ensures UserWritable(phys | 7) && Present(phys | 7) && Base4K(phys | 7) == Base4K(phys)
  {
  }

  /** `map` opens the region to user programs, for reading and writing, and changes no other's rights. */
  lemma MapOpens(t: Tables, virt: address, phys: bv32, va: address)
    requires Ok(t)
    ensures UserMayWrite(MapPage(t, virt, phys), va) <==> Region(va) == Region(virt) || UserMayWrite(t, va)
  {
    LargeUser(phys);
  }

  /** `map` with an aligned frame redirects exactly the 4 MB region of `virt`. */
  lemma MapRefines(t: Tables, virt: address, phys: bv32, va: address)
    requires Ok(t) && Aligned4M(phys)
    ensures Translate(MapPage(t, virt, phys), va) ==
            if Region(va) == Region(virt) then Place(phys, va % FOUR_MB) else Translate(t, va)
  {
    LargeEntry(phys);
  }

  predicate UsesVideoTable(t: Tables, va: address)
    requires Ok(t)
  {
    var pde := t.dir[Region(va)];
    Present(pde) && !Large(pde) && Base4K(pde) == t.videoAt
  }

  /**
   * `map_w_pt` puts the frame that holds `phys` behind the first page of the region of `virt`, and
   * of every other region that already goes through the shared video table; nothing else moves.
   */
  lemma MapVideoRefines(t: Tables, virt: address, phys: bv32, va: address)
    requires Ok(t)
    ensures Translate(MapVideo(t, virt, phys), va) ==
            if Region(va) != Region(virt) && !UsesVideoTable(t, va) then Translate(t, va)
            else if PageInRegion(va) == 0 then Place(Base4K(phys), va % FOUR_KB)
            else TranslatePage(t.video[PageInRegion(va)], va)
  {
    SmallUser(phys);
    SmallEntry(t.videoAt);
  }

  /** Both entries `map_w_pt` writes are open to user programs, for reading and writing. */
  lemma MapVideoOpens(t: Tables, virt: address, phys: bv32)
    requires Ok(t)
    ensures UserWritable(MapVideo(t, virt, phys).dir[Region(virt)]) && UserWritable(MapVideo(t, virt, phys).video[0])
  {
    SmallUser(phys);
    SmallUser(t.videoAt);
  }

  class PageTables {
    const dir: array<bv32>
    const low: array<bv32>
    const video: array<bv32>
    const lowAt: bv32
    const videoAt: bv32

    ghost function Abs(): Tables
      reads dir, low, video
    {
      Tables(dir[..], low[..], video[..], lowAt, videoAt)
    }

    ghost predicate Valid()
      reads dir, low, video
    {
      dir != low && dir != video && low != video && Ok(Abs())
    }

    /** Where the loader puts the tables is not known, only that they are aligned and distinct. */
    constructor (lowAt: bv32, videoAt: bv32)
      requires Aligned4K(lowAt) && Aligned4K(videoAt) && lowAt != videoAt
      ensures Valid() && fresh(dir) && fresh(low) && fresh(video)
      ensures this.lowAt == lowAt && this.videoAt == videoAt
    {
      dir, low, video := new bv32[ENTRIES](_ => 0), new bv32[ENTRIES](_ => 0), new bv32[ENTRIES](_ => 0);
      this.lowAt, this.videoAt := lowAt, videoAt;
    }

    /** map */
    method Map(virt: address, phys: bv32)
      requires Valid()
      modifies dir
      ensures Valid() && Abs() == MapPage(old(Abs()), virt, phys)
    {
      dir[virt / FOUR_MB] := phys | 0x87;
    }

    /** map_w_pt, of which map_video_w_pt is a copy */
    method MapWithTable(virt: address, phys: bv32)
      requires Valid()
      modifies dir, video
      ensures Valid() && Abs() == MapVideo(old(Abs()), virt, phys)
    {
      dir[virt / FOUR_MB] := videoAt | 7;
      video[0] := phys | 7;
    }
  }
}
