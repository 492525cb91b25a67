/** `malloc`, `free`, `realloc` and `zalloc` on the table and the heap bytes, and the map from
    pointers to bytes they keep for their callers. */
module Allocator {
  import opened HeapTable
  import opened Ints

  /** Bytes reachable through a 16-bit offset and a 16-bit size, counted from the heap's base. */
  const REACH := 2 * LAP

  datatype MemError = Ok | ZeroSize | NoMetadata | HeapExhausted | InvalidPtr | ReallocNotFound

  // ---------- the map a caller sees ----------

  /** The slot a pointer names, or the table's length. */
  function Slot(h: Heap, p: int): (i: nat)
    ensures i <= |h.table|
    ensures i < |h.table| ==> Live(h, i) && HEAP_BASE + h.table[i].offset == p
  {
    if HEAP_BASE <= p < HEAP_BASE + FREE then FirstAt(h.table, p - HEAP_BASE) else |h.table|
  }

  function BytesOf(e: Entry, mem: seq<Byte>): seq<Byte>
    requires |mem| == REACH
  {
    mem[e.offset..e.offset + e.size]
  }

  /** Every live pointer with the bytes of its block. */
  function Blocks(h: Heap, mem: seq<Byte>): map<int, seq<Byte>>
    requires |mem| == REACH
  {
    map p | HEAP_BASE <= p < HEAP_BASE + FREE && Slot(h, p) < |h.table| ::
      BytesOf(h.table[Slot(h, p)], mem)
  }

  /** The pointers of the live slots below `n`. */
  function PointersBelow(h: Heap, n: nat): set<int>
    requires n <= |h.table|
  {
    if n == 0 then {}
    else PointersBelow(h, n - 1) + (if Live(h, n - 1) then {HEAP_BASE + h.table[n - 1].offset} else {})
  }

  lemma {:induction false} PointersAre(h: Heap, n: nat, p: int)
    requires Sound(h) && n <= |h.table|
    ensures p in PointersBelow(h, n) <==> Slot(h, p) < n
  {
    hide Sound, Slot;
    if n > 0 {
      PointersAre(h, n - 1, p);
      if Live(h, n - 1) {
        SlotOf(h, n - 1);
      }
    }
  }

  predicate LiveBelow(h: Heap, n: nat) {
    forall i :: 0 <= i < n ==> Live(h, i)
  }

  lemma LiveOneMore(h: Heap, n: nat)
    ensures LiveBelow(h, n + 1) <==> LiveBelow(h, n) && Live(h, n)
  {
  }

  lemma OneElement(s: set<int>, p: int)
    requires p !in s
    ensures |s + {p}| == |s| + 1
  {
  }

  /** They are as many as the slots exactly when every one of these is live. */
  lemma {:induction false} CountPointers(h: Heap, n: nat)
    requires Sound(h) && n <= |h.table|
    ensures |PointersBelow(h, n)| <= n
    ensures |PointersBelow(h, n)| == n <==> LiveBelow(h, n)
  {
    hide Sound, Slot, Live, LiveBelow, PointersBelow;
    if n == 0 {
      NoneBelow(h);
    } else {
      CountPointers(h, n - 1);
      LiveOneMore(h, n - 1);
      PointersMore(h, n - 1);
    }
  }

  lemma PointersMore(h: Heap, n: nat)
    requires Sound(h) && n < |h.table|
    ensures |PointersBelow(h, n + 1)| == |PointersBelow(h, n)| + (if Live(h, n) then 1 else 0)
  {
    hide Sound, Slot;
    if Live(h, n) {
      var p := HEAP_BASE + h.table[n].offset;
      SlotOf(h, n);
      PointersAre(h, n, p);
      OneElement(PointersBelow(h, n), p);
    } else {
      assert PointersBelow(h, n + 1) == PointersBelow(h, n);
    }
  }

  lemma NoneBelow(h: Heap)
    ensures LiveBelow(h, 0) && PointersBelow(h, 0) == {}
  {
  }

  lemma KeysArePointers(h: Heap, mem: seq<Byte>)
    requires Sound(h) && |mem| == REACH
    ensures Blocks(h, mem).Keys == PointersBelow(h, |h.table|)
  {
    hide Sound, BytesOf, Slot, PointersBelow;
    forall p: int
      ensures p in Blocks(h, mem) <==> p in PointersBelow(h, |h.table|)
    {
      PointersAre(h, |h.table|, p);
    }
  }

  /** The table is full exactly when the caller holds as many blocks as there are slots. */
  lemma FullIffAllLive(h: Heap, mem: seq<Byte>)
    requires Sound(h) && |mem| == REACH
    ensures |Blocks(h, mem)| == MAX_ENTRIES <==> AllLive(h)
  {
    hide Sound, Blocks, PointersBelow, Live;
    TrackedLengths(h);
    KeysArePointers(h, mem);
    CountPointers(h, |h.table|);
    KeyCount(Blocks(h, mem));
  }

  lemma KeyCount(m: map<int, seq<Byte>>)
    ensures |m| == |m.Keys|
  {
  }

  /** In a sound heap a pointer names one slot. */
  lemma SlotOf(h: Heap, i: int)
    requires Sound(h) && Live(h, i)
    ensures Slot(h, HEAP_BASE + h.table[i].offset) == i
  {
    forall j | 0 <= j < i
      ensures h.table[j].offset != h.table[i].offset
    {
      if Live(h, j) {
        LiveDisjoint(h, j, i);
      }
    }
    FirstAtIs(h.table, h.table[i].offset, i);
  }

  /** How filling one free slot changes the slots that pointers name. */
  lemma SlotAdded(h: Heap, g: Heap, k: nat, e: Entry, p: int)
    requires k < |h.table| && !Live(h, k) && e.offset != FREE && g.table == h.table[k := e]
    requires forall i :: Live(h, i) ==> h.table[i].offset != e.offset
    ensures p == HEAP_BASE + e.offset ==> Slot(g, p) == k && Slot(h, p) == |h.table|
    ensures p != HEAP_BASE + e.offset ==> Slot(g, p) == Slot(h, p) != k
  {
    if HEAP_BASE <= p < HEAP_BASE + FREE {
      var off: U16 := p - HEAP_BASE;
      if off == e.offset {
        forall i | 0 <= i < |h.table|
          ensures h.table[i].offset != off
        {
          assert Live(h, i) || h.table[i].offset == FREE;
        }
        FirstAtNone(h.table, off);
        FirstAtIs(g.table, off, k);
      } else {
        FirstAtUpdate(h.table, k, e, off);
      }
    }
  }

  lemma FirstAtUpdate(table: seq<Entry>, k: nat, e: Entry, off: U16)
    requires k < |table| && table[k].offset != off && e.offset != off
    ensures FirstAt(table[k := e], off) == FirstAt(table, off)
  {
    var i := FirstAt(table, off);
    if i < |table| {
      FirstAtIs(table[k := e], off, i);
    } else {
      FirstAtNone(table[k := e], off);
    }
  }

  /** Filling a free slot with an offset no live slot has adds one pointer to the map. */
  lemma AddedBlocks(h: Heap, g: Heap, mem: seq<Byte>, k: nat, e: Entry)
    requires |mem| == REACH && k < |h.table|
    requires !Live(h, k) && e.offset != FREE && g.table == h.table[k := e]
    requires forall i :: Live(h, i) ==> h.table[i].offset != e.offset
    ensures HEAP_BASE + e.offset !in Blocks(h, mem)
    ensures Blocks(g, mem) == Blocks(h, mem)[HEAP_BASE + e.offset := BytesOf(e, mem)]
  {
    hide Slot, Live, BytesOf;
    forall p: int
      ensures p == HEAP_BASE + e.offset ==> Slot(g, p) == k && Slot(h, p) == |h.table|
      ensures p != HEAP_BASE + e.offset ==> Slot(g, p) == Slot(h, p) != k
    {
      SlotAdded(h, g, k, e, p);
    }
  }

  /** A live block's offset and bytes are its own. */
  lemma OthersApart(h: Heap, k: int)
    requires Sound(h) && Live(h, k)
    ensures forall i :: Live(h, i) && i != k ==>
              h.table[i].offset != h.table[k].offset && RealDisjoint(h, k, i)
  {
    hide Sound;
    forall i | Live(h, i) && i != k
      ensures h.table[i].offset != h.table[k].offset && RealDisjoint(h, k, i)
    {
      LiveDisjoint(h, k, i);
    }
  }

  /** The slot an allocation fills, at an offset no live block has. */
  lemma AllocFills(h: Heap, size: U16)
    requires Sound(h) && Fits(h, size) && size != 0 && !AllLive(h)
    ensures |h.table| == |h.start| == MAX_ENTRIES
    ensures var g, k := Alloc(h, size), FirstAt(h.table, FREE);
            && k < |h.table| && !Live(h, k) && h.top != FREE
            && g.table == h.table[k := Entry(h.top, Rounded(size))]
            && forall i :: Live(h, i) ==> h.table[i].offset != h.top
  {
    hide Fits, FirstAt;
    SlotFreeIff(h);
    OffsetsNeverMarker(h, size);
    AllocSound(h, size);
    var g, k := Alloc(h, size), FirstAt(h.table, FREE);
    OthersApart(g, k);
    forall i | Live(h, i)
      ensures h.table[i].offset != h.top
    {
      assert Live(g, i) && i != k;
    }
  }

  /** An allocation adds one new pointer and changes no other block. */
  lemma AllocAdds(h: Heap, mem: seq<Byte>, size: U16)
    requires Sound(h) && Fits(h, size) && size != 0 && !AllLive(h) && |mem| == REACH
    ensures var p := HEAP_BASE + h.top; var e := Entry(h.top, Rounded(size));
            && p !in Blocks(h, mem)
            && Blocks(Alloc(h, size), mem) == Blocks(h, mem)[p := BytesOf(e, mem)]
  {
    hide Sound, Fits, FirstAt, Blocks, Alloc, BytesOf, AllLive, Rounded;
    AllocFills(h, size);
    AddedBlocks(h, Alloc(h, size), mem, FirstAt(h.table, FREE), Entry(h.top, Rounded(size)));
  }

  /** One block of `size` bytes, rounded up, is new at `p`; no other block changes. NULL comes exactly for a
      request of nothing and when there are as many blocks as slots. */
  ghost predicate Added(was: map<int, seq<Byte>>, now: map<int, seq<Byte>>, size: U16, p: int) {
    && (p == 0 <==> size == 0 || |was| == MAX_ENTRIES)
    && (p == 0 ==> now == was)
    && (p != 0 ==> p !in was && p in now && |now[p]| == Rounded(size) && now == was[p := now[p]])
  }

  /** What a caller sees of an allocation within the window; `p` is the returned pointer. */
  lemma AllocView(h: Heap, mem: seq<Byte>, size: U16, p: int)
    requires Sound(h) && Fits(h, size) && |mem| == REACH
    requires p == if size == 0 || AllLive(h) then 0 else HEAP_BASE + h.top
    ensures Sound(Alloc(h, size))
    ensures Added(Blocks(h, mem), Blocks(Alloc(h, size), mem), size, p)
  {
    hide Sound, Fits, Alloc, Blocks, AllLive, Rounded;
    TrackedLengths(h);
    FullIffAllLive(h, mem);
    AllocSound(h, size);
    if p == 0 {
      AllocNothing(h, size);
    } else {
      AllocAdds(h, mem, size);
    }
  }

  lemma AllocNothing(h: Heap, size: U16)
    requires |h.table| == |h.start| == MAX_ENTRIES && (size == 0 || AllLive(h))
    ensures Alloc(h, size) == h
  {
    SlotFreeIff(h);
  }

  /** Freeing a pointer removes it and changes no other block. */
  lemma ReleaseRemoves(h: Heap, mem: seq<Byte>, off: U16)
    requires Sound(h) && |mem| == REACH
    ensures Blocks(Release(h, off), mem) == Blocks(h, mem) - {HEAP_BASE + off}
  {
    hide Sound, FirstAt, Blocks;
    var g, k := Release(h, off), FirstAt(h.table, off);
    if k == |h.table| {
      NoBlockAt(h, mem, off);
    } else if Live(h, k) {
      OthersApart(h, k);
      hide RealDisjoint;
      assert forall i :: Live(g, i) ==> Live(h, i) && i != k;
      AddedBlocks(g, h, mem, k, h.table[k]);
    } else {
      SameBlocks(h, g, mem, k);
    }
  }

  lemma NoBlockAt(h: Heap, mem: seq<Byte>, off: U16)
    requires |mem| == REACH && FirstAt(h.table, off) == |h.table|
    ensures HEAP_BASE + off !in Blocks(h, mem)
  {
  }

  /** Clearing a slot that is already free changes nothing a caller sees. */
  lemma SameBlocks(h: Heap, g: Heap, mem: seq<Byte>, k: nat)
    requires |mem| == REACH && k < |h.table| && !Live(h, k)
    requires g.table == h.table[k := Entry(FREE, 0)]
    ensures Blocks(g, mem) == Blocks(h, mem)
    ensures HEAP_BASE + FREE !in Blocks(h, mem)
  {
    forall p: int
      ensures Slot(g, p) == Slot(h, p) != k
    {
      SlotCleared(h, g, k, p);
    }
    hide Slot;
  }

  lemma SlotCleared(h: Heap, g: Heap, k: nat, p: int)
    requires k < |h.table| && !Live(h, k) && g.table == h.table[k := Entry(FREE, 0)]
    ensures Slot(g, p) == Slot(h, p) != k
  {
    if HEAP_BASE <= p < HEAP_BASE + FREE {
      FirstAtUpdate(h.table, k, Entry(FREE, 0), p - HEAP_BASE);
    }
  }

  /** Writing inside one live block changes that block alone. */
  lemma WriteStays(h: Heap, mem: seq<Byte>, now: seq<Byte>, i: int)
    requires Sound(h) && Live(h, i) && |mem| == |now| == REACH
    requires forall a | 0 <= a < REACH && !(h.table[i].offset <= a < h.table[i].offset + h.table[i].size) ::
               now[a] == mem[a]
    ensures var e := h.table[i];
            Blocks(h, now) == Blocks(h, mem)[HEAP_BASE + e.offset := BytesOf(e, now)]
  {
    hide Sound, Slot;
    var e := h.table[i];
    SlotOf(h, i);
    OthersApart(h, i);
    forall p | p in Blocks(h, mem) && p != HEAP_BASE + e.offset
      ensures Blocks(h, now)[p] == Blocks(h, mem)[p]
    {
      OtherBytes(h.table[Slot(h, p)], e, mem, now);
    }
    hide BytesOf;
  }

  lemma OtherBytes(d: Entry, e: Entry, mem: seq<Byte>, now: seq<Byte>)
    requires |mem| == |now| == REACH
    requires Separate(e.offset, e.size, d.offset, d.size)
    requires forall a | 0 <= a < REACH && !(e.offset <= a < e.offset + e.size) :: now[a] == mem[a]
    ensures BytesOf(d, now) == BytesOf(d, mem)
  {
  }

  /** The pointer `realloc` returns, 0 for NULL. */
  function RegrowResult(h: Heap, src: int, size: U16): int {
    var i := FirstAt(h.table, (src - HEAP_BASE) % LAP);
    if src == 0 then (if size == 0 || AllLive(h) then 0 else HEAP_BASE + h.top)
    else if size == 0 || i == |h.table| then 0
    else if size <= h.table[i].size then src
    else if AllLive(h) then 0
    else HEAP_BASE + h.top
  }

  /** The error `realloc` leaves. */
  function RegrowError(h: Heap, src: int, size: U16): MemError {
    var i := FirstAt(h.table, (src - HEAP_BASE) % LAP);
    if src == 0 then (if size == 0 then ZeroSize else if AllLive(h) then NoMetadata else Ok)
    else if size == 0 then (if i == |h.table| then InvalidPtr else Ok)
    else if i == |h.table| then ReallocNotFound
    else if size > h.table[i].size && AllLive(h) then NoMetadata
    else Ok
  }

  /** What a caller sees of a `realloc` of the live pointer `src` with result `p`: freed for nothing;
      in place if the block is large enough; else NULL and no change exactly if all slots are taken; else
      the old bytes in a new block and the old block gone. */
  ghost predicate Regrown(was: map<int, seq<Byte>>, now: map<int, seq<Byte>>, src: int, size: U16, p: int)
    requires src in was
  {
    if size == 0 then p == 0 && now == was - {src}
    else if size <= |was[src]| then p == src && now == was
    else if |was| == MAX_ENTRIES then p == 0 && now == was
    else
      && p != 0 && p !in was && src !in now
      && p in now && |now[p]| == Rounded(size) && size <= |now[p]| && was[src] <= now[p]
      && now == (was - {src})[p := now[p]]
  }

  lemma RoundedCovers(h: Heap, size: U16)
    requires |h.table| == |h.start| && Fits(h, size)
    ensures size <= Rounded(size)
  {
  }

  lemma TrackedLengths(h: Heap)
    requires Tracked(h) || Sound(h)
    ensures |h.table| == |h.start| == MAX_ENTRIES
  {
  }

  /** The bytes as `realloc` leaves them when it moves the block at `src`: those of the old block
      at the start of the new one, nothing else changed. */
  ghost predicate CopiedOver(h: Heap, mem: seq<Byte>, now: seq<Byte>, i: nat)
    requires i < |h.table| && |mem| == |now| == REACH
  {
    var d, e := h.top, h.table[i];
    Separate(d, e.size, e.offset, e.size) ==>
      && now[d..d + e.size] == mem[e.offset..e.offset + e.size]
      && (forall a | 0 <= a < REACH && !(d <= a < d + e.size) :: now[a] == mem[a])
  }

  /** `n` bytes from `s` on are now also at `d`, and nothing else has changed. */
  ghost predicate Copied(mem: seq<Byte>, now: seq<Byte>, d: nat, s: nat, n: nat)
    requires |mem| == |now| && d + n <= |mem| && s + n <= |mem|
  {
    && now[d..d + n] == mem[s..s + n]
    && (forall a | 0 <= a < |mem| && !(d <= a < d + n) :: now[a] == mem[a])
  }

  lemma CopiedIs(h: Heap, mem: seq<Byte>, now: seq<Byte>, i: nat)
    requires i < |h.table| && |mem| == |now| == REACH
    requires var e := h.table[i];
             Separate(h.top, e.size, e.offset, e.size) ==> Copied(mem, now, h.top, e.offset, e.size)
    ensures CopiedOver(h, mem, now, i)
  {
  }

  /** The slots of the old and of the new block while both are live. */
  lemma MovedSlots(h: Heap, i: nat, size: U16)
    requires Sound(h) && Fits(h, size) && Live(h, i) && h.table[i].size < size && !AllLive(h)
    ensures var g := Alloc(h, size); var k := FirstAt(h.table, FREE);
            && Sound(g) && k < |h.table| && k != i
            && Live(g, k) && g.table[k] == Entry(h.top, Rounded(size))
            && Live(g, i) && g.table[i] == h.table[i]
            && h.table[i].offset != h.top
            && Separate(h.top, Rounded(size), h.table[i].offset, h.table[i].size)
            && h.table[i].size < size <= Rounded(size)
  {
    RoundedCovers(h, size);
    TrackedLengths(h);
    SlotFreeIff(h);
    OffsetsNeverMarker(h, size);
    AllocSound(h, size);
    hide Sound, Fits, FirstAt, Tracked;
    OthersApart(Alloc(h, size), FirstAt(h.table, FREE));
  }

  lemma MovedBytes(d: Entry, e: Entry, mem: seq<Byte>, now: seq<Byte>)
    requires |mem| == |now| == REACH && e.size <= d.size
    requires now[d.offset..d.offset + e.size] == mem[e.offset..e.offset + e.size]
    ensures BytesOf(e, mem) <= BytesOf(d, now) && |BytesOf(d, now)| == d.size
  {
    assert BytesOf(d, now)[..e.size] == now[d.offset..d.offset + e.size];
  }

  lemma MovedMap(was: map<int, seq<Byte>>, mid: seq<Byte>, bs: seq<Byte>, src: int, size: U16, dst: int)
    requires src in was && dst !in was && dst != 0 && |was[src]| < size && |was| != MAX_ENTRIES
    requires was[src] <= bs && size <= |bs| == Rounded(size)
    ensures Regrown(was, was[dst := mid][dst := bs] - {src}, src, size, dst)
  {
  }

  /** Moving a block keeps its bytes at the new pointer and changes no other block. */
  lemma Moved(h: Heap, mem: seq<Byte>, now: seq<Byte>, src: int, size: U16)
    requires Sound(h) && Fits(h, size) && |mem| == |now| == REACH && src in Blocks(h, mem)
    requires !AllLive(h) && h.table[Slot(h, src)].size < size
    requires CopiedOver(h, mem, now, Slot(h, src))
    ensures |h.table| == |h.start|
    ensures var g := Release(Alloc(h, size), src - HEAP_BASE);
            Sound(g) && Regrown(Blocks(h, mem), Blocks(g, now), src, size, HEAP_BASE + h.top)
  {
    hide Blocks, Slot, CopiedOver, Sound, Fits, FirstAt, AllLive, Regrown, Separate;
    FullIffAllLive(h, mem);
    var i, k := Slot(h, src), FirstAt(h.table, FREE);
    BlockOf(h, mem, src);
    TrackedLengths(h);
    MovedSlots(h, i, size);
    AllocAdds(h, mem, size);
    hide Rounded, Alloc, Release;
    var g := Alloc(h, size);
    var d, e := g.table[k], h.table[i];
    CopiedBytes(h, mem, now, i, d);
    WriteStays(g, mem, now, k);
    ReleaseSound(g, e.offset);
    ReleaseRemoves(g, now, e.offset);
    MovedMap(Blocks(h, mem), BytesOf(d, mem), BytesOf(d, now), src, size, HEAP_BASE + h.top);
  }

  lemma BlockOf(h: Heap, mem: seq<Byte>, p: int)
    requires |mem| == REACH && p in Blocks(h, mem)
    ensures Slot(h, p) < |h.table| && Live(h, Slot(h, p))
    ensures HEAP_BASE + h.table[Slot(h, p)].offset == p
    ensures Blocks(h, mem)[p] == BytesOf(h.table[Slot(h, p)], mem)
    ensures |Blocks(h, mem)[p]| == h.table[Slot(h, p)].size
  {
  }

  lemma CopiedBytes(h: Heap, mem: seq<Byte>, now: seq<Byte>, i: nat, d: Entry)
    requires i < |h.table| && |mem| == |now| == REACH && CopiedOver(h, mem, now, i)
    requires d.offset == h.top && h.table[i].size <= d.size
    requires Separate(d.offset, d.size, h.table[i].offset, h.table[i].size)
    ensures BytesOf(h.table[i], mem) <= BytesOf(d, now) && |BytesOf(d, now)| == d.size
    ensures forall a | 0 <= a < REACH && !(d.offset <= a < d.offset + d.size) :: now[a] == mem[a]
  {
    MovedBytes(d, h.table[i], mem, now);
  }

  /** The table after `realloc(src, size)`. */
  function AfterRealloc(h: Heap, src: int, size: U16): Heap
    requires |h.table| == |h.start|
  {
    if src == 0 then Alloc(h, size) else Regrow(h, (src - HEAP_BASE) % LAP, size)
  }

  /** The heap bytes around `realloc(src, size)`: only a block that moves is written. */
  ghost predicate ReallocBytes(h: Heap, mem: seq<Byte>, now: seq<Byte>, src: int, size: U16)
    requires |mem| == |now| == REACH
  {
    var i := FirstAt(h.table, (src - HEAP_BASE) % LAP);
    if src == 0 || size == 0 || i == |h.table| || size <= h.table[i].size || AllLive(h)
    then now == mem
    else CopiedOver(h, mem, now, i)
  }

  /** What a caller sees of a `realloc` of a live pointer within the window: its bytes are kept
      wherever the block ends up, NULL leaves it live, and no other block changes. */
  lemma ReallocView(h: Heap, mem: seq<Byte>, now: seq<Byte>, src: int, size: U16)
    requires Sound(h) && |mem| == |now| == REACH && src in Blocks(h, mem)
    requires |h.table| == |h.start| && (Outgrown(h, src - HEAP_BASE, size) ==> Fits(h, size))
    requires ReallocBytes(h, mem, now, src, size)
    ensures var g := AfterRealloc(h, src, size);
            Sound(g) && Regrown(Blocks(h, mem), Blocks(g, now), src, size, RegrowResult(h, src, size))
  {
    hide Sound, Fits, Blocks, CopiedOver, Slot, Alloc, Release, FirstAt, AllLive;
    BlockOf(h, mem, src);
    FullIffAllLive(h, mem);
    SlotIsFirst(h, src);
    TrackedLengths(h);
    SlotFreeIff(h);
    var i := Slot(h, src);
    if size == 0 {
      ReleaseSound(h, src - HEAP_BASE);
      ReleaseRemoves(h, mem, src - HEAP_BASE);
    } else if h.table[i].size < size && !AllLive(h) {
      hide Regrown;
      Moved(h, mem, now, src, size);
    }
  }

  /** Memory with `n` bytes from `d` on set to zero. */
  ghost predicate ZeroedAt(mem: seq<Byte>, now: seq<Byte>, d: int, n: int) {
    && |now| == |mem|
    && forall a | 0 <= a < |mem| :: now[a] == if d <= a < d + n then 0 else mem[a]
  }

  /** What a caller sees of a `zalloc` with result `p`. */
  ghost predicate ZeroAdded(was: map<int, seq<Byte>>, now: map<int, seq<Byte>>, size: U16, p: int) {
    && (p == 0 <==> size == 0 || |was| == MAX_ENTRIES)
    && (p == 0 ==> now == was)
    && (p != 0 ==>
          && p !in was && p in now
          && |now[p]| == Rounded(size) && size <= |now[p]|
          && (forall a :: 0 <= a < size ==> now[p][a] == 0)
          && now == was[p := now[p]])
  }

  /** Within the window `zalloc` adds a block of zeros and changes no other block. */
  lemma ZallocView(h: Heap, mem: seq<Byte>, now: seq<Byte>, size: U16)
    requires Sound(h) && Fits(h, size) && |mem| == |now| == REACH && size != 0
    requires !AllLive(h) && ZeroedAt(mem, now, h.top, size)
    ensures |h.table| == |h.start| && Sound(Alloc(h, size))
    ensures ZeroAdded(Blocks(h, mem), Blocks(Alloc(h, size), now), size, HEAP_BASE + h.top)
  {
    hide Sound, Fits, Blocks, FirstAt, Rounded, ZeroedAt, ZeroAdded, AllLive;
    TrackedLengths(h);
    FullIffAllLive(h, mem);
    RoundedCovers(h, size);
    AllocSound(h, size);
    AllocAdds(h, mem, size);
    AllocSlot(h, size);
    hide Alloc;
    var g, k := Alloc(h, size), FirstAt(h.table, FREE);
    var d := g.table[k];
    ZeroedBytes(d, mem, now, size);
    WriteStays(g, mem, now, k);
    ZeroedMap(Blocks(h, mem), BytesOf(d, mem), BytesOf(d, now), size, HEAP_BASE + h.top);
  }

  lemma AllocSlot(h: Heap, size: U16)
    requires Sound(h) && size != 0 && !AllLive(h)
    ensures |h.table| == |h.start|
    ensures var g := Alloc(h, size); var k := FirstAt(h.table, FREE);
            k < |g.table| && Live(g, k) && g.table[k] == Entry(h.top, Rounded(size))
  {
    TrackedLengths(h);
    SlotFreeIff(h);
    OffsetsNeverMarker(h, size);
  }

  lemma ZeroedBytes(d: Entry, mem: seq<Byte>, now: seq<Byte>, n: U16)
    requires |mem| == |now| == REACH && n <= d.size && ZeroedAt(mem, now, d.offset, n)
    ensures |BytesOf(d, now)| == d.size && forall a :: 0 <= a < n ==> BytesOf(d, now)[a] == 0
    ensures forall a | 0 <= a < REACH && !(d.offset <= a < d.offset + d.size) :: now[a] == mem[a]
  {
  }

  lemma NothingZeroed(was: map<int, seq<Byte>>, now: map<int, seq<Byte>>, size: U16)
    requires Added(was, now, size, 0)
    ensures ZeroAdded(was, now, size, 0)
  {
  }

  lemma ZeroedMap(was: map<int, seq<Byte>>, mid: seq<Byte>, bs: seq<Byte>, size: U16, p: int)
    requires p != 0 && p !in was && size != 0 && |was| != MAX_ENTRIES
    requires size <= |bs| == Rounded(size) && forall a :: 0 <= a < size ==> bs[a] == 0
    ensures ZeroAdded(was, was[p := mid][p := bs], size, p)
  {
  }

  lemma NoneAtFirst(mem: seq<Byte>, p: int)
    requires |mem| == REACH
    ensures p !in Blocks(EMPTY, mem)
  {
    hide BytesOf;
  }

  lemma ErrorSeen(h: Heap, mem: seq<Byte>, src: int, size: U16)
    requires Sound(h) && |mem| == REACH && src in Blocks(h, mem)
    ensures src != 0
    ensures RegrowError(h, src, size) == if size == 0 || RegrowResult(h, src, size) != 0 then Ok else NoMetadata
  {
    hide Sound, Blocks, Slot, AllLive;
    BlockOf(h, mem, src);
    SlotIsFirst(h, src);
  }

  /** `realloc` of NULL is `malloc`. */
  lemma ReallocNull(h: Heap, mem: seq<Byte>, now: seq<Byte>, size: U16)
    requires |h.table| == |h.start| && |mem| == |now| == REACH && ReallocBytes(h, mem, now, 0, size)
    ensures now == mem && AfterRealloc(h, 0, size) == Alloc(h, size)
    ensures RegrowResult(h, 0, size) == if size == 0 || AllLive(h) then 0 else HEAP_BASE + h.top
  {
  }

  lemma BlockOffset(h: Heap, mem: seq<Byte>, p: int)
    requires |mem| == REACH && p in Blocks(h, mem)
    ensures (p - HEAP_BASE) % LAP == p - HEAP_BASE
  {
    hide Slot, BytesOf, Blocks;
    InReach(h, mem, p);
  }

  lemma InReach(h: Heap, mem: seq<Byte>, p: int)
    requires |mem| == REACH && p in Blocks(h, mem)
    ensures HEAP_BASE <= p < HEAP_BASE + LAP
  {
  }

  lemma SlotIsFirst(h: Heap, p: int)
    requires Slot(h, p) < |h.table|
    ensures HEAP_BASE <= p < HEAP_BASE + FREE && FirstAt(h.table, p - HEAP_BASE) == Slot(h, p)
  {
  }

  // ---------- the code ----------

  class Memory {
    const table: array<Entry>
    const bytes: array<Byte>
    var heapTop: U16
    var initialized: bool
    var lastError: MemError
    ghost var total: nat
    ghost var start: seq<nat>

    /** The table as the linker leaves it: not yet initialised. */
    constructor (table: array<Entry>, bytes: array<Byte>)
      requires table.Length == MAX_ENTRIES && bytes.Length == REACH
      ensures this.table == table && this.bytes == bytes
      ensures Valid() && !initialized
    {
      this.table := table;
      this.bytes := bytes;
      heapTop, initialized, lastError := 0, false, Ok;
    }

    ghost function H(): Heap
      reads this, table
    {
      if initialized then Heap(table[..], heapTop, total, start) else EMPTY
    }

    ghost predicate Valid()
      reads this, table
    {
      table.Length == MAX_ENTRIES && bytes.Length == REACH && Tracked(H())
    }

    /** What a caller holds: each pointer with its bytes. */
    ghost function View(): map<int, seq<Byte>>
      requires Valid()
      reads this, table, bytes
    {
      Blocks(H(), bytes[..])
    }

    method MemInit()
      requires Valid() && !initialized
      modifies this, table
      ensures Valid() && initialized && H() == EMPTY
      ensures lastError == old(lastError)
    {
      for i := 0 to MAX_ENTRIES
        modifies table
        invariant forall j :: 0 <= j < i ==> table[j] == Entry(FREE, 0)
      {
        table[i] := Entry(FREE, 0);
      }
      heapTop := 0;
      initialized := true;
      total, start := 0, EMPTY.start;
      assert table[..] == EMPTY.table;
    }

    /** Returns 0 for NULL. Fails exactly on a zero size or a full table; otherwise the new block
        begins at the bump pointer, and within the window it joins the view without touching any
        other block. */
    method Malloc(size: U16) returns (p: int)
      requires Valid()
      modifies this, table
      ensures Valid() && initialized
      ensures H() == Alloc(old(H()), size)
      ensures p == if size == 0 || AllLive(old(H())) then 0 else HEAP_BASE + old(H()).top
      ensures lastError == if size == 0 then ZeroSize else if AllLive(old(H())) then NoMetadata else Ok
      ensures old(Sound(H()) && Fits(H(), size)) ==> Sound(H()) && Added(old(View()), View(), size, p)
    {
      hide Sound, Fits, Blocks, Added;
      ghost var h := H();
      ghost var q := if size == 0 || AllLive(h) then 0 else HEAP_BASE + h.top;
      if Sound(h) && Fits(h, size) {
        AllocView(h, bytes[..], size, q);
      }
      p := Take(size);
    }

    /** The code of `malloc`. */
    method Take(size: U16) returns (p: int)
      requires Valid()
      modifies this, table
      ensures Valid() && initialized
      ensures H() == Alloc(old(H()), size)
      ensures p == if size == 0 || AllLive(old(H())) then 0 else HEAP_BASE + old(H()).top
      ensures lastError == if size == 0 then ZeroSize else if AllLive(old(H())) then NoMetadata else Ok
    {
      if !initialized {
        MemInit();
      }
      if size == 0 {
        lastError := ZeroSize;
        return 0;
      }
      var n: U16 := size;
      if n % 2 == 1 {
        n := (n + 1) % LAP;
      }
      if HEAP_BASE + heapTop + n > HEAP_LIMIT {
        // HeapExhausted: never reached, as NeverExhausted shows.
        NeverExhausted(heapTop, n);
        assert false;
      }
      p := FillFirst(size, n);
    }

    /** The loop of `malloc`: the first free slot takes the next `n` bytes. */
    method FillFirst(ghost size: U16, n: U16) returns (p: int)
      requires Valid() && initialized && size != 0 && n == Rounded(size)
      modifies this, table
      ensures Valid() && initialized
      ensures H() == Alloc(old(H()), size)
      ensures p == if AllLive(old(H())) then 0 else HEAP_BASE + old(heapTop)
      ensures lastError == if AllLive(old(H())) then NoMetadata else Ok
    {
      hide Tracked, FirstAt, AllLive, Rounded;
      ghost var h := H();
      TrackedLengths(h);
      AllocTracked(h, size);
      SlotFreeIff(h);
      var i := Scan(FREE);
      if i < MAX_ENTRIES {
        table[i] := Entry(heapTop, n);
        p := HEAP_BASE + heapTop;
        total, start := total + n, start[i := total];
        heapTop := (heapTop + n) % LAP;
        lastError := Ok;
      } else {
        lastError := NoMetadata;
        p := 0;
      }
    }

    /** The scan each operation makes for the first slot with a given offset field. */
    method Scan(off: U16) returns (i: nat)
      requires table.Length == MAX_ENTRIES
      ensures i == FirstAt(table[..], off)
    {
      i := 0;
      while i < MAX_ENTRIES
        invariant i <= MAX_ENTRIES
        invariant forall j :: 0 <= j < i ==> table[j].offset != off
      {
        if table[i].offset == off {
          FirstAtIs(table[..], off, i);
          return;
        }
        i := i + 1;
      }
      FirstAtNone(table[..], off);
    }

    /** The offset of a pointer, cut to 16 bits. */
    function Offset(p: int): U16 {
      (p - HEAP_BASE) % LAP
    }

    method Free(p: int)
      requires Valid()
      modifies this, table
      ensures Valid() && initialized == old(initialized)
      ensures H() == if p == 0 then old(H()) else Release(old(H()), Offset(p))
      ensures p != 0 ==>
                lastError == if FirstAt(old(table[..]), Offset(p)) < MAX_ENTRIES then Ok else InvalidPtr
      ensures old(Sound(H())) ==>
                && Sound(H())
                && View() == if p == 0 then old(View()) else old(View()) - {HEAP_BASE + Offset(p)}
    {
      ghost var h := H();
      hide Sound, Blocks, Release, FirstAt;
      if Sound(h) && p != 0 {
        ReleaseSound(h, Offset(p));
        ReleaseRemoves(h, bytes[..], Offset(p));
      }
      Drop(p);
    }

    /** The code of `free`. */
    method Drop(p: int)
      requires Valid()
      modifies this, table
      ensures Valid() && initialized == old(initialized)
      ensures H() == if p == 0 then old(H()) else Release(old(H()), Offset(p))
      ensures p != 0 ==>
                lastError == if FirstAt(old(table[..]), Offset(p)) < MAX_ENTRIES then Ok else InvalidPtr
    {
      hide Tracked, FirstAt;
      TrackedLengths(H());
      if p == 0 {
        return;
      }
      var off := Offset(p);
      ReleaseTracked(H(), off);
      ReleaseEmpty(off);
      var i := Scan(off);
      if i < MAX_ENTRIES {
        table[i] := Entry(FREE, 0);
        lastError := Ok;
      } else {
        lastError := InvalidPtr;
      }
    }

    static lemma ReleaseEmpty(off: U16)
      ensures Release(EMPTY, off) == EMPTY
    {
    }

    static lemma ReleaseTracked(h: Heap, off: U16)
      requires Tracked(h)
      ensures Tracked(Release(h, off))
    {
      var i := FirstAt(h.table, off);
      if i < |h.table| {
        var t := Clear(h, i);
        assert forall j :: Live(t, j) ==> Live(h, j) && t.table[j] == h.table[j];
      }
    }

    /** The byte loop of `realloc`. */
    method Copy(d: nat, s: nat, n: nat)
      requires d + n <= bytes.Length && s + n <= bytes.Length
      modifies bytes
      ensures Separate(d, n, s, n) ==> Copied(old(bytes[..]), bytes[..], d, s, n)
    {
      ghost var was := bytes[..];
      for j := 0 to n
        invariant Separate(d, n, s, n) ==>
                    && bytes[d..d + j] == was[s..s + j]
                    && (forall a | 0 <= a < bytes.Length && !(d <= a < d + j) :: bytes[a] == was[a])
      {
        bytes[d + j] := bytes[s + j];
      }
    }

    /** Grows the block at `src`, moving it if it must. A NULL result leaves every block live and
        unchanged unless the request was for zero bytes; otherwise the block keeps all its bytes.
        For NULL it is `malloc`. */
    method Realloc(src: int, newSize: U16) returns (p: int)
      requires Valid()
      requires src != 0 && newSize != 0 ==> initialized
      requires src != 0 && newSize != 0 && Outgrown(H(), Offset(src), newSize) && !AllLive(H()) ==>
                 HEAP_BASE <= src < HEAP_BASE + LAP
      modifies this, table, bytes
      ensures Valid() && initialized == (src == 0 || old(initialized))
      ensures H() == AfterRealloc(old(H()), src, newSize)
      ensures p == RegrowResult(old(H()), src, newSize)
      ensures old(initialized) || src == 0 ==> lastError == RegrowError(old(H()), src, newSize)
      ensures ReallocBytes(old(H()), old(bytes[..]), bytes[..], src, newSize)
      ensures src == 0 && old(Sound(H()) && Fits(H(), newSize)) ==>
                Sound(H()) && Added(old(View()), View(), newSize, p)
      ensures src != 0 && old(Sound(H()) && (Outgrown(H(), Offset(src), newSize) ==> Fits(H(), newSize))
                              && src in View()) ==>
                && Sound(H()) && Regrown(old(View()), View(), src, newSize, p)
                && lastError == if newSize == 0 || p != 0 then Ok else NoMetadata
    {
      hide Sound, Fits, Blocks, Tracked, Regrown, Added, AfterRealloc, ReallocBytes, RegrowResult, RegrowError;
      ghost var h, was := H(), bytes[..];
      TrackedLengths(h);
      p := Resize(src, newSize);
      if src == 0 {
        ReallocNull(h, was, bytes[..], newSize);
        if Sound(h) && Fits(h, newSize) {
          AllocView(h, was, newSize, p);
        }
      } else if Sound(h) && src in Blocks(h, was) {
        NoneAtFirst(was, src);
        BlockOffset(h, was, src);
        if Outgrown(h, Offset(src), newSize) ==> Fits(h, newSize) {
          ReallocView(h, was, bytes[..], src, newSize);
          ErrorSeen(h, was, src, newSize);
        }
      }
    }

    /** The code of `realloc`. */
    method Resize(src: int, newSize: U16) returns (p: int)
      requires Valid()
      requires src != 0 && newSize != 0 ==> initialized
      requires src != 0 && newSize != 0 && Outgrown(H(), Offset(src), newSize) && !AllLive(H()) ==>
                 HEAP_BASE <= src < HEAP_BASE + LAP
      modifies this, table, bytes
      ensures Valid() && initialized == (src == 0 || old(initialized))
      ensures H() == AfterRealloc(old(H()), src, newSize)
      ensures p == RegrowResult(old(H()), src, newSize)
      ensures old(initialized) || src == 0 ==> lastError == RegrowError(old(H()), src, newSize)
      ensures ReallocBytes(old(H()), old(bytes[..]), bytes[..], src, newSize)
    {
      hide Tracked, FirstAt, AllLive, Separate, Release, Alloc, Rounded;
      TrackedLengths(H());
      SlotFreeIff(H());
      if src == 0 {
        p := Take(newSize);
        return;
      }
      if newSize == 0 {
        Drop(src);
        return 0;
      }
      var i := Scan(Offset(src));
      if i == MAX_ENTRIES {
        lastError := ReallocNotFound;
        return 0;
      }
      var oldSize := table[i].size;
      if newSize <= oldSize {
        lastError := Ok;
        return src;
      }
      p := Move(src, i, newSize);
    }

    /** The rest of `realloc`: a new block, the old block's bytes, and the old block freed. */
    method Move(src: int, i: nat, newSize: U16) returns (p: int)
      requires Valid() && initialized
      requires !AllLive(H()) ==> HEAP_BASE <= src < HEAP_BASE + LAP
      requires i == FirstAt(table[..], Offset(src)) < MAX_ENTRIES
      requires table[i].size < newSize
      modifies this, table, bytes
      ensures Valid() && initialized
      ensures H() == if AllLive(old(H())) then old(H())
                     else Release(Alloc(old(H()), newSize), Offset(src))
      ensures p == if AllLive(old(H())) then 0 else HEAP_BASE + old(heapTop)
      ensures lastError == if AllLive(old(H())) then NoMetadata else Ok
      ensures if AllLive(old(H())) then bytes[..] == old(bytes[..])
              else CopiedOver(old(H()), old(bytes[..]), bytes[..], i)
    {
      hide Tracked, FirstAt, AllLive, Release, Alloc, Rounded, Separate, CopiedOver, EMPTY;
      ghost var h, was := H(), bytes[..];
      TrackedLengths(h);
      SlotFreeIff(h);
      var oldSize := table[i].size;
      p := Take(newSize);
      if p != 0 {
        Replace(p - HEAP_BASE, src, oldSize);
        CopiedIs(h, was, bytes[..], i);
      } else {
        AllocNothing(h, newSize);
      }
    }

    /** The bytes copied and the old block freed. */
    method Replace(d: nat, src: int, n: U16)
      requires Valid() && initialized && HEAP_BASE <= src < HEAP_BASE + LAP && d < LAP
      modifies this, table, bytes
      ensures Valid() && initialized && lastError == Ok
      ensures H() == Release(old(H()), Offset(src))
      ensures Separate(d, n, src - HEAP_BASE, n) ==>
                Copied(old(bytes[..]), bytes[..], d, src - HEAP_BASE, n)
    {
      hide Tracked, Release, Separate, Copied;
      Copy(d, src - HEAP_BASE, n);
      Drop(src);
      lastError := Ok;
    }

    /** As `malloc`, with the requested bytes zero; the byte added by rounding is not touched. */
    method Zalloc(size: U16) returns (p: int)
      requires Valid()
      modifies this, table, bytes
      ensures Valid() && initialized
      ensures H() == Alloc(old(H()), size)
      ensures p == if size == 0 || AllLive(old(H())) then 0 else HEAP_BASE + old(H()).top
      ensures if p == 0 then bytes[..] == old(bytes[..])
              else ZeroedAt(old(bytes[..]), bytes[..], p - HEAP_BASE, size)
      ensures old(Sound(H()) && Fits(H(), size)) ==>
                Sound(H()) && ZeroAdded(old(View()), View(), size, p)
    {
      hide Sound, Fits, Blocks, Tracked, AllLive, ZeroedAt, ZeroAdded, Added, Alloc, Rounded;
      ghost var h, was := H(), bytes[..];
      TrackedLengths(h);
      p := Take(size);
      if p == 0 {
        if Sound(h) && Fits(h, size) {
          AllocView(h, was, size, 0);
          NothingZeroed(Blocks(h, was), Blocks(Alloc(h, size), was), size);
        }
        return;
      }
      Zero(p - HEAP_BASE, size);
      if Sound(h) && Fits(h, size) {
        ZallocView(h, was, bytes[..], size);
      }
    }

    method Zero(d: nat, n: nat)
      requires d + n <= bytes.Length
      modifies bytes
      ensures ZeroedAt(old(bytes[..]), bytes[..], d, n)
    {
      for i := 0 to n
        invariant forall a | 0 <= a < bytes.Length ::
                    bytes[a] == if d <= a < d + i then 0 else old(bytes[a])
      {
        bytes[d + i] := 0;
      }
    }
  }
}
