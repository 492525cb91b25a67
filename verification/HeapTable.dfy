/** The metadata of kernel/MEMORY_MANAGMENT/memory_managment.c: a table of 1023 blocks and a 16-bit
    bump pointer that wraps. A total that never wraps is tracked beside them to say which blocks
    are apart. */
module HeapTable {
  import opened Ints

  const LAP := LIMIT16
  const FREE: U16 := 0xFFFF
  const HEAP_BASE := 0xF000
  const HEAP_SIZE := 0xF0000
  const HEAP_LIMIT := HEAP_BASE + HEAP_SIZE
  const MAX_ENTRIES := 0x0FFF / 4

  datatype Entry = Entry(offset: U16, size: U16)

  /** The table and bump pointer of the code; `total` is what was ever handed out, and `start[i]`
      the total when slot `i` was filled. */
  datatype Heap = Heap(table: seq<Entry>, top: U16, total: nat, start: seq<nat>)

  const EMPTY := Heap(seq(MAX_ENTRIES, i => Entry(FREE, 0)), 0, 0, seq(MAX_ENTRIES, i => 0))

  predicate Live(h: Heap, i: int) {
    0 <= i < |h.table| && h.table[i].offset != FREE
  }

  /** The bookkeeping agrees with the code's table: the bump pointer is the total cut to 16 bits,
      everything is even, and live blocks are apart when counted without wrapping. */
  ghost predicate Tracked(h: Heap) {
    && |h.table| == |h.start| == MAX_ENTRIES
    && h.top == h.total % LAP
    && h.total % 2 == 0
    && (forall i :: Live(h, i) ==> Placed(h, i))
    && (forall i, j :: Live(h, i) && Live(h, j) && i != j ==> InOrder(h, i, j))
  }

  predicate Placed(h: Heap, i: int)
    requires |h.table| == |h.start| && Live(h, i)
  {
    && h.table[i].offset == h.start[i] % LAP
    && h.table[i].size % 2 == 0 && h.start[i] % 2 == 0
    && h.start[i] + h.table[i].size <= h.total
  }

  predicate InOrder(h: Heap, i: int, j: int)
    requires |h.table| == |h.start| && Live(h, i) && Live(h, j)
  {
    h.start[i] + h.table[i].size <= h.start[j] || h.start[j] + h.table[j].size <= h.start[i]
  }

  /** No live block is empty, and the oldest one began at most one lap ago. */
  ghost predicate InWindow(h: Heap)
    requires |h.table| == |h.start|
  {
    forall i :: Live(h, i) ==> h.table[i].size > 0 && h.total - h.start[i] <= LAP
  }

  ghost predicate Sound(h: Heap) {
    Tracked(h) && InWindow(h)
  }

  // ---------- the operations on the table ----------

  /** Requests are rounded up to an even size, in 16 bits. */
  function Rounded(size: U16): (r: U16)
    ensures r % 2 == 0
    ensures size < 0xFFFF ==> size <= r <= size + 1
  {
    if size % 2 == 1 then (size + 1) % LAP else size
  }

  /** The first slot whose offset field is `off`, or the table's length. */
  function FirstAt(table: seq<Entry>, off: U16): (i: nat)
    ensures i <= |table|
    ensures i < |table| ==> table[i].offset == off
    ensures forall j :: 0 <= j < i ==> table[j].offset != off
  {
    if table == [] then 0
    else if table[0].offset == off then 0
    else 1 + FirstAt(table[1..], off)
  }

  lemma FirstAtIs(table: seq<Entry>, off: U16, i: nat)
    requires i < |table| && table[i].offset == off
    requires forall j :: 0 <= j < i ==> table[j].offset != off
    ensures FirstAt(table, off) == i
  {
  }

  lemma FirstAtNone(table: seq<Entry>, off: U16)
    requires forall j :: 0 <= j < |table| ==> table[j].offset != off
    ensures FirstAt(table, off) == |table|
  {
  }

  predicate AllLive(h: Heap) {
    forall i :: 0 <= i < |h.table| ==> Live(h, i)
  }

  /** `malloc` of a non-zero size when slot `i` is the first free one. */
  function Fill(h: Heap, i: nat, size: U16): Heap
    requires i < |h.table| == |h.start|
  {
    var n := Rounded(size);
    Heap(h.table[i := Entry(h.top, n)], (h.top + n) % LAP, h.total + n, h.start[i := h.total])
  }

  function Alloc(h: Heap, size: U16): Heap
    requires |h.table| == |h.start|
  {
    var i := FirstAt(h.table, FREE);
    if size == 0 || i == |h.table| then h else Fill(h, i, size)
  }

  function Clear(h: Heap, i: nat): Heap
    requires i < |h.table|
  {
    h.(table := h.table[i := Entry(FREE, 0)])
  }

  function Release(h: Heap, off: U16): Heap {
    var i := FirstAt(h.table, off);
    if i == |h.table| then h else Clear(h, i)
  }

  /** The condition on an allocation: counted without wrapping, the new block ends at most one lap
      after the oldest live block began; and the size is not the one that rounds to nothing. */
  ghost predicate Fits(h: Heap, size: U16)
    requires |h.table| == |h.start|
  {
    && size != 0xFFFF
    && forall i :: Live(h, i) ==> h.total + Rounded(size) - h.start[i] <= LAP
  }

  // ---------- real addresses ----------

  /** Blocks at real addresses [a, a + m) and [b, b + n) have no byte in common. */
  predicate Separate(a: int, m: int, b: int, n: int) {
    a + m <= b || b + n <= a
  }

  /** Slots `i` and `j` hold disjoint stretches of real memory. A block may run past the end of its
      lap; it is not split. */
  predicate RealDisjoint(h: Heap, i: int, j: int)
    requires Live(h, i) && Live(h, j)
  {
    Separate(h.table[i].offset, h.table[i].size, h.table[j].offset, h.table[j].size)
  }

  lemma EmptySound()
    ensures Sound(EMPTY)
  {
  }

  /** A block that ends within one lap of where an earlier block began is disjoint from it, whether
      or not the bump pointer wrapped between them. */
  lemma WindowSeparates(s: nat, m: nat, t: nat, n: nat)
    requires m > 0 && n > 0 && s + m <= t && t + n <= s + LAP
    ensures Separate(s % LAP, m, t % LAP, n)
  {
    assert s == s / LAP * LAP + s % LAP;
    assert t == t / LAP * LAP + t % LAP;
    assert t / LAP == s / LAP || t / LAP == s / LAP + 1;
  }

  /** Any two live blocks are disjoint in real addresses. */
  lemma LiveDisjoint(h: Heap, i: int, j: int)
    requires Sound(h) && Live(h, i) && Live(h, j) && i != j
    ensures RealDisjoint(h, i, j)
    ensures h.table[i].offset != h.table[j].offset
  {
    if h.start[i] <= h.start[j] {
      WindowSeparates(h.start[i], h.table[i].size, h.start[j], h.table[j].size);
    } else {
      WindowSeparates(h.start[j], h.table[j].size, h.start[i], h.table[i].size);
    }
  }

  // ---------- one operation ----------

  lemma AllocTracked(h: Heap, size: U16)
    requires Tracked(h)
    ensures Tracked(Alloc(h, size))
  {
    hide FirstAt;
    var k := FirstAt(h.table, FREE);
    if size != 0 && k < |h.table| {
      FillTracked(h, k, size);
    }
  }

  lemma FillTracked(h: Heap, k: nat, size: U16)
    requires Tracked(h) && k < |h.table| && !Live(h, k)
    ensures Tracked(Fill(h, k, size))
  {
    var g := Fill(h, k, size);
    forall i | Live(g, i)
      ensures Placed(g, i)
    {
      FillPlaced(h, k, size, i);
    }
    forall i, j | Live(g, i) && Live(g, j) && i != j
      ensures InOrder(g, i, j)
    {
      FillInOrder(h, k, size, i, j);
    }
    FillTotal(h, k, size);
    hide Fill, Live, Placed, InOrder;
  }

  lemma FillTotal(h: Heap, k: nat, size: U16)
    requires Tracked(h) && k < |h.table|
    ensures var g := Fill(h, k, size);
            |g.table| == |g.start| == MAX_ENTRIES && g.top == g.total % LAP && g.total % 2 == 0
  {
    hide Rounded, Live, Placed, InOrder;
    SumCut(h.total, Rounded(size));
  }

  /** Cutting before or after an addition to an even total is the same. */
  lemma SumCut(a: nat, n: nat)
    requires a % 2 == 0 && n % 2 == 0
    ensures (a % LAP + n) % LAP == (a + n) % LAP && (a + n) % 2 == 0
  {
    var q, r := a / LAP, a % LAP;
    assert a + n == q * LAP + (r + n);
  }

  lemma FillPlaced(h: Heap, k: nat, size: U16, i: int)
    requires Tracked(h) && k < |h.table| && !Live(h, k) && Live(Fill(h, k, size), i)
    ensures |Fill(h, k, size).start| == |Fill(h, k, size).table| && Placed(Fill(h, k, size), i)
  {
    assert i != k ==> Live(h, i) && Placed(h, i);
  }

  lemma FillInOrder(h: Heap, k: nat, size: U16, i: int, j: int)
    requires Tracked(h) && k < |h.table| && !Live(h, k)
    requires Live(Fill(h, k, size), i) && Live(Fill(h, k, size), j) && i != j
    ensures |Fill(h, k, size).start| == |Fill(h, k, size).table| && InOrder(Fill(h, k, size), i, j)
  {
    assert i != k ==> Live(h, i) && Placed(h, i);
    assert j != k ==> Live(h, j) && Placed(h, j);
    assert i != k && j != k ==> InOrder(h, i, j);
  }

  /** Within the window an allocation keeps every block apart. */
  lemma AllocSound(h: Heap, size: U16)
    requires Sound(h) && Fits(h, size)
    ensures Sound(Alloc(h, size))
  {
    AllocTracked(h, size);
  }

  lemma ReleaseSound(h: Heap, off: U16)
    requires Sound(h)
    ensures Sound(Release(h, off))
  {
    var i := FirstAt(h.table, off);
    if i < |h.table| {
      var t := Clear(h, i);
      assert forall j :: Live(t, j) ==> Live(h, j) && j != i && t.table[j] == h.table[j];
    }
  }

  /** The bump pointer never points at the free marker, so no live block looks free. */
  lemma OffsetsNeverMarker(h: Heap, size: U16)
    requires Tracked(h)
    ensures h.top % 2 == 0 && h.top != FREE
    ensures FirstAt(h.table, FREE) < |h.table| && size != 0 ==> Live(Alloc(h, size), FirstAt(h.table, FREE))
  {
    hide Placed, InOrder, Rounded;
    EvenCut(h.total);
  }

  lemma EvenCut(a: nat)
    requires a % 2 == 0
    ensures a % LAP % 2 == 0
  {
    assert a == a / LAP * LAP + a % LAP;
  }

  /** `malloc` finds a slot exactly when some slot is not live. */
  lemma SlotFreeIff(h: Heap)
    requires |h.table| == MAX_ENTRIES
    ensures FirstAt(h.table, FREE) == |h.table| == 1023 <==> AllLive(h)
  {
    var i := FirstAt(h.table, FREE);
    if i < |h.table| {
      assert !Live(h, i);
    }
  }

  /** The test against the end of the heap can never fail: 16-bit offsets stay far below it. */
  lemma NeverExhausted(top: U16, size: U16)
    ensures HEAP_BASE + top + size <= HEAP_LIMIT
    ensures HEAP_BASE == 0xF000 && HEAP_LIMIT == 0xF_F000
  {
  }

  // ---------- exactly when a new block collides ----------

  /** In a sound heap, the block the next allocation would return is disjoint from all live blocks
      exactly when no live block begins inside it. The blocks in its way can only be those of the
      previous lap that begin at or above the bump pointer. */
  lemma CollidesIff(h: Heap, n: U16)
    requires Sound(h) && n > 0
    ensures (forall i :: Live(h, i) ==> Separate(h.table[i].offset, h.table[i].size, h.top, n))
       <==> (forall i :: Live(h, i) ==> !(h.top <= h.table[i].offset < h.top + n))
  {
    forall i | Live(h, i)
      ensures Separate(h.table[i].offset, h.table[i].size, h.top, n)
         <==> !(h.top <= h.table[i].offset < h.top + n)
    {
      AgainstOne(h.start[i], h.table[i].size, h.total, n);
    }
  }

  lemma AgainstOne(s: nat, m: nat, t: nat, n: nat)
    requires m > 0 && n > 0 && s + m <= t <= s + LAP
    ensures Separate(s % LAP, m, t % LAP, n) <==> !(t % LAP <= s % LAP < t % LAP + n)
  {
    assert s == s / LAP * LAP + s % LAP;
    assert t == t / LAP * LAP + t % LAP;
    assert t / LAP == s / LAP || t / LAP == s / LAP + 1;
  }

  /** The window is needed: one block of a whole lap, less two bytes, and two small ones. */
  lemma BeyondWindowOverlaps()
    ensures var a := Alloc(EMPTY, 65534); var b := Alloc(a, 2); var c := Alloc(b, 2);
            && Sound(b) && !Fits(b, 2)
            && Live(c, 0) && Live(c, 2) && !RealDisjoint(c, 0, 2)
  {
    EmptySound();
    var a := Alloc(EMPTY, 65534);
    FirstAtIs(EMPTY.table, FREE, 0);
    AllocSound(EMPTY, 65534);
    FirstAtIs(a.table, FREE, 1);
    AllocSound(a, 2);
    var b := Alloc(a, 2);
    FirstAtIs(b.table, FREE, 2);
    assert Live(b, 0) && b.start[0] == 0 && b.total == 65536;
  }

  /** A request of 0xFFFF bytes rounds to nothing: the next block gets the same address. */
  lemma LargestRequestIsEmpty()
    ensures var a := Alloc(EMPTY, 0xFFFF); var b := Alloc(a, 2);
            && Live(b, 0) && Live(b, 1)
            && b.table[0] == Entry(0, 0) && b.table[1] == Entry(0, 2)
  {
    var a := Alloc(EMPTY, 0xFFFF);
    FirstAtIs(EMPTY.table, FREE, 0);
    FirstAtIs(a.table, FREE, 1);
  }

  // ---------- a malloc that is interrupted ----------

  /** `malloc` between filling its slot and moving the bump pointer. */
  function HalfFilled(h: Heap, size: U16): Heap
    requires FirstAt(h.table, FREE) < |h.table|
  {
    h.(table := h.table[FirstAt(h.table, FREE) := Entry(h.top, Rounded(size))])
  }

  /** Another `malloc` that runs there gets a block at the same address. */
  lemma InterruptedOverlaps(h: Heap, m: U16, n: U16)
    requires Tracked(h) && 0 < m < 0xFFFF && 0 < n < 0xFFFF
    requires FirstAt(h.table, FREE) < |h.table|
    requires FirstAt(HalfFilled(h, m).table, FREE) < |h.table|
    ensures |HalfFilled(h, m).table| == |h.start|
    ensures var g := Alloc(HalfFilled(h, m), n);
            var i := FirstAt(h.table, FREE); var j := FirstAt(HalfFilled(h, m).table, FREE);
            && i != j && Live(g, i) && Live(g, j)
            && g.table[i].offset == g.table[j].offset == h.top
            && !RealDisjoint(g, i, j)
  {
    hide Placed, InOrder, Rounded;
    OffsetsNeverMarker(h, m);
    RoundedPositive(m);
    RoundedPositive(n);
  }

  lemma RoundedPositive(size: U16)
    requires 0 < size < 0xFFFF
    ensures Rounded(size) > 0
  {
  }

  // ---------- runs ----------

  datatype Op = Malloc(size: U16) | Free(off: U16) | Realloc(off: U16, size: U16)

  /** The table after `realloc` of the block at `off`; `zalloc` is `malloc` here. */
  function Regrow(h: Heap, off: U16, size: U16): Heap
    requires |h.table| == |h.start|
  {
    if size == 0 then Release(h, off)
    else if !Outgrown(h, off, size) then h
    else if FirstAt(h.table, FREE) == |h.table| then h
    else Release(Alloc(h, size), off)
  }

  function Apply(h: Heap, op: Op): (r: Heap)
    requires |h.table| == |h.start|
    ensures |r.table| == |r.start| == |h.table|
  {
    match op
    case Malloc(size) => Alloc(h, size)
    case Free(off) => Release(h, off)
    case Realloc(off, size) => Regrow(h, off, size)
  }

  /** A block at `off` has to move to hold `size` bytes. */
  predicate Outgrown(h: Heap, off: U16, size: U16) {
    var i := FirstAt(h.table, off);
    i < |h.table| && h.table[i].size < size
  }

  /** The operation gets a new block. */
  predicate Allocates(h: Heap, op: Op) {
    match op
    case Malloc(size) => size != 0 && FirstAt(h.table, FREE) < |h.table|
    case Free(_) => false
    case Realloc(off, size) => Outgrown(h, off, size) && FirstAt(h.table, FREE) < |h.table|
  }

  /** Every operation that gets a new block does so within the window. */
  ghost predicate StaysInWindow(h: Heap, ops: seq<Op>)
    requires |h.table| == |h.start|
    decreases |ops|
  {
    ops != [] ==>
      && (Allocates(h, ops[0]) ==> Fits(h, ops[0].size))
      && StaysInWindow(Apply(h, ops[0]), ops[1..])
  }

  function After(h: Heap, ops: seq<Op>): Heap
    requires |h.table| == |h.start|
    decreases |ops|
  {
    if ops == [] then h else After(Apply(h, ops[0]), ops[1..])
  }

  lemma StepSound(h: Heap, op: Op)
    requires Sound(h) && |h.table| == |h.start| && (Allocates(h, op) ==> Fits(h, op.size))
    ensures Sound(Apply(h, op))
  {
    hide Sound, Fits, Alloc, Release, FirstAt;
    match op {
      case Malloc(size) =>
        if Allocates(h, op) {
          AllocSound(h, size);
        } else {
          AllocNone(h, size);
        }
      case Free(off) => ReleaseSound(h, off);
      case Realloc(off, size) =>
        ReleaseSound(h, off);
        if Allocates(h, op) {
          AllocSound(h, size);
          ReleaseSound(Alloc(h, size), off);
        }
    }
  }

  lemma AllocNone(h: Heap, size: U16)
    requires |h.table| == |h.start| && !Allocates(h, Malloc(size))
    ensures Alloc(h, size) == h
  {
  }

  lemma {:induction false} RunSound(h: Heap, ops: seq<Op>)
    requires Sound(h) && StaysInWindow(h, ops)
    ensures Sound(After(h, ops))
    decreases |ops|
  {
    if ops != [] {
      StepSound(h, ops[0]);
      RunSound(Apply(h, ops[0]), ops[1..]);
    }
  }

  /** Over every run within the window, wrapping included: live blocks are pairwise disjoint in real
      addresses, and the bump pointer is the even total cut to 16 bits. */
  lemma RunDisjoint(ops: seq<Op>, i: int, j: int)
    requires StaysInWindow(EMPTY, ops)
    ensures var h := After(EMPTY, ops);
            && h.top == h.total % LAP && h.top % 2 == 0
            && (Live(h, i) && Live(h, j) && i != j ==> RealDisjoint(h, i, j))
  {
    EmptySound();
    RunSound(EMPTY, ops);
    var h := After(EMPTY, ops);
    OffsetsNeverMarker(h, 0);
    if Live(h, i) && Live(h, j) && i != j {
      LiveDisjoint(h, i, j);
    }
  }
}
