/** `strsplit` of stage2/STRING/string.c: the pieces of a string, and the blocks it leaves allocated. */
module StrSplit {
  import opened Ints

  // ---------- the pieces ----------

  /** A maximal non-empty stretch without the delimiter. */
  predicate IsSpan(s: seq<Byte>, d: Byte, lo: int, hi: int) {
    && 0 <= lo < hi <= |s|
    && d !in s[lo..hi]
    && (lo == 0 || s[lo - 1] == d)
    && (hi == |s| || s[hi] == d)
  }

  datatype Span = Span(lo: nat, hi: nat)

  function Open(lo: nat, i: nat): seq<Span> {
    if lo < i then [Span(lo, i)] else []
  }

  /** The spans from position `i` on, when the stretch that ends there began at `lo`. */
  function SpansFrom(s: seq<Byte>, d: Byte, lo: nat, i: nat): seq<Span>
    requires lo <= i <= |s|
    decreases |s| - i
  {
    if i == |s| then Open(lo, i)
    else if s[i] == d then Open(lo, i) + SpansFrom(s, d, i + 1, i + 1)
    else SpansFrom(s, d, lo, i + 1)
  }

  function Spans(s: seq<Byte>, d: Byte): seq<Span> {
    SpansFrom(s, d, 0, 0)
  }

  function Cut(s: seq<Byte>, spans: seq<Span>): (ps: seq<seq<Byte>>)
    requires forall k :: 0 <= k < |spans| ==> spans[k].lo <= spans[k].hi <= |s|
    ensures |ps| == |spans|
    ensures forall k :: 0 <= k < |ps| ==> ps[k] == s[spans[k].lo..spans[k].hi]
  {
    seq(|spans|, k requires 0 <= k < |spans| => s[spans[k].lo..spans[k].hi])
  }

  function Pieces(s: seq<Byte>, d: Byte): (ps: seq<seq<Byte>>)
    ensures |ps| == |Spans(s, d)|
    ensures forall k :: 0 <= k < |ps| ==>
              Spans(s, d)[k].lo <= Spans(s, d)[k].hi <= |s| && ps[k] == s[Spans(s, d)[k].lo..Spans(s, d)[k].hi]
  {
    SpansAre(s, d);
    Cut(s, Spans(s, d))
  }

  /** The spans are exactly the maximal non-empty stretches without the delimiter, in order. */
  lemma SpansAre(s: seq<Byte>, d: Byte)
    ensures forall k :: 0 <= k < |Spans(s, d)| ==> IsSpan(s, d, Spans(s, d)[k].lo, Spans(s, d)[k].hi)
    ensures forall lo, hi :: IsSpan(s, d, lo, hi) ==> Span(lo, hi) in Spans(s, d)
    ensures forall j, k :: 0 <= j < k < |Spans(s, d)| ==> Spans(s, d)[j].hi < Spans(s, d)[k].lo
  {
    assert d !in s[0..0];
    SpansFromAre(s, d, 0, 0);
    assert forall lo, hi :: IsSpan(s, d, lo, hi) ==> 0 <= lo;
  }

  lemma {:induction false} SpansFromAre(s: seq<Byte>, d: Byte, lo: nat, i: nat)
    requires lo <= i <= |s| && d !in s[lo..i] && (lo == 0 || s[lo - 1] == d)
    ensures var r := SpansFrom(s, d, lo, i);
            && (forall k :: 0 <= k < |r| ==> lo <= r[k].lo && IsSpan(s, d, r[k].lo, r[k].hi))
            && (forall x, y :: IsSpan(s, d, x, y) && lo <= x ==> Span(x, y) in r)
            && (forall j, k :: 0 <= j < k < |r| ==> r[j].hi < r[k].lo)
    decreases |s| - i
  {
    hide IsSpan, SpansFrom, Open;
    SpanLow(s, d);
    if i == |s| {
      LastSpan(s, d, lo, i);
      SpansFromEnd(s, d, lo, i);
      OneMore(s, d, lo, i, []);
    } else if s[i] == d {
      assert s[i + 1..i + 1] == [];
      var r := SpansFrom(s, d, i + 1, i + 1);
      SpansFromAre(s, d, i + 1, i + 1);
      LastSpan(s, d, lo, i);
      SpansFromEnd(s, d, lo, i);
      OneMore(s, d, lo, i, r);
    } else {
      assert s[lo..i + 1] == s[lo..i] + [s[i]];
      SpansFromAre(s, d, lo, i + 1);
      SpansFromChar(s, d, lo, i);
    }
  }

  lemma SpansFromEnd(s: seq<Byte>, d: Byte, lo: nat, i: nat)
    requires lo <= i <= |s|
    ensures i == |s| ==> SpansFrom(s, d, lo, i) == Open(lo, i) + []
    ensures i < |s| && s[i] == d ==> SpansFrom(s, d, lo, i) == Open(lo, i) + SpansFrom(s, d, i + 1, i + 1)
  {
    assert Open(lo, i) + [] == Open(lo, i);
  }

  lemma SpansFromChar(s: seq<Byte>, d: Byte, lo: nat, i: nat)
    requires lo <= i < |s| && s[i] != d
    ensures SpansFrom(s, d, lo, i) == SpansFrom(s, d, lo, i + 1)
  {
  }

  /** The span of a finished stretch before the spans after it. */
  lemma OneMore(s: seq<Byte>, d: Byte, lo: nat, i: nat, r: seq<Span>)
    requires lo <= i <= |s|
    requires lo < i ==> IsSpan(s, d, lo, i)
    requires forall x, y :: IsSpan(s, d, x, y) && lo <= x <= i ==> x == lo && y == i && lo < i
    requires forall x, y :: IsSpan(s, d, x, y) ==> 0 <= x < y <= |s|
    requires forall k :: 0 <= k < |r| ==> i + 1 <= r[k].lo && IsSpan(s, d, r[k].lo, r[k].hi)
    requires forall x, y :: IsSpan(s, d, x, y) && i + 1 <= x ==> Span(x, y) in r
    requires forall j, k :: 0 <= j < k < |r| ==> r[j].hi < r[k].lo
    ensures var q := Open(lo, i) + r;
            && (forall k :: 0 <= k < |q| ==> lo <= q[k].lo && IsSpan(s, d, q[k].lo, q[k].hi))
            && (forall x, y :: IsSpan(s, d, x, y) && lo <= x ==> Span(x, y) in q)
            && (forall j, k :: 0 <= j < k < |q| ==> q[j].hi < q[k].lo)
  {
    hide IsSpan;
    var q := Open(lo, i) + r;
    forall x, y | IsSpan(s, d, x, y) && lo <= x
      ensures Span(x, y) in q
    {
      if x <= i {
        assert q[0] == Span(x, y);
      }
    }
  }

  /** A stretch that ends: the span it is, and no other span that begins in it. */
  lemma LastSpan(s: seq<Byte>, d: Byte, lo: nat, i: nat)
    requires lo <= i <= |s| && d !in s[lo..i] && (lo == 0 || s[lo - 1] == d)
    requires i == |s| || s[i] == d
    ensures lo < i ==> IsSpan(s, d, lo, i)
    ensures forall x, y :: IsSpan(s, d, x, y) && lo <= x <= i ==> x == lo && y == i && lo < i
  {
    forall x, y | IsSpan(s, d, x, y) && lo <= x <= i
      ensures x == lo && y == i
    {
      StartsAt(s, d, lo, i, x, y);
    }
  }

  lemma SpanLow(s: seq<Byte>, d: Byte)
    ensures forall x, y :: IsSpan(s, d, x, y) ==> 0 <= x < y <= |s|
  {
  }

  lemma NoneIn(s: seq<Byte>, d: Byte, lo: nat, hi: nat)
    requires lo <= hi <= |s| && d !in s[lo..hi]
    ensures forall k :: lo <= k < hi ==> s[k] != d
  {
    assert forall k :: lo <= k < hi ==> s[lo..hi][k - lo] == s[k];
  }

  /** A span that begins inside a stretch without delimiters that ends at one is that stretch. */
  lemma StartsAt(s: seq<Byte>, d: Byte, lo: nat, i: nat, x: int, y: int)
    requires lo <= i <= |s| && d !in s[lo..i] && (lo == 0 || s[lo - 1] == d)
    requires i == |s| || s[i] == d
    requires IsSpan(s, d, x, y) && lo <= x <= i
    ensures x == lo && y == i
  {
    NoneIn(s, d, lo, i);
    NoneIn(s, d, x, y);
  }

  /** A stretch begun is part of the first span to come. */
  lemma {:induction false} StretchCovered(s: seq<Byte>, d: Byte, lo: nat, i: nat)
    requires lo < i <= |s|
    ensures var r := SpansFrom(s, d, lo, i); r != [] && r[0].lo == lo && i <= r[0].hi
    decreases |s| - i
  {
    if i < |s| && s[i] != d {
      StretchCovered(s, d, lo, i + 1);
    }
  }

  // ---------- the heap it works on ----------

  /** Live blocks by pointer, each a sequence of cells: characters or pointers. Allocation may fail. */
  class Blocks {
    var live: map<nat, seq<int>>
    var next: nat
    ghost var refused: nat // calls of `realloc` that have returned NULL

    ghost predicate Valid()
      reads this
    {
      next > 0 && forall p :: p in live ==> 0 < p < next
    }

    /** `realloc` to `n` cells of `width` bytes: NULL leaves everything as it is; otherwise the cells
        are kept and the block may have moved. */
    method Realloc(p: nat, n: nat, width: nat) returns (q: nat)
      requires Valid() && (p == 0 || (p in live && |live[p]| <= n)) && 0 < n * width <= 65534
      modifies this
      ensures Valid() && refused == old(refused) + (if q == 0 then 1 else 0)
      ensures q == 0 ==> live == old(live)
      ensures q != 0 ==>
                && (q == p || q !in old(live))
                && q in live && |live[q]| == n
                && (p != 0 ==> old(live)[p] <= live[q])
                && live == (old(live) - {p})[q := live[q]]
    {
      var fails, moves, junk := *, *, *;
      if fails {
        refused := refused + 1;
        return 0;
      }
      var cells := if p == 0 then [] else live[p];
      var fill: int := junk;
      cells := cells + seq(n - |cells|, _ => fill);
      q := p;
      if p == 0 || moves {
        q := next;
        next := next + 1;
      }
      live := (live - {p})[q := cells];
    }

    method Store(p: nat, i: nat, x: int)
      requires Valid() && p in live && i < |live[p]|
      modifies this`live
      ensures Valid() && live == old(live)[p := old(live)[p][i := x]]
    {
      live := live[p := live[p][i := x]];
    }

    /** `free`; NULL is ignored. */
    method Free(p: nat)
      requires Valid()
      modifies this`live
      ensures Valid() && live == old(live) - {p}
    {
      live := live - {p};
    }
  }

  // ---------- the code ----------

  /** Sizes that fit the 16-bit arguments and counters of the code. */
  predicate SplitFits(s: seq<Byte>, d: Byte) {
    && |Spans(s, d)| <= 16383
    && forall k :: 0 <= k < |Spans(s, d)| ==> Spans(s, d)[k].hi - Spans(s, d)[k].lo <= 65533
  }

  function AsCString(piece: seq<Byte>): (cells: seq<int>)
    ensures |cells| == |piece| + 1 && cells[|piece|] == 0
    ensures forall i :: 0 <= i < |piece| ==> cells[i] == piece[i]
  {
    seq(|piece| + 1, i requires 0 <= i => if i < |piece| then piece[i] else 0)
  }

  function AsCells(part: seq<Byte>): seq<int> {
    seq(|part|, i requires 0 <= i < |part| => part[i])
  }

  /** The blocks `ps` hold the pieces as C strings, and the block `dest` the pointers to them. */
  ghost predicate Holds(live: map<nat, seq<int>>, dest: nat, ps: seq<nat>, pieces: seq<seq<Byte>>) {
    && |ps| == |pieces|
    && (ps == [] <==> dest == 0)
    && (dest != 0 ==> dest in live && live[dest] == ps && dest !in ps)
    && (forall k :: 0 <= k < |ps| ==> ps[k] != 0 && ps[k] in live && live[ps[k]] == AsCString(pieces[k]))
    && (forall j, k :: 0 <= j < k < |ps| ==> ps[j] != ps[k])
  }

  /** The live blocks are those of `was`, unchanged, and the ones in `own`. */
  ghost predicate Adds(was: map<nat, seq<int>>, live: map<nat, seq<int>>, own: set<nat>) {
    && own !! was.Keys && 0 !in live
    && live.Keys == was.Keys + own
    && forall p :: p in was ==> live[p] == was[p]
  }

  function AllOf(ps: seq<nat>): set<nat> {
    set k | 0 <= k < |ps| :: ps[k]
  }

  lemma AllOfIs(ps: seq<nat>, p: nat)
    ensures p in AllOf(ps) <==> p in ps
  {
  }

  lemma AllOfMore(ps: seq<nat>, j: nat)
    requires j <= |ps|
    ensures AllOf(ps[..0]) == {}
    ensures j < |ps| ==> AllOf(ps[..j + 1]) == AllOf(ps[..j]) + {ps[j]}
  {
    if j < |ps| {
      var more := ps[..j + 1];
      assert forall k :: 0 <= k < j ==> more[k] == ps[..j][k];
      assert more[j] == ps[j];
    }
  }

  /** The blocks of a split under way: the pointer array, the pieces, and the unfinished piece. */
  function Own(dest: nat, ps: seq<nat>, buffer: nat): set<nat> {
    AllOf(ps) + (if dest == 0 then {} else {dest}) + (if buffer == 0 then {} else {buffer})
  }

  ghost predicate Splitting(was: map<nat, seq<int>>, live: map<nat, seq<int>>,
                            dest: nat, ps: seq<nat>, pieces: seq<seq<Byte>>,
                            buffer: nat, part: seq<int>) {
    && Holds(live, dest, ps, pieces)
    && Adds(was, live, Own(dest, ps, buffer))
    && (buffer == 0 <==> part == [])
    && (buffer != 0 ==> buffer in live && live[buffer] == part && buffer != dest && buffer !in ps)
  }

  /** Growing the unfinished piece moves at most its own block. */
  lemma Regrown(was: map<nat, seq<int>>, live: map<nat, seq<int>>, now: map<nat, seq<int>>,
                dest: nat, ps: seq<nat>, pieces: seq<seq<Byte>>,
                buffer: nat, part: seq<int>, q: nat, cells: seq<int>)
    requires Splitting(was, live, dest, ps, pieces, buffer, part)
    requires q != 0 && (q == buffer || q !in live) && cells != []
    requires now == (live - {buffer})[q := cells]
    ensures Splitting(was, now, dest, ps, pieces, q, cells)
  {
    AllOfIs(ps, buffer);
    assert dest != 0 ==> dest in live;
    assert forall k :: 0 <= k < |ps| ==> ps[k] in AllOf(ps);
    assert now.Keys == was.Keys + Own(dest, ps, q);
  }

  /** The finished piece's pointer goes to the end of the array. */
  lemma Appended(was: map<nat, seq<int>>, live: map<nat, seq<int>>, now: map<nat, seq<int>>,
                 dest: nat, ps: seq<nat>, pieces: seq<seq<Byte>>,
                 buffer: nat, piece: seq<Byte>, q: nat)
    requires Splitting(was, live, dest, ps, pieces, buffer, AsCString(piece))
    requires q != 0 && (q == dest || q !in live)
    requires now == (live - {dest})[q := ps + [buffer]]
    ensures Splitting(was, now, q, ps + [buffer], pieces + [piece], 0, [])
  {
    assert AllOf(ps + [buffer]) == AllOf(ps) + {buffer} by {
      assert forall k :: 0 <= k < |ps| ==> (ps + [buffer])[k] == ps[k];
      assert (ps + [buffer])[|ps|] == buffer;
    }
    AllOfIs(ps, dest);
    assert forall k :: 0 <= k < |ps| ==> ps[k] in AllOf(ps);
    assert now.Keys == was.Keys + Own(q, ps + [buffer], 0);
  }

  /** The pieces stored so far are those of the spans passed. */
  ghost predicate Passed(s: seq<Byte>, d: Byte, done: seq<Span>, pieces: seq<seq<Byte>>, lo: nat, i: nat)
    requires lo <= i <= |s|
  {
    && d !in s[lo..i]
    && Spans(s, d) == done + SpansFrom(s, d, lo, i)
    && |pieces| == |done|
    && forall k :: 0 <= k < |done| ==> done[k].lo <= done[k].hi <= |s| && pieces[k] == s[done[k].lo..done[k].hi]
  }

  lemma PassedAll(s: seq<Byte>, d: Byte, done: seq<Span>, pieces: seq<seq<Byte>>)
    requires Passed(s, d, done, pieces, |s|, |s|)
    ensures pieces == Pieces(s, d)
  {
    assert done + [] == done;
  }

  /** At the end of a stretch: a piece, or nothing if the stretch is empty. */
  lemma PassedStretch(s: seq<Byte>, d: Byte, done: seq<Span>, pieces: seq<seq<Byte>>, lo: nat, i: nat)
    requires lo <= i <= |s| && Passed(s, d, done, pieces, lo, i) && (i == |s| || s[i] == d)
    ensures var more := if lo < i then [s[lo..i]] else [];
            Passed(s, d, done + Open(lo, i), pieces + more, After(s, i), After(s, i))
  {
    if i < |s| {
      assert (done + Open(lo, i)) + SpansFrom(s, d, i + 1, i + 1) == done + SpansFrom(s, d, lo, i);
    } else {
      assert (done + Open(lo, i)) + SpansFrom(s, d, i, i) == done + SpansFrom(s, d, lo, i);
    }
  }

  lemma PassedChar(s: seq<Byte>, d: Byte, done: seq<Span>, pieces: seq<seq<Byte>>, lo: nat, i: nat)
    requires lo <= i < |s| && Passed(s, d, done, pieces, lo, i) && s[i] != d
    ensures Passed(s, d, done, pieces, lo, i + 1)
  {
    assert s[lo..i + 1] == s[lo..i] + [s[i]];
  }

  lemma Started(was: map<nat, seq<int>>, s: seq<Byte>, d: Byte)
    requires 0 !in was
    ensures Splitting(was, was, 0, [], [], 0, [])
    ensures Passed(s, d, [], [], 0, 0)
  {
    assert [] + Spans(s, d) == Spans(s, d);
  }

  lemma Ended(was: map<nat, seq<int>>, live: map<nat, seq<int>>, dest: nat, ps: seq<nat>,
              pieces: seq<seq<Byte>>)
    requires Splitting(was, live, dest, ps, pieces, 0, [])
    ensures Holds(live, dest, ps, pieces)
    ensures pieces == [] ==> dest == 0 && live == was
    ensures pieces != [] ==> Adds(was, live, AllOf(ps) + {dest})
  {
    assert pieces != [] ==> Own(dest, ps, 0) == AllOf(ps) + {dest};
  }

  /** The sizes the next step needs are among those that fit. */
  lemma StretchFits(s: seq<Byte>, d: Byte, done: seq<Span>, pieces: seq<seq<Byte>>, lo: nat, i: nat)
    requires lo < i <= |s| && Passed(s, d, done, pieces, lo, i) && SplitFits(s, d)
    ensures i - lo <= 65533 && |pieces| < 16383
  {
    StretchCovered(s, d, lo, i);
    assert Spans(s, d)[|done|] == SpansFrom(s, d, lo, i)[0];
  }

  /** Without the blocks of the split, the heap is the one it started with. */
  lemma Released(was: map<nat, seq<int>>, live: map<nat, seq<int>>, dest: nat, ps: seq<nat>,
                 pieces: seq<seq<Byte>>, buffer: nat, part: seq<int>)
    requires Splitting(was, live, dest, ps, pieces, buffer, part)
    ensures dest == 0 ==> live - {buffer} == was
    ensures dest != 0 ==>
              && dest in live - {buffer} && live[dest] == ps && dest !in ps
              && live - {buffer} - AllOf(ps) - {dest} == was
  {
    AllOfIs(ps, dest);
    assert dest == 0 ==> AllOf(ps) == {};
    assert (live - {buffer} - AllOf(ps) - {dest}).Keys == was.Keys;
  }

  class Splitter {
    const heap: Blocks
    var dest: nat
    var buffer: nat
    ghost var ps: seq<nat>
    ghost var pieces: seq<seq<Byte>>
    ghost var part: seq<int>
    ghost var done: seq<Span>

    constructor (heap: Blocks)
      ensures this.heap == heap
      ensures dest == 0 && buffer == 0 && ps == [] && pieces == [] && part == [] && done == []
    {
      this.heap := heap;
      dest, buffer, ps, pieces, part, done := 0, 0, [], [], [], [];
    }

    ghost predicate Inv(was: map<nat, seq<int>>)
      reads this, heap
    {
      heap.Valid() && Splitting(was, heap.live, dest, ps, pieces, buffer, part)
    }

    /** One more cell for the unfinished piece. */
    method Grow(x: int, ghost was: map<nat, seq<int>>) returns (ok: bool)
      requires Inv(was) && |part| + 1 <= 65534
      modifies this`buffer, this`part, heap
      ensures Inv(was)
      ensures part == if ok then old(part) + [x] else old(part)
      ensures heap.refused == old(heap.refused) + (if ok then 0 else 1)
    {
      hide Holds, Adds, Own;
      ghost var live := heap.live;
      var n := if buffer == 0 then 0 else |heap.live[buffer]|;
      var tmp := heap.Realloc(buffer, n + 1, 1);
      if tmp == 0 {
        return false;
      }
      heap.Store(tmp, n, x);
      assert heap.live[tmp] == part + [x];
      Regrown(was, live, heap.live, dest, ps, pieces, buffer, part, tmp, part + [x]);
      buffer := tmp;
      part := part + [x];
      ok := true;
    }

    /** The end of a piece: a NUL, and its pointer in the array. */
    method Finish(ghost piece: seq<Byte>, ghost was: map<nat, seq<int>>) returns (ok: bool)
      requires Inv(was) && part == AsCells(piece) && piece != []
      requires |piece| <= 65533 && |pieces| < 16383
      modifies this`dest, this`buffer, this`ps, this`pieces, this`part, heap
      ensures Inv(was)
      ensures if ok then pieces == old(pieces) + [piece] && part == [] else pieces == old(pieces)
      ensures heap.refused == old(heap.refused) + (if ok then 0 else 1)
    {
      ok := Grow(0, was);
      if ok {
        assert part == AsCString(piece);
        ok := AppendPointer(piece, was);
      }
    }

    method AppendPointer(ghost piece: seq<Byte>, ghost was: map<nat, seq<int>>) returns (ok: bool)
      requires Inv(was) && part == AsCString(piece) && |pieces| < 16383
      modifies this`dest, this`buffer, this`ps, this`pieces, this`part, heap
      ensures Inv(was)
      ensures if ok then pieces == old(pieces) + [piece] && part == [] else pieces == old(pieces)
      ensures heap.refused == old(heap.refused) + (if ok then 0 else 1)
    {
      hide AsCString, Adds, Own;
      ghost var live := heap.live;
      var n := if dest == 0 then 0 else |heap.live[dest]|;
      var tmp := heap.Realloc(dest, n + 1, 4);
      if tmp == 0 {
        return false;
      }
      heap.Store(tmp, n, buffer);
      assert heap.live[tmp] == ps + [buffer];
      Appended(was, live, heap.live, dest, ps, pieces, buffer, piece, tmp);
      dest, ps, pieces := tmp, ps + [buffer], pieces + [piece];
      buffer, part := 0, [];
      ok := true;
    }

    /** The `fail` exit: everything the split allocated is freed. */
    method ReleaseAll(ghost was: map<nat, seq<int>>)
      requires Inv(was)
      modifies heap`live
      ensures heap.Valid() && heap.live == was
    {
      hide Splitting;
      Released(was, heap.live, dest, ps, pieces, buffer, part);
      heap.Free(buffer);
      if dest != 0 {
        FreePieces();
        heap.Free(dest);
      }
    }

    method FreePieces()
      requires heap.Valid() && dest in heap.live && heap.live[dest] == ps && dest !in ps
      modifies heap`live
      ensures heap.Valid() && heap.live == old(heap.live) - AllOf(ps)
    {
      hide AllOf;
      ghost var live := heap.live;
      var n := |heap.live[dest]|;
      AllOfMore(ps, 0);
      for j := 0 to n
        invariant heap.Valid() && dest in heap.live && heap.live[dest] == ps
        invariant heap.live == live - AllOf(ps[..j])
      {
        AllOfMore(ps, j);
        heap.Free(heap.live[dest][j]);
      }
      assert ps[..n] == ps;
    }

    /** The string has been read up to `i`, and the piece in hand began at `lo`. */
    ghost predicate At(was: map<nat, seq<int>>, s: seq<Byte>, d: Byte, lo: nat, i: nat)
      reads this, heap
    {
      Inv(was) && lo <= i <= |s| && part == AsCells(s[lo..i]) && Passed(s, d, done, pieces, lo, i)
    }

    /** A character of a piece. */
    method TakeChar(s: seq<Byte>, ghost d: Byte, ghost lo: nat, i: nat, ghost was: map<nat, seq<int>>)
      returns (ok: bool)
      requires At(was, s, d, lo, i) && i < |s| && s[i] != d && SplitFits(s, d)
      modifies this`buffer, this`part, heap
      ensures if ok then At(was, s, d, lo, i + 1) else heap.Valid() && heap.live == was
      ensures heap.refused == old(heap.refused) + (if ok then 0 else 1)
    {
      hide Passed, SplitFits, Splitting;
      PassedChar(s, d, done, pieces, lo, i);
      StretchFits(s, d, done, pieces, lo, i + 1);
      assert AsCells(s[lo..i + 1]) == AsCells(s[lo..i]) + [s[i]];
      ok := Grow(s[i], was);
      if !ok {
        ReleaseAll(was);
      }
    }

    /** A delimiter or the terminator: the piece in hand, unless it is empty, is stored. */
    method TakeEnd(s: seq<Byte>, d: Byte, lo: nat, i: nat, ghost was: map<nat, seq<int>>) returns (ok: bool)
      requires At(was, s, d, lo, i) && (i == |s| || s[i] == d) && SplitFits(s, d)
      modifies this, heap
      ensures if ok then
                && At(was, s, d, After(s, i), After(s, i)) && buffer == 0 && part == []
                && |pieces| == |old(pieces)| + (if lo < i then 1 else 0)
              else heap.Valid() && heap.live == was
      ensures heap.refused == old(heap.refused) + (if ok then 0 else 1)
    {
      hide Passed, SplitFits, Holds, Adds, Open;
      PassedStretch(s, d, done, pieces, lo, i);
      done := done + Open(lo, i);
      assert pieces + [] == pieces;
      if lo == i {
        assert s[lo..i] == [] && s[After(s, i)..After(s, i)] == [];
        return true;
      }
      StretchFits(s, d, old(done), pieces, lo, i);
      ok := Finish(s[lo..i], was);
      if !ok {
        ReleaseAll(was);
      }
    }
  }

  /** Where the next stretch begins: behind a delimiter, or at the end. */
  function After(s: seq<Byte>, i: nat): nat {
    if i < |s| then i + 1 else i
  }

  /** `strsplit` of the C string `s`. A positive count is the number of pieces, and the new blocks are
      the pieces as C strings, in order, behind an array of pointers to them. A count of 0 leaves the
      live blocks as they were; it is returned exactly when there are no pieces or an allocation was
      refused, and after one refusal no other allocation is tried. */
  method Strsplit(heap: Blocks, s: seq<Byte>, d: Byte)
    returns (count: nat, dest: nat, ghost ps: seq<nat>)
    requires heap.Valid() && SplitFits(s, d)
    modifies heap
    ensures heap.Valid()
    ensures heap.refused <= old(heap.refused) + 1
    ensures count == 0 <==> Pieces(s, d) == [] || heap.refused > old(heap.refused)
    ensures count == 0 ==> dest == 0 && heap.live == old(heap.live)
    ensures count != 0 ==>
              && count == |Pieces(s, d)|
              && Holds(heap.live, dest, ps, Pieces(s, d))
              && Adds(old(heap.live), heap.live, AllOf(ps) + {dest})
  {
    hide SpansFrom, Spans, Pieces, Splitting, Passed, SplitFits, Holds, Adds;
    ghost var was := heap.live;
    var sp := new Splitter(heap);
    Started(was, s, d);
    var i, currentCount := 0, 0;
    count := 0;
    while true
      invariant sp.heap == heap && fresh(sp)
      invariant currentCount <= i <= |s| && count == |sp.pieces|
      invariant sp.At(was, s, d, i - currentCount, i)
      invariant heap.refused == old(heap.refused)
      decreases |s| - i
    {
      if i == |s| || s[i] == d {
        var ok := sp.TakeEnd(s, d, i - currentCount, i, was);
        if !ok {
          return 0, 0, [];
        }
        count := if currentCount > 0 then count + 1 else count;
        if i == |s| {
          PassedAll(s, d, sp.done, sp.pieces);
          Ended(was, heap.live, sp.dest, sp.ps, sp.pieces);
          return count, sp.dest, sp.ps;
        }
        currentCount := 0;
        i := i + 1;
      } else {
        var ok := sp.TakeChar(s, d, i - currentCount, i, was);
        if !ok {
          return 0, 0, [];
        }
        currentCount := currentCount + 1;
        i := i + 1;
      }
    }
  }
}
