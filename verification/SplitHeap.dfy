/** The heap of `strsplit` in StrSplit is the allocator: cells of one or four bytes in its blocks. */
module SplitHeap {
  import opened Ints
  import opened HeapTable
  import opened Allocator

  type Live = map<nat, seq<int>>
  type View = map<int, seq<Byte>>

  /** A character is one byte and a pointer four, low byte first. */
  type Width = w: nat | w == 1 || w == 4 witness 1

  predicate CellIn(bytes: seq<Byte>, i: nat, w: Width) {
    (i + 1) * w <= |bytes|
  }

  function CellAt(bytes: seq<Byte>, i: nat, w: Width): int
    requires CellIn(bytes, i, w)
  {
    if w == 1 then bytes[i]
    else
      bytes[4 * i] as int + 0x100 * (bytes[4 * i + 1] as int) + 0x1_0000 * (bytes[4 * i + 2] as int)
        + 0x100_0000 * (bytes[4 * i + 3] as int)
  }

  lemma CellFits(bytes: seq<Byte>, n: nat, w: Width)
    requires n * w <= |bytes|
    ensures forall i: nat :: i < n ==> CellIn(bytes, i, w)
  {
  }

  /** The first `n` cells of a block. */
  function Cells(bytes: seq<Byte>, n: nat, w: Width): (cells: seq<int>)
    requires n * w <= |bytes|
    ensures |cells| == n
    ensures forall i: nat :: i < n ==> CellIn(bytes, i, w) && cells[i] == CellAt(bytes, i, w)
  {
    CellFits(bytes, n, w);
    seq(n, i requires 0 <= i < n => CellAt(bytes, i, w))
  }

  /** The cells are what the bytes of the block begin with. */
  ghost predicate CellsOf(cells: seq<int>, bytes: seq<Byte>, w: Width) {
    |cells| * w <= |bytes| && cells == Cells(bytes, |cells|, w)
  }

  /** Each block of `live` is a block of the allocator and holds its cells. */
  ghost predicate Shows(live: Live, width: map<nat, Width>, view: View) {
    && 0 !in live && live.Keys == width.Keys
    && forall p :: p in live ==> p in view && CellsOf(live[p], view[p], width[p])
  }

  lemma CellsAre(bytes: seq<Byte>, n: nat, w: Width)
    requires n * w <= |bytes|
    ensures CellsOf(Cells(bytes, n, w), bytes, w)
  {
  }

  /** Bytes that are kept keep their cells. */
  lemma CellsKept(cells: seq<int>, more: seq<int>, was: seq<Byte>, now: seq<Byte>, w: Width)
    requires CellsOf(cells, was, w) && CellsOf(more, now, w) && was <= now && |cells| <= |more|
    ensures cells <= more
  {
    forall i | 0 <= i < |cells|
      ensures cells[i] == more[i]
    {
      assert CellAt(was, i, w) == CellAt(now, i, w);
    }
  }

  /** What `StrSplit.Blocks.Realloc` promises of cells `n` of width `w`, for the new pointer `q`. */
  ghost predicate Reallocated(live: Live, p: nat, n: nat, q: nat, now: Live) {
    if q == 0 then now == live
    else
      && (q == p || q !in live)
      && q in now && |now[q]| == n
      && (p != 0 ==> p in live && live[p] <= now[q])
      && now == (live - {p})[q := now[q]]
  }

  /** Within the window the allocator's `realloc` is that of the splitter, whichever way it goes. */
  lemma ReallocShows(live: Live, width: map<nat, Width>, was: View, now: View, p: nat, n: nat, w: Width, q: nat)
    returns (cells: Live, widths: map<nat, Width>)
    requires Shows(live, width, was) && 0 < n * w <= 65534
    requires p != 0 ==> p in live && width[p] == w && |live[p]| <= n
    requires if p == 0 then Added(was, now, n * w, q) else p in was && Regrown(was, now, p, n * w, q)
    ensures Reallocated(live, p, n, q, cells) && Shows(cells, widths, now)
    ensures q == 0 <==> |was| == MAX_ENTRIES && (p != 0 ==> |was[p]| < n * w)
  {
    hide CellsOf, Added, Regrown, Shows, Cells;
    ReallocSeen(was, now, p, n * w, q);
    if q == 0 {
      return live, width;
    }
    var read := Cells(now[q], n, w);
    CellsAre(now[q], n, w);
    ShowsAt(live, width, was, p);
    ShowsNew(live, width, was, q);
    if p != 0 {
      CellsKept(live[p], read, was[p], now[q], w);
    }
    cells, widths := (live - {p})[q := read], (width - {p})[q := w];
    ShowsMoved(live, width, was, now, p, q, read, w);
  }

  lemma ShowsAt(live: Live, width: map<nat, Width>, view: View, p: nat)
    requires Shows(live, width, view)
    ensures p in live ==> p in view && p in width && CellsOf(live[p], view[p], width[p])
  {
    hide CellsOf;
  }

  lemma ShowsNew(live: Live, width: map<nat, Width>, view: View, q: nat)
    requires Shows(live, width, view)
    ensures q !in view ==> q !in live
  {
    hide CellsOf;
  }

  lemma ShowsMoved(live: Live, width: map<nat, Width>, was: View, now: View, p: nat, q: nat, cells: seq<int>, w: Width)
    requires Shows(live, width, was) && q != 0 && q in now && CellsOf(cells, now[q], w)
    requires forall r :: r in was && r != p && r != q ==> r in now && now[r] == was[r]
    ensures Shows((live - {p})[q := cells], (width - {p})[q := w], now)
  {
    hide CellsOf;
  }

  /** The part of the two views that a holder of other blocks needs. */
  lemma ReallocSeen(was: View, now: View, p: int, size: U16, q: int)
    requires 0 < size <= 65534
    requires if p == 0 then Added(was, now, size, q) else p in was && Regrown(was, now, p, size, q)
    ensures q == 0 <==> |was| == MAX_ENTRIES && (p != 0 ==> |was[p]| < size)
    ensures q == 0 ==> now == was
    ensures q != 0 ==>
      && (q == p || q !in was) && q in now && size <= |now[q]|
      && (p != 0 ==> was[p] <= now[q])
      && forall r :: r in was && r != p && r != q ==> r in now && now[r] == was[r]
  {
  }

  /** Writing cell `i` of block `p`, and nothing else in it. */
  lemma StoreShows(live: Live, width: map<nat, Width>, was: View, p: nat, i: nat, x: int, bytes: seq<Byte>)
    requires Shows(live, width, was) && p in live && i < |live[p]|
    requires |bytes| == |was[p]| && CellIn(bytes, i, width[p]) && CellAt(bytes, i, width[p]) == x
    requires forall k :: 0 <= k < |bytes| && !(i * width[p] <= k < (i + 1) * width[p]) ==> bytes[k] == was[p][k]
    ensures Shows(live[p := live[p][i := x]], width, was[p := bytes])
  {
    var w := width[p];
    var n := |live[p]|;
    forall j | 0 <= j < n
      ensures Cells(bytes, n, w)[j] == live[p][i := x][j]
    {
      assert j != i ==> CellAt(bytes, j, w) == CellAt(was[p], j, w);
    }
    assert Cells(bytes, n, w) == live[p][i := x];
  }

  lemma FreeShows(live: Live, width: map<nat, Width>, was: View, p: nat)
    requires Shows(live, width, was)
    ensures Shows(live - {p}, width - {p}, was - {p})
  {
    hide CellsOf;
  }
}
