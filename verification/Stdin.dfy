/** The line queue of kernel/stdin/stdin.c. Each operation is one atomic step; the waiting loops are the
    condition under which the step can happen. */
module Stdin {
  import opened Ints
  import HeapTable

  const SIZE := 0x10_0000 // STDIN_SIZE
  const NEWLINE: Byte := 10

  /** The characters stored so far, how many are delivered, and the newline counter. */
  datatype Queue = Queue(stored: seq<Byte>, out: nat, lines: nat)

  datatype Action = Insert(c: Byte) | ReadChar | ReadLine(granted: bool)

  /** `NULL`, a line without its terminator, or a copy that runs past a block too small for it. */
  datatype Fetched = NoLine | Line(text: seq<Byte>) | Overrun

  const EMPTY := Queue([], 0, 0)

  // ---------- the operations ----------

  function Inserted(q: Queue, c: Byte): Queue {
    if |q.stored| >= SIZE || c == 0 then q
    else q.(stored := q.stored + [c], lines := if c == NEWLINE then q.lines + 1 else q.lines)
  }

  function Pending(q: Queue): seq<Byte>
    requires q.out <= |q.stored|
  {
    q.stored[q.out..]
  }

  function Fewer(lines: nat): nat {
    if lines > 0 then lines - 1 else 0
  }

  function CharTaken(q: Queue): Queue
    requires q.out < |q.stored|
  {
    q.(out := q.out + 1, lines := if q.stored[q.out] == NEWLINE then Fewer(q.lines) else q.lines)
  }

  /** One past the first newline, or 0. */
  function LineLength(s: seq<Byte>): (n: nat)
    ensures n <= |s|
    ensures n == 0 <==> NEWLINE !in s
    ensures n > 0 ==> s[n - 1] == NEWLINE && NEWLINE !in s[..n - 1]
  {
    if s == [] then 0
    else if s[0] == NEWLINE then 1
    else var n := LineLength(s[1..]);
      assert s == [s[0]] + s[1..];
      assert n > 0 ==> s[..n] == [s[0]] + s[1..][..n - 1];
      if n == 0 then 0 else n + 1
  }

  /** The size `malloc` is asked for, which is a 16-bit number. */
  function Asked(len: nat): U16 {
    (len + 1) % LIMIT16
  }

  function Fetch(q: Queue, granted: bool): (Queue, Fetched)
    requires q.out <= |q.stored|
  {
    var len := LineLength(Pending(q));
    if len == 0 || Asked(len) == 0 || !granted then (q, NoLine)
    else if len + 1 > HeapTable.Rounded(Asked(len)) then (q, Overrun)
    else (q.(out := q.out + len, lines := Fewer(q.lines)), Line(Pending(q)[..len]))
  }

  // ---------- runs ----------

  predicate Enabled(q: Queue, a: Action)
    requires q.out <= |q.stored|
  {
    match a
    case Insert(_) => true
    case ReadChar => q.out < |q.stored|
    case ReadLine(granted) => q.lines >= 1 && Fetch(q, granted).1 != Overrun
  }

  function After(q: Queue, a: Action): (r: Queue)
    requires q.out <= |q.stored| && Enabled(q, a)
    ensures r.out <= |r.stored|
  {
    match a
    case Insert(c) => Inserted(q, c)
    case ReadChar => CharTaken(q)
    case ReadLine(granted) => Fetch(q, granted).0
  }

  /** The characters an action hands to its caller. */
  function Output(q: Queue, a: Action): seq<Byte>
    requires q.out <= |q.stored| && Enabled(q, a)
  {
    match a
    case Insert(_) => []
    case ReadChar => [q.stored[q.out]]
    case ReadLine(granted) =>
      var f := Fetch(q, granted).1;
      if f.Line? then f.text else []
  }

  predicate IsRun(q: Queue, run: seq<Action>)
    requires q.out <= |q.stored|
    decreases |run|
  {
    run == [] || (Enabled(q, run[0]) && IsRun(After(q, run[0]), run[1..]))
  }

  function End(q: Queue, run: seq<Action>): (r: Queue)
    requires q.out <= |q.stored| && IsRun(q, run)
    ensures r.out <= |r.stored|
    decreases |run|
  {
    if run == [] then q else End(After(q, run[0]), run[1..])
  }

  function Delivered(q: Queue, run: seq<Action>): seq<Byte>
    requires q.out <= |q.stored| && IsRun(q, run)
    decreases |run|
  {
    if run == [] then [] else Output(q, run[0]) + Delivered(After(q, run[0]), run[1..])
  }

  /** The non-NUL characters a run inserts. */
  function Typed(run: seq<Action>): seq<Byte> {
    if run == [] then []
    else (if run[0].Insert? && run[0].c != 0 then [run[0].c] else []) + Typed(run[1..])
  }

  function Cut(s: seq<Byte>, n: nat): seq<Byte> {
    if |s| <= n then s else s[..n]
  }

  function Newlines(s: seq<Byte>): nat {
    multiset(s)[NEWLINE]
  }

  /** What every state of a run satisfies. */
  predicate Counted(q: Queue) {
    q.out <= |q.stored| <= SIZE && q.lines == Newlines(Pending(q)) && 0 !in q.stored
  }

  lemma NewlinesOfSum(s: seq<Byte>, t: seq<Byte>)
    ensures Newlines(s + t) == Newlines(s) + Newlines(t)
  {
  }

  lemma NewlinesAre(s: seq<Byte>)
    ensures Newlines(s) == multiset(s)[10]
  {
  }

  lemma NewlinesIn(s: seq<Byte>)
    ensures Newlines(s) > 0 <==> NEWLINE in s
  {
    assert NEWLINE in s <==> NEWLINE in multiset(s);
  }

  lemma OneNewline(s: seq<Byte>)
    requires s != [] && s[|s| - 1] == NEWLINE && NEWLINE !in s[..|s| - 1]
    ensures Newlines(s) == 1
  {
    assert s == s[..|s| - 1] + [NEWLINE];
  }

  /** What a step does to the three parts of the account. */
  predicate Balanced(q: Queue, out: seq<Byte>, typed: seq<Byte>, r: Queue) {
    && q.out <= |q.stored| && r.out <= |r.stored|
    && q.stored[..q.out] + out == r.stored[..r.out]
    && r.stored == Cut(q.stored + typed, SIZE)
  }

  lemma InsertCounts(q: Queue, c: Byte)
    requires Counted(q)
    ensures Counted(Inserted(q, c)) && Balanced(q, [], if c != 0 then [c] else [], Inserted(q, c))
  {
    var r := Inserted(q, c);
    assert q.stored + [] == q.stored;
    if c != 0 {
      assert (q.stored + [c])[..q.out] == q.stored[..q.out];
      if |q.stored| < SIZE {
        assert Pending(r) == Pending(q) + [c];
        NewlinesOfSum(Pending(q), [c]);
      } else {
        assert (q.stored + [c])[..SIZE] == q.stored;
      }
    }
  }

  lemma TakeCounts(q: Queue, n: nat, lines: nat)
    requires Counted(q) && n <= |Pending(q)| && lines == q.lines - Newlines(Pending(q)[..n])
    ensures var r := q.(out := q.out + n, lines := lines);
            Counted(r) && Balanced(q, Pending(q)[..n], [], r)
  {
    hide Newlines;
    var r := q.(out := q.out + n, lines := lines);
    var p := Pending(q);
    assert p == p[..n] + Pending(r);
    NewlinesOfSum(p[..n], Pending(r));
    assert q.stored[..q.out] + p[..n] == r.stored[..r.out];
    assert q.stored + [] == q.stored;
  }

  /** Every step keeps the newline counter right and moves characters from pending to delivered. */
  lemma StepCounts(q: Queue, a: Action)
    requires Counted(q) && Enabled(q, a)
    ensures Counted(After(q, a)) && Balanced(q, Output(q, a), Typed([a]), After(q, a))
  {
    hide Newlines, Balanced, Cut, LineLength;
    assert Typed([a]) == if a.Insert? && a.c != 0 then [a.c] else [];
    var p := Pending(q);
    match a
    case Insert(c) => InsertCounts(q, c);
    case ReadChar =>
      assert p[..1] == [p[0]];
      NewlinesOfOne(p[0]);
      NewlinesOfSum(p[..1], p[1..]);
      assert p == p[..1] + p[1..];
      TakeCounts(q, 1, CharTaken(q).lines);
    case ReadLine(granted) =>
      var n := if Fetch(q, granted).1.Line? then LineLength(p) else 0;
      if n > 0 {
        assert p[..n][..n - 1] == p[..n - 1];
        OneNewline(p[..n]);
        TakeCounts(q, n, Fetch(q, granted).0.lines);
      } else {
        NoNewlines();
        assert p[..0] == [];
        TakeCounts(q, 0, q.lines);
      }
  }

  lemma NoNewlines()
    ensures Newlines([]) == 0
  {
  }

  lemma NewlinesOfOne(c: Byte)
    ensures Newlines([c]) == if c == NEWLINE then 1 else 0
  {
  }

  lemma BalancedTwice(q: Queue, a: seq<Byte>, s: seq<Byte>, r: Queue, b: seq<Byte>, t: seq<Byte>, end: Queue)
    requires Balanced(q, a, s, r) && Balanced(r, b, t, end)
    ensures Balanced(q, a + b, s + t, end)
  {
    assert q.stored[..q.out] + (a + b) == q.stored[..q.out] + a + b;
    assert q.stored + (s + t) == q.stored + s + t;
    if |q.stored + s| > SIZE {
      assert r.stored == (q.stored + s)[..SIZE];
      assert Cut(r.stored + t, SIZE) == r.stored;
      assert (q.stored + s + t)[..SIZE] == r.stored;
    }
  }

  lemma BalancedNone(q: Queue)
    requires Counted(q)
    ensures Balanced(q, [], [], q)
  {
    assert q.stored[..q.out] + [] == q.stored[..q.out] && q.stored + [] == q.stored;
  }

  lemma NoneTyped()
    ensures Typed([]) == []
  {
  }

  lemma TypedMore(run: seq<Action>)
    requires run != []
    ensures Typed(run) == Typed([run[0]]) + Typed(run[1..])
  {
    assert [run[0]][1..] == [];
  }

  lemma EmptyCounted()
    ensures Counted(EMPTY)
  {
  }

  lemma {:induction false} RunCounts(q: Queue, run: seq<Action>)
    requires Counted(q) && IsRun(q, run)
    ensures Counted(End(q, run)) && Balanced(q, Delivered(q, run), Typed(run), End(q, run))
    decreases |run|
  {
    hide Balanced, After, Enabled, Output, Newlines, Pending, Typed;
    if run == [] {
      NoneTyped();
      BalancedNone(q);
    } else {
      var r := After(q, run[0]);
      StepCounts(q, run[0]);
      RunCounts(r, run[1..]);
      TypedMore(run);
      BalancedTwice(q, Output(q, run[0]), Typed([run[0]]), r, Delivered(r, run[1..]), Typed(run[1..]), End(q, run));
    }
  }

  /** Nothing is lost, repeated or reordered: what has been delivered, then what is pending, is what was
      typed, cut at the size of the buffer. The counter is the number of newlines pending. */
  lemma Conserved(run: seq<Action>)
    requires IsRun(EMPTY, run)
    ensures Delivered(EMPTY, run) + Pending(End(EMPTY, run)) == Cut(Typed(run), 0x10_0000)
    ensures End(EMPTY, run).lines == multiset(Pending(End(EMPTY, run)))[10]
  {
    hide IsRun, End, Delivered, Typed, Newlines, Balanced, Cut, Pending;
    EmptyCounted();
    RunCounts(EMPTY, run);
    var q := End(EMPTY, run);
    NewlinesAre(Pending(q));
    FromNothing(Delivered(EMPTY, run), Typed(run), q);
  }

  lemma FromNothing(out: seq<Byte>, typed: seq<Byte>, q: Queue)
    requires Balanced(EMPTY, out, typed, q)
    ensures out + Pending(q) == Cut(typed, SIZE)
  {
    assert EMPTY.stored[..0] + out == out && EMPTY.stored + typed == typed;
    assert q.stored == q.stored[..q.out] + Pending(q);
  }

  /** A line that is delivered is the pending text up to and including its first newline. */
  lemma LineIsNext(run: seq<Action>, granted: bool)
    requires IsRun(EMPTY, run) && End(EMPTY, run).lines >= 1
    ensures var q := End(EMPTY, run);
            var f := Fetch(q, granted);
            f.1.Line? ==>
              && f.1.text <= Pending(q) && f.1.text != []
              && f.1.text[|f.1.text| - 1] == 10 && 10 !in f.1.text[..|f.1.text| - 1]
              && Pending(f.0) == Pending(q)[|f.1.text|..] && f.0.lines == q.lines - 1
  {
    hide IsRun, End, Newlines, Fetch, Pending, LineLength;
    EmptyCounted();
    RunCounts(EMPTY, run);
    LineNext(End(EMPTY, run), granted);
  }

  lemma LineNext(q: Queue, granted: bool)
    requires Counted(q) && q.lines >= 1
    ensures var f := Fetch(q, granted);
            f.1.Line? ==>
              && f.1.text <= Pending(q) && f.1.text != []
              && f.1.text[|f.1.text| - 1] == 10 && 10 !in f.1.text[..|f.1.text| - 1]
              && Pending(f.0) == Pending(q)[|f.1.text|..] && f.0.lines == q.lines - 1
  {
    hide Newlines, Asked, HeapTable.Rounded;
    var n := LineLength(Pending(q));
    assert n > 0 ==> Pending(q)[..n][..n - 1] == Pending(q)[..n - 1];
  }

  /** A character that is delivered is the first pending one, and exactly it is consumed. */
  lemma CharIsNext(q: Queue)
    requires Counted(q) && Pending(q) != []
    ensures Enabled(q, ReadChar) && Output(q, ReadChar) == [Pending(q)[0]]
    ensures Pending(After(q, ReadChar)) == Pending(q)[1..]
  {
  }

  /** An inserted character is the last pending one, unless it is NUL or the buffer is full. */
  lemma InsertIsLast(q: Queue, c: Byte)
    requires Counted(q)
    ensures Pending(After(q, Insert(c))) == if c != 0 && |q.stored| < 0x10_0000 then Pending(q) + [c] else Pending(q)
  {
  }

  /** The block is large enough exactly up to the largest size `malloc` serves. */
  lemma AskedExactly(len: nat)
    ensures Asked(len) == 0 <==> (len + 1) % LIMIT16 == 0
    ensures Asked(len) != 0 ==> (len + 1 <= HeapTable.Rounded(Asked(len)) <==> len + 1 <= 0xFFFE)
  {
  }

  /** After the wait there always is a line, so NULL means that memory was refused or that the length
      with the terminator is a multiple of 2^16; then nothing is consumed. A line whose length with the
      terminator is at most 0xFFFE never overruns, any other one that is granted does. */
  lemma NullExactly(run: seq<Action>, granted: bool)
    requires IsRun(EMPTY, run) && End(EMPTY, run).lines >= 1
    ensures var q := End(EMPTY, run);
            var len := LineLength(Pending(q));
            var f := Fetch(q, granted);
            && len > 0
            && (f.1 == NoLine <==> !granted || (len + 1) % LIMIT16 == 0)
            && (f.1 == NoLine ==> f.0 == q)
            && (f.1 == Overrun <==> granted && (len + 1) % LIMIT16 != 0 && len + 1 > 0xFFFE)
  {
    hide IsRun, End, Newlines, LineLength, Asked, HeapTable.Rounded;
    EmptyCounted();
    RunCounts(EMPTY, run);
    var q := End(EMPTY, run);
    NewlinesIn(Pending(q));
    AskedExactly(LineLength(Pending(q)));
  }

  /** A first line whose length with the terminator is a multiple of 2^16 blocks `read_line` for good. */
  lemma {:induction false} StuckForever(q: Queue, run: seq<Action>)
    requires Counted(q) && IsRun(q, run) && ReadChar !in run
    requires NEWLINE in Pending(q) && Asked(LineLength(Pending(q))) == 0
    ensures End(q, run).out == q.out && Delivered(q, run) == []
    decreases |run|
  {
    if run != [] {
      var r := After(q, run[0]);
      StepCounts(q, run[0]);
      assert run[0] in run;
      assert Pending(q) <= Pending(r);
      FirstLineKept(Pending(q), Pending(r));
      StuckForever(r, run[1..]);
    }
  }

  // ---------- lines that are too long ----------

  function Typing(text: seq<Byte>): seq<Action> {
    seq(|text|, i requires 0 <= i < |text| => Insert(text[i]))
  }

  /** `n` characters and a newline. */
  function LineOf(n: nat): seq<Byte> {
    seq(n, _ => 0x61) + [NEWLINE]
  }

  lemma {:induction false} TypingStores(q: Queue, text: seq<Byte>)
    requires q.out <= |q.stored| && |q.stored| + |text| <= SIZE && 0 !in text
    ensures IsRun(q, Typing(text))
    ensures End(q, Typing(text)).stored == q.stored + text && End(q, Typing(text)).out == q.out
    decreases |text|
  {
    if text == [] {
      assert q.stored + text == q.stored;
    } else {
      var r := Inserted(q, text[0]);
      assert Typing(text)[1..] == Typing(text[1..]);
      TypingStores(r, text[1..]);
      assert r.stored + text[1..] == q.stored + text;
    }
  }

  /** A line typed into an empty queue is pending whole. */
  lemma TypedLine(n: nat)
    requires n < SIZE
    ensures IsRun(EMPTY, Typing(LineOf(n)))
    ensures var q := End(EMPTY, Typing(LineOf(n)));
            Counted(q) && q.lines >= 1 && Pending(q) == LineOf(n) && LineLength(Pending(q)) == n + 1
  {
    hide IsRun, End, Newlines, LineLength;
    var text := LineOf(n);
    TypingStores(EMPTY, text);
    EmptyCounted();
    RunCounts(EMPTY, Typing(text));
    assert EMPTY.stored + text == text;
    LengthIs(text, n + 1);
    NewlinesIn(text);
  }

  /** 65534 characters and a newline: `read_line` returns NULL with memory granted, and no later call in
      any run without `read_char` delivers anything. */
  lemma StuckReached()
    ensures IsRun(EMPTY, Typing(LineOf(65534)))
    ensures var q := End(EMPTY, Typing(LineOf(65534)));
            && q.lines >= 1 && Fetch(q, true) == (q, NoLine)
            && forall run :: IsRun(q, run) && ReadChar !in run ==>
                 End(q, run).out == q.out && Delivered(q, run) == []
  {
    hide IsRun, End, Delivered, Newlines, LineLength;
    TypedLine(65534);
    var q := End(EMPTY, Typing(LineOf(65534)));
    forall run | IsRun(q, run) && ReadChar !in run
      ensures End(q, run).out == q.out && Delivered(q, run) == []
    {
      StuckForever(q, run);
    }
  }

  /** One character less: the copy runs past its block. */
  lemma OverrunReached()
    ensures IsRun(EMPTY, Typing(LineOf(65533)))
    ensures var q := End(EMPTY, Typing(LineOf(65533)));
            q.lines >= 1 && Fetch(q, true).1 == Overrun
  {
    hide IsRun, End, Newlines, LineLength;
    TypedLine(65533);
  }

  lemma FirstLineKept(s: seq<Byte>, t: seq<Byte>)
    requires s <= t && NEWLINE in s
    ensures LineLength(t) == LineLength(s) && NEWLINE in t
  {
    var n, m := LineLength(s), LineLength(t);
    assert t[n - 1] == NEWLINE;
    assert forall i :: 0 <= i < n - 1 ==> t[i] == s[..n - 1][i];
    assert forall i :: 0 <= i < m - 1 ==> t[i] == t[..m - 1][i];
  }

  // ---------- the code ----------

  class Console {
    const data: array<Byte>
    var inCount: nat
    var outCount: nat
    var newLines: nat

    predicate Valid()
      reads this
    {
      data.Length == SIZE && outCount <= inCount <= SIZE
    }

    function View(): Queue
      requires Valid()
      reads this, data
    {
      Queue(data[..inCount], outCount, newLines)
    }

    constructor ()
      ensures Valid() && View() == EMPTY && fresh(data)
    {
      data := new Byte[SIZE];
      inCount, outCount, newLines := 0, 0, 0;
    }

    /** `stdin_insert`. */
    method Insert(c: Byte)
      requires Valid()
      modifies this`inCount, this`newLines, data
      ensures Valid() && View() == Inserted(old(View()), c)
      ensures Pending(View()) == if c != 0 && old(inCount) < 0x10_0000 then old(Pending(View())) + [c]
                                 else old(Pending(View()))
    {
      if inCount < SIZE {
        if c == 0 {
          return;
        }
        data[inCount] := c;
        inCount := inCount + 1;
        if c == NEWLINE {
          newLines := newLines + 1;
        }
      }
    }

    /** `read_char`, once a character is there. */
    method ReadChar() returns (c: Byte)
      requires Valid() && outCount < inCount
      modifies this`outCount, this`newLines
      ensures Valid() && View() == CharTaken(old(View()))
      ensures old(Pending(View())) == [c] + Pending(View())
    {
      c := data[outCount];
      outCount := outCount + 1;
      if c == NEWLINE && newLines > 0 {
        newLines := newLines - 1;
      }
    }

    /** The scan of `read_line`: the length of the first line, or 0. */
    method Scan() returns (len: nat)
      requires Valid()
      ensures len == LineLength(Pending(View()))
    {
      hide LineLength;
      ghost var pending := Pending(View());
      len := 0;
      var i := 0;
      while i < inCount - outCount
        invariant 0 <= i <= |pending| && len == 0
        invariant NEWLINE !in pending[..i]
      {
        assert data[outCount + i] == pending[i];
        if data[outCount + i] == NEWLINE {
          len := i + 1;
          break;
        }
        i := i + 1;
      }
      LengthIs(pending, len);
    }

    /** Its copy, with the terminator. */
    method CopyOut(len: nat, dst: array<Byte>)
      requires Valid() && outCount + len <= inCount && len < dst.Length && dst != data
      modifies dst
      ensures dst[..len] == Pending(View())[..len] && dst[len] == 0
    {
      ghost var pending := Pending(View());
      var i := 0;
      while i < len
        invariant 0 <= i <= len
        invariant forall j :: 0 <= j < i ==> dst[j] == pending[j]
      {
        assert pending[i] == data[outCount + i];
        dst[i] := data[outCount + i];
        i := i + 1;
      }
      dst[len] := 0;
    }

    /** `read_line`, once the counter is positive; `granted` is whether `malloc` finds room. */
    method ReadLine(granted: bool) returns (f: Fetched)
      requires Valid() && newLines >= 1
      modifies this`outCount, this`newLines
      ensures Valid() && (View(), f) == Fetch(old(View()), granted)
    {
      hide LineLength, HeapTable.Rounded, Asked;
      var len := Scan();
      if len == 0 || Asked(len) == 0 || !granted {
        return NoLine;
      }
      var dst := new Byte[HeapTable.Rounded(Asked(len))];
      if len + 1 > dst.Length {
        return Overrun;
      }
      CopyOut(len, dst);
      if newLines > 0 {
        newLines := newLines - 1;
      }
      outCount := outCount + len;
      f := Line(dst[..len]);
    }
  }

  lemma LengthIs(s: seq<Byte>, n: nat)
    requires if n == 0 then NEWLINE !in s else n <= |s| && s[n - 1] == NEWLINE && NEWLINE !in s[..n - 1]
    ensures LineLength(s) == n
  {
    var m := LineLength(s);
    if n > 0 {
      assert forall i :: 0 <= i < n - 1 ==> s[i] == s[..n - 1][i];
      assert forall i :: 0 <= i < m - 1 ==> s[i] == s[..m - 1][i];
    }
  }
}
