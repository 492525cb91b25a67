/** The bounded printer of stage2/STRING/string.c: `itoa`, the in-place `reverse` and `snprintf`. */
module Snprintf {
  import opened Ints
  import opened Text

  const PERCENT: Byte := 0x25
  const MINUS: Byte := 0x2D
  const ZERO: Byte := 0x30
  const LOWER_A: Byte := 0x61
  const UPPER_A: Byte := 0x41
  const D: Byte := 0x64
  const S: Byte := 0x73
  const U: Byte := 0x75
  const LOWER_X: Byte := 0x78
  const UPPER_X: Byte := 0x58

  // ---------- numerals ----------

  type Base = b: nat | b == 10 || b == 16 witness 10

  function Digit(d: nat, upper: bool): (c: Byte)
    requires d < 16
    ensures DigitValue(c) == d
    ensures c == if upper then "0123456789ABCDEF"[d] as int else "0123456789abcdef"[d] as int
  {
    if d < 10 then ZERO + d else if upper then UPPER_A + (d - 10) else LOWER_A + (d - 10)
  }

  function DigitValue(c: Byte): nat {
    if c < ZERO + 10 then (if c < ZERO then 0 else c - ZERO)
    else if c < LOWER_A then (if c < UPPER_A then 0 else c - UPPER_A + 10)
    else c - LOWER_A + 10
  }

  /** The numeral of `val`, most significant digit first. */
  function Digits(val: nat, base: Base, upper: bool): (s: seq<Byte>)
    ensures |s| >= 1
    decreases val
  {
    (if val < base then [] else Digits(val / base, base, upper)) + [Digit(val % base, upper)]
  }

  /** What a string of digits denotes. */
  function Denotes(s: seq<Byte>, base: Base): nat {
    if s == [] then 0 else Shift(Denotes(s[..|s| - 1], base), base, DigitValue(s[|s| - 1]))
  }

  function Shift(q: nat, base: Base, d: nat): nat {
    q * base + d
  }

  /** Digits of the base in one case, without leading zeros. */
  predicate Numeral(s: seq<Byte>, base: Base, upper: bool)
  {
    && |s| >= 1
    && (s[0] == ZERO ==> |s| == 1)
    && forall i :: 0 <= i < |s| ==> IsDigit(s[i], base, upper)
  }

  predicate IsDigit(c: Byte, base: Base, upper: bool)
  {
    DigitValue(c) < base && c == Digit(DigitValue(c), upper)
  }

  lemma DigitOfDigit(d: nat, base: Base, upper: bool)
    requires d < base
    ensures IsDigit(Digit(d, upper), base, upper) && (Digit(d, upper) == ZERO <==> d == 0)
  {
  }

  lemma ShiftSplits(q: nat, base: Base, d: nat)
    requires d < base
    ensures Shift(q, base, d) / base == q && Shift(q, base, d) % base == d
    ensures Shift(q, base, d) < base <==> q == 0
  {
    if base == 10 {
      assert q * base == 10 * q;
    } else {
      assert q * base == 16 * q;
    }
  }

  lemma ShiftBack(v: nat, base: Base)
    ensures Shift(v / base, base, v % base) == v
    ensures v >= base ==> 0 < v / base < v
  {
    if base == 10 {
      assert v / base * base == v / 10 * 10;
    } else {
      assert v / base * base == v / 16 * 16;
    }
  }

  lemma DenotesShift(s: seq<Byte>, base: Base, c: Byte)
    ensures Denotes(s + [c], base) == Shift(Denotes(s, base), base, DigitValue(c))
  {
    hide Shift;
    assert (s + [c])[..|s|] == s;
  }

  /** The digits of a number grow by one when it does. */
  lemma DigitsShift(q: nat, base: Base, d: nat, upper: bool)
    requires d < base
    ensures Digits(Shift(q, base, d), base, upper)
         == (if q == 0 then [] else Digits(q, base, upper)) + [Digit(d, upper)]
  {
    hide Shift;
    ShiftSplits(q, base, d);
  }

  lemma NumeralShift(s: seq<Byte>, base: Base, d: nat, upper: bool)
    requires d < base && (s == [] || (Numeral(s, base, upper) && s[0] != ZERO))
    ensures Numeral(s + [Digit(d, upper)], base, upper)
  {
    DigitOfDigit(d, base, upper);
  }

  /** The printed digits are a numeral and denote the number. */
  lemma {:induction false} DigitsDenote(val: nat, base: Base, upper: bool)
    ensures Numeral(Digits(val, base, upper), base, upper)
    ensures Denotes(Digits(val, base, upper), base) == val
    ensures val > 0 ==> Digits(val, base, upper)[0] != ZERO
    decreases val
  {
    hide Shift, Denotes, Numeral, Digits, IsDigit;
    var q, d := val / base, val % base;
    ShiftBack(val, base);
    ShiftSplits(q, base, d);
    var init := if q == 0 then [] else Digits(q, base, upper);
    if q > 0 {
      DigitsDenote(q, base, upper);
    }
    DigitOfDigit(d, base, upper);
    DigitsShift(q, base, d, upper);
    DenotesShift(init, base, Digit(d, upper));
    NumeralShift(init, base, d, upper);
    DenotesNothing(base);
  }

  lemma DenotesNothing(base: Base)
    ensures Denotes([], base) == 0
  {
  }

  /** No other numeral denotes the number. */
  lemma {:induction false} NumeralUnique(s: seq<Byte>, base: Base, upper: bool)
    requires Numeral(s, base, upper)
    ensures s == Digits(Denotes(s, base), base, upper)
    ensures s[0] != ZERO ==> Denotes(s, base) > 0
    decreases |s|
  {
    hide Shift, Denotes, Digits;
    var init, last := s[..|s| - 1], s[|s| - 1];
    var q, d := Denotes(init, base), DigitValue(last);
    assert IsDigit(last, base, upper);
    assert s == init + [last];
    DenotesNothing(base);
    DenotesShift(init, base, last);
    DigitsShift(q, base, d, upper);
    ShiftSplits(q, base, d);
    if |s| > 1 {
      assert Numeral(init, base, upper);
      NumeralUnique(init, base, upper);
    } else {
      assert init == [];
      ShiftAlone(base, d);
    }
  }

  lemma ShiftAlone(base: Base, d: nat)
    ensures Shift(0, base, d) == d
  {
  }

  /** A 32-bit number has at most ten digits in base 10 or more. */
  lemma {:induction false} DigitsFew(val: nat, base: Base, upper: bool, k: nat)
    requires 1 <= k && val < Power10(k)
    ensures |Digits(val, base, upper)| <= k
  {
    if val >= base {
      assert k > 1;
      assert val / base <= val / 10;
      DigitsFew(val / base, base, upper, k - 1);
    }
  }

  function Power10(k: nat): (p: nat)
    ensures p > 0
  {
    if k == 0 then 1 else 10 * Power10(k - 1)
  }

  // ---------- itoa ----------

  function Reversed(s: seq<Byte>): (r: seq<Byte>)
    ensures |r| == |s| && forall k :: 0 <= k < |s| ==> r[k] == s[|s| - 1 - k]
  {
    seq(|s|, k requires 0 <= k < |s| => s[|s| - 1 - k])
  }

  /** `reverse`. */
  method Reverse(str: array<Byte>, len: nat)
    requires 0 < len <= str.Length
    modifies str
    ensures str[..] == Reversed(old(str[..len])) + old(str[len..])
  {
    var i, j := 0, len - 1;
    while i < j
      invariant 0 <= i <= j + 1 && i + j == len - 1
      invariant forall k :: 0 <= k < i || j < k < len ==> str[k] == old(str[len - 1 - k])
      invariant forall k :: i <= k <= j || len <= k < str.Length ==> str[k] == old(str[k])
    {
      str[i], str[j] := str[j], str[i];
      i, j := i + 1, j - 1;
    }
  }

  /** `itoa`: the digits come out last first and are reversed in place. */
  method Itoa(val: U32, buf: array<Byte>, base: Base, upper: bool) returns (n: nat)
    requires buf.Length >= 11
    modifies buf
    ensures n < buf.Length && buf[..n] == Digits(val, base, upper) && buf[n] == 0
  {
    hide Digits, Digit, Rest, Reversed;
    if val == 0 {
      buf[0], buf[1] := ZERO, 0;
      DigitsZero(base, upper);
      return 1;
    }
    ghost var all := Rest(val, base, upper);
    RestIs(val, base, upper);
    var i, v := 0, val;
    while v > 0
      invariant i <= 10 && 0 <= v <= val && (i > 0 || v == val)
      invariant all == Rest(v, base, upper) + Reversed(buf[..i])
    {
      RestStep(v, base, upper);
      buf[i] := Digit(v % base, upper);
      ReversedStep(buf[..i], buf[..i + 1]);
      i, v := i + 1, v / base;
    }
    RestNothing(base, upper);
    buf[i] := 0;
    Reverse(buf, i);
    n := i;
  }

  /** The digits still to be produced. */
  function Rest(v: nat, base: Base, upper: bool): seq<Byte> {
    if v == 0 then [] else Digits(v, base, upper)
  }

  lemma RestIs(val: U32, base: Base, upper: bool)
    requires val > 0
    ensures Rest(val, base, upper) == Digits(val, base, upper)
    ensures |Rest(val, base, upper)| <= 10
  {
    assert Power10(10) == 10_000_000_000;
    DigitsFew(val, base, upper, 10);
  }

  lemma DigitsZero(base: Base, upper: bool)
    ensures Digits(0, base, upper) == [ZERO]
  {
  }

  lemma RestStep(v: nat, base: Base, upper: bool)
    requires v > 0
    ensures Rest(v, base, upper) == Rest(v / base, base, upper) + [Digit(v % base, upper)]
    ensures 0 <= v / base < v
  {
    ShiftBack(v, base);
    DigitsShift(v / base, base, v % base, upper);
  }

  lemma RestNothing(base: Base, upper: bool)
    ensures Rest(0, base, upper) == []
  {
  }

  lemma ReversedStep(s: seq<Byte>, t: seq<Byte>)
    requires |t| == |s| + 1 && t[..|s|] == s
    ensures Reversed(t) == [t[|s|]] + Reversed(s)
  {
  }

  // ---------- formatting without a bound ----------

  /** An argument word, and the string found when it is taken as a pointer. */
  datatype Arg = Arg(word: U32, text: seq<Byte>)

  type Args = nat -> Arg

  /** The word as `int32_t`. */
  function Signed(word: U32): (n: int)
    ensures -0x8000_0000 <= n < 0x8000_0000 && (n - word) % LIMIT32 == 0
  {
    if word < 0x8000_0000 then word else word - LIMIT32
  }

  function Decimal(word: U32): seq<Byte> {
    if Signed(word) < 0 then [MINUS] + Digits(-Signed(word), 10, false) else Digits(Signed(word), 10, false)
  }

  /** What a conversion prints. */
  function Converted(c: Byte, arg: Arg): seq<Byte> {
    if c == D then Decimal(arg.word)
    else if c == U then Digits(arg.word, 10, false)
    else if c == LOWER_X || c == UPPER_X then Digits(arg.word, 16, c == UPPER_X)
    else if c == S then UpToNul(arg.text)
    else if c == PERCENT then [PERCENT]
    else []
  }

  predicate TakesArgument(c: Byte) {
    c == D || c == U || c == LOWER_X || c == UPPER_X || c == S
  }

  /** The whole text of a format whose first conversion takes argument `k`. */
  function Formatted(fmt: seq<Byte>, args: Args, k: nat): seq<Byte> {
    if fmt == [] || fmt[0] == 0 then []
    else if fmt[0] != PERCENT then [fmt[0]] + Formatted(fmt[1..], args, k)
    else if |fmt| == 1 || fmt[1] == 0 then []
    else Converted(fmt[1], args(k)) + Formatted(fmt[2..], args, if TakesArgument(fmt[1]) then k + 1 else k)
  }

  /** What a decimal text with an optional sign denotes. */
  function DenotesSigned(s: seq<Byte>): int {
    if s != [] && s[0] == MINUS then -(Denotes(s[1..], 10) as int) else Denotes(s, 10)
  }

  /** `%d` prints the signed number, the least one included; `%u` and `%x` print the word, `%X` in capitals. */
  lemma ConvertedBack(arg: Arg)
    ensures DenotesSigned(Converted(0x64, arg)) == Signed(arg.word)
    ensures Denotes(Converted(0x75, arg), 10) == arg.word
    ensures Denotes(Converted(0x78, arg), 16) == Denotes(Converted(0x58, arg), 16) == arg.word
    ensures Numeral(Converted(0x78, arg), 16, false) && Numeral(Converted(0x58, arg), 16, true)
    ensures Numeral(Converted(0x75, arg), 10, false)
    ensures var s := Converted(0x64, arg);
            s != [] && Numeral(if s[0] == 0x2D then s[1..] else s, 10, false)
  {
    hide Denotes, Digits;
    var n := Signed(arg.word);
    DigitsDenote(arg.word, 10, false);
    DigitsDenote(arg.word, 16, false);
    DigitsDenote(arg.word, 16, true);
    if n < 0 {
      DigitsDenote(-n, 10, false);
      assert Converted(D, arg)[1..] == Digits(-n, 10, false);
    } else {
      DigitsDenote(n, 10, false);
      var s := Digits(n, 10, false);
      assert IsDigit(s[0], 10, false);
      assert s[0] != MINUS;
    }
  }

  /** One conversion alone: what it prints, and whether it takes an argument. `%s` prints its string and `%%` a
      percent sign; an unknown letter prints nothing. */
  lemma OneConversion(c: Byte, args: Args, k: nat)
    requires c != 0
    ensures Formatted([0x25, c], args, k) == Converted(c, args(k))
    ensures Converted(0x73, args(k)) == UpToNul(args(k).text) && Converted(0x25, args(k)) == [0x25]
    ensures c !in [0x64, 0x75, 0x78, 0x58, 0x73, 0x25] ==> Converted(c, args(k)) == []
    ensures Arguments([0x25, c]) == if c in [0x64, 0x75, 0x78, 0x58, 0x73] then 1 else 0
  {
    hide UpToNul, Decimal, Digits;
    var f := [0x25, c];
    assert f[2..] == [];
    FormattedNone(args, if TakesArgument(c) then k + 1 else k);
    FormattedHead(f, args, k);
  }

  /** The text ends at a terminator and at a percent sign with nothing behind it. */
  lemma FormatStops(rest: seq<Byte>, args: Args, k: nat)
    ensures Formatted([0] + rest, args, k) == []
    ensures Formatted([0x25], args, k) == Formatted([0x25, 0] + rest, args, k) == []
  {
  }

  /** The format does not end inside a conversion, and has no terminator. */
  predicate Complete(fmt: seq<Byte>) {
    fmt == [] || (fmt[0] != 0 && if fmt[0] != PERCENT then Complete(fmt[1..])
                                 else |fmt| > 1 && fmt[1] != 0 && Complete(fmt[2..]))
  }

  /** How many arguments the conversions of a format take. */
  function Arguments(fmt: seq<Byte>): nat {
    if fmt == [] then 0
    else if fmt[0] != PERCENT || |fmt| == 1 then Arguments(fmt[1..])
    else (if TakesArgument(fmt[1]) then 1 else 0) + Arguments(fmt[2..])
  }

  /** A format cut between conversions prints its halves one after the other, the second with the
      arguments the first leaves. */
  lemma {:induction false} FormattedAppends(a: seq<Byte>, b: seq<Byte>, args: Args, k: nat)
    requires Complete(a)
    ensures Formatted(a + b, args, k) == Formatted(a, args, k) + Formatted(b, args, k + Arguments(a))
    decreases |a|
  {
    hide Converted, TakesArgument, Formatted;
    if a == [] {
      FormattedNone(args, k);
      assert a + b == b;
      return;
    }
    FormattedHead(a, args, k);
    FormattedHead(a + b, args, k);
    if a[0] != PERCENT {
      assert (a + b)[1..] == a[1..] + b;
      FormattedAppends(a[1..], b, args, k);
      Associates([a[0]], Formatted(a[1..], args, k), Formatted(b, args, k + Arguments(a)));
    } else {
      assert (a + b)[1] == a[1] && (a + b)[2..] == a[2..] + b;
      var next := if TakesArgument(a[1]) then k + 1 else k;
      FormattedAppends(a[2..], b, args, next);
      Associates(Converted(a[1], args(k)), Formatted(a[2..], args, next), Formatted(b, args, k + Arguments(a)));
    }
  }

  /** The first step of a format. */
  lemma FormattedHead(f: seq<Byte>, args: Args, k: nat)
    requires f != [] && f[0] != 0
    ensures f[0] != PERCENT ==> Formatted(f, args, k) == [f[0]] + Formatted(f[1..], args, k)
    ensures f[0] == PERCENT && |f| > 1 && f[1] != 0 ==>
              Formatted(f, args, k) == Converted(f[1], args(k))
                + Formatted(f[2..], args, if TakesArgument(f[1]) then k + 1 else k)
  {
    hide Converted, TakesArgument;
  }

  lemma FormattedNone(args: Args, k: nat)
    ensures Formatted([], args, k) == []
  {
  }

  lemma Associates(x: seq<Byte>, y: seq<Byte>, z: seq<Byte>)
    ensures x + (y + z) == (x + y) + z
  {
  }

  /** Text without `%` prints as it is. */
  lemma {:induction false} LiteralText(fmt: seq<Byte>, args: Args, k: nat)
    requires PERCENT !in fmt && 0 !in fmt
    ensures Formatted(fmt, args, k) == fmt
    decreases |fmt|
  {
    if fmt != [] {
      LiteralText(fmt[1..], args, k);
    }
  }

  // ---------- snprintf ----------

  function Min(a: nat, b: nat): (m: nat)
    ensures m <= a && m <= b && (m == a || m == b)
  {
    if a < b then a else b
  }

  /** As much of `text` as fits below `limit` has been put at `pos`, and nothing else has changed. */
  predicate Appended(now: seq<Byte>, was: seq<Byte>, pos: nat, text: seq<Byte>, limit: nat, end: nat) {
    && pos <= limit <= |was| == |now|
    && end == Min(pos + |text|, limit)
    && now == was[..pos] + text[..end - pos] + was[end..]
  }

  /** `j` characters of `text` are at `pos`, and the rest is as it was. */
  ghost predicate Copied(now: seq<Byte>, was: seq<Byte>, pos: nat, text: seq<Byte>, j: nat) {
    && |now| == |was| && pos + j <= |was| && j <= |text|
    && (forall k :: pos <= k < pos + j ==> now[k] == text[k - pos])
    && (forall k :: 0 <= k < |was| && !(pos <= k < pos + j) ==> now[k] == was[k])
  }

  lemma OneCopied(now: seq<Byte>, mid: seq<Byte>, was: seq<Byte>, pos: nat, text: seq<Byte>, j: nat)
    requires Copied(mid, was, pos, text, j) && pos + j < |was| && j < |text| && now == mid[pos + j := text[j]]
    ensures Copied(now, was, pos, text, j + 1)
  {
  }

  lemma CopiedAppends(now: seq<Byte>, was: seq<Byte>, pos: nat, text: seq<Byte>, limit: nat, j: nat)
    requires Copied(now, was, pos, text, j) && pos + j <= limit <= |was| && (j == |text| || pos + j == limit)
    ensures Appended(now, was, pos, text, limit, pos + j)
  {
    assert now == was[..pos] + text[..j] + was[pos + j..];
  }

  /** The three loops over `tmp`. */
  method AppendDigits(buf: array<Byte>, pos: nat, limit: nat, tmp: array<Byte>, len: nat) returns (end: nat)
    requires buf != tmp && pos <= limit < buf.Length && len <= tmp.Length
    modifies buf
    ensures Appended(buf[..], old(buf[..]), pos, tmp[..len], limit, end)
  {
    hide Copied, Appended;
    ghost var was, text := buf[..], tmp[..len];
    end := pos;
    var j := 0;
    NoneCopied(was, pos, text);
    while j < len && end < limit
      invariant 0 <= j <= len && end == pos + j <= limit
      invariant Copied(buf[..], was, pos, text, j)
    {
      ghost var mid := buf[..];
      assert text[j] == tmp[j];
      buf[end] := tmp[j];
      OneCopied(buf[..], mid, was, pos, text, j);
      end, j := end + 1, j + 1;
    }
    CopiedAppends(buf[..], was, pos, text, limit, j);
  }

  /** The loop of a string argument. */
  method AppendText(buf: array<Byte>, pos: nat, limit: nat, text: seq<Byte>) returns (end: nat)
    requires pos <= limit < buf.Length
    modifies buf
    ensures Appended(buf[..], old(buf[..]), pos, UpToNul(text), limit, end)
  {
    hide UpToNul, Copied, Appended;
    ghost var was, seen := buf[..], UpToNul(text);
    end := pos;
    var j := 0;
    NoneCopied(was, pos, seen);
    while j < |text| && text[j] != 0 && end < limit
      invariant 0 <= j <= |text| && end == pos + j <= limit
      invariant 0 !in text[..j]
      invariant Copied(buf[..], was, pos, seen, j)
    {
      ghost var mid := buf[..];
      UpToNulFrom(text, j + 1);
      assert seen[..j + 1][j] == text[j];
      buf[end] := text[j];
      OneCopied(buf[..], mid, was, pos, seen, j);
      end, j := end + 1, j + 1;
    }
    UpToNulFrom(text, j);
    CopiedAppends(buf[..], was, pos, seen, limit, j);
  }

  lemma NoneCopied(was: seq<Byte>, pos: nat, text: seq<Byte>)
    requires pos <= |was|
    ensures Copied(was, was, pos, text, 0)
  {
  }

  lemma AppendedTwice(now: seq<Byte>, mid: seq<Byte>, was: seq<Byte>, pos: nat, a: seq<Byte>, b: seq<Byte>,
                      limit: nat, at: nat, end: nat)
    requires Appended(mid, was, pos, a, limit, at) && Appended(now, mid, at, b, limit, end)
    ensures Appended(now, was, pos, a + b, limit, end)
  {
    hide Min;
    AppendedEnd(mid, was, pos, a, limit, at);
    AppendedEnd(now, mid, at, b, limit, end);
    MinTwice(pos, |a|, |b|, limit);
    assert mid[..at] == was[..pos] + a[..at - pos];
    if at == pos + |a| {
      assert (a + b)[..end - pos] == a + b[..end - at];
      assert mid[end..] == was[end..];
    } else {
      assert (a + b)[..end - pos] == a[..at - pos];
    }
  }

  lemma AppendedEnd(now: seq<Byte>, was: seq<Byte>, pos: nat, text: seq<Byte>, limit: nat, end: nat)
    requires Appended(now, was, pos, text, limit, end)
    ensures pos <= end <= limit && (end == limit || end == pos + |text|) && end <= pos + |text|
  {
  }

  lemma MinTwice(pos: nat, a: nat, b: nat, limit: nat)
    ensures Min(Min(pos + a, limit) + b, limit) == Min(pos + a + b, limit)
  {
  }

  /** One conversion, after the `%` of the format. */
  method Convert(buf: array<Byte>, pos: nat, limit: nat, tmp: array<Byte>, c: Byte, arg: Arg) returns (end: nat)
    requires pos < limit < buf.Length && tmp.Length == 32 && buf != tmp
    modifies buf, tmp
    ensures Appended(buf[..], old(buf[..]), pos, Converted(c, arg), limit, end) && end <= limit
  {
    hide Digits, UpToNul;
    if c == PERCENT {
      buf[pos] := PERCENT;
      end := pos + 1;
    } else if c == D {
      end := AppendDecimal(buf, pos, limit, tmp, arg.word);
    } else if c == U {
      var len := Itoa(arg.word, tmp, 10, false);
      end := AppendDigits(buf, pos, limit, tmp, len);
    } else if c == LOWER_X || c == UPPER_X {
      var len := Itoa(arg.word, tmp, 16, c == UPPER_X);
      end := AppendDigits(buf, pos, limit, tmp, len);
    } else if c == S {
      end := AppendText(buf, pos, limit, arg.text);
    } else {
      end := pos;
    }
  }

  /** `%d`. Negating the least number wraps to itself, which read as unsigned is its magnitude. */
  method AppendDecimal(buf: array<Byte>, pos: nat, limit: nat, tmp: array<Byte>, word: U32) returns (end: nat)
    requires pos < limit < buf.Length && tmp.Length == 32 && buf != tmp
    modifies buf, tmp
    ensures Appended(buf[..], old(buf[..]), pos, Decimal(word), limit, end)
  {
    hide Digits;
    var at, val := pos, word;
    ghost var sign: seq<Byte> := [];
    if Signed(word) < 0 {
      buf[pos] := MINUS;
      at := pos + 1;
      val := LIMIT32 - word;
      sign := [MINUS];
    }
    ghost var mid := buf[..];
    assert Appended(mid, old(buf[..]), pos, sign, limit, at);
    var len := Itoa(val, tmp, 10, false);
    assert sign + tmp[..len] == Decimal(word);
    end := AppendDigits(buf, at, limit, tmp, len);
    AppendedTwice(buf[..], mid, old(buf[..]), pos, sign, tmp[..len], limit, at, end);
  }

  /** `pos` characters of `whole` are written; unless the bound is reached, `rest` is what is missing. */
  predicate Written(now: seq<Byte>, was: seq<Byte>, pos: nat, limit: nat, whole: seq<Byte>, rest: seq<Byte>) {
    && pos <= limit < |was| == |now|
    && pos <= |whole|
    && now == whole[..pos] + was[pos..]
    && (pos < limit ==> whole == whole[..pos] + rest)
  }

  lemma Grows(now: seq<Byte>, mid: seq<Byte>, was: seq<Byte>, pos: nat, limit: nat, whole: seq<Byte>,
              text: seq<Byte>, rest: seq<Byte>, end: nat)
    requires pos < limit && Written(mid, was, pos, limit, whole, text + rest)
    requires Appended(now, mid, pos, text, limit, end)
    ensures Written(now, was, end, limit, whole, rest)
  {
    assert whole == whole[..pos] + text + rest;
    assert whole[..end] == whole[..pos] + text[..end - pos];
    assert mid[end..] == was[end..];
  }

  /** The text before place `i` of the format, whose next conversion takes argument `k`, is written. */
  predicate Reached(now: seq<Byte>, was: seq<Byte>, pos: nat, limit: nat, fmt: seq<Byte>, args: Args, i: nat, k: nat)
    requires i <= |fmt|
  {
    Written(now, was, pos, limit, Formatted(fmt, args, 0), Formatted(fmt[i..], args, k))
  }

  lemma ReachedStart(was: seq<Byte>, limit: nat, fmt: seq<Byte>, args: Args)
    requires limit < |was|
    ensures Reached(was, was, 0, limit, fmt, args, 0, 0)
  {
    assert fmt[0..] == fmt;
  }

  lemma ReachedCharacter(now: seq<Byte>, mid: seq<Byte>, was: seq<Byte>, pos: nat, limit: nat,
                         fmt: seq<Byte>, args: Args, i: nat, k: nat)
    requires i < |fmt| && fmt[i] != 0 && fmt[i] != PERCENT
    requires pos < limit && Reached(mid, was, pos, limit, fmt, args, i, k) && |mid| > pos && now == mid[pos := fmt[i]]
    ensures Reached(now, was, pos + 1, limit, fmt, args, i + 1, k)
  {
    assert fmt[i..][1..] == fmt[i + 1..];
    Grows(now, mid, was, pos, limit, Formatted(fmt, args, 0), [fmt[i]], Formatted(fmt[i + 1..], args, k), pos + 1);
  }

  lemma ReachedConversion(now: seq<Byte>, mid: seq<Byte>, was: seq<Byte>, pos: nat, limit: nat,
                          fmt: seq<Byte>, args: Args, i: nat, k: nat, end: nat)
    requires i + 1 < |fmt| && fmt[i] == PERCENT && fmt[i + 1] != 0
    requires pos < limit && Reached(mid, was, pos, limit, fmt, args, i, k)
    requires Appended(now, mid, pos, Converted(fmt[i + 1], args(k)), limit, end)
    ensures Reached(now, was, end, limit, fmt, args, i + 2, if TakesArgument(fmt[i + 1]) then k + 1 else k)
  {
    hide Converted, Appended;
    assert fmt[i..][1] == fmt[i + 1] && fmt[i..][2..] == fmt[i + 2..];
    Grows(now, mid, was, pos, limit, Formatted(fmt, args, 0), Converted(fmt[i + 1], args(k)),
          Formatted(fmt[i + 2..], args, if TakesArgument(fmt[i + 1]) then k + 1 else k), end);
  }

  /** Where the loop ends: at the bound, at the end of the format, or at a `%` with nothing after it. */
  lemma ReachedEnd(now: seq<Byte>, was: seq<Byte>, pos: nat, limit: nat, fmt: seq<Byte>, args: Args, i: nat, k: nat)
    requires i <= |fmt| && Reached(now, was, pos, limit, fmt, args, i, k)
    requires pos >= limit || i == |fmt| || fmt[i] == 0
          || (fmt[i] == PERCENT && (i + 1 == |fmt| || fmt[i + 1] == 0))
    ensures pos == Min(|Formatted(fmt, args, 0)|, limit) && now == Formatted(fmt, args, 0)[..pos] + was[pos..]
  {
    assert pos < limit ==> Formatted(fmt[i..], args, k) == [];
  }

  /** The loop of `snprintf`. */
  method Print(buf: array<Byte>, limit: nat, fmt: seq<Byte>, args: Args) returns (pos: nat)
    requires limit < buf.Length
    modifies buf
    ensures pos == Min(|Formatted(fmt, args, 0)|, limit)
    ensures buf[..] == Formatted(fmt, args, 0)[..pos] + old(buf[pos..])
  {
    hide Converted, Formatted, Reached, Appended, Min, Written, TakesArgument;
    ghost var was := buf[..];
    ReachedStart(was, limit, fmt, args);
    var tmp := new Byte[32];
    var k, i := 0, 0;
    pos := 0;
    while i < |fmt| && fmt[i] != 0 && pos < limit
      invariant i <= |fmt| && pos <= limit
      invariant Reached(buf[..], was, pos, limit, fmt, args, i, k)
      decreases |fmt| - i
    {
      ghost var mid, at := buf[..], pos;
      if fmt[i] != PERCENT {
        buf[pos] := fmt[i];
        ReachedCharacter(buf[..], mid, was, pos, limit, fmt, args, i, k);
        pos, i := pos + 1, i + 1;
        continue;
      }
      if i + 1 == |fmt| || fmt[i + 1] == 0 {
        break;
      }
      pos := Convert(buf, pos, limit, tmp, fmt[i + 1], args(k));
      ReachedConversion(buf[..], mid, was, at, limit, fmt, args, i, k, pos);
      k := if TakesArgument(fmt[i + 1]) then k + 1 else k;
      i := i + 2;
    }
    ReachedEnd(buf[..], was, pos, limit, fmt, args, i, k);
  }

  /** `snprintf`: the first characters of the whole text, as many as fit before the terminator, and no
      byte beyond it. */
  method Snprintf(buf: array<Byte>, size: nat, fmt: seq<Byte>, args: Args) returns (pos: nat)
    requires 1 <= size <= buf.Length
    modifies buf
    ensures pos == Min(|Formatted(fmt, args, 0)|, size - 1)
    ensures buf[..] == Formatted(fmt, args, 0)[..pos] + [0] + old(buf[pos + 1..])
  {
    hide Formatted;
    pos := Print(buf, size - 1, fmt, args);
    buf[pos] := 0;
  }
}
