/** C strings as byte sequences: the part before the first NUL, `strcmp`, and the ASCII reduction of
    UTF-16 used for long names (stage2/STRING/string.c). */
module Text {
  import opened Ints

  const SPACE: Byte := 32
  const DOT: Byte := 46
  const SLASH: Byte := 47
  const QUESTION: Byte := 63

  /** The characters a C function sees. */
  function UpToNul(s: seq<Byte>): (r: seq<Byte>)
    ensures r <= s && 0 !in r
    ensures |r| < |s| ==> s[|r|] == 0
  {
    if s == [] || s[0] == 0 then [] else [s[0]] + UpToNul(s[1..])
  }

  lemma UpToNulIs(s: seq<Byte>, r: seq<Byte>)
    requires r <= s && 0 !in r && (|r| < |s| ==> s[|r|] == 0)
    ensures UpToNul(s) == r
  {
    var q := UpToNul(s);
    assert forall k :: 0 <= k < |r| ==> s[k] == r[k] && r[k] != 0;
    assert forall k :: 0 <= k < |q| ==> s[k] == q[k] && q[k] != 0;
  }

  /** Lexicographic order of strings, by unsigned bytes. */
  predicate Below(s: seq<Byte>, t: seq<Byte>) {
    t != [] && (s == [] || s[0] < t[0] || (s[0] == t[0] && Below(s[1..], t[1..])))
  }

  /** Equal beginnings do not matter to the order. */
  lemma {:induction false} BelowAfter(s: seq<Byte>, t: seq<Byte>, i: nat)
    requires i <= |s| && i <= |t| && s[..i] == t[..i]
    ensures Below(s, t) <==> Below(s[i..], t[i..])
    decreases i
  {
    if i == 0 {
      assert s[0..] == s && t[0..] == t;
    } else {
      assert s[0] == s[..i][0] == t[..i][0] == t[0];
      assert s[1..][..i - 1] == s[..i][1..] && t[1..][..i - 1] == t[..i][1..];
      BelowAfter(s[1..], t[1..], i - 1);
      assert s[1..][i - 1..] == s[i..] && t[1..][i - 1..] == t[i..];
    }
  }

  /** Two strings at the first place `i` where their buffers differ or end. */
  lemma ComparedAt(a: seq<Byte>, b: seq<Byte>, i: nat)
    requires i < |a| && i < |b| && a[..i] == b[..i] && 0 !in a[..i]
    requires a[i] == 0 || a[i] != b[i]
    ensures a[i] == b[i] <==> UpToNul(a) == UpToNul(b)
    ensures a[i] < b[i] <==> Below(UpToNul(a), UpToNul(b))
  {
    hide UpToNul;
    var s, t := UpToNul(a), UpToNul(b);
    UpToNulFrom(a, i);
    UpToNulFrom(b, i);
    BelowAfter(s, t, i);
    assert a[i] != 0 ==> |s| > i && s[i] == a[i];
    assert b[i] != 0 ==> |t| > i && t[i] == b[i];
  }

  lemma UpToNulFrom(text: seq<Byte>, j: nat)
    requires j <= |text| && 0 !in text[..j]
    ensures j <= |UpToNul(text)| && UpToNul(text)[..j] == text[..j]
    ensures j == |text| || text[j] == 0 ==> UpToNul(text) == text[..j]
  {
    assert forall k :: 0 <= k < j ==> text[..j][k] == text[k];
  }

  /** `strcmp` on two terminated buffers. */
  method Strcmp(a: seq<Byte>, b: seq<Byte>) returns (r: int)
    requires 0 in a && 0 in b
    ensures r == 0 <==> UpToNul(a) == UpToNul(b)
    ensures r < 0 <==> Below(UpToNul(a), UpToNul(b))
  {
    hide UpToNul, Below;
    var i := 0;
    while a[i] != 0 && a[i] == b[i]
      invariant i < |a| && i < |b|
      invariant i <= |UpToNul(a)| && i <= |UpToNul(b)|
      invariant a[..i] == b[..i] && 0 !in a[..i]
      decreases |a| - i
    {
      Within(a, i);
      Within(b, i);
      i := i + 1;
    }
    ComparedAt(a, b, i);
    r := a[i] as int - b[i] as int;
  }

  lemma Within(s: seq<Byte>, i: nat)
    requires 0 in s && i < |s| && i <= |UpToNul(s)| && s[i] != 0
    ensures i + 1 <= |UpToNul(s)| && i + 1 < |s|
  {
    assert UpToNul(s) != s;
  }

  /** One UTF-16 unit as ASCII. */
  function ToAscii(unit: U16): Byte {
    if unit <= 0x7F then unit else QUESTION
  }

  function AllAscii(units: seq<U16>): (r: seq<Byte>)
    ensures |r| == |units|
    ensures forall i :: 0 <= i < |r| ==> r[i] == if units[i] < 128 then units[i] else 0x3F
  {
    seq(|units|, i requires 0 <= i < |units| => ToAscii(units[i]))
  }

  /** `utf16_to_ascii`: `len` characters and a terminating NUL. */
  method Utf16ToAscii(src: seq<U16>, dest: array<Byte>)
    requires dest.Length == |src| + 1
    modifies dest
    ensures dest[..] == AllAscii(src) + [0]
  {
    for i := 0 to |src|
      invariant dest[..i] == AllAscii(src)[..i]
    {
      dest[i] := if src[i] <= 0x7F then src[i] else QUESTION;
    }
    dest[|src|] := 0;
    assert dest[..] == dest[..|src|] + [0];
  }
}
