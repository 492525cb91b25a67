/** Directory entries and long file names: stage2/FAT16/lfn.c and the entry layouts of the Microsoft
    FAT specification, sections "FAT Directory Structure" and "FAT Long Directory Entries". */
module FatNames {
  import opened Ints
  import opened Text

  const ENTRY := 32

  /** The 32 bytes of one directory entry. */
  type Raw = s: seq<Byte> | |s| == ENTRY witness seq(ENTRY, _ => 0)

  const LONG_NAME: Byte := 0x0F
  const DIRECTORY: Byte := 0x10
  const DELETED: Byte := 0xE5

  function Word16(e: Raw, at: nat): U16
    requires at + 1 < ENTRY
  {
    e[at] as int + 256 * (e[at + 1] as int)
  }

  function ShortName(e: Raw): seq<Byte> { e[..11] }

  function Attributes(e: Raw): Byte { e[11] }

  function FirstCluster(e: Raw): U16 { Word16(e, 26) }

  function FileSize(e: Raw): U32 { Word16(e, 28) as int + LIMIT16 * (Word16(e, 30) as int) }

  predicate IsDirectory(attributes: Byte) {
    attributes / DIRECTORY % 2 == 1
  }

  // ---------- long-name fragments ----------

  const UNITS := 13

  /** The thirteen name units of a long entry lie in three groups of five, six and two. */
  function Units(e: Raw): (us: seq<U16>)
    ensures |us| == UNITS
  {
    [Word16(e, 1), Word16(e, 3), Word16(e, 5), Word16(e, 7), Word16(e, 9),
     Word16(e, 14), Word16(e, 16), Word16(e, 18), Word16(e, 20), Word16(e, 22), Word16(e, 24),
     Word16(e, 28), Word16(e, 30)]
  }

  /** Where unit `k` lies in the entry. */
  function UnitOffset(k: nat): nat {
    if k < 5 then 1 + 2 * k else if k < 11 then 14 + 2 * (k - 5) else 28 + 2 * (k - 11)
  }

  lemma UnitAt(e: Raw, k: nat)
    requires k < UNITS
    ensures Units(e)[k] == Word16(e, UnitOffset(k))
  {
  }

  /** A parsed long entry: thirteen characters and a NUL. */
  datatype Fragment = Fragment(order: Byte, checksum: Byte, name: seq<Byte>)

  function ParseLong(e: Raw): (f: Fragment)
    ensures |f.name| == UNITS + 1 && f.name[UNITS] == 0
  {
    Fragment(e[0] % 32, e[13], AllAscii(Units(e)) + [0])
  }

  const MOST := 20

  function Parsed(run: seq<Raw>): (fs: seq<Fragment>)
    ensures |fs| == |run| && forall i :: 0 <= i < |fs| ==> fs[i] == ParseLong(run[i])
  {
    seq(|run|, i requires 0 <= i < |run| => ParseLong(run[i]))
  }

  /** The name in a run of fragments: the last one stored comes first, each up to its NUL. */
  function Joined(fs: seq<Fragment>): seq<Byte> {
    if fs == [] then [] else Joined(fs[1..]) + UpToNul(fs[0].name)
  }

  lemma JoinedNoNul(fs: seq<Fragment>)
    ensures 0 !in Joined(fs)
  {
  }

  /** Only the first twenty fragments of a run are kept. */
  function Kept(run: seq<Raw>): seq<Raw> {
    if |run| <= MOST then run else run[..MOST]
  }

  /** A name has at most 20 fragments of 13 characters: 255 and five of padding. */
  lemma MostKept(run: seq<Raw>)
    ensures |run| <= 20 ==> Kept(run) == run
    ensures |run| > 20 ==> Kept(run) == run[..20]
  {
  }

  function LongName(run: seq<Raw>): seq<Byte> {
    Joined(Parsed(Kept(run)))
  }

  // ---------- short names ----------

  function UpToSpace(s: seq<Byte>): (r: seq<Byte>)
    ensures r <= s && |r| <= |s| && SPACE !in r
    ensures |r| < |s| ==> s[|r|] == SPACE
  {
    if s == [] || s[0] == SPACE then [] else [s[0]] + UpToSpace(s[1..])
  }

  lemma UpToSpaceIs(s: seq<Byte>, n: nat)
    requires n <= |s| && SPACE !in s[..n] && (n < |s| ==> s[n] == SPACE)
    ensures UpToSpace(s) == s[..n]
  {
    var q, r := UpToSpace(s), s[..n];
    assert forall k :: 0 <= k < |r| ==> s[k] == r[k] && r[k] != SPACE;
    assert forall k :: 0 <= k < |q| ==> s[k] == q[k] && q[k] != SPACE;
  }

  /** The stem without padding and, unless it is blank, a dot and the extension without padding. */
  function Normalized(sfn: seq<Byte>): (r: seq<Byte>)
    requires |sfn| == 11
    ensures |r| <= 12
  {
    UpToSpace(sfn[..8]) + (if sfn[8] != SPACE then [DOT] + UpToSpace(sfn[8..]) else [])
  }

  // ---------- the code ----------

  /** `LFN_buffer`: the fragments collected for the next short entry, at most twenty. */
  class LfnBuffer {
    var entries: seq<Fragment>

    ghost predicate Valid()
      reads this
    {
      && |entries| <= MOST
      && forall i :: 0 <= i < |entries| ==>
           |entries[i].name| == UNITS + 1 && entries[i].name[UNITS] == 0
    }

    constructor ()
      ensures Valid() && entries == []
    {
      entries := [];
    }

    /** `lfn_buffer_clear`. */
    method Clear()
      modifies this
      ensures Valid() && entries == []
    {
      entries := [];
    }

    /** `parse_LFN_entry`: false, and nothing stored, when the buffer is full. */
    method ParseEntry(e: Raw) returns (stored: bool)
      requires Valid()
      modifies this
      ensures Valid()
      ensures stored <==> |old(entries)| < MOST
      ensures entries == old(entries) + (if stored then [ParseLong(e)] else [])
    {
      if |entries| >= MOST {
        return false;
      }
      var tmp := Gather(e);
      var name := new Byte[UNITS + 1](_ => 0);
      Utf16ToAscii(tmp[..], name);
      entries := entries + [Fragment(e[0] % 32, e[13], name[..])];
      return true;
    }

    /** The three copies of `parse_LFN_entry`. */
    static method Gather(e: Raw) returns (tmp: array<U16>)
      ensures fresh(tmp) && tmp[..] == Units(e)
    {
      tmp := new U16[UNITS](_ => 0);
      var idx := 0;
      for i := 0 to 5
        invariant idx == i && forall k :: 0 <= k < idx ==> tmp[k] == Units(e)[k]
      {
        UnitAt(e, idx);
        tmp[idx] := Word16(e, 1 + 2 * i);
        idx := idx + 1;
      }
      for i := 0 to 6
        invariant idx == 5 + i && forall k :: 0 <= k < idx ==> tmp[k] == Units(e)[k]
      {
        UnitAt(e, idx);
        tmp[idx] := Word16(e, 14 + 2 * i);
        idx := idx + 1;
      }
      for i := 0 to 2
        invariant idx == 11 + i && forall k :: 0 <= k < idx ==> tmp[k] == Units(e)[k]
      {
        UnitAt(e, idx);
        tmp[idx] := Word16(e, 28 + 2 * i);
        idx := idx + 1;
      }
    }

    /** `parse_LFN_buffer`: the joined name as a terminated string in a zeroed buffer; NULL when there
        are no fragments. */
    method ParseBuffer() returns (name: array?<Byte>)
      requires Valid()
      ensures name == null <==> entries == []
      ensures name != null ==> fresh(name) && UpToNul(name[..]) == Joined(entries) && 0 in name[..]
    {
      hide UpToNul;
      if |entries| == 0 {
        return null;
      }
      var totalLen := |entries| * UNITS;
      name := new Byte[totalLen + 1](_ => 0);
      var pos := 0;
      var i := |entries|;
      while i > 0
        invariant 0 <= i <= |entries|
        invariant pos <= (|entries| - i) * UNITS
        invariant name[..pos] == Joined(entries[i..])
      {
        i := i - 1;
        ghost var before := name[..pos];
        var start := pos;
        pos := CopyFragment(entries[i].name, name, pos);
        assert name[..start] == before;
        assert name[..pos] == name[..start] + name[start..pos];
        assert entries[i..][1..] == entries[i + 1..];
      }
      name[pos] := 0;
      JoinedNoNul(entries);
      assert entries[0..] == entries;
      UpToNulIs(name[..], name[..pos]);
    }

    /** The characters of one fragment, up to its NUL, stored from `at` on. */
    static method CopyFragment(fragment: seq<Byte>, name: array<Byte>, at: nat) returns (pos: nat)
      requires |fragment| == UNITS + 1 && fragment[UNITS] == 0 && at + UNITS <= name.Length
      modifies name
      ensures at <= pos <= at + UNITS && name[at..pos] == UpToNul(fragment)
      ensures forall i | 0 <= i < name.Length && !(at <= i < pos) :: name[i] == old(name[i])
    {
      hide UpToNul;
      pos := at;
      var j := 0;
      while j < UNITS && fragment[j] != 0
        invariant 0 <= j <= UNITS && pos == at + j
        invariant 0 !in fragment[..j] && name[at..pos] == fragment[..j]
        invariant forall i | 0 <= i < name.Length && !(at <= i < pos) :: name[i] == old(name[i])
      {
        name[pos] := fragment[j];
        pos := pos + 1;
        j := j + 1;
      }
      FragmentDone(fragment, j);
    }

    static lemma FragmentDone(fragment: seq<Byte>, j: nat)
      requires |fragment| == UNITS + 1 && j <= UNITS && 0 !in fragment[..j]
      requires j == UNITS || fragment[j] == 0
      requires fragment[UNITS] == 0
      ensures UpToNul(fragment) == fragment[..j]
    {
      UpToNulIs(fragment, fragment[..j]);
    }
  }

  /** One loop of `normalize_SFN`: the characters of `src` up to a blank, stored from `at` on. */
  method CopyToSpace(src: seq<Byte>, out: array<Byte>, at: nat) returns (pos: nat)
    requires at + |src| <= out.Length
    modifies out
    ensures pos == at + |UpToSpace(src)|
    ensures out[at..pos] == UpToSpace(src)
    ensures forall i | 0 <= i < out.Length && !(at <= i < pos) :: out[i] == old(out[i])
  {
    hide UpToSpace;
    var n := 0;
    while n < |src| && src[n] != SPACE
      invariant 0 <= n <= |src|
      invariant out[at..at + n] == src[..n] && SPACE !in src[..n]
      invariant forall i | 0 <= i < out.Length && !(at <= i < at + n) :: out[i] == old(out[i])
    {
      out[at + n] := src[n];
      n := n + 1;
    }
    UpToSpaceIs(src, n);
    pos := at + n;
  }

  /** `normalize_SFN`: the name in a zeroed 13-byte buffer. */
  method NormalizeSfn(sfn: seq<Byte>) returns (out: array<Byte>)
    requires |sfn| == 11
    ensures fresh(out) && out.Length == 13 && 0 in out[..]
    ensures out[..|Normalized(sfn)|] == Normalized(sfn)
    ensures UpToNul(out[..]) == UpToNul(Normalized(sfn))
  {
    hide UpToSpace, UpToNul;
    out := new Byte[13](_ => 0);
    var pos := CopyToSpace(sfn[..8], out, 0);
    ghost var stem := UpToSpace(sfn[..8]);
    assert out[..pos] == stem;
    if sfn[8] != SPACE {
      out[pos] := DOT;
      pos := CopyToSpace(sfn[8..], out, pos + 1);
      assert out[..|stem|] == stem && out[|stem|] == DOT;
      Spliced(out[..], |stem|, pos);
    } else {
      assert stem + [] == stem;
    }
    ghost var text := out[..pos];
    assert text == Normalized(sfn);
    out[pos] := 0;
    assert out[..pos] == text;
    Terminated(out[..], pos);
  }

  lemma Spliced(s: seq<Byte>, a: nat, b: nat)
    requires a < b <= |s|
    ensures s[..b] == s[..a] + ([s[a]] + s[a + 1..b])
  {
  }

  lemma Terminated(s: seq<Byte>, n: nat)
    requires n < |s| && s[n] == 0
    ensures UpToNul(s) == UpToNul(s[..n])
  {
    var r := UpToNul(s[..n]);
    UpToNulIs(s, r);
  }
}
