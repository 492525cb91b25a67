/** Directory parsing and lookup: stage2/FAT16/parse_dir.c. */
module FatDir {
  import opened Ints
  import opened Text
  import opened FatChain
  import opened FatNames
  import opened FatVolume

  /** `parsed_dir_entry`, with the raw entry it points at. */
  datatype Entry = Entry(name: seq<Byte>, attributes: Byte, firstCluster: U16, fileSize: U32, raw: Raw)

  /** Room for this many entries overflows the 16-bit size passed to `realloc`, which then frees. */
  const TOO_MANY := 4096

  /** The first `max` entries of a loaded directory. */
  function RawEntries(dir: seq<Byte>, max: nat): (es: seq<Raw>)
    requires ENTRY * max <= |dir|
    ensures |es| == max && forall i :: 0 <= i < max ==> es[i] == dir[ENTRY * i..ENTRY * (i + 1)]
  {
    seq(max, i requires 0 <= i < max => dir[ENTRY * i..ENTRY * (i + 1)])
  }

  predicate IsEnd(e: Raw) { e[0] == 0 }

  predicate IsDeleted(e: Raw) { e[0] == DELETED }

  predicate IsLong(e: Raw) { !IsEnd(e) && !IsDeleted(e) && Attributes(e) == LONG_NAME }

  predicate IsShort(e: Raw) { !IsEnd(e) && !IsDeleted(e) && Attributes(e) != LONG_NAME }

  /** The kinds in the bytes of an entry: 0x00 and 0xE5 first, attributes 0x0F. */
  lemma KindsAre(e: Raw)
    ensures IsEnd(e) <==> e[0] == 0x00
    ensures IsLong(e) <==> e[0] != 0x00 && e[0] != 0xE5 && e[11] == 0x0F
    ensures IsShort(e) <==> e[0] != 0x00 && e[0] != 0xE5 && e[11] != 0x0F
  {
  }

  /** A directory's size field means nothing on disk; the code puts the size of its chain there, or
      what it reads through a NULL chain. */
  function SizeOf(v: Volume, e: Raw): U32 {
    if IsDirectory(Attributes(e)) then
      var n := match Traverse(v.fat, FirstCluster(e)) case None => v.wordAtZero case Some(c) => |c|;
      n * v.bytesPerSector * v.sectorsPerCluster % LIMIT32
    else FileSize(e)
  }

  function NameOf(e: Raw, run: seq<Raw>): seq<Byte> {
    if run == [] then UpToNul(Normalized(ShortName(e))) else LongName(run)
  }

  function MakeEntry(v: Volume, e: Raw, run: seq<Raw>): Entry {
    Entry(NameOf(e, run), Attributes(e), FirstCluster(e), SizeOf(v, e), e)
  }

  // ---------- the directory stream ----------

  /** What the stream from entry `i` on lists, after the unbroken run `run` of long entries. */
  function Listing(v: Volume, es: seq<Raw>, i: nat, run: seq<Raw>): seq<Entry>
    requires i <= |es|
    decreases |es| - i
  {
    if i == |es| || IsEnd(es[i]) then []
    else if IsDeleted(es[i]) then Listing(v, es, i + 1, [])
    else if IsLong(es[i]) then Listing(v, es, i + 1, run + [es[i]])
    else [MakeEntry(v, es[i], run)] + Listing(v, es, i + 1, [])
  }

  function ListAll(v: Volume, es: seq<Raw>): seq<Entry> {
    Listing(v, es, 0, [])
  }

  function Parse(v: Volume, dir: seq<Byte>, max: nat): Option<seq<Entry>>
    requires ENTRY * max <= |dir|
  {
    var all := ListAll(v, RawEntries(dir, max));
    if |all| >= TOO_MANY then None else Some(all)
  }

  // ---------- an independent reading ----------

  /** Entry `i` comes before the first end mark. */
  predicate Reached(es: seq<Raw>, i: nat)
    requires i < |es|
  {
    forall j :: 0 <= j <= i ==> !IsEnd(es[j])
  }

  predicate Listed(es: seq<Raw>, i: nat)
    requires i < |es|
  {
    Reached(es, i) && IsShort(es[i])
  }

  /** The long entries that lie without a break just before entry `i`. */
  function RunBefore(es: seq<Raw>, i: nat): seq<Raw>
    requires i <= |es|
  {
    if i == 0 || !IsLong(es[i - 1]) then [] else RunBefore(es, i - 1) + [es[i - 1]]
  }

  /** The positions below `max` of the short entries that come before an end mark, in order. */
  function Shorts(es: seq<Raw>, max: nat): (s: seq<nat>)
    requires max <= |es|
    ensures forall k :: 0 <= k < |s| ==> s[k] < max
  {
    if max == 0 then []
    else Shorts(es, max - 1) + (if Listed(es, max - 1) then [max - 1] else [])
  }

  /** What the sequence of positions is: increasing, and with every short entry before an end mark. */
  lemma {:induction false} ShortsAre(es: seq<Raw>, max: nat)
    requires max <= |es|
    ensures forall j, k :: 0 <= j < k < |Shorts(es, max)| ==> Shorts(es, max)[j] < Shorts(es, max)[k]
    ensures forall i: nat :: i in Shorts(es, max) <==> i < max && Listed(es, i)
  {
    if max > 0 {
      ShortsAre(es, max - 1);
    }
  }

  function Described(v: Volume, es: seq<Raw>, s: seq<nat>): (r: seq<Entry>)
    requires forall k :: 0 <= k < |s| ==> s[k] < |es|
    ensures |r| == |s|
    ensures forall k :: 0 <= k < |s| ==> r[k] == MakeEntry(v, es[s[k]], RunBefore(es, s[k]))
  {
    seq(|s|, k requires 0 <= k < |s| => MakeEntry(v, es[s[k]], RunBefore(es, s[k])))
  }

  /** The recursive reading of the stream is the positional one: one result for each short entry before
      the first end mark, in order, named by the long entries that lie unbroken before it. */
  lemma ListingIs(v: Volume, es: seq<Raw>)
    ensures ListAll(v, es) == Described(v, es, Shorts(es, |es|))
  {
    hide Described, MakeEntry;
    ListingFrom(v, es, 0);
    assert Shorts(es, 0) == [] && RunBefore(es, 0) == [] && Described(v, es, []) == [];
    assert [] + ListAll(v, es) == ListAll(v, es);
  }

  lemma {:induction false} ListingFrom(v: Volume, es: seq<Raw>, i: nat)
    requires i <= |es| && (i > 0 ==> Reached(es, i - 1))
    ensures Described(v, es, Shorts(es, i)) + Listing(v, es, i, RunBefore(es, i))
         == Described(v, es, Shorts(es, |es|))
    decreases |es| - i
  {
    hide MakeEntry, Described;
    var now := Described(v, es, Shorts(es, i));
    if i == |es| {
    } else if IsEnd(es[i]) {
      NoneAfterEnd(es, i, |es|);
    } else {
      assert Reached(es, i);
      ListingFrom(v, es, i + 1);
      var rest := Listing(v, es, i + 1, RunBefore(es, i + 1));
      if IsShort(es[i]) {
        var p := MakeEntry(v, es[i], RunBefore(es, i));
        assert Described(v, es, Shorts(es, i + 1)) == now + [p];
        assert now + ([p] + rest) == (now + [p]) + rest;
      }
    }
  }

  lemma {:induction false} NoneAfterEnd(es: seq<Raw>, i: nat, max: nat)
    requires i < max <= |es| && IsEnd(es[i])
    ensures Shorts(es, max) == Shorts(es, i)
  {
    assert !Reached(es, max - 1);
    if i < max - 1 {
      NoneAfterEnd(es, i, max - 1);
    }
  }

  // ---------- the code ----------

  /** `parse_dir` on a loaded directory; allocations of a non-zero size succeed. */
  method ParseDir(v: Volume, dir: seq<Byte>, maxEntries: nat) returns (pd: Option<seq<Entry>>)
    requires ENTRY * maxEntries <= |dir|
    ensures pd == Parse(v, dir, maxEntries)
  {
    hide MakeEntry, Kept, Parsed, Described, Shorts;
    var entries: seq<Entry> := [];
    var buf := new LfnBuffer();
    ghost var run: seq<Raw> := [];
    var es := RawEntries(dir, maxEntries);
    ghost var all := ListAll(v, es);
    ParsedNone();
    for i := 0 to maxEntries
      invariant fresh(buf) && buf.Valid() && buf.entries == Parsed(Kept(run))
      invariant |entries| < TOO_MANY
      invariant all == entries + Listing(v, es, i, run)
    {
      var e := es[i];
      if e[0] == 0 {
        assert all == entries;
        return Some(entries);
      }
      if e[0] == DELETED {
        buf.Clear();
        run := [];
        continue;
      }
      if e[11] == LONG_NAME {
        var stored := buf.ParseEntry(e);
        KeptGrows(run, e);
        run := run + [e];
        continue;
      }
      var p := ReadShort(v, buf, e, run);
      buf.Clear();
      if (|entries| + 1) * 16 % LIMIT16 == 0 {
        return None;
      }
      ghost var rest := Listing(v, es, i + 1, []);
      assert entries + ([p] + rest) == (entries + [p]) + rest;
      entries := entries + [p];
      run := [];
    }
    assert all == entries;
    return Some(entries);
  }

  lemma ParsedNone()
    ensures Parsed(Kept([])) == []
  {
  }

  /** The part of the loop for one short entry. */
  method ReadShort(v: Volume, buf: LfnBuffer, e: Raw, ghost run: seq<Raw>) returns (p: Entry)
    requires buf.Valid() && buf.entries == Parsed(Kept(run))
    ensures p == MakeEntry(v, e, run)
  {
    var size: U32 := FileSize(e);
    if IsDirectory(e[11]) {
      var chain := TraverseChain(v.fat, FirstCluster(e));
      var count := if chain.None? then v.wordAtZero else |chain.value|;
      size := count * v.bytesPerSector * v.sectorsPerCluster % LIMIT32;
    }
    var name := ReadName(buf, e, run);
    p := Entry(name, e[11], FirstCluster(e), size, e);
  }

  /** The name of a short entry, as the string later comparisons see. */
  method ReadName(buf: LfnBuffer, e: Raw, ghost run: seq<Raw>) returns (name: seq<Byte>)
    requires buf.Valid() && buf.entries == Parsed(Kept(run))
    ensures name == NameOf(e, run)
  {
    if |buf.entries| > 0 {
      var long := buf.ParseBuffer();
      name := UpToNul(long[..]);
    } else {
      var short := NormalizeSfn(ShortName(e));
      name := UpToNul(short[..]);
    }
  }

  lemma KeptGrows(run: seq<Raw>, e: Raw)
    ensures Parsed(Kept(run + [e]))
         == Parsed(Kept(run)) + (if |Kept(run)| < MOST then [ParseLong(e)] else [])
  {
  }

  /** The first entry of that name. */
  predicate IsFirstNamed(entries: seq<Entry>, name: seq<Byte>, k: nat) {
    && k < |entries|
    && entries[k].name == name
    && forall j :: 0 <= j < k ==> entries[j].name != name
  }

  function Find(entries: seq<Entry>, name: seq<Byte>): (r: Option<Entry>)
    ensures r.Some? ==> exists k: nat :: IsFirstNamed(entries, name, k) && entries[k] == r.value
    ensures r.None? ==> forall j :: 0 <= j < |entries| ==> entries[j].name != name
  {
    if entries == [] then None
    else if entries[0].name == name then
      assert IsFirstNamed(entries, name, 0);
      Some(entries[0])
    else
      var r := Find(entries[1..], name);
      assert r.Some? ==> exists k: nat :: IsFirstNamed(entries, name, k) && entries[k] == r.value by {
        if r.Some? {
          var k: nat :| IsFirstNamed(entries[1..], name, k) && entries[1..][k] == r.value;
          assert IsFirstNamed(entries, name, k + 1);
        }
      }
      r
  }

  lemma FindIs(entries: seq<Entry>, name: seq<Byte>, k: nat)
    requires IsFirstNamed(entries, name, k)
    ensures Find(entries, name) == Some(entries[k])
  {
    var r := Find(entries, name);
    if r.Some? {
      var j: nat :| IsFirstNamed(entries, name, j) && entries[j] == r.value;
      assert j == k;
    }
  }

  /** `find_parsed_dir_entry`, for a name without NUL. */
  method FindEntry(entries: seq<Entry>, name: seq<Byte>) returns (r: Option<Entry>)
    requires 0 !in name && forall i :: 0 <= i < |entries| ==> 0 !in entries[i].name
    ensures r == Find(entries, name)
  {
    for i := 0 to |entries|
      invariant forall j :: 0 <= j < i ==> entries[j].name != name
    {
      var c := Strcmp(entries[i].name + [0], name + [0]);
      UpToNulIs(entries[i].name + [0], entries[i].name);
      UpToNulIs(name + [0], name);
      if c == 0 {
        FindIs(entries, name, i);
        return Some(entries[i]);
      }
    }
    return None;
  }

  /** The names a listing gives are proper C strings. */
  lemma NamesHaveNoNul(v: Volume, es: seq<Raw>)
    ensures forall k :: 0 <= k < |ListAll(v, es)| ==> 0 !in ListAll(v, es)[k].name
  {
    ListingIs(v, es);
    var s := Shorts(es, |es|);
    forall k | 0 <= k < |s|
      ensures 0 !in MakeEntry(v, es[s[k]], RunBefore(es, s[k])).name
    {
      JoinedNoNul(Parsed(Kept(RunBefore(es, s[k]))));
    }
  }
}
