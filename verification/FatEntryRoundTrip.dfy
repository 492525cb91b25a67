/** Short entries written as the Microsoft FAT specification says ("FAT Directory Structure") come back with
    their name, attributes, first cluster and size, through the directory, `open` and `get_file_size`. */
module FatEntryRoundTrip {
  import opened Ints
  import opened Text
  import opened StrSplit
  import opened FatNames
  import opened FatVolume
  import opened FatDir
  import opened FatOpen
  import FatNameRoundTrip

  /** The 32 bytes of a short entry; numbers are stored least significant byte first. `other` are the
      fourteen bytes of dates and reserved fields. */
  function ShortEntry(name: seq<Byte>, attributes: Byte, other: seq<Byte>, cluster: U16, size: U32): (e: Raw)
    requires |name| == 11 && |other| == 14
  {
    name + [attributes] + other
    + [cluster % 0x100, cluster / 0x100]
    + [size % 0x100, size / 0x100 % 0x100, size / 0x1_0000 % 0x100, size / 0x100_0000]
  }

  /** Every field is read back. */
  lemma FieldsBack(name: seq<Byte>, attributes: Byte, other: seq<Byte>, cluster: U16, size: U32)
    requires |name| == 11 && |other| == 14
    ensures var e := ShortEntry(name, attributes, other, cluster, size);
            && ShortName(e) == name && Attributes(e) == attributes
            && FirstCluster(e) == cluster && FileSize(e) == size
  {
    var e := ShortEntry(name, attributes, other, cluster, size);
    assert e[11] == attributes;
    assert e[26] == cluster % 0x100 && e[27] == cluster / 0x100;
    assert e[28] == size % 0x100 && e[29] == size / 0x100 % 0x100;
    assert e[30] == size / 0x1_0000 % 0x100 && e[31] == size / 0x100_0000;
    SizeDigits(size);
  }

  lemma SizeDigits(size: U32)
    ensures size % 0x100 + 0x100 * (size / 0x100 % 0x100)
         + 0x1_0000 * (size / 0x1_0000 % 0x100 + 0x100 * (size / 0x100_0000)) == size
  {
    assert size / 0x1_0000 == size / 0x100 / 0x100;
    assert size / 0x100_0000 == size / 0x1_0000 / 0x100;
  }

  /** The directory bit. */
  lemma DirectoryBit(attributes: Byte)
    ensures IsDirectory(attributes) <==> (attributes as bv8) & 0x10 != 0
  {
    var b := attributes as bv8;
    assert (b & 0x10 != 0) <==> (b / 16) % 2 == 1;
  }

  // ---------- 8.3 names ----------

  /** Characters of a stem or extension: not blank, not NUL. */
  predicate IsDosPart(s: seq<Byte>) {
    forall i :: 0 <= i < |s| ==> s[i] != 0x20 && s[i] != 0
  }

  function Blanks(n: nat): (s: seq<Byte>)
    ensures |s| == n && forall i :: 0 <= i < n ==> s[i] == 0x20
  {
    seq(n, _ => 0x20)
  }

  function DosName(stem: seq<Byte>, ext: seq<Byte>): (name: seq<Byte>)
    requires |stem| <= 8 && |ext| <= 3
    ensures |name| == 11
  {
    stem + Blanks(8 - |stem|) + (ext + Blanks(3 - |ext|))
  }

  function Dotted(stem: seq<Byte>, ext: seq<Byte>): seq<Byte> {
    if ext == [] then stem else stem + [0x2E] + ext
  }

  /** The padded eleven bytes normalise to stem, dot and extension. */
  lemma DosNameBack(stem: seq<Byte>, ext: seq<Byte>)
    requires 1 <= |stem| <= 8 && |ext| <= 3 && IsDosPart(stem) && IsDosPart(ext)
    ensures Normalized(DosName(stem, ext)) == Dotted(stem, ext)
    ensures UpToNul(Dotted(stem, ext)) == Dotted(stem, ext)
  {
    hide UpToSpace, UpToNul;
    var name := DosName(stem, ext);
    assert name[..8] == stem + Blanks(8 - |stem|);
    assert name[8..] == ext + Blanks(3 - |ext|);
    assert name[8] == name[8..][0];
    PaddedBack(stem, 8 - |stem|);
    PaddedBack(ext, 3 - |ext|);
    UpToNulIs(Dotted(stem, ext), Dotted(stem, ext));
  }

  lemma PaddedBack(s: seq<Byte>, n: nat)
    requires IsDosPart(s)
    ensures UpToSpace(s + Blanks(n)) == s
  {
    assert (s + Blanks(n))[..|s|] == s;
    UpToSpaceIs(s + Blanks(n), |s|);
  }

  // ---------- in a directory ----------

  /** Entry `i` is such an entry; an end mark has not come before, and no long name belongs to it. */
  ghost predicate Holds(es: seq<Raw>, i: nat, e: Raw) {
    && i < |es| && es[i] == e
    && (forall j :: 0 <= j < i ==> es[j][0] != 0x00)
    && (i > 0 ==> es[i - 1][0] == 0xE5 || es[i - 1][11] != 0x0F)
  }

  /** What the code makes of an encoded entry. */
  ghost predicate Describes(p: Entry, stem: seq<Byte>, ext: seq<Byte>, attributes: Byte, cluster: U16, size: U32, e: Raw) {
    && p.name == Dotted(stem, ext) && p.attributes == attributes && p.firstCluster == cluster && p.raw == e
    && ((attributes as bv8) & 0x10 == 0 ==> p.fileSize == size)
  }

  /** With or without a long name before it, the fields are those written. */
  lemma FieldsMade(v: Volume, name: seq<Byte>, attributes: Byte, other: seq<Byte>, cluster: U16, size: U32,
                   run: seq<Raw>)
    requires |name| == 11 && |other| == 14
    ensures var e := ShortEntry(name, attributes, other, cluster, size);
            var p := MakeEntry(v, e, run);
            && p.attributes == attributes && p.firstCluster == cluster && p.raw == e
            && ((attributes as bv8) & 0x10 == 0 ==> p.fileSize == size)
  {
    hide ShortEntry, FirstCluster, FileSize, Attributes, ShortName, IsDirectory, NameOf;
    FieldsBack(name, attributes, other, cluster, size);
    DirectoryBit(attributes);
  }

  lemma MadeBack(v: Volume, stem: seq<Byte>, ext: seq<Byte>, attributes: Byte, other: seq<Byte>,
                 cluster: U16, size: U32)
    requires 1 <= |stem| <= 8 && |ext| <= 3 && IsDosPart(stem) && IsDosPart(ext) && |other| == 14
    ensures var e := ShortEntry(DosName(stem, ext), attributes, other, cluster, size);
            Describes(MakeEntry(v, e, []), stem, ext, attributes, cluster, size, e)
  {
    hide ShortEntry, FirstCluster, FileSize, Attributes, ShortName, Normalized, DosName, IsDirectory;
    FieldsBack(DosName(stem, ext), attributes, other, cluster, size);
    DosNameBack(stem, ext);
    DirectoryBit(attributes);
  }

  lemma HeldListed(es: seq<Raw>, i: nat, e: Raw)
    requires Holds(es, i, e) && e[0] != 0x00 && e[0] != 0xE5 && e[11] != 0x0F
    ensures Listed(es, i) && RunBefore(es, i) == []
  {
    KindsAre(e);
    forall j | 0 <= j <= i
      ensures !IsEnd(es[j])
    {
      KindsAre(es[j]);
    }
    if i > 0 {
      KindsAre(es[i - 1]);
    }
  }

  /** The parsed directory has an entry with the name and the fields written. */
  lemma ShortEntryListed(v: Volume, es: seq<Raw>, i: nat, stem: seq<Byte>, ext: seq<Byte>, attributes: Byte,
                         other: seq<Byte>, cluster: U16, size: U32)
    requires 1 <= |stem| <= 8 && |ext| <= 3 && IsDosPart(stem) && IsDosPart(ext) && |other| == 14
    requires stem[0] != 0xE5 && attributes != 0x0F
    requires Holds(es, i, ShortEntry(DosName(stem, ext), attributes, other, cluster, size))
    ensures Listed(es, i)
    ensures exists k :: 0 <= k < |ListAll(v, es)|
                     && Describes(ListAll(v, es)[k], stem, ext, attributes, cluster, size, es[i])
  {
    hide Describes, ListAll, MakeEntry, RunBefore, Listed;
    var e := es[i];
    assert e[0] == stem[0] && e[11] == attributes;
    HeldListed(es, i, e);
    MadeBack(v, stem, ext, attributes, other, cluster, size);
    FatNameRoundTrip.ListedAt(v, es, i);
  }

  // ---------- on a path ----------

  /** No short entry before `i` is listed under the name. */
  ghost predicate NotBefore(v: Volume, es: seq<Raw>, i: nat, name: seq<Byte>)
    requires i <= |es|
  {
    forall j: nat :: j < i && Listed(es, j) ==> NameOf(es[j], RunBefore(es, j)) != name
  }

  lemma FirstInListing(v: Volume, es: seq<Raw>, i: nat, name: seq<Byte>)
    requires i < |es| && Listed(es, i) && NotBefore(v, es, i, name)
    requires NameOf(es[i], RunBefore(es, i)) == name
    ensures Find(ListAll(v, es), name) == Some(MakeEntry(v, es[i], RunBefore(es, i)))
  {
    hide ListAll, Listed, RunBefore, NameOf, Shorts, Find;
    ListingIs(v, es);
    ShortsAre(es, |es|);
    var s, all := Shorts(es, |es|), ListAll(v, es);
    var k :| 0 <= k < |s| && s[k] == i;
    assert all[k] == MakeEntry(v, es[i], RunBefore(es, i));
    forall j | 0 <= j < k
      ensures all[j].name != name
    {
      assert s[j] in s && s[j] < i;
      assert all[j] == MakeEntry(v, es[s[j]], RunBefore(es, s[j]));
    }
    FindIs(all, name, k);
  }

  lemma OnePiece(name: seq<Byte>)
    requires name != [] && 0x2F !in name
    ensures Pieces(name, SLASH) == [name]
  {
    assert name[0..|name|] == name;
    assert SpansFrom(name, SLASH, 0, 0) == [Span(0, |name|)] by {
      OneSpan(name, 0);
    }
  }

  lemma {:induction false} OneSpan(name: seq<Byte>, i: nat)
    requires name != [] && 0x2F !in name && i <= |name|
    ensures SpansFrom(name, SLASH, 0, i) == [Span(0, |name|)]
    decreases |name| - i
  {
    if i < |name| {
      OneSpan(name, i + 1);
    }
  }

  /** A file in the root, written with a short entry: `open` resolves its name to what its first cluster
      loads as, and `get_file_size`, which returns the size field of that entry, to the size written. */
  lemma EncodedFile(v: Volume, i: nat, stem: seq<Byte>, ext: seq<Byte>, attributes: Byte, other: seq<Byte>,
                    cluster: U16, size: U32, bytes: seq<Byte>)
    requires Mounted(v) && Loads(v, cluster, bytes)
    requires 1 <= |stem| <= 8 && |ext| <= 3 && IsDosPart(stem) && IsDosPart(ext) && |other| == 14
    requires stem[0] != 0xE5 && 0x2F !in stem && 0x2F !in ext
    requires attributes != 0x0F && (attributes as bv8) & 0x10 == 0
    requires var es := RawEntries(v.rootDir, v.rootDirEntries);
             && Holds(es, i, ShortEntry(DosName(stem, ext), attributes, other, cluster, size))
             && NotBefore(v, es, i, Dotted(stem, ext)) && |ListAll(v, es)| < TOO_MANY
    ensures var r := ResolvePath(v, Dotted(stem, ext));
            && r.File? && r.bytes == bytes && FileSize(r.entry.raw) == size
            && r.entry.attributes == attributes && r.entry.fileSize == size
  {
    hide Holds, ShortEntry, DosName, ListAll, Listed, Loads, Load, RawEntries, RunBefore, Pieces, Find,
         EntryLimit, Resolve, IsDirectory, NotBefore, FirstCluster, FileSize, Attributes, ShortName;
    var es, name := RawEntries(v.rootDir, v.rootDirEntries), Dotted(stem, ext);
    var e := ShortEntry(DosName(stem, ext), attributes, other, cluster, size);
    EncodedIs(stem, ext, attributes, other, cluster, size);
    HeldIs(es, i, e);
    HeldListed(es, i, e);
    MadeBack(v, stem, ext, attributes, other, cluster, size);
    FirstInListing(v, es, i, name);
    FieldsBack(DosName(stem, ext), attributes, other, cluster, size);
    DirectoryBit(attributes);
    LoadsIff(v, cluster, bytes);
    OnePiece(name);
    FileAlone(v, v.rootDir, v.rootDirEntries, name, MakeEntry(v, e, []), bytes);
  }

  lemma EncodedIs(stem: seq<Byte>, ext: seq<Byte>, attributes: Byte, other: seq<Byte>, cluster: U16, size: U32)
    requires 1 <= |stem| <= 8 && |ext| <= 3 && IsDosPart(stem) && |other| == 14
    ensures var e := ShortEntry(DosName(stem, ext), attributes, other, cluster, size);
            e[0] == stem[0] != 0 && e[11] == attributes
  {
  }

  lemma HeldIs(es: seq<Raw>, i: nat, e: Raw)
    requires Holds(es, i, e)
    ensures i < |es| && es[i] == e
  {
  }

  lemma FileAlone(v: Volume, dir: seq<Byte>, max: nat, name: seq<Byte>, p: Entry, bytes: seq<Byte>)
    requires Mounted(v) && ENTRY * max <= |dir| && |ListAll(v, RawEntries(dir, max))| < TOO_MANY
    requires Find(ListAll(v, RawEntries(dir, max)), name) == Some(p)
    requires !IsDirectory(p.attributes) && Load(v, p.firstCluster) == Buffer(bytes)
    ensures Resolve(v, dir, max, [name]) == File(bytes, p)
  {
    hide ListAll, RawEntries, Find, Load, EntryLimit;
    ParsedGenuine(v, dir, max, name);
  }
}
