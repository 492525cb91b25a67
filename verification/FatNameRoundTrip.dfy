/** Long names written as the Microsoft FAT specification says ("FAT Long Directory Entries") come back
    unchanged from the parser of stage2/FAT16/lfn.c. */
module FatNameRoundTrip {
  import opened Ints
  import opened Text
  import opened FatNames
  import opened FatVolume
  import opened FatDir

  predicate IsName(name: seq<Byte>) {
    forall i :: 0 <= i < |name| ==> 1 <= name[i] <= 0x7F
  }

  /** A fragment's characters, a NUL if there is room, and 0xFFFF after that. */
  function Padded(chunk: seq<Byte>): (us: seq<U16>)
    requires |chunk| <= UNITS
    ensures |us| == UNITS
  {
    seq(UNITS, i requires 0 <= i < UNITS =>
      if i < |chunk| then chunk[i] as U16 else if i == |chunk| then 0 else 0xFFFF)
  }

  function Lo(u: U16): Byte { u % 256 }

  function Hi(u: U16): Byte { u / 256 }

  /** The 32 bytes of a long entry. */
  function LongEntry(order: Byte, checksum: Byte, us: seq<U16>): Raw
    requires |us| == UNITS
  {
    [order,
     Lo(us[0]), Hi(us[0]), Lo(us[1]), Hi(us[1]), Lo(us[2]), Hi(us[2]), Lo(us[3]), Hi(us[3]),
     Lo(us[4]), Hi(us[4]),
     0x0F, 0, checksum,
     Lo(us[5]), Hi(us[5]), Lo(us[6]), Hi(us[6]), Lo(us[7]), Hi(us[7]), Lo(us[8]), Hi(us[8]),
     Lo(us[9]), Hi(us[9]), Lo(us[10]), Hi(us[10]),
     0, 0,
     Lo(us[11]), Hi(us[11]), Lo(us[12]), Hi(us[12])]
  }

  /** The entries of a name from fragment `k` on, the last fragment stored first and marked. */
  function Encode(name: seq<Byte>, k: nat, checksum: Byte): (es: seq<Raw>)
    requires 0 < |name| <= UNITS * (MOST - k)
    ensures 0 < |es| <= MOST - k
    decreases |name|
  {
    if |name| <= UNITS then [LongEntry(0x40 + k + 1, checksum, Padded(name))]
    else Encode(name[UNITS..], k + 1, checksum) + [LongEntry(k + 1, checksum, Padded(name[..UNITS]))]
  }

  /** Checksum of a fragment, and the low five bits of its order, without the mark of the last one. */
  lemma OrderBack(order: Byte, checksum: Byte, us: seq<U16>)
    requires |us| == UNITS
    ensures var f := ParseLong(LongEntry(order, checksum, us));
            0 <= f.order < 32 && (order - f.order) % 32 == 0 && f.checksum == checksum
  {
    hide Units, AllAscii;
    var e := LongEntry(order, checksum, us);
    assert e[0] == order && e[13] == checksum;
  }

  lemma BytesOfUnit(order: Byte, checksum: Byte, us: seq<U16>, k: nat)
    requires |us| == UNITS && k < UNITS
    ensures UnitOffset(k) + 1 < ENTRY
    ensures LongEntry(order, checksum, us)[UnitOffset(k)] == Lo(us[k])
    ensures LongEntry(order, checksum, us)[UnitOffset(k) + 1] == Hi(us[k])
  {
  }

  lemma UnitsBack(order: Byte, checksum: Byte, us: seq<U16>)
    requires |us| == UNITS
    ensures Units(LongEntry(order, checksum, us)) == us
  {
    hide Units;
    var e := LongEntry(order, checksum, us);
    forall k | 0 <= k < UNITS
      ensures Units(e)[k] == us[k]
    {
      UnitAt(e, k);
      BytesOfUnit(order, checksum, us, k);
    }
  }

  lemma ChunkBack(order: Byte, checksum: Byte, chunk: seq<Byte>)
    requires |chunk| <= UNITS && IsName(chunk)
    ensures UpToNul(ParseLong(LongEntry(order, checksum, Padded(chunk))).name) == chunk
  {
    var e := LongEntry(order, checksum, Padded(chunk));
    UnitsBack(order, checksum, Padded(chunk));
    hide LongEntry, Units;
    var s := ParseLong(e).name;
    forall i | 0 <= i < |chunk|
      ensures s[i] == chunk[i]
    {
    }
    assert s[..|chunk|] == chunk;
    UpToNulIs(s, chunk);
  }

  lemma {:induction false} JoinedLast(fs: seq<Fragment>, f: Fragment)
    ensures Joined(fs + [f]) == UpToNul(f.name) + Joined(fs)
  {
    hide UpToNul;
    if fs == [] {
      assert Joined([f]) == Joined([]) + UpToNul(f.name);
    } else {
      JoinedLast(fs[1..], f);
      assert (fs + [f])[1..] == fs[1..] + [f];
      assert UpToNul(f.name) + Joined(fs[1..]) + UpToNul(fs[0].name)
          == UpToNul(f.name) + (Joined(fs[1..]) + UpToNul(fs[0].name));
    }
  }

  lemma {:induction false} JoinedBack(name: seq<Byte>, k: nat, checksum: Byte)
    requires 0 < |name| <= UNITS * (MOST - k) && IsName(name)
    ensures Joined(Parsed(Encode(name, k, checksum))) == name
    decreases |name|
  {
    hide Joined, LongEntry, Padded, UpToNul, ParseLong;
    var es := Encode(name, k, checksum);
    if |name| <= UNITS {
      JoinedOne(0x40 + k + 1, checksum, name);
    } else {
      var rest := Encode(name[UNITS..], k + 1, checksum);
      var last := LongEntry(k + 1, checksum, Padded(name[..UNITS]));
      JoinedBack(name[UNITS..], k + 1, checksum);
      ChunkBack(k + 1, checksum, name[..UNITS]);
      assert Parsed(es) == Parsed(rest) + [ParseLong(last)];
      JoinedLast(Parsed(rest), ParseLong(last));
      assert name[..UNITS] + name[UNITS..] == name;
    }
  }

  lemma JoinedOne(order: Byte, checksum: Byte, name: seq<Byte>)
    requires |name| <= UNITS && IsName(name)
    ensures Joined(Parsed([LongEntry(order, checksum, Padded(name))])) == name
  {
    hide LongEntry, Padded, UpToNul, ParseLong;
    ChunkBack(order, checksum, name);
    var f := ParseLong(LongEntry(order, checksum, Padded(name)));
    JoinedLast([], f);
    assert [] + [f] == [f] == Parsed([LongEntry(order, checksum, Padded(name))]);
  }

  /** Every ASCII name of 1 to 255 characters is the name its long entries give, with or without a
      terminator in the last one. */
  lemma LongNameBack(name: seq<Byte>, checksum: Byte)
    requires 1 <= |name| <= 255 && IsName(name)
    ensures LongName(Encode(name, 0, checksum)) == name
  {
    JoinedBack(name, 0, checksum);
  }

  lemma {:induction false} EncodedAreLong(name: seq<Byte>, k: nat, checksum: Byte)
    requires 0 < |name| <= UNITS * (MOST - k)
    ensures forall i :: 0 <= i < |Encode(name, k, checksum)| ==> IsLong(Encode(name, k, checksum)[i])
    decreases |name|
  {
    EntryIsLong(0x40 + k + 1, checksum, if |name| <= UNITS then name else []);
    EntryIsLong(k + 1, checksum, if |name| > UNITS then name[..UNITS] else []);
    hide IsLong, LongEntry, Padded;
    if |name| > UNITS {
      EncodedAreLong(name[UNITS..], k + 1, checksum);
    }
  }

  lemma EntryIsLong(order: Byte, checksum: Byte, chunk: seq<Byte>)
    requires |chunk| <= UNITS && order != 0 && order != DELETED
    ensures IsLong(LongEntry(order, checksum, Padded(chunk)))
  {
  }

  lemma {:induction false} RunIs(es: seq<Raw>, at: nat, i: nat)
    requires at <= i <= |es| && forall j :: at <= j < i ==> IsLong(es[j])
    requires at == 0 || !IsLong(es[at - 1])
    ensures RunBefore(es, i) == es[at..i]
  {
    if at < i {
      RunIs(es, at, i - 1);
      assert es[at..i] == es[at..i - 1] + [es[i - 1]];
    }
  }

  /** The round trip through a directory: wherever the long entries of a name stand, before a short
      entry and not after other long entries, the parsed directory lists that entry under the name. */
  lemma DirectoryRoundTrip(v: Volume, es: seq<Raw>, at: nat, name: seq<Byte>, checksum: Byte)
    requires 1 <= |name| <= 255 && IsName(name)
    requires var n := |Encode(name, 0, checksum)|;
             && at + n < |es| && es[at..at + n] == Encode(name, 0, checksum)
             && (at == 0 || !IsLong(es[at - 1]))
             && Listed(es, at + n)
    ensures var i := at + |Encode(name, 0, checksum)|;
            exists k :: 0 <= k < |ListAll(v, es)|
                     && ListAll(v, es)[k].name == name && ListAll(v, es)[k].raw == es[i]
  {
    hide Encode, ListAll, RunBefore, MakeEntry, LongName, IsLong, Listed, IsName;
    var code := Encode(name, 0, checksum);
    var i := at + |code|;
    EncodedAreLong(name, 0, checksum);
    assert forall j :: at <= j < i ==> es[j] == es[at..i][j - at];
    RunIs(es, at, i);
    LongNameBack(name, checksum);
    EntryNamed(v, es[i], code);
    ListedAt(v, es, i);
  }

  lemma EntryNamed(v: Volume, e: Raw, run: seq<Raw>)
    requires run != []
    ensures MakeEntry(v, e, run).name == LongName(run) && MakeEntry(v, e, run).raw == e
  {
  }

  /** A short entry before the end mark is in the listing. */
  lemma ListedAt(v: Volume, es: seq<Raw>, i: nat)
    requires i < |es| && Listed(es, i)
    ensures exists k :: 0 <= k < |ListAll(v, es)| && ListAll(v, es)[k] == MakeEntry(v, es[i], RunBefore(es, i))
  {
    ListingIs(v, es);
    ShortsAre(es, |es|);
    hide ListAll, Listed, RunBefore, MakeEntry;
    var k :| 0 <= k < |Shorts(es, |es|)| && Shorts(es, |es|)[k] == i;
    DescribedAt(v, es, Shorts(es, |es|), k);
  }

  lemma DescribedAt(v: Volume, es: seq<Raw>, s: seq<nat>, k: nat)
    requires k < |s| && forall j :: 0 <= j < |s| ==> s[j] < |es|
    ensures Described(v, es, s)[k] == MakeEntry(v, es[s[k]], RunBefore(es, s[k]))
  {
  }
}
