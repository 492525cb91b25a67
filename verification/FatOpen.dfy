/** Path lookup: stage2/FAT16/open.c and get_file_size.c, down to the driver's reads. `overrun` marks the
    loads that write past their block; the code goes on, the model stops there. */
module FatOpen {
  import opened Ints
  import opened Text
  import opened StrSplit
  import opened FatChain
  import opened FatNames
  import opened FatVolume
  import opened FatDir
  import Ata

  // ---------- a directory found on the way is parsed whole ----------

  function EntryLimit(v: Volume, size: U32): nat
    requires Mounted(v)
  {
    RoundBytesToClusters(v, size) / ENTRY
  }

  /** The entry limit the code derives from the size it stored for a directory is the number of whole
      entries in the directory's loaded clusters. */
  lemma LimitIsLoaded(v: Volume, e: Raw)
    requires Mounted(v) && IsDirectory(Attributes(e)) && Load(v, FirstCluster(e)).Buffer?
    ensures EntryLimit(v, SizeOf(v, e)) == |Load(v, FirstCluster(e)).bytes| / ENTRY
    ensures SizeOf(v, e) == |Load(v, FirstCluster(e)).bytes|
  {
    hide *;
    var b := ClusterBytes(v);
    var chain := LoadedChain(v, FirstCluster(e));
    SizeOfChain(v, e, chain);
    RoundWhole(v, |chain|);
    EntryLimitIs(v, |chain| * b);
  }

  /** The size the code stores for a directory, whether or not it can be loaded. */
  lemma DirectorySize(v: Volume, e: Raw, n: nat)
    requires Mounted(v) && IsDirectory(Attributes(e)) && IsChain(v.fat, FirstCluster(e), n)
    ensures SizeOf(v, e) == n * (v.sectorsPerCluster * 512) % LIMIT32
  {
    hide Traverse, IsChain;
    ChainIs(v.fat, FirstCluster(e), n);
    MulMiddle(n, v.bytesPerSector, v.sectorsPerCluster);
  }

  lemma LoadedChain(v: Volume, cluster: U16) returns (chain: seq<U16>)
    requires Mounted(v) && Load(v, cluster).Buffer?
    ensures Traverse(v.fat, cluster) == Some(chain)
    ensures v.bytesPerSector > 0 && v.sectorsPerCluster > 0
    ensures |chain| * ClusterBytes(v) == |Load(v, cluster).bytes| < LIMIT16
    ensures LIMIT16 < LIMIT32 && |chain| < LIMIT16
  {
    hide Contents, Traverse;
    chain := Traverse(v.fat, cluster).value;
    assert ClusterBytes(v) >= 1;
    MulLe(1, ClusterBytes(v), |chain|);
  }

  lemma SizeOfChain(v: Volume, e: Raw, chain: seq<U16>)
    requires IsDirectory(Attributes(e)) && Traverse(v.fat, FirstCluster(e)) == Some(chain)
    requires |chain| * ClusterBytes(v) < LIMIT16
    ensures SizeOf(v, e) == |chain| * ClusterBytes(v)
  {
    MulMiddle(|chain|, v.bytesPerSector, v.sectorsPerCluster);
    MulMiddle(|chain|, v.sectorsPerCluster, v.bytesPerSector);
    hide Traverse;
  }

  lemma EntryLimitIs(v: Volume, size: U32)
    requires Mounted(v)
    ensures v.bytesPerSector > 0 && v.sectorsPerCluster > 0
    ensures EntryLimit(v, size) == RoundBytesToClusters(v, size) / ENTRY
  {
  }

  // ---------- the resolver ----------

  /** What a path leads to: a file's bytes with its entry, nothing, or a load that would overrun. */
  datatype Outcome = File(bytes: seq<Byte>, entry: Entry) | Missing | TooBig

  /** Entries as `Parse` makes them. */
  ghost predicate Genuine(v: Volume, e: Entry) {
    && e.attributes == Attributes(e.raw)
    && e.firstCluster == FirstCluster(e.raw)
    && e.fileSize == SizeOf(v, e.raw)
  }

  lemma ParsedGenuine(v: Volume, dir: seq<Byte>, max: nat, name: seq<Byte>)
    requires ENTRY * max <= |dir| && Parse(v, dir, max).Some?
    ensures var r := Find(Parse(v, dir, max).value, name); r.Some? ==> Genuine(v, r.value)
  {
    ListingIs(v, RawEntries(dir, max));
  }

  /** The first component in the directory, then the rest below it. A component that is not the last
      must be a directory, the last one must not; a directory is loaded before that is noticed. */
  function Resolve(v: Volume, dir: seq<Byte>, max: nat, path: seq<seq<Byte>>): Outcome
    requires Mounted(v) && ENTRY * max <= |dir|
    decreases |path|
  {
    if path == [] then Missing
    else
      match Parse(v, dir, max)
      case None => Missing
      case Some(entries) =>
        match Find(entries, path[0])
        case None => Missing
        case Some(e) =>
          ParsedGenuine(v, dir, max, path[0]);
          if !IsDirectory(e.attributes) && |path| > 1 then Missing
          else
            match Load(v, e.firstCluster)
            case Failed => Missing
            case Overrun => TooBig
            case Buffer(bytes) =>
              if !IsDirectory(e.attributes) then File(bytes, e)
              else
                LimitIsLoaded(v, e.raw);
                Resolve(v, bytes, EntryLimit(v, e.fileSize), path[1..])
  }

  function ResolvePath(v: Volume, name: seq<Byte>): Outcome
    requires Mounted(v)
  {
    Resolve(v, v.rootDir, v.rootDirEntries, Pieces(name, SLASH))
  }

  // ---------- what a resolved path means ----------

  /** One step of a path: `e` is the first entry called `name` in the directory `dir`. */
  ghost predicate Names(v: Volume, dir: seq<Byte>, max: nat, name: seq<Byte>, e: Entry) {
    && ENTRY * max <= |dir|
    && |ListAll(v, RawEntries(dir, max))| < TOO_MANY
    && exists k: nat :: IsFirstNamed(ListAll(v, RawEntries(dir, max)), name, k)
                     && ListAll(v, RawEntries(dir, max))[k] == e
  }

  /** The entry of a directory, and the directory its clusters load as. */
  ghost predicate Descends(v: Volume, e: Entry, dir: seq<Byte>, limit: nat)
    requires v.bytesPerSector == Disk.SECTOR
  {
    IsDirectory(e.attributes) && Loads(v, e.firstCluster, dir) && limit == |dir| / ENTRY
  }

  /** The entry of a file, and the bytes its clusters load as. */
  ghost predicate Contains(v: Volume, e: Entry, bytes: seq<Byte>)
    requires v.bytesPerSector == Disk.SECTOR
  {
    !IsDirectory(e.attributes) && Loads(v, e.firstCluster, bytes)
  }

  /** A directory with its entry limit, and the entry taken in it. */
  datatype Step = Step(dir: seq<Byte>, limit: nat, entry: Entry)

  /** A chain of steps: step `i` takes the first entry with the name of component `i`; every entry but
      the last is a directory, and the next step is in it. */
  ghost predicate Route(v: Volume, path: seq<seq<Byte>>, steps: seq<Step>)
    requires v.bytesPerSector == Disk.SECTOR
  {
    && 0 < |steps| <= |path|
    && (forall i :: 0 <= i < |steps| ==>
          Names(v, steps[i].dir, steps[i].limit, path[i], steps[i].entry))
    && (forall i, j :: 0 <= i && j == i + 1 && j < |steps| ==>
          Descends(v, steps[i].entry, steps[j].dir, steps[j].limit))
  }

  /** What the last entry `e` of a route gives, with `left` components behind it: the bytes of a file at
      the end of the path, or a load that overruns, of a directory if the path goes on. */
  ghost predicate Gives(v: Volume, e: Entry, left: nat, outcome: Outcome)
    requires v.bytesPerSector == Disk.SECTOR
  {
    match outcome
    case File(bytes, f) => left == 0 && f == e && Contains(v, e, bytes)
    case TooBig => Overruns(v, e.firstCluster) && (left > 0 ==> IsDirectory(e.attributes))
    case Missing => false
  }

  ghost predicate Leads(v: Volume, path: seq<seq<Byte>>, steps: seq<Step>, outcome: Outcome)
    requires v.bytesPerSector == Disk.SECTOR
  {
    Route(v, path, steps) && Gives(v, steps[|steps| - 1].entry, |path| - |steps|, outcome)
  }

  lemma NamesIffFinds(v: Volume, dir: seq<Byte>, max: nat, name: seq<Byte>, e: Entry)
    requires ENTRY * max <= |dir|
    ensures Names(v, dir, max, name, e)
       <==> Parse(v, dir, max).Some? && Find(Parse(v, dir, max).value, name) == Some(e)
  {
    var all := ListAll(v, RawEntries(dir, max));
    if Names(v, dir, max, name, e) {
      var k: nat :| IsFirstNamed(all, name, k) && all[k] == e;
      FindIs(all, name, k);
    }
  }

  /** A path resolves to a file exactly when a route through all its components leads there from the root. */
  lemma ResolvesIff(v: Volume, name: seq<Byte>, bytes: seq<Byte>, e: Entry)
    requires Mounted(v)
    ensures ResolvePath(v, name) == File(bytes, e)
       <==> exists steps: seq<Step> ::
              && Route(v, Pieces(name, SLASH), steps)
              && steps[0].dir == v.rootDir && steps[0].limit == v.rootDirEntries
              && |steps| == |Pieces(name, SLASH)|
              && steps[|steps| - 1].entry == e && Contains(v, e, bytes)
  {
    hide Names, Descends, Resolve, Pieces, Contains;
    var path, outcome := Pieces(name, SLASH), File(bytes, e);
    if ResolvePath(v, name) == outcome {
      var steps := StepsOf(v, v.rootDir, v.rootDirEntries, path, outcome);
    }
    forall steps: seq<Step> |
        && Route(v, path, steps)
        && steps[0].dir == v.rootDir && steps[0].limit == v.rootDirEntries
        && |steps| == |path|
        && steps[|steps| - 1].entry == e && Contains(v, e, bytes)
      ensures ResolvePath(v, name) == outcome
    {
      LeadsResolves(v, path, steps, outcome);
    }
  }

  /** It resolves to `TooBig` exactly when a route leads from the root to an entry whose load overruns; if
      components are left behind it, a directory. */
  lemma OverrunsIff(v: Volume, name: seq<Byte>)
    requires Mounted(v)
    ensures ResolvePath(v, name) == TooBig
       <==> exists steps: seq<Step> ::
              && Route(v, Pieces(name, SLASH), steps)
              && steps[0].dir == v.rootDir && steps[0].limit == v.rootDirEntries
              && Overruns(v, steps[|steps| - 1].entry.firstCluster)
              && (|steps| < |Pieces(name, SLASH)| ==> IsDirectory(steps[|steps| - 1].entry.attributes))
  {
    hide Names, Descends, Resolve, Pieces, Overruns, IsDirectory;
    var path := Pieces(name, SLASH);
    if ResolvePath(v, name) == TooBig {
      var steps := StepsOf(v, v.rootDir, v.rootDirEntries, path, TooBig);
    }
    forall steps: seq<Step> |
        && Route(v, path, steps)
        && steps[0].dir == v.rootDir && steps[0].limit == v.rootDirEntries
        && Overruns(v, steps[|steps| - 1].entry.firstCluster)
        && (|steps| < |path| ==> IsDirectory(steps[|steps| - 1].entry.attributes))
      ensures ResolvePath(v, name) == TooBig
    {
      LeadsResolves(v, path, steps, TooBig);
    }
  }

  lemma {:induction false} StepsOf(v: Volume, dir: seq<Byte>, max: nat, path: seq<seq<Byte>>, outcome: Outcome)
    returns (steps: seq<Step>)
    requires Mounted(v) && ENTRY * max <= |dir| && Resolve(v, dir, max, path) == outcome != Missing
    ensures 0 < |steps| <= |path| && Leads(v, path, steps, outcome)
    ensures steps[0].dir == dir && steps[0].limit == max
    decreases |path|
  {
    hide Names, Route, Load, Loads, Genuine, EntryLimit, Parse, Find, Resolve, IsDirectory, Descends, Contains, Gives;
    NeedsEntry(v, dir, max, path);
    var entries := Parse(v, dir, max).value;
    var f := Find(entries, path[0]).value;
    NamesIffFinds(v, dir, max, path[0], f);
    ParsedGenuine(v, dir, max, path[0]);
    ResolveStep(v, dir, max, path, entries, f);
    if IsDirectory(f.attributes) && Load(v, f.firstCluster).Buffer? {
      var below := Load(v, f.firstCluster).bytes;
      DirectoryDescends(v, f);
      var rest := StepsOf(v, below, EntryLimit(v, f.fileSize), path[1..], outcome);
      RouteCons(v, path, Step(dir, max, f), rest);
      steps := [Step(dir, max, f)] + rest;
    } else {
      LastStep(v, |path| - 1, f, outcome);
      steps := [Step(dir, max, f)];
      RouteOne(v, path, steps);
    }
  }

  lemma DirectoryDescends(v: Volume, f: Entry)
    requires Mounted(v) && Genuine(v, f) && IsDirectory(f.attributes) && Load(v, f.firstCluster).Buffer?
    ensures Descends(v, f, Load(v, f.firstCluster).bytes, EntryLimit(v, f.fileSize))
  {
    hide Load, Loads;
    LimitIsLoaded(v, f.raw);
    LoadsIff(v, f.firstCluster, Load(v, f.firstCluster).bytes);
  }

  /** A load that is not a directory's buffer ends the walk. */
  lemma LastStep(v: Volume, left: nat, f: Entry, outcome: Outcome)
    requires Mounted(v)
    requires outcome != Missing && (IsDirectory(f.attributes) || left == 0)
    requires match Load(v, f.firstCluster)
             case Failed => false
             case Overrun => outcome == TooBig
             case Buffer(bytes) => !IsDirectory(f.attributes) && outcome == File(bytes, f)
    ensures Gives(v, f, left, outcome)
  {
    hide Load, Loads, Overruns;
    OverrunIff(v, f.firstCluster);
    if outcome.File? {
      LoadsIff(v, f.firstCluster, outcome.bytes);
    }
  }

  lemma RouteOne(v: Volume, path: seq<seq<Byte>>, steps: seq<Step>)
    requires v.bytesPerSector == Disk.SECTOR && |steps| == 1 <= |path|
    requires Names(v, steps[0].dir, steps[0].limit, path[0], steps[0].entry)
    ensures Route(v, path, steps)
  {
    hide Names, Descends;
  }

  lemma RouteCons(v: Volume, path: seq<seq<Byte>>, s: Step, rest: seq<Step>)
    requires v.bytesPerSector == Disk.SECTOR && path != []
    requires Names(v, s.dir, s.limit, path[0], s.entry)
    requires Route(v, path[1..], rest)
    requires |rest| > 0 && Descends(v, s.entry, rest[0].dir, rest[0].limit)
    ensures Route(v, path, [s] + rest)
  {
    hide Names, Descends;
    var steps := [s] + rest;
    forall i | 0 <= i < |steps|
      ensures Names(v, steps[i].dir, steps[i].limit, path[i], steps[i].entry)
    {
      if i > 0 {
        assert path[i] == path[1..][i - 1] && steps[i] == rest[i - 1];
      }
    }
    forall i, j | 0 <= i && j == i + 1 && j < |steps|
      ensures Descends(v, steps[i].entry, steps[j].dir, steps[j].limit)
    {
      if i > 0 {
        assert steps[i] == rest[i - 1] && steps[j] == rest[j - 1];
      }
    }
  }

  lemma RouteHead(v: Volume, path: seq<seq<Byte>>, steps: seq<Step>)
    requires v.bytesPerSector == Disk.SECTOR && Route(v, path, steps)
    ensures 0 < |steps| <= |path|
    ensures Names(v, steps[0].dir, steps[0].limit, path[0], steps[0].entry)
    ensures |steps| > 1 ==> Descends(v, steps[0].entry, steps[1].dir, steps[1].limit)
  {
    hide Names, Descends;
    assert |steps| > 1 ==> 1 < |steps| && 1 == 0 + 1;
  }

  lemma RouteTail(v: Volume, path: seq<seq<Byte>>, steps: seq<Step>)
    requires v.bytesPerSector == Disk.SECTOR && Route(v, path, steps) && |steps| > 1
    ensures |path| > 0 && Route(v, path[1..], steps[1..])
  {
    hide Names, Descends;
    var p, t := path[1..], steps[1..];
    forall i | 0 <= i < |t|
      ensures Names(v, t[i].dir, t[i].limit, p[i], t[i].entry)
    {
      assert p[i] == path[i + 1] && t[i] == steps[i + 1];
    }
    forall i, j | 0 <= i && j == i + 1 && j < |t|
      ensures Descends(v, t[i].entry, t[j].dir, t[j].limit)
    {
      assert t[i] == steps[i + 1] && t[j] == steps[j + 1];
    }
  }

  lemma {:induction false} LeadsResolves(v: Volume, path: seq<seq<Byte>>, steps: seq<Step>, outcome: Outcome)
    requires Mounted(v) && Leads(v, path, steps, outcome)
    requires |steps| > 0 && ENTRY * steps[0].limit <= |steps[0].dir|
    ensures Resolve(v, steps[0].dir, steps[0].limit, path) == outcome
    decreases |path|
  {
    hide Names, Route, Load, Loads, Overruns, Genuine, EntryLimit, Parse, Find, Resolve, IsDirectory;
    RouteHead(v, path, steps);
    var s := steps[0];
    OverrunIff(v, s.entry.firstCluster);
    if outcome.File? {
      LoadsIff(v, s.entry.firstCluster, outcome.bytes);
    }
    NamesIffFinds(v, s.dir, s.limit, path[0], s.entry);
    ParsedGenuine(v, s.dir, s.limit, path[0]);
    ResolveStep(v, s.dir, s.limit, path, Parse(v, s.dir, s.limit).value, s.entry);
    if |steps| > 1 {
      RouteTail(v, path, steps);
      LoadsIff(v, s.entry.firstCluster, steps[1].dir);
      DirectoryDescends(v, s.entry);
      LeadsResolves(v, path[1..], steps[1..], outcome);
    }
  }

  /** A path that resolves to anything has a component, and its directory parses and has an entry for it. */
  lemma NeedsEntry(v: Volume, dir: seq<Byte>, max: nat, path: seq<seq<Byte>>)
    requires Mounted(v) && ENTRY * max <= |dir| && Resolve(v, dir, max, path) != Missing
    ensures path != [] && Parse(v, dir, max).Some? && Find(Parse(v, dir, max).value, path[0]).Some?
  {
  }

  // ---------- the code ----------

  lemma PieceHasNoNul(name: seq<Byte>, k: nat)
    requires 0 !in name && k < |Pieces(name, SLASH)|
    ensures 0 !in Pieces(name, SLASH)[k]
  {
    SpansAre(name, SLASH);
  }

  /** `find_parsed_dir_entry` on a parsed directory. */
  method Lookup(v: Volume, dir: seq<Byte>, max: nat, entries: seq<Entry>, name: seq<Byte>)
    returns (e: Option<Entry>)
    requires ENTRY * max <= |dir| && Parse(v, dir, max) == Some(entries) && 0 !in name
    ensures e == Find(entries, name)
    ensures e.Some? ==> Genuine(v, e.value)
  {
    NamesHaveNoNul(v, RawEntries(dir, max));
    ParsedGenuine(v, dir, max, name);
    e := FindEntry(entries, name);
  }

  /** `__reload_open`: the directory behind an entry, loaded and parsed; `failed` when either fails. */
  method ReloadOpen(v: Volume, drive: Ata.Drive, e: Entry)
    returns (failed: bool, overrun: bool, dir: seq<Byte>, limit: nat, entries: seq<Entry>)
    requires Mounted(v) && Attached(v, drive) && Genuine(v, e) && IsDirectory(e.attributes)
    modifies drive
    ensures Attached(v, drive)
    ensures overrun <==> Load(v, e.firstCluster).Overrun?
    ensures Load(v, e.firstCluster).Failed? ==> failed
    ensures Load(v, e.firstCluster).Buffer? ==>
              && dir == Load(v, e.firstCluster).bytes
              && limit == EntryLimit(v, e.fileSize) && ENTRY * limit <= |dir|
              && Parse(v, dir, limit) == if failed then None else Some(entries)
  {
    hide Attached;
    failed, dir, limit, entries := true, [], 0, [];
    var buffer;
    buffer, overrun := LoadClusteredEntry(v, drive, e.firstCluster);
    if buffer == null {
      return;
    }
    LimitIsLoaded(v, e.raw);
    dir := buffer[..];
    limit := RoundBytesToClusters(v, e.fileSize) / ENTRY;
    var pd := ParseDir(v, dir, limit);
    if pd.Some? {
      failed, entries := false, pd.value;
    }
  }

  /** One step of the resolver, for a component that is found. */
  lemma ResolveStep(v: Volume, dir: seq<Byte>, max: nat, path: seq<seq<Byte>>, entries: seq<Entry>, e: Entry)
    requires Mounted(v) && ENTRY * max <= |dir| && path != [] && Genuine(v, e)
    requires Parse(v, dir, max) == Some(entries) && Find(entries, path[0]) == Some(e)
    ensures var r := Resolve(v, dir, max, path); var load := Load(v, e.firstCluster);
            if !IsDirectory(e.attributes) && |path| > 1 then r == Missing
            else
              && (load.Overrun? ==> r == TooBig)
              && (load.Failed? ==> r == Missing)
              && (load.Buffer? ==>
                    if !IsDirectory(e.attributes) then r == File(load.bytes, e)
                    else
                      && ENTRY * EntryLimit(v, e.fileSize) <= |load.bytes|
                      && r == Resolve(v, load.bytes, EntryLimit(v, e.fileSize), path[1..]))
  {
    hide Load, EntryLimit, Find, Parse;
    if IsDirectory(e.attributes) && Load(v, e.firstCluster).Buffer? {
      LimitIsLoaded(v, e.raw);
    }
  }

  lemma ResolveNone(v: Volume, dir: seq<Byte>, max: nat, path: seq<seq<Byte>>)
    requires Mounted(v) && ENTRY * max <= |dir|
    requires path == [] || Parse(v, dir, max).None? || Find(Parse(v, dir, max).value, path[0]).None?
    ensures Resolve(v, dir, max, path) == Missing
  {
  }

  lemma AtRoot(v: Volume, name: seq<Byte>)
    requires Mounted(v)
    ensures v.bytesPerSector == Disk.SECTOR && v.bytesPerSector > 0 && v.sectorsPerCluster > 0
    ensures ENTRY != 0 && ENTRY * v.rootDirEntries <= |v.rootDir|
    ensures ResolvePath(v, name) == Resolve(v, v.rootDir, v.rootDirEntries, Pieces(name, SLASH))
  {
  }

  /** `open`: the file's bytes, or NULL when the path resolves to no file. */
  method Open(v: Volume, drive: Ata.Drive, name: seq<Byte>) returns (file: array?<Byte>, overrun: bool)
    requires Mounted(v) && Attached(v, drive) && 0 !in name && SplitFits(name, SLASH)
    modifies drive
    ensures Attached(v, drive)
    ensures overrun <==> ResolvePath(v, name).TooBig?
    ensures !overrun ==> (file == null <==> ResolvePath(v, name).Missing?)
    ensures file != null ==>
              fresh(file) && ResolvePath(v, name).File? && file[..] == ResolvePath(v, name).bytes
  {
    hide *;
    var segments := Pieces(name, SLASH);
    ghost var outcome := ResolvePath(v, name);
    var dir := v.rootDir;
    var limit: nat := v.rootDirEntries;
    AtRoot(v, name);
    assert segments[0..] == segments;
    var pd := ParseDir(v, dir, limit);
    if pd.None? {
      ResolveNone(v, dir, limit, segments);
      return null, false;
    }
    var entries := pd.value;
    for i := 0 to |segments|
      invariant Attached(v, drive)
      invariant ENTRY * limit <= |dir| && Parse(v, dir, limit) == Some(entries)
      invariant outcome == Resolve(v, dir, limit, segments[i..])
    {
      ghost var path := segments[i..];
      PieceHasNoNul(name, i);
      assert path[1..] == segments[i + 1..];
      var found := Lookup(v, dir, limit, entries, segments[i]);
      if found.None? {
        ResolveNone(v, dir, limit, path);
        return null, false;
      }
      var e := found.value;
      ResolveStep(v, dir, limit, path, entries, e);
      if !IsDirectory(e.attributes) && i < |segments| - 1 {
        return null, false;
      }
      if i == |segments| - 1 && !IsDirectory(e.attributes) {
        file, overrun := LoadClusteredEntry(v, drive, e.firstCluster);
        return;
      }
      var failed;
      failed, overrun, dir, limit, entries := ReloadOpen(v, drive, e);
      if overrun {
        return null, true;
      }
      if failed {
        if Load(v, e.firstCluster).Buffer? {
          ResolveNone(v, dir, limit, path[1..]);
        }
        return null, false;
      }
    }
    ResolveNone(v, dir, limit, segments[|segments|..]);
    return null, false;
  }

  const UINT32_MAX: U32 := LIMIT32 - 1

  /** `get_file_size`: the size field of the entry `open` found, or UINT32_MAX when it found none. Its own
      walk does not look at attributes; where it returns early because a component is missing or a
      directory does not parse, `open` has already failed. */
  method GetFileSize(v: Volume, drive: Ata.Drive, name: seq<Byte>) returns (size: U32, overrun: bool)
    requires Mounted(v) && Attached(v, drive) && 0 !in name && SplitFits(name, SLASH)
    modifies drive
    ensures Attached(v, drive)
    ensures overrun <==> ResolvePath(v, name).TooBig?
    ensures size == match ResolvePath(v, name)
                    case File(_, e) => FileSize(e.raw)
                    case _ => UINT32_MAX
  {
    hide *;
    var fileData;
    fileData, overrun := Open(v, drive, name);
    if fileData == null {
      return UINT32_MAX, overrun;
    }
    ghost var outcome := ResolvePath(v, name);
    var segments := Pieces(name, SLASH);
    var dir := v.rootDir;
    var limit: nat := v.rootDirEntries;
    AtRoot(v, name);
    assert segments[0..] == segments;
    NeedsComponent(v, dir, limit, segments);
    var pd := ParseDir(v, dir, limit);
    assert pd.Some?;
    var entries := pd.value;
    for i := 0 to |segments| - 1
      invariant Attached(v, drive)
      invariant ENTRY * limit <= |dir| && Parse(v, dir, limit) == Some(entries)
      invariant outcome == Resolve(v, dir, limit, segments[i..])
    {
      ghost var path := segments[i..];
      PieceHasNoNul(name, i);
      NeedsComponent(v, dir, limit, path);
      assert path[1..] == segments[i + 1..];
      var found := Lookup(v, dir, limit, entries, segments[i]);
      assert found.Some?;
      var e := found.value;
      ResolveStep(v, dir, limit, path, entries, e);
      var buffer, past := LoadClusteredEntry(v, drive, e.firstCluster);
      assert buffer != null;
      dir := buffer[..];
      limit := RoundBytesToClusters(v, e.fileSize) / ENTRY;
      assert limit == EntryLimit(v, e.fileSize) by { EntryLimitIs(v, e.fileSize); }
      pd := ParseDir(v, dir, limit);
      NeedsComponent(v, dir, limit, path[1..]);
      assert pd.Some?;
      entries := pd.value;
    }
    ghost var path := segments[|segments| - 1..];
    PieceHasNoNul(name, |segments| - 1);
    NeedsComponent(v, dir, limit, path);
    var found := Lookup(v, dir, limit, entries, segments[|segments| - 1]);
    assert found.Some?;
    var e := found.value;
    ResolveStep(v, dir, limit, path, entries, e);
    LastIsFile(v, dir, limit, path);
    size := e.fileSize;
  }

  /** A path that resolves to a file has a component, and its directory parses and has an entry for it. */
  lemma NeedsComponent(v: Volume, dir: seq<Byte>, max: nat, path: seq<seq<Byte>>)
    requires Mounted(v) && ENTRY * max <= |dir| && Resolve(v, dir, max, path).File?
    ensures path != [] && Parse(v, dir, max).Some? && Find(Parse(v, dir, max).value, path[0]).Some?
    ensures var e := Find(Parse(v, dir, max).value, path[0]).value;
            Load(v, e.firstCluster).Buffer? && (|path| > 1 ==> IsDirectory(e.attributes))
  {
  }

  lemma LastIsFile(v: Volume, dir: seq<Byte>, max: nat, path: seq<seq<Byte>>)
    requires Mounted(v) && ENTRY * max <= |dir| && Resolve(v, dir, max, path).File? && |path| == 1
    ensures Parse(v, dir, max).Some? && Find(Parse(v, dir, max).value, path[0]).Some?
    ensures var e := Find(Parse(v, dir, max).value, path[0]).value;
            !IsDirectory(e.attributes) && Resolve(v, dir, max, path).entry == e
            && Genuine(v, e) && e.fileSize == FileSize(e.raw)
  {
    NeedsComponent(v, dir, max, path);
    ParsedGenuine(v, dir, max, path[0]);
    assert path[1..] == [];
  }
}
