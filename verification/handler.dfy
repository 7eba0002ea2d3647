/** `ChangeHandler` of `SRC.py`: each file-system event becomes a change to
    the repository cache plus a number of `debouncer.trigger()` calls.
    `Dispatch` is the handler as written; `DispatchIntended` applies the two
    corrections recorded with the model (excluded directories at any depth,
    and a move out of scope still schedules a rebuild). */
module Events {
  import opened Strings
  import opened Paths
  import opened FileTree
  import opened PathFilter
  import opened RepositoryCache

  /** What the handler was built with: the watched directory and the filter. */
  datatype Watch = Watch(root: Path, cfg: Config, search: Search)

  /** The watchdog events the handler overrides. */
  datatype Event =
    | Created(src: Path, isDirectory: bool)
    | Modified(src: Path, isDirectory: bool)
    | Deleted(src: Path, isDirectory: bool)
    | Moved(src: Path, dest: Path, isDirectory: bool)

  /** The cache after an event and how often the debouncer was triggered. */
  datatype Outcome = Outcome(cache: Cache, triggers: nat)

  function Relevant(w: Watch, path: Path): bool
  {
    IsRelevantFile(path, w.root, w.cfg, w.search)
  }

  function Rel(w: Watch, path: Path): string
  {
    RelPath(w.root, path)
  }

  /** `_handle_change(file_path)`: refresh the entry when the file still
      exists, and trigger a rebuild in every case. One disk snapshot serves
      both existence checks (here and in `update_file`). */
  function HandleChange(c: Cache, w: Watch, path: Path, disk: Disk): (r: Outcome)
    ensures r.triggers == 1
    ensures path !in disk ==> r.cache == c
    ensures path in disk && disk[path].Ok? ==> r.cache == c[Rel(w, path) := disk[path].text]
    ensures path in disk && disk[path].ReadError? ==> r.cache == c
  {
    var rel := Rel(w, path);
    var c' := if path in disk then UpdateFile(c, path, rel, disk) else c;
    Outcome(c', 1)
  }

  /** `on_created` and `on_modified`: relevant files only. */
  function OnCreatedOrModified(c: Cache, w: Watch, src: Path, isDirectory: bool, disk: Disk): (r: Outcome)
    ensures isDirectory || !Relevant(w, src) ==> r == Outcome(c, 0)
    ensures !isDirectory && Relevant(w, src) ==> r == HandleChange(c, w, src, disk)
  {
    if !isDirectory && Relevant(w, src) then HandleChange(c, w, src, disk)
    else Outcome(c, 0)
  }

  /** `on_deleted`: drop a relevant file's entry and trigger, without looking at the disk. */
  function OnDeleted(c: Cache, w: Watch, src: Path, isDirectory: bool): (r: Outcome)
    ensures r.triggers == (if !isDirectory && Relevant(w, src) then 1 else 0)
    ensures !isDirectory && Relevant(w, src) ==> r.cache == c - {Rel(w, src)}
    ensures isDirectory || !Relevant(w, src) ==> r.cache == c
  {
    if !isDirectory && Relevant(w, src) then Outcome(RemoveFile(c, Rel(w, src)), 1)
    else Outcome(c, 0)
  }

  /** `on_moved`: the old entry goes if the old path was relevant; the new
      path is read if it is relevant, and only then is a rebuild triggered.
      Only the two entries of the move can change. */
  function OnMoved(c: Cache, w: Watch, src: Path, dest: Path, isDirectory: bool, disk: Disk): (r: Outcome)
    ensures r.triggers == (if !isDirectory && Relevant(w, dest) then 1 else 0)
    ensures isDirectory || (!Relevant(w, src) && !Relevant(w, dest)) ==> r.cache == c
    ensures !isDirectory && Relevant(w, src) && Rel(w, src) != Rel(w, dest) ==> Rel(w, src) !in r.cache
    ensures !isDirectory && Relevant(w, src) && !Relevant(w, dest) ==> r.cache == c - {Rel(w, src)}
    ensures !isDirectory && Relevant(w, dest) && dest in disk && disk[dest].Ok?
      ==> Rel(w, dest) in r.cache && r.cache[Rel(w, dest)] == disk[dest].text
    ensures !isDirectory && Relevant(w, dest)
      ==> r == HandleChange(if Relevant(w, src) then c - {Rel(w, src)} else c, w, dest, disk)
  {
    if isDirectory then Outcome(c, 0)
    else
      var c1 := if Relevant(w, src) then RemoveFile(c, Rel(w, src)) else c;
      if Relevant(w, dest) then HandleChange(c1, w, dest, disk) else Outcome(c1, 0)
  }

  /** A move touches only its own two entries: nothing but the destination's
      key can appear, and every other entry keeps its value. */
  lemma MoveChangesOnlyItsEntries(c: Cache, w: Watch, src: Path, dest: Path, isDirectory: bool, disk: Disk, k: string)
    ensures k in OnMoved(c, w, src, dest, isDirectory, disk).cache ==> k in c || (!isDirectory && k == Rel(w, dest))
    ensures k in c && k != Rel(w, dest) && !(!isDirectory && Relevant(w, src) && k == Rel(w, src))
      ==> k in OnMoved(c, w, src, dest, isDirectory, disk).cache && OnMoved(c, w, src, dest, isDirectory, disk).cache[k] == c[k]
  {
  }

  /** The handler method watchdog calls for each event. */
  function Dispatch(c: Cache, w: Watch, e: Event, disk: Disk): (r: Outcome)
    ensures r.triggers <= 1
    ensures r.triggers == 1 ==> !e.isDirectory
  {
    match e
    case Created(src, isDir) => OnCreatedOrModified(c, w, src, isDir, disk)
    case Modified(src, isDir) => OnCreatedOrModified(c, w, src, isDir, disk)
    case Deleted(src, isDir) => OnDeleted(c, w, src, isDir)
    case Moved(src, dest, isDir) => OnMoved(c, w, src, dest, isDir, disk)
  }

  /** Events about directories change nothing and schedule nothing. */
  lemma DirectoryEventsAreInert(c: Cache, w: Watch, e: Event, disk: Disk)
    requires e.isDirectory
    ensures Dispatch(c, w, e, disk) == Outcome(c, 0)
  {
  }

  /** A handled event triggers at most once, and only a relevant path can
      bring a new key into the cache, under its relative path. */
  lemma {:induction false} DispatchShape(c: Cache, w: Watch, e: Event, disk: Disk, k: string)
    ensures Dispatch(c, w, e, disk).triggers <= 1
    ensures k in Dispatch(c, w, e, disk).cache && k !in c ==> !e.isDirectory && exists p :: p in disk && Relevant(w, p) && k == Rel(w, p)
  {
    var r := Dispatch(c, w, e, disk);
    if k in r.cache && k !in c {
      match e
      case Created(src, _) => assert src in disk && Relevant(w, src) && k == Rel(w, src);
      case Modified(src, _) => assert src in disk && Relevant(w, src) && k == Rel(w, src);
      case Deleted(src, _) =>
      case Moved(src, dest, _) => assert dest in disk && Relevant(w, dest) && k == Rel(w, dest);
    }
  }

  /** As written, moving a cached file to a name out of scope removes its entry
      but triggers nothing, so no rebuild is scheduled for that removal. */
  lemma MovedOutOfScopeIsSilent(search: Search)
    ensures var w := Watch(["w"], Config([".js"], [], [], [], []), search);
            var c := map["a.js" := "x"];
            var r := Dispatch(c, w, Moved(["w", "a.js"], ["w", "a.txt"], false), map[["w", "a.txt"] := Ok("x")]);
            r.cache != c && r.cache == map[] && r.triggers == 0
  {
    var w := Watch(["w"], Config([".js"], [], [], [], []), search);
    assert EndsWith("a.js", ".js");
    assert !EndsWith("a.txt", ".js") by { assert "a.txt"[2] != ".js"[0]; }
    assert Relevant(w, ["w", "a.js"]);
    assert !Relevant(w, ["w", "a.txt"]);
    RelPathBelow(["w"], ["w", "a.js"]);
    assert ["w", "a.js"][1..] == ["a.js"];
    assert "a.js" in map["a.js" := "x"];
  }

  /** Corrected relevance for events: the rule the initial scan applies. */
  function RelevantIntended(w: Watch, path: Path): bool
  {
    IsRelevantIntended(path, w.root, w.cfg, w.search)
  }

  /** Corrected `on_moved`: removing the old entry also schedules a rebuild. */
  function OnMovedIntended(c: Cache, w: Watch, src: Path, dest: Path, isDirectory: bool, disk: Disk): (r: Outcome)
    ensures r.triggers == (if !isDirectory && (RelevantIntended(w, src) || RelevantIntended(w, dest)) then 1 else 0)
    ensures r.cache != c ==> r.triggers == 1
    ensures !isDirectory && RelevantIntended(w, src) && !RelevantIntended(w, dest) ==> r.cache == RemoveFile(c, Rel(w, src))
  {
    if isDirectory then Outcome(c, 0)
    else
      var c1 := if RelevantIntended(w, src) then RemoveFile(c, Rel(w, src)) else c;
      if RelevantIntended(w, dest) then HandleChange(c1, w, dest, disk)
      else Outcome(c1, if RelevantIntended(w, src) then 1 else 0)
  }

  /** The handler with both corrections. */
  function DispatchIntended(c: Cache, w: Watch, e: Event, disk: Disk): (r: Outcome)
    ensures r.cache != c ==> r.triggers == 1
    ensures r.triggers <= 1
  {
    match e
    case Created(src, isDir) =>
      if !isDir && RelevantIntended(w, src) then HandleChange(c, w, src, disk) else Outcome(c, 0)
    case Modified(src, isDir) =>
      if !isDir && RelevantIntended(w, src) then HandleChange(c, w, src, disk) else Outcome(c, 0)
    case Deleted(src, isDir) =>
      if !isDir && RelevantIntended(w, src) then Outcome(RemoveFile(c, Rel(w, src)), 1) else Outcome(c, 0)
    case Moved(src, dest, isDir) => OnMovedIntended(c, w, src, dest, isDir, disk)
  }

  /** The corrected handler sees the move out of scope and schedules a rebuild. */
  lemma MovedOutOfScopeTriggersWhenCorrected(search: Search)
    ensures var w := Watch(["w"], Config([".js"], [], [], [], []), search);
            var c := map["a.js" := "x"];
            var r := DispatchIntended(c, w, Moved(["w", "a.js"], ["w", "a.txt"], false), map[["w", "a.txt"] := Ok("x")]);
            r.cache == map[] && r.triggers == 1
  {
    var w := Watch(["w"], Config([".js"], [], [], [], []), search);
    assert EndsWith("a.js", ".js");
    assert !EndsWith("a.txt", ".js") by { assert "a.txt"[2] != ".js"[0]; }
    IntendedRelevanceMatchesScan(["w"], ["a.js"], w.cfg, search);
    IntendedRelevanceMatchesScan(["w"], ["a.txt"], w.cfg, search);
    assert ["w"] + ["a.js"] == ["w", "a.js"];
    assert ["w"] + ["a.txt"] == ["w", "a.txt"];
    RelPathBelow(["w"], ["w", "a.js"]);
    assert ["w", "a.js"][1..] == ["a.js"];
  }

  /** Every key is the relative path of a file the initial scan would load by
      name and directory: a non-empty path whose name passes `_should_include`
      and which passes through no excluded directory. */
  ghost predicate CacheInScope(c: Cache, cfg: Config, search: Search)
  {
    forall k :: k in c ==> exists rel: Path :: Join(rel) == k && InScope(rel, cfg, search)
  }

  predicate InScope(rel: Path, cfg: Config, search: Search)
  {
    |rel| >= 1 && ShouldInclude(Basename(rel), cfg, search) && !Pruned(rel, cfg.excludeDirs)
  }

  /** The initial scan establishes the scope invariant. */
  lemma LoadInitialInScope(c: Cache, t: Tree, cfg: Config, search: Search)
    requires WellFormed(t)
    ensures CacheInScope(LoadInitial(c, t, cfg, search), cfg, search)
  {
    var r := LoadInitial(c, t, cfg, search);
    forall k | k in r
      ensures exists rel: Path :: Join(rel) == k && InScope(rel, cfg, search)
    {
      var p :| Join(p) == k && Loaded(t, cfg, search, p, r[k]);
      LookupPlain(t, p);
    }
  }

  /** The corrected handler keeps the cache in scope: whatever it stores
      lies below the root with a name and directories the scan accepts. */
  lemma DispatchIntendedKeepsScope(c: Cache, w: Watch, e: Event, disk: Disk)
    requires CacheInScope(c, w.cfg, w.search)
    ensures CacheInScope(DispatchIntended(c, w, e, disk).cache, w.cfg, w.search)
  {
    var r := DispatchIntended(c, w, e, disk).cache;
    forall k | k in r
      ensures exists rel: Path :: Join(rel) == k && InScope(rel, w.cfg, w.search)
    {
      if k !in c {
        var p := StoredPath(c, w, e, disk, k);
        RelevantKeyInScope(w, p);
      }
    }
  }

  /** The key a corrected-relevant path is stored under is in scope. */
  lemma RelevantKeyInScope(w: Watch, p: Path)
    requires RelevantIntended(w, p)
    ensures exists rel: Path :: Join(rel) == Rel(w, p) && InScope(rel, w.cfg, w.search)
  {
    var rel := p[|w.root|..];
    assert p == w.root + rel;
    IntendedRelevanceMatchesScan(w.root, rel, w.cfg, w.search);
    RelPathBelow(w.root, p);
    assert Join(rel) == Rel(w, p) && InScope(rel, w.cfg, w.search);
  }

  /** The path whose read brought a new key into the cache. */
  lemma StoredPath(c: Cache, w: Watch, e: Event, disk: Disk, k: string) returns (p: Path)
    requires k in DispatchIntended(c, w, e, disk).cache && k !in c
    ensures RelevantIntended(w, p) && k == Rel(w, p)
  {
    match e
    case Created(src, _) => p := src;
    case Modified(src, _) => p := src;
    case Deleted(src, _) => assert false;
    case Moved(src, dest, _) => p := dest;
  }
}
