/** `RepositoryCache` of `SRC.py`: a map from relative path to file content,
    filled by a full scan and kept current by single-file updates and removals. */
module RepositoryCache {
  import opened Sorted
  import opened Paths
  import opened FileTree
  import opened PathFilter

  /** `_file_cache`: relative path (as `relpath` spells it) to content. */
  type Cache = map<string, string>

  /** The disk as single-file calls see it: a path is in the map iff
      `os.path.exists` holds for it, and maps to what reading it gives. */
  type Disk = map<Path, Read>

  /** `remove_file(relative_path)`: deletes the entry if there is one. */
  function RemoveFile(c: Cache, rel: string): (r: Cache)
    ensures rel !in r
    ensures rel !in c ==> r == c
    ensures forall k :: k != rel ==> (k in r <==> k in c)
    ensures forall k :: k in r ==> r[k] == c[k]
  {
    if rel in c then c - {rel} else c
  }

  /** Removing twice is removing once. */
  lemma RemoveFileIdempotent(c: Cache, rel: string)
    ensures RemoveFile(RemoveFile(c, rel), rel) == RemoveFile(c, rel)
  {
  }

  /** `_read_and_store_file`: a successful read sets exactly that key,
      overwriting any previous value; a failed read (only logged) leaves the
      whole map as it was, so an older entry for the key survives. */
  function ReadAndStore(c: Cache, rel: string, read: Read): (r: Cache)
    ensures read.Ok? ==> rel in r && r[rel] == read.text && r.Keys == c.Keys + {rel}
    ensures read.ReadError? ==> r == c
    ensures forall k :: k != rel ==> (k in r <==> k in c) && (k in r ==> r[k] == c[k])
  {
    match read
    case Ok(text) => c[rel := text]
    case ReadError => c
  }

  /** `update_file(file_path, relative_path)`: a path that no longer exists is
      removed; otherwise the file is read and stored. */
  function UpdateFile(c: Cache, path: Path, rel: string, disk: Disk): (r: Cache)
    ensures path !in disk ==> r == RemoveFile(c, rel)
    ensures path in disk && disk[path].Ok? ==> rel in r && r[rel] == disk[path].text
    ensures path in disk && disk[path].ReadError? ==> r == c
    ensures forall k :: k != rel ==> (k in r <==> k in c) && (k in r ==> r[k] == c[k])
  {
    if path !in disk then RemoveFile(c, rel)
    else ReadAndStore(c, rel, disk[path])
  }

  /** `get_all_files_sorted()`: every key once, ascending. */
  function GetAllFilesSorted(c: Cache): (r: seq<string>)
    ensures StrictlyAscending(r)
    ensures forall k :: k in r <==> k in c
    ensures |r| == |c|
  {
    SortedKeys(c.Keys)
  }

  /** `get_file_content(relative_path)`: `dict.get(key, "")`. */
  function GetFileContent(c: Cache, rel: string): (r: string)
    ensures rel in c ==> r == c[rel]
    ensures rel !in c ==> r == ""
  {
    if rel in c then c[rel] else ""
  }

  /** `_read_and_store_file` applied to each item in turn. */
  function StoreReads(c: Cache, items: seq<(string, Read)>): Cache
    decreases |items|
  {
    if items == [] then c
    else StoreReads(ReadAndStore(c, items[0].0, items[0].1), items[1..])
  }

  /** Keys no item mentions are untouched. */
  lemma {:induction false} StoreReadsFrame(c: Cache, items: seq<(string, Read)>, k: string)
    requires forall j :: 0 <= j < |items| ==> items[j].0 != k
    ensures k in StoreReads(c, items) <==> k in c
    ensures k in c ==> StoreReads(c, items)[k] == c[k]
    decreases |items|
  {
    if items != [] {
      StoreReadsFrame(ReadAndStore(c, items[0].0, items[0].1), items[1..], k);
    }
  }

  /** Every stored value is an old value or came from a successful read of its key. */
  lemma {:induction false} StoreReadsSound(c: Cache, items: seq<(string, Read)>, k: string)
    requires k in StoreReads(c, items)
    ensures (k in c && StoreReads(c, items)[k] == c[k])
         || exists j :: 0 <= j < |items| && items[j] == (k, Ok(StoreReads(c, items)[k]))
    decreases |items|
  {
    if items != [] {
      var c' := ReadAndStore(c, items[0].0, items[0].1);
      var r := StoreReads(c, items);
      StoreReadsSound(c', items[1..], k);
      if exists j :: 0 <= j < |items[1..]| && items[1..][j] == (k, Ok(r[k])) {
        var j :| 0 <= j < |items[1..]| && items[1..][j] == (k, Ok(r[k]));
        assert items[j + 1] == (k, Ok(r[k]));
      } else if k == items[0].0 && items[0].1.Ok? {
        assert items[0] == (k, Ok(r[k]));
      }
    }
  }

  /** A successful read whose key no other item contradicts ends up stored. */
  lemma {:induction false} StoreReadsComplete(c: Cache, items: seq<(string, Read)>, i: int)
    requires 0 <= i < |items| && items[i].1.Ok?
    requires forall j :: 0 <= j < |items| && items[j].0 == items[i].0 ==> items[j].1 == items[i].1
    ensures items[i].0 in StoreReads(c, items)
    ensures StoreReads(c, items)[items[i].0] == items[i].1.text
    decreases |items|
  {
    var c' := ReadAndStore(c, items[0].0, items[0].1);
    var rest := items[1..];
    if i > 0 {
      assert rest[i - 1] == items[i];
      StoreReadsComplete(c', rest, i - 1);
    } else if exists j :: 0 <= j < |rest| && rest[j].0 == items[0].0 {
      var j :| 0 <= j < |rest| && rest[j].0 == items[0].0;
      assert rest[j] == items[j + 1];
      StoreReadsComplete(c', rest, j);
    } else {
      StoreReadsFrame(c', rest, items[0].0);
    }
  }

  /** Walk items keyed by their relative path string. */
  function Keyed(items: seq<(Path, Read)>): (r: seq<(string, Read)>)
    ensures |r| == |items|
    ensures forall i :: 0 <= i < |r| ==> r[i] == (Join(items[i].0), items[i].1)
  {
    seq(|items|, i requires 0 <= i < |items| => (Join(items[i].0), items[i].1))
  }

  /** The name filter the scan applies to each file name. */
  function ScanKeep(cfg: Config, search: Search): string -> bool
  {
    name => ShouldInclude(name, cfg, search)
  }

  /** A file the scan loads: it exists in the tree with a successful read,
      its name passes `_should_include`, and no directory on its way has an
      excluded name. */
  ghost predicate Loaded(t: Tree, cfg: Config, search: Search, p: Path, text: string)
  {
    && Lookup(t, p) == Some(Ok(text))
    && ShouldInclude(Basename(p), cfg, search)
    && !Pruned(p, cfg.excludeDirs)
  }

  lemma ReachedIsLoaded(t: Tree, cfg: Config, search: Search, p: Path, text: string)
    ensures Reached(t, ScanKeep(cfg, search), cfg.excludeDirs, p, Ok(text)) <==> Loaded(t, cfg, search, p, text)
  {
  }

  /** `load_initial_cache(directory, ...)`: the cache is cleared, then every
      file the pruned walk reaches and the name filter accepts is read and
      stored under its relative path. The old cache plays no part in the
      result, every key is the relative path of a loaded file, and its value
      is that file's read. */
  function LoadInitial(c: Cache, t: Tree, cfg: Config, search: Search): (r: Cache)
    ensures forall k :: k in r ==> exists p :: Join(p) == k && Loaded(t, cfg, search, p, r[k])
  {
    var items := Keyed(Visit(t, ScanKeep(cfg, search), cfg.excludeDirs));
    var r := StoreReads(map[], items);
    forall k | k in r
      ensures exists p :: Join(p) == k && Loaded(t, cfg, search, p, r[k])
    {
      StoreReadsSound(map[], items, k);
      var j :| 0 <= j < |items| && items[j] == (k, Ok(r[k]));
      var v := Visit(t, ScanKeep(cfg, search), cfg.excludeDirs);
      assert v[j] in v;
      VisitMembers(t, ScanKeep(cfg, search), cfg.excludeDirs, v[j].0, v[j].1);
      ReachedIsLoaded(t, cfg, search, v[j].0, r[k]);
    }
    r
  }

  /** On a tree whose names are plain components, the scan loads every file
      it should: each loaded file is in the cache under its relative path,
      with its content. Together with the contract of `LoadInitial`, the keys
      are exactly the loaded files, so none lies under an excluded directory
      at any depth and each passes `_should_include`. */
  lemma LoadInitialComplete(c: Cache, t: Tree, cfg: Config, search: Search, p: Path, text: string)
    requires WellFormed(t)
    requires Loaded(t, cfg, search, p, text)
    ensures Join(p) in LoadInitial(c, t, cfg, search)
    ensures LoadInitial(c, t, cfg, search)[Join(p)] == text
  {
    var keep := ScanKeep(cfg, search);
    var v := Visit(t, keep, cfg.excludeDirs);
    var items := Keyed(v);
    ReachedIsLoaded(t, cfg, search, p, text);
    VisitMembers(t, keep, cfg.excludeDirs, p, Ok(text));
    var i :| 0 <= i < |v| && v[i] == (p, Ok(text));
    forall j | 0 <= j < |items| && items[j].0 == items[i].0
      ensures items[j].1 == items[i].1
    {
      assert v[j] in v;
      VisitMembers(t, keep, cfg.excludeDirs, v[j].0, v[j].1);
      LookupPlain(t, v[j].0);
      LookupPlain(t, p);
      JoinInjective(v[j].0, p);
    }
    StoreReadsComplete(map[], items, i);
  }

  /** The scan ignores whatever the cache held before. */
  lemma LoadInitialForgetsOldCache(c1: Cache, c2: Cache, t: Tree, cfg: Config, search: Search)
    ensures LoadInitial(c1, t, cfg, search) == LoadInitial(c2, t, cfg, search)
  {
  }
}
