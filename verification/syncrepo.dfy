/** `SyncRepo.py`, the older script: no cache. Every accepted event re-walks
    the tree and rebuilds the whole document, with its own filter, block
    format and a leading-edge time throttle. */
module SyncRepo {
  import opened Strings
  import opened Paths
  import opened FileTree
  import opened PathFilter
  import opened RepositoryCache
  import opened Markdown

  /** The inline filter of `read_files_in_directory`: skip sensitive names,
      need an allowed suffix (a tuple `endswith` is "any of"), skip excluded
      suffixes. There is no regex and no per-file directory test. */
  function SyncKeep(name: string, cfg: Config): (r: bool)
    ensures r <==> name !in cfg.sensitiveFiles
                   && (exists e :: e in cfg.extensions && EndsWith(name, e))
                   && (forall x :: x in cfg.excludes ==> !EndsWith(name, x))
  {
    AnyEndsWithMeansSome(name, cfg.extensions);
    AnyEndsWithMeansSome(name, cfg.excludes);
    if name in cfg.sensitiveFiles then false
    else if AnyEndsWith(name, cfg.extensions) then !AnyEndsWith(name, cfg.excludes)
    else false
  }

  /** The old filter is the new `_should_include` with no regex patterns. */
  lemma SyncKeepIsShouldIncludeWithoutRegex(name: string, cfg: Config, search: Search)
    ensures SyncKeep(name, cfg) == ShouldInclude(name, cfg.(regexPatterns := []), search)
  {
  }

  /** The marker and fence of one file in this script: a blank line before
      the opening fence and none after the closing one. */
  function SyncFileBlock(rel: string, content: string): string
  {
    "----- FILE: " + rel + " -----\n" + "\n```\n" + content + "\n```\n"
  }

  /** The two scripts frame a file the same way except for one blank line:
      `SyncRepo.py` puts it before the opening fence, `SRC.py` after the
      closing one. */
  lemma BlockFormatsDiffer(rel: string, content: string)
    ensures var marker := "----- FILE: " + rel + " -----\n";
            && marker <= SyncFileBlock(rel, content) && marker <= FileBlock(rel, content)
            && SyncFileBlock(rel, content) + "\n" == marker + "\n" + FileBlock(rel, content)[|marker|..]
  {
  }

  /** One walk item's contribution; a failed read is only logged. */
  function BlockOf(item: (Path, Read)): string
  {
    match item.1
    case Ok(text) => SyncFileBlock(Join(item.0), text)
    case ReadError => ""
  }

  /** The blocks for walk items in order. */
  function EmitBlocks(items: seq<(Path, Read)>): string
  {
    if items == [] then "" else BlockOf(items[0]) + EmitBlocks(items[1..])
  }

  lemma {:induction false} EmitBlocksConcat(a: seq<(Path, Read)>, b: seq<(Path, Read)>)
    ensures EmitBlocks(a + b) == EmitBlocks(a) + EmitBlocks(b)
  {
    if a != [] {
      assert (a + b)[0] == a[0];
      assert (a + b)[1..] == a[1..] + b;
      EmitBlocksConcat(a[1..], b);
    } else {
      assert a + b == b;
    }
  }

  /** Each walk item contributes its own block in its own place, whatever
      the items around it are. */
  lemma OneBlockPerItem(before: seq<(Path, Read)>, item: (Path, Read), after: seq<(Path, Read)>)
    ensures EmitBlocks(before + [item] + after) == EmitBlocks(before) + BlockOf(item) + EmitBlocks(after)
  {
    var one := [item];
    EmitBlocksConcat(before + one, after);
    EmitBlocksConcat(before, one);
    assert one[1..] == [];
    assert EmitBlocks(one) == BlockOf(item) + "";
    assert BlockOf(item) + "" == BlockOf(item);
  }

  /** A file whose read fails leaves no trace: the output is exactly the
      blocks of the other files. */
  lemma FailedReadDropsOnlyItsBlock(before: seq<(Path, Read)>, p: Path, after: seq<(Path, Read)>)
    ensures EmitBlocks(before + [(p, ReadError)] + after) == EmitBlocks(before) + EmitBlocks(after)
  {
    OneBlockPerItem(before, (p, ReadError), after);
    assert EmitBlocks(before) + "" == EmitBlocks(before);
  }

  function SyncKeepOf(cfg: Config): string -> bool
  {
    name => SyncKeep(name, cfg)
  }

  /** The files `read_files_in_directory` takes up, in walk order. */
  function SyncFiles(t: Tree, cfg: Config): seq<(Path, Read)>
  {
    Visit(t, SyncKeepOf(cfg), cfg.excludeDirs)
  }

  /** `read_files_in_directory(directory, ...)`. */
  function ReadFilesInDirectory(t: Tree, cfg: Config): string
  {
    EmitBlocks(SyncFiles(t, cfg))
  }

  /** A file is taken up exactly when it is in the tree, passes the inline
      filter, and no directory on its way, at any depth, has an excluded name. */
  lemma SyncFilesMembers(t: Tree, cfg: Config, p: Path, r: Read)
    ensures (p, r) in SyncFiles(t, cfg)
      <==> && Lookup(t, p) == Some(r)
           && SyncKeep(Basename(p), cfg)
           && forall i :: 0 <= i < |p| - 1 ==> p[i] !in cfg.excludeDirs
  {
    VisitMembers(t, SyncKeepOf(cfg), cfg.excludeDirs, p, r);
  }

  /** Every file the walk takes up and reads is shown: its block, with its
      relative path and content, appears in the output at some position `i`. */
  lemma FileShownInSync(t: Tree, cfg: Config, p: Path, text: string) returns (i: nat)
    requires Lookup(t, p) == Some(Ok(text))
    requires SyncKeep(Basename(p), cfg)
    requires forall j :: 0 <= j < |p| - 1 ==> p[j] !in cfg.excludeDirs
    ensures i + |SyncFileBlock(Join(p), text)| <= |ReadFilesInDirectory(t, cfg)|
    ensures ReadFilesInDirectory(t, cfg)[i..i + |SyncFileBlock(Join(p), text)|] == SyncFileBlock(Join(p), text)
  {
    var items := SyncFiles(t, cfg);
    SyncFilesMembers(t, cfg, p, Ok(text));
    var j :| 0 <= j < |items| && items[j] == (p, Ok(text));
    SplitAt(items, j);
    OneBlockPerItem(items[..j], (p, Ok(text)), items[j + 1..]);
    MiddleSlice(EmitBlocks(items[..j]), SyncFileBlock(Join(p), text), EmitBlocks(items[j + 1..]));
    i := |EmitBlocks(items[..j])|;
  }

  /** The blocks come in `os.walk` order: a directory's files, sorted, then
      each subdirectory's files, subdirectories sorted. */
  lemma SyncFilesWalkOrdered(t: Tree, cfg: Config)
    ensures WalkOrdered(SyncFiles(t, cfg))
  {
    VisitOrdered(t, SyncKeepOf(cfg), cfg.excludeDirs);
  }

  /** A top-level `z.js` and a nested `a/b.js`. */
  function TopAndNested(): Tree
  {
    Dir(map["z.js" := Ok("1")], map["a" := Dir(map["b.js" := Ok("2")], map[])])
  }

  /** Walk order is not string order: in `TopAndNested`, `z.js` is taken up
      before `a/b.js` although `a/b.js` sorts first. */
  lemma TopFileBeforeSubdirectory()
    ensures var items := SyncFiles(TopAndNested(), Config([".js"], [], [], [], []));
            exists i, j :: 0 <= i < j < |items|
              && items[i] == (["z.js"], Ok("1")) && items[j] == (["a", "b.js"], Ok("2"))
    ensures Less(Join(["a", "b.js"]), Join(["z.js"]))
  {
    var cfg := Config([".js"], [], [], [], []);
    var z: (Path, Read) := (["z.js"], Ok("1"));
    var ab: (Path, Read) := (["a", "b.js"], Ok("2"));
    TopAndNestedMembers();
    SyncFilesWalkOrdered(TopAndNested(), cfg);
    assert WalkBefore(z.0, ab.0);
    assert !WalkBefore(ab.0, z.0);
    OrderedPositions(SyncFiles(TopAndNested(), cfg), z, ab);
    NestedSortsFirst();
  }

  lemma NestedSortsFirst()
    ensures Less(Join(["a", "b.js"]), Join(["z.js"]))
  {
    var ab: Path := ["a", "b.js"];
    assert ab[1..] == ["b.js"];
    assert Join(ab) == "a" + "/" + "b.js";
    assert Join(["z.js"]) == "z.js";
    assert ("a" + "/" + "b.js")[0] == 'a';
  }

  lemma TopAndNestedMembers()
    ensures (["z.js"], Ok("1")) in SyncFiles(TopAndNested(), Config([".js"], [], [], [], []))
    ensures (["a", "b.js"], Ok("2")) in SyncFiles(TopAndNested(), Config([".js"], [], [], [], []))
  {
    var cfg := Config([".js"], [], [], [], []);
    TopAndNestedLookups();
    JsTaken();
    SyncFilesMembers(TopAndNested(), cfg, ["z.js"], Ok("1"));
    SyncFilesMembers(TopAndNested(), cfg, ["a", "b.js"], Ok("2"));
  }

  lemma TopAndNestedLookups()
    ensures Lookup(TopAndNested(), ["z.js"]) == Some(Ok("1"))
    ensures Lookup(TopAndNested(), ["a", "b.js"]) == Some(Ok("2"))
  {
    var ab: Path := ["a", "b.js"];
    assert ab[1..] == ["b.js"];
  }

  lemma JsTaken()
    ensures SyncKeep(Basename(["z.js"]), Config([".js"], [], [], [], []))
    ensures SyncKeep(Basename(["a", "b.js"]), Config([".js"], [], [], [], []))
  {
    assert EndsWith("z.js", ".js") && EndsWith("b.js", ".js");
    assert ".js" in [".js"];
  }

  /** In a walk-ordered list, an item that walks before another sits before it. */
  lemma OrderedPositions(items: seq<(Path, Read)>, x: (Path, Read), y: (Path, Read))
    requires WalkOrdered(items) && x in items && y in items
    requires WalkBefore(x.0, y.0) && !WalkBefore(y.0, x.0)
    ensures exists i, j :: 0 <= i < j < |items| && items[i] == x && items[j] == y
  {
    var i :| 0 <= i < |items| && items[i] == x;
    var j :| 0 <= j < |items| && items[j] == y;
    if j <= i {
      assert false;
    }
  }

  /** `update_code_base` of this script: the tree section, then everything
      after the code header is the blocks of the walk. */
  function SyncUpdateCodeBase(t: Tree, cfg: Config, treeOutput: string): (r: string)
    ensures TreeHeader + EffectiveTree(treeOutput) + CodeHeader <= r
    ensures r[|TreeHeader + EffectiveTree(treeOutput) + CodeHeader|..] == ReadFilesInDirectory(t, cfg)
  {
    TreeHeader + EffectiveTree(treeOutput) + CodeHeader + ReadFilesInDirectory(t, cfg)
  }

  /** Both scripts write the same headers and the same placeholder: for any
      tree, filter and cache, their documents agree up to the end of the
      code header and can differ only in the code section. */
  lemma SameLayoutAsCached(t: Tree, cfg: Config, c: Cache, treeOutput: string)
    ensures var head := TreeHeader + EffectiveTree(treeOutput) + CodeHeader;
            head <= SyncUpdateCodeBase(t, cfg, treeOutput) && head <= UpdateCodeBaseDocument(c, treeOutput)
    ensures treeOutput == "" ==>
              var head := "========== TREE OUTPUT ==========\n" + "Could not generate tree structure."
                          + "\n\n========== CODE OUTPUT ==========\n\n";
              head <= SyncUpdateCodeBase(t, cfg, treeOutput) && head <= UpdateCodeBaseDocument(c, treeOutput)
  {
  }

  /** `debounce_time`, in seconds. */
  const DebounceTime: int := 5

  /** `ChangeHandler.last_update`, set to the construction time. */
  datatype Throttle = Throttle(lastUpdate: int)

  /** `on_any_event` at instant `now`: run an update only when the last one
      is at least `debounce_time` old, and only then move `last_update`. */
  function OnAnyEvent(s: Throttle, now: int): (r: (Throttle, bool))
    ensures r.1 <==> now >= s.lastUpdate + DebounceTime
    ensures r.1 ==> r.0 == Throttle(now)
    ensures !r.1 ==> r.0 == s
  {
    if now - s.lastUpdate < DebounceTime then (s, false)
    else (Throttle(now), true)
  }

  /** The state after a series of events, and the instants at which an update ran. */
  function ThrottleRun(s: Throttle, times: seq<int>): (Throttle, seq<int>)
    decreases |times|
  {
    if times == [] then (s, [])
    else
      var (s1, ran) := OnAnyEvent(s, times[0]);
      var (f, u) := ThrottleRun(s1, times[1..]);
      (f, (if ran then [times[0]] else []) + u)
  }

  /** Updates are at least `debounce_time` apart, the first at least that long
      after the previous one, each at the instant of an event; `last_update`
      ends at the latest of them. */
  lemma {:induction false} ThrottleSpacing(s: Throttle, times: seq<int>)
    ensures var (f, u) := ThrottleRun(s, times);
            && (|u| > 0 ==> u[0] >= s.lastUpdate + DebounceTime)
            && (forall i :: 0 < i < |u| ==> u[i] >= u[i - 1] + DebounceTime)
            && (forall x :: x in u ==> x in times)
            && f.lastUpdate == (if |u| > 0 then u[|u| - 1] else s.lastUpdate)
    decreases |times|
  {
    if times != [] {
      var (s1, ran) := OnAnyEvent(s, times[0]);
      ThrottleSpacing(s1, times[1..]);
      var (f, u) := ThrottleRun(s1, times[1..]);
      var w := (if ran then [times[0]] else []) + u;
      assert ThrottleRun(s, times) == (f, w);
      forall x | x in u
        ensures x in times
      {
        assert x in times[1..];
      }
      if ran {
        forall i | 0 < i < |w|
          ensures w[i] >= w[i - 1] + DebounceTime
        {
          if i > 1 {
            assert w[i] == u[i - 1] && w[i - 1] == u[i - 2];
          }
        }
      } else {
        assert w == u;
      }
    }
  }

  /** An event inside the window is dropped, not deferred: the run with it
      ends in the same state with the same updates as the run without it. */
  lemma {:induction false} DroppedEventLeavesNoTrace(s: Throttle, times: seq<int>, now: int)
    requires now < ThrottleRun(s, times).0.lastUpdate + DebounceTime
    ensures ThrottleRun(s, times + [now]) == ThrottleRun(s, times)
    decreases |times|
  {
    if times == [] {
      assert ThrottleRun(s, [now]) == (s, []);
    } else {
      var (s1, ran) := OnAnyEvent(s, times[0]);
      assert (times + [now])[0] == times[0];
      assert (times + [now])[1..] == times[1..] + [now];
      DroppedEventLeavesNoTrace(s1, times[1..], now);
    }
  }

  /** The handler's clock starts at construction, so an event within the
      first `debounce_time` after start-up does not update the document. */
  lemma FirstEventWithinWindowIsDropped(start: int, now: int)
    requires start <= now < start + DebounceTime
    ensures !OnAnyEvent(Throttle(start), now).1
  {
  }
}
