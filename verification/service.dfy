/** The running watcher of `SRC.py` (`main` after start-up): the cache, the
    debouncer, and the documents written so far. An event goes through the
    handler and triggers the debouncer; when the timer runs out, the document
    is regenerated from the cache as it is at that moment. The `tree` listing
    is an input, taken to be the same at every rebuild. */
module Watching {
  import opened FileTree
  import opened PathFilter
  import opened RepositoryCache
  import opened Markdown
  import opened Debouncing
  import opened Events

  datatype Watcher = Watcher(cache: Cache, timer: Timer, docs: seq<string>)

  /** Start-up: the initial scan, then one document written straight away. */
  function Start(t: Tree, cfg: Config, search: Search, tree: string): (s: Watcher)
    ensures s.cache == LoadInitial(map[], t, cfg, search)
    ensures s.timer == Idle && |s.docs| == 1
    ensures s.docs[0] == UpdateCodeBaseDocument(s.cache, tree)
  {
    var c := LoadInitial(map[], t, cfg, search);
    Watcher(c, Idle, [UpdateCodeBaseDocument(c, tree)])
  }

  /** One event as the handler is written, at instant `now`. */
  function OnEvent(s: Watcher, w: Watch, e: Event, disk: Disk, now: int, wait: nat): (r: Watcher)
    ensures r.docs == s.docs
    ensures r.cache == Dispatch(s.cache, w, e, disk).cache
    ensures Dispatch(s.cache, w, e, disk).triggers > 0 ==> r.timer == Armed(now + wait)
    ensures Dispatch(s.cache, w, e, disk).triggers == 0 ==> r.timer == s.timer
  {
    var o := Dispatch(s.cache, w, e, disk);
    Watcher(o.cache, if o.triggers > 0 then Trigger(s.timer, now, wait) else s.timer, s.docs)
  }

  /** One event through the corrected handler. */
  function OnEventIntended(s: Watcher, w: Watch, e: Event, disk: Disk, now: int, wait: nat): (r: Watcher)
    ensures r.docs == s.docs
    ensures r.cache == DispatchIntended(s.cache, w, e, disk).cache
    ensures r.cache != s.cache ==> r.timer == Armed(now + wait)
  {
    var o := DispatchIntended(s.cache, w, e, disk);
    Watcher(o.cache, if o.triggers > 0 then Trigger(s.timer, now, wait) else s.timer, s.docs)
  }

  /** The timer thread at instant `now`: `_on_debounced_update` writes the
      document for the cache as it is now. */
  function OnTick(s: Watcher, now: int, tree: string): (r: Watcher)
    ensures r.cache == s.cache
    ensures (s.timer.Armed? && s.timer.deadline <= now)
      ==> r.timer == Idle && r.docs == s.docs + [UpdateCodeBaseDocument(s.cache, tree)]
    ensures !(s.timer.Armed? && s.timer.deadline <= now) ==> r == s
  {
    var (timer, fired) := Tick(s.timer, now);
    Watcher(s.cache, timer, if fired then s.docs + [UpdateCodeBaseDocument(s.cache, tree)] else s.docs)
  }

  /** The written document is current, or a rebuild is pending. */
  predicate Fresh(s: Watcher, tree: string)
  {
    s.timer.Armed? || (|s.docs| > 0 && s.docs[|s.docs| - 1] == UpdateCodeBaseDocument(s.cache, tree))
  }

  lemma StartIsFresh(t: Tree, cfg: Config, search: Search, tree: string)
    requires WellFormed(t)
    ensures Fresh(Start(t, cfg, search, tree), tree)
    ensures CacheInScope(Start(t, cfg, search, tree).cache, cfg, search)
  {
    LoadInitialInScope(map[], t, cfg, search);
  }

  /** With the corrected handler, the document never silently falls behind
      the cache: every step keeps it current or leaves a rebuild pending. */
  lemma IntendedStepsKeepFresh(s: Watcher, w: Watch, e: Event, disk: Disk, now: int, wait: nat, later: int, tree: string)
    requires Fresh(s, tree)
    ensures Fresh(OnEventIntended(s, w, e, disk, now, wait), tree)
    ensures Fresh(OnTick(s, later, tree), tree)
  {
  }

  /** As written, a fresh watcher whose only cached file is moved out of
      scope keeps showing the file: the cache drops it but nothing is
      scheduled, so the last document no longer matches and no rebuild is
      pending. */
  lemma StaleAfterMoveOutOfScope(search: Search, tree: string, now: int, wait: nat)
    ensures var w := Watch(["w"], Config([".js"], [], [], [], []), search);
            var c := map["a.js" := "x"];
            var s := Watcher(c, Idle, [UpdateCodeBaseDocument(c, tree)]);
            var s' := OnEvent(s, w, Moved(["w", "a.js"], ["w", "a.txt"], false), map[["w", "a.txt"] := Ok("x")], now, wait);
            Fresh(s, tree) && !Fresh(s', tree)
  {
    var w := Watch(["w"], Config([".js"], [], [], [], []), search);
    var c := map["a.js" := "x"];
    MovedOutOfScopeIsSilent(search);
    NonEmptyCacheShows(c, "a.js", EffectiveTree(tree));
    EmptyCacheShowsNoFile(EffectiveTree(tree));
  }

  /** A cache with a file renders a longer document than the empty cache. */
  lemma NonEmptyCacheShows(c: Cache, k: string, tree: string)
    requires k in c
    ensures |GenerateMarkdown(c, tree)| > |GenerateMarkdown(map[], tree)|
  {
    var ks := GetAllFilesSorted(c);
    assert ks[0] in c;
    assert |CodeOutput(ks, c)| >= |FileBlock(ks[0], GetFileContent(c, ks[0]))| > 0;
    EmptyCacheShowsNoFile(tree);
  }

  lemma EmptyCacheShowsNoFile(tree: string)
    ensures GenerateMarkdown(map[], tree) == Document(tree, "")
  {
    assert GetAllFilesSorted(map[]) == [];
  }
}
