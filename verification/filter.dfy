/** The path filter of `SRC.py`: `RepositoryCache._should_include`, which
    judges a bare file name, and `ChangeHandler._is_relevant_file`, which
    judges an absolute path and also rejects paths inside an excluded
    directory directly below the watched root. */
module PathFilter {
  import opened Strings
  import opened Paths
  import opened FileTree

  /** The filter rules: suffix allow-list, suffix deny-list, excluded
      directory names, sensitive file names and exclusion regexes. */
  datatype Config = Config(
    extensions: seq<string>,
    excludes: seq<string>,
    excludeDirs: seq<string>,
    sensitiveFiles: seq<string>,
    regexPatterns: seq<string>)

  /** `re.search(pattern, name)` is truthy; the regex engine is not modelled. */
  type Search = (string, string) -> bool

  /** The scope rule on a bare name, stated with quantifiers: not sensitive,
      some allowed suffix, no excluded suffix, no matching regex. */
  ghost predicate NameInScope(name: string, cfg: Config, search: Search)
  {
    && name !in cfg.sensitiveFiles
    && (exists e :: e in cfg.extensions && EndsWith(name, e))
    && (forall x :: x in cfg.excludes ==> !EndsWith(name, x))
    && (forall pat :: pat in cfg.regexPatterns ==> !search(pat, name))
  }

  /** The `for pattern in regex_patterns: if re.search(...)` loop finds a match. */
  predicate AnyMatch(patterns: seq<string>, name: string, search: Search)
  {
    if patterns == [] then false
    else search(patterns[0], name) || AnyMatch(patterns[1..], name, search)
  }

  lemma {:induction false} AnyMatchMeansSome(patterns: seq<string>, name: string, search: Search)
    ensures AnyMatch(patterns, name, search) <==> exists pat :: pat in patterns && search(pat, name)
  {
    if patterns != [] {
      AnyMatchMeansSome(patterns[1..], name, search);
      if !search(patterns[0], name) {
        forall pat | pat in patterns && search(pat, name)
          ensures pat in patterns[1..]
        {
          var i :| 0 <= i < |patterns| && patterns[i] == pat;
          assert patterns[1..][i - 1] == pat;
        }
      }
    }
  }

  /** `_should_include(filename, ...)`: the sensitive-name check wins outright;
      otherwise the name needs an allowed suffix, no excluded suffix and no
      matching regex. A `None` pattern list is the empty list. */
  function ShouldInclude(name: string, cfg: Config, search: Search): (r: bool)
    ensures name in cfg.sensitiveFiles ==> !r
    ensures r <==> NameInScope(name, cfg, search)
  {
    AnyEndsWithMeansSome(name, cfg.extensions);
    AnyEndsWithMeansSome(name, cfg.excludes);
    AnyMatchMeansSome(cfg.regexPatterns, name, search);
    if name in cfg.sensitiveFiles then false
    else if !AnyEndsWith(name, cfg.extensions) then false
    else if AnyEndsWith(name, cfg.excludes) then false
    else !AnyMatch(cfg.regexPatterns, name, search)
  }

  /** With `.ts` allowed and `.spec.ts` excluded, `c.spec.ts` is rejected and
      `c.ts` accepted. */
  lemma SpecTsExcluded(search: Search)
    ensures !ShouldInclude("c.spec.ts", Config([".ts"], [".spec.ts"], [], [], []), search)
    ensures ShouldInclude("c.ts", Config([".ts"], [".spec.ts"], [], [], []), search)
  {
    var cfg := Config([".ts"], [".spec.ts"], [], [], []);
    assert EndsWith("c.spec.ts", ".spec.ts");
    assert EndsWith("c.ts", ".ts");
    assert !EndsWith("c.ts", ".spec.ts");
  }

  /** The excluded-directory loop of `_is_relevant_file`: for some `ed`,
      `commonpath([file_path, join(directory, ed)]) == join(directory, ed)`. */
  predicate InExcludedDir(path: Path, root: Path, excludeDirs: seq<string>)
  {
    if excludeDirs == [] then false
    else
      var dir := root + [excludeDirs[0]];
      CommonPath(path, dir) == dir || InExcludedDir(path, root, excludeDirs[1..])
  }

  lemma {:induction false} InExcludedDirMeansAncestor(path: Path, root: Path, excludeDirs: seq<string>)
    ensures InExcludedDir(path, root, excludeDirs)
      <==> exists ed :: ed in excludeDirs && root + [ed] <= path
  {
    if excludeDirs != [] {
      CommonPathIsAncestor(path, root + [excludeDirs[0]]);
      InExcludedDirMeansAncestor(path, root, excludeDirs[1..]);
      if !(root + [excludeDirs[0]] <= path) {
        forall ed | ed in excludeDirs && root + [ed] <= path
          ensures ed in excludeDirs[1..]
        {
          var i :| 0 <= i < |excludeDirs| && excludeDirs[i] == ed;
          assert excludeDirs[1..][i - 1] == ed;
        }
      }
    }
  }

  /** `_is_relevant_file(file_path)`: the name tests of `_should_include`, and
      no `root/ed` (for `ed` in the excluded directories) is an ancestor of the
      path. Only directories directly below the root are matched, and only as
      whole components. */
  function IsRelevantFile(path: Path, root: Path, cfg: Config, search: Search): (r: bool)
    ensures r <==> ShouldInclude(Basename(path), cfg, search)
                   && !(exists ed :: ed in cfg.excludeDirs && root + [ed] <= path)
  {
    var name := Basename(path);
    AnyEndsWithMeansSome(name, cfg.extensions);
    AnyEndsWithMeansSome(name, cfg.excludes);
    AnyMatchMeansSome(cfg.regexPatterns, name, search);
    InExcludedDirMeansAncestor(path, root, cfg.excludeDirs);
    if name in cfg.sensitiveFiles then false
    else if !AnyEndsWith(name, cfg.extensions) then false
    else if AnyEndsWith(name, cfg.excludes) then false
    else if InExcludedDir(path, root, cfg.excludeDirs) then false
    else !AnyMatch(cfg.regexPatterns, name, search)
  }

  /** A directory merely containing an excluded name as a substring is not
      excluded: `root/mytest-data/x.js` stays relevant under `test`, while
      `root/test/x.js` does not. */
  lemma ExcludedDirIsComponentNotSubstring(search: Search)
    ensures IsRelevantFile(["w", "mytest-data", "x.js"], ["w"], Config([".js"], [], ["test"], [], []), search)
    ensures !IsRelevantFile(["w", "test", "x.js"], ["w"], Config([".js"], [], ["test"], [], []), search)
  {
    var cfg := Config([".js"], [], ["test"], [], []);
    assert EndsWith("x.js", ".js");
    assert ["w", "test"] <= ["w", "test", "x.js"];
    var q: Path := ["w", "mytest-data", "x.js"];
    assert |"mytest-data"| != |"test"|;
    var dir: Path := ["w", "test"];
    assert q[..2][1] != dir[1];
    assert !(dir <= q);
    assert forall ed :: ed in cfg.excludeDirs ==> ed == "test";
  }

  /** Corrected relevance: the path lies below the root, its name passes
      `_should_include`, and no directory between the root and the file has
      an excluded name, which is the rule the initial scan applies. */
  function IsRelevantIntended(path: Path, root: Path, cfg: Config, search: Search): (r: bool)
    ensures r ==> |root| < |path| && root <= path
    ensures r <==> |root| < |path| && root <= path
                   && NameInScope(Basename(path), cfg, search)
                   && forall i :: |root| <= i < |path| - 1 ==> path[i] !in cfg.excludeDirs
  {
    var inside := |root| < |path| && root <= path;
    if inside then
      var rel := path[|root|..];
      assert Basename(rel) == Basename(path);
      assert forall i :: |root| <= i < |path| - 1 ==> path[i] == rel[i - |root|];
      inside && ShouldInclude(Basename(path), cfg, search) && !Pruned(rel, cfg.excludeDirs)
    else false
  }

  /** As written, an excluded name deeper than the root's own children does not
      exclude: `root/src/test/a.js` is relevant to the event handler under
      `test`, although the initial scan prunes `src/test` and never loads it.
      The corrected rule rejects it. */
  lemma NestedExcludedDirIsRelevant(search: Search)
    ensures IsRelevantFile(["w", "src", "test", "a.js"], ["w"], Config([".js"], [], ["test"], [], []), search)
    ensures Pruned(["src", "test", "a.js"], ["test"])
    ensures !IsRelevantIntended(["w", "src", "test", "a.js"], ["w"], Config([".js"], [], ["test"], [], []), search)
  {
    var cfg := Config([".js"], [], ["test"], [], []);
    assert EndsWith("a.js", ".js");
    var q: Path := ["w", "src", "test", "a.js"];
    assert "src"[0] != "test"[0];
    var dir: Path := ["w", "test"];
    assert q[..2][1] != dir[1];
    assert !(dir <= q);
    assert forall ed :: ed in cfg.excludeDirs ==> ed == "test";
    var path: Path := ["w", "src", "test", "a.js"];
    assert path[2] in cfg.excludeDirs;
    assert ["src", "test", "a.js"][1] in ["test"];
  }

  /** Below the root, the corrected relevance accepts exactly the files the
      initial scan loads by name and directory: same name rule, same pruning. */
  lemma IntendedRelevanceMatchesScan(root: Path, rel: Path, cfg: Config, search: Search)
    requires |rel| >= 1
    ensures IsRelevantIntended(root + rel, root, cfg, search)
      <==> ShouldInclude(Basename(rel), cfg, search) && !Pruned(rel, cfg.excludeDirs)
  {
    var path := root + rel;
    assert path[|root|..] == rel;
    assert root <= path;
  }
}
