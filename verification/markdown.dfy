/** The document `SRC.py` writes: `generate_markdown_output` over the sorted
    cache, and the placeholder step of `update_code_base` for a missing tree
    listing. Contents are copied verbatim; fences inside a file are not escaped. */
module Markdown {
  import opened Strings
  import opened Sorted
  import opened RepositoryCache

  const TreeHeader: string := "========== TREE OUTPUT ==========\n"
  const CodeHeader: string := "\n\n========== CODE OUTPUT ==========\n\n"
  const TreePlaceholder: string := "Could not generate tree structure."

  /** One file's marker line and fenced block. */
  function FileBlock(rel: string, content: string): string
  {
    "----- FILE: " + rel + " -----\n" + "```\n" + content + "\n```\n\n"
  }

  /** The `code_output` accumulated over the given keys, in their order. */
  function CodeOutput(keys: seq<string>, c: Cache): string
  {
    if keys == [] then ""
    else FileBlock(keys[0], GetFileContent(c, keys[0])) + CodeOutput(keys[1..], c)
  }

  /** The document layout: tree section, then code section. */
  function Document(treeOutput: string, code: string): string
  {
    TreeHeader + treeOutput + CodeHeader + code
  }

  /** `generate_markdown_output(repo_cache, directory, tree_output)`: the two
      headers around the listing, then the code section; an empty cache has
      an empty code section. */
  function GenerateMarkdown(c: Cache, treeOutput: string): (r: string)
    ensures TreeHeader + treeOutput + CodeHeader <= r
    ensures c == map[] ==> r == TreeHeader + treeOutput + CodeHeader
  {
    Document(treeOutput, CodeOutput(GetAllFilesSorted(c), c))
  }

  /** `if not tree_output: tree_output = "Could not generate tree structure."` */
  function EffectiveTree(treeOutput: string): (r: string)
    ensures r != ""
    ensures treeOutput == "" ==> r == "Could not generate tree structure."
    ensures treeOutput != "" ==> r == treeOutput
  {
    if treeOutput == "" then TreePlaceholder else treeOutput
  }

  /** The document `update_code_base` hands to the writer, given the output
      of the external `tree` command (empty when it failed). */
  function UpdateCodeBaseDocument(c: Cache, treeOutput: string): (r: string)
    ensures TreeHeader + EffectiveTree(treeOutput) + CodeHeader <= r
    ensures treeOutput == "" ==> TreeHeader + "Could not generate tree structure." + CodeHeader <= r
  {
    GenerateMarkdown(c, EffectiveTree(treeOutput))
  }

  /** Every cached file is shown: its block, with its current content,
      appears in the document at some position `i`. */
  lemma CachedFileShown(c: Cache, tree: string, k: string) returns (i: nat)
    requires k in c
    ensures i + |FileBlock(k, c[k])| <= |GenerateMarkdown(c, tree)|
    ensures GenerateMarkdown(c, tree)[i..i + |FileBlock(k, c[k])|] == FileBlock(k, c[k])
  {
    var before, after := BlockAmongOthers(c, k);
    var x, b, y := CodeOutput(before, c), FileBlock(k, c[k]), CodeOutput(after, c);
    var h := TreeHeader + tree + CodeHeader;
    assert GenerateMarkdown(c, tree) == h + (x + b + y);
    InnerSlice(h, x, b, y);
    i := |h| + |x|;
  }

  /** The code section is the blocks before `k`, then `k`'s own, then the rest. */
  lemma BlockAmongOthers(c: Cache, k: string) returns (before: seq<string>, after: seq<string>)
    requires k in c
    ensures CodeOutput(GetAllFilesSorted(c), c) == CodeOutput(before, c) + FileBlock(k, c[k]) + CodeOutput(after, c)
  {
    var ks := GetAllFilesSorted(c);
    var j :| 0 <= j < |ks| && ks[j] == k;
    before, after := ks[..j], ks[j + 1..];
    SplitAt(ks, j);
    CodeOutputAround(before, k, after, c);
  }

  /** One key's block sits between the blocks of the keys around it. */
  lemma CodeOutputAround(before: seq<string>, k: string, after: seq<string>, c: Cache)
    ensures CodeOutput(before + [k] + after, c)
      == CodeOutput(before, c) + FileBlock(k, GetFileContent(c, k)) + CodeOutput(after, c)
  {
    CodeOutputConcat(before + [k], after, c);
    CodeOutputConcat(before, [k], c);
    assert CodeOutput([k], c) == FileBlock(k, GetFileContent(c, k)) + "";
  }

  lemma {:induction false} CodeOutputConcat(a: seq<string>, b: seq<string>, c: Cache)
    ensures CodeOutput(a + b, c) == CodeOutput(a, c) + CodeOutput(b, c)
  {
    if a != [] {
      assert (a + b)[1..] == a[1..] + b;
      CodeOutputConcat(a[1..], b, c);
    } else {
      assert a + b == b;
    }
  }

  lemma {:induction false} CodeOutputFrame(keys: seq<string>, c1: Cache, c2: Cache)
    requires forall k :: k in keys ==> GetFileContent(c1, k) == GetFileContent(c2, k)
    ensures CodeOutput(keys, c1) == CodeOutput(keys, c2)
  {
    if keys != [] {
      CodeOutputFrame(keys[1..], c1, c2);
    }
  }

  /** Storing a new file changes the document by exactly one block: its own,
      between the blocks of the smaller and of the larger paths, which are
      left as they were. */
  lemma RenderAfterNewFile(c: Cache, k: string, v: string, tree: string) returns (below: seq<string>, above: seq<string>)
    requires k !in c
    ensures GetAllFilesSorted(c) == below + above
    ensures forall x :: x in below ==> Less(x, k)
    ensures forall x :: x in above ==> Less(k, x)
    ensures GenerateMarkdown(c, tree) == Document(tree, CodeOutput(below, c) + CodeOutput(above, c))
    ensures GenerateMarkdown(c[k := v], tree)
      == Document(tree, CodeOutput(below, c) + FileBlock(k, v) + CodeOutput(above, c))
  {
    below, above := NewKeyPosition(c, k, v);
    RenderSplit(c, k, v, tree, below, above);
  }

  /** Where a new key lands in the sorted listing. */
  lemma NewKeyPosition(c: Cache, k: string, v: string) returns (below: seq<string>, above: seq<string>)
    requires k !in c
    ensures GetAllFilesSorted(c) == below + above
    ensures GetAllFilesSorted(c[k := v]) == below + [k] + above
    ensures forall x :: x in below ==> Less(x, k)
    ensures forall x :: x in above ==> Less(k, x)
  {
    var ks := GetAllFilesSorted(c);
    var i := NewFileKeys(c, k, v);
    below, above := ks[..i], ks[i..];
    assert ks == below + above;
    SplitSides(ks, i, k);
  }

  /** The two documents, once the listings before and after are known. */
  lemma RenderSplit(c: Cache, k: string, v: string, tree: string, below: seq<string>, above: seq<string>)
    requires k !in c
    requires GetAllFilesSorted(c) == below + above
    requires GetAllFilesSorted(c[k := v]) == below + [k] + above
    requires forall x :: x in below ==> Less(x, k)
    requires forall x :: x in above ==> Less(k, x)
    ensures GenerateMarkdown(c, tree) == Document(tree, CodeOutput(below, c) + CodeOutput(above, c))
    ensures GenerateMarkdown(c[k := v], tree)
      == Document(tree, CodeOutput(below, c) + FileBlock(k, v) + CodeOutput(above, c))
  {
    CodeOutputConcat(below, above, c);
    DocumentOf(c, below + above, tree);
    var newCode := CodeOutputInsert(below, above, k, v, c);
    DocumentOf(c[k := v], below + [k] + above, tree);
  }

  lemma NewFileKeys(c: Cache, k: string, v: string) returns (i: nat)
    requires k !in c
    ensures i <= |GetAllFilesSorted(c)|
    ensures GetAllFilesSorted(c[k := v]) == GetAllFilesSorted(c)[..i] + [k] + GetAllFilesSorted(c)[i..]
    ensures forall j :: 0 <= j < i ==> Less(GetAllFilesSorted(c)[j], k)
    ensures forall j :: i <= j < |GetAllFilesSorted(c)| ==> Less(k, GetAllFilesSorted(c)[j])
  {
    i := SortedKeysInsert(c.Keys, k);
    assert c[k := v].Keys == c.Keys + {k};
  }

  lemma DocumentOf(c: Cache, ks: seq<string>, tree: string)
    requires GetAllFilesSorted(c) == ks
    ensures GenerateMarkdown(c, tree) == Document(tree, CodeOutput(ks, c))
  {
  }

  lemma SplitSides(ks: seq<string>, i: nat, k: string)
    requires i <= |ks|
    requires forall j :: 0 <= j < i ==> Less(ks[j], k)
    requires forall j :: i <= j < |ks| ==> Less(k, ks[j])
    ensures forall x :: x in ks[..i] ==> Less(x, k)
    ensures forall x :: x in ks[i..] ==> Less(k, x)
  {
    forall x | x in ks[..i]
      ensures Less(x, k)
    {
      var j :| 0 <= j < i && ks[..i][j] == x;
    }
    forall x | x in ks[i..]
      ensures Less(k, x)
    {
      var j :| 0 <= j < |ks| - i && ks[i..][j] == x;
      assert ks[i + j] == x;
    }
  }

  /** The code section after inserting key `k` with content `v`, when `k` is
      strictly between the keys below and the keys above it. */
  lemma CodeOutputInsert(below: seq<string>, above: seq<string>, k: string, v: string, c: Cache) returns (code: string)
    requires k !in c
    requires forall x :: x in below ==> Less(x, k)
    requires forall x :: x in above ==> Less(k, x)
    ensures code == CodeOutput(below + [k] + above, c[k := v])
    ensures code == CodeOutput(below, c) + FileBlock(k, v) + CodeOutput(above, c)
  {
    var c' := c[k := v];
    LessIrreflexive(k);
    forall x | x in below || x in above
      ensures GetFileContent(c, x) == GetFileContent(c', x)
    {
      assert x != k;
    }
    CodeOutputFrame(below, c, c');
    CodeOutputFrame(above, c, c');
    CodeOutputConcat(below + [k], above, c');
    CodeOutputConcat(below, [k], c');
    var one: seq<string> := [k];
    assert one[1..] == [];
    assert CodeOutput(one, c') == FileBlock(k, v);
    code := CodeOutput(below + [k] + above, c');
  }

  /** The two-file example: blocks for `a.js` then `b/c.ts`, in the exact
      marker and fence format, after the placeholder for a failed tree listing. */
  lemma RenderTwoFiles()
    ensures UpdateCodeBaseDocument(map["a.js" := "x", "b/c.ts" := "y"], "")
      == "========== TREE OUTPUT ==========\n" + "Could not generate tree structure."
       + "\n\n========== CODE OUTPUT ==========\n\n"
       + "----- FILE: a.js -----\n```\nx\n```\n\n"
       + "----- FILE: b/c.ts -----\n```\ny\n```\n\n"
  {
    var c := map["a.js" := "x", "b/c.ts" := "y"];
    assert c.Keys == {"a.js", "b/c.ts"};
    assert Less("a.js", "b/c.ts");
    TwoKeysSorted(c, "a.js", "b/c.ts");
    var code := TwoBlocks(c, "a.js", "x", "b/c.ts", "y");
    DocumentOf(c, ["a.js", "b/c.ts"], TreePlaceholder);
    TwoFilesText();
  }

  lemma TwoFilesText()
    ensures Document(TreePlaceholder, FileBlock("a.js", "x") + FileBlock("b/c.ts", "y"))
      == "========== TREE OUTPUT ==========\n" + "Could not generate tree structure."
       + "\n\n========== CODE OUTPUT ==========\n\n"
       + "----- FILE: a.js -----\n```\nx\n```\n\n"
       + "----- FILE: b/c.ts -----\n```\ny\n```\n\n"
  {
    assert FileBlock("a.js", "x") == "----- FILE: a.js -----\n```\nx\n```\n\n";
    assert FileBlock("b/c.ts", "y") == "----- FILE: b/c.ts -----\n```\ny\n```\n\n";
  }

  lemma TwoKeysSorted(c: Cache, a: string, b: string)
    requires c.Keys == {a, b} && Less(a, b)
    ensures GetAllFilesSorted(c) == [a, b]
  {
    AscendingUnique([a, b], SortedKeys(c.Keys));
  }

  lemma TwoBlocks(c: Cache, a: string, x: string, b: string, y: string) returns (code: string)
    requires a in c && c[a] == x && b in c && c[b] == y
    ensures code == CodeOutput([a, b], c)
    ensures code == FileBlock(a, x) + FileBlock(b, y)
  {
    var ks: seq<string> := [a, b];
    var tail: seq<string> := [b];
    assert ks[1..] == tail;
    assert tail[1..] == [];
    assert CodeOutput(tail, c) == FileBlock(b, y);
    code := CodeOutput(ks, c);
  }

  /** A content that embeds a closing fence and the marker line of another
      path renders exactly like two separate files. */
  lemma EmbeddedMarkerReadsAsTwoFiles(a: string, x: string, b: string, y: string)
    ensures FileBlock(a, x + "\n```\n\n" + "----- FILE: " + b + " -----\n" + "```\n" + y)
      == FileBlock(a, x) + FileBlock(b, y)
  {
  }

  /** Because fences are not escaped, different caches can give the same
      document: one file whose content embeds a fence and a marker reads the
      same as two files. */
  lemma FencesAreNotEscaped(tree: string)
    ensures var one := map["a" := "x" + "\n```\n\n" + "----- FILE: " + "b" + " -----\n" + "```\n" + "y"];
            var two := map["a" := "x", "b" := "y"];
            one != two && GenerateMarkdown(one, tree) == GenerateMarkdown(two, tree)
  {
    var content := "x" + "\n```\n\n" + "----- FILE: " + "b" + " -----\n" + "```\n" + "y";
    var one := map["a" := content];
    var two := map["a" := "x", "b" := "y"];
    assert "b" !in one;
    assert one.Keys == {"a"};
    var k1: seq<string> := ["a"];
    AscendingUnique(k1, SortedKeys(one.Keys));
    assert k1[1..] == [];
    assert CodeOutput(k1, one) == FileBlock("a", content);
    assert "a" != "b";
    assert two.Keys == {"a", "b"};
    assert Less("a", "b");
    TwoKeysSorted(two, "a", "b");
    var code := TwoBlocks(two, "a", "x", "b", "y");
    DocumentOf(one, k1, tree);
    DocumentOf(two, ["a", "b"], tree);
    EmbeddedMarkerReadsAsTwoFiles("a", "x", "b", "y");
  }
}
