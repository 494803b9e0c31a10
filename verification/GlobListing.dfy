/** When a listing that is not full has every matching file: path texts against paths. */
module GlobListing {
  import opened Base
  import opened GlobPattern
  import opened GlobWalk

  // ------------------------------------------------------- path texts and paths

  predicate PlainName(name: string) {
    '/' !in name && '\\' !in name
  }

  ghost predicate PlainPath(path: Path) {
    path != [] && forall k :: 0 <= k < |path| ==> PlainName(path[k])
  }

  lemma {:induction false} SlashedPlain(name: string)
    requires PlainName(name)
    ensures Slashed(name) == name
  {
    if name != [] {
      SlashedPlain(name[1..]);
      assert name == [name[0]] + name[1..];
    }
  }

  lemma {:induction false} FirstSlash(a: string, x: string)
    requires '/' !in a
    ensures IndexOf(a + "/" + x, '/') == Some(|a|)
  {
    var whole := a + "/" + x;
    if a == [] {
      assert whole[0] == '/';
    } else {
      FirstSlash(a[1..], x);
      assert whole[1..] == a[1..] + "/" + x;
    }
  }

  lemma SameFirstComponent(a: string, x: string, b: string, y: string)
    requires '/' !in a && '/' !in b && a + "/" + x == b + "/" + y
    ensures a == b && x == y
  {
    var whole := a + "/" + x;
    FirstSlash(a, x);
    FirstSlash(b, y);
    assert a == whole[..|a|] == b;
    assert x == whole[|a| + 1..] == y;
  }

  /** The path text of plain names holds a slash exactly when there is a directory. */
  lemma SlashIffDeep(path: Path)
    requires PlainPath(path)
    ensures '/' in Rendered(path) <==> |path| > 1
  {
    SlashedPlain(path[0]);
    if |path| > 1 {
      assert Rendered(path)[|path[0]|] == '/';
    }
  }

  /** Files whose names hold no backslash are told apart by their path texts. */
  lemma {:induction false} RenderedInjective(p: Path, q: Path)
    requires PlainPath(p) && PlainPath(q) && Rendered(p) == Rendered(q)
    ensures p == q
    decreases |p|
  {
    SlashedPlain(p[0]);
    SlashedPlain(q[0]);
    SlashIffDeep(p);
    SlashIffDeep(q);
    if |p| > 1 {
      SameFirstComponent(p[0], Rendered(p[1..]), q[0], Rendered(q[1..]));
      RenderedInjective(p[1..], q[1..]);
    }
  }

  // ---------------------------------------------------------------- whole trees

  /** No directory holds a name twice, as in any file system. */
  ghost predicate NamesDistinct(node: Node) {
    node.Directory? ==>
      && (forall i, j :: 0 <= i < j < |node.entries| ==> node.entries[i].name != node.entries[j].name)
      && (forall i :: 0 <= i < |node.entries| ==> NamesDistinct(node.entries[i].node))
  }

  /** No name holds a slash or a backslash. */
  ghost predicate NamesPlain(node: Node) {
    node.Directory? ==>
      forall i :: 0 <= i < |node.entries| ==> PlainName(node.entries[i].name) && NamesPlain(node.entries[i].node)
  }

  lemma {:induction false} PathsPlain(root: Node, path: Path, file: Node)
    requires root.Directory? && NamesPlain(root) && FileAt(root.entries, path, file)
    ensures PlainPath(path)
    decreases |path|
  {
    var k :| 0 <= k < |root.entries| && FileIn(root.entries[k], path, file);
    if |path| > 1 {
      PathsPlain(root.entries[k].node, path[1..], file);
      forall i | 0 <= i < |path| ensures PlainName(path[i]) {
        assert i > 0 ==> path[i] == path[1..][i - 1];
      }
    }
  }

  /** A path leads to one file. */
  lemma {:induction false} FileUnique(root: Node, path: Path, f: Node, g: Node)
    requires root.Directory? && NamesDistinct(root) && FileAt(root.entries, path, f) && FileAt(root.entries, path, g)
    ensures f == g
    decreases |path|
  {
    var i :| 0 <= i < |root.entries| && FileIn(root.entries[i], path, f);
    var j :| 0 <= j < |root.entries| && FileIn(root.entries[j], path, g);
    assert i == j;
    if |path| > 1 {
      FileUnique(root.entries[i].node, path[1..], f, g);
    }
  }

  lemma {:induction false} FileIsFile(entries: seq<Entry>, path: Path, file: Node)
    requires FileAt(entries, path, file)
    ensures file.File?
    decreases |path|
  {
    var k :| 0 <= k < |entries| && FileIn(entries[k], path, file);
    if |path| > 1 {
      FileIsFile(entries[k].node.entries, path[1..], file);
    }
  }

  // ------------------------------------------------------------ matching files

  ghost predicate Matching(root: Node, raws: seq<string>, path: Path, file: Node) {
    root.Directory? && FileAt(root.entries, path, file) && PathDenoted(raws, path)
  }

  ghost predicate EntryFor(listed: seq<Listed>, path: Path, file: Node) {
    file.File? && Listed(Rendered(path), file.size, file.modified) in listed
  }

  /** Every matching file is in the listing with its own size and time. */
  ghost predicate EveryFileListed(root: Node, raws: seq<string>, listed: seq<Listed>) {
    forall path, file :: Matching(root, raws, path, file) ==> EntryFor(listed, path, file)
  }

  ghost predicate LookAlike(f: Node, g: Node) {
    f.File? && g.File? && f.size == g.size && f.modified == g.modified
  }

  /** Matching files with one path text also agree in size and time. */
  ghost predicate Unambiguous(root: Node, raws: seq<string>) {
    forall p, f, q, g ::
      Matching(root, raws, p, f) && Matching(root, raws, q, g) && Rendered(p) == Rendered(q) ==> LookAlike(f, g)
  }

  lemma ListedWhenUnambiguous(root: Node, raws: seq<string>, maximum: nat, listed: seq<Listed>, path: Path, file: Node)
    requires root.Directory? && Listing(root.entries, raws, maximum, listed) && |listed| < maximum
    requires Unambiguous(root, raws) && Matching(root, raws, path, file)
    ensures EntryFor(listed, path, file)
  {
    assert HasPath(listed, Rendered(path));
    var k :| 0 <= k < |listed| && listed[k].path == Rendered(path);
    assert ListedFile(root.entries, raws, listed[k]);
    var q, g :| FileAt(root.entries, q, g) && PathDenoted(raws, q)
                && g.File? && listed[k] == Listed(Rendered(q), g.size, g.modified);
    assert Matching(root, raws, q, g);
    assert LookAlike(file, g);
  }

  lemma SameTextSameEntry(listed: seq<Listed>, p: Path, f: Node, q: Path, g: Node)
    requires Distinct(listed) && EntryFor(listed, p, f) && EntryFor(listed, q, g) && Rendered(p) == Rendered(q)
    ensures LookAlike(f, g)
  {
    var i :| 0 <= i < |listed| && listed[i] == Listed(Rendered(p), f.size, f.modified);
    var j :| 0 <= j < |listed| && listed[j] == Listed(Rendered(q), g.size, g.modified);
    assert i == j;
  }

  /** A listing that is not full has every matching file exactly when no two matching
      files share a path text and differ in size or time. */
  lemma EveryFileListedExactly(root: Node, raws: seq<string>, maximum: nat, listed: seq<Listed>)
    requires root.Directory? && Listing(root.entries, raws, maximum, listed) && |listed| < maximum
    ensures EveryFileListed(root, raws, listed) <==> Unambiguous(root, raws)
  {
    if Unambiguous(root, raws) {
      forall path, file | Matching(root, raws, path, file) ensures EntryFor(listed, path, file) {
        ListedWhenUnambiguous(root, raws, maximum, listed, path, file);
      }
    }
    if EveryFileListed(root, raws, listed) {
      forall p, f, q, g | Matching(root, raws, p, f) && Matching(root, raws, q, g) && Rendered(p) == Rendered(q)
        ensures LookAlike(f, g)
      {
        SameTextSameEntry(listed, p, f, q, g);
      }
    }
  }

  /** An entry that stands for one matching path and no other. */
  ghost predicate StandsFor(root: Node, raws: seq<string>, listed: seq<Listed>, k: nat, path: Path) {
    && k < |listed| && listed[k].path == Rendered(path)
    && forall q, g :: Matching(root, raws, q, g) && Rendered(q) == listed[k].path ==> q == path
  }

  ghost predicate TextsApart(root: Node, raws: seq<string>) {
    forall p, f, q, g :: Matching(root, raws, p, f) && Matching(root, raws, q, g) && Rendered(p) == Rendered(q) ==> p == q
  }

  ghost predicate HasOwnEntry(root: Node, raws: seq<string>, listed: seq<Listed>, path: Path) {
    exists k :: StandsFor(root, raws, listed, k, path)
  }

  /** Each matching file has an entry of its own exactly when different matching paths
      have different texts. */
  lemma OwnEntriesExactly(root: Node, raws: seq<string>, maximum: nat, listed: seq<Listed>)
    requires root.Directory? && Listing(root.entries, raws, maximum, listed) && |listed| < maximum
    ensures (forall path, file :: Matching(root, raws, path, file) ==> HasOwnEntry(root, raws, listed, path))
            <==> TextsApart(root, raws)
  {
    if TextsApart(root, raws) {
      forall path, file | Matching(root, raws, path, file) ensures HasOwnEntry(root, raws, listed, path) {
        assert HasPath(listed, Rendered(path));
        var k :| 0 <= k < |listed| && listed[k].path == Rendered(path);
        assert StandsFor(root, raws, listed, k, path);
      }
    }
    if forall path, file :: Matching(root, raws, path, file) ==> HasOwnEntry(root, raws, listed, path) {
      forall p, f, q, g | Matching(root, raws, p, f) && Matching(root, raws, q, g) && Rendered(p) == Rendered(q)
        ensures p == q
      {
        var k :| StandsFor(root, raws, listed, k, p);
      }
    }
  }

  /** In a tree without backslashes in names nothing is ever missing: a listing that is
      not full has every matching file, each under its own entry. */
  lemma PlainTreesListed(root: Node, raws: seq<string>, maximum: nat, listed: seq<Listed>)
    requires root.Directory? && NamesDistinct(root) && NamesPlain(root)
    requires Listing(root.entries, raws, maximum, listed) && |listed| < maximum
    ensures EveryFileListed(root, raws, listed)
    ensures forall path, file :: Matching(root, raws, path, file) ==> HasOwnEntry(root, raws, listed, path)
  {
    PlainTreesApart(root, raws);
    EveryFileListedExactly(root, raws, maximum, listed);
    OwnEntriesExactly(root, raws, maximum, listed);
  }

  lemma PlainTreesApart(root: Node, raws: seq<string>)
    requires root.Directory? && NamesDistinct(root) && NamesPlain(root)
    ensures TextsApart(root, raws) && Unambiguous(root, raws)
  {
    forall p, f, q, g | Matching(root, raws, p, f) && Matching(root, raws, q, g) && Rendered(p) == Rendered(q)
      ensures p == q && LookAlike(f, g)
    {
      PathsPlain(root, p, f);
      PathsPlain(root, q, g);
      RenderedInjective(p, q);
      FileUnique(root, p, f, g);
      FileIsFile(root.entries, p, f);
    }
  }

  // ------------------------------------------------------------------ a tree that fails

  /** The file `a\\b` in the root and the file `b` in the directory `a`. */
  const COLLIDING := Directory([Entry("a\\b", File(1, 0)), Entry("a", Directory([Entry("b", File(2, 0))]))])

  lemma BackslashCollides()
    ensures Rendered(["a\\b"]) == Rendered(["a", "b"])
  {
    assert Slashed("a\\b") == ['a'] + Slashed("\\b");
    assert Slashed("\\b") == ['/'] + Slashed("b");
    assert ["a", "b"][1..] == ["b"];
    assert Slashed("b") == ['b'] + Slashed("");
    assert Slashed("a") == ['a'] + Slashed("");
  }

  /** Every listing of that tree under `**` that is not full has lost one of the two files. */
  lemma CollidingTreeLosesFile(maximum: nat, listed: seq<Listed>)
    requires Listing(COLLIDING.entries, [RECURSIVE], maximum, listed) && |listed| < maximum
    ensures Matching(COLLIDING, [RECURSIVE], ["a\\b"], File(1, 0)) && Matching(COLLIDING, [RECURSIVE], ["a", "b"], File(2, 0))
    ensures !(EntryFor(listed, ["a\\b"], File(1, 0)) && EntryFor(listed, ["a", "b"], File(2, 0)))
  {
    CollidingFiles();
    BackslashCollides();
    if EntryFor(listed, ["a\\b"], File(1, 0)) && EntryFor(listed, ["a", "b"], File(2, 0)) {
      SameTextSameEntry(listed, ["a\\b"], File(1, 0), ["a", "b"], File(2, 0));
    }
  }

  lemma CollidingFiles()
    ensures FileAt(COLLIDING.entries, ["a\\b"], File(1, 0)) && FileAt(COLLIDING.entries, ["a", "b"], File(2, 0))
  {
    var inner := COLLIDING.entries[1].node.entries;
    assert FileIn(COLLIDING.entries[0], ["a\\b"], File(1, 0));
    assert ["a", "b"][1..] == ["b"];
    assert FileIn(inner[0], ["b"], File(2, 0));
    assert FileAt(inner, ["b"], File(2, 0));
    assert FileIn(COLLIDING.entries[1], ["a", "b"], File(2, 0));
  }

  /** The walk does answer such a listing: one entry for the two files. */
  lemma CollidingListing()
    ensures Listing(COLLIDING.entries, [RECURSIVE], 2, [Listed(Rendered(["a", "b"]), 1, 0)])
  {
    CollidingFiles();
    BackslashCollides();
    var only := Listed(Rendered(["a", "b"]), 1, 0);
    assert ListedFile(COLLIDING.entries, [RECURSIVE], only) by {
      assert FileAt(COLLIDING.entries, ["a\\b"], File(1, 0)) && PathDenoted([RECURSIVE], ["a\\b"]);
    }
    forall path, file | FileAt(COLLIDING.entries, path, file) ensures Rendered(path) == only.path {
      OnlyTwoPaths(path, file);
    }
    assert [only][0].path == only.path;
  }

  lemma OnlyTwoPaths(path: Path, file: Node)
    requires FileAt(COLLIDING.entries, path, file)
    ensures path == ["a\\b"] || path == ["a", "b"]
  {
    var k :| 0 <= k < |COLLIDING.entries| && FileIn(COLLIDING.entries[k], path, file);
    if k == 1 {
      InnerPath(path[1..], file);
      assert path == [path[0]] + path[1..];
    } else {
      assert COLLIDING.entries[k].node.File?;
    }
  }

  lemma InnerPath(path: Path, file: Node)
    requires FileAt([Entry("b", File(2, 0))], path, file)
    ensures path == ["b"]
  {
    var inner := [Entry("b", File(2, 0))];
    var m :| 0 <= m < |inner| && FileIn(inner[m], path, file);
  }
}
