/** Walking a directory tree for the files a glob pattern matches
    (`list_v1` and `collect_glob`). */
module GlobWalk {
  import opened Base
  import opened GlobPattern

  const MAX_LIST_ENTRIES: nat := 1000
  const MAX_LIST_SCANNED_ENTRIES: nat := 100_000

  /** Symbolic links and special files are neither files nor directories here. */
  datatype Node = File(size: nat, modified: nat) | Directory(entries: seq<Entry>) | Other

  datatype Entry = Entry(name: string, node: Node)

  type Path = seq<string>

  /** One listed file (`FileListEntryV1`). */
  datatype Listed = Listed(path: string, size: nat, modified: nat)

  datatype ListError = InvalidList | ListScanLimit | Cancelled

  datatype Result<+T> = Ok(value: T) | Err(error: ListError)

  // ------------------------------------------------------------ the tree's files

  /** `file` is the file reached from a directory by following `path`. */
  ghost predicate FileAt(entries: seq<Entry>, path: Path, file: Node)
    decreases |path|, 1
  {
    exists k :: 0 <= k < |entries| && FileIn(entries[k], path, file)
  }

  ghost predicate FileIn(entry: Entry, path: Path, file: Node)
    decreases |path|, 0
  {
    && path != [] && entry.name == path[0]
    && if |path| == 1 then entry.node.File? && entry.node == file
       else entry.node.Directory? && FileAt(entry.node.entries, path[1..], file)
  }

  function Slashed(name: string): string {
    if name == [] then [] else [if name[0] == '\\' then '/' else name[0]] + Slashed(name[1..])
  }

  /** The reported path text: components joined with `/`, backslashes replaced. */
  function Rendered(path: Path): string {
    if path == [] then []
    else if |path| == 1 then Slashed(path[0])
    else Slashed(path[0]) + "/" + Rendered(path[1..])
  }

  // -------------------------------------------------------- matching whole paths

  /** Component-wise matching by compiled segments. A recursive segment stands for
      zero or more directories; at the end of a pattern it takes everything below. */
  ghost predicate PathMatches(segments: seq<Segment>, path: Path)
    decreases |segments|
  {
    if segments == [] then path == []
    else if segments[0].recursive then
      if |segments| == 1 then path != []
      else exists k | 0 <= k <= |path| :: PathMatches(segments[1..], path[k..])
    else path != [] && segments[0].Matches(path[0]) && PathMatches(segments[1..], path[1..])
  }

  /** The same, read off the pattern text. */
  ghost predicate PathDenoted(raws: seq<string>, path: Path)
    decreases |raws|
  {
    if raws == [] then path == []
    else if raws[0] == RECURSIVE then
      if |raws| == 1 then path != []
      else exists k | 0 <= k <= |path| :: PathDenoted(raws[1..], path[k..])
    else path != [] && Denotes(raws[0], path[0]) && PathDenoted(raws[1..], path[1..])
  }

  lemma {:induction false} CompiledPathsMatch(segments: seq<Segment>, raws: seq<string>, path: Path)
    requires |segments| == |raws| && forall k :: 0 <= k < |raws| ==> Compiles(segments[k], raws[k])
    ensures PathMatches(segments, path) <==> PathDenoted(raws, path)
    decreases |raws|
  {
    if raws != [] {
      assert Compiles(segments[0], raws[0]);
      forall p: Path ensures PathMatches(segments[1..], p) <==> PathDenoted(raws[1..], p) {
        CompiledPathsMatch(segments[1..], raws[1..], p);
      }
    }
  }

  lemma {:induction false} NothingMatchesEmpty(segments: seq<Segment>)
    requires segments != []
    ensures !PathMatches(segments, [])
    decreases |segments|
  {
    if |segments| > 1 {
      NothingMatchesEmpty(segments[1..]);
      var none: Path := [];
      assert none[0..] == none;
    }
  }

  predicate SpansDirectories(segments: seq<Segment>) {
    |segments| > 1 && segments[0].recursive
  }

  /** A leading recursive segment takes no directory, or one and stays. */
  lemma RecursiveUnfolds(segments: seq<Segment>, path: Path)
    requires SpansDirectories(segments)
    ensures PathMatches(segments, path) <==>
            PathMatches(segments[1..], path) || (path != [] && PathMatches(segments, path[1..]))
  {
    assert path[0..] == path;
    if k :| 1 <= k <= |path| && PathMatches(segments[1..], path[k..]) {
      assert path[1..][k - 1..] == path[k..];
    }
    if path != [] && PathMatches(segments, path[1..]) {
      var k :| 0 <= k <= |path[1..]| && PathMatches(segments[1..], path[1..][k..]);
      assert path[1..][k..] == path[k + 1..];
    }
  }

  /** What the loop over one directory has to deliver, besides the zero-directory
      case of a leading recursive segment. */
  ghost predicate LoopMatches(segments: seq<Segment>, path: Path) {
    if SpansDirectories(segments) then path != [] && PathMatches(segments, path[1..])
    else PathMatches(segments, path)
  }

  /** The segments a matching child directory is walked with. */
  function ChildSegments(segments: seq<Segment>): seq<Segment>
    requires segments != []
  {
    if segments[0].recursive then segments else segments[1..]
  }

  predicate NameMatches(segments: seq<Segment>, name: string)
    requires segments != []
  {
    segments[0].recursive || segments[0].Matches(name)
  }

  /** A directory entry on a path: it must match, and the rest is up to the child. */
  lemma LoopMatchesBelow(segments: seq<Segment>, path: Path)
    requires segments != [] && |path| > 1
    ensures LoopMatches(segments, path) <==>
            NameMatches(segments, path[0]) && PathMatches(ChildSegments(segments), path[1..])
  {
  }

  /** A file entry on a path: it must match the last segment. */
  lemma LoopMatchesHere(segments: seq<Segment>, name: string)
    requires segments != []
    ensures LoopMatches(segments, [name]) <==> NameMatches(segments, name) && |segments| == 1
  {
    assert [name][1..] == [];
    if |segments| > 1 {
      NothingMatchesEmpty(segments);
      NothingMatchesEmpty(segments[1..]);
    } else {
      assert segments[1..] == [];
      assert PathMatches(segments[1..], [name][1..]);
    }
  }

  // ------------------------------------------------------------------- the walk

  /** A listed file is a file of the tree below `at` that the segments match. */
  ghost predicate Sound(entries: seq<Entry>, at: Path, segments: seq<Segment>, listed: Listed) {
    exists path, file ::
      && FileAt(entries, path, file) && PathMatches(segments, path)
      && file.File? && listed == Listed(Rendered(at + path), file.size, file.modified)
  }

  /** Every file of the tree below `at` that the segments match has been seen. */
  ghost predicate Complete(entries: seq<Entry>, at: Path, segments: seq<Segment>, seen: set<string>) {
    forall path, file :: FileAt(entries, path, file) && PathMatches(segments, path) ==> Rendered(at + path) in seen
  }

  /** The part of completeness one turn of the loop is responsible for. */
  ghost predicate LoopComplete(entry: Entry, at: Path, segments: seq<Segment>, seen: set<string>) {
    forall path, file :: FileIn(entry, path, file) && LoopMatches(segments, path) ==> Rendered(at + path) in seen
  }

  lemma SoundZero(entries: seq<Entry>, at: Path, segments: seq<Segment>, listed: Listed)
    requires SpansDirectories(segments) && Sound(entries, at, segments[1..], listed)
    ensures Sound(entries, at, segments, listed)
  {
    var path, file :| FileAt(entries, path, file) && PathMatches(segments[1..], path)
                      && file.File? && listed == Listed(Rendered(at + path), file.size, file.modified);
    RecursiveUnfolds(segments, path);
  }

  lemma LoopMatchesMatch(segments: seq<Segment>, path: Path)
    requires LoopMatches(segments, path)
    ensures PathMatches(segments, path)
  {
    if SpansDirectories(segments) {
      RecursiveUnfolds(segments, path);
    }
  }

  lemma FilePathNotEmpty(entries: seq<Entry>, path: Path, file: Node)
    requires FileAt(entries, path, file)
    ensures path != []
  {
    var k :| 0 <= k < |entries| && FileIn(entries[k], path, file);
  }

  lemma SoundChild(entries: seq<Entry>, k: nat, at: Path, segments: seq<Segment>, listed: Listed)
    requires k < |entries| && segments != [] && entries[k].node.Directory?
    requires NameMatches(segments, entries[k].name)
    requires Sound(entries[k].node.entries, at + [entries[k].name], ChildSegments(segments), listed)
    ensures Sound(entries, at, segments, listed)
  {
    var entry := entries[k];
    var below, file :| FileAt(entry.node.entries, below, file) && PathMatches(ChildSegments(segments), below)
                       && file.File? && listed == Listed(Rendered(at + [entry.name] + below), file.size, file.modified);
    var path := [entry.name] + below;
    assert path[1..] == below && at + path == at + [entry.name] + below;
    FilePathNotEmpty(entry.node.entries, below, file);
    assert FileIn(entry, path, file);
    LoopMatchesBelow(segments, path);
    LoopMatchesMatch(segments, path);
  }

  lemma SoundFile(entries: seq<Entry>, k: nat, at: Path, segments: seq<Segment>)
    requires k < |entries| && |segments| == 1 && entries[k].node.File?
    requires NameMatches(segments, entries[k].name)
    ensures var file := entries[k].node;
            Sound(entries, at, segments, Listed(Rendered(at + [entries[k].name]), file.size, file.modified))
  {
    var path := [entries[k].name];
    assert FileIn(entries[k], path, entries[k].node);
    LoopMatchesHere(segments, entries[k].name);
    LoopMatchesMatch(segments, path);
  }

  /** A turn of the loop over an entry that does not match, or leads nowhere, owes nothing. */
  lemma LoopCompleteSkip(entry: Entry, at: Path, segments: seq<Segment>, seen: set<string>)
    requires segments != []
    requires || !NameMatches(segments, entry.name) || entry.node.Other?
             || (entry.node.File? && |segments| != 1)
             || (entry.node.Directory? && !segments[0].recursive && |segments| == 1)
    ensures LoopComplete(entry, at, segments, seen)
  {
    forall path, file | FileIn(entry, path, file) ensures !LoopMatches(segments, path) {
      if |path| == 1 {
        assert path == [entry.name];
        LoopMatchesHere(segments, entry.name);
      } else {
        LoopMatchesBelow(segments, path);
      }
    }
  }

  lemma LoopCompleteChild(entry: Entry, at: Path, segments: seq<Segment>, seen: set<string>)
    requires segments != [] && entry.node.Directory?
    requires Complete(entry.node.entries, at + [entry.name], ChildSegments(segments), seen)
    ensures LoopComplete(entry, at, segments, seen)
  {
    forall path, file | FileIn(entry, path, file) && LoopMatches(segments, path) ensures Rendered(at + path) in seen {
      assert |path| > 1;
      LoopMatchesBelow(segments, path);
      assert at + path == at + [entry.name] + path[1..];
      assert FileAt(entry.node.entries, path[1..], file) && PathMatches(ChildSegments(segments), path[1..]);
    }
  }

  lemma LoopCompleteFile(entry: Entry, at: Path, segments: seq<Segment>, seen: set<string>)
    requires entry.node.File? && Rendered(at + [entry.name]) in seen
    ensures LoopComplete(entry, at, segments, seen)
  {
    forall path, file | FileIn(entry, path, file) ensures path == [entry.name] {
    }
  }

  /** The zero-directory case and the loop together cover everything. */
  lemma CompleteFromLoop(entries: seq<Entry>, at: Path, segments: seq<Segment>, seen: set<string>)
    requires forall k :: 0 <= k < |entries| ==> LoopComplete(entries[k], at, segments, seen)
    requires SpansDirectories(segments) ==> Complete(entries, at, segments[1..], seen)
    ensures Complete(entries, at, segments, seen)
  {
    forall path, file | FileAt(entries, path, file) && PathMatches(segments, path) ensures Rendered(at + path) in seen {
      var k :| 0 <= k < |entries| && FileIn(entries[k], path, file);
      if SpansDirectories(segments) {
        RecursiveUnfolds(segments, path);
      }
      assert LoopComplete(entries[k], at, segments, seen);
    }
  }

  // ---------------------------------------------------------------- its length

  /** A name the pattern's text lets through at one segment. */
  ghost predicate Takes(raws: seq<string>, index: nat, name: string)
    requires index < |raws|
  {
    raws[index] == RECURSIVE || Denotes(raws[index], name)
  }

  /** How many entries a walk to the very end visits. */
  ghost function Visits(raws: seq<string>, directory: Node, index: nat): nat
    requires directory.Directory? && index <= |raws|
    decreases directory, |raws| - index, |directory.entries| + 1
  {
    if index == |raws| then 0
    else (if raws[index] == RECURSIVE && index + 1 < |raws| then Visits(raws, directory, index + 1) else 0)
         + VisitsFrom(raws, directory, index, 0)
  }

  ghost function VisitsFrom(raws: seq<string>, directory: Node, index: nat, i: nat): nat
    requires directory.Directory? && index < |raws| && i <= |directory.entries|
    decreases directory, |raws| - index, |directory.entries| - i
  {
    if i == |directory.entries| then 0
    else VisitsAt(raws, directory, index, i) + VisitsFrom(raws, directory, index, i + 1)
  }

  ghost function VisitsAt(raws: seq<string>, directory: Node, index: nat, i: nat): nat
    requires directory.Directory? && index < |raws| && i < |directory.entries|
    decreases directory, 0
  {
    var entry := directory.entries[i];
    if !Takes(raws, index, entry.name) then 0
    else if entry.node.Directory? && raws[index] == RECURSIVE then 1 + Visits(raws, entry.node, index)
    else if entry.node.Directory? && index + 1 < |raws| then 1 + Visits(raws, entry.node, index + 1)
    else 1
  }

  /** One walk. Its cancellation token is set after some number of checks, or never. */
  class Walk {
    const segments: seq<Segment>
    const maximum: nat
    const cancelAfter: Option<nat>
    ghost const raws: seq<string>
    var entries: seq<Listed>
    var seen: set<string>
    var scanned: nat
    var checks: nat

    constructor (segments: seq<Segment>, maximum: nat, cancelAfter: Option<nat>, ghost raws: seq<string>)
      requires CompiledFrom(segments, raws)
      ensures this.segments == segments && this.maximum == maximum && this.cancelAfter == cancelAfter && this.raws == raws
      ensures entries == [] && scanned == 0 && Valid()
    {
      this.segments, this.maximum, this.cancelAfter, this.raws := segments, maximum, cancelAfter, raws;
      entries, seen, scanned, checks := [], {}, 0, 0;
    }

    /** No path is listed twice, and `seen` holds the listed paths. */
    ghost predicate Valid()
      reads this
    {
      && CompiledFrom(segments, raws)
      && (forall p :: p in seen <==> exists k :: 0 <= k < |entries| && entries[k].path == p)
      && forall j, k :: 0 <= j < k < |entries| ==> entries[j].path != entries[k].path
    }

    /** Why a walk ends early: the token was set, or too many entries were visited. */
    ghost predicate Excused(error: ListError)
      reads this
    {
      (error == Cancelled && cancelAfter.Some?) || (error == ListScanLimit && scanned >= MAX_LIST_SCANNED_ENTRIES)
    }

    method Add(listed: Listed)
      requires Valid() && listed.path !in seen
      modifies `entries, `seen
      ensures Valid() && entries == old(entries) + [listed] && seen == old(seen) + {listed.path}
    {
      seen := seen + {listed.path};
      entries := entries + [listed];
      assert entries[|entries| - 1] == listed;
      forall p ensures p in seen <==> exists k :: 0 <= k < |entries| && entries[k].path == p {
        if p in old(seen) {
          var k :| 0 <= k < |old(entries)| && old(entries)[k].path == p;
          assert entries[k].path == p;
        }
      }
    }

    /** `collect_glob`. The directory tree shrinks, or the remaining segments do. */
    method Collect(directory: Node, at: Path, index: nat) returns (r: Result<()>)
      requires directory.Directory? && index <= |segments| && Valid()
      modifies `entries, `seen, `scanned, `checks
      ensures Valid() && old(entries) <= entries && old(seen) <= seen
      ensures forall k :: |old(entries)| <= k < |entries| ==>
                Sound(directory.entries, at, segments[index..], entries[k])
      ensures r.Ok? && |entries| < maximum ==> Complete(directory.entries, at, segments[index..], seen)
      ensures r.Err? ==> Excused(r.error)
      ensures scanned <= old(scanned) + Visits(raws, directory, index)
      decreases directory, |segments| - index, 1
    {
      if |entries| >= maximum {
        return Ok(());
      }
      if cancelAfter.Some? && checks >= cancelAfter.value {
        return Err(Cancelled);
      }
      checks := checks + 1;
      var rest := segments[index..];
      if index == |segments| {
        assert forall path, file :: FileAt(directory.entries, path, file) ==> path != [];
        return Ok(());
      }
      var last := index + 1 == |segments|;
      var segment := segments[index];
      assert segment == rest[0] && segments[index + 1..] == rest[1..];
      if segment.recursive && !last {
        r := Collect(directory, at, index + 1);
        forall k | |old(entries)| <= k < |entries| ensures Sound(directory.entries, at, rest, entries[k]) {
          SoundZero(directory.entries, at, rest, entries[k]);
        }
        if r.Err? || |entries| >= maximum {
          return r;
        }
      }
      r := Scan(directory, at, index);
      if r.Ok? && |entries| < maximum {
        CompleteFromLoop(directory.entries, at, rest, seen);
      }
    }

    /** The loop of `collect_glob` over the entries of one directory. */
    method Scan(directory: Node, at: Path, index: nat) returns (r: Result<()>)
      requires directory.Directory? && index < |segments| && Valid()
      modifies `entries, `seen, `scanned, `checks
      ensures Valid() && old(entries) <= entries && old(seen) <= seen
      ensures forall k :: |old(entries)| <= k < |entries| ==>
                Sound(directory.entries, at, segments[index..], entries[k])
      ensures r.Ok? && |entries| < maximum ==>
                forall k :: 0 <= k < |directory.entries| ==> LoopComplete(directory.entries[k], at, segments[index..], seen)
      ensures r.Err? ==> Excused(r.error)
      ensures scanned <= old(scanned) + VisitsFrom(raws, directory, index, 0)
      decreases directory, |segments| - index, 0
    {
      var rest, segment := segments[index..], segments[index];
      assert Compiles(segment, raws[index]);
      for i := 0 to |directory.entries|
        invariant Valid() && old(entries) <= entries && old(seen) <= seen
        invariant forall k :: |old(entries)| <= k < |entries| ==> Sound(directory.entries, at, rest, entries[k])
        invariant |entries| < maximum ==> forall k :: 0 <= k < i ==> LoopComplete(directory.entries[k], at, rest, seen)
        invariant scanned + VisitsFrom(raws, directory, index, i) <= old(scanned) + VisitsFrom(raws, directory, index, 0)
      {
        if scanned >= MAX_LIST_SCANNED_ENTRIES {
          return Err(ListScanLimit);
        }
        var entry := directory.entries[i];
        if !(segment.recursive || segment.Matches(entry.name)) {
          LoopCompleteSkip(entry, at, rest, seen);
          continue;
        }
        scanned := scanned + 1;
        var full := Visit(directory, i, at, index);
        if full.Err? {
          return Err(full.error);
        }
        if full.value {
          return Ok(());
        }
      }
      return Ok(());
    }

    /** One matching entry of the loop in `collect_glob`; true when a file filled the list. */
    method Visit(directory: Node, i: nat, at: Path, index: nat) returns (full: Result<bool>)
      requires directory.Directory? && i < |directory.entries| && index < |segments| && Valid()
      requires NameMatches(segments[index..], directory.entries[i].name)
      modifies `entries, `seen, `scanned, `checks
      ensures Valid() && old(entries) <= entries && old(seen) <= seen
      ensures forall k :: |old(entries)| <= k < |entries| ==>
                Sound(directory.entries, at, segments[index..], entries[k])
      ensures full == Ok(true) ==> |entries| >= maximum
      ensures full.Err? ==> Excused(full.error)
      ensures scanned + 1 <= old(scanned) + VisitsAt(raws, directory, index, i)
      ensures full.Ok? && |entries| < maximum ==> LoopComplete(directory.entries[i], at, segments[index..], seen)
      decreases directory, 0
    {
      var rest := segments[index..];
      var last := index + 1 == |segments|;
      var entry := directory.entries[i];
      assert Compiles(segments[index], raws[index]);
      var relative := at + [entry.name];
      if entry.node.Directory? {
        if rest[0].recursive || !last {
          assert segments[index + 1..] == rest[1..];
          var r := Collect(entry.node, relative, if rest[0].recursive then index else index + 1);
          forall k | |old(entries)| <= k < |entries| ensures Sound(directory.entries, at, rest, entries[k]) {
            SoundChild(directory.entries, i, at, rest, entries[k]);
          }
          if r.Ok? && |entries| < maximum {
            LoopCompleteChild(entry, at, rest, seen);
          }
          return if r.Err? then Err(r.error) else Ok(false);
        }
        LoopCompleteSkip(entry, at, rest, seen);
        return Ok(false);
      }
      if !entry.node.File? || !last {
        LoopCompleteSkip(entry, at, rest, seen);
        return Ok(false);
      }
      var path := Rendered(relative);
      if path in seen {
        LoopCompleteFile(entry, at, rest, seen);
        return Ok(false);
      }
      SoundFile(directory.entries, i, at, rest);
      Add(Listed(path, entry.node.size, entry.node.modified));
      LoopCompleteFile(entry, at, rest, seen);
      return Ok(|entries| >= maximum);
    }
  }

  // ------------------------------------------------------------------ the listing

  /** Newest first, ties by path. */
  predicate InOrder(a: Listed, b: Listed) {
    a.modified > b.modified || (a.modified == b.modified && TextAtMost(a.path, b.path))
  }

  ghost predicate Ordered(listed: seq<Listed>) {
    forall k :: 0 < k < |listed| ==> InOrder(listed[k - 1], listed[k])
  }

  function Insert(item: Listed, sorted: seq<Listed>): (r: seq<Listed>)
    requires Ordered(sorted)
    ensures Ordered(r) && multiset(r) == multiset(sorted) + multiset{item} && |r| == |sorted| + 1
    ensures sorted != [] ==> r[0] in {item, sorted[0]}
  {
    if sorted == [] then [item]
    else if InOrder(item, sorted[0]) then [item] + sorted
    else
      TextTotal(item.path, sorted[0].path);
      assert sorted == [sorted[0]] + sorted[1..];
      [sorted[0]] + Insert(item, sorted[1..])
  }

  function Sort(listed: seq<Listed>): (r: seq<Listed>)
    ensures Ordered(r) && multiset(r) == multiset(listed) && |r| == |listed|
  {
    if listed == [] then []
    else
      assert listed == [listed[0]] + listed[1..];
      Insert(listed[0], Sort(listed[1..]))
  }

  ghost predicate Distinct(listed: seq<Listed>) {
    forall j, k :: 0 <= j < k < |listed| ==> listed[j].path != listed[k].path
  }

  lemma OnceInDistinct(listed: seq<Listed>, item: Listed)
    requires Distinct(listed)
    ensures multiset(listed)[item] <= 1
  {
    if item in listed {
      var k :| 0 <= k < |listed| && listed[k] == item;
      assert listed == listed[..k] + [item] + listed[k + 1..];
      assert item !in listed[..k] && item !in listed[k + 1..];
      assert multiset(listed) == multiset(listed[..k]) + multiset{item} + multiset(listed[k + 1..]);
    }
  }

  /** Reordering keeps paths distinct. */
  lemma PermutationDistinct(listed: seq<Listed>, sorted: seq<Listed>)
    requires Distinct(listed) && multiset(sorted) == multiset(listed)
    ensures Distinct(sorted)
  {
    forall j, k | 0 <= j < k < |sorted| ensures sorted[j].path != sorted[k].path {
      var a, b := sorted[j], sorted[k];
      assert a in multiset(listed) && b in multiset(listed);
      assert a in listed && b in listed;
      OnceInDistinct(listed, a);
      TwiceInSequence(sorted, j, k);
    }
  }

  lemma TwiceInSequence(listed: seq<Listed>, j: nat, k: nat)
    requires j < k < |listed|
    ensures listed[j] == listed[k] ==> multiset(listed)[listed[j]] >= 2
  {
    assert listed == listed[..k] + [listed[k]] + listed[k + 1..];
    assert multiset(listed) == multiset(listed[..k]) + multiset{listed[k]} + multiset(listed[k + 1..]);
    assert listed[..k][j] == listed[j];
  }

  /** The listed files against the pattern's declarative meaning. */
  ghost predicate Listing(entries: seq<Entry>, raws: seq<string>, maximum: nat, listed: seq<Listed>) {
    && |listed| <= maximum && Distinct(listed) && Ordered(listed)
    && (forall k :: 0 <= k < |listed| ==> ListedFile(entries, raws, listed[k]))
    && (|listed| < maximum ==> Covers(entries, raws, listed))
  }

  ghost predicate Covers(entries: seq<Entry>, raws: seq<string>, listed: seq<Listed>) {
    forall path, file :: FileAt(entries, path, file) && PathDenoted(raws, path) ==> HasPath(listed, Rendered(path))
  }

  ghost predicate HasPath(listed: seq<Listed>, text: string) {
    exists k :: 0 <= k < |listed| && listed[k].path == text
  }

  ghost predicate ListedFile(entries: seq<Entry>, raws: seq<string>, listed: Listed) {
    exists path, file ::
      && FileAt(entries, path, file) && PathDenoted(raws, path)
      && file.File? && listed == Listed(Rendered(path), file.size, file.modified)
  }

  predicate ValidRequest(pattern: string, maximum: nat) {
    && pattern != [] && Utf8Length(pattern) <= 4096 && '\0' !in pattern
    && 0 < maximum <= MAX_LIST_ENTRIES
  }

  lemma SoundIsListed(entries: seq<Entry>, segments: seq<Segment>, raws: seq<string>, listed: Listed)
    requires CompiledFrom(segments, raws)
    requires Sound(entries, [], segments, listed)
    ensures ListedFile(entries, raws, listed)
  {
    var path, file :| FileAt(entries, path, file) && PathMatches(segments, path)
                      && file.File? && listed == Listed(Rendered([] + path), file.size, file.modified);
    assert [] + path == path;
    CompiledPathsMatch(segments, raws, path);
  }

  lemma CompleteIsListed(entries: seq<Entry>, segments: seq<Segment>, raws: seq<string>, seen: set<string>,
                         path: Path, file: Node)
    requires CompiledFrom(segments, raws)
    requires Complete(entries, [], segments, seen) && FileAt(entries, path, file) && PathDenoted(raws, path)
    ensures Rendered(path) in seen
  {
    assert [] + path == path;
    CompiledPathsMatch(segments, raws, path);
  }

  ghost predicate CompiledFrom(segments: seq<Segment>, raws: seq<string>) {
    |segments| == |raws| && forall k :: 0 <= k < |raws| ==> Compiles(segments[k], raws[k])
  }

  /** Sorting a finished walk keeps it sound ... */
  lemma SortedSound(entries: seq<Entry>, segments: seq<Segment>, raws: seq<string>, found: seq<Listed>, item: Listed)
    requires CompiledFrom(segments, raws) && item in Sort(found)
    requires forall k :: 0 <= k < |found| ==> Sound(entries, [], segments, found[k])
    ensures ListedFile(entries, raws, item)
  {
    assert item in multiset(Sort(found));
    var j :| 0 <= j < |found| && found[j] == item;
    SoundIsListed(entries, segments, raws, item);
  }

  /** ... and complete. */
  lemma SortedComplete(entries: seq<Entry>, segments: seq<Segment>, raws: seq<string>, found: seq<Listed>,
                       seen: set<string>, path: Path, file: Node)
    requires CompiledFrom(segments, raws) && Complete(entries, [], segments, seen)
    requires forall p :: p in seen <==> exists k :: 0 <= k < |found| && found[k].path == p
    requires FileAt(entries, path, file) && PathDenoted(raws, path)
    ensures HasPath(Sort(found), Rendered(path))
  {
    CompleteIsListed(entries, segments, raws, seen, path, file);
    var j :| 0 <= j < |found| && found[j].path == Rendered(path);
    var sorted := Sort(found);
    assert found[j] in multiset(sorted);
    var k :| 0 <= k < |sorted| && sorted[k] == found[j];
  }

  /** What sorting and truncating a finished walk gives. */
  lemma WalkIsListing(entries: seq<Entry>, segments: seq<Segment>, raws: seq<string>, maximum: nat,
                      found: seq<Listed>, seen: set<string>)
    requires CompiledFrom(segments, raws)
    requires Distinct(found) && forall k :: 0 <= k < |found| ==> Sound(entries, [], segments, found[k])
    requires forall p :: p in seen <==> exists k :: 0 <= k < |found| && found[k].path == p
    requires |found| < maximum ==> Complete(entries, [], segments, seen)
    ensures Listing(entries, raws, maximum, if |found| > maximum then Sort(found)[..maximum] else Sort(found))
  {
    var sorted := Sort(found);
    PermutationDistinct(found, sorted);
    forall k | 0 <= k < |sorted| ensures ListedFile(entries, raws, sorted[k]) {
      SortedSound(entries, segments, raws, found, sorted[k]);
    }
    if |found| < maximum {
      forall path, file | FileAt(entries, path, file) && PathDenoted(raws, path)
        ensures HasPath(sorted, Rendered(path))
      {
        SortedComplete(entries, segments, raws, found, seen, path, file);
      }
    }
    TruncatedListing(entries, raws, maximum, sorted);
  }

  lemma TruncatedListing(entries: seq<Entry>, raws: seq<string>, maximum: nat, sorted: seq<Listed>)
    requires Distinct(sorted) && Ordered(sorted)
    requires forall k :: 0 <= k < |sorted| ==> ListedFile(entries, raws, sorted[k])
    requires |sorted| < maximum ==> Covers(entries, raws, sorted)
    ensures Listing(entries, raws, maximum, if |sorted| > maximum then sorted[..maximum] else sorted)
  {
  }

  /** `list_v1`: a request fails as invalid exactly on a bad bound or pattern. Any other
      succeeds unless it is cancelled or visits too many entries, and then the listing is
      sound, free of repeated paths, newest first, and complete unless full. */
  method List(root: Node, pattern: string, maximum: nat, cancelAfter: Option<nat>) returns (r: Result<seq<Listed>>)
    requires root.Directory?
    ensures r == Err(InvalidList) <==> !ValidRequest(pattern, maximum) || !Accepted(RawSegments(pattern))
    ensures r.Ok? ==> Listing(root.entries, RawSegments(pattern), maximum, r.value)
    ensures r == Err(Cancelled) ==> cancelAfter.Some?
    ensures r == Err(ListScanLimit) ==> Visits(RawSegments(pattern), root, 0) >= MAX_LIST_SCANNED_ENTRIES
  {
    if !ValidRequest(pattern, maximum) {
      return Err(InvalidList);
    }
    var compiled := GlobSegments(pattern);
    if compiled.None? {
      return Err(InvalidList);
    }
    var walk := new Walk(compiled.value, maximum, cancelAfter, RawSegments(pattern));
    var done := walk.Collect(root, [], 0);
    if done.Err? {
      return Err(done.error);
    }
    var listed := Sort(walk.entries);
    if |listed| > maximum {
      listed := listed[..maximum];
    }
    assert compiled.value[0..] == compiled.value;
    WalkIsListing(root.entries, compiled.value, RawSegments(pattern), maximum, walk.entries, walk.seen);
    return Ok(listed);
  }
}
