/** The paths of a snapshot: distinct throughout, submodules included. */
module SnapshotPaths {
  import opened Bytes
  import opened Sorting
  import opened ManifestModel
  import opened Repository
  import opened Snapshot

  ghost predicate TreesAreTrees(world: World) {
    forall p | p in world.trees :: IsTree(world.trees[p])
  }

  /** `path` extends `prefix` by at least one byte. */
  predicate IsUnder(prefix: Bytes, path: Bytes) {
    |prefix| < |path| && prefix <= path
  }

  ghost predicate AllUnder(prefix: Bytes, entries: seq<Entry>) {
    forall i | 0 <= i < |entries| :: IsUnder(prefix, entries[i].path)
  }

  /** The record an own entry comes from. */
  ghost predicate ComesFrom(prefix: Bytes, records: seq<Record>, path: Bytes) {
    exists i | 0 <= i < |records| :: IsFileRecord(records[i]) && path == prefix + records[i].path
  }

  predicate IsFileRecord(r: Record) { !IsTreeMode(r.mode) && r.mode != GITLINK_MODE }

  lemma {:induction false} OwnEntriesComeFrom(world: World, prefix: Bytes, records: seq<Record>)
    requires OwnEntries(world, prefix, records).Ok?
    ensures forall i | 0 <= i < |OwnEntries(world, prefix, records).value| ::
              ComesFrom(prefix, records, OwnEntries(world, prefix, records).value[i].path)
  {
    hide IsStampArtifact, ComesFrom;
    if records != [] {
      var rest := records[1..];
      OwnEntriesComeFrom(world, prefix, rest);
      forall path | ComesFrom(prefix, rest, path) ensures ComesFrom(prefix, records, path) {
        LaterRecord(prefix, records, path);
      }
      var r := records[0];
      if !IsSkipped(prefix, r) && r.mode != GITLINK_MODE { FirstRecord(prefix, records); }
    }
  }

  lemma LaterRecord(prefix: Bytes, records: seq<Record>, path: Bytes)
    requires records != [] && ComesFrom(prefix, records[1..], path)
    ensures ComesFrom(prefix, records, path)
  {
    var i :| 0 <= i < |records| - 1 && IsFileRecord(records[1..][i]) && path == prefix + records[1..][i].path;
    assert records[1..][i] == records[i + 1];
  }

  lemma FirstRecord(prefix: Bytes, records: seq<Record>)
    requires records != [] && IsFileRecord(records[0])
    ensures ComesFrom(prefix, records, prefix + records[0].path)
  {
  }

  lemma TailIsTree(records: seq<Record>)
    requires IsTree(records) && records != []
    ensures IsTree(records[1..])
  {
    var rest := records[1..];
    assert forall i | 0 <= i < |rest| :: rest[i] == records[i + 1];
  }

  lemma {:induction false} OwnPathsDiffer(world: World, prefix: Bytes, records: seq<Record>)
    requires OwnEntries(world, prefix, records).Ok? && IsTree(records)
    ensures DistinctPaths(OwnEntries(world, prefix, records).value)
    ensures AllUnder(prefix, OwnEntries(world, prefix, records).value)
  {
    hide IsStampArtifact, IsTree;
    if records != [] {
      var rest := records[1..];
      TailIsTree(records);
      OwnPathsDiffer(world, prefix, rest);
      var r := records[0];
      if !IsSkipped(prefix, r) && r.mode != GITLINK_MODE {
        var own, later := OwnEntries(world, prefix, records).value, OwnEntries(world, prefix, rest).value;
        OwnEntriesComeFrom(world, prefix, rest);
        assert IsFileRecord(r);
        assert own == [own[0]] + later && own[0].path == prefix + r.path;
        hide OwnEntries, IsFileRecord;
        FirstIsFile(records);
        forall i | 0 <= i < |later| ensures later[i].path != prefix + r.path {
          FirstDiffers(prefix, records, later[i].path);
        }
      }
    }
  }

  lemma FirstIsFile(records: seq<Record>)
    requires records != [] && IsTree(records) && IsFileRecord(records[0])
    ensures records[0].path != []
  {
  }

  lemma FirstDiffers(prefix: Bytes, records: seq<Record>, path: Bytes)
    requires records != [] && IsTree(records) && IsFileRecord(records[0]) && ComesFrom(prefix, records[1..], path)
    ensures path != prefix + records[0].path
  {
    var i :| 0 <= i < |records| - 1 && IsFileRecord(records[1..][i]) && path == prefix + records[1..][i].path;
    assert records[1..][i] == records[i + 1];
    DropPrefix(prefix, records[0].path);
    DropPrefix(prefix, records[i + 1].path);
  }

  lemma DropPrefix(prefix: Bytes, rest: Bytes)
    ensures (prefix + rest)[|prefix|..] == rest
  {
  }

  // ----- submodules -----

  /** Distinct directories of one tree: neither lies on the other's path. */
  ghost predicate ApartFrom(a: Bytes, b: Bytes) {
    !(a <= b) && !(b <= a)
  }

  ghost predicate PrefixesApart(trees: seq<PlacedTree>) {
    forall i, j | 0 <= i < j < |trees| :: ApartFrom(trees[i].pathPrefix, trees[j].pathPrefix)
  }

  /** The children of a tree stand at the paths of its gitlinks, in order. */
  lemma {:induction false} ResolvedAtLinks(world: World, parent: PlacedTree, modules: Option<Bytes>, links: seq<Record>)
    requires ResolveAll(world, parent, modules, links).Ok?
    ensures var children := ResolveAll(world, parent, modules, links).value;
            |children| == |links|
            && forall i | 0 <= i < |links| :: children[i].pathPrefix == parent.pathPrefix + links[i].path + "/"
  {
    hide ResolveGitlink;
    if links != [] { ResolvedAtLinks(world, parent, modules, links[1..]); }
  }

  /** Two files of one tree: different paths, neither below the other. */
  ghost predicate PathsApart(a: Bytes, b: Bytes) {
    a != b && !IsBelow(a, b) && !IsBelow(b, a)
  }

  ghost predicate AllApart(links: seq<Record>) {
    forall k, l | 0 <= k < l < |links| :: PathsApart(links[k].path, links[l].path)
  }

  lemma {:induction false} LinksApart(prefix: Bytes, records: seq<Record>)
    requires IsTree(records)
    ensures AllApart(Gitlinks(prefix, records))
  {
    hide IsTree, IsBelow, PathsApart, IsStampArtifact;
    if records != [] {
      TailIsTree(records);
      LinksApart(prefix, records[1..]);
      var rest := Gitlinks(prefix, records[1..]);
      if !IsSkipped(prefix, records[0]) && records[0].mode == GITLINK_MODE {
        forall l | 0 <= l < |rest| ensures PathsApart(records[0].path, rest[l].path) { FirstApart(records, rest[l]); }
        PrependApart(records[0], rest);
      }
    }
  }

  lemma PrependApart(first: Record, rest: seq<Record>)
    requires AllApart(rest) && forall l | 0 <= l < |rest| :: PathsApart(first.path, rest[l].path)
    ensures AllApart([first] + rest)
  {
    hide PathsApart;
  }

  lemma FirstApart(records: seq<Record>, other: Record)
    requires records != [] && IsTree(records) && !IsTreeMode(records[0].mode)
    requires other in records[1..] && !IsTreeMode(other.mode)
    ensures PathsApart(records[0].path, other.path)
  {
    var i :| 0 <= i < |records| - 1 && records[1..][i] == other;
    assert records[i + 1] == other;
  }

  lemma LinkPathsApart(prefix: Bytes, a: Bytes, b: Bytes)
    requires PathsApart(a, b)
    ensures ApartFrom(prefix + a + "/", prefix + b + "/")
  {
    if prefix + a + "/" <= prefix + b + "/" { PrefixMeansBelow(prefix, a, b); }
    if prefix + b + "/" <= prefix + a + "/" { PrefixMeansBelow(prefix, b, a); }
  }

  lemma PrefixMeansBelow(prefix: Bytes, a: Bytes, b: Bytes)
    requires prefix + a + "/" <= prefix + b + "/"
    ensures a == b || IsBelow(a, b)
  {
    var x, y, n := prefix + a + "/", prefix + b + "/", |prefix|;
    assert y[..|x|] == x;
    assert x[n..n + |a|] == a && y[n..n + |b|] == b;
    assert x[n..n + |a|] == y[n..n + |a|];
    if |a| < |b| {
      assert y[n..n + |b|][..|a|] == y[n..n + |a|];
      assert x[n + |a|] == '/' && y[n + |a|] == b[|a|];
    }
  }

  lemma ChildrenApart(world: World, parent: PlacedTree, records: seq<Record>)
    requires IsTree(records) && Children(world, parent, records).Ok?
    ensures PrefixesApart(Children(world, parent, records).value)
    ensures forall c | c in Children(world, parent, records).value :: AtGitlink(parent.pathPrefix, records, c)
  {
    var links := Gitlinks(parent.pathPrefix, records);
    var children := Children(world, parent, records).value;
    if links != [] {
      var modules := FindGitmodules(records);
      ResolvedAtLinks(world, parent, if modules.Some? then modules.value.blob else None, links);
      LinksApart(parent.pathPrefix, records);
      hide Children, Gitlinks, IsBelow, ApartFrom, PathsApart;
      assert !IsTreeMode(GITLINK_MODE);
      forall k, l | 0 <= k < l < |children| ensures ApartFrom(children[k].pathPrefix, children[l].pathPrefix) {
        assert PathsApart(links[k].path, links[l].path);
        LinkPathsApart(parent.pathPrefix, links[k].path, links[l].path);
      }
      forall c | c in children ensures AtGitlink(parent.pathPrefix, records, c) {
        var k :| 0 <= k < |children| && children[k] == c;
        assert links[k] in links;
        var i :| 0 <= i < |records| && records[i] == links[k];
      }
    }
  }

  /** The child stands at one of the tree's gitlinks. */
  ghost predicate AtGitlink(prefix: Bytes, records: seq<Record>, child: PlacedTree) {
    exists i | 0 <= i < |records| :: !IsTreeMode(records[i].mode) && records[i].mode == GITLINK_MODE
                                     && child.pathPrefix == prefix + records[i].path + "/"
  }

  // ----- the whole snapshot -----

  lemma PrefixesOfOne(a: Bytes, b: Bytes, x: Bytes)
    requires a <= x && b <= x
    ensures a <= b || b <= a
  {
    assert a == x[..|a|] && b == x[..|b|];
    if |a| <= |b| { assert x[..|b|][..|a|] == x[..|a|]; } else { assert x[..|a|][..|b|] == x[..|b|]; }
  }

  lemma UnderApart(a: Bytes, b: Bytes, x: Bytes, y: Bytes)
    requires ApartFrom(a, b) && IsUnder(a, x) && IsUnder(b, y)
    ensures x != y
  {
    if x == y { PrefixesOfOne(a, b, x); }
  }

  /** All entries of a list of trees lie under the prefix of one of them. */
  ghost predicate UnderSome(trees: seq<PlacedTree>, path: Bytes) {
    exists i | 0 <= i < |trees| :: IsUnder(trees[i].pathPrefix, path)
  }

  lemma {:induction false} EnumerateAllDiffers(world: World, trees: seq<PlacedTree>, bound: nat)
    requires forall t | t in trees :: Rank(world, t) < bound
    requires TreesAreTrees(world) && PrefixesApart(trees) && EnumerateAll(world, trees, bound).Ok?
    ensures DistinctPaths(EnumerateAll(world, trees, bound).value)
    ensures AllUnderSome(trees, EnumerateAll(world, trees, bound).value)
    decreases bound, 0, |trees|
  {
    hide AllUnder, DistinctPaths, AllUnderSome, PrefixesApart, Rank, TreesAreTrees;
    if trees == [] {
      NoneDiffer();
    } else {
      var tree, rest := trees[0], trees[1..];
      assert tree in trees;
      EnumerateDiffers(world, tree);
      RestApart(trees);
      EnumerateAllDiffers(world, rest, bound);
      JoinDiffers(trees, Enumerate(world, tree).value, EnumerateAll(world, rest, bound).value);
    }
  }

  lemma NoneDiffer()
    ensures DistinctPaths([]) && AllUnderSome([], [])
  {
  }

  lemma RestApart(trees: seq<PlacedTree>)
    requires trees != [] && PrefixesApart(trees)
    ensures PrefixesApart(trees[1..])
  {
  }

  ghost predicate AllUnderSome(trees: seq<PlacedTree>, entries: seq<Entry>) {
    forall i | 0 <= i < |entries| :: UnderSome(trees, entries[i].path)
  }

  lemma JoinDiffers(trees: seq<PlacedTree>, first: seq<Entry>, later: seq<Entry>)
    requires trees != [] && PrefixesApart(trees)
    requires DistinctPaths(first) && AllUnder(trees[0].pathPrefix, first)
    requires DistinctPaths(later) && AllUnderSome(trees[1..], later)
    ensures DistinctPaths(first + later) && AllUnderSome(trees, first + later)
  {
    hide IsUnder, ApartFrom;
    var rest := trees[1..];
    forall j | 0 <= j < |later|
      ensures UnderSome(trees, later[j].path) && forall i | 0 <= i < |first| :: first[i].path != later[j].path
    {
      var k :| 0 <= k < |rest| && IsUnder(rest[k].pathPrefix, later[j].path);
      assert trees[k + 1] == rest[k];
      forall i | 0 <= i < |first| ensures first[i].path != later[j].path {
        UnderApart(trees[0].pathPrefix, rest[k].pathPrefix, first[i].path, later[j].path);
      }
    }
    forall i | 0 <= i < |first| ensures UnderSome(trees, first[i].path) {
      assert IsUnder(trees[0].pathPrefix, first[i].path);
    }
  }

  lemma UnderLinkIsBelow(prefix: Bytes, link: Bytes, file: Bytes)
    requires IsUnder(prefix + link + "/", prefix + file)
    ensures IsBelow(link, file)
  {
    var x, y, n := prefix + link + "/", prefix + file, |prefix|;
    assert y[..|x|] == x;
    assert y[n..] == file && x[n..n + |link|] == link && x[n + |link|] == '/';
    assert file[..|link|] == y[n..n + |link|] == x[n..n + |link|];
    assert file[|link|] == y[n + |link|];
  }

  lemma OwnIsNotBelow(prefix: Bytes, records: seq<Record>, children: seq<PlacedTree>, own: Bytes, below: Bytes)
    requires IsTree(records) && ComesFrom(prefix, records, own) && UnderSome(children, below)
    requires forall c | c in children :: AtGitlink(prefix, records, c)
    ensures own != below
  {
    hide IsUnder, IsBelow;
    var i :| 0 <= i < |records| && IsFileRecord(records[i]) && own == prefix + records[i].path;
    var k :| 0 <= k < |children| && IsUnder(children[k].pathPrefix, below);
    assert AtGitlink(prefix, records, children[k]);
    var j :| 0 <= j < |records| && !IsTreeMode(records[j].mode) && records[j].mode == GITLINK_MODE
             && children[k].pathPrefix == prefix + records[j].path + "/";
    if own == below { UnderLinkIsBelow(prefix, records[j].path, records[i].path); }
  }

  lemma BelowIsUnder(prefix: Bytes, records: seq<Record>, children: seq<PlacedTree>, below: Bytes)
    requires UnderSome(children, below)
    requires forall c | c in children :: AtGitlink(prefix, records, c)
    ensures IsUnder(prefix, below)
  {
    var k :| 0 <= k < |children| && IsUnder(children[k].pathPrefix, below);
    assert AtGitlink(prefix, records, children[k]);
    assert prefix <= children[k].pathPrefix;
  }

  /** The entries of a successful enumeration have pairwise distinct paths,
      all under the tree's own prefix. */
  lemma {:induction false} EnumerateDiffers(world: World, tree: PlacedTree)
    requires TreesAreTrees(world) && Enumerate(world, tree).Ok?
    ensures DistinctPaths(Enumerate(world, tree).value) && AllUnder(tree.pathPrefix, Enumerate(world, tree).value)
    decreases Rank(world, tree), 1, 0
  {
    var records, prefix := world.trees[tree.place], tree.pathPrefix;
    var own, children := OwnEntries(world, prefix, records).value, Children(world, tree, records).value;
    ChildrenRank(world, tree);
    var below := EnumerateAll(world, children, Rank(world, tree)).value;
    var all := Enumerate(world, tree).value;
    assert all == own + below;
    OwnPathsDiffer(world, prefix, records);
    OwnEntriesComeFrom(world, prefix, records);
    ChildrenApart(world, tree, records);
    EnumerateAllDiffers(world, children, Rank(world, tree));
    hide Enumerate, EnumerateAll, OwnEntries, Children, Rank, IsTree, IsUnder, ComesFrom, UnderSome, PrefixesApart,
         TreesAreTrees, AtGitlink, IsFileRecord;
    assert IsTree(records) by { StoredIsTree(world, tree.place); }
    forall i, j | 0 <= i < |own| && 0 <= j < |below| ensures own[i].path != below[j].path {
      OwnIsNotBelow(prefix, records, children, own[i].path, below[j].path);
    }
    forall j | 0 <= j < |below| ensures IsUnder(prefix, below[j].path) {
      BelowIsUnder(prefix, records, children, below[j].path);
    }
  }

  lemma StoredIsTree(world: World, place: Place)
    requires TreesAreTrees(world) && place in world.trees
    ensures IsTree(world.trees[place])
  {
  }
}
