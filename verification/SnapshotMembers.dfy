/** Which entries a snapshot holds, whatever their order, and how that changes
    when the root tree is exchanged for another. */
module SnapshotMembers {
  import opened Bytes
  import opened ManifestModel
  import opened Repository
  import opened Snapshot

  // ----- membership -----

  /** A record the scan turns into an entry. */
  predicate IsOwn(prefix: Bytes, r: Record) {
    !IsSkipped(prefix, r) && r.mode != GITLINK_MODE
  }

  predicate IsEnumerable(r: Record) {
    DecodeFileMode(r.mode).Some? && r.blob.Some? && |r.blob.value| < 0x1_0000_0000_0000_0000
  }

  function EntryOf(world: World, prefix: Bytes, r: Record): Entry
    requires IsEnumerable(r)
  {
    Entry(prefix + r.path, DecodeFileMode(r.mode).value, |r.blob.value|, world.hash(r.blob.value))
  }

  ghost predicate IsOwnEntry(world: World, prefix: Bytes, records: seq<Record>, e: Entry) {
    exists r | r in records :: IsOwn(prefix, r) && IsEnumerable(r) && e == EntryOf(world, prefix, r)
  }

  ghost predicate AllEnumerable(prefix: Bytes, records: seq<Record>) {
    forall r | r in records && IsOwn(prefix, r) :: IsEnumerable(r)
  }

  lemma OwnOfFirst(world: World, prefix: Bytes, records: seq<Record>, e: Entry)
    requires records != []
    ensures AllEnumerable(prefix, records) <==>
              (IsOwn(prefix, records[0]) ==> IsEnumerable(records[0])) && AllEnumerable(prefix, records[1..])
    ensures IsOwnEntry(world, prefix, records, e) <==>
              || (IsOwn(prefix, records[0]) && IsEnumerable(records[0]) && e == EntryOf(world, prefix, records[0]))
              || IsOwnEntry(world, prefix, records[1..], e)
  {
    hide IsOwn, IsEnumerable, EntryOf;
    var rest := records[1..];
    assert records == [records[0]] + rest;
    assert records[0] in records && forall r | r in rest :: r in records;
    if IsOwnEntry(world, prefix, rest, e) {
      var r :| r in rest && IsOwn(prefix, r) && IsEnumerable(r) && e == EntryOf(world, prefix, r);
      assert r in records;
    }
  }

  lemma {:induction false} OwnExact(world: World, prefix: Bytes, records: seq<Record>)
    ensures OwnEntries(world, prefix, records).Ok? <==> AllEnumerable(prefix, records)
    ensures OwnEntries(world, prefix, records).Ok? ==>
              forall e :: e in OwnEntries(world, prefix, records).value <==> IsOwnEntry(world, prefix, records, e)
  {
    if records != [] {
      hide IsSkipped, DecodeFileMode, AllEnumerable, IsOwnEntry;
      OwnExact(world, prefix, records[1..]);
      forall e { OwnOfFirst(world, prefix, records, e); }
      OwnOfFirst(world, prefix, records, Entry([], Regular, 0, world.hash([])));
    }
  }

  lemma {:induction false} GitlinksExact(prefix: Bytes, records: seq<Record>)
    ensures forall l :: l in Gitlinks(prefix, records) <==>
            l in records && !IsSkipped(prefix, l) && l.mode == GITLINK_MODE
  {
    hide IsSkipped;
    if records != [] {
      GitlinksExact(prefix, records[1..]);
      assert records == [records[0]] + records[1..];
    }
  }

  lemma {:induction false} ResolveAllExact(world: World, parent: PlacedTree, modules: Option<Bytes>, links: seq<Record>)
    ensures ResolveAll(world, parent, modules, links).Ok? <==>
            forall l | l in links :: ResolveGitlink(world, parent, modules, l).Ok?
    ensures ResolveAll(world, parent, modules, links).Ok? ==>
              forall c :: c in ResolveAll(world, parent, modules, links).value <==>
                exists l | l in links :: ResolveGitlink(world, parent, modules, l) == Ok(c)
  {
    hide ResolveGitlink;
    if links != [] {
      ResolveAllExact(world, parent, modules, links[1..]);
      assert links == [links[0]] + links[1..];
    }
  }

  ghost predicate AllEnumerate(world: World, trees: seq<PlacedTree>) {
    forall t | t in trees :: Enumerate(world, t).Ok?
  }

  ghost predicate IsEntryOfSome(world: World, trees: seq<PlacedTree>, e: Entry) {
    exists t | t in trees :: Enumerate(world, t).Ok? && e in Enumerate(world, t).value
  }

  lemma SomeOfFirst(world: World, trees: seq<PlacedTree>, e: Entry)
    requires trees != []
    ensures AllEnumerate(world, trees) <==> Enumerate(world, trees[0]).Ok? && AllEnumerate(world, trees[1..])
    ensures IsEntryOfSome(world, trees, e) <==>
              || (Enumerate(world, trees[0]).Ok? && e in Enumerate(world, trees[0]).value)
              || IsEntryOfSome(world, trees[1..], e)
  {
    hide Enumerate;
    var rest := trees[1..];
    assert trees == [trees[0]] + rest;
    assert trees[0] in trees && forall t | t in rest :: t in trees;
  }

  lemma {:induction false} EnumerateAllExact(world: World, trees: seq<PlacedTree>, bound: nat)
    requires forall t | t in trees :: Rank(world, t) < bound
    ensures EnumerateAll(world, trees, bound).Ok? <==> AllEnumerate(world, trees)
    ensures EnumerateAll(world, trees, bound).Ok? ==>
              forall e :: e in EnumerateAll(world, trees, bound).value <==> IsEntryOfSome(world, trees, e)
    decreases |trees|
  {
    if trees != [] {
      hide Enumerate, Rank, AllEnumerate, IsEntryOfSome;
      EnumerateAllExact(world, trees[1..], bound);
      forall e { SomeOfFirst(world, trees, e); }
      SomeOfFirst(world, trees, Entry([], Regular, 0, world.hash([])));
    }
  }

  /** What a successful enumeration of a tree consists of. */
  lemma TreeExact(world: World, tree: PlacedTree)
    requires tree.place in world.trees
    ensures var records := world.trees[tree.place];
            && (Enumerate(world, tree).Ok? <==>
                  && OwnEntries(world, tree.pathPrefix, records).Ok? && Children(world, tree, records).Ok?
                  && AllEnumerate(world, Children(world, tree, records).value))
            && (Enumerate(world, tree).Ok? ==> forall e :: e in Enumerate(world, tree).value <==>
                  IsOwnEntry(world, tree.pathPrefix, records, e)
                  || IsEntryOfSome(world, Children(world, tree, records).value, e))
  {
    hide AllEnumerate, IsEntryOfSome, IsOwnEntry, AllEnumerable, OwnEntries, Children;
    var records := world.trees[tree.place];
    OwnExact(world, tree.pathPrefix, records);
    ChildrenRank(world, tree);
    if Children(world, tree, records).Ok? {
      EnumerateAllExact(world, Children(world, tree, records).value, Rank(world, tree));
    }
  }

  // ----- a tree as seen from another root -----

  /** Some tree below this one has the given id. */
  ghost predicate Meets(world: World, tree: PlacedTree, id: ObjectId)
    decreases Rank(world, tree)
  {
    tree.place in world.trees
    && match Children(world, tree, world.trees[tree.place])
       case Err(_) => false
       case Ok(children) =>
         ChildrenRank(world, tree);
         exists c | c in children :: c.place.tree == id || Meets(world, c, id)
  }

  /** `later` stores everything `earlier` does, and resolves and hashes alike. */
  ghost predicate Extends(later: World, earlier: World) {
    && (forall p | p in earlier.trees :: p in later.trees && later.trees[p] == earlier.trees[p])
    && later.resolve == earlier.resolve && later.hash == earlier.hash
  }

  /** The same tree on a chain that starts at another root. */
  function Rerooted(tree: PlacedTree, root: ObjectId): PlacedTree
    requires tree.ancestors != []
  {
    tree.(ancestors := [root] + tree.ancestors[1..])
  }

  lemma {:induction false} OwnSame(a: World, b: World, prefix: Bytes, records: seq<Record>)
    requires a.hash == b.hash
    ensures OwnEntries(a, prefix, records) == OwnEntries(b, prefix, records)
  {
    hide IsSkipped, DecodeFileMode;
    if records != [] { OwnSame(a, b, prefix, records[1..]); }
  }

  lemma ResolveRerooted(earlier: World, later: World, parent: PlacedTree, root: ObjectId, modules: Option<Bytes>,
          link: Record)
    requires Extends(later, earlier) && parent.ancestors != []
    requires ResolveGitlink(earlier, parent, modules, link).Ok?
    requires ResolveGitlink(earlier, parent, modules, link).value.place.tree != root
    ensures ResolveGitlink(later, Rerooted(parent, root), modules, link) ==
            Ok(Rerooted(ResolveGitlink(earlier, parent, modules, link).value, root))
  {
    var child := ResolveGitlink(earlier, parent, modules, link).value;
    assert child.ancestors[1..] == parent.ancestors[1..] + [child.place.tree];
    assert [root] + child.ancestors[1..] == ([root] + parent.ancestors[1..]) + [child.place.tree];
    assert forall t | t in parent.ancestors[1..] :: t in parent.ancestors;
  }

  function AllRerooted(trees: seq<PlacedTree>, root: ObjectId): (rerooted: seq<PlacedTree>)
    requires forall t | t in trees :: t.ancestors != []
    ensures |rerooted| == |trees| && forall i | 0 <= i < |trees| :: rerooted[i] == Rerooted(trees[i], root)
  {
    seq(|trees|, i requires 0 <= i < |trees| => Rerooted(trees[i], root))
  }

  lemma {:induction false} AllResolveRerooted(earlier: World, later: World, parent: PlacedTree, root: ObjectId,
          modules: Option<Bytes>, links: seq<Record>)
    requires Extends(later, earlier) && parent.ancestors != []
    requires ResolveAll(earlier, parent, modules, links).Ok?
    requires forall c | c in ResolveAll(earlier, parent, modules, links).value :: c.place.tree != root
    ensures ResolveAll(later, Rerooted(parent, root), modules, links) ==
            Ok(AllRerooted(ResolveAll(earlier, parent, modules, links).value, root))
  {
    hide ResolveGitlink, Extends, Rerooted;
    if links != [] {
      var rest := ResolveAll(earlier, parent, modules, links[1..]).value;
      var first := ResolveGitlink(earlier, parent, modules, links[0]).value;
      assert first in [first] + rest && forall c | c in rest :: c in [first] + rest;
      ResolveRerooted(earlier, later, parent, root, modules, links[0]);
      AllResolveRerooted(earlier, later, parent, root, modules, links[1..]);
      RerootedFirst(first, rest, root);
    }
  }

  lemma RerootedFirst(first: PlacedTree, rest: seq<PlacedTree>, root: ObjectId)
    requires first.ancestors != [] && forall t | t in rest :: t.ancestors != []
    ensures AllRerooted([first] + rest, root) == [Rerooted(first, root)] + AllRerooted(rest, root)
  {
    hide Rerooted;
  }

  lemma ChildrenRerooted(earlier: World, later: World, parent: PlacedTree, root: ObjectId, records: seq<Record>)
    requires Extends(later, earlier) && parent.ancestors != []
    requires Children(earlier, parent, records).Ok?
    requires forall c | c in Children(earlier, parent, records).value :: c.place.tree != root
    ensures Children(later, Rerooted(parent, root), records) ==
            Ok(AllRerooted(Children(earlier, parent, records).value, root))
  {
    hide ResolveAll, Gitlinks, FindGitmodules, Extends;
    var links := Gitlinks(parent.pathPrefix, records);
    if links != [] {
      var modules := match FindGitmodules(records) case None => None case Some(r) => r.blob;
      AllResolveRerooted(earlier, later, parent, root, modules, links);
    }
  }

  lemma MeetsBelow(world: World, tree: PlacedTree, id: ObjectId, child: PlacedTree)
    requires tree.place in world.trees && Children(world, tree, world.trees[tree.place]).Ok?
    requires child in Children(world, tree, world.trees[tree.place]).value
    requires !Meets(world, tree, id)
    ensures child.place.tree != id && !Meets(world, child, id)
  {
    hide Children, Rank;
  }

  /** A tree enumerates the same from another root, provided the chain never
      comes to that root. */
  lemma {:induction false} EnumerateRerooted(earlier: World, later: World, tree: PlacedTree, root: ObjectId)
    requires Extends(later, earlier) && tree.ancestors != []
    requires Enumerate(earlier, tree).Ok? && !Meets(earlier, tree, root)
    ensures Enumerate(later, Rerooted(tree, root)) == Enumerate(earlier, tree)
    decreases Rank(earlier, tree), 1, 0
  {
    var records := earlier.trees[tree.place];
    var children := Children(earlier, tree, records).value;
    ChildrenRank(earlier, tree);
    var below := Rerooted(tree, root);
    forall c | c in children ensures c.place.tree != root && !Meets(earlier, c, root) {
      MeetsBelow(earlier, tree, root, c);
    }
    ChildrenRerooted(earlier, later, tree, root, records);
    ChildrenRank(later, below);
    OwnSame(earlier, later, tree.pathPrefix, records);
    assert EnumerateAll(earlier, children, Rank(earlier, tree)).Ok?;
    AllRerootedRanks(later, below, children, root);
    AllEnumerateRerooted(earlier, later, children, root, Rank(earlier, tree), Rank(later, below));
  }

  lemma AllRerootedRanks(world: World, parent: PlacedTree, trees: seq<PlacedTree>, root: ObjectId)
    requires forall t | t in trees :: t.ancestors != []
    requires parent.place in world.trees
             && Children(world, parent, world.trees[parent.place]) == Ok(AllRerooted(trees, root))
    ensures forall t | t in AllRerooted(trees, root) :: Rank(world, t) < Rank(world, parent)
  {
    hide Children, Rank, Rerooted;
    ChildrenRank(world, parent);
  }

  lemma {:induction false} AllEnumerateRerooted(earlier: World, later: World, trees: seq<PlacedTree>, root: ObjectId,
          a: nat, b: nat)
    requires Extends(later, earlier)
    requires forall t | t in trees :: Rank(earlier, t) < a && t.ancestors != [] && !Meets(earlier, t, root)
    requires EnumerateAll(earlier, trees, a).Ok?
    requires forall t | t in AllRerooted(trees, root) :: Rank(later, t) < b
    ensures EnumerateAll(later, AllRerooted(trees, root), b) == EnumerateAll(earlier, trees, a)
    decreases a, 0, |trees|
  {
    hide Enumerate, Meets, Rank, Extends, Rerooted;
    var others := AllRerooted(trees, root);
    if trees != [] {
      EnumerateRerooted(earlier, later, trees[0], root);
      assert others[1..] == AllRerooted(trees[1..], root);
      assert others[0] == Rerooted(trees[0], root);
      AllEnumerateRerooted(earlier, later, trees[1..], root, a, b);
    }
  }
}
