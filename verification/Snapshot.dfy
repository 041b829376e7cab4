/** Snapshot enumeration (stamping specification, section 4.2): every tracked
    file of a tree, submodules included, by a worklist of trees. */
module Snapshot {
  import opened Bytes
  import opened ManifestModel
  import opened Repository

  datatype SnapshotError =
    | ObjectAccess(path: Bytes)
    | UnsupportedMode(path: Bytes, modeBits: nat)
    | MissingGitmodules(gitlinkPath: Bytes)
    | UnresolvedGitlink(gitlinkPath: Bytes)
    | GitlinkCycle(gitlinkPath: Bytes)

  /** A tree within a repository, and where a gitlink leads: the repository
      opened for it and its commit's tree. */
  datatype Place = Place(repository: nat, tree: ObjectId)

  /** The object stores, and the resolution of a gitlink from the repository
      it is in, the bytes of the tree's `.gitmodules`, its path and commit. */
  datatype World = World(
    trees: map<Place, seq<Record>>,
    resolve: (nat, Bytes, Bytes, ObjectId) -> Option<Place>,
    hash: Bytes -> PayloadHashes)

  /** A tree with its placement in the snapshot and the trees above it. */
  datatype PlacedTree = PlacedTree(place: Place, pathPrefix: Bytes, ancestors: seq<ObjectId>)

  const GITMODULES_PATH: Bytes := ".gitmodules"

  // ----- one tree -----

  predicate IsSkipped(prefix: Bytes, r: Record) {
    IsTreeMode(r.mode) || (prefix == [] && IsStampArtifact(r.path))
  }

  /** The entries of one tree's own files, in traversal order. */
  function OwnEntries(world: World, prefix: Bytes, records: seq<Record>): Result<seq<Entry>, SnapshotError> {
    if records == [] then Ok([])
    else
      var r := records[0];
      if IsSkipped(prefix, r) || r.mode == GITLINK_MODE then OwnEntries(world, prefix, records[1..])
      else
        var mode := DecodeFileMode(r.mode);
        if mode.None? then Err(UnsupportedMode(prefix + r.path, r.mode))
        else if r.blob.None? || |r.blob.value| >= 0x1_0000_0000_0000_0000 then Err(ObjectAccess(prefix + r.path))
        else
          match OwnEntries(world, prefix, records[1..])
          case Ok(rest) => Ok([Entry(prefix + r.path, mode.value, |r.blob.value|, world.hash(r.blob.value))] + rest)
          case Err(cause) => Err(cause)
  }

  function Gitlinks(prefix: Bytes, records: seq<Record>): (links: seq<Record>)
    ensures forall l | l in links :: l in records && l.mode == GITLINK_MODE && !IsSkipped(prefix, l)
  {
    if records == [] then []
    else
      var rest := Gitlinks(prefix, records[1..]);
      if !IsSkipped(prefix, records[0]) && records[0].mode == GITLINK_MODE then [records[0]] + rest else rest
  }

  /** The `.gitmodules` blob of the enumerated tree itself. */
  function FindGitmodules(records: seq<Record>): (found: Option<Record>)
    ensures found.Some? ==>
              found.value in records && IsBlobMode(found.value.mode) && found.value.path == GITMODULES_PATH
    ensures found.None? ==> forall r | r in records :: !(IsBlobMode(r.mode) && r.path == GITMODULES_PATH)
  {
    if records == [] then None
    else if IsBlobMode(records[0].mode) && records[0].path == GITMODULES_PATH then Some(records[0])
    else FindGitmodules(records[1..])
  }

  function ResolveGitlink(world: World, parent: PlacedTree, modules: Option<Bytes>,
          link: Record): (child: Result<PlacedTree, SnapshotError>)
    ensures child.Ok? ==> child.value.place.tree !in parent.ancestors
                          && child.value.ancestors == parent.ancestors + [child.value.place.tree]
                          && child.value.pathPrefix == parent.pathPrefix + link.path + "/"
  {
    var gitlinkPath := parent.pathPrefix + link.path;
    if modules.None? then Err(MissingGitmodules(gitlinkPath))
    else
      match world.resolve(parent.place.repository, modules.value, link.path, link.commit)
      case None => Err(UnresolvedGitlink(gitlinkPath))
      case Some(place) =>
        if place.tree in parent.ancestors then Err(GitlinkCycle(gitlinkPath))
        else Ok(PlacedTree(place, gitlinkPath + "/", parent.ancestors + [place.tree]))
  }

  function ResolveAll(world: World, parent: PlacedTree, modules: Option<Bytes>,
          links: seq<Record>): (children: Result<seq<PlacedTree>, SnapshotError>)
    ensures children.Ok? ==> forall c | c in children.value ::
              c.place.tree !in parent.ancestors && c.ancestors == parent.ancestors + [c.place.tree]
  {
    if links == [] then Ok([])
    else
      match ResolveGitlink(world, parent, modules, links[0])
      case Err(cause) => Err(cause)
      case Ok(child) =>
        match ResolveAll(world, parent, modules, links[1..])
        case Err(cause) => Err(cause)
        case Ok(rest) => Ok([child] + rest)
  }

  function Children(world: World, parent: PlacedTree, records: seq<Record>):
          (children: Result<seq<PlacedTree>, SnapshotError>)
    ensures children.Ok? ==> forall c | c in children.value ::
              c.place.tree !in parent.ancestors && c.ancestors == parent.ancestors + [c.place.tree]
  {
    var links := Gitlinks(parent.pathPrefix, records);
    if links == [] then Ok([])
    else
      match FindGitmodules(records)
      case None => ResolveAll(world, parent, None, links)
      case Some(r) =>
        if r.blob.None? then Err(ObjectAccess(r.path))
        else ResolveAll(world, parent, r.blob, links)
  }

  // ----- the recursive enumeration -----

  ghost function TreeIds(world: World): set<ObjectId> { set p | p in world.trees :: p.tree }

  /** Every chain visits distinct trees of finite stores: what is left to
      visit below a tree shrinks, and a tree outside the stores ends it. */
  ghost function Rank(world: World, tree: PlacedTree): nat {
    2 * |TreeIds(world) - Members(tree.ancestors)| + if tree.place in world.trees then 1 else 0
  }

  lemma ChildRank(world: World, parent: PlacedTree, child: PlacedTree)
    requires parent.place in world.trees
    requires child.place.tree !in parent.ancestors && child.ancestors == parent.ancestors + [child.place.tree]
    ensures Rank(world, child) < Rank(world, parent)
  {
    var left, below := TreeIds(world) - Members(parent.ancestors), TreeIds(world) - Members(child.ancestors);
    assert below == left - {child.place.tree};
    if child.place in world.trees {
      assert child.place.tree in left;
      assert |below| < |left|;
    } else {
      Shrinks(below, left);
    }
  }

  lemma Shrinks(a: set<ObjectId>, b: set<ObjectId>)
    requires a <= b
    ensures |a| <= |b|
  {
    assert b == a + (b - a);
  }

  lemma ChildrenRank(world: World, parent: PlacedTree)
    requires parent.place in world.trees
    ensures var children := Children(world, parent, world.trees[parent.place]);
            children.Ok? ==> forall c | c in children.value :: Rank(world, c) < Rank(world, parent)
  {
    hide Children, Rank;
    var children := Children(world, parent, world.trees[parent.place]);
    if children.Ok? {
      forall c | c in children.value ensures Rank(world, c) < Rank(world, parent) { ChildRank(world, parent, c); }
    }
  }

  type Entries = Result<seq<Entry>, SnapshotError>

  /** One tree enumerated with everything below it: its own files, then each
      submodule under its prefix. */
  ghost function Enumerate(world: World, tree: PlacedTree): Entries
    decreases Rank(world, tree), 1, 0
  {
    if tree.place !in world.trees then Err(ObjectAccess(tree.pathPrefix))
    else
      var records := world.trees[tree.place];
      match OwnEntries(world, tree.pathPrefix, records)
      case Err(cause) => Err(cause)
      case Ok(own) =>
        match Children(world, tree, records)
        case Err(cause) => Err(cause)
        case Ok(children) =>
          ChildrenRank(world, tree);
          match EnumerateAll(world, children, Rank(world, tree))
          case Err(cause) => Err(cause)
          case Ok(below) => Ok(own + below)
  }

  ghost function EnumerateAll(world: World, trees: seq<PlacedTree>, bound: nat): Entries
    requires forall t | t in trees :: Rank(world, t) < bound
    decreases bound, 0, |trees|
  {
    if trees == [] then Ok([])
    else
      match Enumerate(world, trees[0])
      case Err(cause) => Err(cause)
      case Ok(first) =>
        match EnumerateAll(world, trees[1..], bound)
        case Err(cause) => Err(cause)
        case Ok(rest) => Ok(first + rest)
  }

  /** How many trees an enumeration visits. */
  ghost function Visits(world: World, tree: PlacedTree): nat
    decreases Rank(world, tree), 1, 0
  {
    if tree.place !in world.trees then 1
    else
      match Children(world, tree, world.trees[tree.place])
      case Err(_) => 1
      case Ok(children) =>
        ChildrenRank(world, tree);
        1 + VisitsAll(world, children, Rank(world, tree))
  }

  ghost function VisitsAll(world: World, trees: seq<PlacedTree>, bound: nat): nat
    requires forall t | t in trees :: Rank(world, t) < bound
    decreases bound, 0, |trees|
  {
    if trees == [] then 0 else Visits(world, trees[0]) + VisitsAll(world, trees[1..], bound)
  }

  // ----- the worklist of the source -----

  /** A bound past every pending tree's rank. */
  ghost function Ceiling(world: World): nat { 2 * |TreeIds(world)| + 2 }

  lemma UnderCeiling(world: World, tree: PlacedTree)
    ensures Rank(world, tree) < Ceiling(world)
  {
    Shrinks(TreeIds(world) - Members(tree.ancestors), TreeIds(world));
  }

  ghost function All(world: World, trees: seq<PlacedTree>): Entries {
    forall t | t in trees ensures Rank(world, t) < Ceiling(world) { UnderCeiling(world, t); }
    EnumerateAll(world, trees, Ceiling(world))
  }

  ghost function Pending(world: World, trees: seq<PlacedTree>): nat {
    forall t | t in trees ensures Rank(world, t) < Ceiling(world) { UnderCeiling(world, t); }
    VisitsAll(world, trees, Ceiling(world))
  }

  lemma {:induction false} BoundIrrelevant(world: World, trees: seq<PlacedTree>, a: nat, b: nat)
    requires forall t | t in trees :: Rank(world, t) < a && Rank(world, t) < b
    ensures EnumerateAll(world, trees, a) == EnumerateAll(world, trees, b)
    ensures VisitsAll(world, trees, a) == VisitsAll(world, trees, b)
    decreases |trees|
  {
    hide Enumerate, Visits, Rank;
    if trees != [] { BoundIrrelevant(world, trees[1..], a, b); }
  }

  /** What two enumerations amount to: failure if either fails, otherwise
      their entries together. */
  ghost predicate Together(whole: Entries, a: Entries, b: Entries) {
    && (whole.Ok? <==> a.Ok? && b.Ok?)
    && (whole.Ok? ==> multiset(whole.value) == multiset(a.value) + multiset(b.value))
  }

  lemma {:induction false} AllConcat(world: World, a: seq<PlacedTree>, b: seq<PlacedTree>)
    ensures Together(All(world, a + b), All(world, a), All(world, b))
    ensures Pending(world, a + b) == Pending(world, a) + Pending(world, b)
    decreases |a|
  {
    hide Enumerate, Visits, Rank, Ceiling;
    if a == [] {
      assert a + b == b;
    } else {
      assert (a + b)[0] == a[0] && (a + b)[1..] == a[1..] + b;
      AllConcat(world, a[1..], b);
    }
  }

  /** Popping a tree and pushing what it discovered keeps the whole. */
  lemma PopAndPush(world: World, tree: PlacedTree, rest: seq<PlacedTree>)
    requires tree.place in world.trees
    requires OwnEntries(world, tree.pathPrefix, world.trees[tree.place]).Ok?
    requires Children(world, tree, world.trees[tree.place]).Ok?
    ensures var children := Children(world, tree, world.trees[tree.place]).value;
            && Pending(world, rest + children) < Pending(world, [tree] + rest)
            && Together(All(world, [tree] + rest),
                        OwnEntries(world, tree.pathPrefix, world.trees[tree.place]), All(world, rest + children))
  {
    var children := Children(world, tree, world.trees[tree.place]).value;
    ChildrenRank(world, tree);
    forall t: PlacedTree ensures Rank(world, t) < Ceiling(world) { UnderCeiling(world, t); }
    BoundIrrelevant(world, children, Rank(world, tree), Ceiling(world));
    assert Enumerate(world, tree) == match All(world, children)
                                     case Err(cause) => Err(cause)
                                     case Ok(below) =>
                                       Ok(OwnEntries(world, tree.pathPrefix, world.trees[tree.place]).value + below);
    assert Visits(world, tree) == 1 + Pending(world, children);
    hide Enumerate, Visits, Rank, Ceiling, OwnEntries, Children;
    AllConcat(world, rest, children);
    assert ([tree] + rest)[1..] == rest;
  }

  type Scanned = Result<(seq<Entry>, seq<Record>), SnapshotError>

  /** What a partly done scan comes to once the remaining records are read. */
  function Scan(world: World, prefix: Bytes, rest: seq<Record>, entries: seq<Entry>, links: seq<Record>): Scanned {
    match OwnEntries(world, prefix, rest)
    case Ok(own) => Ok((entries + own, links + Gitlinks(prefix, rest)))
    case Err(cause) => Err(cause)
  }

  lemma ScanStep(world: World, prefix: Bytes, rest: seq<Record>, entries: seq<Entry>, links: seq<Record>)
    requires rest != []
    ensures var r, scan := rest[0], Scan(world, prefix, rest, entries, links);
            if IsSkipped(prefix, r) then scan == Scan(world, prefix, rest[1..], entries, links)
            else if r.mode == GITLINK_MODE then scan == Scan(world, prefix, rest[1..], entries, links + [r])
            else if DecodeFileMode(r.mode).None? then scan == Err(UnsupportedMode(prefix + r.path, r.mode))
            else if r.blob.None? || |r.blob.value| >= 0x1_0000_0000_0000_0000
            then scan == Err(ObjectAccess(prefix + r.path))
            else
              var entry := Entry(prefix + r.path, DecodeFileMode(r.mode).value, |r.blob.value|,
                  world.hash(r.blob.value));
              scan == Scan(world, prefix, rest[1..], entries + [entry], links)
  {
    hide IsSkipped, DecodeFileMode;
    var r, later := rest[0], OwnEntries(world, prefix, rest[1..]);
    AppendShift(links, r, Gitlinks(prefix, rest[1..]));
    if later.Ok? && !IsSkipped(prefix, r) && DecodeFileMode(r.mode).Some? && r.blob.Some?
        && |r.blob.value| < 0x1_0000_0000_0000_0000 {
      var entry := Entry(prefix + r.path, DecodeFileMode(r.mode).value, |r.blob.value|, world.hash(r.blob.value));
      AppendShift(entries, entry, later.value);
    }
  }

  /** The scan over one tree's records: files to the sink, gitlinks aside. */
  method ScanRecords(world: World, prefix: Bytes, records: seq<Record>, sink: seq<Entry>) returns (outcome: Scanned)
    ensures outcome == Scan(world, prefix, records, sink, [])
  {
    var entries, links: seq<Record> := sink, [];
    var rest := records;
    while rest != []
      invariant Scan(world, prefix, rest, entries, links) == Scan(world, prefix, records, sink, [])
      decreases |rest|
    {
      hide Scan, IsSkipped, DecodeFileMode;
      var r := rest[0];
      ScanStep(world, prefix, rest, entries, links);
      rest := rest[1..];
      if IsSkipped(prefix, r) { continue; }
      if r.mode == GITLINK_MODE {
        links := links + [r];
        continue;
      }
      var mode := DecodeFileMode(r.mode);
      if mode.None? { return Err(UnsupportedMode(prefix + r.path, r.mode)); }
      if r.blob.None? || |r.blob.value| >= 0x1_0000_0000_0000_0000 { return Err(ObjectAccess(prefix + r.path)); }
      entries := entries + [Entry(prefix + r.path, mode.value, |r.blob.value|, world.hash(r.blob.value))];
    }
    assert entries + [] == entries && links + [] == links;
    return Ok((entries, links));
  }

  /** Traverses one tree: its own files go to the sink, its submodules are
      returned. */
  method TraverseRepositoryTree(world: World, sink: seq<Entry>, tree: PlacedTree)
    returns (outcome: Result<(seq<Entry>, seq<PlacedTree>), SnapshotError>)
    ensures outcome == TraverseSpec(world, sink, tree)
  {
    hide OwnEntries, Gitlinks, ResolveAll;
    AppendToNothing(Gitlinks(tree.pathPrefix, if tree.place in world.trees then world.trees[tree.place] else []));
    if tree.place !in world.trees { return Err(ObjectAccess(tree.pathPrefix)); }
    var records := world.trees[tree.place];
    var scanned := ScanRecords(world, tree.pathPrefix, records, sink);
    if scanned.Err? { return Err(scanned.error); }
    var (entries, links) := scanned.value;
    if links == [] { return Ok((entries, [])); }
    var modules := FindGitmodules(records);
    var content: Option<Bytes> := None;
    if modules.Some? {
      if modules.value.blob.None? { return Err(ObjectAccess(modules.value.path)); }
      content := modules.value.blob;
    }
    var children := ResolveAll(world, tree, content, links);
    if children.Err? { return Err(children.error); }
    return Ok((entries, children.value));
  }

  function TraverseSpec(world: World, sink: seq<Entry>, tree: PlacedTree):
          Result<(seq<Entry>, seq<PlacedTree>), SnapshotError>
  {
    if tree.place !in world.trees then Err(ObjectAccess(tree.pathPrefix))
    else
      match OwnEntries(world, tree.pathPrefix, world.trees[tree.place])
      case Err(cause) => Err(cause)
      case Ok(own) =>
        match Children(world, tree, world.trees[tree.place])
        case Err(cause) => Err(cause)
        case Ok(children) => Ok((sink + own, children))
  }

  function Root(place: Place): PlacedTree { PlacedTree(place, [], [place.tree]) }

  /** What the queue comes to: one tree after the other, the first failure
      ending it. */
  ghost function Drained(world: World, sink: seq<Entry>, queue: seq<PlacedTree>): Entries
    decreases Pending(world, queue)
  {
    if queue == [] then Ok(sink)
    else
      match TraverseSpec(world, sink, queue[0])
      case Err(cause) => Err(cause)
      case Ok(step) =>
        PopAndPush(world, queue[0], queue[1..]);
        assert [queue[0]] + queue[1..] == queue;
        Drained(world, step.0, queue[1..] + step.1)
  }

  /** The queue terminates without any bound of its own; it succeeds exactly
      when the recursive enumeration does, with the same entries in some
      order, and fails with the first tree that cannot be read. */
  method Run(world: World, root: Place) returns (entries: Entries)
    ensures entries == Drained(world, [], [Root(root)])
    ensures entries.Ok? <==> Enumerate(world, Root(root)).Ok?
    ensures entries.Ok? ==> multiset(entries.value) == multiset(Enumerate(world, Root(root)).value)
  {
    hide Enumerate, Visits, Rank, Ceiling, OwnEntries, Children;
    var sink: seq<Entry> := [];
    var queue := [Root(root)];
    ghost var whole := All(world, queue);
    OnlyOne(world, Root(root));
    while queue != []
      invariant Drained(world, sink, queue) == Drained(world, [], [Root(root)])
      invariant whole.Ok? <==> All(world, queue).Ok?
      invariant whole.Ok? ==> multiset(whole.value) == multiset(sink) + multiset(All(world, queue).value)
      decreases Pending(world, queue)
    {
      var tree, rest := queue[0], queue[1..];
      assert queue == [tree] + rest;
      var step := TraverseRepositoryTree(world, sink, tree);
      if step.Err? {
        FirstFails(world, sink, tree, rest);
        return Err(step.error);
      }
      PopAndPush(world, tree, rest);
      sink := step.value.0;
      queue := rest + step.value.1;
    }
    return Ok(sink);
  }

  lemma OnlyOne(world: World, tree: PlacedTree)
    ensures All(world, [tree]).Ok? <==> Enumerate(world, tree).Ok?
    ensures All(world, [tree]).Ok? ==> All(world, [tree]).value == Enumerate(world, tree).value
  {
    hide Enumerate;
    UnderCeiling(world, tree);
    var none: seq<PlacedTree> := [tree][1..];
    assert none == [];
    assert EnumerateAll(world, none, Ceiling(world)) == Ok([]);
    if Enumerate(world, tree).Ok? { assert Enumerate(world, tree).value + [] == Enumerate(world, tree).value; }
  }

  lemma FirstFails(world: World, sink: seq<Entry>, tree: PlacedTree, rest: seq<PlacedTree>)
    requires TraverseSpec(world, sink, tree).Err?
    ensures All(world, [tree] + rest).Err?
  {
    assert Enumerate(world, tree).Err?;
    hide OwnEntries, Children, Rank, Enumerate;
    assert ([tree] + rest)[0] == tree;
  }
}
