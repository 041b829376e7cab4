/** What a snapshot lists, told without the enumeration: which records it
    covers, what it writes down of each, and when it can be taken at all. */
module SnapshotMeaning {
  import opened Bytes
  import opened ManifestModel
  import opened Repository
  import opened Snapshot
  import opened SnapshotMembers
  import opened SnapshotPaths

  /** The stamp's own files, which only the snapshot's root leaves out. */
  predicate IsLeftOut(prefix: Bytes, path: Bytes) {
    prefix == [] && (path == ".tydence/manifest" || ".tydence/tokens/" <= path)
  }

  /** A file the snapshot lists: no directory, no submodule, not left out. */
  predicate IsListed(prefix: Bytes, r: Record) {
    r.mode / 0x1000 % 0x10 != 4 && r.mode != 0xE000 && !IsLeftOut(prefix, r.path)
  }

  predicate IsSubmodule(prefix: Bytes, r: Record) {
    r.mode == 0xE000 && !IsLeftOut(prefix, r.path)
  }

  /** The written mode spells the raw bits. */
  predicate Spells(mode: FileMode, bits: nat) {
    var digits := ModeText(mode);
    (forall i | 0 <= i < |digits| :: '0' <= digits[i] <= '7') && OctalValue(digits) == bits
  }

  /** The entry states the record's path below the prefix, its mode bits, and
      the size and hashes of its content. */
  ghost predicate Records(world: World, prefix: Bytes, r: Record, e: Entry) {
    && r.blob.Some?
    && e.path == prefix + r.path && Spells(e.mode, r.mode)
    && e.size == |r.blob.value| && e.contentHashes == world.hash(r.blob.value)
  }

  /** The tree's gitlink leads to the child: through the text of its
      `.gitmodules`, into a repository, and to no tree above. */
  ghost predicate Leads(world: World, parent: PlacedTree, link: Record, child: PlacedTree)
    requires parent.place in world.trees
  {
    exists m | m in world.trees[parent.place] ::
      && m.mode / 0x1000 % 0x10 == 8 && m.path == ".gitmodules" && m.blob.Some?
      && world.resolve(parent.place.repository, m.blob.value, link.path, link.commit) == Some(child.place)
      && child.place.tree !in parent.ancestors && child.ancestors == parent.ancestors + [child.place.tree]
      && child.pathPrefix == parent.pathPrefix + link.path + "/"
  }

  ghost predicate IsBelowBy(world: World, parent: PlacedTree, child: PlacedTree) {
    parent.place in world.trees
    && exists link | link in world.trees[parent.place] ::
         IsSubmodule(parent.pathPrefix, link) && Leads(world, parent, link, child)
  }

  /** A way down from a tree, submodule by submodule. */
  ghost predicate IsDescent(world: World, tree: PlacedTree, way: seq<PlacedTree>) {
    && way != [] && way[0] == tree
    && forall i | 0 < i < |way| :: IsBelowBy(world, way[i - 1], way[i])
  }

  /** A record of a tree the way ends in. */
  ghost predicate EndsWithRecord(world: World, way: seq<PlacedTree>, e: Entry) {
    way != [] && var last := way[|way| - 1];
                 last.place in world.trees
                 && exists r | r in world.trees[last.place] ::
                      IsListed(last.pathPrefix, r) && Records(world, last.pathPrefix, r, e)
  }

  /** Everything in the tree itself can be recorded and followed. */
  ghost predicate IsSound(world: World, tree: PlacedTree) {
    && tree.place in world.trees
    && (forall r | r in world.trees[tree.place] && IsListed(tree.pathPrefix, r) ::
          r.blob.Some? && |r.blob.value| < 0x1_0000_0000_0000_0000 && exists mode :: Spells(mode, r.mode))
    && (forall link | link in world.trees[tree.place] && IsSubmodule(tree.pathPrefix, link) ::
          exists child :: Leads(world, tree, link, child))
  }

  // ----- one tree -----

  lemma ListedExact(prefix: Bytes, r: Record)
    ensures IsOwn(prefix, r) <==> IsListed(prefix, r)
    ensures !IsSkipped(prefix, r) && r.mode == GITLINK_MODE <==> IsSubmodule(prefix, r)
  {
    ArtifactsByName(r.path);
  }

  lemma RecordedExact(world: World, prefix: Bytes, r: Record, e: Entry)
    ensures IsEnumerable(r) && e == EntryOf(world, prefix, r) <==> Records(world, prefix, r, e)
  {
    FileModeExact(r.mode, e.mode);
    hide DecodeFileMode;
  }

  lemma OwnEntriesMean(world: World, prefix: Bytes, records: seq<Record>, e: Entry)
    ensures IsOwnEntry(world, prefix, records, e) <==>
            exists r | r in records :: IsListed(prefix, r) && Records(world, prefix, r, e)
  {
    hide IsListed, Records, IsOwn, IsEnumerable;
    forall r { ListedExact(prefix, r); }
    forall r ensures IsEnumerable(r) && e == EntryOf(world, prefix, r) <==> Records(world, prefix, r, e) {
      RecordedExact(world, prefix, r, e);
    }
  }

  /** In a tree there is one `.gitmodules` to find. */
  lemma GitmodulesIsOnly(records: seq<Record>, m: Record)
    requires IsTree(records) && m in records && IsBlobMode(m.mode) && m.path == GITMODULES_PATH
    ensures FindGitmodules(records) == Some(m)
  {
    var found := FindGitmodules(records).value;
    var i :| 0 <= i < |records| && records[i] == m;
    var j :| 0 <= j < |records| && records[j] == found;
  }

  /** A gitlink resolves to a child exactly when it leads there. */
  lemma LeadsExact(world: World, parent: PlacedTree, link: Record, child: PlacedTree)
    requires parent.place in world.trees && IsTree(world.trees[parent.place])
    ensures var records := world.trees[parent.place];
            var modules := FindGitmodules(records);
            Leads(world, parent, link, child) <==>
            modules.Some? && modules.value.blob.Some?
            && ResolveGitlink(world, parent, modules.value.blob, link) == Ok(child)
  {
    hide FindGitmodules, IsTree;
    var records := world.trees[parent.place];
    if m :| m in records && m.mode / 0x1000 % 0x10 == 8 && m.path == ".gitmodules" && m.blob.Some?
            && world.resolve(parent.place.repository, m.blob.value, link.path, link.commit) == Some(child.place)
            && child.place.tree !in parent.ancestors && child.ancestors == parent.ancestors + [child.place.tree]
            && child.pathPrefix == parent.pathPrefix + link.path + "/"
    {
      GitmodulesIsOnly(records, m);
    }
  }

  lemma ChildrenByLinks(world: World, tree: PlacedTree, records: seq<Record>, links: seq<Record>)
    requires tree.place in world.trees && IsTree(records) && records == world.trees[tree.place]
    requires links == Gitlinks(tree.pathPrefix, records)
    ensures var children := Children(world, tree, records);
            && (children.Ok? <==> forall link | link in links :: exists child :: Leads(world, tree, link, child))
            && (children.Ok? ==>
                  forall c :: c in children.value <==> exists link | link in links :: Leads(world, tree, link, c))
  {
    hide IsTree, FindGitmodules, ResolveGitlink, Leads, Gitlinks, ResolveAll, Children;
    var modules := FindGitmodules(records);
    var text := if modules.Some? then modules.value.blob else None;
    ResolveAllExact(world, tree, text, links);
    forall link, child
      ensures Leads(world, tree, link, child) <==> text.Some? && ResolveGitlink(world, tree, text, link) == Ok(child)
    {
      LeadsExact(world, tree, link, child);
    }
    if links != [] { assert links[0] in links; }
    if text.None? { NoModulesNoChild(world, tree, links); }
    ChildrenAre(world, tree, records);
  }

  /** The children of a tree are the trees its submodules lead to, and there
      are some for all of them exactly when each leads somewhere. */
  lemma ChildrenMean(world: World, tree: PlacedTree)
    requires tree.place in world.trees && IsTree(world.trees[tree.place])
    ensures var records := world.trees[tree.place];
            var children := Children(world, tree, records);
            && (children.Ok? <==> forall link | link in records && IsSubmodule(tree.pathPrefix, link) ::
                  exists child :: Leads(world, tree, link, child))
            && (children.Ok? ==> forall c :: c in children.value <==> IsBelowBy(world, tree, c))
  {
    hide IsTree, Leads, IsSubmodule, Gitlinks, Children, IsSkipped;
    var records := world.trees[tree.place];
    var links := Gitlinks(tree.pathPrefix, records);
    GitlinksExact(tree.pathPrefix, records);
    forall link ensures link in links <==> link in records && IsSubmodule(tree.pathPrefix, link) {
      ListedExact(tree.pathPrefix, link);
    }
    ChildrenByLinks(world, tree, records, links);
  }

  lemma ChildrenAre(world: World, tree: PlacedTree, records: seq<Record>)
    ensures var links, modules := Gitlinks(tree.pathPrefix, records), FindGitmodules(records);
            Children(world, tree, records) ==
            if links == [] then Ok([])
            else if modules.Some? && modules.value.blob.None? then Err(ObjectAccess(modules.value.path))
            else ResolveAll(world, tree, if modules.Some? then modules.value.blob else None, links)
  {
  }

  lemma NoModulesNoChild(world: World, tree: PlacedTree, links: seq<Record>)
    ensures forall link :: ResolveGitlink(world, tree, None, link).Err?
    ensures links == [] ==> ResolveAll(world, tree, None, links) == Ok([])
  {
  }

  // ----- the whole snapshot -----

  lemma DescentStep(world: World, tree: PlacedTree, child: PlacedTree, way: seq<PlacedTree>)
    requires IsBelowBy(world, tree, child) && IsDescent(world, child, way)
    ensures IsDescent(world, tree, [tree] + way)
  {
    hide IsBelowBy;
    var longer := [tree] + way;
    forall i | 0 < i < |longer| ensures IsBelowBy(world, longer[i - 1], longer[i]) {
      if i > 1 { assert longer[i - 1] == way[i - 2] && longer[i] == way[i - 1]; }
    }
  }

  lemma DescentTail(world: World, tree: PlacedTree, way: seq<PlacedTree>)
    requires IsDescent(world, tree, way) && |way| > 1
    ensures IsBelowBy(world, tree, way[1]) && IsDescent(world, way[1], way[1..])
  {
    hide IsBelowBy;
    var rest := way[1..];
    assert IsBelowBy(world, way[0], way[1]);
    forall i | 0 < i < |rest| ensures IsBelowBy(world, rest[i - 1], rest[i]) {
      assert IsBelowBy(world, way[i], way[i + 1]);
    }
  }

  lemma BelowRanks(world: World, tree: PlacedTree, child: PlacedTree)
    requires IsBelowBy(world, tree, child)
    ensures Rank(world, child) < Rank(world, tree)
  {
    hide Rank;
    ChildRank(world, tree, child);
  }

  /** A snapshot lists an entry exactly when some way down ends in a tree with
      a record it states. */
  lemma {:induction false} EntriesMean(world: World, tree: PlacedTree, e: Entry)
    requires TreesAreTrees(world) && Enumerate(world, tree).Ok?
    ensures e in Enumerate(world, tree).value <==>
            exists way :: IsDescent(world, tree, way) && EndsWithRecord(world, way, e)
    decreases Rank(world, tree)
  {
    hide IsTree, Rank, IsBelowBy, IsOwnEntry, AllEnumerate, OwnEntries, Children, IsListed, Records;
    assert tree.place in world.trees by { EnumeratesAStoredTree(world, tree); }
    var records := world.trees[tree.place];
    TreeExact(world, tree);
    ChildrenMean(world, tree);
    OwnEntriesMean(world, tree.pathPrefix, records, e);
    hide Enumerate;
    var children := Children(world, tree, records).value;
    if IsOwnEntry(world, tree.pathPrefix, records, e) {
      assert IsDescent(world, tree, [tree]) && EndsWithRecord(world, [tree], e);
    }
    if IsEntryOfSome(world, children, e) {
      var child :| child in children && Enumerate(world, child).Ok? && e in Enumerate(world, child).value;
      BelowRanks(world, tree, child);
      EntriesMean(world, child, e);
      var way :| IsDescent(world, child, way) && EndsWithRecord(world, way, e);
      DescentStep(world, tree, child, way);
      assert EndsWithRecord(world, [tree] + way, e);
    }
    if way :| IsDescent(world, tree, way) && EndsWithRecord(world, way, e) {
      if |way| > 1 {
        DescentTail(world, tree, way);
        assert way[1] in children;
        ChildEnumerates(world, children, way[1]);
        BelowRanks(world, tree, way[1]);
        assert EndsWithRecord(world, way[1..], e);
        EntriesMean(world, way[1], e);
      }
    }
  }

  lemma ChildEnumerates(world: World, children: seq<PlacedTree>, child: PlacedTree)
    requires AllEnumerate(world, children) && child in children
    ensures Enumerate(world, child).Ok?
  {
    hide Enumerate;
  }

  lemma EnumeratesAStoredTree(world: World, tree: PlacedTree)
    requires Enumerate(world, tree).Ok?
    ensures tree.place in world.trees
  {
  }

  /** A snapshot can be taken exactly when every way down ends in a sound
      tree. */
  lemma {:induction false} TakenExactly(world: World, tree: PlacedTree)
    requires TreesAreTrees(world)
    ensures Enumerate(world, tree).Ok? <==> forall way | IsDescent(world, tree, way) :: IsSound(world, way[|way| - 1])
    decreases Rank(world, tree)
  {
    hide IsTree, Rank, IsBelowBy, IsSound, OwnEntries, Children;
    assert IsDescent(world, tree, [tree]) && [tree][|[tree]| - 1] == tree;
    if tree.place !in world.trees {
      assert !IsSound(world, tree) by { SoundIsStored(world, tree); }
      assert Enumerate(world, tree).Err? by { if Enumerate(world, tree).Ok? { EnumeratesAStoredTree(world, tree); } }
    } else {
      TreeExact(world, tree);
      SoundExact(world, tree);
      ChildrenMean(world, tree);
      hide Enumerate;
      if Enumerate(world, tree).Ok? {
        forall way | IsDescent(world, tree, way) ensures IsSound(world, way[|way| - 1]) {
          if |way| > 1 {
            DescentTail(world, tree, way);
            BelowRanks(world, tree, way[1]);
            TakenExactly(world, way[1]);
            assert way[1..][|way[1..]| - 1] == way[|way| - 1];
          }
        }
      }
      if forall way | IsDescent(world, tree, way) :: IsSound(world, way[|way| - 1]) {
        var children := Children(world, tree, world.trees[tree.place]).value;
        forall child | child in children ensures Enumerate(world, child).Ok? {
          BelowRanks(world, tree, child);
          TakenExactly(world, child);
          forall way | IsDescent(world, child, way) ensures IsSound(world, way[|way| - 1]) {
            DescentStep(world, tree, child, way);
            var longer := [tree] + way;
            assert longer[|longer| - 1] == way[|way| - 1];
          }
        }
      }
    }
  }

  lemma SoundIsStored(world: World, tree: PlacedTree)
    ensures IsSound(world, tree) ==> tree.place in world.trees
  {
  }

  lemma SoundExact(world: World, tree: PlacedTree)
    requires tree.place in world.trees && IsTree(world.trees[tree.place])
    ensures IsSound(world, tree) <==>
            OwnEntries(world, tree.pathPrefix, world.trees[tree.place]).Ok?
            && Children(world, tree, world.trees[tree.place]).Ok?
  {
    hide IsTree, OwnEntries, Children, IsListed, IsSubmodule, Leads, IsOwn, IsEnumerable, Spells;
    var records := world.trees[tree.place];
    OwnExact(world, tree.pathPrefix, records);
    ChildrenMean(world, tree);
    forall r | r in records && IsOwn(tree.pathPrefix, r)
      ensures IsListed(tree.pathPrefix, r) && (IsEnumerable(r) <==>
                r.blob.Some? && |r.blob.value| < 0x1_0000_0000_0000_0000 && exists mode :: Spells(mode, r.mode))
    {
      ListedExact(tree.pathPrefix, r);
      EnumerableExact(r);
    }
    forall r | r in records && IsListed(tree.pathPrefix, r) ensures IsOwn(tree.pathPrefix, r) {
      ListedExact(tree.pathPrefix, r);
    }
  }

  lemma SpellsExact(bits: nat, mode: FileMode)
    ensures DecodeFileMode(bits) == Some(mode) <==> Spells(mode, bits)
  {
    FileModeExact(bits, mode);
  }

  lemma EnumerableExact(r: Record)
    ensures IsEnumerable(r) <==>
            r.blob.Some? && |r.blob.value| < 0x1_0000_0000_0000_0000 && exists mode :: Spells(mode, r.mode)
  {
    hide Spells, DecodeFileMode;
    forall mode ensures DecodeFileMode(r.mode) == Some(mode) <==> Spells(mode, r.mode) { SpellsExact(r.mode, mode); }
    if mode :| Spells(mode, r.mode) { assert DecodeFileMode(r.mode) == Some(mode); }
  }

  // ----- failures -----

  /** The tree's `.gitmodules`, as far as it can be read. */
  ghost predicate HasModules(records: seq<Record>, text: Bytes) {
    exists m | m in records :: m.mode / 0x1000 % 0x10 == 8 && m.path == ".gitmodules" && m.blob == Some(text)
  }

  ghost predicate IsLinkFault(world: World, tree: PlacedTree, link: Record, error: SnapshotError)
    requires tree.place in world.trees
  {
    var records := world.trees[tree.place];
    match error
    case MissingGitmodules(path) =>
      path == tree.pathPrefix + link.path
      && forall m | m in records :: !(m.mode / 0x1000 % 0x10 == 8 && m.path == ".gitmodules")
    case UnresolvedGitlink(path) =>
      path == tree.pathPrefix + link.path
      && exists text :: HasModules(records, text)
                        && world.resolve(tree.place.repository, text, link.path, link.commit) == None
    case GitlinkCycle(path) =>
      path == tree.pathPrefix + link.path
      && exists text, place: Place :: HasModules(records, text) && place.tree in tree.ancestors
                               && world.resolve(tree.place.repository, text, link.path, link.commit) == Some(place)
    case _ => false
  }

  ghost predicate IsFileFault(prefix: Bytes, r: Record, error: SnapshotError) {
    match error
    case UnsupportedMode(path, bits) => path == prefix + r.path && bits == r.mode && forall mode :: !Spells(mode, bits)
    case ObjectAccess(path) =>
      path == prefix + r.path && (r.blob.None? || |r.blob.value| >= 0x1_0000_0000_0000_0000)
    case _ => false
  }

  /** What is wrong with a tree: it is not stored, a file or a submodule of it
      is at fault, or its `.gitmodules` cannot be read. */
  ghost predicate IsTreeFault(world: World, tree: PlacedTree, error: SnapshotError) {
    if tree.place !in world.trees then error == ObjectAccess(tree.pathPrefix)
    else
      || (exists r | r in world.trees[tree.place] ::
            IsListed(tree.pathPrefix, r) && IsFileFault(tree.pathPrefix, r, error))
      || (exists link | link in world.trees[tree.place] ::
            IsSubmodule(tree.pathPrefix, link) && IsLinkFault(world, tree, link, error))
      || (error == ObjectAccess(".gitmodules")
          && exists m | m in world.trees[tree.place] ::
               m.mode / 0x1000 % 0x10 == 8 && m.path == ".gitmodules" && m.blob.None?)
  }

  lemma {:induction false} OwnFault(world: World, prefix: Bytes, records: seq<Record>) returns (r: Record)
    requires OwnEntries(world, prefix, records).Err?
    ensures r in records && IsListed(prefix, r) && IsFileFault(prefix, r, OwnEntries(world, prefix, records).error)
  {
    hide IsListed, IsSkipped, Spells, DecodeFileMode;
    r := records[0];
    ListedExact(prefix, r);
    if IsOwn(prefix, r) && (DecodeFileMode(r.mode).None? || r.blob.None? || |r.blob.value| >= 0x1_0000_0000_0000_0000) {
      forall mode ensures DecodeFileMode(r.mode) == Some(mode) <==> Spells(mode, r.mode) { SpellsExact(r.mode, mode); }
    } else {
      r := OwnFault(world, prefix, records[1..]);
    }
  }

  lemma {:induction false} LinkFault(world: World, tree: PlacedTree, modules: Option<Record>, links: seq<Record>)
    returns (link: Record)
    requires tree.place in world.trees && modules == FindGitmodules(world.trees[tree.place])
    requires modules.Some? ==> modules.value.blob.Some?
    requires ResolveAll(world, tree, if modules.Some? then modules.value.blob else None, links).Err?
    ensures link in links
    ensures IsLinkFault(world, tree, link,
                        ResolveAll(world, tree, if modules.Some? then modules.value.blob else None, links).error)
  {
    link := links[0];
    var text := if modules.Some? then modules.value.blob else None;
    if modules.Some? { assert HasModules(world.trees[tree.place], text.value); }
    if ResolveGitlink(world, tree, text, link).Ok? {
      hide ResolveGitlink, FindGitmodules, IsLinkFault;
      link := LinkFault(world, tree, modules, links[1..]);
    }
  }

  /** Traversing one tree fails for what is wrong with it. */
  lemma TraverseFault(world: World, sink: seq<Entry>, tree: PlacedTree)
    requires TraverseSpec(world, sink, tree).Err?
    ensures IsTreeFault(world, tree, TraverseSpec(world, sink, tree).error)
  {
    hide OwnEntries, IsListed, IsSubmodule, IsFileFault, IsLinkFault, FindGitmodules, ResolveAll;
    if tree.place in world.trees {
      var records := world.trees[tree.place];
      if OwnEntries(world, tree.pathPrefix, records).Err? {
        var r := OwnFault(world, tree.pathPrefix, records);
      } else {
        var modules := FindGitmodules(records);
        FoundModules(records);
        if modules.None? || modules.value.blob.Some? {
          var links := Gitlinks(tree.pathPrefix, records);
          var link := LinkFault(world, tree, modules, links);
          ListedExact(tree.pathPrefix, link);
        }
      }
    }
  }

  lemma FoundModules(records: seq<Record>)
    ensures var found := FindGitmodules(records);
            found.Some? ==> found.value in records && found.value.mode / 0x1000 % 0x10 == 8
                            && found.value.path == ".gitmodules"
  {
  }

  /** Where a descent that begins at one of several trees can lead. */
  ghost predicate IsReachedFrom(world: World, trees: seq<PlacedTree>, tree: PlacedTree) {
    exists start, way | start in trees :: IsDescent(world, start, way) && way[|way| - 1] == tree
  }

  /** A run fails for what is wrong with a tree it reaches. */
  lemma {:induction false} RunFault(world: World, sink: seq<Entry>, queue: seq<PlacedTree>) returns (at: PlacedTree)
    requires TreesAreTrees(world) && Drained(world, sink, queue).Err?
    ensures IsReachedFrom(world, queue, at) && IsTreeFault(world, at, Drained(world, sink, queue).error)
    decreases Pending(world, queue)
  {
    hide IsTree, IsBelowBy, IsTreeFault, OwnEntries, Children, Pending;
    var step := TraverseSpec(world, sink, queue[0]);
    assert [queue[0]] + queue[1..] == queue;
    if step.Err? {
      at := queue[0];
      TraverseFault(world, sink, at);
      assert IsDescent(world, at, [at]) && [at][|[at]| - 1] == at;
    } else {
      PopAndPush(world, queue[0], queue[1..]);
      var waiting := queue[1..] + step.value.1;
      at := RunFault(world, step.value.0, waiting);
      var start, way :| start in waiting && IsDescent(world, start, way) && way[|way| - 1] == at;
      if start !in queue[1..] {
        ChildrenMean(world, queue[0]);
        DescentStep(world, queue[0], start, way);
        var longer := [queue[0]] + way;
        assert longer[|longer| - 1] == at;
      }
    }
  }
}
