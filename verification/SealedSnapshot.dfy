/** What sealing does to the snapshot: it drops the entries standing where the
    stamp's own artifacts go, and changes nothing else. */
module SealedSnapshot {
  import opened Bytes
  import opened ManifestModel
  import opened Repository
  import opened Claims
  import opened Acquire
  import opened Snapshot
  import opened SnapshotMembers
  import opened Seal
  import SnapshotPaths

  /** A path of the snapshot that sealing displaces: at or below the token
      directory, or below the manifest's path. Only entries the exclusion of
      section 4.2 does not cover can have one. */
  predicate IsDisplaced(path: Bytes) {
    path == TOKENS_PATH || IsBelow(TOKENS_PATH, path) || IsBelow(MANIFEST_PATH, path)
  }

  // ----- the root's records -----

  /** The sealed root lists what the content root does, less what is lost,
      as far as the snapshot looks at either. */
  ghost predicate KeepsSurvivors(content: seq<Record>, sealed: seq<Record>) {
    forall r: Record | !IsTreeMode(r.mode) && !IsStampArtifact(r.path) ::
      r in sealed <==> r in content && !IsLost(r.path)
  }

  lemma SealedListsSurvivors(content: seq<Record>, files: Files, manifestBytes: Bytes, tokens: seq<AcquiredToken>,
          sealed: seq<Record>)
    requires Lists(content, files) && CONFIG_PATH in files && ArePlainSites(tokens)
    requires Lists(sealed, SealedTree(files, manifestBytes, tokens))
    ensures KeepsSurvivors(content, sealed)
  {
    ListedAreFiles(content, files);
    hide SealedTree, IsTree, IsStampArtifact, IsLost, IsFiles, ArePlainSites;
    forall r: Record | !IsTreeMode(r.mode) && !IsStampArtifact(r.path)
      ensures r in sealed <==> r in content && !IsLost(r.path)
    {
      SealedHolds(files, manifestBytes, tokens, r.path);
      if Seals(tokens, r.path) { SealedPathIsArtifact(tokens, r.path); }
      ManifestIsArtifact();
    }
  }

  lemma ManifestIsArtifact()
    ensures IsStampArtifact(MANIFEST_PATH)
  {
  }

  lemma SealedPathIsArtifact(tokens: seq<AcquiredToken>, path: Bytes)
    requires Seals(tokens, path)
    ensures IsStampArtifact(path)
  {
    hide TokenPath;
    var t :| t in tokens && path == TokenPath(t.siteName);
    BelowTokenPath(t.siteName, path);
  }

  lemma OwnEntriesSealed(world: World, content: seq<Record>, sealed: seq<Record>, e: Entry)
    requires KeepsSurvivors(content, sealed)
    ensures IsOwnEntry(world, [], sealed, e) <==> IsOwnEntry(world, [], content, e) && !IsDisplaced(e.path)
    ensures AllEnumerable([], content) ==> AllEnumerable([], sealed)
  {
    hide IsBelow, DecodeFileMode, IsTreeMode;
    forall r: Record ensures [] + r.path == r.path {}
    forall r | IsOwn([], r) ensures IsDisplaced(r.path) <==> IsLost(r.path) {}
    if IsOwnEntry(world, [], content, e) && !IsDisplaced(e.path) {
      var r :| r in content && IsOwn([], r) && IsEnumerable(r) && e == EntryOf(world, [], r);
      assert r in sealed;
    }
    if IsOwnEntry(world, [], sealed, e) {
      var r :| r in sealed && IsOwn([], r) && IsEnumerable(r) && e == EntryOf(world, [], r);
      assert r in content;
    }
  }

  lemma GitmodulesSealed(content: seq<Record>, sealed: seq<Record>)
    requires KeepsSurvivors(content, sealed) && IsTree(content) && IsTree(sealed)
    ensures FindGitmodules(sealed) == FindGitmodules(content)
  {
    assert !IsStampArtifact(GITMODULES_PATH) && !IsLost(GITMODULES_PATH);
    hide IsStampArtifact, IsLost;
    if FindGitmodules(content).Some? {
      var r := FindGitmodules(content).value;
      assert r in sealed;
      var found := FindGitmodules(sealed).value;
      FoundIsOnly(sealed, r);
      FoundIsOnly(sealed, found);
    }
    if FindGitmodules(sealed).Some? {
      assert FindGitmodules(sealed).value in content;
    }
  }

  // ----- the root's submodules -----

  /** The `.gitmodules` text a tree's gitlinks resolve with. */
  function Modules(records: seq<Record>): Option<Bytes> {
    match FindGitmodules(records) case None => None case Some(r) => r.blob
  }

  lemma ChildrenAreResolved(world: World, parent: PlacedTree, records: seq<Record>)
    requires Children(world, parent, records).Ok?
    ensures Children(world, parent, records) ==
            ResolveAll(world, parent, Modules(records), Gitlinks(parent.pathPrefix, records))
  {
  }

  /** A gitlink of the content root leads to this child. */
  ghost predicate LeadsTo(world: World, base: Place, records: seq<Record>, link: Record, child: PlacedTree) {
    && link in records && !IsSkipped([], link) && link.mode == GITLINK_MODE
    && ResolveGitlink(world, Root(base), Modules(records), link) == Ok(child)
  }

  lemma ChildrenExact(world: World, base: Place, records: seq<Record>, child: PlacedTree)
    requires Children(world, Root(base), records).Ok?
    ensures child in Children(world, Root(base), records).value <==>
            exists link :: LeadsTo(world, base, records, link, child)
  {
    hide ResolveGitlink, IsSkipped, Children;
    var links := Gitlinks([], records);
    ChildrenAreResolved(world, Root(base), records);
    GitlinksExact([], records);
    ResolveAllExact(world, Root(base), Modules(records), links);
    if child in Children(world, Root(base), records).value {
      var link :| link in links && ResolveGitlink(world, Root(base), Modules(records), link) == Ok(child);
      assert LeadsTo(world, base, records, link, child);
    }
  }

  lemma LinkSealed(earlier: World, later: World, base: Place, sealed: Place, modules: Option<Bytes>, link: Record)
    requires Extends(later, earlier) && base.repository == sealed.repository
    requires ResolveGitlink(earlier, Root(base), modules, link).Ok?
    requires ResolveGitlink(earlier, Root(base), modules, link).value.place.tree != sealed.tree
    ensures ResolveGitlink(later, Root(sealed), modules, link) ==
            Ok(Rerooted(ResolveGitlink(earlier, Root(base), modules, link).value, sealed.tree))
  {
    ResolveRerooted(earlier, later, Root(base), sealed.tree, modules, link);
    assert [sealed.tree] + [base.tree][1..] == [sealed.tree];
  }

  /** Content and sealed root, and the circumstances in which a fresh stamp
      is audited. */
  ghost predicate IsResealed(earlier: World, later: World, base: Place, sealed: Place) {
    && Extends(later, earlier) && base.repository == sealed.repository
    && base in earlier.trees && sealed in later.trees
    && SnapshotPaths.TreesAreTrees(earlier) && SnapshotPaths.TreesAreTrees(later)
    && IsTree(earlier.trees[base]) && IsTree(later.trees[sealed])
    && KeepsSurvivors(earlier.trees[base], later.trees[sealed])
    && HoldsFile(earlier.trees[base], CONFIG_PATH)
    && Enumerate(earlier, Root(base)).Ok? && !Meets(earlier, Root(base), sealed.tree)
  }

  /** What a successful enumeration of a root consists of. */
  lemma RootExact(world: World, root: Place)
    requires root in world.trees
    ensures var records := world.trees[root];
            && (Enumerate(world, Root(root)).Ok? <==>
                  && OwnEntries(world, [], records).Ok? && Children(world, Root(root), records).Ok?
                  && AllEnumerate(world, Children(world, Root(root), records).value))
            && (Enumerate(world, Root(root)).Ok? ==> forall e :: e in Enumerate(world, Root(root)).value <==>
                  IsOwnEntry(world, [], records, e)
                  || IsEntryOfSome(world, Children(world, Root(root), records).value, e))
  {
    hide AllEnumerate, IsEntryOfSome, IsOwnEntry, Enumerate, OwnEntries, Children;
    TreeExact(world, Root(root));
  }

  lemma SealedResolves(earlier: World, later: World, base: Place, sealed: Place, link: Record)
    requires IsResealed(earlier, later, base, sealed)
    requires link in later.trees[sealed] && !IsSkipped([], link) && link.mode == GITLINK_MODE
    ensures Children(earlier, Root(base), earlier.trees[base]).Ok?
    ensures exists child :: LeadsTo(earlier, base, earlier.trees[base], link, child) && child.ancestors != []
                            && LeadsTo(later, sealed, later.trees[sealed], link, Rerooted(child, sealed.tree))
  {
    hide IsTree, Enumerate, Children, ResolveGitlink, Meets, IsStampArtifact, HoldsFile, Extends, Rerooted;
    var content := earlier.trees[base];
    RootExact(earlier, base);
    GitmodulesSealed(content, later.trees[sealed]);
    GitlinksExact([], content);
    ChildrenAreResolved(earlier, Root(base), content);
    ResolveAllExact(earlier, Root(base), Modules(content), Gitlinks([], content));
    assert link in content;
    var child := ResolveGitlink(earlier, Root(base), Modules(content), link).value;
    assert LeadsTo(earlier, base, content, link, child);
    ChildrenExact(earlier, base, content, child);
    MeetsBelow(earlier, Root(base), sealed.tree, child);
    LinkSealed(earlier, later, base, sealed, Modules(content), link);
    assert LeadsTo(later, sealed, later.trees[sealed], link, Rerooted(child, sealed.tree));
  }

  lemma ChildrenSealed(earlier: World, later: World, base: Place, sealed: Place)
    requires IsResealed(earlier, later, base, sealed)
    ensures Children(later, Root(sealed), later.trees[sealed]).Ok?
  {
    hide IsTree, Enumerate, ResolveGitlink, Meets, IsStampArtifact, HoldsFile, Extends, Rerooted, ResolveAll,
         IsSkipped, LeadsTo;
    var content, records := earlier.trees[base], later.trees[sealed];
    var links := Gitlinks([], records);
    GitlinksExact([], records);
    GitlinksExact([], content);
    GitmodulesSealed(content, records);
    RootExact(earlier, base);
    forall l | l in links ensures ResolveGitlink(later, Root(sealed), Modules(records), l).Ok? {
      SealedResolves(earlier, later, base, sealed, l);
      var child :| LeadsTo(earlier, base, content, l, child) && child.ancestors != []
                   && LeadsTo(later, sealed, records, l, Rerooted(child, sealed.tree));
      LeadsResolves(later, sealed, records, l, Rerooted(child, sealed.tree));
    }
    ResolveAllExact(later, Root(sealed), Modules(records), links);
    if links != [] {
      assert links[0] in links;
      NotSkippedSurvives(content, records, links[0]);
      assert links[0] in Gitlinks([], content);
    }
  }

  lemma LeadsResolves(world: World, base: Place, records: seq<Record>, link: Record, child: PlacedTree)
    requires LeadsTo(world, base, records, link, child)
    ensures ResolveGitlink(world, Root(base), Modules(records), link) == Ok(child)
  {
  }

  lemma NotSkippedSurvives(content: seq<Record>, sealed: seq<Record>, r: Record)
    requires KeepsSurvivors(content, sealed) && !IsSkipped([], r)
    ensures r in sealed <==> r in content && !IsLost(r.path)
  {
  }

  // ----- what stands below a gitlink -----

  /** An entry below a gitlink is displaced exactly when the gitlink is lost. */
  lemma DisplacedWithItsLink(content: seq<Record>, link: Record, path: Bytes)
    requires IsTree(content) && HoldsFile(content, CONFIG_PATH)
    requires link in content && !IsSkipped([], link) && SnapshotPaths.IsUnder(link.path + "/", path)
    ensures IsDisplaced(path) <==> IsLost(link.path)
  {
    NotAboveConfig(content, link);
    UnderIsBelow(link.path, path);
    BelowBoth(link.path, TOKENS_PATH, path);
    BelowBoth(link.path, MANIFEST_PATH, path);
    if IsBelow(link.path, TOKENS_PATH) { OnlyDirectoryAbove(link.path, TOKENS_PATH); }
    if IsBelow(link.path, MANIFEST_PATH) { OnlyDirectoryAbove(link.path, MANIFEST_PATH); }
  }

  lemma NotAboveConfig(content: seq<Record>, link: Record)
    requires IsTree(content) && HoldsFile(content, CONFIG_PATH)
    requires link in content && !IsTreeMode(link.mode)
    ensures link.path != ARTIFACT_DIRECTORY
  {
    var config :| config in content && !IsTreeMode(config.mode) && config.path == CONFIG_PATH;
    var i :| 0 <= i < |content| && content[i] == config;
    var j :| 0 <= j < |content| && content[j] == link;
    assert CONFIG_PATH[..8] == ARTIFACT_DIRECTORY;
    assert IsBelow(ARTIFACT_DIRECTORY, CONFIG_PATH);
  }

  lemma UnderIsBelow(link: Bytes, path: Bytes)
    requires SnapshotPaths.IsUnder(link + "/", path)
    ensures IsBelow(link, path)
  {
    assert path[..|link| + 1] == link + "/";
    assert path[..|link|] == path[..|link| + 1][..|link|] == link;
    assert path[|link|] == path[..|link| + 1][|link|];
  }

  /** Two directories above one path are nested or equal. */
  lemma BelowBoth(a: Bytes, b: Bytes, path: Bytes)
    requires IsBelow(a, path)
    ensures path == b ==> IsBelow(a, b)
    ensures IsBelow(b, path) ==> a == b || IsBelow(a, b) || IsBelow(b, a)
    ensures a == b || IsBelow(b, a) ==> IsBelow(b, path)
  {
    if IsBelow(b, path) {
      if |a| < |b| {
        assert b[..|a|] == path[..|b|][..|a|] == path[..|a|];
        assert b[|a|] == path[..|b|][|a|];
      } else {
        assert a[..|b|] == path[..|a|][..|b|] == path[..|b|];
        if |b| < |a| { assert a[|b|] == path[..|a|][|b|]; }
      }
    }
    if IsBelow(b, a) {
      assert path[..|b|] == path[..|a|][..|b|];
      assert path[|b|] == path[..|a|][|b|];
    }
  }

  lemma OnlyDirectoryAbove(directory: Bytes, path: Bytes)
    requires path == TOKENS_PATH || path == MANIFEST_PATH
    requires IsBelow(directory, path)
    ensures directory == ARTIFACT_DIRECTORY
  {
    if path == MANIFEST_PATH { ManifestParents(directory); }
    assert forall i | 0 <= i < |TOKENS_PATH| && TOKENS_PATH[i] == '/' :: i == 8;
  }

  /** A child of the content root reads the same below the sealed root. */
  lemma ChildSealed(earlier: World, later: World, base: Place, sealed: Place, link: Record, child: PlacedTree)
    requires IsResealed(earlier, later, base, sealed)
    requires LeadsTo(earlier, base, earlier.trees[base], link, child)
    ensures Children(earlier, Root(base), earlier.trees[base]).Ok?
            && child in Children(earlier, Root(base), earlier.trees[base]).value
    ensures child.ancestors != [] && Enumerate(earlier, child).Ok?
    ensures Enumerate(later, Rerooted(child, sealed.tree)) == Enumerate(earlier, child)
    ensures forall e | e in Enumerate(earlier, child).value :: IsDisplaced(e.path) <==> IsLost(link.path)
  {
    hide IsTree, Enumerate, Children, Meets, IsStampArtifact, HoldsFile, Extends, Rerooted, IsDisplaced, IsLost,
         KeepsSurvivors, IsSkipped,
         Rank, SnapshotPaths.TreesAreTrees, SnapshotPaths.IsUnder, LeadsTo, AllEnumerate, ResolveGitlink;
    var content := earlier.trees[base];
    RootExact(earlier, base);
    ChildrenExact(earlier, base, content, child);
    ChildAppears(earlier, base, content, link, child);
    EnumeratesEach(earlier, Children(earlier, Root(base), content).value, child);
    MeetsBelow(earlier, Root(base), sealed.tree, child);
    EnumerateRerooted(earlier, later, child, sealed.tree);
    SnapshotPaths.EnumerateDiffers(earlier, child);
    var entries := Enumerate(earlier, child).value;
    forall e | e in entries ensures IsDisplaced(e.path) <==> IsLost(link.path) {
      var i :| 0 <= i < |entries| && entries[i] == e;
      DisplacedWithItsLink(content, link, e.path);
    }
  }

  lemma ChildAppears(world: World, base: Place, records: seq<Record>, link: Record, child: PlacedTree)
    requires LeadsTo(world, base, records, link, child)
    ensures link in records && !IsSkipped([], link) && link.mode == GITLINK_MODE
    ensures child.ancestors != [] && child.pathPrefix == link.path + "/"
  {
    assert [] + link.path == link.path;
  }

  lemma EnumeratesEach(world: World, trees: seq<PlacedTree>, tree: PlacedTree)
    requires AllEnumerate(world, trees) && tree in trees
    ensures Enumerate(world, tree).Ok?
  {
  }

  lemma FromSome(world: World, trees: seq<PlacedTree>, tree: PlacedTree, e: Entry)
    requires tree in trees && Enumerate(world, tree).Ok? && e in Enumerate(world, tree).value
    ensures IsEntryOfSome(world, trees, e)
  {
  }

  lemma SomeFrom(world: World, trees: seq<PlacedTree>, e: Entry) returns (tree: PlacedTree)
    requires IsEntryOfSome(world, trees, e)
    ensures tree in trees && Enumerate(world, tree).Ok? && e in Enumerate(world, tree).value
  {
    tree :| tree in trees && Enumerate(world, tree).Ok? && e in Enumerate(world, tree).value;
  }

  /** Where a child of the sealed root comes from. */
  lemma SealedChildFrom(earlier: World, later: World, base: Place, sealed: Place, below: PlacedTree)
    returns (link: Record, child: PlacedTree)
    requires IsResealed(earlier, later, base, sealed)
    requires Children(later, Root(sealed), later.trees[sealed]).Ok?
             && below in Children(later, Root(sealed), later.trees[sealed]).value
    ensures LeadsTo(earlier, base, earlier.trees[base], link, child) && !IsLost(link.path)
    ensures child.ancestors != [] && below == Rerooted(child, sealed.tree)
  {
    hide IsTree, Enumerate, Children, Meets, IsStampArtifact, HoldsFile, Extends, Rerooted, IsDisplaced, IsLost,
         KeepsSurvivors, IsSkipped, LeadsTo, ResolveGitlink;
    var content, records := earlier.trees[base], later.trees[sealed];
    ChildrenExact(later, sealed, records, below);
    link :| LeadsTo(later, sealed, records, link, below);
    ChildAppears(later, sealed, records, link, below);
    SealedResolves(earlier, later, base, sealed, link);
    child :| LeadsTo(earlier, base, content, link, child) && child.ancestors != []
             && LeadsTo(later, sealed, records, link, Rerooted(child, sealed.tree));
    LeadsResolves(later, sealed, records, link, below);
    LeadsResolves(later, sealed, records, link, Rerooted(child, sealed.tree));
    NotSkippedSurvives(content, records, link);
  }

  /** A child of the content root whose gitlink survives is one of the sealed
      root's. */
  lemma ContentChildStays(earlier: World, later: World, base: Place, sealed: Place, link: Record, child: PlacedTree)
    requires IsResealed(earlier, later, base, sealed)
    requires LeadsTo(earlier, base, earlier.trees[base], link, child) && !IsLost(link.path)
    ensures Children(later, Root(sealed), later.trees[sealed]).Ok? && child.ancestors != []
    ensures Rerooted(child, sealed.tree) in Children(later, Root(sealed), later.trees[sealed]).value
  {
    hide IsTree, Enumerate, Children, Meets, IsStampArtifact, HoldsFile, Extends, Rerooted, IsDisplaced, IsLost,
         KeepsSurvivors, IsSkipped, LeadsTo, ResolveGitlink;
    var content, records := earlier.trees[base], later.trees[sealed];
    ChildAppears(earlier, base, content, link, child);
    NotSkippedSurvives(content, records, link);
    ChildrenSealed(earlier, later, base, sealed);
    SealedResolves(earlier, later, base, sealed, link);
    var other :| LeadsTo(earlier, base, content, link, other) && other.ancestors != []
                 && LeadsTo(later, sealed, records, link, Rerooted(other, sealed.tree));
    LeadsResolves(earlier, base, content, link, child);
    LeadsResolves(earlier, base, content, link, other);
    ChildrenExact(later, sealed, records, Rerooted(child, sealed.tree));
  }

  lemma BelowSealed(earlier: World, later: World, base: Place, sealed: Place, e: Entry)
    requires IsResealed(earlier, later, base, sealed)
    ensures Children(earlier, Root(base), earlier.trees[base]).Ok?
            && Children(later, Root(sealed), later.trees[sealed]).Ok?
    ensures IsEntryOfSome(later, Children(later, Root(sealed), later.trees[sealed]).value, e) <==>
              IsEntryOfSome(earlier, Children(earlier, Root(base), earlier.trees[base]).value, e)
              && !IsDisplaced(e.path)
  {
    hide IsResealed, Enumerate, Children, Rerooted, IsDisplaced, IsLost, LeadsTo, IsEntryOfSome, ResolveGitlink;
    ResealedRoots(earlier, later, base, sealed);
    ChildrenSealed(earlier, later, base, sealed);
    var content, records := earlier.trees[base], later.trees[sealed];
    var before, after := Children(earlier, Root(base), content).value, Children(later, Root(sealed), records).value;
    if IsEntryOfSome(later, after, e) {
      var below := SomeFrom(later, after, e);
      var link, child := SealedChildFrom(earlier, later, base, sealed, below);
      ChildSealed(earlier, later, base, sealed, link, child);
      FromSome(earlier, before, child, e);
    }
    if IsEntryOfSome(earlier, before, e) && !IsDisplaced(e.path) {
      var child := SomeFrom(earlier, before, e);
      ChildrenExact(earlier, base, content, child);
      var link :| LeadsTo(earlier, base, content, link, child);
      ChildSealed(earlier, later, base, sealed, link, child);
      ContentChildStays(earlier, later, base, sealed, link, child);
      FromSome(later, after, Rerooted(child, sealed.tree), e);
    }
  }

  lemma ResealedRoots(earlier: World, later: World, base: Place, sealed: Place)
    requires IsResealed(earlier, later, base, sealed)
    ensures base in earlier.trees && sealed in later.trees && earlier.hash == later.hash
    ensures OwnEntries(earlier, [], earlier.trees[base]).Ok? && Children(earlier, Root(base), earlier.trees[base]).Ok?
  {
    RootExact(earlier, base);
  }

  /** The sealed tree enumerates to exactly the content's entries less those
      displaced by the stamp's own artifacts. */
  lemma SealedEnumerates(earlier: World, later: World, base: Place, sealed: Place)
    requires IsResealed(earlier, later, base, sealed)
    ensures Enumerate(later, Root(sealed)).Ok?
    ensures forall e :: e in Enumerate(later, Root(sealed)).value <==>
              e in Enumerate(earlier, Root(base)).value && !IsDisplaced(e.path)
  {
    hide Children, Rerooted, IsDisplaced, IsLost, IsEntryOfSome, Enumerate, OwnEntries, KeepsSurvivors, IsOwnEntry,
         AllEnumerable, AllEnumerate, LeadsTo;
    var content, records := earlier.trees[base], later.trees[sealed];
    ResealedRoots(earlier, later, base, sealed);
    ChildrenSealed(earlier, later, base, sealed);
    RootExact(earlier, base);
    RootExact(later, sealed);
    OwnExact(earlier, [], content);
    OwnExact(later, [], records);
    AllChildrenEnumerate(earlier, later, base, sealed);
    forall e
      ensures IsOwnEntry(later, [], records, e) <==> IsOwnEntry(earlier, [], content, e) && !IsDisplaced(e.path)
      ensures AllEnumerable([], records)
      ensures IsEntryOfSome(later, Children(later, Root(sealed), records).value, e) <==>
                IsEntryOfSome(earlier, Children(earlier, Root(base), content).value, e) && !IsDisplaced(e.path)
    {
      OwnEntriesSealed(later, content, records, e);
      OwnEntrySame(earlier, later, [], content, e);
      BelowSealed(earlier, later, base, sealed, e);
    }
    OwnEntriesSealed(later, content, records, Entry([], Regular, 0, later.hash([])));
  }

  lemma OwnEntrySame(a: World, b: World, prefix: Bytes, records: seq<Record>, e: Entry)
    requires a.hash == b.hash
    ensures IsOwnEntry(a, prefix, records, e) <==> IsOwnEntry(b, prefix, records, e)
  {
    hide IsOwn, IsEnumerable;
    forall r | IsEnumerable(r) ensures EntryOf(a, prefix, r) == EntryOf(b, prefix, r) {}
  }

  lemma AllChildrenEnumerate(earlier: World, later: World, base: Place, sealed: Place)
    requires IsResealed(earlier, later, base, sealed)
    requires Children(later, Root(sealed), later.trees[sealed]).Ok?
    ensures AllEnumerate(later, Children(later, Root(sealed), later.trees[sealed]).value)
  {
    hide IsResealed, Enumerate, Children, Rerooted, LeadsTo;
    ResealedRoots(earlier, later, base, sealed);
    forall below | below in Children(later, Root(sealed), later.trees[sealed]).value
      ensures Enumerate(later, below).Ok?
    {
      var link, child := SealedChildFrom(earlier, later, base, sealed, below);
      ChildSealed(earlier, later, base, sealed, link, child);
    }
  }
}
