/** The end-to-end theorem: what an audit says of a stamp that was just
    created, whatever else the repository has gained since. */
module FreshStamp {
  import opened Bytes
  import opened Sorting
  import opened Utf8
  import opened PathCodec
  import opened ManifestModel
  import opened ManifestText
  import opened ManifestLines
  import opened ManifestRoundTrip
  import opened Repository
  import opened Snapshot
  import opened SnapshotMembers
  import opened SealedSnapshot
  import opened Seal
  import opened Claims
  import opened Binding
  import opened StampVerdict
  import opened Create
  import opened Audit
  import Acquire
  import Bind
  import BindingOrder
  import Config
  import ConfigBlocks
  import ManifestReader
  import SnapshotPaths
  import TreeAgreement

  // ----- the sites of the acquired tokens -----

  lemma NameIsPlain(name: Bytes)
    requires Config.IsValidName(name)
    ensures IsPlainSite(name) && IsBareToken(name)
  {
  }

  lemma TokenNameIsPlain(site: Bytes)
    requires Config.IsValidName(site)
    ensures Valid(site + TOKEN_FILE_SUFFIX) && '/' !in site + TOKEN_FILE_SUFFIX && site != []
  {
    hide Utf8.Valid;
    AsciiValid(site + TOKEN_FILE_SUFFIX);
  }

  /** A valid site name reads back from its token file's path. */
  lemma SiteReadsBack(site: Bytes)
    requires Config.IsValidName(site)
    ensures IsBelow(TOKENS_PATH, TokenPath(site)) && SiteOf(TokenPath(site)) == Some(site)
  {
    hide Utf8.Valid, Config.IsValidName;
    TokenNameIsPlain(site);
    BelowTokenPath(site, []);
    var path := TokenPath(site);
    var name := path[|TOKENS_PATH| + 1..];
    assert name == site + TOKEN_FILE_SUFFIX;
    assert name[|site|..] == TOKEN_FILE_SUFFIX && name[..|site|] == site;
  }

  ghost predicate HasValidSites(tokens: seq<Acquire.AcquiredToken>) {
    && (forall t | t in tokens :: Config.IsValidName(t.siteName))
    && (forall i, j | 0 <= i < j < |tokens| :: tokens[i].siteName != tokens[j].siteName)
  }

  lemma NoSites()
    ensures HasValidSites([])
  {
  }

  lemma OneMoreSite(token: Acquire.AcquiredToken, rest: seq<Acquire.AcquiredToken>)
    requires HasValidSites(rest) && Config.IsValidName(token.siteName)
    requires forall t | t in rest :: t.siteName != token.siteName
    ensures HasValidSites([token] + rest)
  {
    hide Config.IsValidName;
  }

  ghost predicate HasValidNames(selected: seq<Acquire.Selected>) {
    && (forall s | s in selected :: Config.IsValidName(s.use.siteName))
    && (forall i, j | 0 <= i < j < |selected| :: selected[i].use.siteName != selected[j].use.siteName)
  }

  ghost predicate IsSelected(selected: seq<Acquire.Selected>, name: Bytes) {
    exists i | 0 <= i < |selected| :: selected[i].use.siteName == name
  }

  lemma NamesOfRest(selected: seq<Acquire.Selected>)
    requires HasValidNames(selected) && selected != []
    ensures HasValidNames(selected[1..]) && Config.IsValidName(selected[0].use.siteName)
    ensures IsSelected(selected, selected[0].use.siteName)
    ensures forall name | IsSelected(selected[1..], name) ::
              name != selected[0].use.siteName && IsSelected(selected, name)
  {
    hide Config.IsValidName;
    var rest := selected[1..];
    assert forall i | 0 <= i < |rest| :: rest[i] == selected[i + 1] && rest[i] in selected;
    assert selected[0] in selected;
  }

  lemma {:induction false} SplitSites(selected: seq<Acquire.Selected>, tokens: seq<Acquire.AcquiredToken>,
          warnings: seq<Acquire.SiteFailure>)
    requires Acquire.Splits(selected, tokens, warnings) && HasValidNames(selected)
    ensures HasValidSites(tokens)
    ensures forall t | t in tokens :: IsSelected(selected, t.siteName)
    decreases |selected|
  {
    hide Config.IsValidName, HasValidSites, HasValidNames, IsSelected;
    NoSites();
    if selected != [] {
      NamesOfRest(selected);
      var rest := selected[1..];
      if tokens != [] && tokens[0].siteName == selected[0].use.siteName && Acquire.Splits(rest, tokens[1..], warnings) {
        SplitSites(rest, tokens[1..], warnings);
        OneMoreSite(tokens[0], tokens[1..]);
        assert tokens == [tokens[0]] + tokens[1..];
      } else {
        SplitSites(rest, tokens, warnings[1..]);
      }
    }
  }

  /** A parsed configuration hands out tokens under distinct valid names. */
  lemma AcquiredSites(outside: Acquire.Outside, inputs: Acquire.Inputs, lines: seq<Config.Line>)
    requires Config.ParseLines(lines) == Ok(inputs.config) && Acquire.Acquired(outside, inputs).Ok?
    ensures HasValidSites(Acquire.Acquired(outside, inputs).value.tokens)
    ensures Acquire.Acquired(outside, inputs).value.tokens != []
  {
    hide Config.ParseLines, Acquire.Acquired, Acquire.Splits, Config.IsValidName, Config.IsHttpsUrl,
         Acquire.AllVerified, HasValidSites;
    Acquire.SuccessIsSound(outside, inputs);
    ConfigBlocks.ParsedIsUsable(lines);
    var selections := inputs.config.profiles[inputs.profileName].selections;
    var selected := Acquire.Resolve(inputs.config.sites, selections).value;
    Acquire.ResolveExact(inputs.config.sites, selections);
    forall s | s in selected ensures Config.IsValidName(s.use.siteName) {
      var i :| 0 <= i < |selected| && selected[i] == s;
      assert selections[i] in selections;
    }
    SplitSites(selected, Acquire.Acquired(outside, inputs).value.tokens,
        Acquire.Acquired(outside, inputs).value.warnings);
  }

  lemma CreatedSites(table: Table, hash: Hasher, outside: Acquire.Outside, history: History, world: World,
          inputs: CreateInputs, created: Created)
    requires IsCreated(table, hash, outside, history, world, inputs, created)
    ensures HasValidSites(created.tokens) && created.tokens != []
  {
    hide Acquire.Acquired, Bind.IsBindingSet, Bind.PassesOrderCheck, IsSnapshot, Serialized, SealedTree,
         HasValidSites, Config.ParseLines, Config.LexLines, Split;
    var records := world.trees[inputs.content];
    var entry := FindFile(records, CONFIG_PATH).value;
    var config := ReadConfig(records).value;
    assert Config.Parse(entry.blob.value) == Ok(config);
    AcquiredSites(outside, PolicyInputs(world, inputs, created.manifestBytes),
                  Config.LexLines(Split(entry.blob.value, '\n'), 1));
  }

  // ----- the artifacts of the sealed commit -----

  /** The token files of a sealed tree: one for each acquired token. */
  ghost predicate SameTokens(files: seq<TokenFile>, tokens: seq<Acquire.AcquiredToken>) {
    forall site, content: Bytes :: TokenFile(site, content) in files <==> Acquire.AcquiredToken(site, content) in tokens
  }

  /** Every record below the token directory is the file of some token. */
  ghost predicate TokenRecordsOnly(records: seq<Record>, tokens: seq<Acquire.AcquiredToken>) {
    forall r | r in records && !IsTreeMode(r.mode) && IsBelow(TOKENS_PATH, r.path) ::
      exists t | t in tokens :: r == TokenRecord(t)
  }

  lemma {:induction false} SealedTokensRead(records: seq<Record>, tokens: seq<Acquire.AcquiredToken>, commit: ObjectId)
    requires TokenRecordsOnly(records, tokens) && HasValidSites(tokens)
    ensures ReadTokenFiles(records, commit).Ok?
    ensures forall f :: f in ReadTokenFiles(records, commit).value <==>
              exists r | r in records :: !IsTreeMode(r.mode) && IsBelow(TOKENS_PATH, r.path) && StandsFor(r, f)
  {
    hide SiteOf, IsBelow, IsTreeMode, TokenPath, HasValidSites;
    if records != [] {
      var first, rest := records[0], records[1..];
      assert records == [first] + rest;
      assert first in records;
      assert forall r | r in rest :: r in records;
      SealedTokensRead(rest, tokens, commit);
      if !IsTreeMode(first.mode) && IsBelow(TOKENS_PATH, first.path) {
        var t :| t in tokens && first == TokenRecord(t);
        TokenSiteReads(tokens, t);
        forall f ensures StandsFor(first, f) <==> f == TokenFile(t.siteName, t.content) {
          if first.path == TokenPath(f.site) { TokenPathInjective(f.site, t.siteName); }
        }
      }
    }
  }

  /** The record's path and content are the token file's. */
  predicate StandsFor(r: Record, f: TokenFile) {
    r.path == TokenPath(f.site) && r.blob == Some(f.bytes)
  }

  lemma TokenSiteReads(tokens: seq<Acquire.AcquiredToken>, token: Acquire.AcquiredToken)
    requires HasValidSites(tokens) && token in tokens
    ensures IsBelow(TOKENS_PATH, TokenPath(token.siteName)) && SiteOf(TokenPath(token.siteName)) == Some(token.siteName)
  {
    hide TokenPath, SiteOf;
    SiteReadsBack(token.siteName);
  }

  lemma ValidSitesArePlain(tokens: seq<Acquire.AcquiredToken>)
    requires HasValidSites(tokens)
    ensures ArePlainSites(tokens)
  {
    forall t | t in tokens ensures IsPlainSite(t.siteName) { NameIsPlain(t.siteName); }
  }

  /** Reading a sealed tree back yields its manifest and its tokens. */
  lemma SealedArtifacts(history: History, commit: ObjectId, content: Files, manifestBytes: Bytes,
          tokens: seq<Acquire.AcquiredToken>)
    requires IsFiles(content) && CONFIG_PATH in content && HasValidSites(tokens)
    requires IsReadable(history, commit) && Lists(TreeOf(history, commit), SealedTree(content, manifestBytes, tokens))
    ensures ReadArtifacts(history, commit).Ok?
    ensures ReadArtifacts(history, commit).value.manifestBytes == manifestBytes
    ensures SameTokens(ReadArtifacts(history, commit).value.tokens, tokens)
  {
    var records, files := TreeOf(history, commit), SealedTree(content, manifestBytes, tokens);
    hide SealedTree, IsFiles, HasValidSites, TreeOf, IsReadable, IsTree, SiteOf, TokenPath, IsBelow, ReadTokenFiles,
         SameTokens, Survives;
    ValidSitesArePlain(tokens);
    SealedHolds(content, manifestBytes, tokens, MANIFEST_PATH);
    FoundIsOnly(records, files[MANIFEST_PATH]);
    NoFileAtTokens(records, content, manifestBytes, tokens);
    SealedTokenRecords(records, content, manifestBytes, tokens);
    SealedTokensRead(records, tokens, commit);
    SealedFilesAreTokens(records, content, manifestBytes, tokens, commit);
  }

  lemma NoFileAtTokens(records: seq<Record>, content: Files, manifestBytes: Bytes, tokens: seq<Acquire.AcquiredToken>)
    requires IsFiles(content) && CONFIG_PATH in content && ArePlainSites(tokens)
    requires Lists(records, SealedTree(content, manifestBytes, tokens))
    ensures !HoldsFile(records, TOKENS_PATH)
  {
    hide SealedTree, IsFiles, ArePlainSites, TokenPath, IsTree;
    SealedHolds(content, manifestBytes, tokens, TOKENS_PATH);
    forall t | t in tokens ensures TokenPath(t.siteName) != TOKENS_PATH { TokenPathIsLong(t.siteName); }
  }

  lemma SealedTokenRecords(records: seq<Record>, content: Files, manifestBytes: Bytes,
          tokens: seq<Acquire.AcquiredToken>)
    requires IsFiles(content) && CONFIG_PATH in content && ArePlainSites(tokens)
    requires Lists(records, SealedTree(content, manifestBytes, tokens))
    ensures TokenRecordsOnly(records, tokens)
    ensures forall t | t in tokens :: TokenRecord(t) in records
  {
    var files := SealedTree(content, manifestBytes, tokens);
    hide SealedTree, IsFiles, ArePlainSites, TokenPath, IsTree;
    forall r | r in records && !IsTreeMode(r.mode) && IsBelow(TOKENS_PATH, r.path)
      ensures exists t | t in tokens :: r == TokenRecord(t)
    {
      SealedHolds(content, manifestBytes, tokens, r.path);
      assert !Survives(r.path) && r.path != MANIFEST_PATH;
      var t :| t in tokens && r.path == TokenPath(t.siteName);
      assert r == TokenRecord(t);
    }
    forall t | t in tokens ensures TokenRecord(t) in records {
      SealedHolds(content, manifestBytes, tokens, TokenPath(t.siteName));
    }
  }

  lemma SealedFilesAreTokens(records: seq<Record>, content: Files, manifestBytes: Bytes,
          tokens: seq<Acquire.AcquiredToken>, commit: ObjectId)
    requires TokenRecordsOnly(records, tokens) && HasValidSites(tokens)
    requires forall t | t in tokens :: TokenRecord(t) in records
    ensures ReadTokenFiles(records, commit).Ok? && SameTokens(ReadTokenFiles(records, commit).value, tokens)
  {
    hide HasValidSites, TokenPath, IsBelow, IsTreeMode, ReadTokenFiles;
    SealedTokensRead(records, tokens, commit);
    var files := ReadTokenFiles(records, commit).value;
    forall site, content: Bytes
      ensures TokenFile(site, content) in files <==> Acquire.AcquiredToken(site, content) in tokens
    {
      var f, t := TokenFile(site, content), Acquire.AcquiredToken(site, content);
      if t in tokens {
        TokenSiteReads(tokens, t);
        BlobsAreFiles(t);
        assert StandsFor(TokenRecord(t), f);
      }
      if f in files {
        var r :| r in records && !IsTreeMode(r.mode) && IsBelow(TOKENS_PATH, r.path) && StandsFor(r, f);
        var other :| other in tokens && r == TokenRecord(other);
        TokenPathInjective(other.siteName, site);
      }
    }
  }

  lemma BlobsAreFiles(token: Acquire.AcquiredToken)
    ensures !IsTreeMode(TokenRecord(token).mode)
  {
  }

  // ----- the bound stamps -----

  /** `later` holds every commit and tree of `earlier`. */
  ghost predicate ExtendsHistory(later: History, earlier: History) {
    && (forall c | c in earlier.commits :: c in later.commits && later.commits[c] == earlier.commits[c])
    && (forall t | t in earlier.trees :: t in later.trees && later.trees[t] == earlier.trees[t])
  }

  ghost predicate HoldsTrees(history: History) {
    forall t | t in history.trees :: IsTree(history.trees[t])
  }

  lemma ArtifactsStay(earlier: History, later: History, commit: ObjectId)
    requires ExtendsHistory(later, earlier) && ReadArtifacts(earlier, commit).Ok?
    ensures ReadArtifacts(later, commit) == ReadArtifacts(earlier, commit)
  {
  }

  lemma ArtifactSitesDiffer(history: History, commit: ObjectId)
    requires HoldsTrees(history) && ReadArtifacts(history, commit).Ok?
    ensures DistinctSites(ReadArtifacts(history, commit).value.tokens)
  {
    hide IsTree, ReadTokenFiles;
    SitesAreDistinct(TreeOf(history, commit), commit);
  }

  lemma PastTokensDiffer(hash: Hasher, files: seq<TokenFile>)
    requires DistinctSites(files)
    ensures ManifestLines.DistinctKeys(Bind.PastTokens(hash, files))
  {
  }

  lemma {:induction false} NoOffers(offered: seq<BoundToken>, claimed: PastToken)
    requires forall k | 0 <= k < |offered| :: offered[k].site != claimed.site
    ensures Offers(offered, claimed) == []
  {
    if offered != [] { NoOffers(offered[1..], claimed); }
  }

  /** With one file for each site, a claimed token is offered exactly once. */
  lemma {:induction false} OfferedOnce(offered: seq<BoundToken>, claimed: PastToken, i: nat)
    requires forall k, l | 0 <= k < l < |offered| :: offered[k].site != offered[l].site
    requires i < |offered| && offered[i].spec == claimed.spec && offered[i].site == claimed.site
    ensures Offers(offered, claimed) == [offered[i]]
  {
    var rest := offered[1..];
    assert forall k | 0 <= k < |rest| :: rest[k] == offered[k + 1];
    if i == 0 {
      NoOffers(rest, claimed);
    } else {
      OfferedOnce(rest, claimed, i - 1);
    }
  }

  lemma StampLinks(hash: Hasher, group: BindingGroup, files: seq<TokenFile>, manifestBytes: Bytes)
    requires DistinctSites(files)
    requires group.manifestHashes == hash(manifestBytes)
             && multiset(group.tokens) == multiset(Bind.PastTokens(hash, files))
    ensures IsLinked(hash, group, Bind.AsBoundStamp(Artifacts(manifestBytes, files)))
  {
    var stamp := Bind.AsBoundStamp(Artifacts(manifestBytes, files));
    var past := Bind.PastTokens(hash, files);
    forall claimed | claimed in group.tokens
      ensures |Offers(stamp.tokens, claimed)| == 1
              && hash(Offers(stamp.tokens, claimed)[0].bytes) == claimed.tokenHashes
    {
      assert claimed in multiset(group.tokens);
      assert claimed in multiset(past);
      var i :| 0 <= i < |past| && past[i] == claimed;
      OfferedOnce(stamp.tokens, claimed, i);
    }
  }

  /** A bound group still leads to its stamp, and is linked to it. */
  lemma GroupLinks(hash: Hasher, earlier: History, later: History, commit: ObjectId, group: BindingGroup)
    requires ExtendsHistory(later, earlier) && HoldsTrees(earlier) && Bind.YieldedBy(hash, earlier, commit, group)
    ensures var canonical := CanonicalGroup(group);
            Bind.ResolveGroup(later, canonical).Some?
            && IsLinked(hash, canonical, Bind.ResolveGroup(later, canonical).value)
  {
    hide ReadArtifacts, Sort, Bind.CommitHex, Bind.FromHex, ExtendsHistory, HoldsTrees, IsLinked, DistinctSites;
    var artifacts := ReadArtifacts(earlier, commit).value;
    ArtifactsStay(earlier, later, commit);
    ArtifactSitesDiffer(earlier, commit);
    Bind.CommitRoundTrip(commit);
    StampLinks(hash, CanonicalGroup(group), artifacts.tokens, artifacts.manifestBytes);
  }

  lemma BindingsLink(hash: Hasher, earlier: History, later: History, parents: seq<ObjectId>,
          groups: BindingOrder.Groups)
    requires ExtendsHistory(later, earlier) && HoldsTrees(earlier) && Bind.IsBindingSet(hash, earlier, parents, groups)
    ensures ResolveBindings(later, CanonicalGroups(groups)).Ok?
    ensures CheckLinkage(hash, CanonicalGroups(groups), ResolveBindings(later, CanonicalGroups(groups)).value).None?
  {
    hide ReadArtifacts, ResolveBindings, CheckLinkage, IsLinked, CanonicalGroup, Bind.ResolveGroup, ExtendsHistory,
         HoldsTrees, Bind.YieldedBy, Bind.IsNearestClaim;
    var canonical := CanonicalGroups(groups);
    forall i | 0 <= i < |canonical|
      ensures Bind.ResolveGroup(later, canonical[i]).Some?
              && IsLinked(hash, canonical[i], Bind.ResolveGroup(later, canonical[i]).value)
    {
      assert Bind.YieldedByNearest(hash, earlier, parents, groups[i]);
      var commit :| Bind.IsNearestClaim(earlier, parents, commit) && Bind.YieldedBy(hash, earlier, commit, groups[i]);
      GroupLinks(hash, earlier, later, commit, groups[i]);
    }
    BindingsExact(later, canonical);
    LinkageExact(hash, canonical, ResolveBindings(later, canonical).value);
  }

  // ----- the manifest -----

  lemma BoundGroupReadable(hash: Hasher, history: History, commit: ObjectId, group: BindingGroup)
    requires HoldsTrees(history) && Bind.YieldedBy(hash, history, commit, group) && SpellableGroup(group)
    ensures ReadableGroup(group)
  {
    hide ReadArtifacts, Bind.CommitHex, IsBareToken, HoldsTrees, DistinctSites, ManifestLines.DistinctKeys;
    var files := ReadArtifacts(history, commit).value.tokens;
    ArtifactSitesDiffer(history, commit);
    PastTokensDiffer(hash, files);
    forall i | 0 <= i < |group.tokens| ensures ReadableToken(group.tokens[i]) {
      assert group.tokens[i] in group.tokens;
    }
  }

  lemma BindingSetReadable(hash: Hasher, history: History, parents: seq<ObjectId>, groups: BindingOrder.Groups)
    requires HoldsTrees(history) && Bind.IsBindingSet(hash, history, parents, groups) && DistinctSha256(groups)
    requires forall g | g in groups :: SpellableGroup(g)
    ensures ReadableGroups(groups)
  {
    hide HoldsTrees, SpellableGroup, ReadableGroup, Bind.YieldedBy, Bind.IsNearestClaim;
    forall i | 0 <= i < |groups| ensures ReadableGroup(groups[i]) {
      assert Bind.YieldedByNearest(hash, history, parents, groups[i]);
      var commit :| Bind.IsNearestClaim(history, parents, commit) && Bind.YieldedBy(hash, history, commit, groups[i]);
      assert groups[i] in groups;
      BoundGroupReadable(hash, history, commit, groups[i]);
    }
  }

  lemma SnapshotNamed(world: World, root: Place, entries: seq<Entry>)
    requires SnapshotPaths.TreesAreTrees(world) && IsSnapshot(world, root, Ok(entries))
    ensures NamedEntries(entries) && DistinctPaths(entries)
  {
    hide Enumerate, DistinctPaths, SnapshotPaths.TreesAreTrees;
    var listed := Enumerate(world, Root(root)).value;
    SnapshotPaths.EnumerateDiffers(world, Root(root));
    PathsPermute(listed, entries);
    forall i | 0 <= i < |entries| ensures entries[i].path != [] {
      assert entries[i] in multiset(entries);
      assert entries[i] in multiset(listed);
      var k :| 0 <= k < |listed| && listed[k] == entries[i];
      assert SnapshotPaths.IsUnder([], listed[k].path);
    }
  }

  /** The manifest a create writes is well formed, hence reads back. */
  lemma CreatedReadsBack(table: Table, hash: Hasher, outside: Acquire.Outside, history: History, world: World,
          inputs: CreateInputs, created: Created)
    requires IsCreated(table, hash, outside, history, world, inputs, created)
    requires HoldsTrees(history) && SnapshotPaths.TreesAreTrees(world) && DistinctSha256(created.manifest.bindingGroups)
    ensures Valid(created.manifestBytes)
    ensures ManifestReader.Parse(table, created.manifestBytes) == Ok(Canonical(table, created.manifest))
    ensures DistinctPaths(created.manifest.entries)
  {
    hide Acquire.Acquired, Bind.IsBindingSet, Bind.PassesOrderCheck, IsSnapshot, Serialized, SealedTree, ReadConfig,
         HoldsTrees, SpellableGroup, IsBareToken,
         ManifestReader.Parse, Canonical, DistinctPaths, NamedEntries, ReadableGroups, SnapshotPaths.TreesAreTrees,
         DistinctSha256, Utf8.Valid;
    var manifest := created.manifest;
    SerializesWhenSpellable(table, manifest);
    BindingSetReadable(hash, history, inputs.parents, manifest.bindingGroups);
    SnapshotNamed(world, inputs.content, manifest.entries);
    SerializedSplits(table, manifest);
    WellFormedReadsBack(table, manifest);
  }

  // ----- the theorem -----

  /** The created stamp stands in the repository as a commit: its tree holds
      the sealed files, everything it was created from is still there, and no
      gitlink below the content leads to the sealed tree itself. */
  ghost predicate IsSealedAs(history0: History, history: History, world0: World, world: World, inputs: CreateInputs,
          created: Created, commit: ObjectId)
  {
    && ExtendsHistory(history, history0) && Extends(world, world0)
    && IsReadable(history, commit)
    && Lists(TreeOf(history, commit), created.files)
    && PlaceOf(history, inputs.content.repository, commit) in world.trees
    && Lists(world.trees[PlaceOf(history, inputs.content.repository, commit)], created.files)
    && !Meets(world0, Root(inputs.content), history.commits[commit].tree)
  }

  /** git trees are trees: names are unique and no file is a directory. */
  ghost predicate StoresAreSound(history0: History, world0: World, world: World) {
    HoldsTrees(history0) && SnapshotPaths.TreesAreTrees(world0) && SnapshotPaths.TreesAreTrees(world)
  }

  /** Some file of the content stands where the stamp's artifacts go. */
  ghost predicate Displaces(entries: seq<Entry>) {
    exists e | e in entries :: IsDisplaced(e.path)
  }

  lemma FoundInFiles(records: seq<Record>)
    requires IsTree(records) && HoldsFile(records, CONFIG_PATH)
    ensures Lists(records, FilesOf(records)) && IsFiles(FilesOf(records)) && CONFIG_PATH in FilesOf(records)
  {
    hide IsTree;
    TreeIsListed(records);
    ListedAreFiles(records, FilesOf(records));
  }

  lemma SealedIsResealed(table: Table, hash: Hasher, outside: Acquire.Outside, history0: History, world0: World,
          inputs: CreateInputs, created: Created,
          history: History, world: World, commit: ObjectId)
    requires IsCreated(table, hash, outside, history0, world0, inputs, created)
    requires IsSealedAs(history0, history, world0, world, inputs, created, commit)
             && StoresAreSound(history0, world0, world)
    ensures IsResealed(world0, world, inputs.content, PlaceOf(history, inputs.content.repository, commit))
    ensures IsFiles(FilesOf(world0.trees[inputs.content])) && CONFIG_PATH in FilesOf(world0.trees[inputs.content])
  {
    hide Acquire.Acquired, Bind.IsBindingSet, Bind.PassesOrderCheck, Enumerate, Serialized, SealedTree, ReadConfig,
         Meets, Extends, IsTree, FilesOf,
         KeepsSurvivors, HasValidSites, IsFiles, HoldsTrees;
    var content := world0.trees[inputs.content];
    CreatedSites(table, hash, outside, history0, world0, inputs, created);
    ValidSitesArePlain(created.tokens);
    FoundInFiles(content);
    var sealed := world.trees[PlaceOf(history, inputs.content.repository, commit)];
    SealedListsSurvivors(content, FilesOf(content), created.manifestBytes, created.tokens, sealed);
  }

  /** The audited entries agree with the manifest's exactly when sealing
      displaced nothing. */
  lemma AgreesUnlessDisplaced(earlier: World, later: World, base: Place, sealed: Place, written: seq<Entry>,
          audited: seq<Entry>)
    requires IsResealed(earlier, later, base, sealed)
    requires DistinctPaths(written) && multiset(written) == multiset(Enumerate(earlier, Root(base)).value)
    requires IsSnapshot(later, sealed, Ok(audited))
    ensures TreeAgreement.Compare(written, audited).Ok? <==> !Displaces(Enumerate(earlier, Root(base)).value)
  {
    hide Meets, Extends, IsTree, KeepsSurvivors, Enumerate, TreeAgreement.Compare, DistinctPaths, IsDisplaced,
         HoldsFile;
    SealedEnumerates(earlier, later, base, sealed);
    SnapshotNamed(later, sealed, audited);
    var before, after := Enumerate(earlier, Root(base)).value, Enumerate(later, Root(sealed)).value;
    TreeAgreement.AgreementExact(written, audited);
    PathsPermute(written, before);
    PathsPermute(audited, after);
    if !Displaces(before) {
      SameWhenNoneDropped(before, after);
    } else {
      var e :| e in before && IsDisplaced(e.path);
      OnlyOneHolds(before, after, e);
    }
  }

  lemma OnlyOneHolds(a: seq<Entry>, b: seq<Entry>, e: Entry)
    requires e in a && e !in b
    ensures multiset(a) != multiset(b)
  {
    assert e in multiset(a) && e !in multiset(b);
  }

  lemma SameWhenNoneDropped(before: seq<Entry>, after: seq<Entry>)
    requires DistinctPaths(before) && DistinctPaths(after)
    requires forall e :: e in before <==> e in after
    ensures multiset(before) == multiset(after)
  {
    TreeAgreement.DistinctPathsAreDistinct(before);
    TreeAgreement.DistinctPathsAreDistinct(after);
    DistinctByMultiset(before);
    DistinctByMultiset(after);
    forall e ensures multiset(before)[e] == multiset(after)[e] {
      if e !in before { assert e !in multiset(before) && e !in multiset(after); }
    }
  }

  lemma JudgesTokens(hash: Hasher, verify: TokenVerifier, manifestBytes: Bytes, files: seq<TokenFile>,
          tokens: seq<Acquire.AcquiredToken>)
    requires SameTokens(files, tokens) && tokens != []
    ensures JudgeTokens(hash, verify, manifestBytes, files).Ok? <==>
            exists t | t in tokens :: verify(t.content, manifestBytes).Ok?
    ensures JudgeTokens(hash, verify, manifestBytes, files).Err? ==>
              JudgeTokens(hash, verify, manifestBytes, files).error.AllTokensRejected?
  {
    SomeAccepted(hash, verify, manifestBytes, files);
    assert tokens[0] in tokens;
    assert TokenFile(tokens[0].siteName, tokens[0].content) in files;
    forall t | t in tokens ensures TokenFile(t.siteName, t.content) in files {
      assert t == Acquire.AcquiredToken(t.siteName, t.content);
    }
    forall f | f in files ensures Acquire.AcquiredToken(f.site, f.bytes) in tokens {
      assert f == TokenFile(f.site, f.bytes);
    }
  }

  /** A freshly created stamp never fails for its artifacts, its snapshot, its
      bindings, its manifest, its linkage or a lack of tokens. It fails the
      tree comparison exactly when a file of the content stood in the way of
      its artifacts; otherwise the verdict is favourable if and only if some
      sealed token verifies under the trust given. */
  lemma FreshStampVerdict(table: Table, hash: Hasher, verify: TokenVerifier, outside: Acquire.Outside,
                          history0: History, world0: World, inputs: CreateInputs, created: Created,
          history: History, world: World, commit: ObjectId, judgement: Result<StampSummary, ClaimFailure>)
    requires IsCreated(table, hash, outside, history0, world0, inputs, created)
    requires DistinctSha256(created.manifest.bindingGroups)
    requires IsSealedAs(history0, history, world0, world, inputs, created, commit)
             && StoresAreSound(history0, world0, world)
    requires IsJudged(table, hash, verify, history, world, inputs.content.repository, commit, judgement)
    ensures var entries := Enumerate(world0, Root(inputs.content));
            var verified := exists t | t in created.tokens :: verify(t.content, created.manifestBytes).Ok?;
            && entries.Ok?
            && (judgement.Ok? <==> !Displaces(entries.value) && verified)
            && (judgement.Err? ==>
                  && judgement.error.VerdictFailed?
                  && if Displaces(entries.value) then judgement.error.verdict.TreeDisagrees?
                     else judgement.error.verdict.AllTokensRejected?)
  {
    hide Acquire.Acquired, Bind.IsBindingSet, Bind.PassesOrderCheck, Enumerate, Serialized, SealedTree, ReadConfig,
         Meets, IsTree, FilesOf, HasValidSites,
         IsFiles, HoldsTrees, ExtendsHistory, ManifestReader.Parse, Sort, Utf8.Valid, ReadArtifacts, ResolveBindings,
         CheckLinkage, TreeAgreement.Compare, DistinctPaths, JudgeTokens, SameTokens, Displaces, DistinctSha256,
         IsResealed, Lists, IsReadable, SnapshotPaths.TreesAreTrees;
    var sealed := PlaceOf(history, inputs.content.repository, commit);
    var treeEntries :| IsSnapshot(world, sealed, treeEntries)
        && judgement == Judge(table, hash, verify, history, commit, treeEntries);
    SealedIsResealed(table, hash, outside, history0, world0, inputs, created, history, world, commit);
    CreatedSites(table, hash, outside, history0, world0, inputs, created);
    CreatedReadsBack(table, hash, outside, history0, world0, inputs, created);
    SealedArtifacts(history, commit, FilesOf(world0.trees[inputs.content]), created.manifestBytes, created.tokens);
    SealedEnumerates(world0, world, inputs.content, sealed);
    BindingsLink(hash, history0, history, inputs.parents, created.manifest.bindingGroups);
    var canonical := Canonical(table, created.manifest);
    PathsPermute(created.manifest.entries, canonical.entries);
    AgreesUnlessDisplaced(world0, world, inputs.content, sealed, canonical.entries, treeEntries.value);
    JudgesTokens(hash, verify, created.manifestBytes, ReadArtifacts(history, commit).value.tokens, created.tokens);
  }

  // ----- when a file stands in the way -----

  /** The child a gitlink leads to has something to enumerate. */
  ghost predicate HoldsSomething(world: World, child: PlacedTree) {
    Enumerate(world, child).Ok? && Enumerate(world, child).value != []
  }

  /** A record standing in the artifacts' way: a lost file, or a lost gitlink
      whose submodule is not empty. */
  ghost predicate Obstructs(world: World, base: Place, content: seq<Record>, r: Record) {
    && !IsTreeMode(r.mode) && IsLost(r.path)
    && (r.mode == GITLINK_MODE ==>
        exists child :: LeadsTo(world, base, content, r, child) && HoldsSomething(world, child))
  }

  /** Whether anything is displaced can be read off the content's records:
      something is, exactly when a record stands in the artifacts' way. */
  lemma DisplacesByRecords(world: World, base: Place)
    requires base in world.trees && IsTree(world.trees[base]) && HoldsFile(world.trees[base], CONFIG_PATH)
    requires SnapshotPaths.TreesAreTrees(world) && Enumerate(world, Root(base)).Ok?
    ensures Displaces(Enumerate(world, Root(base)).value) <==>
              exists r | r in world.trees[base] :: Obstructs(world, base, world.trees[base], r)
  {
    hide Displaces, Obstructs, IsTree, HoldsFile, SnapshotPaths.TreesAreTrees, Enumerate;
    var content := world.trees[base];
    if r :| r in content && Obstructs(world, base, content, r) { ObstructionDisplaces(world, base, r); }
    if Displaces(Enumerate(world, Root(base)).value) { var r := Obstruction(world, base); }
  }

  lemma ObstructionDisplaces(world: World, base: Place, r: Record)
    requires base in world.trees && IsTree(world.trees[base]) && HoldsFile(world.trees[base], CONFIG_PATH)
    requires SnapshotPaths.TreesAreTrees(world) && Enumerate(world, Root(base)).Ok?
    requires r in world.trees[base] && Obstructs(world, base, world.trees[base], r)
    ensures Displaces(Enumerate(world, Root(base)).value)
  {
    hide Enumerate, Children, OwnEntries, IsTree, HoldsFile, SnapshotPaths.TreesAreTrees, AllEnumerable, AllEnumerate,
         IsEntryOfSome, DecodeFileMode, IsDisplaced, IsLost, IsStampArtifact, IsTreeMode, LeadsTo,
         SnapshotPaths.IsUnder;
    var content := world.trees[base];
    RootExact(world, base);
    OwnExact(world, [], content);
    if r.mode == GITLINK_MODE {
      var child :| LeadsTo(world, base, content, r, child) && HoldsSomething(world, child);
      var entries := Enumerate(world, child).value;
      ChildAppears(world, base, content, r, child);
      ChildrenExact(world, base, content, child);
      SnapshotPaths.EnumerateDiffers(world, child);
      DisplacedWithItsLink(content, r, entries[0].path);
      FromSome(world, Children(world, Root(base), content).value, child, entries[0]);
    } else {
      LostIsOwn(content, r);
      var e := EntryOf(world, [], r);
      assert IsOwnEntry(world, [], content, e);
      assert e.path == r.path by { assert [] + r.path == r.path; }
      LostIsDisplaced(r.path);
    }
  }

  /** The record behind a displaced entry. */
  lemma Obstruction(world: World, base: Place) returns (r: Record)
    requires base in world.trees && IsTree(world.trees[base]) && HoldsFile(world.trees[base], CONFIG_PATH)
    requires SnapshotPaths.TreesAreTrees(world) && Enumerate(world, Root(base)).Ok?
    requires Displaces(Enumerate(world, Root(base)).value)
    ensures r in world.trees[base] && Obstructs(world, base, world.trees[base], r)
  {
    hide Enumerate, Children, OwnEntries, IsTree, HoldsFile, SnapshotPaths.TreesAreTrees, AllEnumerable, AllEnumerate,
         IsEntryOfSome, DecodeFileMode, IsDisplaced, IsLost, IsStampArtifact, LeadsTo;
    var content := world.trees[base];
    RootExact(world, base);
    OwnExact(world, [], content);
    var e :| e in Enumerate(world, Root(base)).value && IsDisplaced(e.path);
    if IsOwnEntry(world, [], content, e) {
      r :| r in content && IsOwn([], r) && IsEnumerable(r) && e == EntryOf(world, [], r);
      assert e.path == r.path by { assert [] + r.path == r.path; }
      DisplacedOwnIsLost(r);
    } else {
      var child;
      r, child := LinkAbove(world, base, e);
      assert HoldsSomething(world, child);
    }
  }

  lemma LostIsDisplaced(path: Bytes)
    requires IsLost(path)
    ensures IsDisplaced(path)
  {
  }

  lemma LostIsOwn(content: seq<Record>, r: Record)
    requires r in content && !IsTreeMode(r.mode) && r.mode != GITLINK_MODE && IsLost(r.path)
    ensures AllEnumerable([], content) ==> IsOwn([], r) && IsEnumerable(r)
  {
    hide DecodeFileMode, IsTreeMode;
    ArtifactsDiffer(r.path);
  }

  lemma ArtifactsDiffer(path: Bytes)
    ensures IsBelow(MANIFEST_PATH, path) ==> path[9] == 'm'
    ensures IsBelow(TOKENS_PATH, path) ==> path[9] == 't'
  {
    assert MANIFEST_PATH[9] == 'm' && TOKENS_PATH[9] == 't';
    assert IsBelow(MANIFEST_PATH, path) ==> path[..|MANIFEST_PATH|][9] == path[9];
    assert IsBelow(TOKENS_PATH, path) ==> path[..|TOKENS_PATH|][9] == path[9];
  }

  lemma DisplacedOwnIsLost(r: Record)
    requires IsOwn([], r) && IsDisplaced(r.path)
    ensures !IsTreeMode(r.mode) && IsLost(r.path)
  {
  }

  /** The gitlink below which a displaced submodule entry stands, and where it
      leads. */
  lemma LinkAbove(world: World, base: Place, e: Entry) returns (link: Record, child: PlacedTree)
    requires base in world.trees && IsTree(world.trees[base]) && HoldsFile(world.trees[base], CONFIG_PATH)
    requires SnapshotPaths.TreesAreTrees(world) && Children(world, Root(base), world.trees[base]).Ok?
    requires IsEntryOfSome(world, Children(world, Root(base), world.trees[base]).value, e) && IsDisplaced(e.path)
    ensures link in world.trees[base] && !IsTreeMode(link.mode) && IsLost(link.path) && link.mode == GITLINK_MODE
    ensures LeadsTo(world, base, world.trees[base], link, child)
    ensures Enumerate(world, child).Ok? && e in Enumerate(world, child).value
  {
    hide Enumerate, Children, IsTree, HoldsFile, SnapshotPaths.TreesAreTrees, IsDisplaced, IsLost, LeadsTo,
         IsEntryOfSome, SnapshotPaths.IsUnder;
    var content := world.trees[base];
    child := SomeFrom(world, Children(world, Root(base), content).value, e);
    ChildrenExact(world, base, content, child);
    link :| LeadsTo(world, base, content, link, child);
    ChildAppears(world, base, content, link, child);
    SnapshotPaths.EnumerateDiffers(world, child);
    var entries := Enumerate(world, child).value;
    var i :| 0 <= i < |entries| && entries[i] == e;
    DisplacedWithItsLink(content, link, e.path);
  }
}
