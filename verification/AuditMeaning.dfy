/** What an audit of one claim answers, for whatever commit, told by the
    commit's manifest, its tree, the stamps it binds and its tokens. */
module AuditMeaning {
  import opened Bytes
  import opened Utf8
  import opened PathCodec
  import opened ManifestModel
  import opened Repository
  import opened Snapshot
  import opened Claims
  import opened Binding
  import opened BindingOrder
  import opened LinkageMeaning
  import opened StampVerdict
  import opened Audit
  import opened TreeAgreement
  import Bind
  import Create
  import Hex
  import ManifestReader

  // ----- bound stamps -----

  /** The stamp the group's annotation leads to: the artifacts of the commit it
      spells, in this repository. */
  ghost predicate IsBoundStamp(history: History, group: BindingGroup, stamp: BoundStamp) {
    group.predecessorOrigin == None
    && exists commit: ObjectId :: Hex.Spells(group.commit, commit) && IsStampOf(history, commit, stamp)
  }

  ghost predicate IsStampOf(history: History, commit: ObjectId, stamp: BoundStamp) {
    var read := ReadArtifacts(history, commit);
    && read.Ok? && stamp.manifestBytes == read.value.manifestBytes && |stamp.tokens| == |read.value.tokens|
    && forall i | 0 <= i < |stamp.tokens| ::
         stamp.tokens[i] == BoundToken(Rfc3161, read.value.tokens[i].site, read.value.tokens[i].bytes)
  }

  lemma ResolvedExact(history: History, group: BindingGroup, stamp: BoundStamp)
    ensures Bind.ResolveGroup(history, group) == Some(stamp) <==> IsBoundStamp(history, group, stamp)
  {
    hide ReadArtifacts, Bind.FromHex, Hex.Spells;
    forall commit: ObjectId ensures Bind.FromHex(group.commit) == Some(commit) <==> Hex.Spells(group.commit, commit) {
      Bind.FromHexExact(group.commit, commit);
    }
    forall commit: ObjectId | ReadArtifacts(history, commit).Ok?
      ensures Bind.AsBoundStamp(ReadArtifacts(history, commit).value) == stamp <==> IsStampOf(history, commit, stamp)
    {
      StampExact(history, commit, stamp);
    }
    hide Bind.AsBoundStamp, IsStampOf;
    if commit: ObjectId :| Hex.Spells(group.commit, commit) && IsStampOf(history, commit, stamp) {
      assert Bind.FromHex(group.commit) == Some(commit);
      assert ReadArtifacts(history, commit).Ok? by { StampIsRead(history, commit, stamp); }
    }
  }

  lemma StampExact(history: History, commit: ObjectId, stamp: BoundStamp)
    requires ReadArtifacts(history, commit).Ok?
    ensures Bind.AsBoundStamp(ReadArtifacts(history, commit).value) == stamp <==> IsStampOf(history, commit, stamp)
  {
    hide ReadArtifacts;
    var resolved := Bind.AsBoundStamp(ReadArtifacts(history, commit).value);
    if IsStampOf(history, commit, stamp) { assert resolved.tokens == stamp.tokens; }
  }

  lemma StampIsRead(history: History, commit: ObjectId, stamp: BoundStamp)
    requires IsStampOf(history, commit, stamp)
    ensures ReadArtifacts(history, commit).Ok?
  {
  }

  ghost predicate IsResolvable(history: History, group: BindingGroup) {
    exists stamp :: IsBoundStamp(history, group, stamp)
  }

  lemma ResolvableExact(history: History, group: BindingGroup)
    ensures Bind.ResolveGroup(history, group).Some? <==> IsResolvable(history, group)
  {
    hide Bind.ResolveGroup, IsBoundStamp;
    var found := Bind.ResolveGroup(history, group);
    if found.Some? { ResolvedExact(history, group, found.value); }
    if stamp :| IsBoundStamp(history, group, stamp) { ResolvedExact(history, group, stamp); }
  }

  ghost predicate AreBoundStamps(history: History, groups: Groups, bound: seq<BoundStamp>) {
    |bound| == |groups| && forall i | 0 <= i < |groups| :: IsBoundStamp(history, groups[i], bound[i])
  }

  lemma BindingsMean(history: History, groups: Groups, bound: seq<BoundStamp>)
    ensures ResolveBindings(history, groups) == Ok(bound) <==> AreBoundStamps(history, groups, bound)
    ensures ResolveBindings(history, groups).Err? <==> exists i | 0 <= i < |groups| :: !IsResolvable(history, groups[i])
  {
    hide Bind.ResolveGroup, IsBoundStamp, IsResolvable, ResolveBindings;
    BindingsExact(history, groups);
    forall i | 0 <= i < |groups| && i < |bound|
      ensures Bind.ResolveGroup(history, groups[i]) == Some(bound[i]) <==> IsBoundStamp(history, groups[i], bound[i])
    {
      ResolvedExact(history, groups[i], bound[i]);
    }
    forall i | 0 <= i < |groups|
      ensures Bind.ResolveGroup(history, groups[i]).Some? <==> IsResolvable(history, groups[i])
      ensures i < |bound| && IsBoundStamp(history, groups[i], bound[i]) ==> IsResolvable(history, groups[i])
    {
      ResolvableExact(history, groups[i]);
      if i < |bound| { ResolvedExact(history, groups[i], bound[i]); }
    }
    if AreBoundStamps(history, groups, bound) {
      var resolved := ResolveBindings(history, groups).value;
      forall i | 0 <= i < |groups| ensures resolved[i] == bound[i] {
        assert Bind.ResolveGroup(history, groups[i]) == Some(bound[i]);
      }
      assert resolved == bound;
    }
  }

  // ----- acceptance -----

  ghost predicate IsAllReproduced(hash: Hasher, groups: Groups, bound: seq<BoundStamp>) {
    |groups| == |bound| && forall i | 0 <= i < |groups| :: Reproduces(hash, groups[i], bound[i])
  }

  /** The commit stands as a stamp over these entries: its manifest parses and
      lists them, every group it binds leads to a stamp that reproduces it, and
      some token verifies over the manifest. */
  ghost predicate StandsOver(table: Table, hash: Hasher, verify: TokenVerifier, history: History, commit: ObjectId,
          entries: seq<Entry>)
  {
    var read := ReadArtifacts(history, commit);
    read.Ok? && exists manifest, bound ::
      && Utf8.Valid(read.value.manifestBytes)
      && ManifestReader.Parse(table, read.value.manifestBytes) == Ok(manifest)
      && DistinctPaths(manifest.entries) && DistinctPaths(entries) && multiset(manifest.entries) == multiset(entries)
      && AreBoundStamps(history, manifest.bindingGroups, bound)
      && IsAllReproduced(hash, manifest.bindingGroups, bound)
      && exists t | t in read.value.tokens :: verify(t.bytes, read.value.manifestBytes).Ok?
  }

  /** The judgement is favourable if and only if the commit stands. */
  lemma JudgedExact(table: Table, hash: Hasher, verify: TokenVerifier, history: History, commit: ObjectId,
          entries: seq<Entry>)
    ensures Judge(table, hash, verify, history, commit, Ok(entries)).Ok? <==>
            StandsOver(table, hash, verify, history, commit, entries)
  {
    hide ReadArtifacts, Utf8.Valid, ManifestReader.Parse, DistinctPaths, ResolveBindings, Verdict, AreBoundStamps,
         IsAllReproduced;
    var read := ReadArtifacts(history, commit);
    if read.Ok? && Utf8.Valid(read.value.manifestBytes) && ManifestReader.Parse(table, read.value.manifestBytes).Ok? {
      var manifest := ManifestReader.Parse(table, read.value.manifestBytes).value;
      var resolved := ResolveBindings(history, manifest.bindingGroups);
      forall bound: seq<BoundStamp>
        ensures resolved == Ok(bound) <==> AreBoundStamps(history, manifest.bindingGroups, bound)
      {
        BindingsMean(history, manifest.bindingGroups, bound);
      }
      if resolved.Ok? {
        var inputs := StampInputs(read.value.manifestBytes, entries, read.value.tokens, resolved.value);
        VerdictExact(table, hash, verify, inputs);
        StandsBound(table, hash, verify, inputs, manifest);
      }
    } else if read.Ok? {
      UnreadVerdict(table, hash, verify, history, read.value, entries);
    }
  }

  lemma StandsBound(table: Table, hash: Hasher, verify: TokenVerifier, inputs: StampInputs, manifest: Manifest)
    requires Utf8.Valid(inputs.manifestBytes) && ManifestReader.Parse(table, inputs.manifestBytes) == Ok(manifest)
    ensures Stands(table, hash, verify, inputs) <==>
            && DistinctPaths(manifest.entries) && DistinctPaths(inputs.treeEntries)
            && multiset(manifest.entries) == multiset(inputs.treeEntries)
            && IsAllReproduced(hash, manifest.bindingGroups, inputs.boundStamps)
            && exists t | t in inputs.tokens :: verify(t.bytes, inputs.manifestBytes).Ok?
  {
    hide Utf8.Valid, ManifestReader.Parse, DistinctPaths, IsLinked, Reproduces;
    forall i | 0 <= i < |manifest.bindingGroups| && i < |inputs.boundStamps|
      ensures IsLinked(hash, manifest.bindingGroups[i], inputs.boundStamps[i]) <==>
              Reproduces(hash, manifest.bindingGroups[i], inputs.boundStamps[i])
    {
      LinkedExact(hash, manifest.bindingGroups[i], inputs.boundStamps[i]);
    }
  }

  /** A manifest that does not parse binds nothing, and is refused as such. */
  lemma UnreadVerdict(table: Table, hash: Hasher, verify: TokenVerifier, history: History, artifacts: Artifacts,
          entries: seq<Entry>)
    requires !(Utf8.Valid(artifacts.manifestBytes) && ManifestReader.Parse(table, artifacts.manifestBytes).Ok?)
    ensures ResolveBindings(history, GroupsOfManifest(table, artifacts.manifestBytes)) == Ok([])
    ensures Verdict(table, hash, verify, StampInputs(artifacts.manifestBytes, entries, artifacts.tokens, []))
            == if !Utf8.Valid(artifacts.manifestBytes) then Err(UnreadableManifest)
               else Err(BadManifest(ManifestReader.Parse(table, artifacts.manifestBytes).error))
  {
    hide Utf8.Valid, ManifestReader.Parse, TreeAgreement.Compare, CheckLinkage, JudgeTokens;
  }

  // ----- refusal -----

  ghost predicate IsTreeDifference(manifest: seq<Entry>, tree: seq<Entry>, difference: TreeError) {
    match difference
    case DuplicateManifestPath(path) => Repeats(manifest, path)
    case DuplicateTreePath(path) => DistinctPaths(manifest) && Repeats(tree, path)
    case Disagreements(list) =>
      && DistinctPaths(manifest) && DistinctPaths(tree) && list != []
      && forall d :: d in list <==> IsDisagreement(manifest, tree, d)
  }

  lemma DifferenceIs(manifest: seq<Entry>, tree: seq<Entry>)
    ensures Compare(manifest, tree).Err? ==> IsTreeDifference(manifest, tree, Compare(manifest, tree).error)
  {
    hide FirstRepeat, Uncovered, Unlisted, Repeats, DistinctPaths, IsDisagreement;
    FirstRepeatExact(manifest);
    FirstRepeatExact(tree);
    if DistinctPaths(manifest) && DistinctPaths(tree) { ReportsEveryDisagreement(manifest, tree); }
  }

  /** Which check failed first, and how: the manifest, the tree, the linkage,
      the tokens. */
  ghost predicate IsVerdictFault(table: Table, hash: Hasher, verify: TokenVerifier, inputs: StampInputs,
          error: StampError)
  {
    var parsed := ManifestReader.Parse(table, inputs.manifestBytes);
    if !Utf8.Valid(inputs.manifestBytes) then error == UnreadableManifest
    else if parsed.Err? then error == BadManifest(parsed.error)
    else if !(DistinctPaths(parsed.value.entries) && DistinctPaths(inputs.treeEntries)
              && multiset(parsed.value.entries) == multiset(inputs.treeEntries)) then
      error.TreeDisagrees? && IsTreeDifference(parsed.value.entries, inputs.treeEntries, error.difference)
    else if !IsAllReproduced(hash, parsed.value.bindingGroups, inputs.boundStamps) then
      error.Unlinked? && IsLinkageFault(hash, parsed.value.bindingGroups, inputs.boundStamps, error.linkage)
    else if inputs.tokens == [] then error == NoTokens
    else error.AllTokensRejected? && IsEachRejected(verify, inputs.manifestBytes, inputs.tokens, error.rejected)
  }

  /** One rejection for each token, in order, with its cause. */
  ghost predicate IsEachRejected(verify: TokenVerifier, manifestBytes: Bytes, tokens: seq<TokenFile>,
          rejected: seq<RejectedToken>)
  {
    |rejected| == |tokens| && forall i | 0 <= i < |tokens| ::
      rejected[i].site == tokens[i].site && verify(tokens[i].bytes, manifestBytes) == Err(rejected[i].cause)
  }

  lemma {:induction false} RejectedInOrder(verify: TokenVerifier, manifestBytes: Bytes, tokens: seq<TokenFile>)
    requires Accepted(verify, manifestBytes, tokens) == []
    ensures IsEachRejected(verify, manifestBytes, tokens, Rejected(verify, manifestBytes, tokens))
  {
    if tokens != [] {
      var rest := tokens[1..];
      RejectedInOrder(verify, manifestBytes, rest);
      assert forall i | 0 < i < |tokens| :: tokens[i] == rest[i - 1];
    }
  }

  lemma VerdictFault(table: Table, hash: Hasher, verify: TokenVerifier, inputs: StampInputs)
    requires Verdict(table, hash, verify, inputs).Err?
    ensures IsVerdictFault(table, hash, verify, inputs, Verdict(table, hash, verify, inputs).error)
  {
    hide Utf8.Valid, ManifestReader.Parse, Compare, CheckLinkage, Accepted, Rejected, DistinctPaths, IsTreeDifference,
         IsLinkageFault, IsEachRejected, Reproduces;
    if Utf8.Valid(inputs.manifestBytes) && ManifestReader.Parse(table, inputs.manifestBytes).Ok? {
      var manifest := ManifestReader.Parse(table, inputs.manifestBytes).value;
      AgreementExact(manifest.entries, inputs.treeEntries);
      DifferenceIs(manifest.entries, inputs.treeEntries);
      LinkageMeans(hash, manifest.bindingGroups, inputs.boundStamps);
      if Accepted(verify, inputs.manifestBytes, inputs.tokens) == [] {
        RejectedInOrder(verify, inputs.manifestBytes, inputs.tokens);
      }
    }
  }

  /** The failure is that of the first step that fails, with its cause. */
  ghost predicate IsFailure(table: Table, hash: Hasher, verify: TokenVerifier, history: History, commit: ObjectId,
          treeEntries: Entries, failure: ClaimFailure)
  {
    var read := ReadArtifacts(history, commit);
    if read.Err? then failure == BadArtifacts(read.error)
    else if treeEntries.Err? then failure == SnapshotFailed(treeEntries.error)
    else
      var groups := GroupsOfManifest(table, read.value.manifestBytes);
      if exists i | 0 <= i < |groups| :: !IsResolvable(history, groups[i]) then
        failure.UnresolvableBinding? && IsFirstUnresolvable(history, groups, failure.commit)
      else
        failure.VerdictFailed?
        && exists bound ::
             && AreBoundStamps(history, groups, bound)
             && IsVerdictFault(table, hash, verify,
                               StampInputs(read.value.manifestBytes, treeEntries.value, read.value.tokens, bound),
                               failure.verdict)
  }

  ghost predicate IsFirstUnresolvable(history: History, groups: Groups, commit: Bytes) {
    exists i | 0 <= i < |groups| ::
      && groups[i].commit == commit && !IsResolvable(history, groups[i])
      && forall k | 0 <= k < i :: IsResolvable(history, groups[k])
  }

  lemma {:induction false} UnresolvableFirst(history: History, groups: Groups)
    requires ResolveBindings(history, groups).Err?
    ensures var failure := ResolveBindings(history, groups).error;
            failure.UnresolvableBinding? && IsFirstUnresolvable(history, groups, failure.commit)
  {
    hide Bind.ResolveGroup, IsResolvable;
    var n := |groups| - 1;
    var before := groups[..n];
    assert forall i | 0 <= i < n :: before[i] == groups[i];
    if ResolveBindings(history, before).Err? {
      UnresolvableFirst(history, before);
    } else {
      ResolvableExact(history, groups[n]);
      AllResolve(history, before);
    }
  }

  lemma AllResolve(history: History, groups: Groups)
    requires ResolveBindings(history, groups).Ok?
    ensures forall i | 0 <= i < |groups| :: IsResolvable(history, groups[i])
  {
    hide ResolveBindings, IsResolvable;
    BindingsMean(history, groups, []);
  }

  lemma FailureExact(table: Table, hash: Hasher, verify: TokenVerifier, history: History, commit: ObjectId,
          treeEntries: Entries)
    requires Judge(table, hash, verify, history, commit, treeEntries).Err?
    ensures IsFailure(table, hash, verify, history, commit, treeEntries,
                      Judge(table, hash, verify, history, commit, treeEntries).error)
  {
    hide ReadArtifacts, ResolveBindings, GroupsOfManifest, Verdict, IsVerdictFault, AreBoundStamps, IsResolvable,
         IsFirstUnresolvable;
    var read := ReadArtifacts(history, commit);
    if read.Ok? && treeEntries.Ok? {
      var groups := GroupsOfManifest(table, read.value.manifestBytes);
      var resolved := ResolveBindings(history, groups);
      if resolved.Err? {
        BindingsMean(history, groups, []);
        UnresolvableFirst(history, groups);
      } else {
        BindingsMean(history, groups, resolved.value);
        VerdictFault(table, hash, verify,
                     StampInputs(read.value.manifestBytes, treeEntries.value, read.value.tokens, resolved.value));
      }
    }
  }

  // ----- the audit of a commit -----

  /** An audit is favourable if and only if the commit's tree can be
      enumerated and the commit stands over its entries, in whatever order
      they come; otherwise the first step that fails is reported. */
  lemma AuditExact(table: Table, hash: Hasher, verify: TokenVerifier, history: History, world: World,
          repository: nat, commit: ObjectId, judgement: Result<StampSummary, ClaimFailure>)
    requires IsJudged(table, hash, verify, history, world, repository, commit, judgement)
    ensures var tree := Enumerate(world, Root(PlaceOf(history, repository, commit)));
            judgement.Ok? <==> tree.Ok? && StandsOver(table, hash, verify, history, commit, tree.value)
    ensures judgement.Err? ==>
              exists entries ::
                && Create.IsSnapshot(world, PlaceOf(history, repository, commit), entries)
                && IsFailure(table, hash, verify, history, commit, entries, judgement.error)
  {
    hide Judge, StandsOver, IsFailure, Enumerate;
    var place := PlaceOf(history, repository, commit);
    var entries :| Create.IsSnapshot(world, place, entries)
                   && judgement == Judge(table, hash, verify, history, commit, entries);
    if judgement.Err? {
      FailureExact(table, hash, verify, history, commit, entries);
    } else {
      JudgedNeedsEntries(table, hash, verify, history, commit, entries);
    }
    if entries.Ok? {
      JudgedExact(table, hash, verify, history, commit, entries.value);
      OrderIsFree(table, hash, verify, history, commit, entries.value, Enumerate(world, Root(place)).value);
      OrderIsFree(table, hash, verify, history, commit, Enumerate(world, Root(place)).value, entries.value);
    }
  }

  lemma JudgedNeedsEntries(table: Table, hash: Hasher, verify: TokenVerifier, history: History, commit: ObjectId,
          entries: Entries)
    requires Judge(table, hash, verify, history, commit, entries).Ok?
    ensures entries.Ok?
  {
    hide ReadArtifacts, ResolveBindings, GroupsOfManifest, Verdict;
  }

  lemma OrderIsFree(table: Table, hash: Hasher, verify: TokenVerifier, history: History, commit: ObjectId,
          a: seq<Entry>, b: seq<Entry>)
    requires multiset(a) == multiset(b)
    ensures StandsOver(table, hash, verify, history, commit, a) ==>
              StandsOver(table, hash, verify, history, commit, b)
  {
    hide ReadArtifacts, Utf8.Valid, ManifestReader.Parse, DistinctPaths, AreBoundStamps, IsAllReproduced;
    if StandsOver(table, hash, verify, history, commit, a) {
      var read := ReadArtifacts(history, commit).value;
      var manifest, bound :|
        && Utf8.Valid(read.manifestBytes) && ManifestReader.Parse(table, read.manifestBytes) == Ok(manifest)
        && DistinctPaths(manifest.entries) && DistinctPaths(a) && multiset(manifest.entries) == multiset(a)
        && AreBoundStamps(history, manifest.bindingGroups, bound)
        && IsAllReproduced(hash, manifest.bindingGroups, bound);
      PathsPermute(a, b);
    }
  }
}
