/** Auditing one claim: its artifacts, its snapshot, the stamps it binds, and
    the verdict over all of them. */
module Audit {
  import opened Bytes
  import opened Utf8
  import opened PathCodec
  import opened Repository
  import opened Snapshot
  import opened Claims
  import opened Binding
  import opened BindingOrder
  import opened StampVerdict
  import Bind
  import Create

  datatype ClaimFailure =
    | BadArtifacts(artifacts: ClaimError)
    | SnapshotFailed(snapshot: SnapshotError)
    | UnresolvableBinding(commit: Bytes)
    | VerdictFailed(verdict: StampError)

  /** The bound stamps, resolved by their `--commit` annotations in order; or
      the first annotation that leads nowhere. */
  function ResolveBindings(history: History, groups: Groups): Result<seq<BoundStamp>, ClaimFailure> {
    if groups == [] then Ok([])
    else
      var last := groups[|groups| - 1];
      match ResolveBindings(history, groups[..|groups| - 1])
      case Err(failure) => Err(failure)
      case Ok(before) =>
        match Bind.ResolveGroup(history, last)
        case None => Err(UnresolvableBinding(last.commit))
        case Some(stamp) => Ok(before + [stamp])
  }

  function GroupsOfManifest(table: Table, manifestBytes: Bytes): Groups {
    match ParseBoundManifest(table, manifestBytes)
    case Some(manifest) => manifest.bindingGroups
    case None => []
  }

  function Judge(table: Table, hash: Hasher, verify: TokenVerifier, history: History, commit: ObjectId,
          treeEntries: Entries): Result<StampSummary, ClaimFailure>
  {
    match ReadArtifacts(history, commit)
    case Err(failure) => Err(BadArtifacts(failure))
    case Ok(artifacts) =>
      match treeEntries
      case Err(failure) => Err(SnapshotFailed(failure))
      case Ok(entries) =>
        match ResolveBindings(history, GroupsOfManifest(table, artifacts.manifestBytes))
        case Err(failure) => Err(failure)
        case Ok(bound) =>
          match Verdict(table, hash, verify, StampInputs(artifacts.manifestBytes, entries, artifacts.tokens, bound))
          case Err(failure) => Err(VerdictFailed(failure))
          case Ok(summary) => Ok(summary)
  }

  /** Where a commit's tree stands within its repository. */
  function PlaceOf(history: History, repository: nat, commit: ObjectId): Place
    requires commit in history.commits
  {
    Place(repository, history.commits[commit].tree)
  }

  /** The judgement is the one over some enumeration of the commit's tree. */
  ghost predicate IsJudged(table: Table, hash: Hasher, verify: TokenVerifier, history: History, world: World,
          repository: nat, commit: ObjectId,
          judgement: Result<StampSummary, ClaimFailure>) {
    commit in history.commits
    && exists entries :: Create.IsSnapshot(world, PlaceOf(history, repository, commit), entries)
                         && judgement == Judge(table, hash, verify, history, commit, entries)
  }

  method JudgeClaim(table: Table, hash: Hasher, verify: TokenVerifier, history: History, world: World,
          repository: nat, commit: ObjectId)
    returns (judgement: Result<StampSummary, ClaimFailure>)
    ensures ReadArtifacts(history, commit).Err? ==> judgement == Err(BadArtifacts(ReadArtifacts(history, commit).error))
    ensures ReadArtifacts(history, commit).Ok? ==>
            IsJudged(table, hash, verify, history, world, repository, commit, judgement)
    ensures judgement.Err? && judgement.error.SnapshotFailed? ==>
              commit in history.commits
              && Drained(world, [], [Root(PlaceOf(history, repository, commit))]) == Err(judgement.error.snapshot)
  {
    hide Drained, Verdict, Enumerate, ReadArtifacts, Create.IsSnapshot, ResolveBindings, GroupsOfManifest;
    var artifacts := ReadArtifacts(history, commit);
    if artifacts.Err? { return Err(BadArtifacts(artifacts.error)); }
    ArtifactsAreOfACommit(history, commit);
    var treeEntries := Snapshot.Run(world, PlaceOf(history, repository, commit));
    SnapshotWasRun(world, PlaceOf(history, repository, commit), treeEntries);
    if treeEntries.Err? { return Err(SnapshotFailed(treeEntries.error)); }
    var resolved := ResolveEach(history, GroupsOfManifest(table, artifacts.value.manifestBytes));
    BindingsExact(history, GroupsOfManifest(table, artifacts.value.manifestBytes));
    if resolved.Err? { return Err(resolved.error); }
    var inputs := StampInputs(artifacts.value.manifestBytes, treeEntries.value, artifacts.value.tokens, resolved.value);
    var verdict := StampVerdict.Run(table, hash, verify, inputs);
    match verdict {
      case Err(failure) => return Err(VerdictFailed(failure));
      case Ok(summary) => return Ok(summary);
    }
  }

  method ResolveEach(history: History, groups: Groups) returns (resolved: Result<seq<BoundStamp>, ClaimFailure>)
    ensures resolved == ResolveBindings(history, groups)
  {
    hide Bind.ResolveGroup;
    var stamps: seq<BoundStamp> := [];
    for i := 0 to |groups|
      invariant ResolveBindings(history, groups[..i]) == Ok(stamps)
    {
      assert groups[..i + 1][..i] == groups[..i];
      var stamp := Bind.ResolveGroup(history, groups[i]);
      if stamp.None? {
        BindingsStop(history, groups, i + 1);
        return Err(UnresolvableBinding(groups[i].commit));
      }
      stamps := stamps + [stamp.value];
    }
    assert groups[..|groups|] == groups;
    return Ok(stamps);
  }

  lemma SnapshotWasRun(world: World, root: Place, entries: Entries)
    requires entries.Ok? <==> Enumerate(world, Root(root)).Ok?
    requires entries.Ok? ==> multiset(entries.value) == multiset(Enumerate(world, Root(root)).value)
    ensures Create.IsSnapshot(world, root, entries)
  {
  }

  lemma ArtifactsAreOfACommit(history: History, commit: ObjectId)
    requires ReadArtifacts(history, commit).Ok?
    ensures commit in history.commits
  {
  }

  lemma {:induction false} BindingsStop(history: History, groups: Groups, n: nat)
    requires n <= |groups| && ResolveBindings(history, groups[..n]).Err?
    ensures ResolveBindings(history, groups) == ResolveBindings(history, groups[..n])
    decreases |groups|
  {
    if n == |groups| {
      assert groups[..n] == groups;
    } else {
      var before := groups[..|groups| - 1];
      assert before[..n] == groups[..n];
      BindingsStop(history, before, n);
    }
  }

  /** Every group resolves exactly when each does on its own. */
  lemma {:induction false} BindingsExact(history: History, groups: Groups)
    ensures ResolveBindings(history, groups).Ok? <==>
            forall i | 0 <= i < |groups| :: Bind.ResolveGroup(history, groups[i]).Some?
    ensures ResolveBindings(history, groups).Ok? ==>
              |ResolveBindings(history, groups).value| == |groups|
              && forall i | 0 <= i < |groups| ::
                   Bind.ResolveGroup(history, groups[i]) == Some(ResolveBindings(history, groups).value[i])
    ensures ResolveBindings(history, groups).Err? ==> ResolveBindings(history, groups).error.UnresolvableBinding?
    decreases |groups|
  {
    hide Bind.ResolveGroup;
    if groups != [] {
      var before := groups[..|groups| - 1];
      BindingsExact(history, before);
      assert forall i | 0 <= i < |before| :: before[i] == groups[i];
    }
  }
}
