/** A stamp created, written to the object stores and audited at once: the
    end-to-end theorem as one run. */
module StampAndAudit {
  import opened Bytes
  import opened PathCodec
  import opened ManifestModel
  import opened Repository
  import opened Snapshot
  import opened SnapshotMembers
  import opened Seal
  import opened Claims
  import opened Binding
  import opened StampVerdict
  import opened Create
  import opened Audit
  import opened FreshStamp
  import Acquire
  import Bind
  import ManifestText
  import SnapshotPaths

  /** Lists any tree's files as a traversal would. */
  type Lister = Files -> seq<Record>

  ghost predicate IsLister(list: Lister) {
    forall files | IsFiles(files) :: Lists(list(files), files)
  }

  /** The names the new tree and commit get, and what has them already. */
  ghost predicate AreFresh(history: History, world: World, inputs: CreateInputs, tree: ObjectId, commit: ObjectId) {
    && commit !in history.commits && tree !in history.trees
    && Place(inputs.content.repository, tree) !in world.trees
    && !Meets(world, Root(inputs.content), tree)
  }

  function WithCommit(history: History, commit: ObjectId, tree: ObjectId, parents: seq<ObjectId>,
          records: seq<Record>): History
  {
    History(history.commits[commit := Commit(tree, parents)], history.trees[tree := records])
  }

  function WithTree(world: World, place: Place, records: seq<Record>): World {
    world.(trees := world.trees[place := records])
  }

  /** Writing the sealed tree and its commit is all it takes to stand as the
      created stamp. */
  lemma WrittenIsSealed(table: Table, hash: Hasher, outside: Acquire.Outside, list: Lister, history: History,
          world: World,
          inputs: CreateInputs, created: Created, tree: ObjectId, commit: ObjectId)
    requires IsCreated(table, hash, outside, history, world, inputs, created) && IsLister(list)
    requires HoldsTrees(history) && SnapshotPaths.TreesAreTrees(world) && AreFresh(history, world, inputs, tree, commit)
    ensures var records := list(created.files);
            var later := WithCommit(history, commit, tree, inputs.parents, records);
            var grown := WithTree(world, Place(inputs.content.repository, tree), records);
            && IsSealedAs(history, later, world, grown, inputs, created, commit)
            && StoresAreSound(history, world, grown)
  {
    hide Acquire.Acquired, Bind.IsBindingSet, Bind.PassesOrderCheck, IsSnapshot, ManifestText.Serialized, SealedTree,
         ReadConfig, IsTree, FilesOf, Meets, IsFiles;
    var content := world.trees[inputs.content];
    FoundInFiles(content);
    SealedAreFiles(FilesOf(content), created.manifestBytes, created.tokens);
    assert Lists(list(created.files), created.files);
  }

  /** Creates a stamp, writes it to the stores and audits it there. */
  method Run(table: Table, hash: Hasher, outside: Acquire.Outside, verify: TokenVerifier, list: Lister,
          history: History, world: World,
          inputs: CreateInputs, tree: ObjectId, commit: ObjectId)
    returns (created: Result<Created, CreateError>, judgement: Option<Result<StampSummary, ClaimFailure>>)
    requires inputs.content in world.trees && IsLister(list)
    requires HoldsTrees(history) && SnapshotPaths.TreesAreTrees(world) && AreFresh(history, world, inputs, tree, commit)
    ensures created.Ok? <==> judgement.Some?
    ensures created.Ok? && DistinctSha256(created.value.manifest.bindingGroups) ==>
              var entries, stamp := Enumerate(world, Root(inputs.content)), created.value;
              && entries.Ok?
              && (judgement.value.Ok? <==>
                    !Displaces(entries.value)
                    && exists t | t in stamp.tokens :: verify(t.content, stamp.manifestBytes).Ok?)
              && (judgement.value.Err? ==>
                    && judgement.value.error.VerdictFailed?
                    && if Displaces(entries.value) then judgement.value.error.verdict.TreeDisagrees?
                       else judgement.value.error.verdict.AllTokensRejected?)
  {
    hide IsCreated, IsSealedAs, StoresAreSound, Enumerate, Displaces, DistinctSha256, IsJudged,
         ReadArtifacts, AreFresh, IsLister, HoldsTrees, SnapshotPaths.TreesAreTrees;
    created := Create.Run(table, hash, outside, history, world, inputs);
    if created.Err? { return created, None; }
    var records := list(created.value.files);
    var later := WithCommit(history, commit, tree, inputs.parents, records);
    var grown := WithTree(world, Place(inputs.content.repository, tree), records);
    WrittenIsSealed(table, hash, outside, list, history, world, inputs, created.value, tree, commit);
    var judged := JudgeClaim(table, hash, verify, later, grown, inputs.content.repository, commit);
    if DistinctSha256(created.value.manifest.bindingGroups) {
      SealedReads(table, hash, outside, history, world, inputs, created.value, later, grown, commit);
      FreshStampVerdict(table, hash, verify, outside, history, world, inputs, created.value, later, grown, commit,
          judged);
    }
    return created, Some(judged);
  }

  /** The sealed commit's artifacts read. */
  lemma SealedReads(table: Table, hash: Hasher, outside: Acquire.Outside, history0: History, world0: World,
          inputs: CreateInputs, created: Created, history: History, world: World, commit: ObjectId)
    requires IsCreated(table, hash, outside, history0, world0, inputs, created)
    requires IsSealedAs(history0, history, world0, world, inputs, created, commit)
             && StoresAreSound(history0, world0, world)
    ensures ReadArtifacts(history, commit).Ok?
  {
    hide Acquire.Acquired, Bind.IsBindingSet, Bind.PassesOrderCheck, IsSnapshot, ManifestText.Serialized, SealedTree,
         ReadConfig, IsTree, FilesOf, Meets, IsFiles, HasValidSites, ReadArtifacts, Lists, HoldsTrees;
    SealedIsResealed(table, hash, outside, history0, world0, inputs, created, history, world, commit);
    CreatedSites(table, hash, outside, history0, world0, inputs, created);
    SealedArtifacts(history, commit, FilesOf(world0.trees[inputs.content]), created.manifestBytes, created.tokens);
  }
}
