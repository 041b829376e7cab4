/** Creating a stamp commit (stamping specification, section 5): the data flow
    from the content tree to the sealed tree. */
module Create {
  import opened Bytes
  import opened Utf8
  import opened PathCodec
  import opened ManifestModel
  import opened Repository
  import opened Snapshot
  import opened Seal
  import opened Binding
  import opened BindingOrder
  import Acquire
  import Bind
  import Claims
  import Config
  import ManifestText

  datatype CreateError =
    | MissingConfig
    | UnreadableConfig
    | BadConfig(fault: Config.ConfigError)
    | SnapshotFailed(snapshot: SnapshotError)
    | BindFailed(bind: Bind.BindError)
    | Unprintable(field: ManifestText.UnprintableField)
    | AcquireFailed(acquire: Acquire.AcquireError)

  /** The commit's content and position, and the policy it is stamped under. */
  datatype CreateInputs = CreateInputs(content: Place, parents: seq<ObjectId>, profileName: Bytes, crls: seq<Bytes>)

  datatype Created = Created(
    manifest: Manifest,
    manifestBytes: Bytes,
    tokens: seq<Acquire.AcquiredToken>,
    warnings: seq<Acquire.SiteFailure>,
    files: Files)

  /** The policy stands in a readable regular file of UTF-8 text. */
  predicate IsPolicyFile(r: Record) {
    r.path == ".tydence/config" && IsBlobMode(r.mode) && r.blob.Some? && Valid(r.blob.value)
  }

  /** The stamping policy is read out of the content being stamped. */
  function ReadConfig(records: seq<Record>): (config: Result<Config.Configuration, CreateError>)
    ensures config.Ok? ==> HoldsFile(records, CONFIG_PATH)
    ensures config.Ok? ==> exists r | r in records :: IsPolicyFile(r) && Config.Parse(r.blob.value) == Ok(config.value)
    ensures config.Err? ==> config.error.MissingConfig? || config.error.UnreadableConfig? || config.error.BadConfig?
    ensures config.Err? && config.error.BadConfig? ==>
              exists r | r in records :: IsPolicyFile(r) && Config.Parse(r.blob.value) == Err(config.error.fault)
    ensures config == Err(MissingConfig) <==> !HoldsEntry(records, ".tydence/config")
  {
    match FindFile(records, CONFIG_PATH)
    case None => Err(if HoldsDirectory(records, CONFIG_PATH) then UnreadableConfig else MissingConfig)
    case Some(entry) =>
      if !IsBlobMode(entry.mode) || entry.blob.None? || !Valid(entry.blob.value) then Err(UnreadableConfig)
      else
        match Config.Parse(entry.blob.value)
        case Ok(config) => Ok(config)
        case Err(fault) => Err(BadConfig(fault))
  }

  /** In a tree the policy is exactly what its one policy file parses to. */
  lemma ReadConfigExact(records: seq<Record>, r: Record)
    requires IsTree(records) && r in records && r.path == ".tydence/config" && !IsTreeMode(r.mode)
    ensures if !IsPolicyFile(r) then ReadConfig(records) == Err(UnreadableConfig)
            else
              match Config.Parse(r.blob.value)
              case Ok(config) => ReadConfig(records) == Ok(config)
              case Err(fault) => ReadConfig(records) == Err(BadConfig(fault))
  {
    hide IsTree, Config.Parse, Utf8.Valid;
    FoundIsOnly(records, r);
  }

  function CommitTexts(parents: seq<ObjectId>): (texts: seq<Bytes>)
    ensures |texts| == |parents| && forall i | 0 <= i < |parents| :: texts[i] == Bind.CommitHex(parents[i])
  {
    seq(|parents|, i requires 0 <= i < |parents| => Bind.CommitHex(parents[i]))
  }

  /** The entries are those of the tree, in whatever order the worklist met
      them. */
  ghost predicate IsSnapshot(world: World, root: Place, entries: Entries) {
    && (entries.Ok? <==> Enumerate(world, Root(root)).Ok?)
    && (entries.Ok? ==> multiset(entries.value) == multiset(Enumerate(world, Root(root)).value))
  }

  /** The policy read from the content, applied to the fixed manifest. */
  function PolicyInputs(world: World, inputs: CreateInputs, manifestBytes: Bytes): Acquire.Inputs
    requires inputs.content in world.trees && ReadConfig(world.trees[inputs.content]).Ok?
  {
    Acquire.Inputs(ReadConfig(world.trees[inputs.content]).value, inputs.profileName, manifestBytes, inputs.crls)
  }

  /** The manifest of the content and its binding set, parents named. */
  ghost predicate IsDraft(table: Table, hash: Hasher, history: Claims.History, world: World, inputs: CreateInputs,
          manifest: Manifest)
  {
    && IsSnapshot(world, inputs.content, Ok(manifest.entries))
    && Bind.IsBindingSet(hash, history, inputs.parents, manifest.bindingGroups)
    && (DistinctSha256(manifest.bindingGroups) ==> Bind.PassesOrderCheck(table, history, manifest.bindingGroups))
    && manifest.parents == CommitTexts(inputs.parents)
  }

  /** Everything a created stamp is made of, and where each part comes from. */
  ghost predicate IsCreated(table: Table, hash: Hasher, outside: Acquire.Outside, history: Claims.History,
          world: World, inputs: CreateInputs, created: Created)
  {
    && inputs.content in world.trees
    && ReadConfig(world.trees[inputs.content]).Ok?
    && IsDraft(table, hash, history, world, inputs, created.manifest)
    && ManifestText.Serialized(table, created.manifest) == Ok(created.manifestBytes)
    && Acquire.Acquired(outside, PolicyInputs(world, inputs, created.manifestBytes))
       == Ok(Acquire.Acquisition(created.tokens, created.warnings))
    && created.files == SealedTree(FilesOf(world.trees[inputs.content]), created.manifestBytes, created.tokens)
  }

  /** What each failure means; a later step fails only once the steps before
      it succeeded. */
  ghost predicate IsFault(table: Table, hash: Hasher, outside: Acquire.Outside, history: Claims.History,
          world: World, inputs: CreateInputs, error: CreateError)
    requires inputs.content in world.trees
  {
    var config := ReadConfig(world.trees[inputs.content]);
    if config.Err? then error == config.error
    else if Enumerate(world, Root(inputs.content)).Err? then
      error.SnapshotFailed? && Drained(world, [], [Root(inputs.content)]) == Err(error.snapshot)
    else if error.BindFailed? then Bind.IsDue(table, hash, history, inputs.parents, Err(error.bind))
    else if error.Unprintable? then IsUnprintable(table, hash, history, world, inputs, error.field)
    else error.AcquireFailed? && IsUnacquired(table, hash, outside, history, world, inputs, error.acquire)
  }

  ghost predicate IsUnprintable(table: Table, hash: Hasher, history: Claims.History, world: World,
          inputs: CreateInputs, field: ManifestText.UnprintableField)
  {
    exists manifest | IsDraft(table, hash, history, world, inputs, manifest) ::
      ManifestText.Serialized(table, manifest) == Err(field)
  }

  ghost predicate IsUnacquired(table: Table, hash: Hasher, outside: Acquire.Outside, history: Claims.History,
          world: World, inputs: CreateInputs, cause: Acquire.AcquireError)
    requires inputs.content in world.trees && ReadConfig(world.trees[inputs.content]).Ok?
  {
    exists manifest | IsDraft(table, hash, history, world, inputs, manifest) ::
      var text := ManifestText.Serialized(table, manifest);
      text.Ok? && Acquire.Acquired(outside, PolicyInputs(world, inputs, text.value)) == Err(cause)
  }

  method Run(table: Table, hash: Hasher, outside: Acquire.Outside, history: Claims.History, world: World,
          inputs: CreateInputs)
    returns (created: Result<Created, CreateError>)
    requires inputs.content in world.trees
    ensures created.Ok? ==> IsCreated(table, hash, outside, history, world, inputs, created.value)
    ensures created.Ok? ==> Enumerate(world, Root(inputs.content)).Ok?
    ensures created.Ok? ==> Bind.IsDue(table, hash, history, inputs.parents, Ok(created.value.manifest.bindingGroups))
    ensures created.Err? ==> IsFault(table, hash, outside, history, world, inputs, created.error)
  {
    hide ReadConfig, Enumerate, Bind.IsBindingSet, Bind.PassesOrderCheck, Bind.IsDue, DistinctSha256,
         ManifestText.Serialized, Acquire.Acquired, SealedTree, Drained;
    var records := world.trees[inputs.content];
    var config := ReadConfig(records);
    if config.Err? { return Err(config.error); }
    var entries := Snapshot.Run(world, inputs.content);
    if entries.Err? { return Err(SnapshotFailed(entries.error)); }
    var groups := Bind.Run(table, hash, history, inputs.parents);
    if groups.Err? { return Err(BindFailed(groups.error)); }
    var manifest := Manifest(CommitTexts(inputs.parents), groups.value, entries.value);
    assert IsDraft(table, hash, history, world, inputs, manifest);
    var text := ManifestText.Serialize(table, manifest);
    if text.Err? { return Err(Unprintable(text.error)); }
    var acquisition := Acquire.Run(outside, PolicyInputs(world, inputs, text.value));
    if acquisition.Err? { return Err(AcquireFailed(acquisition.error)); }
    var files := StampTree(records, text.value, acquisition.value.tokens);
    return Ok(Created(manifest, text.value, acquisition.value.tokens, acquisition.value.warnings, files));
  }
}
