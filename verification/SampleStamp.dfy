/** A stamp made of concrete values, twice: over content that leaves the
    artifacts' paths free, and over content with a file where the token
    directory goes. The first stands as soon as its token verifies; the second
    fails its own tree check. */
module SampleStamp {
  import opened Bytes
  import opened Utf8
  import opened PathCodec
  import opened ManifestModel
  import opened Repository
  import opened Snapshot
  import opened SnapshotMembers
  import opened Seal
  import opened Claims
  import opened Binding
  import opened StampVerdict
  import opened Create
  import opened Audit
  import opened FreshStamp
  import opened StampAndAudit
  import Acquire
  import Bind
  import BindingOrder
  import Config
  import ConfigBlocks
  import ConfigMeaning
  import ManifestText
  import SealedSnapshot
  import SnapshotPaths

  // ----- the policy -----

  const DIRECTIVES: seq<Config.Line> := [
    Config.Line("Site", ["a"], 1),
    Config.Line("URL", ["https://a"], 2),
    Config.Line("Imprint", ["sha256"], 3),
    Config.Line("Profile", ["p"], 4),
    Config.Line("UseSite", ["a"], 5)
  ]

  const SITE: Config.Site := Config.Site("https://a", Config.Sha256)

  const CHOICE: Config.UseSite := Config.UseSite("a", false)

  const POLICY_MEANING: Config.Configuration :=
    Config.Configuration(map["a" := SITE], map["p" := Config.Profile([CHOICE])])

  predicate IsPlainToken(token: Bytes) {
    token != [] && forall i | 0 <= i < |token| :: 0x21 <= token[i] as int <= 0x7E && token[i] != '#'
  }

  predicate IsPlainLine(line: Config.Line) {
    IsPlainToken(line.directive) && |line.arguments| == 1 && IsPlainToken(line.arguments[0])
  }

  function WrittenLine(line: Config.Line): Bytes {
    line.directive + " " + if line.arguments == [] then [] else line.arguments[0]
  }

  function Written(lines: seq<Config.Line>): (raw: seq<Bytes>)
    ensures |raw| == |lines| && forall i | 0 <= i < |lines| :: raw[i] == WrittenLine(lines[i])
  {
    seq(|lines|, i requires 0 <= i < |lines| => WrittenLine(lines[i]))
  }

  lemma DirectivesArePlain()
    ensures forall i | 0 <= i < |DIRECTIVES| :: IsPlainLine(DIRECTIVES[i]) && DIRECTIVES[i].number == i + 1
  {
    assert IsPlainLine(DIRECTIVES[0]) && IsPlainLine(DIRECTIVES[1]) && IsPlainLine(DIRECTIVES[2]);
    assert IsPlainLine(DIRECTIVES[3]) && IsPlainLine(DIRECTIVES[4]);
  }

  /** The five lines, written out: a site, and a profile selecting it. */
  function Policy(): Bytes {
    Join(Written(DIRECTIVES), '\n')
  }

  lemma {:induction false} RunOfToken(token: Bytes, rest: Bytes)
    requires forall i | 0 <= i < |token| :: token[i] != ' ' && token[i] != '\t'
    requires rest == [] || rest[0] == ' '
    ensures Config.RunLength(token + rest) == |token|
  {
    if token == [] {
      assert token + rest == rest;
    } else {
      assert (token + rest)[1..] == token[1..] + rest;
      RunOfToken(token[1..], rest);
    }
  }

  lemma TokensOfTwo(a: Bytes, b: Bytes)
    requires IsPlainToken(a) && IsPlainToken(b)
    ensures Config.Tokens(a + " " + b) == [a, b]
  {
    var line := a + " " + b;
    RunOfToken(a, " " + b);
    RunOfToken(b, []);
    assert line == a + (" " + b) && b + [] == b;
    assert line[..|a|] == a && line[|a|..] == " " + b && (" " + b)[1..] == b;
    assert b[..|b|] == b && b[|b|..] == [];
    assert Config.Tokens(b) == [b] + Config.Tokens([]);
    assert Config.Tokens(" " + b) == [b];
  }

  lemma LexTwo(a: Bytes, b: Bytes)
    requires IsPlainToken(a) && IsPlainToken(b)
    ensures Config.LexLine(a + " " + b) == [a, b]
  {
    hide Config.Tokens;
    var line := a + " " + b;
    TokensOfTwo(a, b);
    assert line[|line| - 1] == b[|b| - 1] && line[0] == a[0];
    assert Config.Trimmed(line) == line;
    ConfigMeaning.MarkLeads(line);
  }

  lemma {:induction false} LexesBack(lines: seq<Config.Line>, number: nat)
    requires forall i | 0 <= i < |lines| :: IsPlainLine(lines[i]) && lines[i].number == number + i
    ensures Config.LexLines(Written(lines), number) == lines
    decreases |lines|
  {
    hide Config.LexLine, IsPlainToken;
    if lines != [] {
      var first, rest := lines[0], lines[1..];
      LexTwo(first.directive, first.arguments[0]);
      assert Written(lines)[1..] == Written(rest);
      LexesBack(rest, number + 1);
      assert [first.directive, first.arguments[0]][1..] == first.arguments;
    }
  }

  lemma PolicyLexes()
    ensures Config.LexLines(Split(Policy(), '\n'), 1) == DIRECTIVES
  {
    hide Config.LexLines, Join, Split;
    DirectivesArePlain();
    LexesBack(DIRECTIVES, 1);
    var raw := Written(DIRECTIVES);
    forall i | 0 <= i < |raw| ensures '\n' !in raw[i] { OneLine(DIRECTIVES[i]); }
    SplitOfJoin(raw, '\n');
  }

  lemma OneLine(line: Config.Line)
    requires IsPlainLine(line)
    ensures '\n' !in WrittenLine(line)
  {
  }

  lemma SiteBlockReads()
    ensures ConfigBlocks.IsBlock(DIRECTIVES[..3])
    ensures ConfigBlocks.Alone(DIRECTIVES[..3]) == Ok(Config.State(Config.TopLevel, map["a" := SITE], map[], []))
  {
    hide ConfigBlocks.Alone;
    var block := DIRECTIVES[..3];
    assert block[1..] == [DIRECTIVES[1], DIRECTIVES[2]];
    assert ConfigMeaning.DefinesSite(block, "a", SITE);
    ConfigMeaning.SiteBlockExact(block);
  }

  lemma ProfileBlockReads()
    ensures ConfigBlocks.IsBlock(DIRECTIVES[3..])
    ensures ConfigBlocks.Alone(DIRECTIVES[3..]) ==
            Ok(Config.State(Config.TopLevel, map[], map["p" := Config.Profile([CHOICE])],
                [Config.SiteReference("a", 5)]))
  {
    hide ConfigBlocks.Alone;
    var block := DIRECTIVES[3..];
    var body := block[1..];
    assert body == [DIRECTIVES[4]];
    ConfigMeaning.MarkLeads("a");
    assert ConfigMeaning.ChoiceOf(DIRECTIVES[4]) == Some(CHOICE);
    assert ConfigMeaning.Choices(body) == [CHOICE];
    ConfigMeaning.ProfileBlockExact(block);
    assert ConfigMeaning.ReferencesTo(body, [CHOICE]) == [Config.SiteReference("a", 5)];
  }

  lemma PolicyParses()
    ensures Config.Parse(Policy()) == Ok(POLICY_MEANING)
  {
    hide Config.LexLines, Config.ParseLines, ConfigBlocks.Alone, ConfigBlocks.IsBlock, Policy, Split;
    PolicyLexes();
    SiteBlockReads();
    ProfileBlockReads();
    var blocks := [DIRECTIVES[..3], DIRECTIVES[3..]];
    assert blocks[1..] == [DIRECTIVES[3..]] && blocks[1..][1..] == [];
    assert ConfigBlocks.Flatten(blocks[1..][1..]) == [];
    assert DIRECTIVES[3..] + [] == DIRECTIVES[3..] && DIRECTIVES[..3] + DIRECTIVES[3..] == DIRECTIVES;
    assert ConfigBlocks.Flatten(blocks) == DIRECTIVES;
    ConfigBlocks.ParsesAsUnion(blocks);
    PolicyUnion(blocks);
  }

  lemma PolicyUnion(blocks: seq<seq<Config.Line>>)
    requires |blocks| == 2
    requires ConfigBlocks.Alone(blocks[0]) == Ok(Config.State(Config.TopLevel, map["a" := SITE], map[], []))
    requires ConfigBlocks.Alone(blocks[1]) ==
             Ok(Config.State(Config.TopLevel, map[], map["p" := Config.Profile([CHOICE])],
                 [Config.SiteReference("a", 5)]))
    ensures var union := ConfigBlocks.Assembled(blocks);
            && union.Some? && ConfigBlocks.Resolved(union.value)
            && union.value.sites == POLICY_MEANING.sites && union.value.profiles == POLICY_MEANING.profiles
  {
    hide ConfigBlocks.Alone;
    var second := Config.State(Config.TopLevel, map[], map["p" := Config.Profile([CHOICE])],
        [Config.SiteReference("a", 5)]);
    assert blocks[1..] == [blocks[1]] && [blocks[1]][1..] == [];
    assert ConfigBlocks.Assembled([]) == Some(Config.INITIAL);
    assert ConfigBlocks.Under(second, Config.INITIAL) == second;
    assert ConfigBlocks.Assembled([blocks[1]]) == Some(second);
  }

  // ----- the content, with or without a file in the way -----

  const NAME_BASE: ObjectId := "11111111111111111111"
  const NAME_SEALED: ObjectId := "22222222222222222222"
  const NAME_COMMIT: ObjectId := "33333333333333333333"

  const BASE: Place := Place(0, NAME_BASE)

  const INPUTS: CreateInputs := CreateInputs(BASE, [], "p", [])

  const NO_HISTORY: History := History(map[], map[])

  function Content(stray: bool): seq<Record> {
    [BlobRecord(CONFIG_PATH, Policy())] + if stray then [BlobRecord(TOKENS_PATH, [])] else []
  }

  function SampleWorld(hash: Hasher, stray: bool): World {
    World(map[BASE := Content(stray)], (repository, modules, path, commit) => None, hash)
  }

  /** An authority whose token is the empty text, which verifies. */
  const OUTSIDE: Acquire.Outside :=
    Acquire.Outside((name, site, manifest) => Ok([]), (name, token) => Ok([]), (token, manifest, crls) => Ok(()))

  const TOKENS: seq<Acquire.AcquiredToken> := [Acquire.AcquiredToken("a", [])]

  lemma PathsDiffer()
    ensures |CONFIG_PATH| == 15 && |MANIFEST_PATH| == 17 && |TOKENS_PATH| == 15
    ensures CONFIG_PATH[9] == 'c' && MANIFEST_PATH[9] == 'm' && TOKENS_PATH[9] == 't'
    ensures |TokenPath("a")| == 21 && TokenPath("a")[9] == 't' && TokenPath("a")[15] == '/'
    ensures !IsBelow(TOKENS_PATH, CONFIG_PATH) && !IsBelow(CONFIG_PATH, TOKENS_PATH)
  {
    assert TokenPath("a") == TOKENS_PATH + "/" + ("a" + TOKEN_FILE_SUFFIX);
  }

  lemma ContentIsTree(stray: bool)
    ensures IsTree(Content(stray)) && HoldsFile(Content(stray), CONFIG_PATH)
    ensures forall i | 0 <= i < |Content(stray)| :: Content(stray)[i].mode == REGULAR_MODE
  {
    hide Policy;
    PathsDiffer();
    assert Content(stray)[0] in Content(stray);
  }

  lemma {:induction false} NoGitlinks(prefix: Bytes, records: seq<Record>)
    requires forall i | 0 <= i < |records| :: records[i].mode != GITLINK_MODE
    ensures Gitlinks(prefix, records) == []
  {
    if records != [] { NoGitlinks(prefix, records[1..]); }
  }

  lemma {:induction false} JoinedLength(lines: seq<Bytes>, limit: nat)
    requires lines != [] && forall i | 0 <= i < |lines| :: |lines[i]| < limit
    ensures |Join(lines, '\n')| <= |lines| * limit
  {
    if |lines| > 1 {
      JoinedLength(lines[1..], limit);
      assert |lines| * limit == (|lines| - 1) * limit + limit;
    }
  }

  lemma {:induction false} JoinedAscii(lines: seq<Bytes>)
    requires lines != [] && forall i, k | 0 <= i < |lines| && 0 <= k < |lines[i]| :: lines[i][k] as int < 0x80
    ensures forall k | 0 <= k < |Join(lines, '\n')| :: Join(lines, '\n')[k] as int < 0x80
  {
    if |lines| > 1 { JoinedAscii(lines[1..]); }
  }

  lemma PolicyIsSmall()
    ensures |Policy()| < 0x1_0000_0000_0000_0000 && Valid(Policy())
  {
    hide Utf8.Valid, Join;
    DirectivesArePlain();
    var raw := Written(DIRECTIVES);
    assert |raw| == 5 && forall i | 0 <= i < |raw| :: |raw[i]| < 20;
    JoinedLength(raw, 20);
    JoinedAscii(raw);
    AsciiValid(Policy());
  }

  lemma ContentEnumerates(hash: Hasher, stray: bool)
    ensures var world := SampleWorld(hash, stray);
            Children(world, Root(BASE), Content(stray)) == Ok([]) && Enumerate(world, Root(BASE)).Ok?
    ensures SnapshotPaths.TreesAreTrees(SampleWorld(hash, stray))
  {
    hide Enumerate, Policy, IsTree;
    var world := SampleWorld(hash, stray);
    ContentIsTree(stray);
    PolicyIsSmall();
    SealedSnapshot.RootExact(world, BASE);
    OwnExact(world, [], Content(stray));
    NoGitlinks([], Content(stray));
  }

  /** Only the stray file is in the way. */
  lemma StrayDisplaces(hash: Hasher, stray: bool)
    ensures Enumerate(SampleWorld(hash, stray), Root(BASE)).Ok?
    ensures Displaces(Enumerate(SampleWorld(hash, stray), Root(BASE)).value) <==> stray
  {
    hide Enumerate, Policy, IsTree, Displaces;
    var world, content := SampleWorld(hash, stray), Content(stray);
    ContentIsTree(stray);
    ContentEnumerates(hash, stray);
    DisplacesByRecords(world, BASE);
    ArtifactsDiffer(CONFIG_PATH);
    PathsDiffer();
    assert !IsLost(CONFIG_PATH);
    if stray {
      assert content[1] in content;
      assert Obstructs(world, BASE, content, content[1]);
    } else {
      assert forall r | r in content :: r.path == CONFIG_PATH;
    }
  }

  lemma PolicyRead(stray: bool)
    ensures ReadConfig(Content(stray)) == Ok(POLICY_MEANING)
  {
    hide Policy, ReadConfig, Config.Parse, Utf8.Valid, IsTree;
    ContentIsTree(stray);
    PolicyIsSmall();
    PolicyParses();
    assert Content(stray)[0] in Content(stray);
    ReadConfigExact(Content(stray), Content(stray)[0]);
  }

  /** A first commit has nothing to bind. */
  lemma NothingBound(table: Table, hash: Hasher)
    ensures Bind.IsBindingSet(hash, NO_HISTORY, [], []) && Bind.PassesOrderCheck(table, NO_HISTORY, [])
            && DistinctSha256([])
  {
    assert BindingOrder.Greedy([], [], []) == Some([]);
    assert BindingOrder.Pick([], []) == [];
  }

  lemma TokenAcquired(manifestBytes: Bytes)
    ensures Acquire.Acquired(OUTSIDE, Acquire.Inputs(POLICY_MEANING, "p", manifestBytes, [])) ==
            Ok(Acquire.Acquisition(TOKENS, []))
  {
    var inputs := Acquire.Inputs(POLICY_MEANING, "p", manifestBytes, []);
    Acquire.ResolveNone(POLICY_MEANING.sites);
    Acquire.ResolveStep(POLICY_MEANING.sites, [CHOICE], 0);
    assert [CHOICE][..0] == [] && [CHOICE][..1] == [CHOICE];
    var selected := [Acquire.Selected(CHOICE, SITE)];
    assert [] + selected == selected;
    assert Acquire.Resolve(POLICY_MEANING.sites, [CHOICE]) == Ok(selected);
    assert selected[1..] == [];
    assert Acquire.SealableToken(OUTSIDE, inputs, selected[0]) == Ok([]);
    assert Acquire.Sealed(OUTSIDE, inputs, selected[1..]) == []
           && Acquire.Failures(OUTSIDE, inputs, selected[1..]) == [];
    assert Acquire.FirstFatal(OUTSIDE, inputs, selected[1..]).None?;
    assert Acquire.Sealed(OUTSIDE, inputs, selected) == TOKENS && Acquire.Failures(OUTSIDE, inputs, selected) == [];
    assert Acquire.FirstFatal(OUTSIDE, inputs, selected).None?;
    assert Acquire.Walked(OUTSIDE, inputs, selected) == Ok(Acquire.Acquisition(TOKENS, []));
    assert POLICY_MEANING.profiles["p"].selections == [CHOICE];
  }

  // ----- the stamp -----

  ghost function SampleManifest(hash: Hasher, stray: bool): Manifest {
    ContentEnumerates(hash, stray);
    Manifest([], [], Enumerate(SampleWorld(hash, stray), Root(BASE)).value)
  }

  lemma SampleSerializes(table: Table, hash: Hasher, stray: bool)
    ensures ManifestText.Serialized(table, SampleManifest(hash, stray)).Ok?
  {
    hide ManifestText.Serialized, Enumerate;
    ManifestText.SerializesWhenSpellable(table, SampleManifest(hash, stray));
  }

  ghost function Stamp(table: Table, hash: Hasher, stray: bool): Created {
    SampleSerializes(table, hash, stray);
    var text := ManifestText.Serialized(table, SampleManifest(hash, stray)).value;
    Created(SampleManifest(hash, stray), text, TOKENS, [], SealedTree(FilesOf(Content(stray)), text, TOKENS))
  }

  /** The values above are what a create makes of the content. */
  lemma SampleIsCreated(table: Table, hash: Hasher, stray: bool)
    ensures IsCreated(table, hash, OUTSIDE, NO_HISTORY, SampleWorld(hash, stray), INPUTS, Stamp(table, hash, stray))
  {
    hide Enumerate, Policy, ReadConfig, ManifestText.Serialized, Acquire.Acquired, Bind.IsBindingSet,
         Bind.PassesOrderCheck,
         FilesOf, SealedTree, Content;
    SampleSerializes(table, hash, stray);
    ContentEnumerates(hash, stray);
    PolicyRead(stray);
    NothingBound(table, hash);
    TokenAcquired(Stamp(table, hash, stray).manifestBytes);
    assert CommitTexts([]) == [];
  }

  // ----- sealed -----

  function SealedRecords(manifestBytes: Bytes): seq<Record> {
    [BlobRecord(CONFIG_PATH, Policy()), BlobRecord(MANIFEST_PATH, manifestBytes), TokenRecord(TOKENS[0])]
  }

  lemma SealedRecordsAreTree(manifestBytes: Bytes)
    ensures IsTree(SealedRecords(manifestBytes))
  {
    hide Policy;
    PathsDiffer();
  }

  lemma TokensArePlain()
    ensures ArePlainSites(TOKENS)
  {
  }

  /** Whatever the content, the three files are what sealing leaves. */
  lemma SealedIsListed(stray: bool, manifestBytes: Bytes)
    ensures Lists(SealedRecords(manifestBytes), SealedTree(FilesOf(Content(stray)), manifestBytes, TOKENS))
  {
    hide Policy, IsTree, SealedTree, IsFiles, FilesOf, TokenPath;
    var content := FilesOf(Content(stray));
    ContentIsTree(stray);
    FoundInFiles(Content(stray));
    TokensArePlain();
    SealedRecordsAreTree(manifestBytes);
    PathsDiffer();
    ArtifactsDiffer(CONFIG_PATH);
    var files, records := SealedTree(content, manifestBytes, TOKENS), SealedRecords(manifestBytes);
    assert records[0] in records && records[1] in records && records[2] in records;
    assert TOKENS[0] in TOKENS;
    ContentAtConfig(stray);
    SealedHolds(content, manifestBytes, TOKENS, CONFIG_PATH);
    SealedHolds(content, manifestBytes, TOKENS, MANIFEST_PATH);
    SealedHolds(content, manifestBytes, TOKENS, TokenPath("a"));
    forall p | p in files ensures files[p] in records && files[p].path == p && !IsTreeMode(files[p].mode) {
      SealedHolds(content, manifestBytes, TOKENS, p);
      if p in content && Survives(p) { OnlyConfigSurvives(stray, p); }
    }
  }

  lemma ContentAtConfig(stray: bool)
    ensures CONFIG_PATH in FilesOf(Content(stray))
            && FilesOf(Content(stray))[CONFIG_PATH] == BlobRecord(CONFIG_PATH, Policy())
    ensures Survives(CONFIG_PATH)
  {
    hide Policy, IsTree, FilesOf;
    ContentIsTree(stray);
    TreeIsListed(Content(stray));
    assert Content(stray)[0] in Content(stray);
    PathsDiffer();
    ArtifactsDiffer(CONFIG_PATH);
  }

  lemma OnlyConfigSurvives(stray: bool, path: Bytes)
    requires path in FilesOf(Content(stray)) && Survives(path)
    ensures path == CONFIG_PATH
  {
    hide Policy, IsTree, FilesOf;
    ContentIsTree(stray);
    TreeIsListed(Content(stray));
  }

  function SampleHistory(manifestBytes: Bytes): History {
    WithCommit(NO_HISTORY, NAME_COMMIT, NAME_SEALED, [], SealedRecords(manifestBytes))
  }

  function SealedWorld(hash: Hasher, stray: bool, manifestBytes: Bytes): World {
    WithTree(SampleWorld(hash, stray), Place(0, NAME_SEALED), SealedRecords(manifestBytes))
  }

  /** The stamp stands in stores that hold its content, its sealed tree and
      its commit. */
  lemma SampleIsSealed(table: Table, hash: Hasher, stray: bool)
    ensures var stamp := Stamp(table, hash, stray);
            var later, grown := SampleHistory(stamp.manifestBytes), SealedWorld(hash, stray, stamp.manifestBytes);
            && IsSealedAs(NO_HISTORY, later, SampleWorld(hash, stray), grown, INPUTS, stamp, NAME_COMMIT)
            && StoresAreSound(NO_HISTORY, SampleWorld(hash, stray), grown)
  {
    var stamp := Stamp(table, hash, stray);
    hide Enumerate, Policy, IsTree, SealedTree, FilesOf, ManifestText.Serialized, Content, SealedRecords, Stamp;
    StampIs(table, hash, stray);
    ContentIsTree(stray);
    ContentEnumerates(hash, stray);
    SealedRecordsAreTree(stamp.manifestBytes);
    SealedIsListed(stray, stamp.manifestBytes);
    assert NAME_BASE[0] != NAME_SEALED[0];
  }

  lemma StampIs(table: Table, hash: Hasher, stray: bool)
    ensures var stamp := Stamp(table, hash, stray);
            stamp.tokens == TOKENS && stamp.files == SealedTree(FilesOf(Content(stray)), stamp.manifestBytes, TOKENS)
            && stamp.manifest.bindingGroups == []
  {
    hide Enumerate, Policy, SealedTree, FilesOf, ManifestText.Serialized;
  }

  /** An audit of the sealed commit comes to a judgement. */
  lemma SampleIsJudged(table: Table, hash: Hasher, verify: TokenVerifier, history: History, world: World,
          commit: ObjectId)
    returns (judgement: Result<StampSummary, ClaimFailure>)
    requires commit in history.commits
    ensures IsJudged(table, hash, verify, history, world, 0, commit, judgement)
  {
    hide Judge, Enumerate;
    var entries := Enumerate(world, Root(PlaceOf(history, 0, commit)));
    judgement := Judge(table, hash, verify, history, commit, entries);
    assert IsSnapshot(world, PlaceOf(history, 0, commit), entries);
  }

  /** Both ways a fresh stamp can go, on concrete content. Over content with a
      file at `.tydence/tokens`, which the manifest lists and sealing drops,
      the stamp fails its own check 2 although its token was good when it was
      made; without that file it stands exactly when its token verifies. */
  lemma StrayFileFailsItsStamp(table: Table, hash: Hasher, verify: TokenVerifier, stray: bool)
    returns (judgement: Result<StampSummary, ClaimFailure>)
    ensures var stamp := Stamp(table, hash, stray);
            var later, grown := SampleHistory(stamp.manifestBytes), SealedWorld(hash, stray, stamp.manifestBytes);
            && IsCreated(table, hash, OUTSIDE, NO_HISTORY, SampleWorld(hash, stray), INPUTS, stamp)
            && IsSealedAs(NO_HISTORY, later, SampleWorld(hash, stray), grown, INPUTS, stamp, NAME_COMMIT)
            && IsJudged(table, hash, verify, later, grown, 0, NAME_COMMIT, judgement)
            && (stray ==> judgement.Err? && judgement.error.VerdictFailed? && judgement.error.verdict.TreeDisagrees?)
            && (!stray ==> (judgement.Ok? <==> verify([], stamp.manifestBytes).Ok?))
  {
    var stamp := Stamp(table, hash, stray);
    var later, grown := SampleHistory(stamp.manifestBytes), SealedWorld(hash, stray, stamp.manifestBytes);
    StampIs(table, hash, stray);
    hide Stamp, SampleWorld, SealedWorld, IsCreated, IsSealedAs, StoresAreSound, IsJudged, Displaces, Enumerate,
         DistinctSha256;
    SampleIsCreated(table, hash, stray);
    SampleIsSealed(table, hash, stray);
    NothingBound(table, hash);
    StrayDisplaces(hash, stray);
    judgement := SampleIsJudged(table, hash, verify, later, grown, NAME_COMMIT);
    FreshStampVerdict(table, hash, verify, OUTSIDE, NO_HISTORY, SampleWorld(hash, stray), INPUTS, stamp,
                      later, grown, NAME_COMMIT, judgement);
    assert TOKENS[0] in TOKENS;
  }
}
