/** Binding-set construction for one stamp (stamping specification, section
    4.1): one group per nearest preceding stamp, collapsed by manifest hashes
    and put into canonical order. */
module Bind {
  import opened Bytes
  import opened Sorting
  import opened Hex
  import opened UnicodeTable
  import opened ManifestModel
  import opened Repository
  import opened Claims
  import opened BindingOrder
  import opened BindingRelation
  import opened Binding

  datatype BindError =
    | Claim(claim: ClaimError)
    | UnderivableEdges(derivation: BindingError)
    | Unorderable(order: OrderError)

  datatype ReadStamp = ReadStamp(group: BindingGroup, manifestBytes: Bytes)

  // ----- commit annotations -----

  function CommitHex(commit: ObjectId): Bytes { Hex.Encode(LOWERCASE, commit) }

  function LowerByte(b: Byte): Byte {
    if 'A' <= b <= 'F' then ((b as int) + 0x20) as char else b
  }

  function Lower(text: Bytes): (lower: Bytes)
    ensures |lower| == |text|
  {
    if text == [] then [] else [LowerByte(text[0])] + Lower(text[1..])
  }

  /** `ObjectId::from_hex` reads either case. */
  function FromHex(text: Bytes): Option<ObjectId> {
    match Hex.Decode(LOWERCASE, Lower(text), 20)
    case Some(commit) => Some(commit)
    case None => None
  }

  lemma {:induction false} LowerFixed(text: Bytes)
    requires forall i | 0 <= i < |text| :: text[i] in LOWERCASE
    ensures Lower(text) == text
  {
    if text != [] {
      assert text[0] in LOWERCASE;
      assert LowerByte(text[0]) == text[0];
      LowerFixed(text[1..]);
    }
  }

  lemma CommitRoundTrip(commit: ObjectId)
    ensures FromHex(CommitHex(commit)) == Some(commit)
  {
    EncodeInAlphabet(LOWERCASE, commit);
    LowerFixed(CommitHex(commit));
    AlphabetsAreSound();
    hide Hex.Encode, Hex.Decode;
    DecodeExact(LOWERCASE, CommitHex(commit), 20, commit);
  }

  lemma LowerKeepsValue(b: Byte)
    ensures ValueOf(LowerByte(b)) == ValueOf(b)
    ensures ValueOf(b).Some? ==> !('A' <= LowerByte(b) <= 'Z')
  {
  }

  lemma {:induction false} LowerAt(text: Bytes)
    ensures forall i | 0 <= i < |text| :: Lower(text)[i] == LowerByte(text[i])
  {
    hide LowerByte;
    if text != [] {
      LowerAt(text[1..]);
      assert forall i | 0 < i < |text| :: text[i] == text[1..][i - 1];
    }
  }

  /** A text reads as a commit exactly when its digits, of either case, spell
      the commit's bytes. */
  lemma FromHexExact(text: Bytes, commit: ObjectId)
    ensures FromHex(text) == Some(commit) <==> Spells(text, commit)
  {
    AlphabetsAreSound();
    hide Hex.Encode, Hex.Decode, LowerByte, ValueOf, Lower, LOWERCASE;
    DecodeExact(LOWERCASE, Lower(text), 20, commit);
    EncodedExact(LOWERCASE, Lower(text), commit);
    LowerAt(text);
    forall b { LowerKeepsValue(b); }
    assert Spells(Lower(text), commit) <==> Spells(text, commit);
    if Spells(text, commit) {
      forall i | 0 <= i < |text| ensures !('A' <= Lower(text)[i] <= 'Z') {
        assert SpellByte(text[2 * (i / 2)], text[2 * (i / 2) + 1], commit[i / 2]);
      }
    }
  }

  /** A commit is written in forty lowercase digits that spell its bytes. */
  lemma CommitHexExact(text: Bytes, commit: ObjectId)
    ensures text == CommitHex(commit) <==> Spells(text, commit) && IsLowercase(text)
  {
    EncodedExact(LOWERCASE, text, commit);
  }

  // ----- reading one bound stamp -----

  function PastTokens(hash: Hasher, files: seq<TokenFile>): (tokens: seq<PastToken>)
    ensures |tokens| == |files|
    ensures forall i | 0 <= i < |files| :: tokens[i] == PastToken(Rfc3161, files[i].site, hash(files[i].bytes))
  {
    seq(|files|, i requires 0 <= i < |files| => PastToken(Rfc3161, files[i].site, hash(files[i].bytes)))
  }

  function BoundGroup(hash: Hasher, commit: ObjectId, artifacts: Artifacts): BindingGroup {
    BindingGroup(CommitHex(commit), None, hash(artifacts.manifestBytes), PastTokens(hash, artifacts.tokens))
  }

  function ReadBoundStamp(hash: Hasher, history: History, commit: ObjectId): Result<ReadStamp, ClaimError> {
    match ReadArtifacts(history, commit)
    case Ok(artifacts) => Ok(ReadStamp(BoundGroup(hash, commit, artifacts), artifacts.manifestBytes))
    case Err(cause) => Err(cause)
  }

  // ----- collapsing heirs -----

  /** The position of the kept stamp with the same manifest hashes. */
  function FindKept(kept: seq<ReadStamp>, hashes: PayloadHashes): (found: Option<nat>)
    ensures found.Some? ==> found.value < |kept| && kept[found.value].group.manifestHashes == hashes
    ensures found.None? ==> forall k | k in kept :: k.group.manifestHashes != hashes
  {
    if kept == [] then None
    else if kept[0].group.manifestHashes == hashes then Some(0)
    else
      assert kept == [kept[0]] + kept[1..];
      match FindKept(kept[1..], hashes)
      case Some(later) => Some(later + 1)
      case None => None
  }

  /** The smaller commit annotation wins. */
  function Absorb(kept: seq<ReadStamp>, stamp: ReadStamp): seq<ReadStamp> {
    match FindKept(kept, stamp.group.manifestHashes)
    case None => kept + [stamp]
    case Some(at) => if !LexLe(kept[at].group.commit, stamp.group.commit) then kept[at := stamp] else kept
  }

  function Deduplicate(stamps: seq<ReadStamp>): seq<ReadStamp> {
    if stamps == [] then []
    else Absorb(Deduplicate(stamps[..|stamps| - 1]), stamps[|stamps| - 1])
  }

  method DeduplicateStamps(stamps: seq<ReadStamp>) returns (deduplicated: seq<ReadStamp>)
    ensures deduplicated == Deduplicate(stamps)
  {
    deduplicated := [];
    for i := 0 to |stamps|
      invariant deduplicated == Deduplicate(stamps[..i])
    {
      var stamp := stamps[i];
      assert stamps[..i + 1][..i] == stamps[..i];
      var maybeKept := FindKept(deduplicated, stamp.group.manifestHashes);
      if maybeKept.None? {
        deduplicated := deduplicated + [stamp];
      } else if !LexLe(deduplicated[maybeKept.value].group.commit, stamp.group.commit) {
        deduplicated := deduplicated[maybeKept.value := stamp];
      }
    }
    assert stamps[..|stamps|] == stamps;
  }

  ghost predicate DistinctManifests(stamps: seq<ReadStamp>) {
    forall i, j | 0 <= i < j < |stamps| :: stamps[i].group.manifestHashes != stamps[j].group.manifestHashes
  }

  /** `kept` is among the candidates, with the smallest annotation of those
      sharing its manifest. */
  ghost predicate IsSmallestOf(candidates: seq<ReadStamp>, kept: ReadStamp) {
    kept in candidates
    && forall s | s in candidates && s.group.manifestHashes == kept.group.manifestHashes ::
         LexLe(kept.group.commit, s.group.commit)
  }

  ghost predicate IsCovered(kept: seq<ReadStamp>, stamp: ReadStamp) {
    exists k | k in kept :: k.group.manifestHashes == stamp.group.manifestHashes
  }

  ghost predicate IsCollapse(stamps: seq<ReadStamp>, kept: seq<ReadStamp>) {
    && DistinctManifests(kept)
    && (forall k | k in kept :: IsSmallestOf(stamps, k))
    && (forall s | s in stamps :: IsCovered(kept, s))
  }

  lemma AbsorbCollapses(stamps: seq<ReadStamp>, kept: seq<ReadStamp>, stamp: ReadStamp)
    requires IsCollapse(stamps, kept)
    ensures IsCollapse(stamps + [stamp], Absorb(kept, stamp))
  {
    hide LexLe, Absorb, IsSmallestOf, IsCovered, DistinctManifests;
    var all, after := stamps + [stamp], Absorb(kept, stamp);
    forall k | k in after ensures IsSmallestOf(all, k) { AbsorbedAreSmallest(stamps, kept, stamp, k); }
    forall s | s in all ensures IsCovered(after, s) { AbsorbedCover(stamps, kept, stamp, s); }
    AbsorbedDiffer(kept, stamp);
  }

  lemma AbsorbedDiffer(kept: seq<ReadStamp>, stamp: ReadStamp)
    requires DistinctManifests(kept)
    ensures DistinctManifests(Absorb(kept, stamp))
  {
    hide LexLe;
  }

  lemma AbsorbedAreSmallest(stamps: seq<ReadStamp>, kept: seq<ReadStamp>, stamp: ReadStamp, k: ReadStamp)
    requires IsCollapse(stamps, kept) && k in Absorb(kept, stamp)
    ensures IsSmallestOf(stamps + [stamp], k)
  {
    hide LexLe;
    var found := FindKept(kept, stamp.group.manifestHashes);
    LexReflexive(stamp.group.commit);
    if k in kept && k != stamp {
      assert IsSmallestOf(stamps, k);
      if k.group.manifestHashes == stamp.group.manifestHashes {
        var j :| 0 <= j < |kept| && kept[j] == k;
        assert found.value == j;
      }
    } else {
      forall s | s in stamps && s.group.manifestHashes == stamp.group.manifestHashes
        ensures LexLe(stamp.group.commit, s.group.commit)
      {
        assert IsCovered(kept, s);
        AbsorbedIsSmaller(stamps, kept, stamp, s);
      }
    }
  }

  lemma AbsorbedCover(stamps: seq<ReadStamp>, kept: seq<ReadStamp>, stamp: ReadStamp, s: ReadStamp)
    requires IsCollapse(stamps, kept) && s in stamps + [stamp]
    ensures IsCovered(Absorb(kept, stamp), s)
  {
    hide LexLe, IsSmallestOf;
    var after := Absorb(kept, stamp);
    var found := FindKept(kept, stamp.group.manifestHashes);
    if s in stamps {
      assert IsCovered(kept, s);
      var k :| k in kept && k.group.manifestHashes == s.group.manifestHashes;
      var j :| 0 <= j < |kept| && kept[j] == k;
      assert after[j] in after && after[j].group.manifestHashes == k.group.manifestHashes;
    } else if found.Some? {
      assert after[found.value] in after;
    } else {
      assert stamp in after;
    }
  }

  lemma AbsorbedIsSmaller(stamps: seq<ReadStamp>, kept: seq<ReadStamp>, stamp: ReadStamp, other: ReadStamp)
    requires IsCollapse(stamps, kept) && stamp in Absorb(kept, stamp)
    requires other in stamps && other.group.manifestHashes == stamp.group.manifestHashes
    ensures LexLe(stamp.group.commit, other.group.commit)
  {
    hide LexLe;
    assert IsCovered(kept, other);
    var at := FindKept(kept, stamp.group.manifestHashes).value;
    assert kept[at] in kept;
    assert IsSmallestOf(stamps, kept[at]);
    var after := Absorb(kept, stamp);
    var j :| 0 <= j < |after| && after[j] == stamp;
    if !LexLe(kept[at].group.commit, stamp.group.commit) {
      LexTotal(kept[at].group.commit, stamp.group.commit);
      LexTransitive(stamp.group.commit, kept[at].group.commit, other.group.commit);
    } else {
      assert after == kept && j == at;
    }
  }

  /** Deduplication keeps exactly one stamp per manifest: the one of smallest
      commit annotation. */
  lemma {:induction false} DeduplicateCollapses(stamps: seq<ReadStamp>)
    ensures IsCollapse(stamps, Deduplicate(stamps))
    decreases |stamps|
  {
    hide IsCollapse, Absorb;
    if stamps == [] {
      EmptyCollapses();
    } else {
      var last := |stamps| - 1;
      DeduplicateCollapses(stamps[..last]);
      AbsorbCollapses(stamps[..last], Deduplicate(stamps[..last]), stamps[last]);
      assert stamps == stamps[..last] + [stamps[last]];
    }
  }

  lemma EmptyCollapses()
    ensures IsCollapse([], [])
  {
  }

  // ----- the binding set -----

  /** The stamp a group's `--commit` annotation locates, as an audit resolves
      it. */
  function ResolveGroup(history: History, group: BindingGroup): Option<BoundStamp> {
    if group.predecessorOrigin.Some? then None
    else
      match FromHex(group.commit)
      case None => None
      case Some(commit) =>
        match ReadArtifacts(history, commit)
        case Err(_) => None
        case Ok(artifacts) => Some(AsBoundStamp(artifacts))
  }

  function AsBoundStamp(artifacts: Artifacts): BoundStamp {
    BoundStamp(artifacts.manifestBytes,
               seq(|artifacts.tokens|, i requires 0 <= i < |artifacts.tokens| =>
                 BoundToken(Rfc3161, artifacts.tokens[i].site, artifacts.tokens[i].bytes)))
  }

  function ResolveGroups(history: History, groups: Groups): Option<seq<BoundStamp>> {
    if groups == [] then Some([])
    else
      match (ResolveGroup(history, groups[0]), ResolveGroups(history, groups[1..]))
      case (Some(first), Some(rest)) => Some([first] + rest)
      case _ => None
  }

  lemma {:induction false} ResolvedEach(history: History, groups: Groups)
    ensures ResolveGroups(history, groups).Some? <==>
            forall i | 0 <= i < |groups| :: ResolveGroup(history, groups[i]).Some?
    ensures ResolveGroups(history, groups).Some? ==>
              |ResolveGroups(history, groups).value| == |groups|
              && forall i | 0 <= i < |groups| ::
                   ResolveGroup(history, groups[i]) == Some(ResolveGroups(history, groups).value[i])
  {
    hide ResolveGroup;
    if groups != [] {
      var rest := groups[1..];
      ResolvedEach(history, rest);
      assert forall i | 0 < i < |groups| :: groups[i] == rest[i - 1];
      if forall i | 0 <= i < |groups| :: ResolveGroup(history, groups[i]).Some? {
        assert forall i | 0 <= i < |rest| :: rest[i] == groups[i + 1];
      }
    }
  }

  /** A nearest claim, read, and the group it yields. */
  ghost predicate YieldedBy(hash: Hasher, history: History, commit: ObjectId, group: BindingGroup) {
    ReadArtifacts(history, commit).Ok? && group == BoundGroup(hash, commit, ReadArtifacts(history, commit).value)
  }

  lemma YieldedResolves(hash: Hasher, history: History, commit: ObjectId, group: BindingGroup)
    requires YieldedBy(hash, history, commit, group)
    ensures ResolveGroup(history, group) == Some(AsBoundStamp(ReadArtifacts(history, commit).value))
  {
    hide ReadArtifacts, CommitHex, FromHex;
    CommitRoundTrip(commit);
  }

  ghost predicate IsNearestClaim(history: History, parents: seq<ObjectId>, commit: ObjectId) {
    IsReached(history, parents, commit) && IsClaiming(history, commit)
  }

  ghost predicate YieldedByNearest(hash: Hasher, history: History, parents: seq<ObjectId>, group: BindingGroup) {
    exists commit :: IsNearestClaim(history, parents, commit) && YieldedBy(hash, history, commit, group)
  }

  ghost predicate BindsManifestOf(hash: Hasher, history: History, groups: Groups, commit: ObjectId) {
    ReadArtifacts(history, commit).Ok?
    && exists g | g in groups :: g.manifestHashes == hash(ReadArtifacts(history, commit).value.manifestBytes)
  }

  ghost predicate DistinctHashes(groups: Groups) {
    forall i, j | 0 <= i < j < |groups| :: groups[i].manifestHashes != groups[j].manifestHashes
  }

  /** Of the nearest claims with the group's manifest none has a smaller
      annotation. */
  ghost predicate IsLeastNamed(hash: Hasher, history: History, parents: seq<ObjectId>, group: BindingGroup) {
    forall c | IsNearestClaim(history, parents, c) && HashesOf(hash, history, c) == Some(group.manifestHashes) ::
      LexLe(group.commit, CommitHex(c))
  }

  /** What a binding set promises: groups come from nearest claims, under the
      least annotation that will do, every nearest claim's manifest is bound,
      and none is bound twice. */
  ghost predicate IsBindingSet(hash: Hasher, history: History, parents: seq<ObjectId>, groups: Groups) {
    && (forall i | 0 <= i < |groups| :: YieldedByNearest(hash, history, parents, groups[i]))
    && (forall i | 0 <= i < |groups| :: IsLeastNamed(hash, history, parents, groups[i]))
    && (forall c | IsNearestClaim(history, parents, c) :: BindsManifestOf(hash, history, groups, c))
    && DistinctHashes(groups)
  }

  /** Canonical order, checked as verification checks it: with the stamps
      located anew by the groups' own annotations. */
  ghost predicate PassesOrderCheck(table: seq<Range>, history: History, groups: Groups) {
    var resolved := ResolveGroups(history, groups);
    resolved.Some?
    && DeriveEdges(table, groups, resolved.value).Ok?
    && VerifyBindingOrder(groups, DeriveEdges(table, groups, resolved.value).value).None?
  }

  function GroupsOf(stamps: seq<ReadStamp>): (groups: Groups)
    ensures |groups| == |stamps|
    ensures forall i | 0 <= i < |stamps| :: groups[i] == stamps[i].group
  {
    seq(|stamps|, i requires 0 <= i < |stamps| => stamps[i].group)
  }

  function ManifestsOf(stamps: seq<ReadStamp>): (resolved: seq<BoundStamp>)
    ensures |resolved| == |stamps|
    ensures forall i | 0 <= i < |stamps| :: resolved[i] == BoundStamp(stamps[i].manifestBytes, [])
  {
    seq(|stamps|, i requires 0 <= i < |stamps| => BoundStamp(stamps[i].manifestBytes, []))
  }

  /** The stamp was read from this commit. */
  ghost predicate ReadFrom(hash: Hasher, history: History, commit: ObjectId, stamp: ReadStamp) {
    ReadBoundStamp(hash, history, commit) == Ok(stamp)
  }

  ghost predicate AllReadFrom(hash: Hasher, history: History, commits: seq<ObjectId>, stamps: seq<ReadStamp>) {
    |stamps| == |commits| && forall i | 0 <= i < |commits| :: ReadFrom(hash, history, commits[i], stamps[i])
  }

  method ReadStamps(hash: Hasher, history: History, commits: seq<ObjectId>)
    returns (stamps: Result<seq<ReadStamp>, ClaimError>)
    ensures stamps.Ok? ==> AllReadFrom(hash, history, commits, stamps.value)
    ensures stamps.Err? ==> exists c | c in commits :: ReadArtifacts(history, c) == Err(stamps.error)
  {
    hide ReadArtifacts;
    var read: seq<ReadStamp> := [];
    for i := 0 to |commits|
      invariant |read| == i
      invariant forall k | 0 <= k < i :: ReadFrom(hash, history, commits[k], read[k])
    {
      var stamp := ReadBoundStamp(hash, history, commits[i]);
      if stamp.Err? {
        assert commits[i] in commits;
        return Err(stamp.error);
      }
      read := read + [stamp.value];
    }
    return Ok(read);
  }

  // ----- when binding fails -----

  ghost predicate ClaimsRead(history: History, parents: seq<ObjectId>) {
    && (forall c | IsReached(history, parents, c) :: IsReadable(history, c))
    && (forall c | IsNearestClaim(history, parents, c) :: ReadArtifacts(history, c).Ok?)
  }

  /** A commit the walk meets is unreadable, or a nearest claim's artifacts
      are. */
  ghost predicate IsClaimFault(history: History, parents: seq<ObjectId>, cause: ClaimError) {
    || (exists c | IsReached(history, parents, c) :: !IsReadable(history, c) && cause == ObjectAccess(c))
    || (exists c | IsNearestClaim(history, parents, c) :: ReadArtifacts(history, c) == Err(cause))
  }

  /** The claim's manifest, as far as it parses. */
  function ManifestOf(table: seq<Range>, history: History, commit: ObjectId): Option<Manifest> {
    match ReadArtifacts(history, commit)
    case Err(_) => None
    case Ok(artifacts) => ParseBoundManifest(table, artifacts.manifestBytes)
  }

  /** The hashes of the claim's manifest. */
  function HashesOf(hash: Hasher, history: History, commit: ObjectId): Option<PayloadHashes> {
    match ReadArtifacts(history, commit)
    case Err(_) => None
    case Ok(artifacts) => Some(hash(artifacts.manifestBytes))
  }

  ghost predicate AllParse(table: seq<Range>, history: History, parents: seq<ObjectId>) {
    forall c | IsNearestClaim(history, parents, c) :: ManifestOf(table, history, c).Some?
  }

  /** One claim's manifest carries another claim's manifest. */
  ghost predicate ClaimBinds(table: seq<Range>, hash: Hasher, history: History, binder: ObjectId, bound: ObjectId) {
    && HashesOf(hash, history, binder) != HashesOf(hash, history, bound)
    && ManifestOf(table, history, binder).Some? && HashesOf(hash, history, bound).Some?
    && exists inner | inner in ManifestOf(table, history, binder).value.bindingGroups ::
         Some(inner.manifestHashes) == HashesOf(hash, history, bound)
  }

  ghost predicate IsClaimCycle(table: seq<Range>, hash: Hasher, history: History, parents: seq<ObjectId>,
          cycle: seq<ObjectId>)
  {
    && |cycle| >= 2 && cycle[0] == cycle[|cycle| - 1]
    && (forall i | 0 <= i < |cycle| :: IsNearestClaim(history, parents, cycle[i]))
    && forall i | 0 < i < |cycle| :: ClaimBinds(table, hash, history, cycle[i - 1], cycle[i])
  }

  ghost predicate ClaimsCycle(table: seq<Range>, hash: Hasher, history: History, parents: seq<ObjectId>) {
    exists cycle :: IsClaimCycle(table, hash, history, parents, cycle)
  }

  /** The hash separates the manifests of the nearest claims. */
  ghost predicate HashSeparates(hash: Hasher, history: History, parents: seq<ObjectId>) {
    forall c, d | IsNearestClaim(history, parents, c) && IsNearestClaim(history, parents, d)
      && ReadArtifacts(history, c).Ok? && ReadArtifacts(history, d).Ok?
      && HashesOf(hash, history, c) == HashesOf(hash, history, d) ::
        ReadArtifacts(history, c).value.manifestBytes == ReadArtifacts(history, d).value.manifestBytes
  }

  /** When binding succeeds, and what each failure means: a claim that cannot
      be read, a bound manifest that does not parse, or claims that bind each
      other in a circle. Under a hash that separates the manifests these
      decide the outcome. */
  ghost predicate IsDue(table: seq<Range>, hash: Hasher, history: History, parents: seq<ObjectId>,
          outcome: Result<Groups, BindError>)
  {
    var parsed, cyclic := AllParse(table, history, parents), ClaimsCycle(table, hash, history, parents);
    && (outcome.Err? && outcome.error.Claim? <==> !ClaimsRead(history, parents))
    && (outcome.Err? && outcome.error.Claim? ==> IsClaimFault(history, parents, outcome.error.claim))
    && (outcome.Err? && outcome.error.UnderivableEdges? ==>
        outcome.error.derivation.BoundManifestUnreadable? && !parsed)
    && (outcome.Err? && outcome.error.Unorderable? ==> outcome.error.order == Cycle && cyclic)
    && (HashSeparates(hash, history, parents) ==>
          && (outcome.Err? && outcome.error.UnderivableEdges? <==> ClaimsRead(history, parents) && !parsed)
          && (outcome.Err? && outcome.error.Unorderable? <==> ClaimsRead(history, parents) && parsed && cyclic))
  }

  /** The kept stamps come from nearest claims, and stand for all of them. */
  ghost predicate StandFor(hash: Hasher, history: History, parents: seq<ObjectId>, kept: seq<ReadStamp>) {
    && DistinctManifests(kept)
    && (forall i | 0 <= i < |kept| :: HasSource(hash, history, parents, kept[i]))
    && (forall c | IsNearestClaim(history, parents, c) ::
          ReadArtifacts(history, c).Ok? && IsKeptFor(hash, history, kept, c))
  }

  ghost predicate HasSource(hash: Hasher, history: History, parents: seq<ObjectId>, stamp: ReadStamp) {
    exists c :: IsNearestClaim(history, parents, c) && ReadFrom(hash, history, c, stamp)
  }

  ghost predicate IsKeptFor(hash: Hasher, history: History, kept: seq<ReadStamp>, commit: ObjectId) {
    exists at | 0 <= at < |kept| :: Some(kept[at].group.manifestHashes) == HashesOf(hash, history, commit)
  }

  lemma KeptStandFor(hash: Hasher, history: History, parents: seq<ObjectId>, claiming: seq<ObjectId>,
          read: seq<ReadStamp>, kept: seq<ReadStamp>)
    requires forall c :: c in claiming <==> IsNearestClaim(history, parents, c)
    requires AllReadFrom(hash, history, claiming, read) && IsCollapse(read, kept)
    ensures StandFor(hash, history, parents, kept)
  {
    hide IsNearestClaim, ReadArtifacts, IsCollapse, AllReadFrom, BoundGroup, ReadFrom;
    KeptDistinct(read, kept);
    forall i | 0 <= i < |kept| ensures HasSource(hash, history, parents, kept[i]) {
      var commit := KeptReadFrom(hash, history, claiming, read, kept, i);
    }
    forall c | IsNearestClaim(history, parents, c)
      ensures ReadArtifacts(history, c).Ok? && IsKeptFor(hash, history, kept, c)
    {
      var at := KeptCovers(hash, history, claiming, read, kept, c);
    }
  }

  /** The kept stamp was read from this nearest claim. */
  ghost predicate IsSourceOf(hash: Hasher, history: History, parents: seq<ObjectId>, kept: seq<ReadStamp>, i: nat,
          commit: ObjectId)
    requires i < |kept|
  {
    && IsNearestClaim(history, parents, commit) && ReadArtifacts(history, commit).Ok?
    && HashesOf(hash, history, commit) == Some(kept[i].group.manifestHashes)
    && ReadArtifacts(history, commit).value.manifestBytes == kept[i].manifestBytes
  }

  ghost function SourceOf(hash: Hasher, history: History, parents: seq<ObjectId>, kept: seq<ReadStamp>,
          i: nat): (commit: ObjectId)
    requires StandFor(hash, history, parents, kept) && i < |kept|
    ensures IsSourceOf(hash, history, parents, kept, i, commit)
  {
    hide IsNearestClaim, ReadArtifacts, IsKeptFor;
    assert HasSource(hash, history, parents, kept[i]);
    var commit :| IsNearestClaim(history, parents, commit) && ReadFrom(hash, history, commit, kept[i]);
    commit
  }

  /** The kept stamp that stands for a nearest claim. */
  ghost function PlaceOf(hash: Hasher, history: History, parents: seq<ObjectId>, kept: seq<ReadStamp>,
          commit: ObjectId): (at: nat)
    requires StandFor(hash, history, parents, kept) && IsNearestClaim(history, parents, commit)
    ensures at < |kept| && Some(kept[at].group.manifestHashes) == HashesOf(hash, history, commit)
  {
    hide IsNearestClaim, ReadArtifacts, HashesOf, ReadFrom, HasSource, DistinctManifests;
    assert IsKeptFor(hash, history, kept, commit);
    var at: nat :| at < |kept| && Some(kept[at].group.manifestHashes) == HashesOf(hash, history, commit);
    at
  }

  lemma PlacedIsSource(hash: Hasher, history: History, parents: seq<ObjectId>, kept: seq<ReadStamp>,
          commit: ObjectId)
    requires StandFor(hash, history, parents, kept) && IsNearestClaim(history, parents, commit)
    requires HashSeparates(hash, history, parents)
    ensures IsSourceOf(hash, history, parents, kept, PlaceOf(hash, history, parents, kept, commit), commit)
  {
    hide IsNearestClaim, ReadArtifacts, HashesOf, ReadFrom, HasSource, DistinctManifests, IsKeptFor;
    var at := PlaceOf(hash, history, parents, kept, commit);
    assert IsSourceOf(hash, history, parents, kept, at, SourceOf(hash, history, parents, kept, at));
  }

  /** Edges are derived when every nearest claim's manifest parses, and only
      then if the hash separates them. */
  lemma EdgesDue(table: seq<Range>, hash: Hasher, history: History, parents: seq<ObjectId>, kept: seq<ReadStamp>)
    requires StandFor(hash, history, parents, kept)
    ensures var edges := DeriveEdges(table, GroupsOf(kept), ManifestsOf(kept));
            && (edges.Err? ==> edges.error.BoundManifestUnreadable? && !AllParse(table, history, parents))
            && (edges.Ok? && HashSeparates(hash, history, parents) ==> AllParse(table, history, parents))
  {
    hide DeriveEdges, ParseBoundManifest, StandFor, ReadArtifacts, IsNearestClaim, HashSeparates, AllValid, Binds;
    var edges := DeriveEdges(table, GroupsOf(kept), ManifestsOf(kept));
    DerivedEdgesExact(table, GroupsOf(kept), ManifestsOf(kept));
    if edges.Err? {
      var source := SourceOf(hash, history, parents, kept, edges.error.groupIndex);
      assert ManifestOf(table, history, source).None?;
    } else if HashSeparates(hash, history, parents) {
      forall c | IsNearestClaim(history, parents, c) ensures ManifestOf(table, history, c).Some? {
        var at := PlaceOf(hash, history, parents, kept, c);
        PlacedIsSource(hash, history, parents, kept, c);
        assert ManifestsOf(kept)[at].manifestBytes == kept[at].manifestBytes;
      }
    }
  }

  /** A binding between kept stamps is one between the claims they were read
      from. */
  lemma KeptBinds(table: seq<Range>, hash: Hasher, history: History, parents: seq<ObjectId>, kept: seq<ReadStamp>,
          a: nat, b: nat, binder: ObjectId, bound: ObjectId)
    requires a < |kept| && b < |kept| && StandFor(hash, history, parents, kept)
    requires IsSourceOf(hash, history, parents, kept, a, binder) && IsSourceOf(hash, history, parents, kept, b, bound)
    ensures Binds(table, GroupsOf(kept), ManifestsOf(kept), a, b) <==> ClaimBinds(table, hash, history, binder, bound)
  {
    hide ParseBoundManifest, ReadArtifacts, IsNearestClaim, IsKeptFor, HasSource;
    var manifest := ParseBoundManifest(table, kept[a].manifestBytes);
    assert ManifestOf(table, history, binder) == manifest;
    assert a != b <==> kept[a].group.manifestHashes != kept[b].group.manifestHashes;
    if manifest.Some? {
      assert Carries(manifest.value, GroupsOf(kept)[b]) <==>
             exists inner | inner in manifest.value.bindingGroups ::
               inner.manifestHashes == kept[b].group.manifestHashes;
    }
  }

  lemma WalkStep(edges: seq<Edge>, walk: seq<nat>, slot: nat, i: nat)
    requires Connects(edges, walk, slot, slot) && 0 < i < |walk|
    ensures Edge(walk[i - 1], walk[i]) in edges
  {
  }

  /** An edge between kept stamps is a binding between the claims they were
      read from. */
  lemma EdgeOfClaims(table: seq<Range>, hash: Hasher, history: History, parents: seq<ObjectId>, kept: seq<ReadStamp>,
          edges: seq<Edge>, a: nat, b: nat)
    requires StandFor(hash, history, parents, kept) && Edge(a, b) in edges
    requires DeriveEdges(table, GroupsOf(kept), ManifestsOf(kept)) == Ok(edges)
    ensures a < |kept| && b < |kept|
    ensures ClaimBinds(table, hash, history, SourceOf(hash, history, parents, kept, a),
                       SourceOf(hash, history, parents, kept, b))
  {
    hide DeriveEdges, ClaimBinds, StandFor, IsSourceOf, Binds, AllValid;
    DerivedEdgesExact(table, GroupsOf(kept), ManifestsOf(kept));
    assert Binds(table, GroupsOf(kept), ManifestsOf(kept), a, b);
    BindsIsValid(table, GroupsOf(kept), ManifestsOf(kept), Edge(a, b));
    KeptBinds(table, hash, history, parents, kept, a, b, SourceOf(hash, history, parents, kept, a),
              SourceOf(hash, history, parents, kept, b));
  }

  /** A cycle of kept stamps is one of the claims they were read from. */
  lemma CycleOfClaims(table: seq<Range>, hash: Hasher, history: History, parents: seq<ObjectId>,
          kept: seq<ReadStamp>, edges: seq<Edge>)
    requires StandFor(hash, history, parents, kept) && HasCycle(edges)
    requires DeriveEdges(table, GroupsOf(kept), ManifestsOf(kept)) == Ok(edges)
    ensures ClaimsCycle(table, hash, history, parents)
  {
    hide DeriveEdges, IsNearestClaim, ClaimBinds, StandFor, IsSourceOf;
    var slot :| Reaches(edges, slot, slot);
    var walk :| Connects(edges, walk, slot, slot);
    forall i | 0 < i < |walk| ensures Edge(walk[i - 1], walk[i]) in edges { WalkStep(edges, walk, slot, i); }
    forall i | 0 <= i < |walk| ensures walk[i] < |kept| {
      var k := if i > 0 then i else 1;
      EdgeOfClaims(table, hash, history, parents, kept, edges, walk[k - 1], walk[k]);
    }
    hide Connects;
    var cycle := seq(|walk|, i requires 0 <= i < |walk| => SourceOf(hash, history, parents, kept, walk[i]));
    forall i | 0 <= i < |walk| ensures IsNearestClaim(history, parents, cycle[i]) {
      SourceClaims(hash, history, parents, kept, walk[i], cycle[i]);
    }
    forall i | 0 < i < |cycle| ensures ClaimBinds(table, hash, history, cycle[i - 1], cycle[i]) {
      EdgeOfClaims(table, hash, history, parents, kept, edges, walk[i - 1], walk[i]);
    }
    WalkCloses(edges, walk, slot);
    assert IsClaimCycle(table, hash, history, parents, cycle);
  }

  lemma WalkCloses(edges: seq<Edge>, walk: seq<nat>, slot: nat)
    requires Connects(edges, walk, slot, slot)
    ensures |walk| >= 2 && walk[0] == walk[|walk| - 1]
  {
  }

  lemma SourceClaims(hash: Hasher, history: History, parents: seq<ObjectId>, kept: seq<ReadStamp>, i: nat,
          commit: ObjectId)
    requires i < |kept| && IsSourceOf(hash, history, parents, kept, i, commit)
    ensures IsNearestClaim(history, parents, commit)
  {
  }

  /** Under a hash that separates them, a cycle of claims is one of the kept
      stamps. */
  lemma CycleOfKept(table: seq<Range>, hash: Hasher, history: History, parents: seq<ObjectId>,
          kept: seq<ReadStamp>, edges: seq<Edge>)
    requires StandFor(hash, history, parents, kept) && HashSeparates(hash, history, parents)
    requires DeriveEdges(table, GroupsOf(kept), ManifestsOf(kept)) == Ok(edges)
    requires ClaimsCycle(table, hash, history, parents)
    ensures HasCycle(edges)
  {
    hide DeriveEdges, IsNearestClaim, ReadArtifacts, HashesOf, ClaimBinds, IsKeptFor, Binds, ReadFrom, HashSeparates;
    DerivedEdgesExact(table, GroupsOf(kept), ManifestsOf(kept));
    var cycle :| IsClaimCycle(table, hash, history, parents, cycle);
    var walk := seq(|cycle|, i requires 0 <= i < |cycle| => PlaceOf(hash, history, parents, kept, cycle[i]));
    hide IsSourceOf, StandFor;
    forall i | 0 < i < |walk| ensures Edge(walk[i - 1], walk[i]) in edges {
      PlacedIsSource(hash, history, parents, kept, cycle[i - 1]);
      PlacedIsSource(hash, history, parents, kept, cycle[i]);
      KeptBinds(table, hash, history, parents, kept, walk[i - 1], walk[i], cycle[i - 1], cycle[i]);
    }
    assert Connects(edges, walk, walk[0], walk[0]);
    assert Reaches(edges, walk[0], walk[0]);
  }

  /** Ordering fails with a cycle of claims, and succeeds only without one if
      the hash separates them. */
  lemma OrderDue(table: seq<Range>, hash: Hasher, history: History, parents: seq<ObjectId>, kept: seq<ReadStamp>,
          edges: seq<Edge>)
    requires StandFor(hash, history, parents, kept)
    requires DeriveEdges(table, GroupsOf(kept), ManifestsOf(kept)) == Ok(edges)
    ensures var ordered := Order(GroupsOf(kept), edges);
            && (ordered.Err? ==> ordered.error == Cycle && ClaimsCycle(table, hash, history, parents))
            && (ordered.Ok? && HashSeparates(hash, history, parents) ==> !ClaimsCycle(table, hash, history, parents))
  {
    hide DeriveEdges, Order, StandFor, HasCycle, ClaimsCycle, HashSeparates, Binds;
    DerivedEdgesExact(table, GroupsOf(kept), ManifestsOf(kept));
    CycleExact(GroupsOf(kept), edges);
    if HasCycle(edges) {
      CycleOfClaims(table, hash, history, parents, kept, edges);
    } else if HashSeparates(hash, history, parents) && ClaimsCycle(table, hash, history, parents) {
      CycleOfKept(table, hash, history, parents, kept, edges);
    }
  }

  /** Builds the binding set of a new stamp commit with the given parents. */
  method Run(table: seq<Range>, hash: Hasher, history: History, parents: seq<ObjectId>)
    returns (bound: Result<Groups, BindError>)
    ensures bound.Ok? ==> IsBindingSet(hash, history, parents, bound.value)
    ensures bound.Ok? && DistinctSha256(bound.value) ==> PassesOrderCheck(table, history, bound.value)
    ensures IsDue(table, hash, history, parents, bound)
  {
    hide IsReached, IsClaiming, ReadArtifacts, IsBindingSet, PassesOrderCheck, DeriveEdges, Order, DistinctSha256,
         AllReadFrom, IsCollapse, Distinct, StandFor, AllParse, ClaimsCycle, HashSeparates;
    var claiming := NearestClaimingCommits(history, parents);
    if claiming.Err? { return Err(Claim(claiming.error)); }
    var read := ReadStamps(hash, history, claiming.value);
    if read.Err? { return Err(Claim(read.error)); }
    var kept := DeduplicateStamps(read.value);
    DeduplicateCollapses(read.value);
    KeptStandFor(hash, history, parents, claiming.value, read.value, kept);
    assert ClaimsRead(history, parents) by { StandForReads(hash, history, parents, kept); }
    var groups, resolved := GroupsOf(kept), ManifestsOf(kept);
    var edges := DeriveBindingEdges(table, groups, resolved);
    EdgesDue(table, hash, history, parents, kept);
    if edges.Err? { return Err(UnderivableEdges(edges.error)); }
    var ordered := BindingOrder.Run(groups, edges.value);
    OrderDue(table, hash, history, parents, kept, edges.value);
    if ordered.Err? { return Err(BindError.Unorderable(ordered.error)); }
    BindingSetBuilt(table, hash, history, parents, claiming.value, read.value, kept);
    return Ok(ordered.value);
  }

  lemma StandForReads(hash: Hasher, history: History, parents: seq<ObjectId>, kept: seq<ReadStamp>)
    requires StandFor(hash, history, parents, kept)
    ensures forall c | IsNearestClaim(history, parents, c) :: ReadArtifacts(history, c).Ok?
  {
  }

  lemma KeptReadFrom(hash: Hasher, history: History, commits: seq<ObjectId>, read: seq<ReadStamp>,
          kept: seq<ReadStamp>, i: nat) returns (commit: ObjectId)
    requires AllReadFrom(hash, history, commits, read) && IsCollapse(read, kept) && i < |kept|
    ensures commit in commits && ReadFrom(hash, history, commit, kept[i])
    ensures YieldedBy(hash, history, commit, kept[i].group)
    ensures kept[i].manifestBytes == ReadArtifacts(history, commit).value.manifestBytes
  {
    hide ReadArtifacts;
    assert IsSmallestOf(read, kept[i]);
    var j :| 0 <= j < |read| && read[j] == kept[i];
    commit := commits[j];
  }

  /** The pieces of `Run` add up to a binding set in canonical order. */
  lemma BindingSetBuilt(table: seq<Range>, hash: Hasher, history: History, parents: seq<ObjectId>,
                        claiming: seq<ObjectId>, read: seq<ReadStamp>, kept: seq<ReadStamp>)
    requires forall c :: c in claiming <==> IsNearestClaim(history, parents, c)
    requires AllReadFrom(hash, history, claiming, read) && IsCollapse(read, kept)
    requires DeriveEdges(table, GroupsOf(kept), ManifestsOf(kept)).Ok?
    requires Order(GroupsOf(kept), DeriveEdges(table, GroupsOf(kept), ManifestsOf(kept)).value).Ok?
    ensures var ordered := Order(GroupsOf(kept), DeriveEdges(table, GroupsOf(kept), ManifestsOf(kept)).value).value;
            IsBindingSet(hash, history, parents, ordered)
            && (DistinctSha256(ordered) ==> PassesOrderCheck(table, history, ordered))
  {
    hide DeriveEdges, Order, DistinctSha256, IsNearestClaim, ReadArtifacts, IsCollapse, AllReadFrom, PassesOrderCheck;
    var groups, resolved := GroupsOf(kept), ManifestsOf(kept);
    var edges := DeriveEdges(table, groups, resolved).value;
    DerivedEdgesExact(table, groups, resolved);
    var order := OrderIsListing(groups, edges);
    var ordered := Pick(groups, order);
    OrderedSet(hash, history, parents, claiming, read, kept, order);
    if DistinctSha256(ordered) { OrderedPasses(table, hash, history, parents, claiming, read, kept, order); }
  }

  lemma OrderedSet(hash: Hasher, history: History, parents: seq<ObjectId>,
                   claiming: seq<ObjectId>, read: seq<ReadStamp>, kept: seq<ReadStamp>, order: seq<nat>)
    requires forall c :: c in claiming <==> IsNearestClaim(history, parents, c)
    requires AllReadFrom(hash, history, claiming, read) && IsCollapse(read, kept)
    requires |order| == |kept| && Distinct(order) && forall i | 0 <= i < |order| :: order[i] < |kept|
    ensures IsBindingSet(hash, history, parents, Pick(GroupsOf(kept), order))
  {
    hide IsNearestClaim, ReadArtifacts, IsCollapse, AllReadFrom, BoundGroup, IsLeastNamed, YieldedBy, DistinctHashes,
         Distinct, ReadFrom, BindsManifestOf;
    var groups := GroupsOf(kept);
    var ordered := Pick(groups, order);
    forall i | 0 <= i < |ordered| ensures YieldedByNearest(hash, history, parents, ordered[i]) {
      var commit := KeptReadFrom(hash, history, claiming, read, kept, order[i]);
    }
    forall i | 0 <= i < |ordered| ensures IsLeastNamed(hash, history, parents, ordered[i]) {
      KeptIsLeast(hash, history, parents, claiming, read, kept, order[i]);
    }
    forall c | IsNearestClaim(history, parents, c) ensures BindsManifestOf(hash, history, ordered, c) {
      CoveredInOrder(hash, history, claiming, read, kept, order, c);
    }
    KeptDistinct(read, kept);
    PickedDiffer(kept, order);
  }

  lemma CoveredInOrder(hash: Hasher, history: History, claiming: seq<ObjectId>, read: seq<ReadStamp>,
          kept: seq<ReadStamp>, order: seq<nat>, commit: ObjectId)
    requires AllReadFrom(hash, history, claiming, read) && IsCollapse(read, kept) && commit in claiming
    requires |order| == |kept| && Distinct(order) && forall i | 0 <= i < |order| :: order[i] < |kept|
    ensures BindsManifestOf(hash, history, Pick(GroupsOf(kept), order), commit)
  {
    hide ReadArtifacts, IsCollapse, AllReadFrom;
    var at := KeptCovers(hash, history, claiming, read, kept, commit);
    Onto(|kept|, order, at);
    var i :| 0 <= i < |order| && order[i] == at;
    assert Pick(GroupsOf(kept), order)[i] in Pick(GroupsOf(kept), order);
  }

  lemma PickedDiffer(kept: seq<ReadStamp>, order: seq<nat>)
    requires DistinctManifests(kept) && Distinct(order) && forall i | 0 <= i < |order| :: order[i] < |kept|
    ensures DistinctHashes(Pick(GroupsOf(kept), order))
  {
    var ordered := Pick(GroupsOf(kept), order);
    forall i, j | 0 <= i < j < |ordered| ensures ordered[i].manifestHashes != ordered[j].manifestHashes {
      assert order[i] != order[j];
      assert ordered[i] == kept[order[i]].group && ordered[j] == kept[order[j]].group;
    }
  }

  lemma KeptIsLeast(hash: Hasher, history: History, parents: seq<ObjectId>, claiming: seq<ObjectId>,
          read: seq<ReadStamp>, kept: seq<ReadStamp>, i: nat)
    requires forall c :: c in claiming <==> IsNearestClaim(history, parents, c)
    requires AllReadFrom(hash, history, claiming, read) && IsCollapse(read, kept) && i < |kept|
    ensures IsLeastNamed(hash, history, parents, kept[i].group)
  {
    hide IsNearestClaim, ReadArtifacts, LexLe, CommitHex, IsCovered, DistinctManifests;
    assert IsSmallestOf(read, kept[i]);
    forall c | IsNearestClaim(history, parents, c) && HashesOf(hash, history, c) == Some(kept[i].group.manifestHashes)
      ensures LexLe(kept[i].group.commit, CommitHex(c))
    {
      assert c in claiming;
      var j :| 0 <= j < |claiming| && claiming[j] == c;
      assert ReadFrom(hash, history, c, read[j]) && read[j] in read;
    }
  }

  lemma KeptDistinct(read: seq<ReadStamp>, kept: seq<ReadStamp>)
    requires IsCollapse(read, kept)
    ensures DistinctManifests(kept)
  {
  }

  lemma KeptCovers(hash: Hasher, history: History, claiming: seq<ObjectId>, read: seq<ReadStamp>,
          kept: seq<ReadStamp>, commit: ObjectId) returns (at: nat)
    requires AllReadFrom(hash, history, claiming, read) && IsCollapse(read, kept) && commit in claiming
    ensures at < |kept| && ReadArtifacts(history, commit).Ok?
            && kept[at].group.manifestHashes == hash(ReadArtifacts(history, commit).value.manifestBytes)
  {
    hide ReadArtifacts;
    var j :| 0 <= j < |claiming| && claiming[j] == commit;
    assert read[j] in read && ReadFrom(hash, history, commit, read[j]);
    assert IsCovered(kept, read[j]);
    var k :| k in kept && k.group.manifestHashes == read[j].group.manifestHashes;
    at :| 0 <= at < |kept| && kept[at] == k;
  }

  lemma OrderedPasses(table: seq<Range>, hash: Hasher, history: History, parents: seq<ObjectId>,
                      claiming: seq<ObjectId>, read: seq<ReadStamp>, kept: seq<ReadStamp>, order: seq<nat>)
    requires AllReadFrom(hash, history, claiming, read) && IsCollapse(read, kept)
    requires |order| == |kept| && Distinct(order) && forall i | 0 <= i < |order| :: order[i] < |kept|
    requires DeriveEdges(table, GroupsOf(kept), ManifestsOf(kept)).Ok?
    requires Order(GroupsOf(kept), DeriveEdges(table, GroupsOf(kept), ManifestsOf(kept)).value) ==
             Ok(Pick(GroupsOf(kept), order))
    requires DistinctSha256(Pick(GroupsOf(kept), order))
    ensures PassesOrderCheck(table, history, Pick(GroupsOf(kept), order))
  {
    hide DeriveEdges, Order, ReadArtifacts, IsCollapse, AllReadFrom, DistinctSha256, BoundGroup;
    var groups, resolved := GroupsOf(kept), ManifestsOf(kept);
    var ordered := Pick(groups, order);
    UnpickKeysDistinct(groups, order);
    forall i | 0 <= i < |ordered|
      ensures ResolveGroup(history, ordered[i]).Some?
              && ResolveGroup(history, ordered[i]).value.manifestBytes == resolved[order[i]].manifestBytes
    {
      var commit := KeptReadFrom(hash, history, claiming, read, kept, order[i]);
      YieldedResolves(hash, history, commit, ordered[i]);
    }
    ResolvedEach(history, ordered);
    var reordered := ResolveGroups(history, ordered).value;
    forall i | 0 <= i < |ordered|
      ensures exists j | 0 <= j < |groups| ::
                groups[j] == ordered[i] && resolved[j].manifestBytes == reordered[i].manifestBytes
    {
      assert groups[order[i]] == ordered[i] && resolved[order[i]].manifestBytes == reordered[i].manifestBytes;
    }
    GenerationAgrees(table, groups, resolved, reordered);
  }

  lemma UnpickKeysDistinct(groups: Groups, order: seq<nat>)
    requires |order| == |groups| && Distinct(order) && forall i | 0 <= i < |order| :: order[i] < |groups|
    requires DistinctSha256(Pick(groups, order))
    ensures DistinctSha256(groups)
  {
    var picked := Pick(groups, order);
    forall a, b | 0 <= a < b < |groups| ensures Key(groups[a]) != Key(groups[b]) {
      Onto(|groups|, order, a);
      Onto(|groups|, order, b);
      var i, j := PositionIn(order, a), PositionIn(order, b);
      assert picked[i] == groups[a] && picked[j] == groups[b];
      assert i != j;
    }
  }
}
