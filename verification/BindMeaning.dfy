/** The binding set of a new stamp, told by lines of history, the artifacts
    found there and their hashes. */
module BindMeaning {
  import opened Bytes
  import opened ManifestModel
  import opened BindingOrder
  import opened Binding
  import opened Repository
  import opened Claims
  import opened ClaimMeaning
  import opened Bind
  import Hex

  /** A claim with none between it and the parents. */
  ghost predicate IsNearest(history: History, parents: seq<ObjectId>, commit: ObjectId) {
    HoldsClaim(history, commit) && exists line :: IsLineTo(history, parents, line, commit)
  }

  lemma NearestExact(history: History, parents: seq<ObjectId>, commit: ObjectId)
    ensures IsNearestClaim(history, parents, commit) <==> IsNearest(history, parents, commit)
  {
    hide IsClaiming, HoldsClaim, IsReached;
    ClaimsExact(history, commit);
    ReachedExact(history, parents, commit);
  }

  /** The group tells of the commit: its id in lowercase digits, no
      predecessor, the double hash of its manifest, and for each of its token
      files, in order, the site and the double hash. */
  ghost predicate TellsOf(hash: Hasher, history: History, commit: ObjectId, group: BindingGroup) {
    var read := ReadArtifacts(history, commit);
    && read.Ok?
    && Hex.Spells(group.commit, commit) && Hex.IsLowercase(group.commit)
    && group.predecessorOrigin == None
    && group.manifestHashes == hash(read.value.manifestBytes)
    && |group.tokens| == |read.value.tokens|
    && forall i | 0 <= i < |group.tokens| ::
         && group.tokens[i].spec == Rfc3161 && group.tokens[i].site == read.value.tokens[i].site
         && group.tokens[i].tokenHashes == hash(read.value.tokens[i].bytes)
  }

  lemma YieldedExact(hash: Hasher, history: History, commit: ObjectId, group: BindingGroup)
    ensures YieldedBy(hash, history, commit, group) <==> TellsOf(hash, history, commit, group)
  {
    hide ReadArtifacts, CommitHex, Hex.Spells, Hex.IsLowercase;
    CommitHexExact(group.commit, commit);
    if TellsOf(hash, history, commit, group) {
      var tokens := PastTokens(hash, ReadArtifacts(history, commit).value.tokens);
      assert tokens == group.tokens;
    }
  }

  /** The group's annotation is the least under which its manifest could be
      bound. */
  ghost predicate IsLeast(hash: Hasher, history: History, parents: seq<ObjectId>, group: BindingGroup) {
    forall c: ObjectId, name: Bytes | IsNearest(history, parents, c) && Hex.Spells(name, c) && Hex.IsLowercase(name)
      && HashesOf(hash, history, c) == Some(group.manifestHashes) ::
        group.commit == name || ComesBefore(group.commit, name)
  }

  lemma LeastExact(hash: Hasher, history: History, parents: seq<ObjectId>, group: BindingGroup)
    ensures IsLeastNamed(hash, history, parents, group) <==> IsLeast(hash, history, parents, group)
  {
    hide IsNearestClaim, IsNearest, HashesOf, LexLe, ComesBefore, CommitHex, Hex.Spells, Hex.IsLowercase;
    forall c: ObjectId ensures IsNearestClaim(history, parents, c) <==> IsNearest(history, parents, c) {
      NearestExact(history, parents, c);
    }
    forall c: ObjectId, name: Bytes
      ensures name == CommitHex(c) <==> Hex.Spells(name, c) && Hex.IsLowercase(name)
    {
      CommitHexExact(name, c);
    }
    forall c: ObjectId
      ensures LexLe(group.commit, CommitHex(c)) <==>
              group.commit == CommitHex(c) || ComesBefore(group.commit, CommitHex(c))
    {
      LexExact(group.commit, CommitHex(c));
    }
  }

  lemma NearestAlike(history: History, parents: seq<ObjectId>)
    ensures forall c: ObjectId :: IsNearestClaim(history, parents, c) <==> IsNearest(history, parents, c)
  {
    hide IsNearestClaim, IsNearest;
    forall c: ObjectId ensures IsNearestClaim(history, parents, c) <==> IsNearest(history, parents, c) {
      NearestExact(history, parents, c);
    }
  }

  ghost predicate TellsOfNearest(hash: Hasher, history: History, parents: seq<ObjectId>, group: BindingGroup) {
    exists c :: IsNearest(history, parents, c) && TellsOf(hash, history, c, group)
  }

  lemma GroupExact(hash: Hasher, history: History, parents: seq<ObjectId>, group: BindingGroup)
    ensures YieldedByNearest(hash, history, parents, group) <==> TellsOfNearest(hash, history, parents, group)
  {
    hide IsNearestClaim, IsNearest, YieldedBy, TellsOf;
    NearestAlike(history, parents);
    forall c: ObjectId ensures YieldedBy(hash, history, c, group) <==> TellsOf(hash, history, c, group) {
      YieldedExact(hash, history, c, group);
    }
  }

  ghost predicate IsBound(hash: Hasher, history: History, groups: Groups, commit: ObjectId) {
    exists i | 0 <= i < |groups| :: HashesOf(hash, history, commit) == Some(groups[i].manifestHashes)
  }

  lemma BoundExact(hash: Hasher, history: History, groups: Groups, commit: ObjectId)
    ensures BindsManifestOf(hash, history, groups, commit) <==> IsBound(hash, history, groups, commit)
  {
    hide ReadArtifacts;
    if BindsManifestOf(hash, history, groups, commit) {
      var g :| g in groups && g.manifestHashes == hash(ReadArtifacts(history, commit).value.manifestBytes);
      var i :| 0 <= i < |groups| && groups[i] == g;
    }
    if i :| 0 <= i < |groups| && HashesOf(hash, history, commit) == Some(groups[i].manifestHashes) {
      assert groups[i] in groups;
    }
  }

  /** A binding set has a group for each manifest found at a nearest claim,
      and no other: each group tells of a nearest claim, of least annotation
      among those sharing its manifest; each nearest claim's manifest hashes
      stand in exactly one group. */
  lemma BindingSetExact(hash: Hasher, history: History, parents: seq<ObjectId>, groups: Groups)
    ensures IsBindingSet(hash, history, parents, groups) <==>
            && (forall i | 0 <= i < |groups| ::
                  TellsOfNearest(hash, history, parents, groups[i]) && IsLeast(hash, history, parents, groups[i]))
            && (forall c: ObjectId | IsNearest(history, parents, c) :: IsBound(hash, history, groups, c))
            && forall i, j | 0 <= i < j < |groups| :: groups[i].manifestHashes != groups[j].manifestHashes
  {
    hide IsNearestClaim, IsNearest, IsLeastNamed, IsLeast, YieldedByNearest, TellsOfNearest, BindsManifestOf, IsBound;
    NearestAlike(history, parents);
    forall i | 0 <= i < |groups|
      ensures YieldedByNearest(hash, history, parents, groups[i]) <==>
              TellsOfNearest(hash, history, parents, groups[i])
      ensures IsLeastNamed(hash, history, parents, groups[i]) <==> IsLeast(hash, history, parents, groups[i])
    {
      GroupExact(hash, history, parents, groups[i]);
      LeastExact(hash, history, parents, groups[i]);
    }
    forall c: ObjectId ensures BindsManifestOf(hash, history, groups, c) <==> IsBound(hash, history, groups, c) {
      BoundExact(hash, history, groups, c);
    }
  }
}
