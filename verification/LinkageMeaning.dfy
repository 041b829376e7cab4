/** When a binding group is linked to its stamp, and what is wrong when it is
    not, told by the positions of the offered tokens. */
module LinkageMeaning {
  import opened Bytes
  import opened ManifestModel
  import opened BindingOrder
  import opened Binding

  predicate IsOffer(offered: seq<BoundToken>, claimed: PastToken, k: nat) {
    k < |offered| && offered[k].spec == claimed.spec && offered[k].site == claimed.site
  }

  /** The stamp offers one token for the claim, at `k`. */
  ghost predicate IsOnlyOffer(offered: seq<BoundToken>, claimed: PastToken, k: nat) {
    IsOffer(offered, claimed, k) && forall j: nat | IsOffer(offered, claimed, j) :: j == k
  }

  ghost predicate HasNoOffer(offered: seq<BoundToken>, claimed: PastToken) {
    forall k: nat :: !IsOffer(offered, claimed, k)
  }

  ghost predicate HasTwoOffers(offered: seq<BoundToken>, claimed: PastToken) {
    exists j: nat, k: nat | j < k :: IsOffer(offered, claimed, j) && IsOffer(offered, claimed, k)
  }

  /** The offers of the first token and those of the others. */
  lemma OfferSteps(offered: seq<BoundToken>, claimed: PastToken)
    requires offered != []
    ensures forall k: nat :: IsOffer(offered, claimed, k) <==>
              if k == 0 then offered[0].spec == claimed.spec && offered[0].site == claimed.site
              else IsOffer(offered[1..], claimed, k - 1)
  {
  }

  lemma {:induction false} OffersExact(offered: seq<BoundToken>, claimed: PastToken)
    ensures |Offers(offered, claimed)| == 0 <==> HasNoOffer(offered, claimed)
    ensures |Offers(offered, claimed)| > 1 <==> HasTwoOffers(offered, claimed)
    ensures forall k: nat | IsOnlyOffer(offered, claimed, k) :: Offers(offered, claimed) == [offered[k]]
    ensures |Offers(offered, claimed)| == 1 ==> exists k: nat :: IsOnlyOffer(offered, claimed, k)
  {
    if offered != [] {
      var rest := offered[1..];
      OffersExact(rest, claimed);
      OfferSteps(offered, claimed);
      hide IsOffer;
      var first := offered[0].spec == claimed.spec && offered[0].site == claimed.site;
      assert first <==> IsOffer(offered, claimed, 0);
      forall k: nat ensures IsOffer(rest, claimed, k) <==> IsOffer(offered, claimed, k + 1) {}
      OffersMove(offered, claimed);
      if |Offers(offered, claimed)| == 1 {
        if first {
          assert IsOnlyOffer(offered, claimed, 0);
        } else {
          var k: nat :| IsOnlyOffer(rest, claimed, k);
          assert IsOnlyOffer(offered, claimed, k + 1);
        }
      }
    }
  }

  /** How the three cases pass from the other tokens to all of them. */
  lemma OffersMove(offered: seq<BoundToken>, claimed: PastToken)
    requires offered != []
    requires forall k: nat :: IsOffer(offered[1..], claimed, k) <==> IsOffer(offered, claimed, k + 1)
    ensures HasNoOffer(offered, claimed) <==> !IsOffer(offered, claimed, 0) && HasNoOffer(offered[1..], claimed)
    ensures HasTwoOffers(offered, claimed) <==>
            || (IsOffer(offered, claimed, 0) && !HasNoOffer(offered[1..], claimed))
            || HasTwoOffers(offered[1..], claimed)
    ensures forall k: nat :: IsOnlyOffer(offered, claimed, k) <==>
              if k == 0 then IsOffer(offered, claimed, 0) && HasNoOffer(offered[1..], claimed)
              else !IsOffer(offered, claimed, 0) && IsOnlyOffer(offered[1..], claimed, k - 1)
  {
    hide IsOffer;
    var rest := offered[1..];
    forall k: nat | k > 0 ensures IsOffer(offered, claimed, k) <==> IsOffer(rest, claimed, k - 1) {
      assert IsOffer(rest, claimed, k - 1) <==> IsOffer(offered, claimed, k - 1 + 1);
    }
    if k: nat :| IsOffer(rest, claimed, k) { assert IsOffer(offered, claimed, k + 1); }
    if j: nat, k: nat :| j < k && IsOffer(rest, claimed, j) && IsOffer(rest, claimed, k) {
      assert IsOffer(offered, claimed, j + 1) && IsOffer(offered, claimed, k + 1);
    }
    if j: nat, k: nat :| j < k && IsOffer(offered, claimed, j) && IsOffer(offered, claimed, k) {
      assert IsOffer(rest, claimed, k - 1);
      if j > 0 { assert IsOffer(rest, claimed, j - 1); }
    }
    forall k: nat | k > 0
      ensures IsOnlyOffer(offered, claimed, k) <==> !IsOffer(offered, claimed, 0) && IsOnlyOffer(rest, claimed, k - 1)
    {
      if IsOnlyOffer(offered, claimed, k) {
        forall j: nat | IsOffer(rest, claimed, j) ensures j == k - 1 { assert IsOffer(offered, claimed, j + 1); }
      }
    }
  }

  /** The stamp's bytes reproduce the group's hashes, and those of every token
      the group claims, which the stamp offers once. */
  ghost predicate Reproduces(hash: Hasher, group: BindingGroup, stamp: BoundStamp) {
    && hash(stamp.manifestBytes) == group.manifestHashes
    && forall claimed | claimed in group.tokens :: IsReproduced(hash, claimed, stamp.tokens)
  }

  ghost predicate IsReproduced(hash: Hasher, claimed: PastToken, offered: seq<BoundToken>) {
    exists k: nat :: IsOnlyOffer(offered, claimed, k) && hash(offered[k].bytes) == claimed.tokenHashes
  }

  lemma ReproducedExact(hash: Hasher, claimed: PastToken, offered: seq<BoundToken>)
    ensures |Offers(offered, claimed)| == 1 && hash(Offers(offered, claimed)[0].bytes) == claimed.tokenHashes <==>
            IsReproduced(hash, claimed, offered)
  {
    hide Offers, IsOnlyOffer;
    OffersExact(offered, claimed);
    if |Offers(offered, claimed)| == 1 {
      var k: nat :| IsOnlyOffer(offered, claimed, k);
    }
  }

  lemma LinkedExact(hash: Hasher, group: BindingGroup, stamp: BoundStamp)
    ensures IsLinked(hash, group, stamp) <==> Reproduces(hash, group, stamp)
  {
    hide Offers, IsReproduced;
    forall claimed | claimed in group.tokens
      ensures |Offers(stamp.tokens, claimed)| == 1
              && hash(Offers(stamp.tokens, claimed)[0].bytes) == claimed.tokenHashes
              <==> IsReproduced(hash, claimed, stamp.tokens)
    {
      ReproducedExact(hash, claimed, stamp.tokens);
    }
  }

  // ----- what is wrong -----

  /** Why the claim is not reproduced. */
  ghost predicate IsTokenFault(hash: Hasher, index: nat, claimed: PastToken, offered: seq<BoundToken>,
          error: BindingError)
  {
    match error
    case TokenUnresolved(at, spec, site) =>
      at == index && spec == claimed.spec && site == claimed.site && HasNoOffer(offered, claimed)
    case TokenAmbiguous(at, spec, site) =>
      at == index && spec == claimed.spec && site == claimed.site && HasTwoOffers(offered, claimed)
    case TokenHashMismatch(at, spec, site) =>
      at == index && spec == claimed.spec && site == claimed.site
      && exists k: nat :: IsOnlyOffer(offered, claimed, k) && hash(offered[k].bytes) != claimed.tokenHashes
    case _ => false
  }

  /** Why the group is not linked: its manifest hashes differ, or a claim is
      the first that is not reproduced. */
  ghost predicate IsGroupFault(hash: Hasher, index: nat, group: BindingGroup, stamp: BoundStamp, error: BindingError) {
    || (error == ManifestHashMismatch(index) && hash(stamp.manifestBytes) != group.manifestHashes)
    || (hash(stamp.manifestBytes) == group.manifestHashes
        && exists k | 0 <= k < |group.tokens| ::
             && IsTokenFault(hash, index, group.tokens[k], stamp.tokens, error)
             && forall j | 0 <= j < k :: IsReproduced(hash, group.tokens[j], stamp.tokens))
  }

  /** Why linkage fails: counts differ, or a group is the first not linked. */
  ghost predicate IsLinkageFault(hash: Hasher, groups: Groups, resolved: seq<BoundStamp>, error: BindingError) {
    if |groups| != |resolved| then error == StampCountMismatch(|groups|, |resolved|)
    else
      exists i | 0 <= i < |groups| ::
        && IsGroupFault(hash, i, groups[i], resolved[i], error)
        && forall j | 0 <= j < i :: Reproduces(hash, groups[j], resolved[j])
  }

  lemma TokenFault(hash: Hasher, index: nat, claimed: PastToken, offered: seq<BoundToken>)
    ensures var failure := CheckToken(hash, index, claimed, offered);
            if failure.None? then IsReproduced(hash, claimed, offered)
            else IsTokenFault(hash, index, claimed, offered, failure.value)
  {
    hide Offers, IsOnlyOffer, IsOffer, HasNoOffer, HasTwoOffers, IsReproduced;
    OffersExact(offered, claimed);
    ReproducedExact(hash, claimed, offered);
    if |Offers(offered, claimed)| == 1 {
      var k: nat :| IsOnlyOffer(offered, claimed, k);
    }
  }

  lemma {:induction false} TokensFault(hash: Hasher, index: nat, claimed: seq<PastToken>, offered: seq<BoundToken>)
    returns (k: nat)
    requires CheckTokens(hash, index, claimed, offered).Some?
    ensures k < |claimed|
    ensures IsTokenFault(hash, index, claimed[k], offered, CheckTokens(hash, index, claimed, offered).value)
    ensures forall j | 0 <= j < k :: IsReproduced(hash, claimed[j], offered)
  {
    hide CheckToken, IsTokenFault, IsReproduced;
    TokenFault(hash, index, claimed[0], offered);
    if CheckToken(hash, index, claimed[0], offered).Some? {
      k := 0;
    } else {
      var later := TokensFault(hash, index, claimed[1..], offered);
      k := later + 1;
      assert forall j | 0 < j <= k :: claimed[j] == claimed[1..][j - 1];
    }
  }

  lemma GroupFault(hash: Hasher, index: nat, group: BindingGroup, stamp: BoundStamp)
    ensures var failure := CheckGroup(hash, index, group, stamp);
            if failure.None? then Reproduces(hash, group, stamp)
            else IsGroupFault(hash, index, group, stamp, failure.value)
  {
    hide IsTokenFault, IsReproduced;
    if hash(stamp.manifestBytes) == group.manifestHashes {
      TokensLinked(hash, index, group.tokens, stamp.tokens);
      if CheckTokens(hash, index, group.tokens, stamp.tokens).Some? {
        var k := TokensFault(hash, index, group.tokens, stamp.tokens);
      } else {
        hide Offers, CheckTokens;
        assert IsLinked(hash, group, stamp);
        LinkedExact(hash, group, stamp);
      }
    }
  }

  lemma {:induction false} GroupsFault(hash: Hasher, index: nat, groups: Groups, resolved: seq<BoundStamp>)
    returns (i: nat)
    requires |groups| == |resolved| && CheckGroups(hash, index, groups, resolved).Some?
    ensures i < |groups|
    ensures IsGroupFault(hash, index + i, groups[i], resolved[i], CheckGroups(hash, index, groups, resolved).value)
    ensures forall j | 0 <= j < i :: Reproduces(hash, groups[j], resolved[j])
    decreases |groups|
  {
    hide CheckGroup, IsGroupFault, Reproduces;
    GroupFault(hash, index, groups[0], resolved[0]);
    if CheckGroup(hash, index, groups[0], resolved[0]).Some? {
      i := 0;
    } else {
      var later := GroupsFault(hash, index + 1, groups[1..], resolved[1..]);
      i := later + 1;
      assert forall j | 0 < j <= i :: groups[j] == groups[1..][j - 1] && resolved[j] == resolved[1..][j - 1];
    }
  }

  /** Linkage holds exactly when every stamp reproduces its group, and fails
      for the first that does not. */
  lemma LinkageMeans(hash: Hasher, groups: Groups, resolved: seq<BoundStamp>)
    ensures CheckLinkage(hash, groups, resolved).None? <==>
            |groups| == |resolved| && forall i | 0 <= i < |groups| :: Reproduces(hash, groups[i], resolved[i])
    ensures CheckLinkage(hash, groups, resolved).Some? ==>
              IsLinkageFault(hash, groups, resolved, CheckLinkage(hash, groups, resolved).value)
  {
    hide IsGroupFault, Reproduces, IsLinked;
    LinkageExact(hash, groups, resolved);
    forall i | 0 <= i < |groups| && |groups| == |resolved|
      ensures IsLinked(hash, groups[i], resolved[i]) <==> Reproduces(hash, groups[i], resolved[i])
    {
      LinkedExact(hash, groups[i], resolved[i]);
    }
    if |groups| == |resolved| && CheckLinkage(hash, groups, resolved).Some? {
      var i := GroupsFault(hash, 0, groups, resolved);
    }
  }

  // ----- the order check -----

  lemma {:induction false} DivergenceExact(actual: Groups, expected: Groups)
    ensures match FirstDivergence(actual, expected)
            case None => forall i | 0 <= i < |actual| && i < |expected| ::
                           actual[i].manifestHashes == expected[i].manifestHashes
            case Some(at) =>
              && at < |actual| && at < |expected| && actual[at].manifestHashes != expected[at].manifestHashes
              && forall i | 0 <= i < at :: actual[i].manifestHashes == expected[i].manifestHashes
  {
    if actual != [] && expected != [] {
      var a, e := actual[1..], expected[1..];
      DivergenceExact(a, e);
      assert forall i | 0 < i < |actual| :: actual[i] == a[i - 1];
      assert forall i | 0 < i < |expected| :: expected[i] == e[i - 1];
    }
  }

  /** The order check passes when the groups stand as the canonical order has
      them; it names the ordering's own failure, or the first group out of
      place. */
  lemma OrderCheckMeans(groups: Groups, edges: seq<Edge>)
    ensures match Order(groups, edges)
            case Err(cause) => VerifyBindingOrder(groups, edges) == Some(Unorderable(cause))
            case Ok(canonical) =>
              match VerifyBindingOrder(groups, edges)
              case None => forall i | 0 <= i < |groups| && i < |canonical| ::
                             groups[i].manifestHashes == canonical[i].manifestHashes
              case Some(error) =>
                && error.NonCanonicalOrder?
                && var at := error.firstDivergence;
                   && at < |groups| && at < |canonical|
                   && groups[at].manifestHashes != canonical[at].manifestHashes
                   && forall i | 0 <= i < at :: groups[i].manifestHashes == canonical[i].manifestHashes
  {
    hide Order, FirstDivergence;
    var ordered := Order(groups, edges);
    if ordered.Ok? { DivergenceExact(groups, ordered.value); }
  }
}
