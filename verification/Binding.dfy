/** Verification check 4 (stamping specification, section 7): renewal chain
    linkage, the binding edges visible in bound manifests, and the canonical
    group order. */
module Binding {
  import opened Bytes
  import opened Sorting
  import opened Utf8
  import opened UnicodeTable
  import opened ManifestModel
  import opened ManifestReader
  import opened BindingOrder
  import opened BindingRelation

  datatype BoundToken = BoundToken(spec: AnchorSpec, site: Bytes, bytes: Bytes)

  datatype BoundStamp = BoundStamp(manifestBytes: Bytes, tokens: seq<BoundToken>)

  datatype BindingError =
    | StampCountMismatch(claimed: nat, resolved: nat)
    | ManifestHashMismatch(groupIndex: nat)
    | TokenUnresolved(groupIndex: nat, spec: AnchorSpec, site: Bytes)
    | TokenAmbiguous(groupIndex: nat, spec: AnchorSpec, site: Bytes)
    | TokenHashMismatch(groupIndex: nat, spec: AnchorSpec, site: Bytes)
    | BoundManifestUnreadable(groupIndex: nat)
    | Unorderable(cause: OrderError)
    | NonCanonicalOrder(firstDivergence: nat)

  type Hasher = Bytes -> PayloadHashes

  // ----- linkage -----

  /** The resolved tokens offered for one claimed token. */
  function Offers(offered: seq<BoundToken>, claimed: PastToken): (matches: seq<BoundToken>)
    ensures forall t :: t in matches <==> t in offered && t.spec == claimed.spec && t.site == claimed.site
  {
    if offered == [] then []
    else
      assert offered == [offered[0]] + offered[1..];
      var rest := Offers(offered[1..], claimed);
      if offered[0].spec == claimed.spec && offered[0].site == claimed.site then [offered[0]] + rest else rest
  }

  function CheckToken(hash: Hasher, index: nat, claimed: PastToken, offered: seq<BoundToken>): Option<BindingError> {
    var matches := Offers(offered, claimed);
    if matches == [] then Some(TokenUnresolved(index, claimed.spec, claimed.site))
    else if |matches| > 1 then Some(TokenAmbiguous(index, claimed.spec, claimed.site))
    else if hash(matches[0].bytes) != claimed.tokenHashes
    then Some(TokenHashMismatch(index, claimed.spec, claimed.site))
    else None
  }

  function CheckTokens(hash: Hasher, index: nat, claimed: seq<PastToken>,
          offered: seq<BoundToken>): Option<BindingError>
  {
    if claimed == [] then None
    else
      match CheckToken(hash, index, claimed[0], offered)
      case Some(failure) => Some(failure)
      case None => CheckTokens(hash, index, claimed[1..], offered)
  }

  function CheckGroup(hash: Hasher, index: nat, group: BindingGroup, stamp: BoundStamp): Option<BindingError> {
    if hash(stamp.manifestBytes) != group.manifestHashes then Some(ManifestHashMismatch(index))
    else CheckTokens(hash, index, group.tokens, stamp.tokens)
  }

  function CheckGroups(hash: Hasher, index: nat, groups: Groups, resolved: seq<BoundStamp>): Option<BindingError>
    requires |groups| == |resolved|
    decreases |groups|
  {
    if groups == [] then None
    else
      match CheckGroup(hash, index, groups[0], resolved[0])
      case Some(failure) => Some(failure)
      case None => CheckGroups(hash, index + 1, groups[1..], resolved[1..])
  }

  function CheckLinkage(hash: Hasher, groups: Groups, resolved: seq<BoundStamp>): Option<BindingError> {
    if |groups| != |resolved| then Some(StampCountMismatch(|groups|, |resolved|))
    else CheckGroups(hash, 0, groups, resolved)
  }

  /** The group's recorded double hashes are reproduced by the stamp's bytes,
      each claimed token by the one offered entry for it. */
  ghost predicate IsLinked(hash: Hasher, group: BindingGroup, stamp: BoundStamp) {
    && hash(stamp.manifestBytes) == group.manifestHashes
    && forall claimed | claimed in group.tokens ::
         |Offers(stamp.tokens, claimed)| == 1 && hash(Offers(stamp.tokens, claimed)[0].bytes) == claimed.tokenHashes
  }

  lemma {:induction false} TokensLinked(hash: Hasher, index: nat, claimed: seq<PastToken>, offered: seq<BoundToken>)
    ensures CheckTokens(hash, index, claimed, offered).None? <==>
            forall c | c in claimed :: |Offers(offered, c)| == 1 && hash(Offers(offered, c)[0].bytes) == c.tokenHashes
  {
    hide Offers;
    if claimed != [] {
      TokensLinked(hash, index, claimed[1..], offered);
      assert claimed == [claimed[0]] + claimed[1..];
    }
  }

  lemma {:induction false} GroupsLinked(hash: Hasher, index: nat, groups: Groups, resolved: seq<BoundStamp>)
    requires |groups| == |resolved|
    ensures CheckGroups(hash, index, groups, resolved).None? <==>
            forall i | 0 <= i < |groups| :: IsLinked(hash, groups[i], resolved[i])
    decreases |groups|
  {
    if groups != [] {
      TokensLinked(hash, index, groups[0].tokens, resolved[0].tokens);
      assert CheckGroup(hash, index, groups[0], resolved[0]).None? <==> IsLinked(hash, groups[0], resolved[0]);
      hide IsLinked, CheckGroup;
      var restG, restR := groups[1..], resolved[1..];
      GroupsLinked(hash, index + 1, restG, restR);
      assert forall i | 0 < i < |groups| :: groups[i] == restG[i - 1] && resolved[i] == restR[i - 1];
      if forall i | 0 <= i < |groups| :: IsLinked(hash, groups[i], resolved[i]) {
        assert forall i | 0 <= i < |restG| :: restG[i] == groups[i + 1] && restR[i] == resolved[i + 1];
      }
    }
  }

  /** Linkage holds if and only if stamps and groups pair up and every pair is
      linked. */
  lemma LinkageExact(hash: Hasher, groups: Groups, resolved: seq<BoundStamp>)
    ensures CheckLinkage(hash, groups, resolved).None? <==>
            |groups| == |resolved| && forall i | 0 <= i < |groups| :: IsLinked(hash, groups[i], resolved[i])
  {
    if |groups| == |resolved| { GroupsLinked(hash, 0, groups, resolved); }
  }

  method VerifyBindingLinkage(hash: Hasher, groups: Groups, resolved: seq<BoundStamp>)
    returns (failure: Option<BindingError>)
    ensures failure == CheckLinkage(hash, groups, resolved)
  {
    if |groups| != |resolved| { return Some(StampCountMismatch(|groups|, |resolved|)); }
    for index := 0 to |groups|
      invariant CheckGroups(hash, 0, groups, resolved) == CheckGroups(hash, index, groups[index..], resolved[index..])
    {
      var group, stamp := groups[index], resolved[index];
      assert groups[index..][1..] == groups[index + 1..] && resolved[index..][1..] == resolved[index + 1..];
      if hash(stamp.manifestBytes) != group.manifestHashes { return Some(ManifestHashMismatch(index)); }
      for k := 0 to |group.tokens|
        invariant CheckTokens(hash, index, group.tokens, stamp.tokens) ==
                  CheckTokens(hash, index, group.tokens[k..], stamp.tokens)
      {
        hide Offers, CheckGroups;
        assert group.tokens[k..][1..] == group.tokens[k + 1..];
        var claimed := group.tokens[k];
        var matches := Offers(stamp.tokens, claimed);
        if matches == [] {
          CheckGroupsHead(hash, index, groups[index..], resolved[index..]);
          return Some(TokenUnresolved(index, claimed.spec, claimed.site));
        }
        if |matches| > 1 {
          CheckGroupsHead(hash, index, groups[index..], resolved[index..]);
          return Some(TokenAmbiguous(index, claimed.spec, claimed.site));
        }
        if hash(matches[0].bytes) != claimed.tokenHashes {
          CheckGroupsHead(hash, index, groups[index..], resolved[index..]);
          return Some(TokenHashMismatch(index, claimed.spec, claimed.site));
        }
      }
    }
    return None;
  }

  lemma CheckGroupsHead(hash: Hasher, index: nat, groups: Groups, resolved: seq<BoundStamp>)
    requires |groups| == |resolved| && groups != []
    ensures CheckGroup(hash, index, groups[0], resolved[0]).Some? ==>
              CheckGroups(hash, index, groups, resolved) == CheckGroup(hash, index, groups[0], resolved[0])
  {
  }

  // ----- edges -----

  function ParseBoundManifest(table: seq<Range>, bytes: Bytes): Option<Manifest> {
    if !Valid(bytes) then None
    else
      match Parse(table, bytes)
      case Ok(manifest) => Some(manifest)
      case Err(_) => None
  }

  /** The manifest carries a `past-manifest` with the group's hashes. */
  predicate Carries(manifest: Manifest, group: BindingGroup) {
    exists inner | inner in manifest.bindingGroups :: inner.manifestHashes == group.manifestHashes
  }

  function EdgesOf(groups: Groups, binder: nat, manifest: Manifest, upTo: nat): (edges: seq<Edge>)
    requires upTo <= |groups|
    ensures forall e :: e in edges <==>
            e.binder == binder && e.bound < upTo && e.bound != binder && Carries(manifest, groups[e.bound])
  {
    if upTo == 0 then []
    else
      var rest := EdgesOf(groups, binder, manifest, upTo - 1);
      if binder != upTo - 1 && Carries(manifest, groups[upTo - 1]) then rest + [Edge(binder, upTo - 1)] else rest
  }

  function EdgesUpTo(table: seq<Range>, groups: Groups, resolved: seq<BoundStamp>,
          upTo: nat): (edges: Result<seq<Edge>, BindingError>)
    requires |groups| == |resolved| && upTo <= |groups|
  {
    if upTo == 0 then Ok([])
    else
      var binder := upTo - 1;
      match EdgesUpTo(table, groups, resolved, binder)
      case Err(cause) => Err(cause)
      case Ok(before) =>
        match ParseBoundManifest(table, resolved[binder].manifestBytes)
        case None => Err(BoundManifestUnreadable(binder))
        case Some(manifest) => Ok(before + EdgesOf(groups, binder, manifest, |groups|))
  }

  function DeriveEdges(table: seq<Range>, groups: Groups, resolved: seq<BoundStamp>): Result<seq<Edge>, BindingError> {
    if |groups| != |resolved| then Err(StampCountMismatch(|groups|, |resolved|))
    else EdgesUpTo(table, groups, resolved, |groups|)
  }

  /** The inner loop: one binder against every group. */
  method PushEdges(groups: Groups, binder: nat, manifest: Manifest, before: seq<Edge>) returns (edges: seq<Edge>)
    ensures edges == before + EdgesOf(groups, binder, manifest, |groups|)
  {
    hide Carries;
    edges := before;
    for bound := 0 to |groups|
      invariant edges == before + EdgesOf(groups, binder, manifest, bound)
    {
      if binder != bound && Carries(manifest, groups[bound]) { edges := edges + [Edge(binder, bound)]; }
    }
  }

  method DeriveBindingEdges(table: seq<Range>, groups: Groups, resolved: seq<BoundStamp>)
    returns (edges: Result<seq<Edge>, BindingError>)
    ensures edges == DeriveEdges(table, groups, resolved)
  {
    if |groups| != |resolved| { return Err(StampCountMismatch(|groups|, |resolved|)); }
    hide ParseBoundManifest, EdgesOf;
    var found: seq<Edge> := [];
    for binder := 0 to |groups|
      invariant EdgesUpTo(table, groups, resolved, binder) == Ok(found)
    {
      var manifest := ParseBoundManifest(table, resolved[binder].manifestBytes);
      if manifest.None? {
        ErrorPersists(table, groups, resolved, binder + 1, |groups|);
        return Err(BoundManifestUnreadable(binder));
      }
      found := PushEdges(groups, binder, manifest.value, found);
    }
    return Ok(found);
  }

  lemma {:induction false} ErrorPersists(table: seq<Range>, groups: Groups, resolved: seq<BoundStamp>, a: nat, b: nat)
    requires |groups| == |resolved| && a <= b <= |groups| && EdgesUpTo(table, groups, resolved, a).Err?
    ensures EdgesUpTo(table, groups, resolved, b) == EdgesUpTo(table, groups, resolved, a)
    decreases b
  {
    hide ParseBoundManifest;
    if a < b { ErrorPersists(table, groups, resolved, a, b - 1); }
  }

  /** `groups[binder]`'s own manifest carries `groups[bound]`. */
  ghost predicate Binds(table: seq<Range>, groups: Groups, resolved: seq<BoundStamp>, binder: nat, bound: nat)
    requires |groups| == |resolved|
  {
    && binder < |groups| && bound < |groups| && binder != bound
    && var manifest := ParseBoundManifest(table, resolved[binder].manifestBytes);
       manifest.Some? && Carries(manifest.value, groups[bound])
  }

  /** The error names the first bound manifest that does not parse. */
  ghost predicate IsFirstUnreadable(table: seq<Range>, resolved: seq<BoundStamp>, error: BindingError) {
    && error.BoundManifestUnreadable? && error.groupIndex < |resolved|
    && ParseBoundManifest(table, resolved[error.groupIndex].manifestBytes).None?
    && forall i | 0 <= i < error.groupIndex :: ParseBoundManifest(table, resolved[i].manifestBytes).Some?
  }

  lemma {:induction false} EdgesUpToExact(table: seq<Range>, groups: Groups, resolved: seq<BoundStamp>, upTo: nat)
    requires |groups| == |resolved| && upTo <= |groups|
    ensures var edges := EdgesUpTo(table, groups, resolved, upTo);
            && (edges.Ok? <==> forall i | 0 <= i < upTo :: ParseBoundManifest(table, resolved[i].manifestBytes).Some?)
            && (edges.Ok? ==>
                  forall e ::
                    e in edges.value <==> e.binder < upTo && Binds(table, groups, resolved, e.binder, e.bound))
            && (edges.Err? ==> IsFirstUnreadable(table, resolved, edges.error))
  {
    hide ParseBoundManifest, Carries;
    if upTo > 0 { EdgesUpToExact(table, groups, resolved, upTo - 1); }
  }

  /** The derived edges are exactly the bindings the bound manifests show. */
  lemma DerivedEdgesExact(table: seq<Range>, groups: Groups, resolved: seq<BoundStamp>)
    requires |groups| == |resolved|
    ensures var edges := DeriveEdges(table, groups, resolved);
            && (edges.Ok? <==>
                  forall i | 0 <= i < |groups| :: ParseBoundManifest(table, resolved[i].manifestBytes).Some?)
            && (edges.Ok? ==> AllValid(|groups|, edges.value)
                              && forall a, b :: Edge(a, b) in edges.value <==> Binds(table, groups, resolved, a, b))
            && (edges.Err? ==> IsFirstUnreadable(table, resolved, edges.error))
  {
    hide ParseBoundManifest, Carries;
    EdgesUpToExact(table, groups, resolved, |groups|);
    hide EdgesUpTo, Binds;
    var edges := DeriveEdges(table, groups, resolved);
    if edges.Ok? {
      forall e | e in edges.value ensures IsValidEdge(|groups|, e) { BindsIsValid(table, groups, resolved, e); }
    }
  }

  lemma BindsIsValid(table: seq<Range>, groups: Groups, resolved: seq<BoundStamp>, edge: Edge)
    requires |groups| == |resolved| && Binds(table, groups, resolved, edge.binder, edge.bound)
    ensures IsValidEdge(|groups|, edge)
  {
  }

  // ----- the order check -----

  function FirstDivergence(actual: Groups, expected: Groups): (position: Option<nat>)
    ensures position.None? && |actual| == |expected| ==>
              forall i | 0 <= i < |actual| :: actual[i].manifestHashes == expected[i].manifestHashes
    ensures actual == expected ==> position.None?
  {
    if actual == [] || expected == [] then None
    else if actual[0].manifestHashes != expected[0].manifestHashes then Some(0)
    else
      match FirstDivergence(actual[1..], expected[1..])
      case Some(later) => Some(later + 1)
      case None =>
        assert |actual| == |expected| ==>
               forall i | 0 < i < |actual| :: actual[i] == actual[1..][i - 1] && expected[i] == expected[1..][i - 1];
        None
  }

  function VerifyBindingOrder(groups: Groups, edges: seq<Edge>): Option<BindingError> {
    match Order(groups, edges)
    case Err(cause) => Some(Unorderable(cause))
    case Ok(canonical) =>
      match FirstDivergence(groups, canonical)
      case None => None
      case Some(position) => Some(NonCanonicalOrder(position))
  }

  lemma OrderIsListing(groups: Groups, edges: seq<Edge>) returns (order: seq<nat>)
    requires AllValid(|groups|, edges) && Order(groups, edges).Ok?
    ensures IsOrdering(|groups|, edges, order) && Order(groups, edges) == Ok(Pick(groups, order))
  {
    order := Greedy(groups, edges, []).value;
    NothingEmitted(|groups|, edges);
    GreedyIsOrdering(groups, edges, []);
  }

  lemma SameHashesSameGroups(groups: Groups, order: seq<nat>)
    requires DistinctSha256(groups) && |order| == |groups|
    requires forall i | 0 <= i < |order| :: order[i] < |groups|
    requires forall i | 0 <= i < |order| :: groups[i].manifestHashes == groups[order[i]].manifestHashes
    ensures Pick(groups, order) == groups
  {
    forall i | 0 <= i < |order| ensures order[i] == i {
      assert Key(groups[order[i]]) == Key(groups[i]);
    }
  }

  /** The check accepts exactly the fixpoints of the canonical ordering. */
  lemma OrderCheckExact(groups: Groups, edges: seq<Edge>)
    requires DistinctSha256(groups) && AllValid(|groups|, edges)
    ensures VerifyBindingOrder(groups, edges).None? <==> Order(groups, edges) == Ok(groups)
  {
    if VerifyBindingOrder(groups, edges).None? {
      hide FirstDivergence, Order, DistinctSha256, AllValid, Respects;
      var order := OrderIsListing(groups, edges);
      var canonical := Pick(groups, order);
      assert forall i | 0 <= i < |order| :: canonical[i] == groups[order[i]];
      SameHashesSameGroups(groups, order);
    }
  }

  /** `reordered[i]` is the stamp resolved for `ordered[i]`. */
  ghost predicate SamePairs(groups: Groups, resolved: seq<BoundStamp>, ordered: Groups, reordered: seq<BoundStamp>)
    requires |groups| == |resolved|
  {
    |ordered| == |reordered|
    && forall i | 0 <= i < |ordered| :: exists j | 0 <= j < |groups| ::
         groups[j] == ordered[i] && resolved[j].manifestBytes == reordered[i].manifestBytes
  }

  lemma PairedAt(groups: Groups, resolved: seq<BoundStamp>, order: seq<nat>, reordered: seq<BoundStamp>, i: nat)
    requires |groups| == |resolved| == |order| && DistinctSha256(groups)
    requires forall k | 0 <= k < |order| :: order[k] < |groups|
    requires SamePairs(groups, resolved, Pick(groups, order), reordered)
    ensures |reordered| == |order|
    ensures i < |order| ==> resolved[order[i]].manifestBytes == reordered[i].manifestBytes
  {
    var ordered := Pick(groups, order);
    if i < |order| {
      var j :| 0 <= j < |groups| && groups[j] == ordered[i] && resolved[j].manifestBytes == reordered[i].manifestBytes;
      assert Key(groups[j]) == Key(groups[order[i]]);
    }
  }

  /** Reordering groups and stamps together re-indexes the derived edges. */
  lemma EdgesMove(table: seq<Range>, groups: Groups, resolved: seq<BoundStamp>, order: seq<nat>,
          reordered: seq<BoundStamp>)
    requires |groups| == |resolved| == |order| && DistinctSha256(groups) && Distinct(order)
    requires forall k | 0 <= k < |order| :: order[k] < |groups|
    requires SamePairs(groups, resolved, Pick(groups, order), reordered)
    requires DeriveEdges(table, groups, resolved).Ok?
    ensures DeriveEdges(table, Pick(groups, order), reordered).Ok?
    ensures Relisted(groups, DeriveEdges(table, groups, resolved).value,
                     Pick(groups, order), DeriveEdges(table, Pick(groups, order), reordered).value, order)
  {
    hide DeriveEdges, ParseBoundManifest, Carries, SamePairs, DistinctSha256;
    var ordered := Pick(groups, order);
    PairedAt(groups, resolved, order, reordered, 0);
    forall i: nat | i < |order| ensures resolved[order[i]].manifestBytes == reordered[i].manifestBytes {
      PairedAt(groups, resolved, order, reordered, i);
    }
    DerivedEdgesExact(table, groups, resolved);
    DerivedEdgesExact(table, ordered, reordered);
    var edges, movedEdges := DeriveEdges(table, groups, resolved).value, DeriveEdges(table, ordered, reordered).value;
    forall a, b | 0 <= a < |order| && 0 <= b < |order|
      ensures Edge(a, b) in movedEdges <==> Edge(order[a], order[b]) in edges
    {
      assert Edge(a, b) in movedEdges <==> Binds(table, ordered, reordered, a, b);
      assert Edge(order[a], order[b]) in edges <==> Binds(table, groups, resolved, order[a], order[b]);
    }
  }

  lemma PickKeepsKeysDistinct(groups: Groups, order: seq<nat>)
    requires DistinctSha256(groups) && Distinct(order)
    requires forall k | 0 <= k < |order| :: order[k] < |groups|
    ensures DistinctSha256(Pick(groups, order))
  {
  }

  /** Generation agrees with verification: groups put into canonical order
      pass the order check with edges derived anew from the reordered groups
      and their stamps. */
  lemma GenerationAgrees(table: seq<Range>, groups: Groups, resolved: seq<BoundStamp>, reordered: seq<BoundStamp>)
    requires |groups| == |resolved| && DistinctSha256(groups)
    requires DeriveEdges(table, groups, resolved).Ok?
    requires Order(groups, DeriveEdges(table, groups, resolved).value).Ok?
    requires SamePairs(groups, resolved, Order(groups, DeriveEdges(table, groups, resolved).value).value, reordered)
    ensures var ordered := Order(groups, DeriveEdges(table, groups, resolved).value).value;
            var edges := DeriveEdges(table, ordered, reordered);
            edges.Ok? && VerifyBindingOrder(ordered, edges.value).None?
  {
    var edges := DeriveEdges(table, groups, resolved).value;
    hide DeriveEdges, Order, SamePairs, DistinctSha256, AllValid, Respects, Relisted;
    DerivedEdgesExact(table, groups, resolved);
    var order := OrderIsListing(groups, edges);
    var ordered := Pick(groups, order);
    EdgesMove(table, groups, resolved, order, reordered);
    var movedEdges := DeriveEdges(table, ordered, reordered).value;
    ListingMakesNoDifference(groups, edges, ordered, movedEdges, order);
    PickKeepsKeysDistinct(groups, order);
    PairedAt(groups, resolved, order, reordered, 0);
    DerivedEdgesExact(table, ordered, reordered);
    OrderCheckExact(ordered, movedEdges);
  }
}
