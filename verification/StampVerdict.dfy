/** The stamp verdict (stamping specification, section 7): the four checks
    over one stamp commit's materials, fail-closed. */
module StampVerdict {
  import opened Bytes
  import opened Utf8
  import opened PathCodec
  import opened ManifestModel
  import opened Claims
  import opened Binding
  import ManifestReader
  import TreeAgreement

  type TokenSummary = string
  type TokenFault = string

  /** Check 3, the full verification of one token over the manifest bytes. */
  type TokenVerifier = (Bytes, Bytes) -> Result<TokenSummary, TokenFault>

  datatype AcceptedToken = AcceptedToken(site: Bytes, summary: TokenSummary)

  datatype RejectedToken = RejectedToken(site: Bytes, cause: TokenFault)

  datatype StampInputs = StampInputs(
    manifestBytes: Bytes,
    treeEntries: seq<Entry>,
    tokens: seq<TokenFile>,
    boundStamps: seq<BoundStamp>)

  datatype StampSummary = StampSummary(manifestHashes: PayloadHashes, accepted: seq<AcceptedToken>,
      rejected: seq<RejectedToken>)

  datatype StampError =
    | UnreadableManifest
    | BadManifest(fault: ManifestReader.ParseError)
    | TreeDisagrees(difference: TreeAgreement.TreeError)
    | Unlinked(linkage: BindingError)
    | NoTokens
    | AllTokensRejected(rejected: seq<RejectedToken>)

  // ----- the verdict as a function -----

  function Accepted(verify: TokenVerifier, manifestBytes: Bytes, tokens: seq<TokenFile>): seq<AcceptedToken> {
    if tokens == [] then []
    else
      var rest := Accepted(verify, manifestBytes, tokens[1..]);
      match verify(tokens[0].bytes, manifestBytes)
      case Ok(summary) => [AcceptedToken(tokens[0].site, summary)] + rest
      case Err(_) => rest
  }

  function Rejected(verify: TokenVerifier, manifestBytes: Bytes, tokens: seq<TokenFile>): seq<RejectedToken> {
    if tokens == [] then []
    else
      var rest := Rejected(verify, manifestBytes, tokens[1..]);
      match verify(tokens[0].bytes, manifestBytes)
      case Ok(_) => rest
      case Err(cause) => [RejectedToken(tokens[0].site, cause)] + rest
  }

  function JudgeTokens(hash: Hasher, verify: TokenVerifier, manifestBytes: Bytes,
          tokens: seq<TokenFile>): Result<StampSummary, StampError>
  {
    if tokens == [] then Err(NoTokens)
    else
      var accepted, rejected := Accepted(verify, manifestBytes, tokens), Rejected(verify, manifestBytes, tokens);
      if accepted == [] then Err(AllTokensRejected(rejected))
      else Ok(StampSummary(hash(manifestBytes), accepted, rejected))
  }

  function Verdict(table: Table, hash: Hasher, verify: TokenVerifier, inputs: StampInputs): Result<StampSummary,
          StampError>
  {
    if !Valid(inputs.manifestBytes) then Err(UnreadableManifest)
    else
      match ManifestReader.Parse(table, inputs.manifestBytes)
      case Err(cause) => Err(BadManifest(cause))
      case Ok(manifest) =>
        match TreeAgreement.Compare(manifest.entries, inputs.treeEntries)
        case Err(cause) => Err(TreeDisagrees(cause))
        case Ok(_) =>
          match CheckLinkage(hash, manifest.bindingGroups, inputs.boundStamps)
          case Some(cause) => Err(Unlinked(cause))
          case None => JudgeTokens(hash, verify, inputs.manifestBytes, inputs.tokens)
  }

  // ----- the run of the source -----

  method Run(table: Table, hash: Hasher, verify: TokenVerifier, inputs: StampInputs)
    returns (verdict: Result<StampSummary, StampError>)
    ensures verdict == Verdict(table, hash, verify, inputs)
  {
    hide ManifestReader.Parse, TreeAgreement.Compare, CheckLinkage;
    if !Valid(inputs.manifestBytes) { return Err(UnreadableManifest); }
    var parsed := ManifestReader.Run(table, inputs.manifestBytes);
    if parsed.Err? { return Err(BadManifest(parsed.error)); }
    var manifest := parsed.value;
    var agreement := TreeAgreement.Run(manifest.entries, inputs.treeEntries);
    if agreement.Err? { return Err(TreeDisagrees(agreement.error)); }
    var unlinked := VerifyBindingLinkage(hash, manifest.bindingGroups, inputs.boundStamps);
    if unlinked.Some? { return Err(Unlinked(unlinked.value)); }
    if inputs.tokens == [] { return Err(NoTokens); }
    var accepted: seq<AcceptedToken>, rejected: seq<RejectedToken> := [], [];
    for i := 0 to |inputs.tokens|
      invariant Accepted(verify, inputs.manifestBytes, inputs.tokens) ==
                accepted + Accepted(verify, inputs.manifestBytes, inputs.tokens[i..])
      invariant Rejected(verify, inputs.manifestBytes, inputs.tokens) ==
                rejected + Rejected(verify, inputs.manifestBytes, inputs.tokens[i..])
    {
      var siteToken := inputs.tokens[i];
      assert inputs.tokens[i..][1..] == inputs.tokens[i + 1..];
      match verify(siteToken.bytes, inputs.manifestBytes) {
        case Ok(summary) =>
          AppendShift(accepted, AcceptedToken(siteToken.site, summary),
              Accepted(verify, inputs.manifestBytes, inputs.tokens[i + 1..]));
          accepted := accepted + [AcceptedToken(siteToken.site, summary)];
        case Err(cause) =>
          AppendShift(rejected, RejectedToken(siteToken.site, cause),
              Rejected(verify, inputs.manifestBytes, inputs.tokens[i + 1..]));
          rejected := rejected + [RejectedToken(siteToken.site, cause)];
      }
    }
    assert accepted + [] == accepted && rejected + [] == rejected;
    if accepted == [] { return Err(AllTokensRejected(rejected)); }
    return Ok(StampSummary(hash(inputs.manifestBytes), accepted, rejected));
  }

  // ----- what the verdict means -----

  lemma {:induction false} OutcomesExact(verify: TokenVerifier, manifestBytes: Bytes, tokens: seq<TokenFile>)
    ensures forall a :: a in Accepted(verify, manifestBytes, tokens) <==>
              exists t | t in tokens :: t.site == a.site && verify(t.bytes, manifestBytes) == Ok(a.summary)
    ensures forall r :: r in Rejected(verify, manifestBytes, tokens) <==>
              exists t | t in tokens :: t.site == r.site && verify(t.bytes, manifestBytes) == Err(r.cause)
    ensures |Accepted(verify, manifestBytes, tokens)| + |Rejected(verify, manifestBytes, tokens)| == |tokens|
  {
    if tokens != [] {
      OutcomesExact(verify, manifestBytes, tokens[1..]);
      assert tokens == [tokens[0]] + tokens[1..];
    }
  }

  lemma SomeAccepted(hash: Hasher, verify: TokenVerifier, manifestBytes: Bytes, tokens: seq<TokenFile>)
    ensures JudgeTokens(hash, verify, manifestBytes, tokens).Ok? <==>
            exists t | t in tokens :: verify(t.bytes, manifestBytes).Ok?
  {
    OutcomesExact(verify, manifestBytes, tokens);
    var accepted := Accepted(verify, manifestBytes, tokens);
    if accepted != [] { assert accepted[0] in accepted; }
    if t :| t in tokens && verify(t.bytes, manifestBytes).Ok? {
      assert AcceptedToken(t.site, verify(t.bytes, manifestBytes).value) in accepted;
    }
  }

  /** The four checks, as a reader of the specification would state them. */
  ghost predicate Stands(table: Table, hash: Hasher, verify: TokenVerifier, inputs: StampInputs) {
    exists manifest ::
      && Valid(inputs.manifestBytes) && ManifestReader.Parse(table, inputs.manifestBytes) == Ok(manifest)
      && DistinctPaths(manifest.entries) && DistinctPaths(inputs.treeEntries)
      && multiset(manifest.entries) == multiset(inputs.treeEntries)
      && |manifest.bindingGroups| == |inputs.boundStamps|
      && (forall i | 0 <= i < |manifest.bindingGroups| ::
            IsLinked(hash, manifest.bindingGroups[i], inputs.boundStamps[i]))
      && exists t | t in inputs.tokens :: verify(t.bytes, inputs.manifestBytes).Ok?
  }

  /** The verdict is favourable if and only if every check holds. */
  lemma VerdictExact(table: Table, hash: Hasher, verify: TokenVerifier, inputs: StampInputs)
    ensures Verdict(table, hash, verify, inputs).Ok? <==> Stands(table, hash, verify, inputs)
  {
    hide Utf8.Valid, ManifestReader.Parse, TreeAgreement.Compare, CheckLinkage, JudgeTokens, DistinctPaths, IsLinked;
    if Valid(inputs.manifestBytes) && ManifestReader.Parse(table, inputs.manifestBytes).Ok? {
      var manifest := ManifestReader.Parse(table, inputs.manifestBytes).value;
      TreeAgreement.AgreementExact(manifest.entries, inputs.treeEntries);
      LinkageExact(hash, manifest.bindingGroups, inputs.boundStamps);
      SomeAccepted(hash, verify, inputs.manifestBytes, inputs.tokens);
    }
  }

  /** A passed verdict reports the verified digests, and every token exactly
      as it fared. */
  lemma SummaryIsHonest(table: Table, hash: Hasher, verify: TokenVerifier, inputs: StampInputs)
    requires Verdict(table, hash, verify, inputs).Ok?
    ensures var summary := Verdict(table, hash, verify, inputs).value;
            && summary.manifestHashes == hash(inputs.manifestBytes) && summary.accepted != []
            && TellsAll(verify, inputs.manifestBytes, inputs.tokens, summary.accepted, summary.rejected)
            && |summary.accepted| + |summary.rejected| == |inputs.tokens|
            && (forall a :: a in summary.accepted <==>
                  exists t | t in inputs.tokens ::
                    t.site == a.site && verify(t.bytes, inputs.manifestBytes) == Ok(a.summary))
            && (forall r :: r in summary.rejected <==>
                  exists t | t in inputs.tokens ::
                    t.site == r.site && verify(t.bytes, inputs.manifestBytes) == Err(r.cause))
  {
    hide Utf8.Valid, ManifestReader.Parse, TreeAgreement.Compare, CheckLinkage, Accepted, Rejected;
    OutcomesExact(verify, inputs.manifestBytes, inputs.tokens);
    OutcomesInOrder(verify, inputs.manifestBytes, inputs.tokens);
  }

  /** Accepted and rejected tokens tell in order how each token fared. */
  ghost predicate TellsAll(verify: TokenVerifier, manifestBytes: Bytes, tokens: seq<TokenFile>,
          accepted: seq<AcceptedToken>, rejected: seq<RejectedToken>)
  {
    if tokens == [] then accepted == [] && rejected == []
    else
      || (accepted != [] && accepted[0].site == tokens[0].site
          && verify(tokens[0].bytes, manifestBytes) == Ok(accepted[0].summary)
          && TellsAll(verify, manifestBytes, tokens[1..], accepted[1..], rejected))
      || (rejected != [] && rejected[0].site == tokens[0].site
          && verify(tokens[0].bytes, manifestBytes) == Err(rejected[0].cause)
          && TellsAll(verify, manifestBytes, tokens[1..], accepted, rejected[1..]))
  }

  lemma {:induction false} OutcomesInOrder(verify: TokenVerifier, manifestBytes: Bytes, tokens: seq<TokenFile>)
    ensures TellsAll(verify, manifestBytes, tokens, Accepted(verify, manifestBytes, tokens),
                     Rejected(verify, manifestBytes, tokens))
  {
    if tokens != [] { OutcomesInOrder(verify, manifestBytes, tokens[1..]); }
  }
}
