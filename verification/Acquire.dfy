/** Acquiring one verified token per selected site: every selection is
    resolved before the first token is drawn, and `ContinueOnError` decides
    whether a failing site stops the walk or is only reported. */
module Acquire {
  import opened Bytes
  import opened Config
  import ConfigBlocks

  type Cause = string

  datatype AcquiredToken = AcquiredToken(siteName: Bytes, content: Bytes)

  datatype SiteFailure = SiteFailure(siteName: Bytes, cause: Cause)

  datatype Acquisition = Acquisition(tokens: seq<AcquiredToken>, warnings: seq<SiteFailure>)

  datatype AcquireError =
    | UnknownProfile(profileName: Bytes)
    | UnknownSite(siteName: Bytes)
    | DuplicateSelection(siteName: Bytes)
    | SiteFailed(failure: SiteFailure)
    | NoValidTokens(failures: seq<SiteFailure>)

  /** The outside world: drawing a token, fetching CRLs for its chain, and
      the full token verification (check 3). */
  datatype Outside = Outside(
    acquire: (Bytes, Site, Bytes) -> Result<Bytes, Cause>,
    supplement: (Bytes, Bytes) -> Result<seq<Bytes>, Cause>,
    verify: (Bytes, Bytes, seq<Bytes>) -> Result<(), Cause>)

  /** The stamping policy in force, and what its tokens must cover. */
  datatype Inputs = Inputs(config: Configuration, profileName: Bytes, manifest: Bytes, crls: seq<Bytes>)

  datatype Selected = Selected(use: UseSite, site: Site)

  /** A token is sealable only after passing the verifier with the CRLs
      fetched for its own chain. */
  function SealableToken(outside: Outside, inputs: Inputs, selected: Selected): Result<Bytes, Cause> {
    match outside.acquire(selected.use.siteName, selected.site, inputs.manifest)
    case Err(cause) => Err(cause)
    case Ok(content) =>
      match outside.supplement(selected.use.siteName, content)
      case Err(cause) => Err(cause)
      case Ok(fetched) =>
        match outside.verify(content, inputs.manifest, inputs.crls + fetched)
        case Err(cause) => Err(cause)
        case Ok(_) => Ok(content)
  }

  // ----- specification -----

  /** Every selection with its site, or the first one that has none or
      repeats an earlier one. */
  function Resolve(sites: map<Bytes, Site>, selections: seq<UseSite>): Result<seq<Selected>, AcquireError> {
    if selections == [] then Ok([])
    else
      var last := selections[|selections| - 1];
      var prior := selections[..|selections| - 1];
      match Resolve(sites, prior)
      case Err(error) => Err(error)
      case Ok(resolved) =>
        if last.siteName !in sites then Err(AcquireError.UnknownSite(last.siteName))
        else if ConfigBlocks.DistinctSelections(selections) then Ok(resolved + [Selected(last, sites[last.siteName])])
        else Err(DuplicateSelection(last.siteName))
  }

  function Sealed(outside: Outside, inputs: Inputs, selected: seq<Selected>): seq<AcquiredToken> {
    if selected == [] then []
    else
      var rest := Sealed(outside, inputs, selected[1..]);
      match SealableToken(outside, inputs, selected[0])
      case Ok(content) => [AcquiredToken(selected[0].use.siteName, content)] + rest
      case Err(_) => rest
  }

  function Failures(outside: Outside, inputs: Inputs, selected: seq<Selected>): seq<SiteFailure> {
    if selected == [] then []
    else
      var rest := Failures(outside, inputs, selected[1..]);
      match SealableToken(outside, inputs, selected[0])
      case Ok(_) => rest
      case Err(cause) => [SiteFailure(selected[0].use.siteName, cause)] + rest
  }

  /** The first failing site that may not be passed over. */
  function FirstFatal(outside: Outside, inputs: Inputs, selected: seq<Selected>): (fatal: Option<SiteFailure>)
    ensures fatal.None? <==> forall s | s in selected :: SealableToken(outside, inputs, s).Ok? || s.use.continuesOnError
  {
    if selected == [] then None
    else
      match SealableToken(outside, inputs, selected[0])
      case Err(cause) =>
        if selected[0].use.continuesOnError then FirstFatal(outside, inputs, selected[1..])
        else Some(SiteFailure(selected[0].use.siteName, cause))
      case Ok(_) => FirstFatal(outside, inputs, selected[1..])
  }

  function Walked(outside: Outside, inputs: Inputs, selected: seq<Selected>): Result<Acquisition, AcquireError> {
    match FirstFatal(outside, inputs, selected)
    case Some(failure) => Err(SiteFailed(failure))
    case None =>
      var tokens, failures := Sealed(outside, inputs, selected), Failures(outside, inputs, selected);
      if tokens == [] then Err(NoValidTokens(failures)) else Ok(Acquisition(tokens, failures))
  }

  function Acquired(outside: Outside, inputs: Inputs): Result<Acquisition, AcquireError> {
    if inputs.profileName !in inputs.config.profiles then Err(UnknownProfile(inputs.profileName))
    else
      match Resolve(inputs.config.sites, inputs.config.profiles[inputs.profileName].selections)
      case Err(error) => Err(error)
      case Ok(selected) => Walked(outside, inputs, selected)
  }

  // ----- the run of the source -----

  method Run(outside: Outside, inputs: Inputs) returns (result: Result<Acquisition, AcquireError>)
    ensures result == Acquired(outside, inputs)
  {
    if inputs.profileName !in inputs.config.profiles { return Err(UnknownProfile(inputs.profileName)); }
    var selections := ResolveSelections(inputs.config.sites, inputs.config.profiles[inputs.profileName].selections);
    match selections {
      case Err(error) => result := Err(error);
      case Ok(selected) => result := Walk(outside, inputs, selected);
    }
  }

  method ResolveSelections(sites: map<Bytes, Site>, written: seq<UseSite>)
    returns (result: Result<seq<Selected>, AcquireError>)
    ensures result == Resolve(sites, written)
  {
    var selections: seq<Selected> := [];
    hide Resolve;
    assert Resolve(sites, []) == Ok([]) by { ResolveNone(sites); }
    for i := 0 to |written|
      invariant Resolve(sites, written[..i]) == Ok(selections)
      invariant |selections| == i
      invariant forall k | 0 <= k < i :: selections[k].use == written[k]
    {
      ResolveStep(sites, written, i);
      if written[i].siteName !in sites { return Err(AcquireError.UnknownSite(written[i].siteName)); }
      if exists k | 0 <= k < i :: selections[k].use.siteName == written[i].siteName {
        return Err(DuplicateSelection(written[i].siteName));
      }
      selections := selections + [Selected(written[i], sites[written[i].siteName])];
    }
    assert written[..|written|] == written;
    return Ok(selections);
  }

  lemma ResolveNone(sites: map<Bytes, Site>)
    ensures Resolve(sites, []) == Ok([])
  {
  }

  /** One more selection, given that all before it resolved. */
  lemma ResolveStep(sites: map<Bytes, Site>, written: seq<UseSite>, i: nat)
    requires i < |written| && Resolve(sites, written[..i]).Ok?
    ensures var repeats := exists k | 0 <= k < i :: written[k].siteName == written[i].siteName;
            if written[i].siteName !in sites
            then Resolve(sites, written) == Err(AcquireError.UnknownSite(written[i].siteName))
            else if repeats then Resolve(sites, written) == Err(DuplicateSelection(written[i].siteName))
            else Resolve(sites, written[..i + 1]) ==
                 Ok(Resolve(sites, written[..i]).value + [Selected(written[i], sites[written[i].siteName])])
  {
    hide ConfigBlocks.DistinctSelections;
    var longer := written[..i + 1];
    assert longer[..i] == written[..i] && longer[i] == written[i];
    ResolveExact(sites, written[..i]);
    OneMore(written, i);
    if Resolve(sites, longer).Err? { ResolveStops(sites, written, i + 1); }
  }

  lemma OneMore(written: seq<UseSite>, i: nat)
    requires i < |written|
    ensures ConfigBlocks.DistinctSelections(written[..i + 1]) <==>
              ConfigBlocks.DistinctSelections(written[..i])
              && forall k | 0 <= k < i :: written[k].siteName != written[i].siteName
  {
    var longer, shorter := written[..i + 1], written[..i];
    assert forall k | 0 <= k < i :: longer[k] == shorter[k] == written[k];
    assert longer[i] == written[i];
  }

  method Walk(outside: Outside, inputs: Inputs, selections: seq<Selected>)
    returns (result: Result<Acquisition, AcquireError>)
    ensures result == Walked(outside, inputs, selections)
  {
    hide SealableToken;
    var tokens: seq<AcquiredToken>, warnings: seq<SiteFailure> := [], [];
    for i := 0 to |selections|
      invariant FirstFatal(outside, inputs, selections) == FirstFatal(outside, inputs, selections[i..])
      invariant Sealed(outside, inputs, selections) == tokens + Sealed(outside, inputs, selections[i..])
      invariant Failures(outside, inputs, selections) == warnings + Failures(outside, inputs, selections[i..])
    {
      assert selections[i..][1..] == selections[i + 1..];
      match SealableToken(outside, inputs, selections[i]) {
        case Ok(content) =>
          var token := AcquiredToken(selections[i].use.siteName, content);
          AppendShift(tokens, token, Sealed(outside, inputs, selections[i + 1..]));
          tokens := tokens + [token];
        case Err(cause) =>
          var failure := SiteFailure(selections[i].use.siteName, cause);
          if !selections[i].use.continuesOnError { return Err(SiteFailed(failure)); }
          AppendShift(warnings, failure, Failures(outside, inputs, selections[i + 1..]));
          warnings := warnings + [failure];
      }
    }
    assert tokens + [] == tokens && warnings + [] == warnings;
    if tokens == [] { return Err(NoValidTokens(warnings)); }
    return Ok(Acquisition(tokens, warnings));
  }

  /** A resolution that stops early stops the whole. */
  lemma {:induction false} ResolveStops(sites: map<Bytes, Site>, selections: seq<UseSite>, n: nat)
    requires n <= |selections| && Resolve(sites, selections[..n]).Err?
    ensures Resolve(sites, selections) == Resolve(sites, selections[..n])
    decreases |selections|
  {
    if n == |selections| {
      assert selections[..n] == selections;
    } else {
      var prior := selections[..|selections| - 1];
      assert prior[..n] == selections[..n];
      ResolveStops(sites, prior, n);
    }
  }

  // ----- what a run means -----

  lemma {:induction false} ResolveExact(sites: map<Bytes, Site>, selections: seq<UseSite>)
    ensures Resolve(sites, selections).Ok? <==>
              ConfigBlocks.DistinctSelections(selections) && forall s | s in selections :: s.siteName in sites
    ensures match Resolve(sites, selections)
            case Ok(resolved) =>
              && |resolved| == |selections|
              && forall i | 0 <= i < |selections| ::
                   && selections[i].siteName in sites
                   && resolved[i] == Selected(selections[i], sites[selections[i].siteName])
            case Err(error) =>
              || (error.UnknownSite? && error.siteName !in sites)
              || (error.DuplicateSelection? && !ConfigBlocks.DistinctSelections(selections))
  {
    if selections != [] {
      var n := |selections| - 1;
      ResolveExact(sites, selections[..n]);
      assert selections == selections[..n] + [selections[n]];
      forall i | 0 <= i < n ensures selections[i].siteName == selections[..n][i].siteName {}
      if Resolve(sites, selections[..n]).Err? && Resolve(sites, selections).error.DuplicateSelection? {
        assert !ConfigBlocks.DistinctSelections(selections[..n]);
      }
      if Resolve(sites, selections[..n]).Err? && !(forall s | s in selections[..n] :: s.siteName in sites) {
        var s :| s in selections[..n] && s.siteName !in sites;
        assert s in selections;
      }
    }
  }

  /** `tokens` and `warnings` are an in-order split of the selections:
      each selection is the next of exactly one of the two. */
  predicate Splits(selected: seq<Selected>, tokens: seq<AcquiredToken>, warnings: seq<SiteFailure>) {
    if selected == [] then tokens == [] && warnings == []
    else
      || (tokens != [] && tokens[0].siteName == selected[0].use.siteName
          && Splits(selected[1..], tokens[1..], warnings))
      || (warnings != [] && warnings[0].siteName == selected[0].use.siteName && selected[0].use.continuesOnError
          && Splits(selected[1..], tokens, warnings[1..]))
  }

  /** The token came from a selected site and passed full verification under
      the base CRLs extended by those fetched for it. */
  ghost predicate IsVerified(outside: Outside, inputs: Inputs, selected: seq<Selected>, token: AcquiredToken) {
    exists s, fetched | s in selected ::
      && s.use.siteName == token.siteName
      && outside.acquire(s.use.siteName, s.site, inputs.manifest) == Ok(token.content)
      && outside.supplement(s.use.siteName, token.content) == Ok(fetched)
      && outside.verify(token.content, inputs.manifest, inputs.crls + fetched).Ok?
  }

  ghost predicate AllVerified(outside: Outside, inputs: Inputs, selected: seq<Selected>, tokens: seq<AcquiredToken>) {
    forall token | token in tokens :: IsVerified(outside, inputs, selected, token)
  }

  lemma {:induction false} WalkSplits(outside: Outside, inputs: Inputs, selected: seq<Selected>)
    requires FirstFatal(outside, inputs, selected).None?
    ensures Splits(selected, Sealed(outside, inputs, selected), Failures(outside, inputs, selected))
  {
    hide SealableToken;
    if selected != [] {
      WalkSplits(outside, inputs, selected[1..]);
    }
  }

  lemma {:induction false} SealedAreVerified(outside: Outside, inputs: Inputs, all: seq<Selected>, from: nat)
    requires from <= |all|
    ensures AllVerified(outside, inputs, all, Sealed(outside, inputs, all[from..]))
    decreases |all| - from
  {
    if from < |all| {
      SealedAreVerified(outside, inputs, all, from + 1);
      assert all[from..][1..] == all[from + 1..];
      var s := all[from];
      if SealableToken(outside, inputs, s).Ok? {
        var content := SealableToken(outside, inputs, s).value;
        var fetched := outside.supplement(s.use.siteName, content).value;
        assert s in all && outside.supplement(s.use.siteName, content) == Ok(fetched);
        assert IsVerified(outside, inputs, all, AcquiredToken(s.use.siteName, content));
      }
    }
  }

  /** A successful acquisition holds at least one token, splits the resolved
      selections in their written order, warns only about sites that continue
      on error, and holds verified tokens only. */
  lemma SuccessIsSound(outside: Outside, inputs: Inputs)
    requires Acquired(outside, inputs).Ok?
    ensures inputs.profileName in inputs.config.profiles
    ensures var selected := Resolve(inputs.config.sites, inputs.config.profiles[inputs.profileName].selections);
            var done := Acquired(outside, inputs).value;
            && selected.Ok?
            && done.tokens != []
            && Splits(selected.value, done.tokens, done.warnings)
            && AllVerified(outside, inputs, selected.value, done.tokens)
  {
    hide Resolve, SealableToken, Splits, AllVerified;
    var selected := Resolve(inputs.config.sites, inputs.config.profiles[inputs.profileName].selections).value;
    WalkSplits(outside, inputs, selected);
    SealedAreVerified(outside, inputs, selected, 0);
    assert selected[0..] == selected;
  }

  /** Acquisition for a usable profile succeeds exactly when no selection is
      fatal and some selection yields a sealable token. */
  lemma SuccessExact(outside: Outside, inputs: Inputs)
    requires inputs.profileName in inputs.config.profiles
    requires ConfigBlocks.IsUsable(inputs.config.profiles[inputs.profileName], inputs.config.sites)
    ensures var selections := inputs.config.profiles[inputs.profileName].selections;
            Acquired(outside, inputs).Ok? <==>
              && (forall s | s in selections ::
                    s.continuesOnError
                    || SealableToken(outside, inputs, Selected(s, inputs.config.sites[s.siteName])).Ok?)
              && (exists s | s in selections ::
                    SealableToken(outside, inputs, Selected(s, inputs.config.sites[s.siteName])).Ok?)
    ensures Acquired(outside, inputs).Err? ==>
            Acquired(outside, inputs).error.SiteFailed? || Acquired(outside, inputs).error.NoValidTokens?
  {
    hide Resolve, SealableToken;
    var selections := inputs.config.profiles[inputs.profileName].selections;
    ResolveExact(inputs.config.sites, selections);
    var selected := Resolve(inputs.config.sites, selections).value;
    SealedExact(outside, inputs, selected);
    forall s | s in selections
      ensures Selected(s, inputs.config.sites[s.siteName]) in selected
    {
      var i :| 0 <= i < |selections| && selections[i] == s;
      assert selected[i] == Selected(s, inputs.config.sites[s.siteName]);
    }
    forall r | r in selected
      ensures r.use in selections && r == Selected(r.use, inputs.config.sites[r.use.siteName])
    {
      var i :| 0 <= i < |selected| && selected[i] == r;
      assert selections[i] in selections;
    }
  }

  lemma {:induction false} SealedExact(outside: Outside, inputs: Inputs, selected: seq<Selected>)
    ensures Sealed(outside, inputs, selected) != [] <==>
            exists s | s in selected :: SealableToken(outside, inputs, s).Ok?
  {
    hide SealableToken;
    if selected != [] {
      SealedExact(outside, inputs, selected[1..]);
      assert selected[0] in selected;
      if Sealed(outside, inputs, selected[1..]) != [] {
        var s :| s in selected[1..] && SealableToken(outside, inputs, s).Ok?;
        assert s in selected;
      }
    }
  }

  /** A profile of a parsed configuration never fails to resolve. */
  lemma ParsedProfilesResolve(outside: Outside, inputs: Inputs, lines: seq<Line>)
    requires ParseLines(lines) == Ok(inputs.config) && inputs.profileName in inputs.config.profiles
    ensures match Acquired(outside, inputs)
            case Ok(_) => true
            case Err(error) => error.SiteFailed? || error.NoValidTokens?
  {
    hide ParseLines, Acquired, ConfigBlocks.IsUsable;
    ConfigBlocks.ParsedIsUsable(lines);
    SuccessExact(outside, inputs);
  }
}
