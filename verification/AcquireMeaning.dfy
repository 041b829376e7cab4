/** What an acquisition answers, told by what the sites, the CRL fetches and
    the verifier did. */
module AcquireMeaning {
  import opened Bytes
  import opened Config
  import opened Acquire
  import ConfigBlocks

  /** The site yielded this token, its CRLs were fetched, and the verifier took
      the token over the manifest with the base CRLs and the fetched ones. */
  ghost predicate Yields(outside: Outside, inputs: Inputs, s: Selected, content: Bytes) {
    outside.acquire(s.use.siteName, s.site, inputs.manifest) == Ok(content)
    && exists fetched ::
         && outside.supplement(s.use.siteName, content) == Ok(fetched)
         && outside.verify(content, inputs.manifest, inputs.crls + fetched).Ok?
  }

  /** The first of the three steps that failed gave this cause. */
  ghost predicate Fails(outside: Outside, inputs: Inputs, s: Selected, cause: Cause) {
    || outside.acquire(s.use.siteName, s.site, inputs.manifest) == Err(cause)
    || exists content :: outside.acquire(s.use.siteName, s.site, inputs.manifest) == Ok(content)
         && (|| outside.supplement(s.use.siteName, content) == Err(cause)
             || exists fetched :: outside.supplement(s.use.siteName, content) == Ok(fetched)
                  && outside.verify(content, inputs.manifest, inputs.crls + fetched) == Err(cause))
  }

  lemma SealableExact(outside: Outside, inputs: Inputs, s: Selected, content: Bytes, cause: Cause)
    ensures SealableToken(outside, inputs, s) == Ok(content) <==> Yields(outside, inputs, s, content)
    ensures SealableToken(outside, inputs, s) == Err(cause) <==> Fails(outside, inputs, s, cause)
  {
    var drawn := outside.acquire(s.use.siteName, s.site, inputs.manifest);
    if drawn.Ok? {
      var fetched := outside.supplement(s.use.siteName, drawn.value);
      if fetched.Ok? { var verdict := outside.verify(drawn.value, inputs.manifest, inputs.crls + fetched.value); }
    }
  }

  /** Tokens and warnings tell in order how each selection fared: its token, or
      its failure where the walk may continue. */
  ghost predicate TellsAll(outside: Outside, inputs: Inputs, selected: seq<Selected>, tokens: seq<AcquiredToken>,
          warnings: seq<SiteFailure>)
  {
    if selected == [] then tokens == [] && warnings == []
    else
      var s, rest := selected[0], selected[1..];
      || (tokens != [] && tokens[0].siteName == s.use.siteName && Yields(outside, inputs, s, tokens[0].content)
          && TellsAll(outside, inputs, rest, tokens[1..], warnings))
      || (warnings != [] && warnings[0].siteName == s.use.siteName && Fails(outside, inputs, s, warnings[0].cause)
          && TellsAll(outside, inputs, rest, tokens, warnings[1..]))
  }

  lemma {:induction false} WalkTellsAll(outside: Outside, inputs: Inputs, selected: seq<Selected>)
    ensures TellsAll(outside, inputs, selected, Sealed(outside, inputs, selected), Failures(outside, inputs, selected))
  {
    hide SealableToken, Yields, Fails;
    if selected != [] {
      var outcome := SealableToken(outside, inputs, selected[0]);
      WalkTellsAll(outside, inputs, selected[1..]);
      SealableExact(outside, inputs, selected[0], if outcome.Ok? then outcome.value else [],
                    if outcome.Err? then outcome.error else "");
    }
  }

  /** The selection at `i` is the first whose site fails without leave to
      continue. */
  ghost predicate IsFatalAt(outside: Outside, inputs: Inputs, selected: seq<Selected>, i: nat, failure: SiteFailure) {
    && i < |selected|
    && selected[i].use.siteName == failure.siteName && !selected[i].use.continuesOnError
    && Fails(outside, inputs, selected[i], failure.cause)
    && forall k | 0 <= k < i :: IsPassable(outside, inputs, selected[k])
  }

  ghost predicate IsPassable(outside: Outside, inputs: Inputs, s: Selected) {
    s.use.continuesOnError || exists content :: Yields(outside, inputs, s, content)
  }

  lemma PassableExact(outside: Outside, inputs: Inputs, s: Selected)
    ensures SealableToken(outside, inputs, s).Ok? || s.use.continuesOnError <==> IsPassable(outside, inputs, s)
  {
    hide SealableToken, Yields, Fails;
    var outcome := SealableToken(outside, inputs, s);
    if outcome.Ok? { SealableExact(outside, inputs, s, outcome.value, ""); }
    if content :| Yields(outside, inputs, s, content) { SealableExact(outside, inputs, s, content, ""); }
  }

  lemma {:induction false} FatalIs(outside: Outside, inputs: Inputs, selected: seq<Selected>) returns (i: nat)
    requires FirstFatal(outside, inputs, selected).Some?
    ensures IsFatalAt(outside, inputs, selected, i, FirstFatal(outside, inputs, selected).value)
  {
    hide SealableToken, Fails, IsPassable;
    var outcome := SealableToken(outside, inputs, selected[0]);
    PassableExact(outside, inputs, selected[0]);
    if outcome.Err? && !selected[0].use.continuesOnError {
      SealableExact(outside, inputs, selected[0], [], outcome.error);
      i := 0;
    } else {
      var later := FatalIs(outside, inputs, selected[1..]);
      i := later + 1;
      assert forall k | 0 < k <= i :: selected[k] == selected[1..][k - 1];
    }
  }

  ghost predicate AllPassable(outside: Outside, inputs: Inputs, selected: seq<Selected>) {
    forall s | s in selected :: IsPassable(outside, inputs, s)
  }

  /** An account of all selections with a token in it; or the first fatal
      failure; or, there being none, an account without a token. */
  ghost predicate IsAnswer(outside: Outside, inputs: Inputs, selected: seq<Selected>,
          answer: Result<Acquisition, AcquireError>)
  {
    if answer.Ok? then
      && answer.value.tokens != [] && AllPassable(outside, inputs, selected)
      && TellsAll(outside, inputs, selected, answer.value.tokens, answer.value.warnings)
    else if answer.error.SiteFailed? then
      exists i :: IsFatalAt(outside, inputs, selected, i, answer.error.failure)
    else
      && answer.error.NoValidTokens? && AllPassable(outside, inputs, selected)
      && TellsAll(outside, inputs, selected, [], answer.error.failures)
  }

  /** What a walk over resolved selections answers. */
  lemma WalkedExact(outside: Outside, inputs: Inputs, selected: seq<Selected>)
    ensures IsAnswer(outside, inputs, selected, Walked(outside, inputs, selected))
  {
    hide SealableToken, TellsAll, IsFatalAt, IsPassable;
    WalkTellsAll(outside, inputs, selected);
    forall s | s in selected
      ensures SealableToken(outside, inputs, s).Ok? || s.use.continuesOnError <==> IsPassable(outside, inputs, s)
    {
      PassableExact(outside, inputs, s);
    }
    if FirstFatal(outside, inputs, selected).Some? { var i := FatalIs(outside, inputs, selected); }
  }

  /** For a profile that can be walked, acquisition answers so; in particular
      it succeeds exactly when every site may be passed and one yields a
      token. */
  lemma AcquiredExact(outside: Outside, inputs: Inputs) returns (selected: seq<Selected>)
    requires inputs.profileName in inputs.config.profiles
    requires ConfigBlocks.IsUsable(inputs.config.profiles[inputs.profileName], inputs.config.sites)
    ensures var written := inputs.config.profiles[inputs.profileName].selections;
            |selected| == |written| && forall i | 0 <= i < |written| ::
              && written[i].siteName in inputs.config.sites
              && selected[i] == Selected(written[i], inputs.config.sites[written[i].siteName])
    ensures IsAnswer(outside, inputs, selected, Acquired(outside, inputs))
    ensures Acquired(outside, inputs).Ok? <==>
              && AllPassable(outside, inputs, selected)
              && exists s, content | s in selected :: Yields(outside, inputs, s, content)
  {
    hide SealableToken, IsPassable, Resolve, Yields, IsAnswer;
    ResolveExact(inputs.config.sites, inputs.config.profiles[inputs.profileName].selections);
    selected := Resolve(inputs.config.sites, inputs.config.profiles[inputs.profileName].selections).value;
    forall s | s in selected
      ensures SealableToken(outside, inputs, s).Ok? || s.use.continuesOnError <==> IsPassable(outside, inputs, s)
      ensures SealableToken(outside, inputs, s).Ok? <==> exists content :: Yields(outside, inputs, s, content)
    {
      PassableExact(outside, inputs, s);
      YieldsSome(outside, inputs, s);
    }
    SealedExact(outside, inputs, selected);
    WalkedExact(outside, inputs, selected);
  }

  lemma YieldsSome(outside: Outside, inputs: Inputs, s: Selected)
    ensures SealableToken(outside, inputs, s).Ok? <==> exists content :: Yields(outside, inputs, s, content)
  {
    hide SealableToken, Yields, Fails;
    var outcome := SealableToken(outside, inputs, s);
    if outcome.Ok? { SealableExact(outside, inputs, s, outcome.value, ""); }
    if content :| Yields(outside, inputs, s, content) { SealableExact(outside, inputs, s, content, ""); }
  }
}
