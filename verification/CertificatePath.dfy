/** Certificate chain validation to a trust anchor at the token's genTime, by a
    bounded walk that commits to the first issuer found. */
module CertificatePath {
  import opened Bytes
  import opened Sorting
  import opened X509
  import opened Revocation

  const MAX_CHAIN_LENGTH: nat := 8

  const EVALUATED_EXTENSIONS: seq<Oid> := [BasicConstraintsOid, ExtendedKeyUsageOid, KeyUsageOid]

  datatype PathError =
    | OutsideValidity(subject: Bytes)
    | UnsupportedVersion(subject: Bytes)
    | UnknownCriticalExtension(subject: Bytes, oid: Oid)
    | MalformedExtension(subject: Bytes, source: ExtensionFault)
    | UnencodableCertificate(subject: Bytes)
    | NoTrustedIssuer(subject: Bytes)
    | ChainTooLong
    | IssuerNotAuthority(issuer: Bytes)
    | IssuerCannotSignCertificates(issuer: Bytes)
    | PathLengthExceeded(issuer: Bytes)
    | Revoked(cause: RevocationError)

  datatype TrustPool = TrustPool(anchors: seq<Certificate>, companions: seq<Certificate>, crls: seq<Crl>)

  // ----- the tests of one step -----

  function FirstUnjudgeable(extensions: seq<Extension>): (found: Option<Oid>)
    ensures found.None? <==> forall x | x in extensions :: x.critical ==> x.oid in EVALUATED_EXTENSIONS
  {
    if extensions == [] then None
    else if extensions[0].critical && extensions[0].oid !in EVALUATED_EXTENSIONS then Some(extensions[0].oid)
    else FirstUnjudgeable(extensions[1..])
  }

  function Screened(certificate: Certificate): Result<(), PathError> {
    if !certificate.isV3 then Err(UnsupportedVersion(certificate.subject))
    else
      match FirstUnjudgeable(certificate.extensions)
      case Some(oid) => Err(UnknownCriticalExtension(certificate.subject, oid))
      case None => Ok(())
  }

  /** `candidate` names itself as the subject's issuer and signed it. */
  predicate IsSigningIssuer(check: SignatureCheck, certificate: Certificate, message: Bytes, candidate: Certificate) {
    && certificate.signature.Some?
    && candidate.subject == certificate.issuer
    && check(message, certificate.signature.value, candidate)
  }

  function IssuerFitness(issuer: Certificate, intermediatesBelow: nat): Result<(), PathError> {
    match Decoded(issuer.extensions, BasicConstraintsOid)
    case Err(fault) => Err(MalformedExtension(issuer.subject, fault))
    case Ok(constraints) =>
      if constraints.None? || !constraints.value.ca then Err(IssuerNotAuthority(issuer.subject))
      else if constraints.value.pathLength.Some? && intermediatesBelow > constraints.value.pathLength.value then
        Err(PathLengthExceeded(issuer.subject))
      else
        match Decoded(issuer.extensions, KeyUsageOid)
        case Err(fault) => Err(MalformedExtension(issuer.subject, fault))
        case Ok(usage) =>
          if usage.None? || usage.value.certSign then Ok(()) else Err(IssuerCannotSignCertificates(issuer.subject))
  }

  /** The first certificate of the pool, anchors before companions, that is
      valid at genTime and signed this one. */
  function FirstIssuer(check: SignatureCheck, candidates: seq<Certificate>, genTime: Time, current: Certificate,
          message: Bytes): (issuer: Option<Certificate>)
    ensures issuer.Some? ==>
              && issuer.value in candidates && issuer.value != current
              && CoversMoment(issuer.value, genTime) && IsSigningIssuer(check, current, message, issuer.value)
  {
    if candidates == [] then None
    else
      var candidate := candidates[0];
      if candidate != current && CoversMoment(candidate, genTime)
          && IsSigningIssuer(check, current, message, candidate) then
        Some(candidate)
      else FirstIssuer(check, candidates[1..], genTime, current, message)
  }

  // ----- the walk -----

  /** One pass: trust reached, or the next certificate, or a refusal. */
  datatype Step = Trusted(anchor: Certificate) | Onward(issuer: Certificate) | Refused(error: PathError)

  function Pass(check: SignatureCheck, pool: TrustPool, genTime: Time, current: Certificate,
          intermediatesBelow: nat): Step
  {
    if !CoversMoment(current, genTime) then Refused(OutsideValidity(current.subject))
    else if current in pool.anchors then Trusted(current)
    else
      match Screened(current)
      case Err(error) => Refused(error)
      case Ok(_) =>
        if current.encoding.None? then Refused(UnencodableCertificate(current.subject))
        else
          match FirstIssuer(check, pool.anchors + pool.companions, genTime, current, current.encoding.value)
          case None => Refused(NoTrustedIssuer(current.subject))
          case Some(issuer) =>
            if issuer !in pool.anchors && IssuerFitness(issuer, intermediatesBelow).Err? then
              Refused(IssuerFitness(issuer, intermediatesBelow).error)
            else
              match Unrevoked(check, Subject(current, issuer, genTime), pool.crls)
              case Err(cause) => Refused(Revoked(cause))
              case Ok(_) => if issuer in pool.anchors then Trusted(issuer) else Onward(issuer)
  }

  function Walk(check: SignatureCheck, pool: TrustPool, genTime: Time, current: Certificate,
          intermediatesBelow: nat): Result<(), PathError>
    decreases MAX_CHAIN_LENGTH - intermediatesBelow
  {
    if intermediatesBelow >= MAX_CHAIN_LENGTH then Err(ChainTooLong)
    else
      match Pass(check, pool, genTime, current, intermediatesBelow)
      case Trusted(_) => Ok(())
      case Refused(error) => Err(error)
      case Onward(issuer) => Walk(check, pool, genTime, issuer, intermediatesBelow + 1)
  }

  method ValidateChain(check: SignatureCheck, signer: Certificate, pool: TrustPool, genTime: Time)
    returns (verdict: Result<(), PathError>)
    ensures verdict == Walk(check, pool, genTime, signer, 0)
  {
    hide Screened, IssuerFitness, FirstIssuer, Unrevoked;
    var current := signer;
    for intermediatesBelow := 0 to MAX_CHAIN_LENGTH
      invariant Walk(check, pool, genTime, signer, 0) == Walk(check, pool, genTime, current, intermediatesBelow)
    {
      if !CoversMoment(current, genTime) { return Err(OutsideValidity(current.subject)); }
      if current in pool.anchors { return Ok(()); }
      var screened := Screened(current);
      if screened.Err? { return screened; }
      if current.encoding.None? { return Err(UnencodableCertificate(current.subject)); }
      var issuer := FirstIssuer(check, pool.anchors + pool.companions, genTime, current, current.encoding.value);
      if issuer.None? { return Err(NoTrustedIssuer(current.subject)); }
      var issuerIsAnchor := issuer.value in pool.anchors;
      if !issuerIsAnchor {
        var fit := IssuerFitness(issuer.value, intermediatesBelow);
        if fit.Err? { return fit; }
      }
      var status := EnsureUnrevoked(check, Subject(current, issuer.value, genTime), pool.crls);
      if status.Err? { return Err(Revoked(status.error)); }
      if issuerIsAnchor { return Ok(()); }
      current := issuer.value;
    }
    return Err(ChainTooLong);
  }

  // ----- soundness -----

  /** A version 3 certificate with nothing critical left unjudged. */
  predicate IsScreened(certificate: Certificate) {
    && certificate.isV3
    && forall x | x in certificate.extensions && x.critical ::
         x.oid in {BasicConstraintsOid, ExtendedKeyUsageOid, KeyUsageOid}
  }

  lemma ScreenedExact(certificate: Certificate)
    ensures Screened(certificate).Ok? <==> IsScreened(certificate)
  {
  }

  /** `issuer` vouches for `certificate` at genTime. */
  ghost predicate Vouches(check: SignatureCheck, pool: TrustPool, genTime: Time, certificate: Certificate,
          issuer: Certificate)
  {
    && IsScreened(certificate) && certificate.encoding.Some?
    && issuer in pool.anchors + pool.companions && issuer != certificate
    && IsSigningIssuer(check, certificate, certificate.encoding.value, issuer)
    && Unrevoked(check, Subject(certificate, issuer, genTime), pool.crls).Ok?
  }

  predicate AdmitsBelow(issuer: Certificate, intermediatesBelow: nat) {
    var constraints := Decoded(issuer.extensions, BasicConstraintsOid);
    && constraints.Ok? && constraints.value.Some? && constraints.value.value.ca
    && (constraints.value.value.pathLength.Some? ==> intermediatesBelow <= constraints.value.value.pathLength.value)
  }

  /** An absent key usage restricts nothing. */
  predicate MaySignCertificates(issuer: Certificate) {
    var usage := Decoded(issuer.extensions, KeyUsageOid);
    usage.Ok? && (usage.value.Some? ==> usage.value.value.certSign)
  }

  /** A certificate authority that may stand above this many intermediates. */
  predicate IsAuthority(issuer: Certificate, intermediatesBelow: nat) {
    AdmitsBelow(issuer, intermediatesBelow) && MaySignCertificates(issuer)
  }

  lemma FitnessExact(issuer: Certificate, intermediatesBelow: nat)
    ensures IssuerFitness(issuer, intermediatesBelow).Ok? <==> IsAuthority(issuer, intermediatesBelow)
  {
  }

  /** A stretch of a chain starting `below` intermediates up: it ends in an
      anchor, its first anchor, and every link holds. */
  ghost predicate IsChain(check: SignatureCheck, pool: TrustPool, genTime: Time, chain: seq<Certificate>, below: nat) {
    && chain != []
    && (forall i | 0 <= i < |chain| :: CoversMoment(chain[i], genTime))
    && (forall i | 0 <= i < |chain| :: chain[i] in pool.anchors <==> i == |chain| - 1)
    && (forall i | 0 <= i < |chain| - 1 :: Vouches(check, pool, genTime, chain[i], chain[i + 1]))
    && (forall i | 1 <= i < |chain| - 1 :: IsAuthority(chain[i], below + i - 1))
  }

  /** The chain the walk takes, which it takes without a choice. */
  ghost predicate IsForced(check: SignatureCheck, pool: TrustPool, genTime: Time, chain: seq<Certificate>) {
    forall i | 0 <= i < |chain| - 1 :: FindsIssuer(check, pool, genTime, chain[i], chain[i + 1])
  }

  ghost predicate FindsIssuer(check: SignatureCheck, pool: TrustPool, genTime: Time, certificate: Certificate,
          issuer: Certificate)
  {
    certificate.encoding.Some?
    && FirstIssuer(check, pool.anchors + pool.companions, genTime, certificate, certificate.encoding.value)
       == Some(issuer)
  }

  lemma PassSound(check: SignatureCheck, pool: TrustPool, genTime: Time, current: Certificate, below: nat)
    ensures var step := Pass(check, pool, genTime, current, below);
            && (!step.Refused? ==> CoversMoment(current, genTime))
            && (step.Trusted? && current in pool.anchors ==> step.anchor == current)
            && (step.Trusted? && current !in pool.anchors ==>
                  step.anchor in pool.anchors && CoversMoment(step.anchor, genTime)
                  && Vouches(check, pool, genTime, current, step.anchor))
            && (step.Onward? ==>
                  && current !in pool.anchors && step.issuer !in pool.anchors
                  && Vouches(check, pool, genTime, current, step.issuer) && IsAuthority(step.issuer, below))
            && (!step.Refused? && current !in pool.anchors ==>
                  FindsIssuer(check, pool, genTime, current, if step.Trusted? then step.anchor else step.issuer))
  {
    hide Screened, IsScreened, IssuerFitness, Unrevoked, IsAuthority, IsSigningIssuer;
    ScreenedExact(current);
    if current.encoding.Some? {
      var issuer := FirstIssuer(check, pool.anchors + pool.companions, genTime, current, current.encoding.value);
      if issuer.Some? { FitnessExact(issuer.value, below); }
    }
  }

  /** A successful walk has walked a chain of at most eight certificates below
      an anchor. */
  lemma {:induction false} WalkSound(check: SignatureCheck, pool: TrustPool, genTime: Time, current: Certificate,
          below: nat)
    returns (chain: seq<Certificate>)
    requires Walk(check, pool, genTime, current, below).Ok?
    ensures IsChain(check, pool, genTime, chain, below) && IsForced(check, pool, genTime, chain)
    ensures chain[0] == current && below + |chain| - 1 <= MAX_CHAIN_LENGTH
    decreases MAX_CHAIN_LENGTH - below
  {
    hide Pass, Vouches, IsAuthority, FindsIssuer, CoversMoment;
    PassSound(check, pool, genTime, current, below);
    match Pass(check, pool, genTime, current, below) {
      case Trusted(anchor) => chain := if current in pool.anchors then [current] else [current, anchor];
      case Onward(issuer) =>
        var rest := WalkSound(check, pool, genTime, issuer, below + 1);
        chain := [current] + rest;
        ChainExtends(check, pool, genTime, current, rest, below);
      case Refused(_) =>
    }
  }

  lemma ChainExtends(check: SignatureCheck, pool: TrustPool, genTime: Time, current: Certificate,
          rest: seq<Certificate>, below: nat)
    requires IsChain(check, pool, genTime, rest, below + 1) && rest[0] !in pool.anchors
    requires CoversMoment(current, genTime) && current !in pool.anchors
    requires Vouches(check, pool, genTime, current, rest[0]) && IsAuthority(rest[0], below)
    ensures IsChain(check, pool, genTime, [current] + rest, below)
  {
    hide Vouches, IsAuthority, CoversMoment;
    var chain := [current] + rest;
    assert forall i | 1 <= i < |chain| :: chain[i] == rest[i - 1];
    forall i | 0 <= i < |chain| - 1 ensures Vouches(check, pool, genTime, chain[i], chain[i + 1]) {
      if i > 0 { assert chain[i] == rest[i - 1] && chain[i + 1] == rest[i]; }
    }
    forall i | 1 <= i < |chain| - 1 ensures IsAuthority(chain[i], below + i - 1) {
      if i > 1 { assert IsAuthority(rest[i - 1], below + 1 + (i - 1) - 1); }
    }
  }

  lemma {:induction false} Recurs(check: SignatureCheck, pool: TrustPool, genTime: Time, chain: seq<Certificate>,
          i: nat, j: nat, k: nat)
    requires IsForced(check, pool, genTime, chain) && i < j && j + k < |chain| && chain[i] == chain[j]
    ensures chain[i + k] == chain[j + k]
    decreases k
  {
    hide FirstIssuer;
    if k > 0 {
      Recurs(check, pool, genTime, chain, i, j, k - 1);
      var a, b := i + k - 1, j + k - 1;
      assert FindsIssuer(check, pool, genTime, chain[a], chain[a + 1]);
      assert FindsIssuer(check, pool, genTime, chain[b], chain[b + 1]);
    }
  }

  /** The walk never meets a certificate twice: it would go round for ever
      and reach no anchor. */
  lemma NoCertificateTwice(check: SignatureCheck, pool: TrustPool, genTime: Time, chain: seq<Certificate>)
    requires IsChain(check, pool, genTime, chain, 0) && IsForced(check, pool, genTime, chain)
    ensures Distinct(chain)
  {
    hide IsForced, Vouches, IsAuthority, CoversMoment;
    var last := |chain| - 1;
    forall i, j | 0 <= i < j < |chain| ensures chain[i] != chain[j] {
      if chain[i] == chain[j] {
        Recurs(check, pool, genTime, chain, i, j, last - j);
      }
    }
  }

  /** Acceptance means a chain of trust: from the signer to an anchor, at most
      eight certificates below it, no certificate twice, every certificate
      valid at genTime, every non-anchor screened, signed by the next and
      unrevoked, and every intermediate an authority whose path length admits
      exactly the intermediates below it. */
  lemma AcceptedChainIsSound(check: SignatureCheck, signer: Certificate, pool: TrustPool, genTime: Time)
    returns (chain: seq<Certificate>)
    requires Walk(check, pool, genTime, signer, 0).Ok?
    ensures IsChain(check, pool, genTime, chain, 0) && chain[0] == signer
    ensures |chain| - 1 <= MAX_CHAIN_LENGTH && Distinct(chain)
  {
    hide IsChain, IsForced, Walk;
    chain := WalkSound(check, pool, genTime, signer, 0);
    NoCertificateTwice(check, pool, genTime, chain);
  }

  // ----- which issuer is taken -----

  /** The candidate is another certificate, valid at genTime, that bears the
      issuer's name and whose key made the signature. */
  predicate Qualifies(check: SignatureCheck, genTime: Time, certificate: Certificate, candidate: Certificate) {
    && candidate != certificate
    && candidate.notBefore <= genTime <= candidate.notAfter
    && candidate.subject == certificate.issuer
    && certificate.signature.Some? && certificate.encoding.Some?
    && check(certificate.encoding.value, certificate.signature.value, candidate)
  }

  /** `issuer` stands before every other candidate that qualifies. */
  ghost predicate IsEarliest(check: SignatureCheck, candidates: seq<Certificate>, genTime: Time,
          certificate: Certificate, issuer: Certificate)
  {
    exists i | 0 <= i < |candidates| ::
      && candidates[i] == issuer && Qualifies(check, genTime, certificate, issuer)
      && forall k | 0 <= k < i :: !Qualifies(check, genTime, certificate, candidates[k])
  }

  /** An issuer is found exactly when some candidate qualifies, and it is the
      earliest one that does. */
  lemma {:induction false} FirstIssuerExact(check: SignatureCheck, candidates: seq<Certificate>, genTime: Time,
          certificate: Certificate, issuer: Certificate)
    requires certificate.encoding.Some?
    ensures var found := FirstIssuer(check, candidates, genTime, certificate, certificate.encoding.value);
            && (found.None? <==> forall c | c in candidates :: !Qualifies(check, genTime, certificate, c))
            && (found == Some(issuer) <==> IsEarliest(check, candidates, genTime, certificate, issuer))
  {
    if candidates != [] {
      var rest := candidates[1..];
      FirstIssuerExact(check, rest, genTime, certificate, issuer);
      assert candidates == [candidates[0]] + rest;
      if !Qualifies(check, genTime, certificate, candidates[0]) {
        EarliestOfRest(check, candidates, genTime, certificate, issuer);
      } else {
        assert IsEarliest(check, candidates, genTime, certificate, candidates[0]);
      }
    }
  }

  lemma EarliestOfRest(check: SignatureCheck, candidates: seq<Certificate>, genTime: Time,
          certificate: Certificate, issuer: Certificate)
    requires candidates != [] && !Qualifies(check, genTime, certificate, candidates[0])
    ensures IsEarliest(check, candidates, genTime, certificate, issuer) <==>
            IsEarliest(check, candidates[1..], genTime, certificate, issuer)
  {
    hide Qualifies;
    var rest := candidates[1..];
    if IsEarliest(check, rest, genTime, certificate, issuer) {
      var i :| 0 <= i < |rest| && rest[i] == issuer
               && forall k | 0 <= k < i :: !Qualifies(check, genTime, certificate, rest[k]);
      assert candidates[i + 1] == issuer;
      assert forall k | 0 < k < i + 1 :: candidates[k] == rest[k - 1];
    }
    if IsEarliest(check, candidates, genTime, certificate, issuer) {
      var i :| 0 <= i < |candidates| && candidates[i] == issuer && Qualifies(check, genTime, certificate, issuer)
               && forall k | 0 <= k < i :: !Qualifies(check, genTime, certificate, candidates[k]);
      assert rest[i - 1] == issuer;
      assert forall k | 0 <= k < i - 1 :: rest[k] == candidates[k + 1];
    }
  }

  /** Each next certificate is the earliest qualifying one, anchors before
      companions. */
  ghost predicate TakesTheEarliest(check: SignatureCheck, pool: TrustPool, genTime: Time, chain: seq<Certificate>) {
    forall i | 0 <= i < |chain| - 1 ::
      IsEarliest(check, pool.anchors + pool.companions, genTime, chain[i], chain[i + 1])
  }

  lemma ForcedExact(check: SignatureCheck, pool: TrustPool, genTime: Time, chain: seq<Certificate>)
    ensures IsForced(check, pool, genTime, chain) <==> TakesTheEarliest(check, pool, genTime, chain)
  {
    hide FindsIssuer, IsEarliest;
    forall i | 0 <= i < |chain| - 1
      ensures FindsIssuer(check, pool, genTime, chain[i], chain[i + 1])
              == IsEarliest(check, pool.anchors + pool.companions, genTime, chain[i], chain[i + 1])
    {
      FoundIsEarliest(check, pool, genTime, chain[i], chain[i + 1]);
    }
  }

  lemma FoundIsEarliest(check: SignatureCheck, pool: TrustPool, genTime: Time, certificate: Certificate,
          issuer: Certificate)
    ensures FindsIssuer(check, pool, genTime, certificate, issuer)
            == IsEarliest(check, pool.anchors + pool.companions, genTime, certificate, issuer)
  {
    if certificate.encoding.Some? {
      FirstIssuerExact(check, pool.anchors + pool.companions, genTime, certificate, issuer);
    }
  }

  // ----- acceptance, exactly -----

  lemma PassComplete(check: SignatureCheck, pool: TrustPool, genTime: Time, current: Certificate, next: Certificate,
          below: nat)
    requires CoversMoment(current, genTime) && current !in pool.anchors
    requires Vouches(check, pool, genTime, current, next)
    requires FindsIssuer(check, pool, genTime, current, next)
    requires next in pool.anchors || IsAuthority(next, below)
    ensures Pass(check, pool, genTime, current, below) == if next in pool.anchors then Trusted(next) else Onward(next)
  {
    hide Screened, IsScreened, IssuerFitness, Unrevoked, IsAuthority, FirstIssuer, CoversMoment;
    ScreenedExact(current);
    FitnessExact(next, below);
  }

  lemma {:induction false} WalkComplete(check: SignatureCheck, pool: TrustPool, genTime: Time,
          chain: seq<Certificate>, below: nat)
    requires IsChain(check, pool, genTime, chain, below) && IsForced(check, pool, genTime, chain)
    requires below + |chain| - 1 <= MAX_CHAIN_LENGTH && below < MAX_CHAIN_LENGTH
    ensures Walk(check, pool, genTime, chain[0], below).Ok?
    decreases |chain|
  {
    hide Pass, Vouches, IsAuthority, FindsIssuer, CoversMoment;
    if |chain| == 1 {
      AnchorIsTrusted(check, pool, genTime, chain[0], below);
    } else {
      assert Vouches(check, pool, genTime, chain[0], chain[1]);
      if |chain| > 2 { assert IsAuthority(chain[1], below + 1 - 1); }
      PassComplete(check, pool, genTime, chain[0], chain[1], below);
      if |chain| > 2 {
        ChainShrinks(check, pool, genTime, chain, below);
        WalkComplete(check, pool, genTime, chain[1..], below + 1);
      }
    }
  }

  lemma AnchorIsTrusted(check: SignatureCheck, pool: TrustPool, genTime: Time, anchor: Certificate, below: nat)
    requires anchor in pool.anchors && CoversMoment(anchor, genTime)
    ensures Pass(check, pool, genTime, anchor, below) == Trusted(anchor)
  {
  }

  lemma ChainShrinks(check: SignatureCheck, pool: TrustPool, genTime: Time, chain: seq<Certificate>, below: nat)
    requires IsChain(check, pool, genTime, chain, below) && IsForced(check, pool, genTime, chain) && |chain| > 2
    ensures IsChain(check, pool, genTime, chain[1..], below + 1) && IsForced(check, pool, genTime, chain[1..])
  {
    hide Vouches, IsAuthority, CoversMoment, FindsIssuer;
    var rest := chain[1..];
    assert forall i | 0 <= i < |rest| :: rest[i] == chain[i + 1];
    forall i | 0 <= i < |rest| - 1
      ensures Vouches(check, pool, genTime, rest[i], rest[i + 1])
              && FindsIssuer(check, pool, genTime, rest[i], rest[i + 1])
    {
      assert Vouches(check, pool, genTime, chain[i + 1], chain[i + 2]);
      assert FindsIssuer(check, pool, genTime, chain[i + 1], chain[i + 2]);
    }
    forall i | 1 <= i < |rest| - 1 ensures IsAuthority(rest[i], below + 1 + i - 1) {
      assert IsAuthority(chain[i + 1], below + (i + 1) - 1);
    }
  }

  /** A chain of trust from the signer, as the walk has to take it. */
  ghost predicate IsTrustPath(check: SignatureCheck, pool: TrustPool, genTime: Time, signer: Certificate,
          chain: seq<Certificate>)
  {
    && IsChain(check, pool, genTime, chain, 0) && chain[0] == signer
    && |chain| <= 9
    && TakesTheEarliest(check, pool, genTime, chain)
  }

  /** The signer is accepted if and only if taking the earliest qualifying
      issuer, anchors before companions, leads through at most eight
      certificates to an anchor, every link holding. */
  lemma AcceptedExact(check: SignatureCheck, signer: Certificate, pool: TrustPool, genTime: Time)
    ensures Walk(check, pool, genTime, signer, 0).Ok? <==>
            exists chain :: IsTrustPath(check, pool, genTime, signer, chain)
  {
    hide IsChain, IsForced, TakesTheEarliest, Walk;
    if Walk(check, pool, genTime, signer, 0).Ok? {
      var chain := WalkSound(check, pool, genTime, signer, 0);
      ForcedExact(check, pool, genTime, chain);
      assert IsTrustPath(check, pool, genTime, signer, chain);
    }
    if chain :| IsTrustPath(check, pool, genTime, signer, chain) {
      ForcedExact(check, pool, genTime, chain);
      ChainIsNotEmpty(check, pool, genTime, chain);
      WalkComplete(check, pool, genTime, chain, 0);
    }
  }

  lemma ChainIsNotEmpty(check: SignatureCheck, pool: TrustPool, genTime: Time, chain: seq<Certificate>)
    requires IsChain(check, pool, genTime, chain, 0)
    ensures chain != []
  {
  }

  // ----- refusal -----

  /** What is wrong at `certificate`, reached over `below` intermediates. */
  ghost predicate IsFault(check: SignatureCheck, pool: TrustPool, genTime: Time, certificate: Certificate, below: nat,
          error: PathError)
  {
    var candidates := pool.anchors + pool.companions;
    match error
    case OutsideValidity(subject) =>
      subject == certificate.subject && !(certificate.notBefore <= genTime <= certificate.notAfter)
    case UnsupportedVersion(subject) => subject == certificate.subject && !certificate.isV3
    case UnknownCriticalExtension(subject, oid) =>
      subject == certificate.subject && oid !in {BasicConstraintsOid, ExtendedKeyUsageOid, KeyUsageOid}
      && exists x | x in certificate.extensions :: x.critical && x.oid == oid
    case UnencodableCertificate(subject) => subject == certificate.subject && certificate.encoding.None?
    case NoTrustedIssuer(subject) =>
      subject == certificate.subject && forall c | c in candidates :: !Qualifies(check, genTime, certificate, c)
    case Revoked(cause) =>
      exists issuer :: IsEarliest(check, candidates, genTime, certificate, issuer)
                       && Unrevoked(check, Subject(certificate, issuer, genTime), pool.crls) == Err(cause)
    case ChainTooLong => false
    case _ =>
      exists issuer :: IsEarliest(check, candidates, genTime, certificate, issuer) && issuer !in pool.anchors
                       && IsUnfit(issuer, below, error)
  }

  /** Why an issuer may not stand above `below` intermediates. */
  ghost predicate IsUnfit(issuer: Certificate, below: nat, error: PathError) {
    var constraints := Decoded(issuer.extensions, BasicConstraintsOid);
    match error
    case MalformedExtension(name, fault) =>
      name == issuer.subject
      && (constraints == Err(fault) || Decoded(issuer.extensions, KeyUsageOid) == Err(fault))
    case IssuerNotAuthority(name) =>
      name == issuer.subject && constraints.Ok? && (constraints.value.None? || !constraints.value.value.ca)
    case PathLengthExceeded(name) =>
      name == issuer.subject && constraints.Ok? && constraints.value.Some?
      && constraints.value.value.pathLength.Some? && below > constraints.value.value.pathLength.value
    case IssuerCannotSignCertificates(name) =>
      name == issuer.subject
      && Decoded(issuer.extensions, KeyUsageOid).Ok?
      && Decoded(issuer.extensions, KeyUsageOid).value.Some?
      && !Decoded(issuer.extensions, KeyUsageOid).value.value.certSign
    case _ => false
  }

  lemma FirstUnjudgeableIs(extensions: seq<Extension>)
    ensures FirstUnjudgeable(extensions).Some? ==>
              && FirstUnjudgeable(extensions).value !in {BasicConstraintsOid, ExtendedKeyUsageOid, KeyUsageOid}
              && exists x | x in extensions :: x.critical && x.oid == FirstUnjudgeable(extensions).value
  {
    if extensions != [] && FirstUnjudgeable([extensions[0]]).None? {
      FirstUnjudgeableIs(extensions[1..]);
      assert extensions == [extensions[0]] + extensions[1..];
    }
  }

  lemma UnfitFor(issuer: Certificate, below: nat)
    ensures IssuerFitness(issuer, below).Err? ==> IsUnfit(issuer, below, IssuerFitness(issuer, below).error)
  {
  }

  lemma RefusalHasItsFault(check: SignatureCheck, pool: TrustPool, genTime: Time, current: Certificate, below: nat)
    requires Pass(check, pool, genTime, current, below).Refused?
    ensures current !in pool.anchors || !CoversMoment(current, genTime)
    ensures IsFault(check, pool, genTime, current, below, Pass(check, pool, genTime, current, below).error)
  {
    hide IssuerFitness, Unrevoked, FirstIssuer, IsEarliest, Qualifies, IsUnfit;
    FirstUnjudgeableIs(current.extensions);
    if current.encoding.Some? {
      var candidates := pool.anchors + pool.companions;
      var issuer := FirstIssuer(check, candidates, genTime, current, current.encoding.value);
      FirstIssuerExact(check, candidates, genTime, current, if issuer.Some? then issuer.value else current);
      if issuer.Some? {
        UnfitFor(issuer.value, below);
        assert IsEarliest(check, candidates, genTime, current, issuer.value);
      }
    }
  }

  /** The certificates a refused walk came through: each link holds, none is
      an anchor, and the last one is at fault, unless there are too many. */
  lemma {:induction false} RefusedAtFault(check: SignatureCheck, pool: TrustPool, genTime: Time, current: Certificate,
          below: nat)
    returns (met: seq<Certificate>)
    requires Walk(check, pool, genTime, current, below).Err? && below < MAX_CHAIN_LENGTH
    ensures met != [] && met[0] == current
    ensures TakesTheEarliest(check, pool, genTime, met)
    ensures forall i | 0 <= i < |met| - 1 :: Vouches(check, pool, genTime, met[i], met[i + 1])
    ensures var error := Walk(check, pool, genTime, current, below).error;
            if error.ChainTooLong? then below + |met| == 9 && met[|met| - 1] !in pool.anchors
            else below + |met| <= 8 && IsFault(check, pool, genTime, met[|met| - 1], below + |met| - 1, error)
    decreases MAX_CHAIN_LENGTH - below
  {
    hide Pass, Vouches, IsFault, CoversMoment, FindsIssuer, IsEarliest;
    PassSound(check, pool, genTime, current, below);
    var step := Pass(check, pool, genTime, current, below);
    match step {
      case Refused(_) =>
        RefusalHasItsFault(check, pool, genTime, current, below);
        RefusalIsNotLength(check, pool, genTime, current, below);
        met := [current];
      case Onward(issuer) =>
        FoundIsEarliest(check, pool, genTime, current, issuer);
        var rest := [issuer];
        if below + 1 < MAX_CHAIN_LENGTH { rest := RefusedAtFault(check, pool, genTime, issuer, below + 1); }
        met := [current] + rest;
        assert forall i | 0 < i < |met| :: met[i] == rest[i - 1];
      case Trusted(_) =>
    }
  }

  lemma RefusalIsNotLength(check: SignatureCheck, pool: TrustPool, genTime: Time, current: Certificate, below: nat)
    requires Pass(check, pool, genTime, current, below).Refused?
    ensures !Pass(check, pool, genTime, current, below).error.ChainTooLong?
  {
    hide Unrevoked, FirstIssuer, CoversMoment;
  }
}
