/** Revocation at genTime, judged against historical CRL snapshots (sections
    4.2.1.3 and 5.3.1 of RFC 5280), fail-closed. */
module Revocation {
  import opened Bytes
  import opened X509

  datatype RevocationError =
    | IssuerCannotSignCrls
    | NoUsableCrl
    | RevokedAtGenTime(date: Time)
    | DisqualifyingRevocation(reason: Option<RevocationReason>)
    | CriticalEntryExtension
    | MalformedEntry(fault: ExtensionFault)
    | MalformedIssuer(fault: ExtensionFault)

  datatype Subject = Subject(certificate: Certificate, issuer: Certificate, genTime: Time)

  /** The reasons that leave the certificate's key uncompromised. */
  const TOLERATED_AFTER_GEN_TIME: seq<RevocationReason> :=
    [AffiliationChanged, Superseded, CessationOfOperation, PrivilegeWithdrawn]

  predicate CarriesCritical(extensions: seq<Extension>) {
    exists x | x in extensions :: x.critical
  }

  /** Admissible evidence: same name, the issuer's signature, consistent, and
      nothing critical this implementation cannot judge. */
  predicate IsAdmissible(check: SignatureCheck, crl: Crl, issuer: Certificate) {
    && crl.issuer == issuer.subject
    && crl.innerAlgorithm == crl.outerAlgorithm
    && !CarriesCritical(crl.extensions)
    && crl.encoding.Some? && crl.signature.Some?
    && check(crl.encoding.value, crl.signature.value, issuer)
  }

  predicate DecidesAtGenTime(crl: Crl, subject: Subject) {
    && crl.nextUpdate.Some?
    && subject.genTime <= crl.nextUpdate.value
    && crl.thisUpdate <= subject.certificate.notAfter
  }

  function JudgeEntry(entry: CrlEntry, genTime: Time): Result<(), RevocationError> {
    if CarriesCritical(entry.extensions) then Err(CriticalEntryExtension)
    else
      match Decoded(entry.extensions, CrlReasonOid)
      case Err(fault) => Err(MalformedEntry(fault))
      case Ok(found) =>
        var reason := match found case None => None case Some(value) => Some(value.reason);
        if entry.date <= genTime then Err(RevokedAtGenTime(entry.date))
        else if reason.Some? && reason.value in TOLERATED_AFTER_GEN_TIME then Ok(())
        else Err(DisqualifyingRevocation(reason))
  }

  function JudgeEntries(serial: nat, genTime: Time, entries: seq<CrlEntry>): Result<(), RevocationError> {
    if entries == [] then Ok(())
    else if entries[0].serial == serial && JudgeEntry(entries[0], genTime).Err? then JudgeEntry(entries[0], genTime)
    else JudgeEntries(serial, genTime, entries[1..])
  }

  function JudgeCrls(check: SignatureCheck, subject: Subject, crls: seq<Crl>, decided: bool):
          Result<(), RevocationError>
  {
    if crls == [] then if decided then Ok(()) else Err(NoUsableCrl)
    else if !IsAdmissible(check, crls[0], subject.issuer) then JudgeCrls(check, subject, crls[1..], decided)
    else
      match JudgeEntries(subject.certificate.serial, subject.genTime, crls[0].entries)
      case Err(fault) => Err(fault)
      case Ok(_) => JudgeCrls(check, subject, crls[1..], decided || DecidesAtGenTime(crls[0], subject))
  }

  /** An absent key usage restricts nothing. */
  function MaySignCrls(issuer: Certificate): Result<(), RevocationError> {
    match Decoded(issuer.extensions, KeyUsageOid)
    case Err(fault) => Err(MalformedIssuer(fault))
    case Ok(usage) => if usage.None? || usage.value.crlSign then Ok(()) else Err(IssuerCannotSignCrls)
  }

  function Unrevoked(check: SignatureCheck, subject: Subject, crls: seq<Crl>): Result<(), RevocationError> {
    match MaySignCrls(subject.issuer)
    case Err(fault) => Err(fault)
    case Ok(_) => JudgeCrls(check, subject, crls, false)
  }

  method EnsureUnrevoked(check: SignatureCheck, subject: Subject, crls: seq<Crl>)
    returns (verdict: Result<(), RevocationError>)
    ensures verdict == Unrevoked(check, subject, crls)
  {
    var usage := DecodeExtension(subject.issuer.extensions, KeyUsageOid);
    if usage.Err? { return Err(MalformedIssuer(usage.error)); }
    var grantsCrlSigning := usage.value.None? || usage.value.value.crlSign;
    if !grantsCrlSigning { return Err(IssuerCannotSignCrls); }
    hide IsAdmissible, DecidesAtGenTime, JudgeEntry;
    var decided := false;
    for i := 0 to |crls|
      invariant Unrevoked(check, subject, crls) == JudgeCrls(check, subject, crls[i..], decided)
    {
      assert crls[i..][1..] == crls[i + 1..];
      var crl := crls[i];
      if !IsAdmissible(check, crl, subject.issuer) { continue; }
      var serial, entries := subject.certificate.serial, crl.entries;
      for k := 0 to |entries|
        invariant JudgeEntries(serial, subject.genTime, entries) == JudgeEntries(serial, subject.genTime, entries[k..])
      {
        assert entries[k..][1..] == entries[k + 1..];
        if entries[k].serial == serial {
          var judged := JudgeEntry(entries[k], subject.genTime);
          if judged.Err? { return judged; }
        }
      }
      decided := decided || DecidesAtGenTime(crl, subject);
    }
    return if decided then Ok(()) else Err(NoUsableCrl);
  }

  // ----- what the verdict means -----

  /** A revocation the token outlives: after genTime, for a recorded reason
      that rules out key compromise, with nothing critical unjudged. */
  predicate IsHarmless(entry: CrlEntry, genTime: Time) {
    && !CarriesCritical(entry.extensions)
    && entry.date > genTime
    && RulesOutCompromise(Decoded(entry.extensions, CrlReasonOid))
  }

  predicate RulesOutCompromise(recorded: Result<Option<ExtensionValue>, ExtensionFault>) {
    recorded.Ok? && recorded.value.Some?
    && recorded.value.value in {Reason(AffiliationChanged), Reason(Superseded), Reason(CessationOfOperation),
       Reason(PrivilegeWithdrawn)}
  }

  lemma HarmlessExact(entry: CrlEntry, genTime: Time)
    ensures JudgeEntry(entry, genTime).Ok? <==> IsHarmless(entry, genTime)
  {
  }

  ghost predicate IsClear(subject: Subject, crl: Crl) {
    forall e | e in crl.entries && e.serial == subject.certificate.serial :: IsHarmless(e, subject.genTime)
  }

  lemma {:induction false} EntriesExact(subject: Subject, crl: Crl, from: nat)
    requires from <= |crl.entries|
    ensures JudgeEntries(subject.certificate.serial, subject.genTime, crl.entries[from..]).Ok? <==>
            forall e | e in crl.entries[from..] && e.serial == subject.certificate.serial ::
              IsHarmless(e, subject.genTime)
    decreases |crl.entries| - from
  {
    hide JudgeEntry, IsHarmless;
    var rest := crl.entries[from..];
    if rest != [] {
      HarmlessExact(rest[0], subject.genTime);
      assert rest[1..] == crl.entries[from + 1..];
      assert rest == [rest[0]] + rest[1..];
      EntriesExact(subject, crl, from + 1);
    }
  }

  lemma CrlExact(subject: Subject, crl: Crl)
    ensures JudgeEntries(subject.certificate.serial, subject.genTime, crl.entries).Ok? <==> IsClear(subject, crl)
  {
    hide IsHarmless;
    assert crl.entries[0..] == crl.entries;
    EntriesExact(subject, crl, 0);
  }

  lemma {:induction false} CrlsExact(check: SignatureCheck, subject: Subject, crls: seq<Crl>, decided: bool)
    ensures JudgeCrls(check, subject, crls, decided).Ok? <==>
              && (forall crl | crl in crls && IsAdmissible(check, crl, subject.issuer) :: IsClear(subject, crl))
              && (decided || exists crl | crl in crls ::
                  IsAdmissible(check, crl, subject.issuer) && DecidesAtGenTime(crl, subject))
  {
    hide IsAdmissible, DecidesAtGenTime, IsClear, JudgeEntries;
    if crls != [] {
      var first, rest := crls[0], crls[1..];
      assert crls == [first] + rest;
      CrlExact(subject, first);
      CrlsExact(check, subject, rest, decided);
      CrlsExact(check, subject, rest, decided || DecidesAtGenTime(first, subject));
    }
  }

  /** The status is good if and only if the issuer may sign CRLs, some
      admissible CRL decides genTime, and no admissible CRL, deciding or not,
      lists the serial adversely. */
  lemma UnrevokedExact(check: SignatureCheck, subject: Subject, crls: seq<Crl>)
    ensures Unrevoked(check, subject, crls).Ok? <==>
              && MaySignCrls(subject.issuer).Ok?
              && (exists crl | crl in crls ::
                    IsAdmissible(check, crl, subject.issuer) && DecidesAtGenTime(crl, subject))
              && (forall crl | crl in crls && IsAdmissible(check, crl, subject.issuer) :: IsClear(subject, crl))
  {
    hide IsAdmissible, DecidesAtGenTime, IsClear, MaySignCrls, JudgeCrls;
    CrlsExact(check, subject, crls, false);
  }

  /** Order and repetition of the CRLs play no part. */
  lemma OnlyTheSetOfCrlsMatters(check: SignatureCheck, subject: Subject, crls: seq<Crl>, others: seq<Crl>)
    requires forall crl :: crl in crls <==> crl in others
    ensures Unrevoked(check, subject, crls).Ok? == Unrevoked(check, subject, others).Ok?
  {
    hide IsAdmissible, DecidesAtGenTime, IsClear, MaySignCrls, Unrevoked;
    UnrevokedExact(check, subject, crls);
    UnrevokedExact(check, subject, others);
  }

  /** What stands at one moment stood at every earlier one. */
  lemma EarlierIsUnrevokedToo(check: SignatureCheck, subject: Subject, crls: seq<Crl>, earlier: Time)
    requires Unrevoked(check, subject, crls).Ok? && earlier <= subject.genTime
    ensures Unrevoked(check, subject.(genTime := earlier), crls).Ok?
  {
    hide IsAdmissible, MaySignCrls, Unrevoked;
    var before := subject.(genTime := earlier);
    UnrevokedExact(check, subject, crls);
    UnrevokedExact(check, before, crls);
    forall crl | crl in crls && IsAdmissible(check, crl, subject.issuer) ensures IsClear(before, crl) {
      assert IsClear(subject, crl);
      forall e | e in crl.entries && e.serial == before.certificate.serial ensures IsHarmless(e, earlier) {
        assert IsHarmless(e, subject.genTime);
      }
    }
  }
}
