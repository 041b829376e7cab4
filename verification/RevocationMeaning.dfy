/** Revocation told by the CRLs, their entries and the moments they cover: the
    good status, and what each refusal means. */
module RevocationMeaning {
  import opened Bytes
  import opened X509
  import opened Revocation

  /** The CRL speaks for the issuer: its name, its signature, one algorithm
      throughout, and no critical extension. */
  ghost predicate IsEvidence(check: SignatureCheck, crl: Crl, issuer: Certificate) {
    && crl.issuer == issuer.subject && crl.innerAlgorithm == crl.outerAlgorithm
    && (forall x | x in crl.extensions :: !x.critical)
    && exists message, signature ::
         crl.encoding == Some(message) && crl.signature == Some(signature) && check(message, signature, issuer)
  }

  /** The CRL was good for the moment: not yet to be replaced then, and issued
      before the certificate expired. */
  ghost predicate Decides(crl: Crl, subject: Subject) {
    && crl.thisUpdate <= subject.certificate.notAfter
    && exists until :: crl.nextUpdate == Some(until) && subject.genTime <= until
  }

  /** The entry revokes after the moment, for a reason that leaves the key
      sound, with nothing critical. */
  ghost predicate IsTolerated(entry: CrlEntry, genTime: Time) {
    && genTime < entry.date && (forall x | x in entry.extensions :: !x.critical)
    && exists value :: OccursOnce(entry.extensions, CrlReasonOid, value) && LeavesKeySound(value)
  }

  predicate LeavesKeySound(value: ExtensionValue) {
    value.Reason?
    && (value.reason.AffiliationChanged? || value.reason.Superseded? || value.reason.CessationOfOperation?
        || value.reason.PrivilegeWithdrawn?)
  }

  /** The issuer's key usage, if it has one, allows signing CRLs. */
  ghost predicate MaySign(issuer: Certificate) {
    || NeverOccurs(issuer.extensions, KeyUsageOid)
    || exists value :: OccursOnce(issuer.extensions, KeyUsageOid, value) && value.Usage? && value.crlSign
  }

  lemma EvidenceExact(check: SignatureCheck, crl: Crl, issuer: Certificate)
    ensures IsAdmissible(check, crl, issuer) <==> IsEvidence(check, crl, issuer)
  {
    if IsAdmissible(check, crl, issuer) {
      assert crl.encoding == Some(crl.encoding.value) && crl.signature == Some(crl.signature.value);
    }
  }

  lemma DecidesExact(crl: Crl, subject: Subject)
    ensures DecidesAtGenTime(crl, subject) <==> Decides(crl, subject)
  {
    if crl.nextUpdate.Some? { assert crl.nextUpdate == Some(crl.nextUpdate.value); }
  }

  lemma ToleratedExact(entry: CrlEntry, genTime: Time)
    ensures IsHarmless(entry, genTime) <==> IsTolerated(entry, genTime)
  {
    hide Decoded, OccursOnce;
    var recorded := Decoded(entry.extensions, CrlReasonOid);
    forall value ensures recorded == Ok(Some(value)) <==> OccursOnce(entry.extensions, CrlReasonOid, value) {
      DecodedExact(entry.extensions, CrlReasonOid, value);
    }
    if recorded.Ok? && recorded.value.Some? { assert recorded == Ok(Some(recorded.value.value)); }
  }

  lemma MaySignExact(issuer: Certificate)
    ensures MaySignCrls(issuer).Ok? <==> MaySign(issuer)
  {
    hide Decoded, OccursOnce, NeverOccurs;
    var usage := Decoded(issuer.extensions, KeyUsageOid);
    forall value
      ensures usage == Ok(Some(value)) <==> OccursOnce(issuer.extensions, KeyUsageOid, value)
      ensures usage == Ok(None) <==> NeverOccurs(issuer.extensions, KeyUsageOid)
    {
      DecodedExact(issuer.extensions, KeyUsageOid, value);
    }
    DecodedExact(issuer.extensions, KeyUsageOid, Undecoded([]));
    if usage.Ok? && usage.value.Some? { assert usage == Ok(Some(usage.value.value)); }
  }

  /** The status is good exactly when the issuer may sign CRLs, some evidence
      decides the moment, and none lists the serial but tolerably. */
  lemma GoodStatusExact(check: SignatureCheck, subject: Subject, crls: seq<Crl>)
    ensures Unrevoked(check, subject, crls).Ok? <==>
            && MaySign(subject.issuer)
            && (exists crl | crl in crls :: IsEvidence(check, crl, subject.issuer) && Decides(crl, subject))
            && (forall crl, e | crl in crls && IsEvidence(check, crl, subject.issuer)
                                && e in crl.entries && e.serial == subject.certificate.serial ::
                  IsTolerated(e, subject.genTime))
  {
    hide IsAdmissible, IsEvidence, DecidesAtGenTime, Decides, IsHarmless, IsTolerated, MaySign, MaySignCrls, Unrevoked;
    UnrevokedExact(check, subject, crls);
    MaySignExact(subject.issuer);
    forall crl ensures IsAdmissible(check, crl, subject.issuer) <==> IsEvidence(check, crl, subject.issuer) {
      EvidenceExact(check, crl, subject.issuer);
    }
    forall crl ensures DecidesAtGenTime(crl, subject) <==> Decides(crl, subject) { DecidesExact(crl, subject); }
    forall e ensures IsHarmless(e, subject.genTime) <==> IsTolerated(e, subject.genTime) {
      ToleratedExact(e, subject.genTime);
    }
  }

  // ----- refusals -----

  /** What an entry that is not tolerated says. */
  ghost predicate IsEntryFault(entry: CrlEntry, genTime: Time, error: RevocationError) {
    match error
    case CriticalEntryExtension => exists x | x in entry.extensions :: x.critical
    case MalformedEntry(fault) => Decoded(entry.extensions, CrlReasonOid) == Err(fault)
    case RevokedAtGenTime(date) => date == entry.date && entry.date <= genTime
    case DisqualifyingRevocation(None) => genTime < entry.date && NeverOccurs(entry.extensions, CrlReasonOid)
    case DisqualifyingRevocation(Some(reason)) =>
      genTime < entry.date && OccursOnce(entry.extensions, CrlReasonOid, Reason(reason))
      && !LeavesKeySound(Reason(reason))
    case _ => false
  }

  ghost predicate IsStatusFault(check: SignatureCheck, subject: Subject, crls: seq<Crl>, error: RevocationError) {
    match error
    case IssuerCannotSignCrls =>
      exists value :: OccursOnce(subject.issuer.extensions, KeyUsageOid, value) && value.Usage? && !value.crlSign
    case MalformedIssuer(fault) => Decoded(subject.issuer.extensions, KeyUsageOid) == Err(fault)
    case NoUsableCrl =>
      forall crl | crl in crls && IsEvidence(check, crl, subject.issuer) :: !Decides(crl, subject)
    case _ =>
      exists crl, e | crl in crls ::
        && IsEvidence(check, crl, subject.issuer) && e in crl.entries && e.serial == subject.certificate.serial
        && IsEntryFault(e, subject.genTime, error)
  }

  lemma EntryFault(entry: CrlEntry, genTime: Time)
    requires JudgeEntry(entry, genTime).Err?
    ensures IsEntryFault(entry, genTime, JudgeEntry(entry, genTime).error)
    ensures !JudgeEntry(entry, genTime).error.NoUsableCrl? && !JudgeEntry(entry, genTime).error.IssuerCannotSignCrls?
            && !JudgeEntry(entry, genTime).error.MalformedIssuer?
  {
    hide Decoded, OccursOnce, NeverOccurs;
    var recorded := Decoded(entry.extensions, CrlReasonOid);
    DecodedExact(entry.extensions, CrlReasonOid,
                 if recorded.Ok? && recorded.value.Some? then recorded.value.value else Undecoded([]));
  }

  lemma {:induction false} EntriesFault(serial: nat, genTime: Time, entries: seq<CrlEntry>) returns (e: CrlEntry)
    requires JudgeEntries(serial, genTime, entries).Err?
    ensures e in entries && e.serial == serial && JudgeEntry(e, genTime) == JudgeEntries(serial, genTime, entries)
  {
    hide JudgeEntry;
    if entries[0].serial == serial && JudgeEntry(entries[0], genTime).Err? {
      e := entries[0];
    } else {
      e := EntriesFault(serial, genTime, entries[1..]);
    }
  }

  lemma {:induction false} CrlsFault(check: SignatureCheck, subject: Subject, crls: seq<Crl>, decided: bool)
    requires JudgeCrls(check, subject, crls, decided).Err?
    ensures var error := JudgeCrls(check, subject, crls, decided).error;
            if error.NoUsableCrl? then
              !decided && forall crl | crl in crls && IsEvidence(check, crl, subject.issuer) :: !Decides(crl, subject)
            else
              && !error.IssuerCannotSignCrls? && !error.MalformedIssuer?
              && exists crl, e | crl in crls ::
                   && IsEvidence(check, crl, subject.issuer) && e in crl.entries
                   && e.serial == subject.certificate.serial && IsEntryFault(e, subject.genTime, error)
    decreases |crls|
  {
    hide IsAdmissible, IsEvidence, DecidesAtGenTime, Decides, JudgeEntries, JudgeEntry, IsEntryFault;
    if crls != [] {
      var crl, rest := crls[0], crls[1..];
      EvidenceExact(check, crl, subject.issuer);
      DecidesExact(crl, subject);
      assert crls == [crl] + rest;
      var judged := JudgeEntries(subject.certificate.serial, subject.genTime, crl.entries);
      if IsAdmissible(check, crl, subject.issuer) && judged.Err? {
        var e := EntriesFault(subject.certificate.serial, subject.genTime, crl.entries);
        EntryFault(e, subject.genTime);
        assert crl in crls;
      } else if !IsAdmissible(check, crl, subject.issuer) {
        CrlsFault(check, subject, rest, decided);
      } else {
        CrlsFault(check, subject, rest, decided || DecidesAtGenTime(crl, subject));
      }
    }
  }

  /** A refused status has its reason in the issuer, in the CRLs at hand, or in
      an entry. */
  lemma StatusFault(check: SignatureCheck, subject: Subject, crls: seq<Crl>)
    requires Unrevoked(check, subject, crls).Err?
    ensures IsStatusFault(check, subject, crls, Unrevoked(check, subject, crls).error)
  {
    hide Decoded, OccursOnce, NeverOccurs, IsEvidence, Decides, IsEntryFault, JudgeCrls;
    var usage := Decoded(subject.issuer.extensions, KeyUsageOid);
    if usage.Ok? && usage.value.Some? { DecodedExact(subject.issuer.extensions, KeyUsageOid, usage.value.value); }
    if MaySignCrls(subject.issuer).Ok? { CrlsFault(check, subject, crls, false); }
  }
}
