/** The parts of certificates and CRLs the trust decisions read. Decoded
    extension values stand for their DER; signatures are left opaque. */
module X509 {
  import opened Bytes

  datatype RevocationReason =
    | Unspecified | KeyCompromise | CaCompromise | AffiliationChanged | Superseded | CessationOfOperation
    | CertificateHold | RemoveFromCrl | PrivilegeWithdrawn | AaCompromise

  datatype Oid = BasicConstraintsOid | KeyUsageOid | ExtendedKeyUsageOid | CrlReasonOid | OtherOid(text: Bytes)

  /** What an extension's bytes decode to under its own identifier. */
  datatype ExtensionValue =
    | Constraints(ca: bool, pathLength: Option<nat>)
    | Usage(certSign: bool, crlSign: bool)
    | Reason(reason: RevocationReason)
    | Undecoded(bytes: Bytes)

  datatype Extension = Extension(oid: Oid, critical: bool, value: ExtensionValue)

  datatype ExtensionFault = Duplicate(oid: Oid) | Undecodable(oid: Oid)

  type Time = int

  datatype Certificate = Certificate(
    subject: Bytes, issuer: Bytes, serial: nat, notBefore: Time, notAfter: Time, isV3: bool,
    extensions: seq<Extension>, publicKey: Bytes,
    encoding: Option<Bytes>, signature: Option<Bytes>)

  datatype CrlEntry = CrlEntry(serial: nat, date: Time, extensions: seq<Extension>)

  datatype Crl = Crl(
    issuer: Bytes, thisUpdate: Time, nextUpdate: Option<Time>, extensions: seq<Extension>, entries: seq<CrlEntry>,
    innerAlgorithm: Bytes, outerAlgorithm: Bytes, encoding: Option<Bytes>, signature: Option<Bytes>)

  /** Whether a signature over a message was made by a certificate's key. */
  type SignatureCheck = (Bytes, Bytes, Certificate) -> bool

  predicate DecodesAs(oid: Oid, value: ExtensionValue) {
    match oid
    case BasicConstraintsOid => value.Constraints?
    case KeyUsageOid => value.Usage?
    case CrlReasonOid => value.Reason?
    case _ => false
  }

  /** The unique extension of an identifier; absence is no error, a repeat or
      an undecodable value is. */
  function Decoded(extensions: seq<Extension>, oid: Oid): (found: Result<Option<ExtensionValue>, ExtensionFault>)
    ensures found.Ok? && found.value.Some? ==> DecodesAs(oid, found.value.value)
  {
    if extensions == [] then Ok(None)
    else
      var last := extensions[|extensions| - 1];
      match Decoded(extensions[..|extensions| - 1], oid)
      case Err(fault) => Err(fault)
      case Ok(found) =>
        if last.oid != oid then Ok(found)
        else if found.Some? then Err(Duplicate(oid))
        else if !DecodesAs(oid, last.value) then Err(Undecodable(oid))
        else Ok(Some(last.value))
  }

  method DecodeExtension(extensions: seq<Extension>, oid: Oid)
    returns (decoded: Result<Option<ExtensionValue>, ExtensionFault>)
    ensures decoded == Decoded(extensions, oid)
  {
    var found: Option<ExtensionValue> := None;
    for i := 0 to |extensions|
      invariant Decoded(extensions[..i], oid) == Ok(found)
    {
      var extension := extensions[i];
      assert extensions[..i + 1][..i] == extensions[..i];
      if extension.oid != oid { continue; }
      if found.Some? {
        FaultPersists(extensions, oid, i + 1);
        return Err(Duplicate(oid));
      }
      if !DecodesAs(oid, extension.value) {
        FaultPersists(extensions, oid, i + 1);
        return Err(Undecodable(oid));
      }
      found := Some(extension.value);
    }
    assert extensions[..|extensions|] == extensions;
    return Ok(found);
  }

  lemma {:induction false} FaultPersists(extensions: seq<Extension>, oid: Oid, n: nat)
    requires n <= |extensions| && Decoded(extensions[..n], oid).Err?
    ensures Decoded(extensions, oid) == Decoded(extensions[..n], oid)
    decreases |extensions|
  {
    if n == |extensions| {
      assert extensions[..n] == extensions;
    } else {
      assert extensions[..|extensions| - 1][..n] == extensions[..n];
      FaultPersists(extensions[..|extensions| - 1], oid, n);
    }
  }

  predicate NeverOccurs(extensions: seq<Extension>, oid: Oid) {
    forall i | 0 <= i < |extensions| :: extensions[i].oid != oid
  }

  /** The identifier occurs once, decodably, with this value. */
  ghost predicate OccursOnce(extensions: seq<Extension>, oid: Oid, value: ExtensionValue) {
    exists i :: IsOnlyAt(extensions, oid, value, i)
  }

  lemma NeverOneMore(before: seq<Extension>, last: Extension, oid: Oid)
    ensures NeverOccurs(before + [last], oid) <==> NeverOccurs(before, oid) && last.oid != oid
  {
    var extensions := before + [last];
    assert extensions[|before|] == last;
    assert forall i | 0 <= i < |before| :: extensions[i] == before[i];
    if NeverOccurs(extensions, oid) {
      forall i | 0 <= i < |before| ensures before[i].oid != oid { assert extensions[i].oid != oid; }
    }
  }

  /** The extension at `i` is the identifier's only one, and decodes to this. */
  predicate IsOnlyAt(extensions: seq<Extension>, oid: Oid, value: ExtensionValue, i: int) {
    && 0 <= i < |extensions|
    && extensions[i].oid == oid && extensions[i].value == value && DecodesAs(oid, value)
    && NeverOccurs(extensions[..i], oid) && NeverOccurs(extensions[i + 1..], oid)
  }

  lemma OnlyOneMore(before: seq<Extension>, last: Extension, oid: Oid, value: ExtensionValue, i: int)
    ensures IsOnlyAt(before + [last], oid, value, i) <==>
              || (IsOnlyAt(before, oid, value, i) && last.oid != oid)
              || (i == |before| && NeverOccurs(before, oid) && last.oid == oid && last.value == value
                  && DecodesAs(oid, value))
  {
    hide DecodesAs, NeverOccurs;
    var extensions := before + [last];
    if 0 <= i < |before| {
      assert extensions[..i] == before[..i] && extensions[i + 1..] == before[i + 1..] + [last];
      NeverOneMore(before[i + 1..], last, oid);
    } else if i == |before| {
      assert extensions[..i] == before && extensions[i + 1..] == [];
      assert NeverOccurs([], oid) by { NeverInNone(oid); }
    }
  }

  lemma NeverInNone(oid: Oid)
    ensures NeverOccurs([], oid)
  {
  }

  lemma OneMoreExtension(before: seq<Extension>, last: Extension, oid: Oid, value: ExtensionValue)
    ensures NeverOccurs(before + [last], oid) <==> NeverOccurs(before, oid) && last.oid != oid
    ensures OccursOnce(before + [last], oid, value) <==>
              || (OccursOnce(before, oid, value) && last.oid != oid)
              || (NeverOccurs(before, oid) && last.oid == oid && last.value == value && DecodesAs(oid, value))
  {
    hide IsOnlyAt, DecodesAs, NeverOccurs;
    NeverOneMore(before, last, oid);
    forall i { OnlyOneMore(before, last, oid, value, i); }
    OnlyOneMore(before, last, oid, value, |before|);
  }

  /** Decoding finds a value exactly when the identifier occurs once, with
      that value, decodably; and finds none exactly when it never occurs. */
  lemma {:induction false} DecodedExact(extensions: seq<Extension>, oid: Oid, value: ExtensionValue)
    ensures Decoded(extensions, oid) == Ok(None) <==> NeverOccurs(extensions, oid)
    ensures Decoded(extensions, oid) == Ok(Some(value)) <==> OccursOnce(extensions, oid, value)
  {
    if extensions != [] {
      hide DecodesAs, NeverOccurs, OccursOnce;
      var before, last := extensions[..|extensions| - 1], extensions[|extensions| - 1];
      DecodedExact(before, oid, value);
      OneMoreExtension(before, last, oid, value);
      assert extensions == before + [last];
    }
  }

  /** Both bounds are inclusive (RFC 5280, section 4.1.2.5). */
  predicate CoversMoment(certificate: Certificate, moment: Time) {
    certificate.notBefore <= moment <= certificate.notAfter
  }

  /** A fault is a second occurrence, or one that does not decode. */
  lemma {:induction false} DecodedFault(extensions: seq<Extension>, oid: Oid)
    requires Decoded(extensions, oid).Err?
    ensures match Decoded(extensions, oid).error
            case Duplicate(named) =>
              named == oid
              && exists i, j | 0 <= i < j < |extensions| :: extensions[i].oid == oid && extensions[j].oid == oid
            case Undecodable(named) =>
              named == oid
              && exists x | x in extensions :: x.oid == oid && !DecodesAs(oid, x.value)
  {
    hide DecodesAs;
    var n := |extensions| - 1;
    var before := extensions[..n];
    assert forall i | 0 <= i < n :: before[i] == extensions[i];
    var found := Decoded(before, oid);
    if found.Err? {
      DecodedFault(before, oid);
    } else if found.value.Some? {
      DecodedExact(before, oid, found.value.value);
      var i :| IsOnlyAt(before, oid, found.value.value, i);
      assert extensions[i].oid == oid && extensions[n].oid == oid;
    } else {
      assert extensions[n] in extensions;
    }
  }
}
