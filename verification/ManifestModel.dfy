/** The manifest and the spelling of its fields (stamping specification,
    section 4): every field has exactly one canonical writing. */
module ManifestModel {
  import opened Bytes
  import opened Hex
  import opened Sorting
  import opened Utf8

  type Digest = d: Bytes | |d| == 32 witness "0123456789abcdef0123456789abcdef"

  datatype PayloadHashes = PayloadHashes(sha256: Digest, sha3: Digest)

  datatype FileMode = Regular | Executable | Symlink

  datatype Entry = Entry(path: Bytes, mode: FileMode, size: u64, contentHashes: PayloadHashes)

  /** The label set is open: a label not known here must still round-trip. */
  datatype AnchorSpec = Rfc3161 | Unrecognized(name: Bytes) {
    function Label(): Bytes {
      match this
      case Rfc3161 => "rfc3161"
      case Unrecognized(name) => name
    }
  }

  datatype PastToken = PastToken(spec: AnchorSpec, site: Bytes, tokenHashes: PayloadHashes)

  datatype BindingGroup = BindingGroup(
    commit: Bytes,
    predecessorOrigin: Option<Bytes>,
    manifestHashes: PayloadHashes,
    tokens: seq<PastToken>)

  datatype Manifest = Manifest(
    parents: seq<Bytes>,
    bindingGroups: seq<BindingGroup>,
    entries: seq<Entry>)

  /** The payload a binding group is ordered and told apart by. */
  function Key(group: BindingGroup): Digest { group.manifestHashes.sha256 }

  ghost predicate DistinctSha256(groups: seq<BindingGroup>) {
    forall i, j | 0 <= i < j < |groups| :: groups[i].manifestHashes.sha256 != groups[j].manifestHashes.sha256
  }

  ghost predicate DistinctPaths(entries: seq<Entry>) {
    forall i, j | 0 <= i < j < |entries| :: entries[i].path != entries[j].path
  }

  lemma PathsPermute(a: seq<Entry>, b: seq<Entry>)
    requires multiset(a) == multiset(b) && DistinctPaths(a)
    ensures DistinctPaths(b)
  {
    assert Distinct(a);
    DistinctPermutes(a, b);
    forall i, j | 0 <= i < j < |b| ensures b[i].path != b[j].path {
      assert b[i] in multiset(b) && b[j] in multiset(b);
      assert b[i] in multiset(a) && b[j] in multiset(a);
      assert b[i] != b[j];
    }
  }

  // ----- bare tokens -----

  predicate IsGraphic(b: Byte) { 0x21 <= b as int <= 0x7E }

  /** Non-empty printable ASCII without whitespace. */
  predicate IsBareToken(field: Bytes) {
    field != [] && forall i | 0 <= i < |field| :: IsGraphic(field[i])
  }

  /** A text that can stand as one field of a line: valid UTF-8 that breaks
      neither the line nor its fields. */
  ghost predicate IsField(text: Bytes) {
    Valid(text) && ' ' !in text && '\n' !in text
  }

  // ----- modes -----

  function ModeText(mode: FileMode): Bytes {
    match mode
    case Regular => "100644"
    case Executable => "100755"
    case Symlink => "120000"
  }

  function ParseMode(field: Bytes): Option<FileMode> {
    if field == ModeText(Regular) then Some(Regular)
    else if field == ModeText(Executable) then Some(Executable)
    else if field == ModeText(Symlink) then Some(Symlink)
    else None
  }

  lemma ModeExact(field: Bytes, mode: FileMode)
    ensures ParseMode(field) == Some(mode) <==> field == ModeText(mode)
  {
    assert ModeText(Regular)[5] == '4' && ModeText(Executable)[5] == '5' && ModeText(Symlink)[5] == '0';
  }

  // ----- anchor specifications -----

  function ParseSpec(text: Bytes): Option<AnchorSpec> {
    if text == Rfc3161.Label() then Some(Rfc3161)
    else if IsBareToken(text) then Some(Unrecognized(text))
    else None
  }

  /** Every bare label reads back, except that an `Unrecognized` value
      spelling the known label reads back as the known specification. */
  lemma SpecExact(text: Bytes, spec: AnchorSpec)
    requires IsBareToken(spec.Label())
    ensures ParseSpec(spec.Label()).Some?
    ensures ParseSpec(text) == Some(spec) <==> text == spec.Label() && spec != Unrecognized("rfc3161")
  {
  }

  // ----- hashes -----

  function HashFields(hashes: PayloadHashes): (fields: seq<Bytes>)
    ensures |fields| == 2
  {
    ["sha256" + ":" + Encode(LOWERCASE, hashes.sha256), "sha3-256" + ":" + Encode(LOWERCASE, hashes.sha3)]
  }

  function ParseHashField(name: Bytes, field: Bytes): Option<Digest> {
    if name + ":" <= field then
      match Decode(LOWERCASE, field[|name| + 1..], 32)
      case Some(digest) => Some(digest)
      case None => None
    else None
  }

  function ParseHashes(fields: seq<Bytes>): Option<PayloadHashes> {
    if |fields| != 2 then None
    else
      match (ParseHashField("sha256", fields[0]), ParseHashField("sha3-256", fields[1]))
      case (Some(sha256), Some(sha3)) => Some(PayloadHashes(sha256, sha3))
      case _ => None
  }

  lemma HashFieldExact(name: Bytes, field: Bytes, digest: Digest)
    ensures ParseHashField(name, field) == Some(digest) <==> field == name + ":" + Encode(LOWERCASE, digest)
  {
    hide DecodePairs, Hex.Encode;
    AlphabetsAreSound();
    var prefix := name + ":";
    if prefix <= field {
      assert field == prefix + field[|prefix|..];
      DecodeExact(LOWERCASE, field[|prefix|..], 32, digest);
    }
    assert field == prefix + Encode(LOWERCASE, digest) ==> field[|prefix|..] == Encode(LOWERCASE, digest);
  }

  lemma HashesExact(fields: seq<Bytes>, hashes: PayloadHashes)
    ensures ParseHashes(fields) == Some(hashes) <==> fields == HashFields(hashes)
  {
    hide ParseHashField, Hex.Encode;
    if |fields| == 2 {
      HashFieldExact("sha256", fields[0], hashes.sha256);
      HashFieldExact("sha3-256", fields[1], hashes.sha3);
    }
  }

  // ----- sizes -----

  function DigitByte(digit: nat): Byte
    requires digit < 10
  {
    (digit + 0x30) as char
  }

  /** Canonical decimal, as Rust prints an integer. */
  function Decimal(n: nat): (text: Bytes)
    ensures text != []
  {
    if n < 10 then [DigitByte(n)] else Decimal(n / 10) + [DigitByte(n % 10)]
  }

  predicate IsDigit(b: Byte) { 0x30 <= b as int <= 0x39 }

  predicate IsCanonicalDecimal(field: Bytes) {
    && field != []
    && (forall i | 0 <= i < |field| :: IsDigit(field[i]))
    && (field == "0" || field[0] != '0')
  }

  function DecimalValue(field: Bytes): nat
    requires forall i | 0 <= i < |field| :: IsDigit(field[i])
  {
    if field == [] then 0
    else
      var last := |field| - 1;
      assert IsDigit(field[last]);
      DecimalValue(field[..last]) * 10 + (field[last] as int - 0x30)
  }

  /** The shape is checked first; the conversion then fails only on overflow
      of the 64-bit size. */
  function ParseSize(field: Bytes): Option<u64> {
    if !IsCanonicalDecimal(field) then None
    else if DecimalValue(field) < 0x1_0000_0000_0000_0000 then Some(DecimalValue(field))
    else None
  }

  lemma {:induction false} DecimalIsCanonical(n: nat)
    ensures IsCanonicalDecimal(Decimal(n)) && DecimalValue(Decimal(n)) == n
    ensures n > 0 ==> Decimal(n)[0] != '0'
  {
    var text := Decimal(n);
    if n < 10 {
      assert text[..0] == [] && DecimalValue(text[..0]) == 0;
    } else {
      DecimalIsCanonical(n / 10);
      assert text[..|text| - 1] == Decimal(n / 10);
    }
  }

  lemma {:induction false} CanonicalIsDecimal(field: Bytes)
    requires IsCanonicalDecimal(field)
    ensures Decimal(DecimalValue(field)) == field
    ensures field != "0" ==> DecimalValue(field) > 0
  {
    var last := |field| - 1;
    var front := field[..last];
    if front == [] {
      assert DecimalValue(front) == 0;
    } else {
      assert front[0] == field[0] && front[0] != '0';
      CanonicalIsDecimal(front);
      assert DecimalValue(field) / 10 == DecimalValue(front);
    }
    assert field == front + [field[last]];
  }

  lemma SizeExact(field: Bytes, size: u64)
    ensures ParseSize(field) == Some(size) <==> field == Decimal(size)
  {
    DecimalIsCanonical(size);
    if IsCanonicalDecimal(field) { CanonicalIsDecimal(field); }
  }

  // ----- no field breaks its line -----

  lemma BareIsField(field: Bytes)
    requires forall i | 0 <= i < |field| :: IsGraphic(field[i])
    ensures IsField(field)
  {
    assert !IsGraphic(' ') && !IsGraphic('\n');
    AsciiValid(field);
  }

  lemma HashFieldIsField(name: Bytes, digest: Digest)
    requires IsBareToken(name)
    ensures IsField(name + ":" + Encode(LOWERCASE, digest))
  {
    var digits := Encode(LOWERCASE, digest);
    EncodeInAlphabet(LOWERCASE, digest);
    hide Hex.Encode;
    assert forall i | 0 <= i < 16 :: IsGraphic(LOWERCASE[i]);
    assert forall c | c in LOWERCASE :: IsGraphic(c);
    BareIsField(name + ":" + digits);
  }

  lemma HashFieldsAreFields(hashes: PayloadHashes)
    ensures IsField(HashFields(hashes)[0]) && IsField(HashFields(hashes)[1])
  {
    HashFieldIsField("sha256", hashes.sha256);
    HashFieldIsField("sha3-256", hashes.sha3);
  }

  lemma DecimalIsField(n: nat)
    ensures IsField(Decimal(n))
  {
    DecimalIsCanonical(n);
    assert forall b: Byte | IsDigit(b) :: IsGraphic(b);
    BareIsField(Decimal(n));
  }

  lemma ModeIsField(mode: FileMode)
    ensures IsField(ModeText(mode))
  {
    BareIsField(ModeText(mode));
  }
}
