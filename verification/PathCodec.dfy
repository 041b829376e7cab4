/** The printable form of a git path (stamping specification, section 4.3):
    `%XX` for the percent sign, for bytes outside valid UTF-8, and for
    characters the pinned table calls control or separator. */
module PathCodec {
  import opened Bytes
  import opened Hex
  import opened Utf8
  import opened UnicodeTable

  /** The pinned table: what the format relies on, carried in the type. */
  type Table = t: seq<Range> | Separated(t) && PinsAscii(t)
    ghost witness (AsciiTablePins(); ASCII_TABLE)

  const ASCII_TABLE: seq<Range> := [Range(0x00, 0x20), Range(0x7F, 0x7F)]

  lemma AsciiTablePins()
    ensures Separated(ASCII_TABLE) && PinsAscii(ASCII_TABLE)
  {
    assert ASCII_TABLE[0].first == 0 && ASCII_TABLE[0].last == 0x20;
    assert ASCII_TABLE[1].first == 0x7F && ASCII_TABLE[1].last == 0x7F;
  }

  predicate KeepsRaw(table: seq<Range>, codePoint: nat) {
    codePoint != '%' as int && !InTable(table, codePoint)
  }

  function EscapeByte(b: Byte): (text: Bytes)
    ensures |text| == 3
  {
    ['%'] + EncodeByte(UPPERCASE, b)
  }

  function Escape(source: Bytes): Bytes {
    if source == [] then [] else EscapeByte(source[0]) + Escape(source[1..])
  }

  function EncodeScalar(table: seq<Range>, raw: Bytes, codePoint: nat): Bytes {
    if KeepsRaw(table, codePoint) then raw else Escape(raw)
  }

  /** The printable form of a valid text, character by character. */
  function EncodeText(table: seq<Range>, text: Bytes): Bytes
    requires Valid(text)
  {
    if text == [] then []
    else
      var step := FirstStep(text);
      EncodeScalar(table, text[..step.length], step.codePoint) + EncodeText(table, text[step.length..])
  }

  /** The printable form of any byte string: maximal broken sequences are
      escaped whole, and a truncated tail takes everything left. */
  function EncodePath(table: seq<Range>, path: Bytes): Bytes {
    if path == [] then []
    else
      match FirstStep(path)
      case Scalar(n, codePoint) => EncodeScalar(table, path[..n], codePoint) + EncodePath(table, path[n..])
      case Broken(n) => Escape(path[..n]) + EncodePath(table, path[n..])
      case Truncated => Escape(path)
  }

  function DecodeText(text: Bytes): Option<Bytes> {
    if text == [] then Some([])
    else if text[0] == '%' then
      if |text| < 3 then None
      else
        match (DecodePair(UPPERCASE, text[1], text[2]), DecodeText(text[3..]))
        case (Some(b), Some(rest)) => Some([b] + rest)
        case _ => None
    else
      match DecodeText(text[1..])
      case Some(rest) => Some([text[0]] + rest)
      case None => None
  }

  function DecodePath(text: Bytes): Option<Bytes> {
    if DecodeText(text) == Some([]) then None else DecodeText(text)
  }

  // ----- the loops of the source -----

  method PushEscaped(encoded: Bytes, source: Bytes) returns (grown: Bytes)
    ensures grown == encoded + Escape(source)
  {
    grown := encoded;
    for i := 0 to |source|
      invariant grown + Escape(source[i..]) == encoded + Escape(source)
    {
      assert source[i..][1..] == source[i + 1..];
      grown := grown + EscapeByte(source[i]);
    }
    assert source[|source|..] == [];
  }

  method PushEncodedText(table: seq<Range>, encoded: Bytes, text: Bytes) returns (grown: Bytes)
    requires Separated(table)
    requires Valid(text)
    ensures grown == encoded + EncodeText(table, text)
  {
    hide FirstStep, Escape, InTable, Separated;
    grown := encoded;
    var rest := text;
    while rest != []
      invariant Valid(rest)
      invariant grown + EncodeText(table, rest) == encoded + EncodeText(table, text)
      decreases |rest|
    {
      var step := FirstStep(rest);
      var isHidden := IsInTable(table, step.codePoint);
      var raw := rest[..step.length];
      ghost var before := grown;
      if step.codePoint != '%' as int && !isHidden {
        grown := grown + raw;
      } else {
        grown := PushEscaped(grown, raw);
      }
      assert grown == before + EncodeScalar(table, raw, step.codePoint);
      rest := rest[step.length..];
    }
  }

  method EncodePathLoop(table: seq<Range>, path: Bytes) returns (encoded: Bytes)
    requires Separated(table)
    ensures encoded == EncodePath(table, path)
  {
    hide FirstStep, EncodeText, Escape, ValidUpTo, Valid;
    encoded := [];
    var remaining := path;
    while remaining != []
      invariant encoded + EncodePath(table, remaining) == EncodePath(table, path)
      decreases |remaining|
    {
      var upTo := ValidUpTo(remaining);
      EncodeRound(table, remaining);
      encoded := PushEncodedText(table, encoded, remaining[..upTo]);
      var invalidStart := remaining[upTo..];
      var invalidLen := InvalidLen(invalidStart);
      encoded := PushEscaped(encoded, invalidStart[..invalidLen]);
      remaining := invalidStart[invalidLen..];
    }
  }

  /** `error_len`, or everything left when the input ends mid-sequence (and
      nothing when the whole input was valid). */
  function InvalidLen(invalidStart: Bytes): (length: nat)
    ensures length <= |invalidStart|
    ensures invalidStart != [] && !FirstStep(invalidStart).Scalar? ==> length > 0
  {
    if invalidStart == [] then 0
    else
      match FirstStep(invalidStart)
      case Scalar(_, _) => 0
      case Broken(n) => n
      case Truncated => |invalidStart|
  }

  /** One round of the loop: a valid prefix, then one broken sequence. */
  lemma EncodeRound(table: seq<Range>, s: Bytes)
    requires s != []
    ensures Valid(s[..ValidUpTo(s)])
    ensures var up := ValidUpTo(s);
            var skip := up + InvalidLen(s[up..]);
            skip > 0
            && EncodePath(table, s) == EncodeText(table, s[..up]) + Escape(s[up..skip]) + EncodePath(table, s[skip..])
            && s[up..][..skip - up] == s[up..skip] && s[up..][skip - up..] == s[skip..]
  {
    hide FirstStep, EncodePath, EncodeText, Escape, ValidUpTo, Valid;
    var up := ValidUpTo(s);
    var invalid := s[up..];
    var n := InvalidLen(invalid);
    ValidPrefix(s);
    EncodeValidPrefix(table, s);
    assert invalid[..n] == s[up..up + n] && invalid[n..] == s[up + n..];
    EncodeInvalid(table, invalid);
    assert EncodePath(table, s) ==
           EncodeText(table, s[..up]) + (Escape(invalid[..n]) + EncodePath(table, invalid[n..]));
  }

  lemma EncodeInvalid(table: seq<Range>, s: Bytes)
    requires s == [] || !FirstStep(s).Scalar?
    ensures EncodePath(table, s) == Escape(s[..InvalidLen(s)]) + EncodePath(table, s[InvalidLen(s)..])
  {
    if s == [] {
    } else if FirstStep(s).Truncated? {
      assert s[..|s|] == s && s[|s|..] == [];
    }
  }

  lemma {:induction false} EncodeValidPrefix(table: seq<Range>, s: Bytes)
    requires Valid(s[..ValidUpTo(s)])
    ensures EncodePath(table, s) == EncodeText(table, s[..ValidUpTo(s)]) + EncodePath(table, s[ValidUpTo(s)..])
  {
    hide FirstStep, EncodeScalar, Valid, EncodeText;
    var up := ValidUpTo(s);
    if s == [] || !FirstStep(s).Scalar? {
      assert s[..up] == [] && s[up..] == s;
      NoText(table);
    } else {
      var step := FirstStep(s);
      var n := step.length;
      var rest := s[n..];
      var head := EncodeScalar(table, s[..n], step.codePoint);
      assert EncodePath(table, s) == head + EncodePath(table, rest);
      ValidPrefix(rest);
      assert ValidUpTo(rest) == up - n;
      hide ValidUpTo, EncodePath;
      EncodeValidPrefix(table, rest);
      EncodeTextStep(table, s, up);
      assert s[up..] == rest[up - n..];
    }
  }

  lemma NoText(table: seq<Range>)
    ensures EncodeText(table, []) == []
  {
  }

  lemma EncodeTextStep(table: seq<Range>, s: Bytes, upTo: nat)
    requires s != [] && FirstStep(s).Scalar? && FirstStep(s).length <= upTo <= |s|
    requires Valid(s[..upTo]) && Valid(s[FirstStep(s).length..][..upTo - FirstStep(s).length])
    ensures var step := FirstStep(s);
            EncodeText(table, s[..upTo]) ==
            EncodeScalar(table, s[..step.length], step.codePoint) +
                EncodeText(table, s[step.length..][..upTo - step.length])
  {
    ScalarOfPrefix(s, upTo);
    hide FirstStep;
    var n := FirstStep(s).length;
    assert s[..upTo][..n] == s[..n] && s[..upTo][n..] == s[n..][..upTo - n];
  }

  /** What the bytes decoded so far make of the rest's outcome. */
  function Prepend(decoded: Bytes, rest: Option<Bytes>): Option<Bytes> {
    match rest
    case Some(tail) => Some(decoded + tail)
    case None => None
  }

  lemma PrependTwice(a: Bytes, b: Bytes, rest: Option<Bytes>)
    ensures Prepend(a, Prepend(b, rest)) == Prepend(a + b, rest)
  {
    if rest.Some? { assert a + (b + rest.value) == (a + b) + rest.value; }
  }

  method DecodePathLoop(text: Bytes) returns (path: Option<Bytes>)
    ensures path == DecodePath(text)
  {
    var decoded: Bytes := [];
    var rest := text;
    assert forall b: Bytes :: [] + b == b;
    while rest != []
      invariant DecodeText(text) == Prepend(decoded, DecodeText(rest))
      decreases |rest|
    {
      if rest[0] == '%' {
        if |rest| < 3 { return None; }
        var high, low := DigitValue(UPPERCASE, rest[1]), DigitValue(UPPERCASE, rest[2]);
        if high.None? || low.None? { return None; }
        var b: Byte := (high.value * 16 + low.value) as char;
        PrependTwice(decoded, [b], DecodeText(rest[3..]));
        decoded := decoded + [b];
        rest := rest[3..];
      } else {
        PrependTwice(decoded, [rest[0]], DecodeText(rest[1..]));
        decoded := decoded + [rest[0]];
        rest := rest[1..];
      }
    }
    assert decoded + [] == decoded;
    return if decoded == [] then None else Some(decoded);
  }

  // ----- decoding inverts encoding -----

  /** `DecodeText` after a prefix that decodes on its own. */
  ghost predicate DecodesTo(text: Bytes, source: Bytes) {
    forall rest: Bytes ::
      DecodeText(text + rest) == Prepend(source, DecodeText(rest))
  }

  lemma DecodesConcat(textA: Bytes, sourceA: Bytes, textB: Bytes, sourceB: Bytes)
    requires DecodesTo(textA, sourceA) && DecodesTo(textB, sourceB)
    ensures DecodesTo(textA + textB, sourceA + sourceB)
  {
    forall rest: Bytes
      ensures DecodeText((textA + textB) + rest) == Prepend(sourceA + sourceB, DecodeText(rest))
    {
      assert (textA + textB) + rest == textA + (textB + rest);
      PrependTwice(sourceA, sourceB, DecodeText(rest));
    }
  }

  lemma DecodesNothing()
    ensures DecodesTo([], [])
  {
    forall rest: Bytes ensures DecodeText([] + rest) == Prepend([], DecodeText(rest)) {
      assert [] + rest == rest;
      if DecodeText(rest).Some? { assert [] + DecodeText(rest).value == DecodeText(rest).value; }
    }
  }

  lemma DecodesRawByte(b: Byte)
    requires b != '%'
    ensures DecodesTo([b], [b])
  {
    forall rest: Bytes ensures DecodeText([b] + rest) == Prepend([b], DecodeText(rest)) {
      assert ([b] + rest)[1..] == rest;
    }
  }

  lemma DecodesEscapedByte(b: Byte)
    ensures DecodesTo(EscapeByte(b), [b])
  {
    AlphabetsAreSound();
    PairRoundTrip(UPPERCASE, b);
    forall rest: Bytes ensures DecodeText(EscapeByte(b) + rest) == Prepend([b], DecodeText(rest)) {
      assert (EscapeByte(b) + rest)[3..] == rest;
    }
  }

  lemma {:induction false} DecodesRaw(raw: Bytes)
    requires '%' !in raw
    ensures DecodesTo(raw, raw)
  {
    if raw == [] {
      DecodesNothing();
    } else {
      DecodesRawByte(raw[0]);
      DecodesRaw(raw[1..]);
      DecodesConcat([raw[0]], [raw[0]], raw[1..], raw[1..]);
      assert [raw[0]] + raw[1..] == raw;
    }
  }

  lemma {:induction false} DecodesEscaped(source: Bytes)
    ensures DecodesTo(Escape(source), source)
  {
    if source == [] {
      DecodesNothing();
    } else {
      DecodesEscapedByte(source[0]);
      DecodesEscaped(source[1..]);
      DecodesConcat(EscapeByte(source[0]), [source[0]], Escape(source[1..]), source[1..]);
      assert [source[0]] + source[1..] == source;
    }
  }

  lemma DecodesScalar(table: seq<Range>, s: Bytes)
    requires s != [] && FirstStep(s).Scalar?
    ensures var step := FirstStep(s);
            DecodesTo(EncodeScalar(table, s[..step.length], step.codePoint), s[..step.length])
  {
    var step := FirstStep(s);
    if KeepsRaw(table, step.codePoint) {
      DecodesRaw(s[..step.length]);
    } else {
      DecodesEscaped(s[..step.length]);
    }
  }

  lemma {:induction false} DecodesEncoding(table: seq<Range>, path: Bytes)
    ensures DecodesTo(EncodePath(table, path), path)
  {
    hide FirstStep, DecodesTo, EncodeScalar, Escape;
    if path == [] {
      DecodesNothing();
    } else {
      match FirstStep(path)
      case Scalar(n, codePoint) =>
        DecodesScalar(table, path);
        DecodesEncoding(table, path[n..]);
        DecodesConcat(EncodeScalar(table, path[..n], codePoint), path[..n], EncodePath(table, path[n..]), path[n..]);
        assert path[..n] + path[n..] == path;
      case Broken(n) =>
        DecodesEscaped(path[..n]);
        DecodesEncoding(table, path[n..]);
        DecodesConcat(Escape(path[..n]), path[..n], EncodePath(table, path[n..]), path[n..]);
        assert path[..n] + path[n..] == path;
      case Truncated =>
        DecodesEscaped(path);
    }
  }

  /** Decoding inverts encoding on every byte string, valid UTF-8 or not; the
      empty path alone has no field. */
  lemma PathRoundTrip(table: seq<Range>, path: Bytes)
    ensures DecodePath(EncodePath(table, path)) == if path == [] then None else Some(path)
  {
    DecodesEncoding(table, path);
    assert EncodePath(table, path) + [] == EncodePath(table, path);
    assert path + [] == path;
    assert DecodeText([]) == Some([]);
    assert DecodeText(EncodePath(table, path)) == Some(path);
  }

  lemma EncodeInjective(table: seq<Range>, a: Bytes, b: Bytes)
    requires EncodePath(table, a) == EncodePath(table, b)
    ensures a == b
  {
    PathRoundTrip(table, a);
    PathRoundTrip(table, b);
  }

  // ----- the printed form is printable -----

  /** Valid UTF-8 in which every character is visible, and a percent sign
      only ever opens an escape of two uppercase digits. */
  ghost predicate Printable(table: seq<Range>, text: Bytes) {
    && Valid(text)
    && (forall i | 0 <= i < |CodePoints(text)| :: !InTable(table, CodePoints(text)[i]))
    && (forall i | 0 <= i < |text| && text[i] == '%' ::
          i + 2 < |text| && text[i + 1] in UPPERCASE && text[i + 2] in UPPERCASE)
  }

  lemma PrintableConcat(table: seq<Range>, a: Bytes, b: Bytes)
    requires Printable(table, a) && Printable(table, b)
    ensures Printable(table, a + b)
  {
    ValidConcat(a, b);
    var all := a + b;
    forall i | 0 <= i < |all| && all[i] == '%'
      ensures i + 2 < |all| && all[i + 1] in UPPERCASE && all[i + 2] in UPPERCASE
    {
      if i < |a| {
        assert a[i] == '%' && all[i + 1] == a[i + 1] && all[i + 2] == a[i + 2];
      } else {
        var j := i - |a|;
        assert b[j] == '%' && all[i + 1] == b[j + 1] && all[i + 2] == b[j + 2];
      }
    }
  }

  lemma UppercaseIsVisible()
    ensures forall i | 0 <= i < 16 :: 0x30 <= UPPERCASE[i] as int <= 0x46
  {
    assert forall i | 0 <= i < 10 :: UPPERCASE[i] as int == 48 + i;
    assert forall i | 10 <= i < 16 :: UPPERCASE[i] as int == 55 + i;
  }

  lemma EscapedByteIsPrintable(table: Table, b: Byte)
    ensures Printable(table, EscapeByte(b))
  {
    UppercaseIsVisible();
    var text := EscapeByte(b);
    assert text[0] == '%';
    assert text[1] == UPPERCASE[b as int / 16] && text[2] == UPPERCASE[b as int % 16];
    AsciiValid(text);
    assert |CodePoints(text)| == 3;
    forall i | 0 <= i < 3 ensures !InTable(table, CodePoints(text)[i]) {
      assert CodePoints(text)[i] == text[i] as int;
      assert 0x21 <= text[i] as int <= 0x7E;
    }
  }

  lemma {:induction false} EscapeIsPrintable(table: Table, source: Bytes)
    ensures Printable(table, Escape(source))
  {
    if source != [] {
      EscapedByteIsPrintable(table, source[0]);
      EscapeIsPrintable(table, source[1..]);
      PrintableConcat(table, EscapeByte(source[0]), Escape(source[1..]));
    }
  }

  lemma RawScalarIsPrintable(table: Table, s: Bytes)
    requires s != [] && FirstStep(s).Scalar? && KeepsRaw(table, FirstStep(s).codePoint)
    ensures Printable(table, s[..FirstStep(s).length])
  {
    ScalarAlone(s);
  }

  lemma {:induction false} EncodingIsPrintable(table: Table, path: Bytes)
    ensures Printable(table, EncodePath(table, path))
  {
    if path != [] {
      hide FirstStep, Printable, Escape;
      match FirstStep(path)
      case Scalar(n, codePoint) =>
        if KeepsRaw(table, codePoint) {
          RawScalarIsPrintable(table, path);
        } else {
          EscapeIsPrintable(table, path[..n]);
        }
        EncodingIsPrintable(table, path[n..]);
        PrintableConcat(table, EncodeScalar(table, path[..n], codePoint), EncodePath(table, path[n..]));
      case Broken(n) =>
        EscapeIsPrintable(table, path[..n]);
        EncodingIsPrintable(table, path[n..]);
        PrintableConcat(table, Escape(path[..n]), EncodePath(table, path[n..]));
      case Truncated =>
        EscapeIsPrintable(table, path);
    }
  }

  /** A printable text holds no byte at or below the space, which is what
      lets lines and fields be split around it. */
  lemma {:induction false} PrintableAboveSpace(table: Table, text: Bytes)
    requires Valid(text)
    requires forall i | 0 <= i < |CodePoints(text)| :: !InTable(table, CodePoints(text)[i])
    ensures forall i | 0 <= i < |text| :: text[i] as int > 0x20
  {
    if text != [] {
      var step := FirstStep(text);
      var rest := text[step.length..];
      assert forall i | 0 <= i < step.length :: text[i] as int > 0x20 by {
        assert CodePoints(text)[0] == step.codePoint;
        assert !InTable(table, CodePoints(text)[0]);
      }
      hide FirstStep;
      assert CodePoints(text) == [step.codePoint] + CodePoints(rest);
      assert forall i | 0 <= i < |CodePoints(rest)| :: CodePoints(rest)[i] == CodePoints(text)[i + 1];
      PrintableAboveSpace(table, rest);
      assert text == text[..step.length] + rest;
    }
  }

  lemma EncodingAboveSpace(table: Table, path: Bytes)
    ensures forall i | 0 <= i < |EncodePath(table, path)| :: EncodePath(table, path)[i] as int > 0x20
  {
    EncodingIsPrintable(table, path);
    PrintableAboveSpace(table, EncodePath(table, path));
  }
}
