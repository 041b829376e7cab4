/** The UTF-8 encoder of section 3 of RFC 3629, and the validator measured
    against it: which bytes it takes for a character, and where it stops. */
module Utf8Encoding {
  import opened Bytes
  import opened Utf8

  /** Code points UTF-8 encodes: up to U+10FFFF, without the surrogates. */
  predicate IsScalarValue(c: nat) {
    c <= 0x10FFFF && !(0xD800 <= c <= 0xDFFF)
  }

  /** The lead octet, and a continuation octet with six bits of the number. */
  function Lead(mark: nat, bits: nat): Byte
    requires mark + bits < 256
  {
    (mark + bits) as char
  }

  function Six(bits: nat): Byte { (0x80 + bits % 0x40) as char }

  /** One to four octets by the size of the number, six bits in each
      continuation octet. */
  function Encoded(c: nat): (octets: Bytes)
    requires IsScalarValue(c)
    ensures 1 <= |octets| <= 4
  {
    if c < 0x80 then [Lead(0, c)]
    else if c < 0x800 then [Lead(0xC0, c / 0x40), Six(c)]
    else if c < 0x10000 then [Lead(0xE0, c / 0x40 / 0x40), Six(c / 0x40), Six(c)]
    else [Lead(0xF0, c / 0x40 / 0x40 / 0x40), Six(c / 0x40 / 0x40), Six(c / 0x40), Six(c)]
  }

  lemma Sixes(c: nat, high: nat, low: nat)
    requires c == high * 0x40 + low && low < 0x40
    ensures c / 0x40 == high && c % 0x40 == low
  {
  }

  // ----- characters -----

  lemma TwoEncode(a: nat, b: nat)
    requires 2 <= a < 0x20 && b < 0x40
    ensures IsScalarValue(a * 0x40 + b)
    ensures Encoded(a * 0x40 + b) == [Lead(0xC0, a), (0x80 + b) as char]
  {
    Sixes(a * 0x40 + b, a, b);
  }

  lemma ThreeEncode(a: nat, b: nat, c: nat)
    requires a < 0x10 && b < 0x40 && c < 0x40 && (a == 0 ==> b >= 0x20) && (a == 0xD ==> b < 0x20)
    ensures IsScalarValue((a * 0x40 + b) * 0x40 + c)
    ensures Encoded((a * 0x40 + b) * 0x40 + c) == [Lead(0xE0, a), (0x80 + b) as char, (0x80 + c) as char]
  {
    Sixes(a * 0x40 + b, a, b);
    Sixes((a * 0x40 + b) * 0x40 + c, a * 0x40 + b, c);
  }

  lemma FourEncode(a: nat, b: nat, c: nat, d: nat)
    requires a <= 4 && b < 0x40 && c < 0x40 && d < 0x40 && (a == 0 ==> b >= 0x10) && (a == 4 ==> b < 0x10)
    ensures IsScalarValue(((a * 0x40 + b) * 0x40 + c) * 0x40 + d)
    ensures Encoded(((a * 0x40 + b) * 0x40 + c) * 0x40 + d)
            == [Lead(0xF0, a), (0x80 + b) as char, (0x80 + c) as char, (0x80 + d) as char]
  {
    Sixes(a * 0x40 + b, a, b);
    Sixes((a * 0x40 + b) * 0x40 + c, a * 0x40 + b, c);
    Sixes(((a * 0x40 + b) * 0x40 + c) * 0x40 + d, (a * 0x40 + b) * 0x40 + c, d);
  }

  /** What is taken for a character is that character's encoding. */
  lemma ScalarEncodes(s: Bytes)
    requires s != [] && FirstStep(s).Scalar?
    ensures IsScalarValue(FirstStep(s).codePoint) && Encoded(FirstStep(s).codePoint) == s[..FirstStep(s).length]
  {
    hide Encoded, IsScalarValue;
    var a, n := s[0] as int, FirstStep(s).length;
    if n == 1 {
      AsciiEncodes(a);
    } else if n == 2 {
      TwoEncode(a - 0xC0, s[1] as int - 0x80);
    } else if n == 3 {
      ThreeEncode(a - 0xE0, s[1] as int - 0x80, s[2] as int - 0x80);
    } else {
      FourEncode(a - 0xF0, s[1] as int - 0x80, s[2] as int - 0x80, s[3] as int - 0x80);
    }
  }

  lemma AsciiEncodes(a: nat)
    requires a < 0x80
    ensures IsScalarValue(a) && Encoded(a) == [a as char]
  {
  }

  lemma EncodedLengths(c: nat)
    requires IsScalarValue(c)
    ensures |Encoded(c)| == if c < 0x80 then 1 else if c < 0x800 then 2 else if c < 0x10000 then 3 else 4
  {
  }

  /** The octets of an encoding, and how they fit together. */
  lemma TwoOctets(c: nat)
    requires 0x80 <= c < 0x800
    ensures var s := Encoded(c);
            && 0xC2 <= s[0] as int <= 0xDF && IsContinuation(s[1])
            && c == (s[0] as int - 0xC0) * 0x40 + (s[1] as int - 0x80)
  {
  }

  lemma ThreeOctets(c: nat)
    requires IsScalarValue(c) && 0x800 <= c < 0x10000
    ensures var s := Encoded(c);
            && 0xE0 <= s[0] as int <= 0xEF && SecondFits(s[0], s[1]) && IsContinuation(s[2])
            && c == (s[0] as int - 0xE0) * 0x1000 + (s[1] as int - 0x80) * 0x40 + (s[2] as int - 0x80)
  {
    var high := c / 0x40;
    assert c == high * 0x40 + c % 0x40 && high == high / 0x40 * 0x40 + high % 0x40;
  }

  lemma FourOctets(c: nat)
    requires IsScalarValue(c) && 0x10000 <= c
    ensures var s := Encoded(c);
            && 0xF0 <= s[0] as int <= 0xF4 && SecondFits(s[0], s[1]) && IsContinuation(s[2]) && IsContinuation(s[3])
            && c == (s[0] as int - 0xF0) * 0x40000 + (s[1] as int - 0x80) * 0x1000 + (s[2] as int - 0x80) * 0x40
                    + (s[3] as int - 0x80)
  {
    var high := c / 0x40;
    var top := high / 0x40;
    assert c == high * 0x40 + c % 0x40 && high == top * 0x40 + high % 0x40 && top == top / 0x40 * 0x40 + top % 0x40;
  }

  /** Every encoding is taken for its character, whatever follows it. */
  lemma EncodedIsScalar(c: nat, rest: Bytes)
    requires IsScalarValue(c)
    ensures FirstStep(Encoded(c) + rest) == Scalar(|Encoded(c)|, c)
  {
    var s := Encoded(c) + rest;
    EncodedLengths(c);
    if c < 0x80 {
      AsciiEncodes(c);
    } else if c < 0x800 {
      TwoOctets(c);
    } else if c < 0x10000 {
      ThreeOctets(c);
    } else {
      FourOctets(c);
    }
    hide Encoded;
    assert forall i | 0 <= i < |Encoded(c)| :: s[i] == Encoded(c)[i];
  }

  /** A character stands at the front exactly when its encoding does. */
  lemma ScalarExact(s: Bytes, c: nat)
    requires s != [] && IsScalarValue(c)
    ensures FirstStep(s) == Scalar(|Encoded(c)|, c) <==> Encoded(c) <= s
  {
    hide FirstStep, Encoded, IsScalarValue;
    if Encoded(c) <= s {
      EncodedIsScalar(c, s[|Encoded(c)|..]);
      assert Encoded(c) + s[|Encoded(c)|..] == s;
    }
    if FirstStep(s) == Scalar(|Encoded(c)|, c) { ScalarEncodes(s); }
  }

  // ----- where a text breaks -----

  /** Some character's encoding begins like this and goes on. */
  ghost predicate Begins(s: Bytes) {
    exists c :: IsScalarValue(c) && s < Encoded(c)
  }

  /** A sequence that stopped too early, carried on to a character. */
  function Completion(s: Bytes): (rest: Bytes)
    requires s != []
  {
    var n := SequenceLength(s[0]);
    var second: Byte := if s[0] as int == 0xE0 then 0xA0 as char else if s[0] as int == 0xF0 then 0x90 as char
                        else 0x80 as char;
    if n == 2 then [0x80 as char]
    else if n == 3 then if |s| == 1 then [second, 0x80 as char] else [0x80 as char]
    else if |s| == 1 then [second, 0x80 as char, 0x80 as char]
    else if |s| == 2 then [0x80 as char, 0x80 as char] else [0x80 as char]
  }

  lemma CompletedIsScalar(s: Bytes)
    requires s != [] && FirstStep(s).Truncated?
    ensures FirstStep(s + Completion(s)).Scalar? && FirstStep(s + Completion(s)).length == |s + Completion(s)|
    ensures Completion(s) != []
  {
    var whole := s + Completion(s);
    assert forall i | 0 <= i < |s| :: whole[i] == s[i];
  }

  /** The input ends mid-sequence exactly when more of it could make it a
      character. */
  lemma TruncatedExact(s: Bytes)
    requires s != []
    ensures FirstStep(s).Truncated? <==> Begins(s)
  {
    if FirstStep(s).Truncated? {
      hide FirstStep, Encoded, IsScalarValue, Completion;
      CompletedIsScalar(s);
      var whole := s + Completion(s);
      ScalarEncodes(whole);
      assert whole[..|whole|] == whole;
      assert s < Encoded(FirstStep(whole).codePoint);
    }
    if c :| IsScalarValue(c) && s < Encoded(c) { BeginningIsTruncated(s, c); }
  }

  lemma BeginningIsTruncated(s: Bytes, c: nat)
    requires s != [] && IsScalarValue(c) && s < Encoded(c)
    ensures FirstStep(s).Truncated?
  {
    EncodedLengths(c);
    if c < 0x80 {
    } else if c < 0x800 {
      TwoOctets(c);
    } else if c < 0x10000 {
      ThreeOctets(c);
    } else {
      FourOctets(c);
    }
    var whole := Encoded(c);
    hide Encoded;
    assert forall i | 0 <= i < |s| :: s[i] == whole[i];
  }

  /** A broken sequence takes the bytes that could still have begun a
      character, and at least one. */
  lemma BrokenExact(s: Bytes)
    requires s != [] && FirstStep(s).Broken?
    ensures var n := FirstStep(s).length;
            && (n > 1 ==> Begins(s[..n]))
            && forall m | n < m <= |s| :: !Begins(s[..m])
    ensures !Begins(s) && forall c | IsScalarValue(c) :: !(Encoded(c) <= s)
  {
    var n := FirstStep(s).length;
    if n > 1 {
      assert FirstStep(s[..n]).Truncated?;
      TruncatedExact(s[..n]);
    }
    forall m | n < m <= |s| ensures !Begins(s[..m]) {
      assert FirstStep(s[..m]).Broken?;
      hide FirstStep;
      TruncatedExact(s[..m]);
    }
    hide FirstStep;
    TruncatedExact(s);
    forall c | IsScalarValue(c) ensures !(Encoded(c) <= s) { ScalarExact(s, c); }
  }

  // ----- whole texts -----

  function EncodedAll(codePoints: seq<nat>): Bytes
    requires forall c | c in codePoints :: IsScalarValue(c)
  {
    if codePoints == [] then [] else Encoded(codePoints[0]) + EncodedAll(codePoints[1..])
  }

  /** A text is valid exactly when it is the encoding of some characters, and
      those are the code points it spells. */
  lemma {:induction false} ValidExact(s: Bytes, codePoints: seq<nat>)
    requires forall c | c in codePoints :: IsScalarValue(c)
    ensures Valid(s) && CodePoints(s) == codePoints <==> s == EncodedAll(codePoints)
    decreases |codePoints|
  {
    hide FirstStep, Encoded, IsScalarValue;
    if codePoints != [] {
      var c, rest := codePoints[0], codePoints[1..];
      assert codePoints == [c] + rest;
      var n := |Encoded(c)|;
      if s == EncodedAll(codePoints) {
        EncodedIsScalar(c, EncodedAll(rest));
        assert s[n..] == EncodedAll(rest);
        ValidExact(s[n..], rest);
        assert CodePoints(s) == [c] + CodePoints(s[n..]);
      }
      if Valid(s) && CodePoints(s) == codePoints {
        var step := FirstStep(s);
        ScalarEncodes(s);
        assert CodePoints(s)[0] == step.codePoint && CodePoints(s)[1..] == CodePoints(s[step.length..]);
        ValidExact(s[step.length..], rest);
        assert s == s[..step.length] + s[step.length..];
      }
    }
  }

  lemma {:induction false} SpelledAreScalars(s: Bytes)
    requires Valid(s)
    ensures forall c | c in CodePoints(s) :: IsScalarValue(c)
  {
    hide FirstStep, IsScalarValue;
    if s != [] {
      ScalarEncodes(s);
      SpelledAreScalars(s[FirstStep(s).length..]);
    }
  }
}
