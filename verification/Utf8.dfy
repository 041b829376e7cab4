/** UTF-8 validity as Rust's `str::from_utf8` decides it (section 4 of RFC
    3629): the valid prefix, and the length of the first broken sequence. */
module Utf8 {
  import opened Bytes

  /** What stands at the front of a non-empty byte string. */
  datatype Step =
    | Scalar(length: nat, codePoint: nat)
    | Broken(length: nat)   // `error_len` is `Some(length)`
    | Truncated             // `error_len` is `None`: the input ends mid-sequence

  predicate IsContinuation(b: Byte) { 0x80 <= b as int <= 0xBF }

  function SequenceLength(first: Byte): nat {
    if first as int < 0x80 then 1
    else if 0xC2 <= first as int <= 0xDF then 2
    else if 0xE0 <= first as int <= 0xEF then 3
    else if 0xF0 <= first as int <= 0xF4 then 4
    else 0
  }

  /** Which second bytes may follow the first one of a three- or four-byte
      sequence: overlong forms, surrogates and code points past U+10FFFF
      are refused here. */
  predicate SecondFits(first: Byte, second: Byte) {
    var s := second as int;
    if first as int == 0xE0 then 0xA0 <= s <= 0xBF
    else if first as int == 0xED then 0x80 <= s <= 0x9F
    else if first as int == 0xF0 then 0x90 <= s <= 0xBF
    else if first as int == 0xF4 then 0x80 <= s <= 0x8F
    else 0x80 <= s <= 0xBF
  }

  function FirstStep(s: Bytes): (step: Step)
    requires s != []
    ensures !step.Truncated? ==> 1 <= step.length <= |s|
  {
    var a := s[0] as int;
    match SequenceLength(s[0])
    case 1 => Scalar(1, a)
    case 2 =>
      if |s| < 2 then Truncated
      else if !IsContinuation(s[1]) then Broken(1)
      else Scalar(2, (a - 0xC0) * 0x40 + (s[1] as int - 0x80))
    case 3 =>
      if |s| < 2 then Truncated
      else if !SecondFits(s[0], s[1]) then Broken(1)
      else if |s| < 3 then Truncated
      else if !IsContinuation(s[2]) then Broken(2)
      else Scalar(3, (a - 0xE0) * 0x1000 + (s[1] as int - 0x80) * 0x40 + (s[2] as int - 0x80))
    case 4 =>
      if |s| < 2 then Truncated
      else if !SecondFits(s[0], s[1]) then Broken(1)
      else if |s| < 3 then Truncated
      else if !IsContinuation(s[2]) then Broken(2)
      else if |s| < 4 then Truncated
      else if !IsContinuation(s[3]) then Broken(3)
      else Scalar(4, (a - 0xF0) * 0x40000 + (s[1] as int - 0x80) * 0x1000
                     + (s[2] as int - 0x80) * 0x40 + (s[3] as int - 0x80))
    case _ => Broken(1)
  }

  predicate Valid(s: Bytes) {
    s == [] || var step := FirstStep(s);
               step.Scalar? && Valid(s[step.length..])
  }

  /** The code points a valid text spells. */
  function CodePoints(s: Bytes): seq<nat>
    requires Valid(s)
  {
    if s == [] then []
    else
      var step := FirstStep(s);
      [step.codePoint] + CodePoints(s[step.length..])
  }

  /** `valid_up_to`: the length of the longest valid prefix. */
  function ValidUpTo(s: Bytes): (upTo: nat)
    ensures upTo <= |s|
  {
    if s == [] then 0
    else
      var step := FirstStep(s);
      if step.Scalar? then step.length + ValidUpTo(s[step.length..]) else 0
  }

  /** Sequences are recognised by their own bytes alone. */
  lemma ScalarExtends(s: Bytes, rest: Bytes)
    requires s != [] && FirstStep(s).Scalar?
    ensures FirstStep(s + rest) == FirstStep(s)
  {
    var n := FirstStep(s).length;
    assert forall i | 0 <= i < |s| :: (s + rest)[i] == s[i];
  }

  lemma ScalarOfPrefix(s: Bytes, upTo: nat)
    requires s != [] && FirstStep(s).Scalar? && FirstStep(s).length <= upTo <= |s|
    ensures FirstStep(s[..upTo]) == FirstStep(s)
  {
    assert forall i | 0 <= i < upTo :: s[..upTo][i] == s[i];
  }

  lemma {:induction false} ValidConcat(a: Bytes, b: Bytes)
    requires Valid(a) && Valid(b)
    ensures Valid(a + b)
    ensures CodePoints(a + b) == CodePoints(a) + CodePoints(b)
  {
    hide FirstStep;
    if a == [] {
      assert a + b == b;
    } else {
      var n := FirstStep(a).length;
      ScalarExtends(a, b);
      assert (a + b)[n..] == a[n..] + b;
      ValidConcat(a[n..], b);
    }
  }

  /** Printable ASCII is valid as it stands. */
  lemma {:induction false} AsciiValid(s: Bytes)
    requires forall i | 0 <= i < |s| :: s[i] as int < 0x80
    ensures Valid(s) && |CodePoints(s)| == |s|
    ensures forall i | 0 <= i < |s| :: CodePoints(s)[i] == s[i] as int
  {
    if s != [] {
      AsciiValid(s[1..]);
      assert CodePoints(s) == [s[0] as int] + CodePoints(s[1..]);
    }
  }

  /** The prefix `valid_up_to` measures is valid, and what follows it (if
      anything) is not a scalar. */
  lemma {:induction false} ValidPrefix(s: Bytes)
    ensures Valid(s[..ValidUpTo(s)])
    ensures ValidUpTo(s) < |s| ==> !FirstStep(s[ValidUpTo(s)..]).Scalar?
    ensures ValidUpTo(s) == |s| <==> Valid(s)
  {
    hide FirstStep, CodePoints;
    if s != [] && FirstStep(s).Scalar? {
      var n := FirstStep(s).length;
      var rest := s[n..];
      var up := ValidUpTo(rest);
      ValidPrefix(rest);
      assert rest[..up] == s[n..n + up] && rest[up..] == s[n + up..];
      var first := s[..n];
      ScalarOfPrefix(s, n);
      assert Valid(first) by { assert first[n..] == []; }
      ValidConcat(first, rest[..up]);
      assert s[..n + up] == first + rest[..up];
    }
  }

  lemma {:induction false} ScalarAlone(s: Bytes)
    requires s != [] && FirstStep(s).Scalar?
    ensures Valid(s[..FirstStep(s).length])
    ensures CodePoints(s[..FirstStep(s).length]) == [FirstStep(s).codePoint]
  {
    var n := FirstStep(s).length;
    assert FirstStep(s[..n]) == FirstStep(s);
    assert s[..n][n..] == [];
  }
}
