/** Hexadecimal spelling of payload bytes in exactly one alphabet per
    context: lowercase for hashes, uppercase for path escapes. */
module Hex {
  import opened Bytes
  import opened Sorting

  const LOWERCASE: Bytes := "0123456789abcdef"
  const UPPERCASE: Bytes := "0123456789ABCDEF"

  /** Sixteen distinct digit spellings in value order. */
  predicate IsAlphabet(alphabet: Bytes) {
    |alphabet| == 16 && Distinct(alphabet)
  }

  lemma AlphabetsAreSound()
    ensures IsAlphabet(LOWERCASE) && IsAlphabet(UPPERCASE)
  {
    assert forall i | 0 <= i < 10 :: LOWERCASE[i] as int == 48 + i && UPPERCASE[i] as int == 48 + i;
    assert forall i | 10 <= i < 16 :: LOWERCASE[i] as int == 87 + i && UPPERCASE[i] as int == 55 + i;
  }

  /** The position of `digit` in `digits`, as Rust's `position` finds it. */
  function Position(digits: Bytes, digit: Byte): (value: Option<nat>)
    ensures value.Some? ==> value.value < |digits| && digits[value.value] == digit
    ensures value.None? ==> digit !in digits
  {
    if digits == [] then None
    else if digits[0] == digit then Some(0)
    else
      match Position(digits[1..], digit)
      case None => None
      case Some(later) => Some(later + 1)
  }

  function DigitValue(alphabet: Bytes, digit: Byte): Option<nat> {
    Position(alphabet, digit)
  }

  function EncodeByte(alphabet: Bytes, payload: Byte): (text: Bytes)
    requires |alphabet| == 16
    ensures |text| == 2
  {
    [alphabet[payload as int / 16], alphabet[payload as int % 16]]
  }

  function Encode(alphabet: Bytes, payload: Bytes): (text: Bytes)
    requires |alphabet| == 16
    ensures |text| == 2 * |payload|
  {
    if payload == [] then []
    else EncodeByte(alphabet, payload[0]) + Encode(alphabet, payload[1..])
  }

  function DecodePair(alphabet: Bytes, high: Byte, low: Byte): (payload: Option<Byte>)
    requires |alphabet| == 16
  {
    match (DigitValue(alphabet, high), DigitValue(alphabet, low))
    case (Some(h), Some(l)) => Some((h * 16 + l) as char)
    case _ => None
  }

  /** The bytes `text` spells: `None` unless every pair of digits belongs to
      the alphabet and the length is exactly `count` bytes. */
  function DecodePairs(alphabet: Bytes, text: Bytes): (payload: Option<Bytes>)
    requires |alphabet| == 16
    ensures payload.Some? ==> 2 * |payload.value| == |text|
  {
    if text == [] then Some([])
    else if |text| == 1 then None
    else
      match (DecodePair(alphabet, text[0], text[1]), DecodePairs(alphabet, text[2..]))
      case (Some(first), Some(rest)) => Some([first] + rest)
      case _ => None
  }

  function Decode(alphabet: Bytes, text: Bytes, count: nat): (payload: Option<Bytes>)
    requires |alphabet| == 16
    ensures payload.Some? ==> |payload.value| == count
  {
    if |text| != count * 2 then None else DecodePairs(alphabet, text)
  }

  lemma PairRoundTrip(alphabet: Bytes, payload: Byte)
    requires IsAlphabet(alphabet)
    ensures DecodePair(alphabet, EncodeByte(alphabet, payload)[0], EncodeByte(alphabet, payload)[1]) == Some(payload)
  {
    var text := EncodeByte(alphabet, payload);
    var high, low := DigitValue(alphabet, text[0]), DigitValue(alphabet, text[1]);
    assert text[0] in alphabet && text[1] in alphabet;
    assert high.value == payload as int / 16 && low.value == payload as int % 16;
  }

  /** Decoding inverts encoding exactly: a text decodes to a payload if and
      only if it is that payload's one spelling. */
  lemma {:induction false} DecodePairsExact(alphabet: Bytes, text: Bytes, payload: Bytes)
    requires IsAlphabet(alphabet)
    ensures DecodePairs(alphabet, text) == Some(payload) <==> text == Encode(alphabet, payload)
  {
    if |text| >= 2 {
      var first := DecodePair(alphabet, text[0], text[1]);
      if first.Some? {
        assert text[..2] == EncodeByte(alphabet, first.value);
        assert text == text[..2] + text[2..];
      }
      if payload != [] {
        DecodePairsExact(alphabet, text[2..], payload[1..]);
        PairRoundTrip(alphabet, payload[0]);
        assert payload == [payload[0]] + payload[1..];
      }
    }
  }

  lemma DecodeExact(alphabet: Bytes, text: Bytes, count: nat, payload: Bytes)
    requires IsAlphabet(alphabet)
    ensures Decode(alphabet, text, count) == Some(payload) <==> |payload| == count && text == Encode(alphabet, payload)
  {
    DecodePairsExact(alphabet, text, payload);
  }

  lemma {:induction false} EncodeInAlphabet(alphabet: Bytes, payload: Bytes)
    requires |alphabet| == 16
    ensures forall i | 0 <= i < |Encode(alphabet, payload)| :: Encode(alphabet, payload)[i] in alphabet
  {
    if payload != [] { EncodeInAlphabet(alphabet, payload[1..]); }
  }

  lemma {:induction false} DecodePairsSplit(alphabet: Bytes, head: Bytes, tail: Bytes)
    requires |alphabet| == 16 && |head| % 2 == 0
    ensures DecodePairs(alphabet, head + tail) ==
            match (DecodePairs(alphabet, head), DecodePairs(alphabet, tail))
            case (Some(a), Some(b)) => Some(a + b)
            case _ => None
  {
    if head == [] {
      assert head + tail == tail;
      assert forall b: Bytes :: [] + b == b;
    } else {
      var all := head + tail;
      assert all[2..] == head[2..] + tail && all[0] == head[0] && all[1] == head[1];
      DecodePairsSplit(alphabet, head[2..], tail);
      assert forall x: Bytes, y: Bytes, z: Bytes :: (x + y) + z == x + (y + z);
    }
  }

  lemma OnePair(alphabet: Bytes, pair: Bytes)
    requires |alphabet| == 16 && |pair| == 2
    ensures DecodePairs(alphabet, pair) ==
            match DecodePair(alphabet, pair[0], pair[1])
            case Some(b) => Some([b])
            case None => None
  {
    assert pair[2..] == [];
    var first := DecodePair(alphabet, pair[0], pair[1]);
    if first.Some? { assert [first.value] + [] == [first.value]; }
  }

  /** Two digits decode to a byte exactly when they are its encoding. */
  lemma PairExact(alphabet: Bytes, high: Byte, low: Byte, payload: Byte)
    requires IsAlphabet(alphabet)
    ensures DecodePair(alphabet, high, low) == Some(payload) <==> EncodeByte(alphabet, payload) == [high, low]
  {
    var pair := DecodePair(alphabet, high, low);
    PairRoundTrip(alphabet, payload);
    if pair == Some(payload) {
      var h, l := DigitValue(alphabet, high).value, DigitValue(alphabet, low).value;
      HighAndLow(payload as int, h, l);
    }
  }

  lemma NextPair(alphabet: Bytes, text: Bytes, slot: nat)
    requires |alphabet| == 16 && 2 * slot + 2 <= |text| && DecodePairs(alphabet, text[..2 * slot]).Some?
    ensures DecodePairs(alphabet, text[..2 * (slot + 1)]) ==
            match DecodePair(alphabet, text[2 * slot], text[2 * slot + 1])
            case Some(b) => Some(DecodePairs(alphabet, text[..2 * slot]).value + [b])
            case None => None
    ensures DecodePair(alphabet, text[2 * slot], text[2 * slot + 1]).None? ==> DecodePairs(alphabet, text).None?
  {
    hide DecodePairs, DecodePair;
    var pair, upTo := text[2 * slot..2 * slot + 2], 2 * (slot + 1);
    assert text[..upTo] == text[..2 * slot] + pair;
    OnePair(alphabet, pair);
    DecodePairsSplit(alphabet, text[..2 * slot], pair);
    assert text == text[..upTo] + text[upTo..];
    DecodePairsSplit(alphabet, text[..upTo], text[upTo..]);
  }

  lemma EmptyText(alphabet: Bytes)
    requires |alphabet| == 16
    ensures DecodePairs(alphabet, []) == Some([])
  {
  }

  /** Fills the decoded array slot by slot. */
  method DecodeInto(alphabet: Bytes, text: Bytes, count: nat) returns (payload: Option<Bytes>)
    requires |alphabet| == 16
    ensures payload == Decode(alphabet, text, count)
  {
    if |text| != count * 2 { return None; }
    hide DecodePairs, DigitValue, Position;
    var decoded := new Byte[count];
    assert DecodePairs(alphabet, text[..0]) == Some(decoded[..0]) by { EmptyText(alphabet); }
    var slot := 0;
    while slot < count
      invariant 0 <= slot <= count
      invariant DecodePairs(alphabet, text[..2 * slot]) == Some(decoded[..slot])
    {
      var pair := text[2 * slot..2 * slot + 2];
      var high := DigitValue(alphabet, pair[0]);
      var low := DigitValue(alphabet, pair[1]);
      NextPair(alphabet, text, slot);
      if high.None? || low.None? { return None; }
      ghost var before := decoded[..slot];
      decoded[slot] := (high.value * 16 + low.value) as char;
      assert decoded[..slot + 1] == before + [decoded[slot]];
      slot := slot + 1;
    }
    assert text[..2 * count] == text && decoded[..count] == decoded[..];
    return Some(decoded[..]);
  }

  // ----- the digits by their values -----

  /** The value of a hexadecimal digit of either case. */
  function ValueOf(digit: Byte): Option<nat> {
    if '0' <= digit <= '9' then Some(digit as int - 0x30)
    else if 'a' <= digit <= 'f' then Some(digit as int - 0x61 + 10)
    else if 'A' <= digit <= 'F' then Some(digit as int - 0x41 + 10)
    else None
  }

  /** Two digits spell a byte, the high one first. */
  predicate SpellByte(high: Byte, low: Byte, b: Byte) {
    ValueOf(high).Some? && ValueOf(low).Some? && b as int == ValueOf(high).value * 16 + ValueOf(low).value
  }

  ghost predicate Spells(text: Bytes, payload: Bytes) {
    && |text| == 2 * |payload|
    && forall i | 0 <= i < |payload| :: SpellByte(text[2 * i], text[2 * i + 1], payload[i])
  }

  ghost predicate IsLowercase(text: Bytes) {
    forall i | 0 <= i < |text| :: !('A' <= text[i] <= 'Z')
  }

  ghost predicate IsUppercase(text: Bytes) {
    forall i | 0 <= i < |text| :: !('a' <= text[i] <= 'z')
  }

  lemma DigitsOfValue(alphabet: Bytes, digit: Byte, value: nat)
    requires alphabet == LOWERCASE || alphabet == UPPERCASE
    requires value < 16
    ensures alphabet == LOWERCASE ==>
              (alphabet[value] == digit <==> ValueOf(digit) == Some(value) && !('A' <= digit <= 'Z'))
    ensures alphabet == UPPERCASE ==>
              (alphabet[value] == digit <==> ValueOf(digit) == Some(value) && !('a' <= digit <= 'z'))
  {
    assert forall i | 0 <= i < 10 :: LOWERCASE[i] as int == 48 + i && UPPERCASE[i] as int == 48 + i;
    assert forall i | 10 <= i < 16 :: LOWERCASE[i] as int == 87 + i && UPPERCASE[i] as int == 55 + i;
  }

  lemma HighAndLow(b: nat, high: nat, low: nat)
    requires high < 16 && low < 16
    ensures b == high * 16 + low <==> high == b / 16 && low == b % 16
  {
  }

  lemma ByteSpelled(alphabet: Bytes, high: Byte, low: Byte, b: Byte)
    requires alphabet == LOWERCASE || alphabet == UPPERCASE
    ensures alphabet == LOWERCASE ==>
              (EncodeByte(alphabet, b) == [high, low] <==> SpellByte(high, low, b) && IsLowercase([high, low]))
    ensures alphabet == UPPERCASE ==>
              (EncodeByte(alphabet, b) == [high, low] <==> SpellByte(high, low, b) && IsUppercase([high, low]))
  {
    var n := b as int;
    DigitsOfValue(alphabet, high, n / 16);
    DigitsOfValue(alphabet, low, n % 16);
    hide LOWERCASE, UPPERCASE;
    assert EncodeByte(alphabet, b) == [high, low] <==> alphabet[n / 16] == high && alphabet[n % 16] == low by {
      assert EncodeByte(alphabet, b)[0] == alphabet[n / 16] && EncodeByte(alphabet, b)[1] == alphabet[n % 16];
      hide ValueOf;
    }
    hide EncodeByte;
    assert [high, low][0] == high && [high, low][1] == low;
    ValuesAreDigits(high);
    ValuesAreDigits(low);
    hide ValueOf;
    if ValueOf(high).Some? && ValueOf(low).Some? { HighAndLow(n, ValueOf(high).value, ValueOf(low).value); }
  }

  lemma ValuesAreDigits(digit: Byte)
    ensures ValueOf(digit).Some? ==> ValueOf(digit).value < 16
  {
  }

  /** A text is a payload's encoding exactly when its digits have the bytes'
      values, high digit first, in the alphabet's case. */
  lemma {:induction false} EncodedExact(alphabet: Bytes, text: Bytes, payload: Bytes)
    requires alphabet == LOWERCASE || alphabet == UPPERCASE
    ensures alphabet == LOWERCASE ==>
              (text == Encode(alphabet, payload) <==> Spells(text, payload) && IsLowercase(text))
    ensures alphabet == UPPERCASE ==>
              (text == Encode(alphabet, payload) <==> Spells(text, payload) && IsUppercase(text))
  {
    hide EncodeByte, SpellByte, LOWERCASE, UPPERCASE;
    if payload != [] && |text| >= 2 {
      var rest, tail := payload[1..], text[2..];
      EncodedExact(alphabet, tail, rest);
      ByteSpelled(alphabet, text[0], text[1], payload[0]);
      assert text == [text[0], text[1]] + tail;
      assert text[..2] == [text[0], text[1]];
      assert forall i | 0 <= i < |tail| :: tail[i] == text[i + 2];
      assert forall i | 0 < i < |payload| :: payload[i] == rest[i - 1];
      SpellsStep(text, payload);
    }
  }

  lemma SpellsStep(text: Bytes, payload: Bytes)
    requires payload != [] && |text| >= 2
    ensures Spells(text, payload) <==> SpellByte(text[0], text[1], payload[0]) && Spells(text[2..], payload[1..])
  {
    hide SpellByte;
    var rest, tail := payload[1..], text[2..];
    if Spells(text, payload) {
      assert SpellByte(text[2 * 0], text[2 * 0 + 1], payload[0]);
      forall i | 0 <= i < |rest| ensures SpellByte(tail[2 * i], tail[2 * i + 1], rest[i]) {
        assert SpellByte(text[2 * (i + 1)], text[2 * (i + 1) + 1], payload[i + 1]);
      }
    }
    if SpellByte(text[0], text[1], payload[0]) && Spells(tail, rest) {
      forall i | 0 <= i < |payload| ensures SpellByte(text[2 * i], text[2 * i + 1], payload[i]) {
        if i > 0 { assert SpellByte(tail[2 * (i - 1)], tail[2 * (i - 1) + 1], rest[i - 1]); }
      }
    }
  }
}
