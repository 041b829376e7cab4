/** What a path's printable form keeps and what it escapes, byte for byte. */
module PathSpelling {
  import opened Bytes
  import opened Utf8
  import opened UnicodeTable
  import opened PathCodec
  import Hex

  /** A percent sign and two uppercase digits for every byte. */
  ghost predicate Escapes(text: Bytes, source: Bytes) {
    && |text| == 3 * |source|
    && forall i | 0 <= i < |source| :: EscapesByte(text[3 * i..3 * i + 3], source[i])
  }

  predicate EscapesByte(text: Bytes, b: Byte) {
    && |text| == 3 && text[0] == '%'
    && Hex.SpellByte(text[1], text[2], b) && !('a' <= text[1] <= 'z') && !('a' <= text[2] <= 'z')
  }

  lemma OneEscape(b: Byte, text: Bytes)
    ensures text == EscapeByte(b) <==> EscapesByte(text, b)
  {
    if |text| == 3 {
      Hex.ByteSpelled(Hex.UPPERCASE, text[1], text[2], b);
      assert Hex.IsUppercase([text[1], text[2]]) <==> !('a' <= text[1] <= 'z') && !('a' <= text[2] <= 'z') by {
        assert [text[1], text[2]][0] == text[1] && [text[1], text[2]][1] == text[2];
      }
      hide Hex.EncodeByte, Hex.SpellByte, Hex.IsUppercase;
      assert text == [text[0]] + [text[1], text[2]];
      var digits := Hex.EncodeByte(Hex.UPPERCASE, b);
      assert (['%'] + digits)[1..] == digits && text[1..] == [text[1], text[2]];
    }
  }

  lemma {:induction false} EscapeExact(source: Bytes)
    ensures Escapes(Escape(source), source)
  {
    hide EscapesByte, EscapeByte;
    if source != [] {
      var rest := source[1..];
      var text, tail := Escape(source), Escape(rest);
      EscapeExact(rest);
      OneEscape(source[0], EscapeByte(source[0]));
      assert text == EscapeByte(source[0]) + tail;
      assert |EscapeByte(source[0])| == 3;
      forall i | 0 <= i < |source| ensures EscapesByte(text[3 * i..3 * i + 3], source[i]) {
        if i == 0 {
          assert text[0..3] == EscapeByte(source[0]);
        } else {
          assert text[3 * i..3 * i + 3] == tail[3 * (i - 1)..3 * (i - 1) + 3];
          assert rest[i - 1] == source[i];
        }
      }
    }
  }

  /** The character stays as it is: it is not the percent sign, and the table
      does not call it control or separator. */
  ghost predicate StaysRaw(table: seq<Range>, codePoint: nat) {
    codePoint != 0x25 && forall r | r in table :: !(r.first <= codePoint <= r.last)
  }

  lemma RawExact(table: seq<Range>, codePoint: nat)
    ensures KeepsRaw(table, codePoint) <==> StaysRaw(table, codePoint)
  {
    assert '%' as int == 0x25;
    if InTable(table, codePoint) {
      var i :| 0 <= i < |table| && table[i].first <= codePoint <= table[i].last;
      assert table[i] in table;
    }
    if r :| r in table && r.first <= codePoint <= r.last {
      var i :| 0 <= i < |table| && table[i] == r;
    }
  }

  /** How many bytes the printable form takes in at once, and whether it keeps
      them: one character if the text begins with one, otherwise the bytes that
      begin none, or everything if more could complete a character. */
  ghost predicate IsTaken(table: seq<Range>, path: Bytes, n: nat, kept: bool) {
    && 1 <= n <= |path|
    && match FirstStep(path)
       case Scalar(length, codePoint) => n == length && (kept <==> StaysRaw(table, codePoint))
       case Broken(length) => n == length && !kept
       case Truncated => n == |path| && !kept
  }

  /** The printable form goes through the path piece by piece: a piece is kept
      or escaped whole, and the rest follows. */
  lemma EncodePathStep(table: seq<Range>, path: Bytes) returns (n: nat, kept: bool, head: Bytes)
    requires path != []
    ensures IsTaken(table, path, n, kept)
    ensures EncodePath(table, path) == head + EncodePath(table, path[n..])
    ensures if kept then head == path[..n] else Escapes(head, path[..n])
  {
    hide FirstStep, Escape, StaysRaw, InTable, Escapes;
    match FirstStep(path)
    case Scalar(length, codePoint) =>
      RawExact(table, codePoint);
      n, kept, head := length, KeepsRaw(table, codePoint), EncodeScalar(table, path[..length], codePoint);
      EscapeExact(path[..n]);
    case Broken(length) =>
      n, kept, head := length, false, Escape(path[..length]);
      EscapeExact(path[..n]);
    case Truncated =>
      n, kept, head := |path|, false, Escape(path);
      EscapeExact(path);
      assert path[..n] == path && path[n..] == [];
  }

  /** A path stays as it is if and only if it is valid UTF-8 without a percent
      sign and without a character the table selects. */
  lemma {:induction false} UnchangedExact(table: seq<Range>, path: Bytes)
    ensures EncodePath(table, path) == path <==>
            Valid(path) && forall c | c in CodePoints(path) :: StaysRaw(table, c)
    ensures |EncodePath(table, path)| >= |path|
  {
    hide FirstStep, StaysRaw, EncodePath, Escapes;
    if path == [] {
      assert EncodePath(table, path) == [] by { EncodeNothing(table); }
    } else {
      var n, kept, head := EncodePathStep(table, path);
      var rest := path[n..];
      UnchangedExact(table, rest);
      assert path == path[..n] + rest;
      if kept {
        assert EncodePath(table, path) == path <==> EncodePath(table, rest) == rest by {
          assert EncodePath(table, path)[n..] == EncodePath(table, rest);
        }
        if Valid(rest) { assert CodePoints(path) == [FirstStep(path).codePoint] + CodePoints(rest); }
      } else {
        assert |head| == 3 * n by { EscapesLength(head, path[..n]); }
        if Valid(path) { assert CodePoints(path)[0] == FirstStep(path).codePoint; }
      }
    }
  }

  lemma EscapesLength(text: Bytes, source: Bytes)
    requires Escapes(text, source)
    ensures |text| == 3 * |source|
  {
  }

  lemma EncodeNothing(table: seq<Range>)
    ensures EncodePath(table, []) == []
  {
  }

  /** In particular a slash, a letter, anything visible in ASCII but the
      percent sign. */
  lemma VisibleStays(table: Table, path: Bytes)
    requires forall i | 0 <= i < |path| :: 0x21 <= path[i] as int <= 0x7E && path[i] != '%'
    ensures EncodePath(table, path) == path
  {
    AsciiValid(path);
    forall c | c in CodePoints(path) ensures StaysRaw(table, c) {
      var i :| 0 <= i < |CodePoints(path)| && CodePoints(path)[i] == c;
      RawExact(table, c);
    }
    UnchangedExact(table, path);
  }

  /** The text reads as the path: byte for byte, an escape of three for one
      byte, and a percent sign nowhere else. */
  ghost predicate ReadsAs(text: Bytes, path: Bytes)
    decreases |text|
  {
    if text == [] then path == []
    else
      && path != []
      && if text[0] != '%' then path[0] == text[0] && ReadsAs(text[1..], path[1..])
         else |text| >= 3 && EscapesByte(text[..3], path[0]) && ReadsAs(text[3..], path[1..])
  }

  lemma PairExact(text: Bytes, b: Byte)
    requires |text| >= 3 && text[0] == '%'
    ensures Hex.DecodePair(Hex.UPPERCASE, text[1], text[2]) == Some(b) <==> EscapesByte(text[..3], b)
  {
    Hex.AlphabetsAreSound();
    Hex.PairExact(Hex.UPPERCASE, text[1], text[2], b);
    OneEscape(b, text[..3]);
    hide Hex.EncodeByte, Hex.DecodePair, EscapesByte;
    var digits := Hex.EncodeByte(Hex.UPPERCASE, b);
    assert text[..3] == ['%'] + [text[1], text[2]];
    assert (['%'] + digits)[1..] == digits && text[..3][1..] == [text[1], text[2]];
  }

  lemma {:induction false} DecodeTextExact(text: Bytes, path: Bytes)
    ensures DecodeText(text) == Some(path) <==> ReadsAs(text, path)
    decreases |text|
  {
    hide Hex.DecodePair, EscapesByte;
    if text != [] {
      var step := if text[0] == '%' then 3 else 1;
      if path == [] {
        DecodesNonEmpty(text);
      } else if |text| >= step {
        DecodeTextExact(text[step..], path[1..]);
        assert path == [path[0]] + path[1..];
        if step == 3 { PairExact(text, path[0]); }
        var rest := DecodeText(text[step..]);
        if rest.Some? { PrependedExact(rest.value, path); }
      }
    }
  }

  lemma PrependedExact(rest: Bytes, path: Bytes)
    requires path != []
    ensures forall b: Byte :: [b] + rest == path <==> b == path[0] && rest == path[1..]
  {
    forall b: Byte ensures [b] + rest == path <==> b == path[0] && rest == path[1..] {
      assert ([b] + rest)[1..] == rest && path == [path[0]] + path[1..];
    }
  }

  lemma DecodesNonEmpty(text: Bytes)
    requires text != []
    ensures DecodeText(text) != Some([])
  {
  }

  /** A field decodes exactly when it is not empty and every percent sign in it
      opens an escape of two uppercase digits. */
  lemma DecodePathExact(text: Bytes, path: Bytes)
    ensures DecodePath(text) == Some(path) <==> path != [] && ReadsAs(text, path)
  {
    hide ReadsAs, DecodeText;
    DecodeTextExact(text, path);
  }
}
