/** What a stamped message says: which lines it keeps, where it is trimmed,
    when it joins a trailer block, and the trailers it ends with. */
module TrailerMeaning {
  import opened ManifestModel
  import opened Trailers
  import Hex

  /** White_Space by its code points. */
  lemma WhitespaceExact(c: char)
    ensures IsWhitespace(c) <==>
            var n := c as int;
            || 0x09 <= n <= 0x0D || n == 0x20 || n == 0x85 || n == 0xA0 || n == 0x1680 || 0x2000 <= n <= 0x200A
            || n == 0x2028 || n == 0x2029 || n == 0x202F || n == 0x205F || n == 0x3000
  {
    var listed := "\t\n\U{0B}\U{0C}\r \U{85}\U{A0}\U{1680}\U{2028}\U{2029}\U{202F}\U{205F}\U{3000}";
    assert |listed| == 14;
    assert listed[0] as int == 0x09 && listed[1] as int == 0x0A && listed[2] as int == 0x0B && listed[3] as int == 0x0C
           && listed[4] as int == 0x0D && listed[5] as int == 0x20 && listed[6] as int == 0x85;
    assert listed[7] as int == 0xA0 && listed[8] as int == 0x1680 && listed[9] as int == 0x2028
           && listed[10] as int == 0x2029 && listed[11] as int == 0x202F && listed[12] as int == 0x205F
           && listed[13] as int == 0x3000;
  }

  /** Lines end at a line feed, with the one return before it if there is one;
      what follows the last line feed is a line unless it is empty. */
  lemma LinesExact(line: string, rest: string)
    requires '\n' !in line
    ensures Lines(line + "\r\n" + rest) == [line] + Lines(rest)
    ensures line == [] || line[|line| - 1] != '\r' ==> Lines(line + "\n" + rest) == [line] + Lines(rest)
    ensures Lines(line) == if line == [] then [] else [line]
  {
    hide Lines, LineEnd;
    LineFirst(line, rest);
    assert line + "\r\n" + rest == (line + "\r") + "\n" + rest;
    LineFirst(line + "\r", rest);
    assert WithoutReturn(line + "\r") == line;
    NoLines();
    if line != [] { OnlyLine(line); }
  }

  /** Trimming takes the white space off the end and nothing else. */
  lemma {:induction false} TrimmedExact(text: string, trimmed: string)
    ensures trimmed == TrimEnd(text) <==>
            && trimmed <= text && (forall i | |trimmed| <= i < |text| :: IsWhitespace(text[i]))
            && (trimmed == [] || !IsWhitespace(trimmed[|trimmed| - 1]))
  {
    hide IsWhitespace;
    if text != [] && IsWhitespace(text[|text| - 1]) {
      var shorter := text[..|text| - 1];
      TrimmedExact(shorter, trimmed);
      assert forall i | 0 <= i < |shorter| :: shorter[i] == text[i];
      if trimmed == text { assert trimmed[|trimmed| - 1] == text[|text| - 1]; }
    }
  }

  lemma ColonAt(token: string, value: string, n: nat)
    requires ':' !in token
    ensures var line := token + ":" + value;
            n < |line| && line[n] == ':' && ':' !in line[..n] <==> n == |token|
  {
    var line := token + ":" + value;
    assert line[..|token|] == token && line[|token|] == ':';
    if n < |token| { assert line[n] == token[n]; }
    if |token| < n < |line| { assert line[..n][|token|] == ':'; }
  }

  lemma SeenAfter(token: string, value: string)
    ensures var line := token + ":" + value;
            (exists i | |token| < i < |line| :: !IsWhitespace(line[i])) <==>
            (exists i | 0 <= i < |value| :: !IsWhitespace(value[i]))
  {
    hide IsWhitespace;
    var line, at := token + ":" + value, |token|;
    forall i | 0 <= i < |value| ensures value[i] == line[at + 1 + i] {}
    if i :| at < i < |line| && !IsWhitespace(line[i]) { assert value[i - at - 1] == line[i]; }
    if i :| 0 <= i < |value| && !IsWhitespace(value[i]) { assert !IsWhitespace(line[at + 1 + i]); }
  }

  /** Letters, digits and hyphens of ASCII. */
  predicate IsPlainToken(token: string) {
    token != [] && forall i | 0 <= i < |token| ::
      || 0x30 <= token[i] as int <= 0x39 || 0x41 <= token[i] as int <= 0x5A || 0x61 <= token[i] as int <= 0x7A
      || token[i] == '-'
  }

  lemma PlainTokenExact(token: string, value: string)
    ensures IsPlainToken(token) <==> token != [] && forall i | 0 <= i < |token| :: IsTokenChar((token + value)[i])
  {
    assert forall i | 0 <= i < |token| :: (token + value)[i] == token[i];
  }

  /** A line is a trailer when a colon follows a token of letters, digits and
      hyphens, and something visible follows the first colon. */
  lemma TrailerExact(token: string, value: string)
    requires ':' !in token
    ensures IsTrailer(token + ":" + value) <==>
            IsPlainToken(token) && exists i | 0 <= i < |value| :: !IsWhitespace(value[i])
    ensures !IsTrailer(token)
  {
    hide IsWhitespace, IsTokenChar, IsPlainToken;
    var line, at := token + ":" + value, |token|;
    assert line == token + (":" + value);
    forall n: nat ensures n < |line| && line[n] == ':' && ':' !in line[..n] <==> n == at { ColonAt(token, value, n); }
    SeenAfter(token, value);
    PlainTokenExact(token, ":" + value);
    TrailerAt(line, at);
  }

  lemma TrailerAt(line: string, at: nat)
    requires at < |line| && forall n: nat :: n < |line| && line[n] == ':' && ':' !in line[..n] <==> n == at
    ensures IsTrailer(line) <==>
            && 0 < at && (forall i | 0 <= i < at :: IsTokenChar(line[i]))
            && exists i | at < i < |line| :: !IsWhitespace(line[i])
  {
    hide IsWhitespace, IsTokenChar;
    assert at < |line| && line[at] == ':' && ':' !in line[..at];
    if IsTrailer(line) {
      var n: nat :| 0 < n < |line| && line[n] == ':' && ':' !in line[..n]
                    && (forall i | 0 <= i < n :: IsTokenChar(line[i]))
                    && (exists i | n < i < |line| :: !IsWhitespace(line[i]));
      assert n == at;
    }
  }

  /** Which lines are taken over: those at the given places, in order, which
      are all that do not begin as a stamp's trailer does. */
  ghost predicate IsSelection(lines: seq<string>, kept: seq<string>, places: seq<nat>) {
    && |kept| == |places|
    && (forall k | 0 <= k < |places| :: places[k] < |lines| && kept[k] == lines[places[k]])
    && (forall j, k | 0 <= j < k < |places| :: places[j] < places[k])
    && forall i | 0 <= i < |lines| :: i in places <==> !("Tydence-Stamp:" <= lines[i])
  }

  lemma {:induction false} KeptAreSelected(lines: seq<string>) returns (places: seq<nat>)
    ensures IsSelection(lines, WithoutStampLines(lines), places)
    decreases |lines|
  {
    hide IsSelection, IsStampLine;
    if lines == [] {
      places := [];
      NothingSelected();
    } else {
      var rest := lines[1..];
      var later := KeptAreSelected(rest);
      StampLineBegins(lines[0]);
      places := FirstSelected(lines, WithoutStampLines(rest), later);
    }
  }

  lemma NothingSelected()
    ensures IsSelection([], [], [])
  {
  }

  lemma FirstSelected(lines: seq<string>, kept: seq<string>, later: seq<nat>) returns (places: seq<nat>)
    requires lines != [] && IsSelection(lines[1..], kept, later)
    ensures IsSelection(lines, if "Tydence-Stamp:" <= lines[0] then kept else [lines[0]] + kept, places)
  {
    var shifted: seq<nat> := seq(|later|, k requires 0 <= k < |later| => later[k] + 1);
    SelectionShifts(lines, kept, later, shifted);
    places := if "Tydence-Stamp:" <= lines[0] then shifted else [0] + shifted;
    if !("Tydence-Stamp:" <= lines[0]) { ZeroFirst(lines, kept, shifted); }
  }

  lemma ZeroFirst(lines: seq<string>, kept: seq<string>, shifted: seq<nat>)
    requires lines != [] && !("Tydence-Stamp:" <= lines[0])
    requires |kept| == |shifted| && 0 !in shifted
    requires forall k | 0 <= k < |shifted| :: shifted[k] < |lines| && kept[k] == lines[shifted[k]]
    requires forall j, k | 0 <= j < k < |shifted| :: shifted[j] < shifted[k]
    requires forall i | 0 < i < |lines| :: i in shifted <==> !("Tydence-Stamp:" <= lines[i])
    ensures IsSelection(lines, [lines[0]] + kept, [0] + shifted)
  {
    var places, all := [0] + shifted, [lines[0]] + kept;
    forall k | 0 <= k < |places| ensures places[k] < |lines| && all[k] == lines[places[k]] {
      if k > 0 { assert places[k] == shifted[k - 1] && all[k] == kept[k - 1]; }
    }
    ZeroAscends(shifted);
    forall i: nat | i < |lines| ensures i in places <==> !("Tydence-Stamp:" <= lines[i]) {
      assert i in places <==> i == 0 || i in shifted;
    }
  }

  lemma ZeroAscends(shifted: seq<nat>)
    requires 0 !in shifted && forall j, k | 0 <= j < k < |shifted| :: shifted[j] < shifted[k]
    ensures forall j, k | 0 <= j < k < |[0] + shifted| :: ([0] + shifted)[j] < ([0] + shifted)[k]
  {
    var places := [0] + shifted;
    forall j, k | 0 <= j < k < |places| ensures places[j] < places[k] {
      assert places[k] == shifted[k - 1] && shifted[k - 1] in shifted;
      if j > 0 { assert places[j] == shifted[j - 1]; }
    }
  }

  lemma StampLineBegins(line: string)
    ensures IsStampLine(line) <==> "Tydence-Stamp:" <= line
  {
  }

  lemma SelectionShifts(lines: seq<string>, kept: seq<string>, later: seq<nat>, shifted: seq<nat>)
    requires lines != [] && IsSelection(lines[1..], kept, later)
    requires |shifted| == |later| && forall k | 0 <= k < |later| :: shifted[k] == later[k] + 1
    ensures 0 !in shifted
    ensures forall k | 0 <= k < |shifted| :: shifted[k] < |lines| && kept[k] == lines[shifted[k]]
    ensures forall j, k | 0 <= j < k < |shifted| :: shifted[j] < shifted[k]
    ensures forall i | 0 < i < |lines| :: i in shifted <==> !("Tydence-Stamp:" <= lines[i])
  {
    forall i | 0 < i < |lines| ensures i in shifted <==> !("Tydence-Stamp:" <= lines[i]) {
      assert lines[1..][i - 1] == lines[i];
      if i - 1 in later {
        var k :| 0 <= k < |later| && later[k] == i - 1;
        assert shifted[k] == i;
      }
      if i in shifted {
        var k :| 0 <= k < |shifted| && shifted[k] == i;
        assert later[k] == i - 1;
      }
    }
  }

  lemma StampTrailersSpell(hashes: PayloadHashes)
    ensures StampTrailers(hashes) ==
            "Tydence-Stamp: sha256:" + Hex.Encode(Hex.LOWERCASE, hashes.sha256)
            + "\nTydence-Stamp: sha3-256:" + Hex.Encode(Hex.LOWERCASE, hashes.sha3) + "\n"
  {
    assert STAMP_TRAILER_TOKEN + " " + "sha256" + ":" == "Tydence-Stamp: sha256:";
    assert "\n" + (STAMP_TRAILER_TOKEN + " " + "sha3-256" + ":") == "\nTydence-Stamp: sha3-256:";
    hide STAMP_TRAILER_TOKEN;
    var a, b := Hex.Encode(Hex.LOWERCASE, hashes.sha256), Hex.Encode(Hex.LOWERCASE, hashes.sha3);
    var first, second := STAMP_TRAILER_TOKEN + " " + "sha256" + ":", STAMP_TRAILER_TOKEN + " " + "sha3-256" + ":";
    assert StampTrailers(hashes) == first + a + "\n" + (second + b) + "\n";
    assert first + a + "\n" + (second + b) + "\n" == first + a + ("\n" + second) + b + "\n";
  }

  /** The stamped message: the lines that are no stamp trailers, in order, up
      to their last visible character; a line break that joins a trailer block
      or opens one; and the two trailers. */
  lemma StampedMessageExact(message: string, hashes: PayloadHashes)
    returns (kept: seq<string>, places: seq<nat>, body: string)
    ensures IsSelection(Lines(message), kept, places)
    ensures body <= Joined(kept) && (body == [] || !IsWhitespace(body[|body| - 1]))
    ensures forall i | |body| <= i < |Joined(kept)| :: IsWhitespace(Joined(kept)[i])
    ensures MessageWithTrailers(message, hashes) ==
            body + (if EndsWithTrailerBlock(body) then "\n" else "\n\n")
            + ("Tydence-Stamp: sha256:" + Hex.Encode(Hex.LOWERCASE, hashes.sha256)
               + "\nTydence-Stamp: sha3-256:" + Hex.Encode(Hex.LOWERCASE, hashes.sha3) + "\n")
  {
    hide IsWhitespace, Lines, WithoutStampLines, Joined, EndsWithTrailerBlock, IsSelection, StampTrailers, TrimEnd;
    kept := WithoutStampLines(Lines(message));
    places := KeptAreSelected(Lines(message));
    body := Body(message);
    TrimmedExact(Joined(kept), body);
    StampTrailersSpell(hashes);
  }

  /** The text ends in a trailer block when the paragraph after its last blank
      line is not empty and has trailers only; a text without a blank line
      never does. */
  lemma TrailerBlockExact(before: string, paragraph: string)
    requires forall i | 0 <= i < |paragraph| - 1 :: !(paragraph[i] == '\n' && paragraph[i + 1] == '\n')
    requires paragraph == [] || paragraph[0] != '\n'
    ensures EndsWithTrailerBlock(before + "\n\n" + paragraph) <==>
            paragraph != [] && forall l | l in Lines(paragraph) :: IsTrailer(l)
    ensures !EndsWithTrailerBlock(paragraph)
  {
    hide Lines, IsTrailer, LastBreak;
    var text, n := before + "\n\n" + paragraph, |before|;
    LastBreakBefore(before, paragraph);
    assert LastParagraph(text) == paragraph;
    LastBreakExact(paragraph);
  }

  lemma LastBreakBefore(before: string, paragraph: string)
    requires forall i | 0 <= i < |paragraph| - 1 :: !(paragraph[i] == '\n' && paragraph[i + 1] == '\n')
    requires paragraph == [] || paragraph[0] != '\n'
    ensures LastBreak(before + "\n\n" + paragraph) == |before|
  {
    hide LastBreak, IsBreak;
    var text, n := before + "\n\n" + paragraph, |before|;
    BreakAtEnd(before, paragraph);
    forall i | n < i ensures !IsBreak(text, i) { NoBreakPast(before, paragraph, i); }
    LastBreakIs(text, n);
  }

  lemma BreakAtEnd(before: string, paragraph: string)
    ensures IsBreak(before + "\n\n" + paragraph, |before|)
  {
    assert (before + "\n\n" + paragraph)[|before|] == '\n' && (before + "\n\n" + paragraph)[|before| + 1] == '\n';
  }

  lemma NoBreakPast(before: string, paragraph: string, i: int)
    requires forall k | 0 <= k < |paragraph| - 1 :: !(paragraph[k] == '\n' && paragraph[k + 1] == '\n')
    requires paragraph == [] || paragraph[0] != '\n'
    requires |before| < i
    ensures !IsBreak(before + "\n\n" + paragraph, i)
  {
    var text, n := before + "\n\n" + paragraph, |before| + 2;
    assert |text| == n + |paragraph|;
    if i + 1 < |text| {
      assert text[i + 1] == paragraph[i + 1 - n];
      if i >= n { assert text[i] == paragraph[i - n]; }
    }
  }
}
