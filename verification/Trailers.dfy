/** The `Tydence-Stamp` trailers of a commit message: stale ones are replaced,
    and a trailer block the message ends with is joined. */
module Trailers {
  import opened ManifestModel
  import Hex

  const STAMP_TRAILER_TOKEN: string := "Tydence-Stamp:"

  // ----- characters and lines -----

  /** Unicode's White_Space property. */
  predicate IsWhitespace(c: char) {
    || c in "\t\n\U{0B}\U{0C}\r \U{85}\U{A0}\U{1680}\U{2028}\U{2029}\U{202F}\U{205F}\U{3000}"
    || '\U{2000}' <= c <= '\U{200A}'
  }

  function LineEnd(text: string): (n: nat)
    ensures n <= |text| && '\n' !in text[..n]
    ensures n < |text| ==> text[n] == '\n'
  {
    if text == [] || text[0] == '\n' then 0 else 1 + LineEnd(text[1..])
  }

  predicate EndsInReturn(line: string) { line != [] && line[|line| - 1] == '\r' }

  function WithoutReturn(line: string): string {
    if EndsInReturn(line) then line[..|line| - 1] else line
  }

  /** Lines end at `\n` or `\r\n`; the last one need not end at all. */
  function Lines(text: string): (lines: seq<string>)
    ensures forall i | 0 <= i < |lines| :: '\n' !in lines[i]
  {
    if text == [] then []
    else
      var n := LineEnd(text);
      if n == |text| then assert text[..n] == text; [text]
      else [WithoutReturn(text[..n])] + Lines(text[n + 1..])
  }

  function Joined(lines: seq<string>): string {
    if lines == [] then [] else if |lines| == 1 then lines[0] else lines[0] + "\n" + Joined(lines[1..])
  }

  function TrimEnd(text: string): (trimmed: string)
    ensures trimmed <= text
    ensures trimmed != [] ==> !IsWhitespace(trimmed[|trimmed| - 1])
  {
    if text == [] || !IsWhitespace(text[|text| - 1]) then text else TrimEnd(text[..|text| - 1])
  }

  // ----- the trailer block -----

  /** Where the last blank line starts. */
  function LastBreak(text: string): (found: int)
    ensures found == -1 || (0 <= found && found + 2 <= |text| && text[found] == '\n' && text[found + 1] == '\n')
    ensures forall i | found < i && 0 <= i && i + 1 < |text| :: !(text[i] == '\n' && text[i + 1] == '\n')
  {
    if |text| < 2 then -1
    else if text[|text| - 2] == '\n' && text[|text| - 1] == '\n' then |text| - 2
    else LastBreak(text[..|text| - 1])
  }

  predicate IsTokenChar(c: char) {
    '0' <= c <= '9' || 'A' <= c <= 'Z' || 'a' <= c <= 'z' || c == '-'
  }

  /** `token: value` by git's spelling of a token. */
  predicate IsTrailer(line: string) {
    exists n | 0 < n < |line| ::
      && line[n] == ':' && ':' !in line[..n]
      && (forall i | 0 <= i < n :: IsTokenChar(line[i]))
      && (exists i | n < i < |line| :: !IsWhitespace(line[i]))
  }

  predicate AreTrailers(lines: seq<string>) {
    forall i | 0 <= i < |lines| :: IsTrailer(lines[i])
  }

  /** The paragraph after the last blank line. */
  function LastParagraph(text: string): string
    requires LastBreak(text) >= 0
  {
    text[LastBreak(text) + 2..]
  }

  predicate EndsWithTrailerBlock(text: string) {
    LastBreak(text) >= 0 && LastParagraph(text) != [] && AreTrailers(Lines(LastParagraph(text)))
  }

  // ----- the message -----

  predicate IsStampLine(line: string) { STAMP_TRAILER_TOKEN <= line }

  function WithoutStampLines(lines: seq<string>): (kept: seq<string>)
    ensures forall l | l in kept :: l in lines && !IsStampLine(l)
  {
    if lines == [] then []
    else
      var rest := WithoutStampLines(lines[1..]);
      assert lines == [lines[0]] + lines[1..];
      if IsStampLine(lines[0]) then rest else [lines[0]] + rest
  }

  function StampLine(family: string, digest: Digest): string {
    STAMP_TRAILER_TOKEN + " " + family + ":" + Hex.Encode(Hex.LOWERCASE, digest)
  }

  function StampTrailers(hashes: PayloadHashes): string {
    StampLine("sha256", hashes.sha256) + "\n" + StampLine("sha3-256", hashes.sha3) + "\n"
  }

  /** What stays of a message: its lines less stale trailers, end trimmed. */
  function Body(message: string): string {
    TrimEnd(Joined(WithoutStampLines(Lines(message))))
  }

  function MessageWithTrailers(message: string, hashes: PayloadHashes): string {
    var body := Body(message);
    body + (if EndsWithTrailerBlock(body) then "\n" else "\n\n") + StampTrailers(hashes)
  }

  // ----- reading lines back -----

  lemma {:induction false} LineEndsAt(text: string, n: nat)
    requires n < |text| && text[n] == '\n' && '\n' !in text[..n]
    ensures LineEnd(text) == n
  {
    if n > 0 {
      assert text[..n][0] == text[0] && text[..n][1..] == text[1..][..n - 1];
      LineEndsAt(text[1..], n - 1);
    }
  }

  lemma LineFirst(line: string, rest: string)
    requires '\n' !in line
    ensures Lines(line + "\n" + rest) == [WithoutReturn(line)] + Lines(rest)
    ensures !EndsInReturn(line) ==> WithoutReturn(line) == line
  {
    var text := line + "\n" + rest;
    assert text[..|line|] == line && text[|line| + 1..] == rest;
    LineEndsAt(text, |line|);
  }

  lemma OnlyLine(line: string)
    requires '\n' !in line && line != []
    ensures Lines(line) == [line]
  {
    if LineEnd(line) < |line| { NoBreakAt(line, LineEnd(line)); }
  }

  lemma NoBreakAt(line: string, n: nat)
    requires n < |line| && '\n' !in line
    ensures line[n] != '\n'
  {
    assert line[n] in line;
  }

  lemma Regroup(a: string, b: string, c: string)
    ensures a + "\n" + b + "\n" + c == a + "\n" + (b + "\n" + c)
  {
  }

  /** What the lines of a joined text read back as. */
  function Stripped(lines: seq<string>): (stripped: seq<string>)
    ensures |stripped| == |lines| && forall i | 0 <= i < |lines| :: stripped[i] == WithoutReturn(lines[i])
  {
    seq(|lines|, i requires 0 <= i < |lines| => WithoutReturn(lines[i]))
  }

  ghost predicate HaveNoBreak(lines: seq<string>) {
    forall i | 0 <= i < |lines| :: '\n' !in lines[i]
  }

  lemma {:induction false} LinesFirst(lines: seq<string>, rest: string)
    requires lines != [] && HaveNoBreak(lines)
    ensures Lines(Joined(lines) + "\n" + rest) == Stripped(lines) + Lines(rest)
  {
    hide Lines, WithoutReturn;
    var first, others := lines[0], lines[1..];
    if others == [] {
      LineFirst(first, rest);
      assert Stripped(lines) == [WithoutReturn(first)];
    } else {
      LinesFirst(others, rest);
      LineFirst(first, Joined(others) + "\n" + rest);
      Regroup(first, Joined(others), rest);
      assert Stripped(lines) == [WithoutReturn(first)] + Stripped(others);
      assert [WithoutReturn(first)] + (Stripped(others) + Lines(rest)) == Stripped(lines) + Lines(rest);
    }
  }

  lemma {:induction false} JoinedAppend(lines: seq<string>, last: string)
    requires lines != []
    ensures Joined(lines + [last]) == Joined(lines) + "\n" + last
  {
    if |lines| == 1 {
      assert (lines + [last])[1..] == [last];
    } else {
      assert (lines + [last])[1..] == lines[1..] + [last];
      JoinedAppend(lines[1..], last);
    }
  }

  // ----- trimming works line by line -----

  /** Lines a body may consist of. */
  ghost predicate AreBodyLines(lines: seq<string>) {
    lines != [] && forall i | 0 <= i < |lines| :: '\n' !in lines[i] && !IsStampLine(lines[i])
  }

  lemma DropLast(a: string, b: string)
    requires b != []
    ensures (a + b)[..|a + b| - 1] == a + b[..|b| - 1] && (a + b)[|a + b| - 1] == b[|b| - 1]
  {
  }

  lemma FrontIsBody(front: seq<string>, last: string)
    requires front != [] && AreBodyLines(front + [last])
    ensures AreBodyLines(front)
  {
    assert forall i | 0 <= i < |front| :: front[i] == (front + [last])[i];
  }

  lemma ShorterIsBody(front: seq<string>, last: string)
    requires AreBodyLines(front + [last]) && last != []
    ensures AreBodyLines(front + [last[..|last| - 1]])
  {
    var lines, fewer := front + [last], front + [last[..|last| - 1]];
    assert lines[|front|] == last;
    assert STAMP_TRAILER_TOKEN <= last[..|last| - 1] ==> STAMP_TRAILER_TOKEN <= last;
    assert forall i | 0 <= i < |front| :: fewer[i] == lines[i];
  }

  /** Dropping the last character of joined lines drops it from the last line,
      or joins one line less. */
  lemma DropFromJoined(front: seq<string>, last: string)
    requires Joined(front + [last]) != []
    ensures var text := Joined(front + [last]);
            text[..|text| - 1] == if last == [] then Joined(front) else Joined(front + [last[..|last| - 1]])
    ensures last == [] ==> front != []
  {
    hide Joined;
    if front == [] {
      JoinedOne(last);
      if last != [] { JoinedOne(last[..|last| - 1]); }
      assert [] + [last] == [last];
      assert last != [] ==> [] + [last[..|last| - 1]] == [last[..|last| - 1]];
    } else {
      JoinedAppend(front, last);
      if last == [] {
        assert Joined(front) + "\n" + last == Joined(front) + "\n";
        DropLast(Joined(front), "\n");
        assert "\n"[..0] == [] && Joined(front) + [] == Joined(front);
      } else {
        JoinedAppend(front, last[..|last| - 1]);
        DropLast(Joined(front) + "\n", last);
      }
    }
  }

  lemma JoinedOne(line: string)
    ensures Joined([line]) == line
  {
  }

  lemma {:induction false} TrimmedLines(lines: seq<string>) returns (trimmed: seq<string>)
    requires AreBodyLines(lines)
    ensures AreBodyLines(trimmed) && Joined(trimmed) == TrimEnd(Joined(lines))
    decreases |Joined(lines)|
  {
    hide Joined, IsWhitespace, AreBodyLines, IsStampLine;
    var text := Joined(lines);
    if text == [] || !IsWhitespace(text[|text| - 1]) {
      trimmed := lines;
    } else {
      assert lines != [] by { BodyIsNotEmpty(lines); }
      var front, last := lines[..|lines| - 1], lines[|lines| - 1];
      assert lines == front + [last];
      DropFromJoined(front, last);
      if last == [] {
        FrontIsBody(front, last);
        trimmed := TrimmedLines(front);
      } else {
        ShorterIsBody(front, last);
        trimmed := TrimmedLines(front + [last[..|last| - 1]]);
      }
    }
  }

  lemma BodyIsNotEmpty(lines: seq<string>)
    requires AreBodyLines(lines)
    ensures lines != []
  {
  }

  // ----- absorption -----

  lemma {:induction false} KeptIsFixed(lines: seq<string>)
    requires forall i | 0 <= i < |lines| :: !IsStampLine(lines[i])
    ensures WithoutStampLines(lines) == lines
  {
    if lines != [] {
      KeptIsFixed(lines[1..]);
      assert lines == [lines[0]] + lines[1..];
    }
  }

  lemma {:induction false} KeptConcat(a: seq<string>, b: seq<string>)
    ensures WithoutStampLines(a + b) == WithoutStampLines(a) + WithoutStampLines(b)
  {
    hide IsStampLine;
    if a == [] {
      assert a + b == b;
    } else {
      assert (a + b)[1..] == a[1..] + b;
      KeptConcat(a[1..], b);
    }
  }

  lemma DigitsArePlain(digest: Digest)
    ensures var digits := Hex.Encode(Hex.LOWERCASE, digest);
            '\n' !in digits && '\r' !in digits && digits != []
  {
    Hex.EncodeInAlphabet(Hex.LOWERCASE, digest);
    hide Hex.Encode;
    assert forall c | c in Hex.LOWERCASE :: c != '\n' && c != '\r';
  }

  lemma StampLineIsLine(family: string, digest: Digest)
    requires family == "sha256" || family == "sha3-256"
    ensures var line := StampLine(family, digest);
            IsStampLine(line) && '\n' !in line && !EndsInReturn(line) && line != []
  {
    hide Hex.Encode;
    DigitsArePlain(digest);
    var digits := Hex.Encode(Hex.LOWERCASE, digest);
    var line := StampLine(family, digest);
    assert line[|line| - 1] == digits[|digits| - 1] && digits[|digits| - 1] in digits;
    assert '\n' !in STAMP_TRAILER_TOKEN && '\n' !in " " && '\n' !in ":" && '\n' !in family;
  }

  lemma TokenIsToken()
    ensures |STAMP_TRAILER_TOKEN| == 14 && STAMP_TRAILER_TOKEN[13] == ':'
    ensures forall i | 0 <= i < 13 :: IsTokenChar(STAMP_TRAILER_TOKEN[i]) && STAMP_TRAILER_TOKEN[i] != ':'
  {
  }

  lemma StampLineIsTrailer(family: string, digest: Digest)
    requires family == "sha256" || family == "sha3-256"
    ensures IsTrailer(StampLine(family, digest))
  {
    hide Hex.Encode;
    TokenIsToken();
    var line := StampLine(family, digest);
    assert forall i | 0 <= i < 14 :: line[i] == STAMP_TRAILER_TOKEN[i];
    assert line[15] == family[0] == 's';
    hide IsTokenChar;
    assert !IsWhitespace(line[15]);
    assert line[13] == ':' && ':' !in line[..13];
  }

  lemma {:induction false} StaleAreDropped(lines: seq<string>)
    requires forall i | 0 <= i < |lines| :: IsStampLine(lines[i])
    ensures WithoutStampLines(lines) == []
  {
    if lines != [] { StaleAreDropped(lines[1..]); }
  }

  lemma NoLines()
    ensures Lines([]) == []
  {
  }

  function StampLines(hashes: PayloadHashes): (lines: seq<string>) {
    [StampLine("sha256", hashes.sha256), StampLine("sha3-256", hashes.sha3)]
  }

  lemma StampTrailersRead(hashes: PayloadHashes)
    ensures Lines(StampTrailers(hashes)) == StampLines(hashes)
    ensures WithoutStampLines(StampLines(hashes)) == [] && AreTrailers(StampLines(hashes))
  {
    hide StampLine, IsStampLine, EndsInReturn, WithoutReturn, IsTrailer, Lines, WithoutStampLines;
    var first, second := StampLine("sha256", hashes.sha256), StampLine("sha3-256", hashes.sha3);
    StampLineIsLine("sha256", hashes.sha256);
    StampLineIsLine("sha3-256", hashes.sha3);
    StampLineIsTrailer("sha256", hashes.sha256);
    StampLineIsTrailer("sha3-256", hashes.sha3);
    LineFirst(first, second + "\n");
    LineFirst(second, []);
    NoLines();
    assert first + "\n" + second + "\n" == first + "\n" + (second + "\n");
    assert second + "\n" + [] == second + "\n";
    StaleAreDropped(StampLines(hashes));
  }

  /** A carriage return right before a line break. */
  predicate HasReturnBreak(text: string) {
    exists i | 0 <= i < |text| - 1 :: text[i] == '\r' && text[i + 1] == '\n'
  }

  /** The lines a body consists of. */
  lemma BodyLines(message: string) returns (lines: seq<string>)
    ensures Joined(lines) == Body(message) && AreBodyLines(lines)
  {
    hide IsStampLine, Lines, TrimEnd, Joined;
    var kept := WithoutStampLines(Lines(message));
    forall i | 0 <= i < |kept| ensures '\n' !in kept[i] && !IsStampLine(kept[i]) {
      assert kept[i] in kept;
      var k :| 0 <= k < |Lines(message)| && Lines(message)[k] == kept[i];
    }
    if kept == [] {
      NothingIsALine();
      lines := [""];
      assert Joined(kept) == Joined(lines) == [] by { JoinedOne(""); JoinedNone(); }
      lines := TrimmedLines(lines);
    } else {
      lines := TrimmedLines(kept);
    }
  }

  lemma JoinedNone()
    ensures Joined([]) == []
  {
  }

  lemma NothingIsALine()
    ensures AreBodyLines([""])
  {
  }

  /** Once trimmed, trimming changes nothing; a final line break goes. */
  lemma TrimAgain(text: string)
    ensures TrimEnd(TrimEnd(text)) == TrimEnd(text) && TrimEnd(text + "\n") == TrimEnd(text)
  {
    var longer := text + "\n";
    assert longer[..|longer| - 1] == text && IsWhitespace(longer[|longer| - 1]);
  }

  lemma {:induction false} StrippedAreKept(lines: seq<string>)
    requires AreBodyLines(lines)
    ensures WithoutStampLines(Stripped(lines)) == Stripped(lines)
  {
    var stripped := Stripped(lines);
    forall i | 0 <= i < |stripped| ensures !IsStampLine(stripped[i]) {
      if IsStampLine(stripped[i]) { StampOfLonger(lines[i]); }
    }
    KeptIsFixed(stripped);
  }

  lemma StampOfLonger(line: string)
    ensures IsStampLine(WithoutReturn(line)) ==> IsStampLine(line)
  {
  }

  /** Stamping a stamped message starts from its body's lines as they read
      back. */
  lemma RestampedBody(message: string, hashes: PayloadHashes, lines: seq<string>)
    requires Joined(lines) == Body(message) && AreBodyLines(lines)
    ensures Body(MessageWithTrailers(message, hashes)) == TrimEnd(Joined(Stripped(lines)))
  {
    hide TrimEnd, Lines, Joined, StampTrailers, StampLines, EndsWithTrailerBlock, WithoutStampLines, AreTrailers,
         WithoutReturn, IsStampLine;
    var body, trailers := Body(message), StampTrailers(hashes);
    StampTrailersRead(hashes);
    StrippedAreKept(lines);
    var stripped := Stripped(lines);
    if EndsWithTrailerBlock(body) {
      LinesFirst(lines, trailers);
      KeptConcat(stripped, Lines(trailers));
      assert stripped + [] == stripped;
    } else {
      EmptyLine(trailers);
      LinesFirst(lines, "\n" + trailers);
      assert body + "\n\n" + trailers == body + "\n" + ("\n" + trailers);
      assert stripped + ([""] + Lines(trailers)) == (stripped + [""]) + Lines(trailers);
      KeptConcat(stripped + [""], Lines(trailers));
      KeptConcat(stripped, [""]);
      EmptyIsKept();
      assert (stripped + [""]) + [] == stripped + [""];
      JoinedAppend(stripped, "");
      assert Joined(stripped) + "\n" + "" == Joined(stripped) + "\n";
      TrimAgain(Joined(stripped));
    }
  }

  lemma EmptyLine(rest: string)
    ensures Lines("\n" + rest) == [""] + Lines(rest)
  {
    LineFirst("", rest);
    assert "" + "\n" + rest == "\n" + rest;
  }

  lemma EmptyIsKept()
    ensures WithoutStampLines([""]) == [""]
  {
  }

  // ----- where a return survives the first reading -----

  /** Reading back shortens a text exactly when some line but the last still
      ends in a return, which shows as a return right before a break. */
  lemma {:induction false} StrippedLength(lines: seq<string>)
    requires lines != [] && HaveNoBreak(lines) && !EndsInReturn(lines[|lines| - 1])
    ensures |Joined(Stripped(lines))| <= |Joined(lines)|
    ensures HasReturnBreak(Joined(lines)) ==> |Joined(Stripped(lines))| < |Joined(lines)|
    ensures !HasReturnBreak(Joined(lines)) ==> Stripped(lines) == lines
  {
    hide HasReturnBreak;
    var first, others := lines[0], lines[1..];
    if others == [] {
      NoBreakNoReturn(first);
      assert Stripped(lines) == lines;
    } else {
      StrippedLength(others);
      assert Stripped(lines)[1..] == Stripped(others);
      ReturnAtBreak(first, Joined(others));
      if !HasReturnBreak(Joined(lines)) { assert Stripped(lines) == [first] + others; }
    }
  }

  lemma NoBreakNoReturn(line: string)
    requires '\n' !in line
    ensures !HasReturnBreak(line)
  {
  }

  lemma ReturnAtBreak(line: string, rest: string)
    requires '\n' !in line
    ensures HasReturnBreak(line + "\n" + rest) <==> EndsInReturn(line) || HasReturnBreak(rest)
  {
    var text := line + "\n" + rest;
    assert forall i | 0 <= i < |line| :: text[i] == line[i] && line[i] in line;
    assert forall i | 0 <= i < |rest| :: text[|line| + 1 + i] == rest[i];
    if EndsInReturn(line) { assert text[|line| - 1] == '\r' && text[|line| - 1 + 1] == '\n'; }
    if HasReturnBreak(rest) {
      var i :| 0 <= i < |rest| - 1 && rest[i] == '\r' && rest[i + 1] == '\n';
      assert text[|line| + 1 + i] == '\r' && text[|line| + 1 + i + 1] == '\n';
    }
    if HasReturnBreak(text) && !EndsInReturn(line) {
      var i :| 0 <= i < |text| - 1 && text[i] == '\r' && text[i + 1] == '\n';
      assert i > |line|;
      assert rest[i - |line| - 1] == '\r' && rest[i - |line| - 1 + 1] == '\n';
    }
  }

  lemma LastEndsPlainly(message: string, lines: seq<string>)
    requires Joined(lines) == Body(message) && AreBodyLines(lines)
    ensures !EndsInReturn(lines[|lines| - 1])
  {
    hide Body, Joined, IsStampLine, IsWhitespace;
    var n := |lines| - 1;
    var last := lines[n];
    BodyEnd(message);
    if last != [] {
      EndOfJoined(lines[..n], last);
      assert lines == lines[..n] + [last];
    }
  }

  lemma EndOfJoined(front: seq<string>, last: string)
    requires last != []
    ensures Joined(front + [last]) != [] && Joined(front + [last])[|Joined(front + [last])| - 1] == last[|last| - 1]
  {
    if front == [] {
      assert [] + [last] == [last];
    } else {
      JoinedAppend(front, last);
    }
  }

  /** The body of a stamped message is the body it had, or is shorter when a
      return stood right before one of its breaks. */
  lemma BodyOfStamped(message: string, hashes: PayloadHashes)
    ensures var body, again := Body(message), Body(MessageWithTrailers(message, hashes));
            if HasReturnBreak(body) then |again| < |body| else again == body
  {
    hide Lines, WithoutStampLines, MessageWithTrailers, TrimEnd, IsStampLine, HasReturnBreak, EndsInReturn;
    var lines := BodyLines(message);
    RestampedBody(message, hashes, lines);
    LastEndsPlainly(message, lines);
    StrippedLength(lines);
    TrimAgain(Joined(WithoutStampLines(Lines(message))));
  }

  /** Different bodies make different messages, whatever separates them from
      the trailers. */
  lemma BodiesShow(a: string, b: string, trailers: string)
    requires |a| < |b| && b[|b| - 1] != '\n'
    ensures a + "\n" + trailers != b + "\n" + trailers && a + "\n" + trailers != b + "\n\n" + trailers
    ensures a + "\n\n" + trailers != b + "\n" + trailers && a + "\n\n" + trailers != b + "\n\n" + trailers
  {
    var x, y := a + "\n\n" + trailers, b + "\n" + trailers;
    assert |x| == |a| + 2 + |trailers| && |y| == |b| + 1 + |trailers|;
    if |x| == |y| {
      assert |a| + 1 == |b|;
      assert x[|a|] == '\n' && y[|a|] == b[|a|];
    }
  }

  /** Stamping again replaces the trailers, leaving nothing of the first stamp,
      if and only if the message's body has no carriage return right before a
      line break. */
  lemma TrailersAreAbsorbed(message: string, first: PayloadHashes, second: PayloadHashes)
    ensures MessageWithTrailers(MessageWithTrailers(message, first), second) == MessageWithTrailers(message, second)
            <==> !HasReturnBreak(Body(message))
  {
    hide Body, EndsWithTrailerBlock, StampTrailers, HasReturnBreak;
    BodyOfStamped(message, first);
    BodyEnd(message);
    if HasReturnBreak(Body(message)) {
      BodiesShow(Body(MessageWithTrailers(message, first)), Body(message), StampTrailers(second));
    }
  }

  const DOUBLED_RETURN: string := "a\r\r\nb"

  lemma DoubledReturnLines()
    ensures Lines(DOUBLED_RETURN) == ["a\r", "b"]
  {
    hide Lines;
    LineFirst("a\r\r", "b");
    OnlyLine("b");
    assert DOUBLED_RETURN == "a\r\r" + "\n" + "b" && WithoutReturn("a\r\r") == "a\r";
  }

  lemma DoubledReturnBody()
    ensures Body(DOUBLED_RETURN) == "a\r\nb" && HasReturnBreak("a\r\nb")
  {
    hide Lines, WithoutStampLines;
    var lines := ["a\r", "b"];
    DoubledReturnLines();
    KeptIsFixed(lines);
    assert lines[1..] == ["b"];
    assert Joined(lines) == "a\r\nb";
    assert "a\r\nb"[1] == '\r' && "a\r\nb"[1 + 1] == '\n';
  }

  /** A message for which it fails: the first stamping strips one of two
      returns before a break, the second the other. */
  lemma DoubledReturnIsNotAbsorbed(first: PayloadHashes, second: PayloadHashes)
    ensures Body(DOUBLED_RETURN) == "a\r\nb" && HasReturnBreak(Body(DOUBLED_RETURN))
    ensures MessageWithTrailers(MessageWithTrailers(DOUBLED_RETURN, first), second) !=
            MessageWithTrailers(DOUBLED_RETURN, second)
  {
    hide Body, MessageWithTrailers, HasReturnBreak;
    DoubledReturnBody();
    TrailersAreAbsorbed(DOUBLED_RETURN, first, second);
  }

  /** In particular it holds of every message without a carriage return. */
  lemma NoReturnNoReturnBreak(message: string)
    requires '\r' !in message
    ensures !HasReturnBreak(Body(message))
  {
    hide Lines, WithoutStampLines, Joined, TrimEnd;
    LinesAreParts(message, '\r');
    var kept := WithoutStampLines(Lines(message));
    assert forall i | 0 <= i < |kept| :: kept[i] in kept;
    JoinedParts(kept, '\r');
    var body := Body(message);
    assert forall i | 0 <= i < |body| :: body[i] == Joined(kept)[i] && Joined(kept)[i] in Joined(kept);
  }

  lemma {:induction false} LinesAreParts(text: string, c: char)
    requires c !in text
    ensures forall l | l in Lines(text) :: c !in l
    decreases |text|
  {
    if text != [] {
      var n := LineEnd(text);
      if n < |text| { LinesAreParts(text[n + 1..], c); }
    }
  }

  lemma {:induction false} JoinedParts(lines: seq<string>, c: char)
    requires c != '\n' && forall i | 0 <= i < |lines| :: c !in lines[i]
    ensures c !in Joined(lines)
  {
    if |lines| > 1 { JoinedParts(lines[1..], c); }
  }

  // ----- the block a stamped message ends with -----

  predicate IsBreak(text: string, i: int) {
    0 <= i && i + 1 < |text| && text[i] == '\n' && text[i + 1] == '\n'
  }

  lemma LastBreakIs(text: string, n: nat)
    requires IsBreak(text, n) && forall i | n < i :: !IsBreak(text, i)
    ensures LastBreak(text) == n
  {
    assert LastBreak(text) == -1 || IsBreak(text, LastBreak(text));
  }

  lemma LastBreakExact(text: string)
    ensures LastBreak(text) >= 0 ==> IsBreak(text, LastBreak(text))
    ensures forall i | LastBreak(text) < i :: !IsBreak(text, i)
  {
  }

  lemma StampTrailersHaveNoBreak(hashes: PayloadHashes)
    ensures |StampTrailers(hashes)| > 0 && StampTrailers(hashes)[0] == 'T'
    ensures forall i :: !IsBreak(StampTrailers(hashes), i)
  {
    var first, second := StampLine("sha256", hashes.sha256), StampLine("sha3-256", hashes.sha3);
    StampLineIsLine("sha256", hashes.sha256);
    StampLineIsLine("sha3-256", hashes.sha3);
    assert first[0] == 'T' && second[0] == 'T';
    hide StampLine, Hex.Encode;
    var text := StampTrailers(hashes);
    assert text == first + "\n" + second + "\n";
    forall i ensures !IsBreak(text, i) {
      if 0 <= i < |first| {
        assert text[i] == first[i] && first[i] in first;
      } else if i == |first| {
        assert text[i + 1] == second[0];
      } else if |first| < i < |text| - 1 {
        assert text[i] == second[i - |first| - 1] && second[i - |first| - 1] in second;
      }
    }
  }

  /** Nothing after the break: `head` ends in no line break, then the trailers. */
  lemma NoLaterBreak(head: string, hashes: PayloadHashes, n: int)
    requires head != [] && head[|head| - 1] == '\n'
    requires forall i | n < i :: !IsBreak(head, i)
    ensures forall i | n < i :: !IsBreak(head + StampTrailers(hashes), i)
  {
    hide StampTrailers;
    var text, trailers := head + StampTrailers(hashes), StampTrailers(hashes);
    StampTrailersHaveNoBreak(hashes);
    forall i | n < i ensures !IsBreak(text, i) {
      if 0 <= i && i + 1 < |head| {
        assert !IsBreak(head, i);
        assert text[i] == head[i] && text[i + 1] == head[i + 1];
      } else if i == |head| - 1 {
        assert text[i + 1] == trailers[0];
      } else if |head| <= i && i + 1 < |text| {
        assert !IsBreak(trailers, i - |head|);
        assert text[i] == trailers[i - |head|] && text[i + 1] == trailers[i + 1 - |head|];
      }
    }
  }

  lemma LinesStep(text: string)
    requires LineEnd(text) < |text|
    ensures Lines(text) == [WithoutReturn(text[..LineEnd(text)])] + Lines(text[LineEnd(text) + 1..])
  {
  }

  lemma SliceExtended(text: string, more: string, n: nat)
    requires n < |text|
    ensures (text + more)[..n] == text[..n] && (text + more)[n] == text[n]
            && (text + more)[n + 1..] == text[n + 1..] + more
  {
  }

  lemma ExtendedSplits(text: string, rest: string)
    requires LineEnd(text) < |text|
    ensures var n, whole := LineEnd(text), text + "\n" + rest;
            LineEnd(whole) == n && whole[..n] == text[..n] && whole[n + 1..] == text[n + 1..] + "\n" + rest
  {
    var n, feed := LineEnd(text), "\n";
    hide LineEnd;
    Associates(text, feed, rest);
    Associates(text[n + 1..], feed, rest);
    SliceExtended(text, feed + rest, n);
    LineEndsAt(text + (feed + rest), n);
  }

  lemma Associates(a: string, b: string, c: string)
    ensures a + b + c == a + (b + c)
  {
  }

  lemma {:induction false} LinesThenMore(text: string, rest: string)
    requires text != [] && text[|text| - 1] != '\n' && text[|text| - 1] != '\r'
    ensures Lines(text + "\n" + rest) == Lines(text) + Lines(rest)
    decreases |text|
  {
    hide Lines, WithoutReturn;
    var n := LineEnd(text);
    if n == |text| {
      assert text[..n] == text;
      LineFirst(text, rest);
      OnlyLine(text);
    } else {
      var tail := text[n + 1..];
      assert tail != [] && tail[|tail| - 1] == text[|text| - 1];
      LinesThenMore(tail, rest);
      LinesStep(text);
      ExtendedSplits(text, rest);
      LinesStep(text + "\n" + rest);
      assert [WithoutReturn(text[..n])] + (Lines(tail) + Lines(rest)) ==
             ([WithoutReturn(text[..n])] + Lines(tail)) + Lines(rest);
    }
  }

  lemma BodyEnd(message: string)
    ensures var body := Body(message);
            body != [] ==> !IsWhitespace(body[|body| - 1]) && body[|body| - 1] != '\n' && body[|body| - 1] != '\r'
  {
    hide Lines, Joined, WithoutStampLines;
  }

  /** A stamped message ends in a trailer block: the block its body ended in,
      if any, followed by the stamp's two lines. */
  lemma EndsInTrailers(message: string, hashes: PayloadHashes)
    ensures var body, stamped := Body(message), MessageWithTrailers(message, hashes);
            var inherited := if EndsWithTrailerBlock(body) then Lines(LastParagraph(body)) else [];
            EndsWithTrailerBlock(stamped) && Lines(LastParagraph(stamped)) == inherited + StampLines(hashes)
  {
    hide Body, Lines, StampTrailers, StampLines, IsTrailer, LastBreak;
    var body, trailers := Body(message), StampTrailers(hashes);
    StampTrailersRead(hashes);
    StampTrailersHaveNoBreak(hashes);
    BodyEnd(message);
    LastBreakExact(body);
    if EndsWithTrailerBlock(body) {
      JoinsTheBlock(body, hashes);
    } else {
      OpensABlock(body, hashes);
    }
  }

  lemma JoinsTheBlock(body: string, hashes: PayloadHashes)
    requires EndsWithTrailerBlock(body) && body != []
    requires body[|body| - 1] != '\n' && body[|body| - 1] != '\r'
    ensures var text := body + "\n" + StampTrailers(hashes);
            EndsWithTrailerBlock(text) && Lines(LastParagraph(text)) == Lines(LastParagraph(body)) + StampLines(hashes)
  {
    hide Lines, StampTrailers, StampLines, IsTrailer, LastBreak;
    var n, text, trailers := LastBreak(body), body + "\n" + StampTrailers(hashes), StampTrailers(hashes);
    StampTrailersRead(hashes);
    StampTrailersHaveNoBreak(hashes);
    LastBreakExact(body);
    var head := body + "\n";
    forall i | n < i ensures !IsBreak(head, i) {
      assert !IsBreak(body, i);
    }
    NoLaterBreak(head, hashes, n);
    assert IsBreak(text, n) by { assert IsBreak(body, n); }
    LastBreakIs(text, n);
    var paragraph := LastParagraph(body);
    assert LastParagraph(text) == paragraph + "\n" + trailers;
    assert paragraph[|paragraph| - 1] == body[|body| - 1];
    LinesThenMore(paragraph, trailers);
  }

  lemma OpensABlock(body: string, hashes: PayloadHashes)
    requires body != [] ==> body[|body| - 1] != '\n'
    ensures var text := body + "\n\n" + StampTrailers(hashes);
            EndsWithTrailerBlock(text) && Lines(LastParagraph(text)) == StampLines(hashes)
  {
    hide Lines, StampTrailers, StampLines, IsTrailer, LastBreak;
    var n, text, trailers := |body|, body + "\n\n" + StampTrailers(hashes), StampTrailers(hashes);
    StampTrailersRead(hashes);
    StampTrailersHaveNoBreak(hashes);
    NoLaterBreak(body + "\n\n", hashes, n);
    assert text[n] == '\n' && text[n + 1] == '\n';
    LastBreakIs(text, n);
    assert LastParagraph(text) == trailers;
    assert [] + StampLines(hashes) == StampLines(hashes);
  }
}
