/** What single blocks and lines of a configuration text mean, apart from the
    way they are read. */
module ConfigMeaning {
  import opened Bytes
  import opened ManifestModel
  import opened Config
  import opened ConfigBlocks

  // ----- lines -----

  predicate IsBlank(b: Byte) { b == ' ' || b == '\t' }

  function WithoutBlanks(line: Bytes): Bytes {
    if line == [] then [] else (if IsBlank(line[0]) then [] else [line[0]]) + WithoutBlanks(line[1..])
  }

  function Concatenated(tokens: seq<Bytes>): Bytes {
    if tokens == [] then [] else tokens[0] + Concatenated(tokens[1..])
  }

  lemma {:induction false} PlainPrefix(a: Bytes, b: Bytes)
    requires forall i | 0 <= i < |a| :: !IsBlank(a[i])
    ensures WithoutBlanks(a + b) == a + WithoutBlanks(b)
  {
    if a == [] {
      assert a + b == b;
    } else {
      assert (a + b)[1..] == a[1..] + b;
      PlainPrefix(a[1..], b);
    }
  }

  lemma {:induction false} RunIsPlain(line: Bytes)
    ensures forall i | 0 <= i < RunLength(line) :: !IsBlank(line[i])
    ensures RunLength(line) < |line| ==> IsBlank(line[RunLength(line)])
  {
    if line != [] && !IsBlank(line[0]) { RunIsPlain(line[1..]); }
  }

  /** The tokens of a line are non-empty, free of blanks, and hold every other
      byte of the line in order. */
  lemma {:induction false} TokensKeepEverything(line: Bytes)
    ensures forall i | 0 <= i < |Tokens(line)| ::
              Tokens(line)[i] != [] && forall k | 0 <= k < |Tokens(line)[i]| :: !IsBlank(Tokens(line)[i][k])
    ensures Concatenated(Tokens(line)) == WithoutBlanks(line)
    decreases |line|
  {
    if line != [] {
      if IsBlank(line[0]) {
        TokensKeepEverything(line[1..]);
      } else {
        var n := RunLength(line);
        RunIsPlain(line);
        TokensKeepEverything(line[n..]);
        PlainPrefix(line[..n], line[n..]);
        assert line == line[..n] + line[n..];
      }
    }
  }

  /** The tokens with blanks around them: `gaps[i]` before the i-th token, the
      last gap after them all. */
  function Spread(gaps: seq<Bytes>, tokens: seq<Bytes>): Bytes
    requires |gaps| == |tokens| + 1
  {
    if tokens == [] then gaps[0] else gaps[0] + tokens[0] + Spread(gaps[1..], tokens[1..])
  }

  predicate AreBlank(text: Bytes) { forall i | 0 <= i < |text| :: text[i] == ' ' || text[i] == '\t' }

  predicate ArePlain(text: Bytes) { forall i | 0 <= i < |text| :: text[i] != ' ' && text[i] != '\t' }

  /** The line is these tokens between spaces and tabs, at least one between
      two tokens. */
  ghost predicate IsSpread(line: Bytes, gaps: seq<Bytes>, tokens: seq<Bytes>) {
    && |gaps| == |tokens| + 1 && line == Spread(gaps, tokens)
    && (forall i | 0 <= i < |gaps| :: AreBlank(gaps[i]))
    && (forall i | 0 < i < |gaps| - 1 :: gaps[i] != [])
    && forall i | 0 <= i < |tokens| :: tokens[i] != [] && ArePlain(tokens[i])
  }

  lemma {:induction false} BlanksSkipped(gap: Bytes, rest: Bytes)
    requires AreBlank(gap)
    ensures Tokens(gap + rest) == Tokens(rest)
  {
    if gap == [] {
      assert gap + rest == rest;
    } else {
      BlanksSkipped(gap[1..], rest);
      assert (gap + rest)[1..] == gap[1..] + rest;
    }
  }

  lemma {:induction false} RunOf(token: Bytes, rest: Bytes)
    requires ArePlain(token) && (rest == [] || rest[0] == ' ' || rest[0] == '\t')
    ensures RunLength(token + rest) == |token|
  {
    if token == [] {
      assert token + rest == rest;
    } else {
      RunOf(token[1..], rest);
      assert (token + rest)[1..] == token[1..] + rest;
    }
  }

  lemma SpreadTail(line: Bytes, gaps: seq<Bytes>, tokens: seq<Bytes>)
    requires IsSpread(line, gaps, tokens) && tokens != []
    ensures var rest := Spread(gaps[1..], tokens[1..]);
            && IsSpread(rest, gaps[1..], tokens[1..])
            && (rest == [] || rest[0] == ' ' || rest[0] == '\t')
  {
    hide AreBlank, ArePlain;
    var laterGaps, later := gaps[1..], tokens[1..];
    assert forall i | 0 <= i < |laterGaps| :: laterGaps[i] == gaps[i + 1];
    assert forall i | 0 <= i < |later| :: later[i] == tokens[i + 1];
    var rest := Spread(laterGaps, later);
    assert AreBlank(gaps[1]);
    if rest != [] {
      assert later != [] ==> gaps[1] != [];
      assert gaps[1] <= rest && gaps[1] != [];
      assert rest[0] == gaps[1][0] by { assert rest[..|gaps[1]|] == gaps[1]; }
      FirstIsBlank(gaps[1]);
    }
  }

  lemma FirstIsBlank(gap: Bytes)
    requires AreBlank(gap) && gap != []
    ensures gap[0] == ' ' || gap[0] == '\t'
  {
  }

  /** A line's tokens are the one way to read it as tokens between blanks. */
  lemma {:induction false} TokensOfSpread(line: Bytes, gaps: seq<Bytes>, tokens: seq<Bytes>)
    requires IsSpread(line, gaps, tokens)
    ensures Tokens(line) == tokens
    decreases |tokens|
  {
    hide AreBlank, ArePlain, RunLength;
    if tokens == [] {
      BlanksSkipped(gaps[0], []);
      assert gaps[0] + [] == line;
    } else {
      var rest := Spread(gaps[1..], tokens[1..]);
      SpreadTail(line, gaps, tokens);
      TokensOfSpread(rest, gaps[1..], tokens[1..]);
      assert line == gaps[0] + (tokens[0] + rest);
      BlanksSkipped(gaps[0], tokens[0] + rest);
      RunOf(tokens[0], rest);
      var run := tokens[0] + rest;
      PlainFirst(tokens[0]);
      assert run[0] == tokens[0][0];
      assert run[..|tokens[0]|] == tokens[0] && run[|tokens[0]|..] == rest;
    }
  }

  lemma PlainFirst(token: Bytes)
    requires ArePlain(token) && token != []
    ensures token[0] != ' ' && token[0] != '\t'
  {
  }

  /** Every line can be read so. */
  lemma {:induction false} EveryLineIsSpread(line: Bytes) returns (gaps: seq<Bytes>)
    ensures IsSpread(line, gaps, Tokens(line))
    decreases |line|
  {
    hide AreBlank, ArePlain, RunLength, IsSpread;
    if line == [] {
      gaps := [[]];
      EmptyIsSpread();
    } else if IsBlank(line[0]) {
      var later := EveryLineIsSpread(line[1..]);
      gaps := WiderGap(line, later, Tokens(line));
    } else {
      var n := RunLength(line);
      RunIsPlain(line);
      var later := EveryLineIsSpread(line[n..]);
      gaps := [[]] + later;
      TokenInFront(line, n, later, Tokens(line[n..]));
    }
  }

  lemma EmptyIsSpread()
    ensures IsSpread([], [[]], [])
  {
  }

  lemma WiderGap(line: Bytes, later: seq<Bytes>, tokens: seq<Bytes>) returns (gaps: seq<Bytes>)
    requires line != [] && IsBlank(line[0]) && IsSpread(line[1..], later, tokens)
    ensures IsSpread(line, gaps, tokens)
  {
    hide ArePlain;
    gaps := [[line[0]] + later[0]] + later[1..];
    assert gaps[1..] == later[1..];
    assert line == [line[0]] + line[1..];
    assert forall i | 0 < i < |gaps| :: gaps[i] == later[i];
    if tokens != [] {
      var rest := Spread(later[1..], tokens[1..]);
      assert [line[0]] + (later[0] + tokens[0] + rest) == ([line[0]] + later[0]) + tokens[0] + rest;
    }
  }

  lemma TokenInFront(line: Bytes, n: nat, later: seq<Bytes>, tokens: seq<Bytes>)
    requires 0 < n <= |line| && forall i | 0 <= i < n :: !IsBlank(line[i])
    requires n < |line| ==> IsBlank(line[n])
    requires IsSpread(line[n..], later, tokens)
    ensures IsSpread(line, [[]] + later, [line[..n]] + tokens)
  {
    var gaps, all := [[]] + later, [line[..n]] + tokens;
    assert gaps[1..] == later && all[1..] == tokens;
    assert line == line[..n] + line[n..];
    assert [] + line[..n] + Spread(later, tokens) == line;
    assert ArePlain(line[..n]) && AreBlank([]);
    hide AreBlank, ArePlain;
    assert forall i | 0 < i < |gaps| :: gaps[i] == later[i - 1];
    assert forall i | 0 < i < |all| :: all[i] == tokens[i - 1];
    if tokens != [] { FrontShows(line[n..], later, tokens); }
  }

  /** Without a gap in front, a token begins the line. */
  lemma FrontShows(line: Bytes, gaps: seq<Bytes>, tokens: seq<Bytes>)
    requires IsSpread(line, gaps, tokens) && tokens != []
    ensures line != [] && (gaps[0] == [] ==> !IsBlank(line[0]))
  {
    hide AreBlank;
    var rest := Spread(gaps[1..], tokens[1..]);
    assert line == gaps[0] + (tokens[0] + rest);
    assert (tokens[0] + rest)[0] == tokens[0][0];
  }

  /** Lexing: one carriage return at the end is dropped; a line whose first
      visible byte is a hash mark says nothing; any other is its tokens. */
  lemma LexLineExact(line: Bytes, gap: Bytes, rest: Bytes)
    requires AreBlank(gap) && (rest == [] || (rest[0] != ' ' && rest[0] != '\t'))
    requires line == gap + rest && (line == [] || line[|line| - 1] != '\r')
    ensures LexLine(line + "\r") == LexLine(line)
    ensures LexLine(line) == if rest != [] && rest[0] == '#' then [] else Tokens(line)
  {
    assert (line + "\r")[..|line|] == line;
    TrimsGap(gap, rest);
    MarkLeads(rest);
  }

  lemma {:induction false} TrimsGap(gap: Bytes, rest: Bytes)
    requires AreBlank(gap) && (rest == [] || (rest[0] != ' ' && rest[0] != '\t'))
    ensures Trimmed(gap + rest) == rest
  {
    if gap == [] {
      assert gap + rest == rest;
    } else {
      TrimsGap(gap[1..], rest);
      assert (gap + rest)[1..] == gap[1..] + rest;
    }
  }

  /** Each line that says something yields its first token and the others,
      under its own number. */
  lemma {:induction false} LexLinesExact(raw: seq<Bytes>, number: nat, line: Line)
    ensures line in LexLines(raw, number) <==>
            exists i | 0 <= i < |raw| ::
              LexLine(raw[i]) == [line.directive] + line.arguments && line.number == number + i
    decreases |raw|
  {
    hide LexLine;
    if raw != [] {
      var rest := raw[1..];
      LexLinesExact(rest, number + 1, line);
      var tokens := LexLine(raw[0]);
      if tokens != [] { assert tokens == [tokens[0]] + tokens[1..]; }
      if i :| 0 <= i < |raw| && LexLine(raw[i]) == [line.directive] + line.arguments && line.number == number + i {
        if i > 0 { assert LexLine(rest[i - 1]) == [line.directive] + line.arguments; }
      }
      if i :| 0 <= i < |rest| && LexLine(rest[i]) == [line.directive] + line.arguments
              && line.number == number + 1 + i
      {
        assert LexLine(raw[i + 1]) == [line.directive] + line.arguments;
      }
    }
  }

  /** The lines that say something stay in their order. */
  lemma {:induction false} LexLinesAscend(raw: seq<Bytes>, number: nat)
    ensures forall i, j | 0 <= i < j < |LexLines(raw, number)| ::
              LexLines(raw, number)[i].number < LexLines(raw, number)[j].number
    ensures forall i | 0 <= i < |LexLines(raw, number)| :: number <= LexLines(raw, number)[i].number
    decreases |raw|
  {
    hide LexLine;
    if raw != [] { LexLinesAscend(raw[1..], number + 1); }
  }

  // ----- a site block -----

  function UrlOf(line: Line): Option<Bytes> {
    if line.directive == "URL" && |line.arguments| == 1 && IsHttpsUrl(line.arguments[0]) then Some(line.arguments[0])
    else None
  }

  function ImprintGiven(line: Line): Option<ImprintAlgorithm> {
    if line.directive != "Imprint" then None
    else if line.arguments == ["sha256"] then Some(Sha256)
    else if line.arguments == ["sha384"] then Some(Sha384)
    else if line.arguments == ["sha512"] then Some(Sha512)
    else None
  }

  lemma ImprintExact(line: Line)
    ensures ImprintGiven(line) ==
            if line.directive == "Imprint" && |line.arguments| == 1 then ImprintOf(line.arguments[0]) else None
  {
    if |line.arguments| == 1 { assert line.arguments == [line.arguments[0]]; }
  }

  /** Names: one to 64 letters, digits, hyphens and underscores, with a letter
      or digit first and last. */
  lemma NameExact(name: Bytes)
    ensures IsValidName(name) <==>
            && 1 <= |name| <= 64
            && (forall b | b in name :: IsWordByte(b) || b as int == 0x2D || b as int == 0x5F)
            && IsWordByte(name[0]) && IsWordByte(name[|name| - 1])
  {
    assert forall b: Byte :: IsWordByte(b) <==> IsAlphanumeric(b);
    hide IsWordByte, IsAlphanumeric;
    forall i | 0 <= i < |name| ensures name[i] in name {}
  }

  predicate IsWordByte(b: Byte) {
    var n := b as int;
    0x30 <= n <= 0x39 || 0x41 <= n <= 0x5A || 0x61 <= n <= 0x7A
  }

  /** URLs: the scheme, then at least one byte, none of them blank, control or
      beyond ASCII. */
  lemma UrlExact(url: Bytes)
    ensures IsHttpsUrl(url) <==>
            exists rest: Bytes :: rest != [] && url == "https://" + rest && forall b | b in rest ::
              0x20 < b as int < 0x7F
  {
    var scheme: Bytes := "https://";
    assert forall i | 0 <= i < |scheme| :: IsGraphic(scheme[i]);
    if IsHttpsUrl(url) {
      var rest := url[8..];
      assert url == scheme + rest;
      assert forall i | 0 <= i < |rest| :: rest[i] == url[i + 8];
    }
    if rest: Bytes :| rest != [] && url == scheme + rest && forall b | b in rest :: 0x20 < b as int < 0x7F {
      assert url[..8] == scheme && forall i | 8 <= i < |url| :: url[i] == rest[i - 8] && rest[i - 8] in rest;
    }
  }

  predicate Opens(line: Line, directive: Bytes, name: Bytes) {
    line.directive == directive && line.arguments == [name] && IsValidName(name)
  }

  /** The block defines the site: its name, then its URL and its imprint, in
      either order, once each and nothing else. */
  predicate DefinesSite(block: seq<Line>, name: Bytes, site: Site) {
    && |block| == 3 && Opens(block[0], "Site", name)
    && ((UrlOf(block[1]) == Some(site.url) && ImprintGiven(block[2]) == Some(site.imprint)) ||
        (ImprintGiven(block[1]) == Some(site.imprint) && UrlOf(block[2]) == Some(site.url)))
  }

  lemma MarkLeads(text: Bytes)
    ensures "#" <= text <==> text != [] && text[0] == '#'
  {
  }

  lemma NoMark(text: Bytes)
    requires IsHttpsUrl(text) || ImprintOf(text).Some? || IsValidName(text)
    ensures !("#" <= text)
  {
    MarkLeads(text);
    assert IsHttpsUrl(text) ==> text[0] == "https://"[0];
  }

  lemma OpenerExact(line: Line)
    requires IsOpener(line)
    ensures ReadDirective(INITIAL, line).Ok? <==> |line.arguments| == 1 && IsValidName(line.arguments[0])
    ensures ReadDirective(INITIAL, line).Ok? ==> ReadDirective(INITIAL, line).value == Started(line)
  {
    if |line.arguments| == 1 && IsValidName(line.arguments[0]) { NoMark(line.arguments[0]); }
  }

  /** How one line inside a site block is taken. */
  lemma SiteLine(site: PendingSite, line: Line)
    requires !IsOpener(line)
    ensures var state := INITIAL.(scope := SiteBlock(site));
            match ReadDirective(state, line)
            case Ok(next) =>
              || (UrlOf(line).Some? && site.url.None? && next == state.(scope := SiteBlock(site.(url := UrlOf(line)))))
              || (ImprintGiven(line).Some? && site.imprint.None?
                  && next == state.(scope := SiteBlock(site.(imprint := ImprintGiven(line)))))
            case Err(_) => (UrlOf(line).Some? ==> site.url.Some?) && (ImprintGiven(line).Some? ==> site.imprint.Some?)
    ensures !(UrlOf(line).Some? && ImprintGiven(line).Some?)
  {
    hide IsHttpsUrl, ImprintOf, ImprintGiven, Selection, Selects;
    ImprintExact(line);
    if UrlOf(line).Some? || ImprintGiven(line).Some? {
      NoMark(line.arguments[0]);
      assert line.arguments == [line.arguments[0]];
    }
  }

  lemma SiteOpens(block: seq<Line>)
    requires IsBlock(block) && block[0].directive == "Site"
    ensures Alone(block).Ok? ==> Opens(block[0], "Site", block[0].arguments[0])
    ensures |block[0].arguments| == 1 && IsValidName(block[0].arguments[0]) ==>
              Alone(block) == Closed(Started(block[0]), block[1..])
    ensures !(|block[0].arguments| == 1 && IsValidName(block[0].arguments[0])) ==> Alone(block).Err?
  {
    hide ReadDirective, CloseScope, IsValidName;
    OpenerExact(block[0]);
    if |block[0].arguments| == 1 { assert block[0].arguments == [block[0].arguments[0]]; }
  }

  /** Once a site has both its values no further line is taken. */
  lemma FullSite(site: PendingSite, lines: seq<Line>)
    requires HasNoOpener(lines) && site.url.Some? && site.imprint.Some?
    ensures var state := INITIAL.(scope := SiteBlock(site));
            if lines == [] then
              Closed(state, lines)
              == Ok(State(TopLevel, map[site.name := Site(site.url.value, site.imprint.value)], map[], []))
            else Closed(state, lines).Err?
  {
    hide ReadDirective, UrlOf, ImprintGiven, IsOpener;
    if lines != [] { SiteLine(site, lines[0]); }
  }

  lemma HalfSite(site: PendingSite, lines: seq<Line>)
    requires HasNoOpener(lines) && site.url.Some? != site.imprint.Some?
    ensures var state := INITIAL.(scope := SiteBlock(site));
            var missing :=
              |lines| == 1 && if site.url.None? then UrlOf(lines[0]).Some? else ImprintGiven(lines[0]).Some?;
            && (Closed(state, lines).Ok? <==> missing)
            && (missing ==> Closed(state, lines).value.sites ==
                              map[site.name := if site.url.None? then Site(UrlOf(lines[0]).value, site.imprint.value)
                                               else Site(site.url.value, ImprintGiven(lines[0]).value)]
                            && Closed(state, lines).value ==
                               State(TopLevel, Closed(state, lines).value.sites, map[], []))
  {
    hide ReadDirective, UrlOf, ImprintGiven, IsOpener;
    if lines != [] {
      SiteLine(site, lines[0]);
      assert HasNoOpener(lines[1..]) by { assert forall i | 0 <= i < |lines[1..]| :: lines[1..][i] == lines[i + 1]; }
      if UrlOf(lines[0]).Some? && site.url.None? { FullSite(site.(url := UrlOf(lines[0])), lines[1..]); }
      if ImprintGiven(lines[0]).Some? && site.imprint.None? {
        FullSite(site.(imprint := ImprintGiven(lines[0])), lines[1..]);
      }
    }
  }

  /** The site a well-formed block defines. */
  function SiteDefined(block: seq<Line>): Option<Site> {
    if |block| != 3 || |block[0].arguments| != 1 || !Opens(block[0], "Site", block[0].arguments[0]) then None
    else
      match (UrlOf(block[1]), ImprintGiven(block[2]), ImprintGiven(block[1]), UrlOf(block[2]))
      case (Some(url), Some(imprint), _, _) => Some(Site(url, imprint))
      case (_, _, Some(imprint), Some(url)) => Some(Site(url, imprint))
      case _ => None
  }

  lemma DefinedExact(block: seq<Line>, name: Bytes, site: Site)
    ensures DefinesSite(block, name, site) <==> SiteDefined(block) == Some(site) && block[0].arguments == [name]
  {
    hide IsHttpsUrl, ImprintOf, IsValidName;
  }

  lemma SiteBlockReads(block: seq<Line>)
    requires IsBlock(block) && block[0].directive == "Site"
    ensures Alone(block).Ok? <==> SiteDefined(block).Some?
    ensures Alone(block).Ok? ==>
              Alone(block).value == State(TopLevel, map[block[0].arguments[0] := SiteDefined(block).value], map[], [])
  {
    hide ReadDirective, UrlOf, ImprintGiven, IsOpener, CloseScope, IsValidName;
    SiteOpens(block);
    var body := block[1..];
    if |block[0].arguments| == 1 && IsValidName(block[0].arguments[0]) {
      var site := PendingSite(block[0].number, block[0].arguments[0], None, None);
      EmptySite(site, body);
      assert block[0].arguments == [block[0].arguments[0]];
    }
  }

  /** A site block is accepted exactly when it defines a site, and then it
      defines that site and nothing more. */
  lemma SiteBlockExact(block: seq<Line>)
    requires IsBlock(block) && block[0].directive == "Site"
    ensures Alone(block).Ok? <==> exists name, site :: DefinesSite(block, name, site)
    ensures forall name, site | DefinesSite(block, name, site) ::
              Alone(block) == Ok(State(TopLevel, map[name := site], map[], []))
  {
    hide Alone, SiteDefined, DefinesSite;
    SiteBlockReads(block);
    forall name, site
      ensures DefinesSite(block, name, site) <==> SiteDefined(block) == Some(site) && block[0].arguments == [name]
    {
      DefinedExact(block, name, site);
    }
    if SiteDefined(block).Some? {
      DefinedHasName(block);
      assert DefinesSite(block, block[0].arguments[0], SiteDefined(block).value);
    }
  }

  lemma DefinedHasName(block: seq<Line>)
    requires SiteDefined(block).Some?
    ensures block != [] && |block[0].arguments| == 1 && block[0].arguments == [block[0].arguments[0]]
  {
  }

  lemma EmptySite(site: PendingSite, lines: seq<Line>)
    requires HasNoOpener(lines) && site.url.None? && site.imprint.None?
    ensures var state := INITIAL.(scope := SiteBlock(site));
            var urlFirst := |lines| == 2 && UrlOf(lines[0]).Some? && ImprintGiven(lines[1]).Some?;
            var imprintFirst := |lines| == 2 && ImprintGiven(lines[0]).Some? && UrlOf(lines[1]).Some?;
            && (Closed(state, lines).Ok? <==> urlFirst || imprintFirst)
            && (urlFirst ==> Closed(state, lines) ==
                               Ok(State(TopLevel, map[site.name :=
                                          Site(UrlOf(lines[0]).value, ImprintGiven(lines[1]).value)], map[], [])))
            && (imprintFirst ==> Closed(state, lines) ==
                                   Ok(State(TopLevel, map[site.name :=
                                              Site(UrlOf(lines[1]).value, ImprintGiven(lines[0]).value)], map[], [])))
  {
    hide ReadDirective, UrlOf, ImprintGiven, IsOpener;
    if lines != [] {
      SiteLine(site, lines[0]);
      var rest := lines[1..];
      assert HasNoOpener(rest) by { assert forall i | 0 <= i < |rest| :: rest[i] == lines[i + 1]; }
      if UrlOf(lines[0]).Some? { HalfSite(site.(url := UrlOf(lines[0])), rest); }
      if ImprintGiven(lines[0]).Some? { HalfSite(site.(imprint := ImprintGiven(lines[0])), rest); }
      if |lines| == 2 { SiteLine(site, lines[1]); }
    }
  }

  // ----- a profile block -----

  /** The selection a line makes: a site, and whether the walk continues when
      it fails. */
  function ChoiceOf(line: Line): Option<UseSite> {
    if line.directive != "UseSite" || line.arguments == [] || "#" <= line.arguments[0] then None
    else if line.arguments == [line.arguments[0]] then Some(UseSite(line.arguments[0], false))
    else if line.arguments == [line.arguments[0], "ContinueOnError"] then Some(UseSite(line.arguments[0], true))
    else None
  }

  /** Only these lines are read as selections. */
  lemma ChoiceExact(line: Line)
    ensures line.directive == "UseSite" && (forall a | a in line.arguments :: !("#" <= a)) ==>
              Selection(line.arguments) == ChoiceOf(line)
    ensures ChoiceOf(line).Some? ==> forall a | a in line.arguments :: !("#" <= a)
  {
    var option: Bytes := "ContinueOnError";
    assert option[0] != '#';
    MarkLeads(option);
    var arguments := line.arguments;
    if |arguments| == 1 { assert arguments == [arguments[0]]; }
    if |arguments| == 2 { assert arguments == [arguments[0], arguments[1]] && arguments[1] in arguments; }
    if arguments != [] { assert arguments[0] in arguments; }
  }

  /** The profile a run of lines spells, one selection for each line. */
  predicate Spells(lines: seq<Line>, selections: seq<UseSite>) {
    |lines| == |selections| && forall i | 0 <= i < |lines| :: ChoiceOf(lines[i]) == Some(selections[i])
  }

  function ReferencesTo(lines: seq<Line>, selections: seq<UseSite>): (references: seq<SiteReference>)
    requires |lines| == |selections|
  {
    seq(|lines|, i requires 0 <= i < |lines| => SiteReference(selections[i].siteName, lines[i].number))
  }

  lemma ProfileLine(profile: PendingProfile, references: seq<SiteReference>, line: Line)
    requires !IsOpener(line)
    ensures var state := State(ProfileBlock(profile), map[], map[], references);
            match ReadDirective(state, line)
            case Ok(next) =>
              && ChoiceOf(line).Some? && !Selects(profile.selections, ChoiceOf(line).value.siteName)
              && next == State(ProfileBlock(profile.(selections := profile.selections + [ChoiceOf(line).value])),
                               map[], map[],
                               references + [SiteReference(ChoiceOf(line).value.siteName, line.number)])
            case Err(_) => ChoiceOf(line).Some? ==> Selects(profile.selections, ChoiceOf(line).value.siteName)
  {
    hide IsHttpsUrl, ImprintOf, Selection, Selects, ChoiceOf;
    ChoiceExact(line);
    ChoiceIsUse(line);
  }

  lemma ChoiceIsUse(line: Line)
    ensures ChoiceOf(line).Some? ==> line.directive == "UseSite"
  {
  }

  lemma Grows(selections: seq<UseSite>, more: UseSite)
    requires DistinctSelections(selections)
    ensures DistinctSelections(selections + [more]) <==> !Selects(selections, more.siteName)
  {
    var longer := selections + [more];
    if Selects(selections, more.siteName) {
      var s :| s in selections && s.siteName == more.siteName;
      var i :| 0 <= i < |selections| && selections[i] == s;
      assert longer[i].siteName == longer[|selections|].siteName;
    } else {
      forall i, j | 0 <= i < j < |longer| ensures longer[i].siteName != longer[j].siteName {
        assert longer[i] in selections;
      }
    }
  }

  lemma PrefixDistinct(a: seq<UseSite>, b: seq<UseSite>)
    requires DistinctSelections(a + b)
    ensures DistinctSelections(a)
  {
    assert forall i | 0 <= i < |a| :: (a + b)[i] == a[i];
  }

  /** Reading on from a profile: it succeeds exactly when the lines spell
      selections that repeat nothing. */
  lemma {:induction false} ProfileLines(profile: PendingProfile, references: seq<SiteReference>, lines: seq<Line>,
          selections: seq<UseSite>)
    requires HasNoOpener(lines) && DistinctSelections(profile.selections) && Spells(lines, selections)
    ensures var state := State(ProfileBlock(profile), map[], map[], references);
            if DistinctSelections(profile.selections + selections) then
              ReadAll(state, lines) ==
                  Ok(State(ProfileBlock(profile.(selections := profile.selections + selections)), map[], map[],
                                                references + ReferencesTo(lines, selections)))
            else ReadAll(state, lines).Err?
    decreases |lines|
  {
    hide ReadDirective, IsOpener, ChoiceOf, Selects, DistinctSelections;
    if lines == [] {
      assert profile.selections + selections == profile.selections;
      assert references + ReferencesTo(lines, selections) == references;
    } else {
      var first, others, rest := selections[0], selections[1..], lines[1..];
      ProfileLine(profile, references, lines[0]);
      Grows(profile.selections, first);
      AppendShift(profile.selections, first, others);
      assert [first] + others == selections;
      assert Spells(rest, others) by {
        assert forall i | 0 <= i < |rest| :: rest[i] == lines[i + 1] && others[i] == selections[i + 1];
      }
      if Selects(profile.selections, first.siteName) {
        if DistinctSelections(profile.selections + selections) { PrefixDistinct(profile.selections + [first], others); }
      } else {
        var reference := SiteReference(first.siteName, lines[0].number);
        ProfileLines(profile.(selections := profile.selections + [first]), references + [reference], rest, others);
        AppendShift(references, reference, ReferencesTo(rest, others));
        assert [reference] + ReferencesTo(rest, others) == ReferencesTo(lines, selections);
      }
    }
  }

  predicate AllChoose(lines: seq<Line>) {
    forall i | 0 <= i < |lines| :: ChoiceOf(lines[i]).Some?
  }

  function Choices(lines: seq<Line>): (selections: seq<UseSite>)
    requires AllChoose(lines)
    ensures Spells(lines, selections)
  {
    seq(|lines|, i requires 0 <= i < |lines| => ChoiceOf(lines[i]).value)
  }

  lemma {:induction false} OnlyChoicesRead(profile: PendingProfile, references: seq<SiteReference>, lines: seq<Line>)
    requires HasNoOpener(lines) && ReadAll(State(ProfileBlock(profile), map[], map[], references), lines).Ok?
    ensures AllChoose(lines)
    decreases |lines|
  {
    hide ReadDirective, IsOpener, ChoiceOf, Selects;
    if lines != [] {
      ProfileLine(profile, references, lines[0]);
      var choice, rest := ChoiceOf(lines[0]).value, lines[1..];
      assert HasNoOpener(rest) by { assert forall i | 0 <= i < |rest| :: rest[i] == lines[i + 1]; }
      OnlyChoicesRead(profile.(selections := profile.selections + [choice]),
                      references + [SiteReference(choice.siteName, lines[0].number)], rest);
      assert forall i | 1 <= i < |lines| :: lines[i] == rest[i - 1];
    }
  }

  /** The block defines a profile: its name, then selections that repeat no
      site, at least one. */
  predicate DefinesProfile(block: seq<Line>) {
    && block != [] && |block[0].arguments| == 1 && Opens(block[0], "Profile", block[0].arguments[0])
    && |block| > 1 && AllChoose(block[1..]) && DistinctSelections(Choices(block[1..]))
  }

  /** A profile block is accepted exactly when it defines a profile, and then
      it defines that profile, its selections in their written order, and
      refers to the sites it selects. */
  lemma ProfileBlockExact(block: seq<Line>)
    requires IsBlock(block) && block[0].directive == "Profile"
    ensures Alone(block).Ok? <==> DefinesProfile(block)
    ensures DefinesProfile(block) ==>
              var body := block[1..];
              Alone(block).value == State(TopLevel, map[], map[block[0].arguments[0] := Profile(Choices(body))],
                  ReferencesTo(body, Choices(body)))
  {
    hide ReadDirective, IsOpener, ChoiceOf, IsValidName, DistinctSelections;
    OpenerExact(block[0]);
    var body := block[1..];
    if |block[0].arguments| == 1 && IsValidName(block[0].arguments[0]) {
      assert block[0].arguments == [block[0].arguments[0]];
      var profile := PendingProfile(block[0].number, block[0].arguments[0], []);
      assert Started(block[0]) == State(ProfileBlock(profile), map[], map[], []);
      if ReadAll(Started(block[0]), body).Ok? { OnlyChoicesRead(profile, [], body); }
      if AllChoose(body) {
        NoneRepeat();
        ProfileLines(profile, [], body, Choices(body));
        AppendToNothing(Choices(body));
        AppendToNothing(ReferencesTo(body, Choices(body)));
      }
    }
  }

  lemma NoneRepeat()
    ensures DistinctSelections([])
  {
  }
}
