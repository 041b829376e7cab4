/** The manifest text spelled out: what stands on each line, and in which
    order the lines come. */
module ManifestLayout {
  import opened Bytes
  import opened Sorting
  import opened Hex
  import opened UnicodeTable
  import opened PathCodec
  import opened ManifestModel
  import opened ManifestText
  import ManifestLines

  // ----- lines -----

  function HashText(hashes: PayloadHashes): Bytes {
    "sha256:" + (Encode(LOWERCASE, hashes.sha256) + (" sha3-256:" + Encode(LOWERCASE, hashes.sha3)))
  }

  function EntryText(table: seq<Range>, e: Entry): Bytes {
    "entry --path " + (EncodePath(table, e.path) + (" --mode " + (ModeText(e.mode) + (" --size " + (Decimal(e.size)
    + (" -- " + HashText(e.contentHashes)))))))
  }

  function SpecText(spec: AnchorSpec): Bytes {
    match spec
    case Rfc3161 => "rfc3161"
    case Unrecognized(name) => name
  }

  function TokenText(commit: Bytes, t: PastToken): Bytes {
    "past-token --commit " + (commit + (" --spec " + (SpecText(t.spec) + (" --site " + (t.site
    + (" -- " + HashText(t.tokenHashes)))))))
  }

  function ManifestLineText(commit: Bytes, hashes: PayloadHashes): Bytes {
    "past-manifest --commit " + (commit + (" -- " + HashText(hashes)))
  }

  function PredecessorText(table: seq<Range>, commit: Bytes, origin: Bytes): Bytes {
    "predecessor --commit " + (commit + (" -- " + EncodePath(table, origin)))
  }

  /** Each parent after a blank. */
  function Parents(parents: seq<Bytes>): Bytes {
    if parents == [] then [] else " " + parents[0] + Parents(parents[1..])
  }

  function ParentsText(parents: seq<Bytes>): Bytes { "parents --" + Parents(parents) }

  /** One more field in front of the others. */
  lemma FieldFirst(name: Bytes, rest: seq<Bytes>)
    requires rest != []
    ensures Line([name] + rest) == name + (" " + Line(rest))
  {
    assert ([name] + rest)[1..] == rest;
    assert name + [' '] + Line(rest) == name + (" " + Line(rest));
  }

  /** A flag and its value between a blank and the other fields. */
  lemma FlagFirst(flag: Bytes, value: Bytes, rest: seq<Bytes>)
    requires rest != []
    ensures " " + Line([flag, value] + rest) == (" " + flag + " ") + (value + (" " + Line(rest)))
  {
    FieldFirst(value, rest);
    FieldFirst(flag, [value] + rest);
    assert [flag] + ([value] + rest) == [flag, value] + rest;
    hide Line;
    var tail := value + (" " + Line(rest));
    assert " " + (flag + (" " + tail)) == (" " + flag + " ") + tail;
  }

  lemma TwoHashes(a: Bytes, b: Bytes)
    ensures "sha256:" + a + (" " + ("sha3-256:" + b)) == "sha256:" + (a + (" sha3-256:" + b))
  {
    assert " " + ("sha3-256:" + b) == " sha3-256:" + b;
  }

  lemma HashesLast(hashes: PayloadHashes)
    ensures " " + Line(["--"] + HashFields(hashes)) == " -- " + HashText(hashes)
  {
    hide Encode;
    var a, b := Encode(LOWERCASE, hashes.sha256), Encode(LOWERCASE, hashes.sha3);
    hide LOWERCASE;
    var first, second := HashFields(hashes)[0], HashFields(hashes)[1];
    assert first == "sha256:" + a && second == "sha3-256:" + b;
    assert HashFields(hashes) == [first] + [second];
    hide HashFields;
    FieldFirst(first, [second]);
    FieldFirst("--", HashFields(hashes));
    assert Line([second]) == second;
    hide Line;
    TwoHashes(a, b);
    assert " " + ("--" + (" " + HashText(hashes))) == " -- " + HashText(hashes);
  }

  lemma FirstFlag(name: Bytes, flag: Bytes, rest: Bytes)
    ensures name + ((" " + flag + " ") + rest) == (name + " " + flag + " ") + rest
  {
  }

  lemma EntryLineSpells(table: seq<Range>, e: Entry)
    ensures EntryLine(table, e) == EntryText(table, e)
  {
    hide Line, HashText, HashFields, EncodePath, ModeText, Decimal;
    var last := ["--"] + HashFields(e.contentHashes);
    var size := ["--size", Decimal(e.size)] + last;
    var mode := ["--mode", ModeText(e.mode)] + size;
    var path := ["--path", EncodePath(table, e.path)] + mode;
    assert EntryTokens(table, e) == ["entry"] + path;
    FieldFirst("entry", path);
    FlagFirst("--path", EncodePath(table, e.path), mode);
    FlagFirst("--mode", ModeText(e.mode), size);
    FlagFirst("--size", Decimal(e.size), last);
    HashesLast(e.contentHashes);
    assert " " + "--mode" + " " == " --mode " && " " + "--size" + " " == " --size ";
    FirstFlag("entry", "--path", EncodePath(table, e.path) + (" " + Line(mode)));
    assert "entry" + " " + "--path" + " " == "entry --path ";
  }

  lemma TokenLineSpells(commit: Bytes, t: PastToken)
    ensures Line(PastTokenTokens(commit, t)) == TokenText(commit, t)
  {
    assert SpecText(t.spec) == t.spec.Label();
    hide Line, HashText, HashFields, SpecText;
    var last := ["--"] + HashFields(t.tokenHashes);
    var site := ["--site", t.site] + last;
    var spec := ["--spec", t.spec.Label()] + site;
    var all := ["--commit", commit] + spec;
    assert PastTokenTokens(commit, t) == ["past-token"] + all;
    FieldFirst("past-token", all);
    FlagFirst("--commit", commit, spec);
    FlagFirst("--spec", t.spec.Label(), site);
    FlagFirst("--site", t.site, last);
    HashesLast(t.tokenHashes);
    assert " " + "--spec" + " " == " --spec " && " " + "--site" + " " == " --site ";
    FirstFlag("past-token", "--commit", commit + (" " + Line(spec)));
    assert "past-token" + " " + "--commit" + " " == "past-token --commit ";
  }

  lemma ManifestLineSpells(commit: Bytes, hashes: PayloadHashes)
    ensures Line(PastManifestTokens(commit, hashes)) == ManifestLineText(commit, hashes)
  {
    hide Line, HashText, HashFields;
    var last := ["--"] + HashFields(hashes);
    var all := ["--commit", commit] + last;
    assert PastManifestTokens(commit, hashes) == ["past-manifest"] + all;
    FieldFirst("past-manifest", all);
    FlagFirst("--commit", commit, last);
    HashesLast(hashes);
    FirstFlag("past-manifest", "--commit", commit + (" " + Line(last)));
    assert "past-manifest" + " " + "--commit" + " " == "past-manifest --commit ";
  }

  lemma PredecessorLineSpells(table: seq<Range>, commit: Bytes, origin: Bytes)
    ensures Line(PredecessorTokens(table, commit, origin)) == PredecessorText(table, commit, origin)
  {
    var path := EncodePath(table, origin);
    assert Line([path]) == path;
    hide Line, EncodePath;
    var last := ["--"] + [path];
    var all := ["--commit", commit] + last;
    assert PredecessorTokens(table, commit, origin) == ["predecessor"] + all;
    FieldFirst("predecessor", all);
    FlagFirst("--commit", commit, last);
    FieldFirst("--", [path]);
    assert " " + ("--" + (" " + path)) == " -- " + path;
    FirstFlag("predecessor", "--commit", commit + (" " + Line(last)));
    assert "predecessor" + " " + "--commit" + " " == "predecessor --commit ";
  }

  lemma {:induction false} FieldsAfter(front: Bytes, parents: seq<Bytes>)
    ensures Line([front] + parents) == front + Parents(parents)
    decreases |parents|
  {
    if parents == [] {
      assert [front] + parents == [front];
    } else {
      FieldsAfter(parents[0], parents[1..]);
      assert [parents[0]] + parents[1..] == parents;
      FieldFirst(front, parents);
      hide Line;
      var rest := Parents(parents[1..]);
      assert front + (" " + (parents[0] + rest)) == front + (" " + parents[0] + rest);
    }
  }

  lemma ParentsLineSpells(parents: seq<Bytes>)
    ensures Line(ParentsTokens(parents)) == ParentsText(parents)
  {
    FieldsAfter("--", parents);
    assert ParentsTokens(parents) == ["parents"] + (["--"] + parents);
    FieldFirst("parents", ["--"] + parents);
    hide Line, Parents;
    assert "parents" + (" " + ("--" + Parents(parents))) == "parents --" + Parents(parents);
  }

  // ----- order -----

  /** Tokens ascend by label and then by site, byte by byte. */
  ghost predicate TokensAscend(tokens: seq<PastToken>) {
    forall i, j | 0 <= i < j < |tokens| ::
      || ComesBefore(SpecText(tokens[i].spec), SpecText(tokens[j].spec))
      || (SpecText(tokens[i].spec) == SpecText(tokens[j].spec)
          && (tokens[i].site == tokens[j].site || ComesBefore(tokens[i].site, tokens[j].site)))
  }

  ghost predicate LinesAscend(lines: seq<Bytes>) {
    forall i, j | 0 <= i < j < |lines| :: lines[i] == lines[j] || ComesBefore(lines[i], lines[j])
  }

  lemma OrderedTokensAscend(tokens: seq<PastToken>)
    ensures TokensAscend(OrderedTokens(tokens))
  {
    hide LexLe, ComesBefore;
    ManifestLines.TokenOrderIsTotalPreorder();
    SortSorts(TokenLe, tokens);
    var ordered := OrderedTokens(tokens);
    forall i, j | 0 <= i < j < |ordered|
      ensures || ComesBefore(ordered[i].spec.Label(), ordered[j].spec.Label())
              || (ordered[i].spec.Label() == ordered[j].spec.Label()
                  && (ordered[i].site == ordered[j].site || ComesBefore(ordered[i].site, ordered[j].site)))
    {
      LexExact(ordered[i].spec.Label(), ordered[j].spec.Label());
      LexExact(ordered[i].site, ordered[j].site);
    }
  }

  lemma SortedLinesAscend(lines: seq<Bytes>)
    ensures LinesAscend(Sort(LEX_ORDER, lines))
  {
    hide LexLe, ComesBefore;
    LexIsTotalPreorder();
    SortSorts(LEX_ORDER, lines);
    var ordered := Sort(LEX_ORDER, lines);
    forall i, j | 0 <= i < j < |ordered| ensures ordered[i] == ordered[j] || ComesBefore(ordered[i], ordered[j]) {
      LexExact(ordered[i], ordered[j]);
    }
  }

  // ----- the whole text -----

  function TokensText(commit: Bytes, tokens: seq<PastToken>): Bytes {
    if tokens == [] then [] else TokenText(commit, tokens[0]) + "\n" + TokensText(commit, tokens[1..])
  }

  function AnnouncementText(table: seq<Range>, group: BindingGroup): Bytes {
    match group.predecessorOrigin
    case Some(origin) => PredecessorText(table, group.commit, origin) + "\n"
    case None => []
  }

  /** A group's announcement, if it has one, its manifest line and its tokens
      in the given order. */
  function GroupText(table: seq<Range>, group: BindingGroup, tokens: seq<PastToken>): Bytes {
    AnnouncementText(table, group)
    + (ManifestLineText(group.commit, group.manifestHashes) + "\n" + TokensText(group.commit, tokens))
  }

  function GroupsText(table: seq<Range>, groups: seq<BindingGroup>, tokens: seq<seq<PastToken>>): Bytes
    requires |groups| == |tokens|
  {
    if groups == [] then [] else GroupText(table, groups[0], tokens[0]) + GroupsText(table, groups[1..], tokens[1..])
  }

  function LinesText(lines: seq<Bytes>): Bytes {
    if lines == [] then [] else lines[0] + "\n" + LinesText(lines[1..])
  }

  /** The tokens are each group's own, in ascending order. */
  ghost predicate AreGroupTokens(groups: seq<BindingGroup>, tokens: seq<seq<PastToken>>) {
    |tokens| == |groups| && forall i | 0 <= i < |groups| ::
      multiset(tokens[i]) == multiset(groups[i].tokens) && TokensAscend(tokens[i])
  }

  lemma {:induction false} TokensSpell(commit: Bytes, tokens: seq<PastToken>)
    requires TokenLines(commit, tokens).Ok?
    ensures Unlines(TokenLines(commit, tokens).value) == TokensText(commit, tokens)
    decreases |tokens|
  {
    hide TokenText, Line, IsBareToken;
    if tokens != [] {
      TokensSpell(commit, tokens[1..]);
      TokenLineSpells(commit, tokens[0]);
      UnlinesConcat([Line(PastTokenTokens(commit, tokens[0]))], TokenLines(commit, tokens[1..]).value);
      UnlinesOne(Line(PastTokenTokens(commit, tokens[0])));
    }
  }

  lemma AnnouncementSpells(table: seq<Range>, group: BindingGroup)
    ensures Unlines(PredecessorLines(table, group)) == AnnouncementText(table, group)
  {
    hide Line, PredecessorText;
    if group.predecessorOrigin.Some? {
      PredecessorLineSpells(table, group.commit, group.predecessorOrigin.value);
      UnlinesOne(Line(PredecessorTokens(table, group.commit, group.predecessorOrigin.value)));
    }
  }

  lemma ThreeParts(a: seq<Bytes>, line: Bytes, b: seq<Bytes>)
    ensures Unlines(a + [line] + b) == Unlines(a) + (line + "\n" + Unlines(b))
  {
    UnlinesConcat(a + [line], b);
    UnlinesConcat(a, [line]);
    UnlinesOne(line);
  }

  lemma GroupSpells(table: seq<Range>, group: BindingGroup)
    requires GroupLines(table, group).Ok?
    ensures Unlines(GroupLines(table, group).value) == GroupText(table, group, OrderedTokens(group.tokens))
  {
    var opening := Line(PastManifestTokens(group.commit, group.manifestHashes));
    ManifestLineSpells(group.commit, group.manifestHashes);
    hide PastManifestTokens, Line, IsBareToken, TokenLines, OrderedTokens, ManifestLineText, PredecessorLines,
         AnnouncementText, Unlines, TokensText;
    var tokens := OrderedTokens(group.tokens);
    TokensSpell(group.commit, tokens);
    AnnouncementSpells(table, group);
    ThreeParts(PredecessorLines(table, group), opening, TokenLines(group.commit, tokens).value);
  }

  lemma UnlinesOne(line: Bytes)
    ensures Unlines([line]) == line + "\n"
  {
    assert [line][1..] == [];
  }

  lemma {:induction false} GroupsSpell(table: seq<Range>,
          groups: seq<BindingGroup>) returns (tokens: seq<seq<PastToken>>)
    requires AllGroupLines(table, groups).Ok?
    ensures AreGroupTokens(groups, tokens)
    ensures Unlines(AllGroupLines(table, groups).value) == GroupsText(table, groups, tokens)
    decreases |groups|
  {
    hide GroupLines, GroupText, TokensAscend, OrderedTokens;
    tokens := [];
    if groups != [] {
      var rest := groups[1..];
      var later := GroupsSpell(table, rest);
      GroupSpells(table, groups[0]);
      OrderedTokensAscend(groups[0].tokens);
      tokens := [OrderedTokens(groups[0].tokens)] + later;
      assert forall i | 0 < i < |groups| :: groups[i] == rest[i - 1] && tokens[i] == later[i - 1];
      assert tokens[1..] == later;
      UnlinesConcat(GroupLines(table, groups[0]).value, AllGroupLines(table, rest).value);
    }
  }

  lemma {:induction false} UnlinesIsText(lines: seq<Bytes>)
    ensures Unlines(lines) == LinesText(lines)
  {
    if lines != [] { UnlinesIsText(lines[1..]); }
  }

  /** The manifest's entries as they are written, in whatever order. */
  function EntryTexts(table: seq<Range>, entries: seq<Entry>): (lines: seq<Bytes>)
    ensures |lines| == |entries| && forall i | 0 <= i < |entries| :: lines[i] == EntryText(table, entries[i])
  {
    seq(|entries|, i requires 0 <= i < |entries| => EntryText(table, entries[i]))
  }

  /** The text of a manifest: the header; the parents on one line, if there are
      any; each group in the given order, its tokens ascending; and the entries,
      whose lines ascend. */
  lemma SerializedExact(table: seq<Range>, manifest: Manifest)
    returns (tokens: seq<seq<PastToken>>, entryLines: seq<Bytes>)
    requires Serialized(table, manifest).Ok?
    ensures AreGroupTokens(manifest.bindingGroups, tokens)
    ensures multiset(entryLines) == multiset(EntryTexts(table, manifest.entries)) && LinesAscend(entryLines)
    ensures Serialized(table, manifest).value ==
            "tydence-manifest/v1\n"
            + ((if manifest.parents == [] then [] else ParentsText(manifest.parents) + "\n")
               + (GroupsText(table, manifest.bindingGroups, tokens) + LinesText(entryLines)))
  {
    hide ParentsText, GroupsText, AllGroupLines, EntryText, EntryLine, LinesAscend, Sort, AreGroupTokens, Line;
    tokens := GroupsSpell(table, manifest.bindingGroups);
    forall i | 0 <= i < |manifest.entries|
      ensures EntryLine(table, manifest.entries[i]) == EntryText(table, manifest.entries[i])
    {
      EntryLineSpells(table, manifest.entries[i]);
    }
    assert EntryLines(table, manifest.entries) == EntryTexts(table, manifest.entries);
    entryLines := Sort(LEX_ORDER, EntryTexts(table, manifest.entries));
    SortedLinesAscend(EntryTexts(table, manifest.entries));
    var parents, groups := ParentLines(manifest.parents).value, AllGroupLines(table, manifest.bindingGroups).value;
    UnlinesConcat([HEADER], parents + groups + entryLines);
    UnlinesConcat(parents + groups, entryLines);
    UnlinesConcat(parents, groups);
    UnlinesOne(HEADER);
    UnlinesIsText(entryLines);
    ParentsSpell(manifest.parents);
    assert HEADER + "\n" == "tydence-manifest/v1\n";
  }

  lemma ParentsSpell(parents: seq<Bytes>)
    requires ParentLines(parents).Ok?
    ensures Unlines(ParentLines(parents).value) == if parents == [] then [] else ParentsText(parents) + "\n"
  {
    hide ParentsText, Line;
    if parents != [] {
      ParentsLineSpells(parents);
      UnlinesOne(Line(ParentsTokens(parents)));
    }
  }
}
