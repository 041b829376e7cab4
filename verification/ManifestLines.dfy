/** The written lines: every field keeps to itself, every line to itself, and
    the whole-line order of entries is the order of their encoded paths. */
module ManifestLines {
  import opened Bytes
  import opened Sorting
  import opened Utf8
  import opened UnicodeTable
  import opened PathCodec
  import opened ManifestModel
  import opened ManifestText

  ghost predicate AreFields(tokens: seq<Bytes>) {
    forall i | 0 <= i < |tokens| :: IsField(tokens[i])
  }

  lemma EncodingIsField(table: Table, path: Bytes)
    ensures IsField(EncodePath(table, path))
  {
    EncodingIsPrintable(table, path);
    EncodingAboveSpace(table, path);
  }

  lemma FieldsConcat(a: seq<Bytes>, b: seq<Bytes>)
    requires AreFields(a) && AreFields(b)
    ensures AreFields(a + b)
  {
  }

  // Every word of the grammar is a field.

  lemma ParentsNameIsField() ensures IsField("parents") { BareIsField("parents"); }
  lemma PredecessorNameIsField() ensures IsField("predecessor") { BareIsField("predecessor"); }
  lemma PastManifestNameIsField() ensures IsField("past-manifest") { BareIsField("past-manifest"); }
  lemma PastTokenNameIsField() ensures IsField("past-token") { BareIsField("past-token"); }
  lemma EntryNameIsField() ensures IsField("entry") { BareIsField("entry"); }
  lemma SeparatorIsField() ensures IsField("--") { BareIsField("--"); }
  lemma FlagCommitIsField() ensures IsField("--commit") { BareIsField("--commit"); }
  lemma FlagSpecIsField() ensures IsField("--spec") { BareIsField("--spec"); }
  lemma FlagSiteIsField() ensures IsField("--site") { BareIsField("--site"); }
  lemma FlagPathIsField() ensures IsField("--path") { BareIsField("--path"); }
  lemma FlagModeIsField() ensures IsField("--mode") { BareIsField("--mode"); }
  lemma FlagSizeIsField() ensures IsField("--size") { BareIsField("--size"); }

  lemma BareTokenIsField(field: Bytes)
    requires IsBareToken(field)
    ensures IsField(field)
  {
    BareIsField(field);
  }

  lemma ParentsAreFields(parents: seq<Bytes>)
    requires AreFields(parents)
    ensures AreFields(ParentsTokens(parents))
  {
    hide IsField;
    ParentsNameIsField();
    SeparatorIsField();
    FieldsConcat(["parents", "--"], parents);
  }

  lemma PredecessorAreFields(table: Table, commit: Bytes, origin: Bytes)
    requires IsField(commit)
    ensures AreFields(PredecessorTokens(table, commit, origin))
  {
    hide IsField, IsBareToken, EncodePath;
    PredecessorNameIsField();
    FlagCommitIsField();
    SeparatorIsField();
    EncodingIsField(table, origin);
  }

  lemma PastManifestAreFields(commit: Bytes, hashes: PayloadHashes)
    requires IsField(commit)
    ensures AreFields(PastManifestTokens(commit, hashes))
  {
    hide IsField, HashFields, IsBareToken;
    PastManifestNameIsField();
    FlagCommitIsField();
    SeparatorIsField();
    HashFieldsAreFields(hashes);
    FieldsConcat(["past-manifest", "--commit", commit, "--"], HashFields(hashes));
  }

  lemma PastTokenAreFields(commit: Bytes, token: PastToken)
    requires IsField(commit) && IsField(token.spec.Label()) && IsField(token.site)
    ensures AreFields(PastTokenTokens(commit, token))
  {
    hide IsField, HashFields, IsBareToken;
    PastTokenNameIsField();
    FlagCommitIsField();
    FlagSpecIsField();
    FlagSiteIsField();
    SeparatorIsField();
    HashFieldsAreFields(token.tokenHashes);
    FieldsConcat(["past-token", "--commit", commit, "--spec", token.spec.Label(), "--site", token.site, "--"],
                 HashFields(token.tokenHashes));
  }

  lemma EntryAreFields(table: Table, entry: Entry)
    ensures AreFields(EntryTokens(table, entry))
  {
    hide IsField, HashFields, EncodePath, ModeText, Decimal;
    EntryNameIsField();
    FlagPathIsField();
    FlagModeIsField();
    FlagSizeIsField();
    SeparatorIsField();
    EncodingIsField(table, entry.path);
    ModeIsField(entry.mode);
    DecimalIsField(entry.size);
    HashFieldsAreFields(entry.contentHashes);
    FieldsConcat(["entry", "--path", EncodePath(table, entry.path), "--mode", ModeText(entry.mode), "--size",
        Decimal(entry.size), "--"],
                 HashFields(entry.contentHashes));
  }

  // ----- lines -----

  ghost predicate IsLine(line: Bytes) {
    Valid(line) && '\n' !in line
  }

  ghost predicate AreLines(lines: seq<Bytes>) {
    forall i | 0 <= i < |lines| :: IsLine(lines[i])
  }

  lemma SpaceIsValid()
    ensures Valid([' ']) && Valid(['\n'])
  {
    AsciiValid([' ']);
    AsciiValid(['\n']);
  }

  /** Fields joined by single spaces make one line that splits back. */
  lemma {:induction false} FieldsMakeLine(tokens: seq<Bytes>)
    requires tokens != [] && AreFields(tokens)
    ensures IsLine(Line(tokens)) && Split(Line(tokens), ' ') == tokens
  {
    SplitOfJoin(tokens, ' ');
    JoinAvoids(tokens, ' ', '\n');
    JoinValid(tokens);
  }

  lemma {:induction false} JoinValid(tokens: seq<Bytes>)
    requires tokens != [] && AreFields(tokens)
    ensures Valid(Join(tokens, ' '))
  {
    hide Valid;
    if |tokens| > 1 {
      SpaceIsValid();
      JoinValid(tokens[1..]);
      ValidConcat(tokens[0], [' ']);
      ValidConcat(tokens[0] + [' '], Join(tokens[1..], ' '));
    }
  }

  lemma LinesConcat(a: seq<Bytes>, b: seq<Bytes>)
    requires AreLines(a) && AreLines(b)
    ensures AreLines(a + b)
  {
  }

  lemma {:induction false} TokenLinesAreLines(commit: Bytes, tokens: seq<PastToken>)
    requires IsBareToken(commit) && TokenLines(commit, tokens).Ok?
    ensures AreLines(TokenLines(commit, tokens).value)
  {
    hide IsBareToken, IsField, IsLine, Line, PastTokenTokens;
    if tokens != [] {
      BareTokenIsField(commit);
      BareTokenIsField(tokens[0].spec.Label());
      BareTokenIsField(tokens[0].site);
      PastTokenAreFields(commit, tokens[0]);
      assert PastTokenTokens(commit, tokens[0]) != [] by { OpensWithKeyword(commit, tokens[0]); }
      FieldsMakeLine(PastTokenTokens(commit, tokens[0]));
      TokenLinesAreLines(commit, tokens[1..]);
      LinesConcat([Line(PastTokenTokens(commit, tokens[0]))], TokenLines(commit, tokens[1..]).value);
    }
  }

  lemma OpensWithKeyword(commit: Bytes, token: PastToken)
    ensures PastTokenTokens(commit, token) != []
  {
  }

  lemma GroupLinesAreLines(table: Table, group: BindingGroup)
    requires GroupLines(table, group).Ok?
    ensures AreLines(GroupLines(table, group).value)
  {
    hide IsBareToken, IsField, IsLine, Line, Sort;
    BareTokenIsField(group.commit);
    var opening := Line(PastManifestTokens(group.commit, group.manifestHashes));
    PastManifestAreFields(group.commit, group.manifestHashes);
    FieldsMakeLine(PastManifestTokens(group.commit, group.manifestHashes));
    if group.predecessorOrigin.Some? {
      PredecessorAreFields(table, group.commit, group.predecessorOrigin.value);
      FieldsMakeLine(PredecessorTokens(table, group.commit, group.predecessorOrigin.value));
    }
    TokenLinesAreLines(group.commit, OrderedTokens(group.tokens));
    LinesConcat(PredecessorLines(table, group), [opening]);
    LinesConcat(PredecessorLines(table, group) + [opening],
        TokenLines(group.commit, OrderedTokens(group.tokens)).value);
  }

  lemma {:induction false} AllGroupLinesAreLines(table: Table, groups: seq<BindingGroup>)
    requires AllGroupLines(table, groups).Ok?
    ensures AreLines(AllGroupLines(table, groups).value)
  {
    hide GroupLines, IsLine;
    if groups != [] {
      GroupLinesAreLines(table, groups[0]);
      AllGroupLinesAreLines(table, groups[1..]);
      LinesConcat(GroupLines(table, groups[0]).value, AllGroupLines(table, groups[1..]).value);
    }
  }

  lemma EntryIsLine(table: Table, entry: Entry)
    ensures IsLine(EntryLine(table, entry))
    ensures Split(EntryLine(table, entry), ' ') == EntryTokens(table, entry)
  {
    EntryAreFields(table, entry);
    FieldsMakeLine(EntryTokens(table, entry));
  }

  lemma RecordLinesAreLines(table: Table, manifest: Manifest)
    requires RecordLines(table, manifest).Ok?
    ensures AreLines(RecordLines(table, manifest).value)
  {
    hide IsLine, IsField, IsBareToken, EntryLine, Line, AllGroupLines, Sort;
    var parents := ParentLines(manifest.parents).value;
    assert AreLines(parents) by {
      if manifest.parents != [] {
        forall i | 0 <= i < |manifest.parents| ensures IsField(manifest.parents[i]) {
          assert manifest.parents[i] in manifest.parents;
          BareTokenIsField(manifest.parents[i]);
        }
        ParentsAreFields(manifest.parents);
        FieldsMakeLine(ParentsTokens(manifest.parents));
      }
    }
    var groups := AllGroupLines(table, manifest.bindingGroups).value;
    AllGroupLinesAreLines(table, manifest.bindingGroups);
    var lines := EntryLines(table, manifest.entries);
    forall i | 0 <= i < |lines| ensures IsLine(lines[i]) { EntryIsLine(table, manifest.entries[i]); }
    var ordered := Sort(LEX_ORDER, lines);
    forall i | 0 <= i < |ordered| ensures IsLine(ordered[i]) {
      assert ordered[i] in multiset(ordered);
      assert ordered[i] in multiset(lines);
    }
    LinesConcat(parents, groups);
    LinesConcat(parents + groups, ordered);
  }

  /** Lines written out are valid UTF-8, end with a newline, and split back
      into exactly themselves. */
  lemma {:induction false} UnlinesSplit(lines: seq<Bytes>)
    requires lines != [] && AreLines(lines)
    ensures var text := Unlines(lines);
            text != [] && text[|text| - 1] == '\n' && Split(text[..|text| - 1], '\n') == lines && Valid(text)
  {
    hide Valid;
    SpaceIsValid();
    ValidConcat(lines[0], ['\n']);
    var rest := lines[1..];
    FirstAndRest(lines);
    hide AreLines, IsLine;
    if rest == [] {
      LastLine(lines[0]);
    } else {
      UnlinesSplit(rest);
      hide Split;
      FirstLine(lines[0], rest);
      hide Unlines;
      ValidConcat(lines[0] + ['\n'], Unlines(rest));
    }
  }

  lemma FirstAndRest(lines: seq<Bytes>)
    requires lines != [] && AreLines(lines)
    ensures lines == [lines[0]] + lines[1..] && AreLines(lines[1..]) && Valid(lines[0]) && '\n' !in lines[0]
  {
    hide Valid;
    assert forall i | 0 <= i < |lines[1..]| :: lines[1..][i] == lines[i + 1];
  }

  lemma LastLine(line: Bytes)
    requires '\n' !in line
    ensures Unlines([line]) == line + ['\n']
    ensures Split(Unlines([line])[..|line|], '\n') == [line]
  {
    assert Unlines([line][1..]) == [];
    assert Unlines([line])[..|line|] == line;
    SplitPiece(line, '\n');
  }

  lemma FirstLine(line: Bytes, lines: seq<Bytes>)
    requires '\n' !in line && Unlines(lines) != []
    ensures var text, rest := Unlines([line] + lines), Unlines(lines);
            text == line + ['\n'] + rest
            && Split(text[..|text| - 1], '\n') == [line] + Split(rest[..|rest| - 1], '\n')
  {
    var rest := Unlines(lines);
    assert ([line] + lines)[1..] == lines;
    var text := Unlines([line] + lines);
    assert text == line + ['\n'] + rest;
    hide Unlines;
    assert text[..|text| - 1] == line + ['\n'] + rest[..|rest| - 1];
    SplitFirst(line, '\n', rest[..|rest| - 1]);
  }

  lemma HeaderIsLine()
    ensures IsLine(HEADER)
  {
    BareIsField(HEADER);
  }

  lemma SerializedIs(table: seq<Range>, manifest: Manifest)
    requires Serialized(table, manifest).Ok?
    ensures RecordLines(table, manifest).Ok?
    ensures Serialized(table, manifest).value == Unlines([HEADER] + RecordLines(table, manifest).value)
  {
    hide RecordLines;
  }

  /** Whatever is serialized is UTF-8 text whose lines are the header and the
      records. */
  lemma SerializedSplits(table: Table, manifest: Manifest)
    requires Serialized(table, manifest).Ok?
    ensures RecordLines(table, manifest).Ok?
    ensures var text := Serialized(table, manifest).value;
            Valid(text) && text != [] && text[|text| - 1] == '\n'
            && Split(text[..|text| - 1], '\n') == [HEADER] + RecordLines(table, manifest).value
  {
    hide IsLine, RecordLines, Serialized, Unlines, Split, Valid;
    SerializedIs(table, manifest);
    var lines := RecordLines(table, manifest).value;
    HeaderIsLine();
    RecordLinesAreLines(table, manifest);
    LinesConcat([HEADER], lines);
    UnlinesSplit([HEADER] + lines);
  }

  // ----- orders -----

  lemma LexSeparates(lines: seq<Bytes>)
    ensures Separates(LEX_ORDER, lines)
  {
    forall a: Bytes, b: Bytes | LEX_ORDER(a, b) && LEX_ORDER(b, a) ensures a == b { LexAntisymmetric(a, b); }
  }

  lemma SortedLinesAreFixed(lines: seq<Bytes>)
    ensures Sort(LEX_ORDER, Sort(LEX_ORDER, lines)) == Sort(LEX_ORDER, lines)
  {
    LexIsTotalPreorder();
    SortSorts(LEX_ORDER, lines);
    LexSeparates(Sort(LEX_ORDER, lines));
    SortFixed(LEX_ORDER, Sort(LEX_ORDER, lines));
  }

  lemma TokenOrderIsTotalPreorder()
    ensures TotalPreorder(TokenLe)
  {
    forall a: PastToken, b: PastToken ensures TokenLe(a, b) || TokenLe(b, a) {
      LexTotal(a.spec.Label(), b.spec.Label());
      LexTotal(a.site, b.site);
    }
    forall a: PastToken, b: PastToken, c: PastToken | TokenLe(a, b) && TokenLe(b, c) ensures TokenLe(a, c) {
      TokenTransitive(a, b, c);
    }
  }

  lemma TokenTransitive(a: PastToken, b: PastToken, c: PastToken)
    requires TokenLe(a, b) && TokenLe(b, c)
    ensures TokenLe(a, c)
  {
    var x, y, z := a.spec.Label(), b.spec.Label(), c.spec.Label();
    if x == y && y == z {
      LexTransitive(a.site, b.site, c.site);
    } else if x != y && y != z {
      LexTransitive(x, y, z);
      if x == z { LexAntisymmetric(x, y); }
    }
  }

  ghost predicate DistinctKeys(tokens: seq<PastToken>) {
    forall i, j | 0 <= i < j < |tokens| ::
      tokens[i].spec.Label() != tokens[j].spec.Label() || tokens[i].site != tokens[j].site
  }

  lemma TokensSeparated(tokens: seq<PastToken>)
    requires DistinctKeys(tokens)
    ensures Separates(TokenLe, tokens)
  {
    forall a, b | a in tokens && b in tokens && TokenLe(a, b) && TokenLe(b, a) ensures a == b {
      if a.spec.Label() == b.spec.Label() {
        LexAntisymmetric(a.site, b.site);
      } else {
        LexAntisymmetric(a.spec.Label(), b.spec.Label());
      }
      var i :| 0 <= i < |tokens| && tokens[i] == a;
      var j :| 0 <= j < |tokens| && tokens[j] == b;
    }
  }

  lemma LineOrderIsTotalPreorder(table: seq<Range>)
    ensures TotalPreorder(LineOrder(table))
  {
    hide EntryLine, LexLe;
    var le := LineOrder(table);
    forall a, b ensures le(a, b) || le(b, a) { LexTotal(EntryLine(table, a), EntryLine(table, b)); }
    forall a, b, c | le(a, b) && le(b, c) ensures le(a, c) {
      LexTransitive(EntryLine(table, a), EntryLine(table, b), EntryLine(table, c));
    }
  }

  /** Sorting the lines is sorting the entries by their lines. */
  lemma SortCommutes(table: seq<Range>, entries: seq<Entry>)
    ensures EntryLines(table, OrderedEntries(table, entries)) == Sort(LEX_ORDER, EntryLines(table, entries))
  {
    var key := (e: Entry) => EntryLine(table, e);
    hide EntryLine, Sort;
    assert forall a, b :: LineOrder(table)(a, b) == LEX_ORDER(key(a), key(b));
    SortMapped(LineOrder(table), LEX_ORDER, key, entries);
    assert EntryLines(table, entries) == Map(key, entries);
    assert EntryLines(table, OrderedEntries(table, entries)) == Map(key, OrderedEntries(table, entries));
  }

  /** The separating space sorts below every byte an encoded path can hold:
      on differing paths, whole-line order is encoded-path order. */
  lemma LineOrderIsPathOrder(table: Table, a: Entry, b: Entry)
    requires LexLe(EntryLine(table, a), EntryLine(table, b))
    ensures LexLe(EncodePath(table, a.path), EncodePath(table, b.path))
  {
    var x, y := EncodePath(table, a.path), EncodePath(table, b.path);
    EncodingAboveSpace(table, a.path);
    EncodingAboveSpace(table, b.path);
    var prefix: Bytes := "entry" + [' '] + "--path" + [' '];
    var restA := EntryLineOpens(table, a);
    var restB := EntryLineOpens(table, b);
    hide EntryLine, EncodePath;
    LexCommonPrefix(prefix, x + [' '] + restA, y + [' '] + restB);
    LexTerminated(x, y, ' ', restA, restB);
  }

  lemma EntryLineOpens(table: seq<Range>, entry: Entry) returns (rest: Bytes)
    ensures EntryLine(table, entry) ==
            ("entry" + [' '] + "--path" + [' ']) + (EncodePath(table, entry.path) + [' '] + rest)
  {
    var tokens := EntryTokens(table, entry);
    hide HashFields, EncodePath, Decimal, ModeText;
    rest := Join(tokens[3..], ' ');
    assert tokens[1..][1..] == tokens[2..] && tokens[2..][1..] == tokens[3..];
    assert Join(tokens[2..], ' ') == tokens[2] + [' '] + rest;
    assert Join(tokens[1..], ' ') == "--path" + [' '] + Join(tokens[2..], ' ');
    assert Join(tokens, ' ') == "entry" + [' '] + Join(tokens[1..], ' ');
  }

  /** And two different paths are ordered by their encodings alone. */
  lemma PathOrderIsLineOrder(table: Table, a: Entry, b: Entry)
    requires a.path != b.path
    ensures LexLe(EntryLine(table, a), EntryLine(table, b)) <==>
            LexLe(EncodePath(table, a.path), EncodePath(table, b.path))
  {
    LexTotal(EntryLine(table, a), EntryLine(table, b));
    if LexLe(EntryLine(table, a), EntryLine(table, b)) {
      LineOrderIsPathOrder(table, a, b);
    } else {
      LineOrderIsPathOrder(table, b, a);
      if LexLe(EncodePath(table, a.path), EncodePath(table, b.path)) {
        LexAntisymmetric(EncodePath(table, a.path), EncodePath(table, b.path));
        EncodeInjective(table, a.path, b.path);
      }
    }
  }
}
