/** The canonical manifest text: record lines in grammar order, token lines
    sorted within their group, entry lines sorted by whole-line byte order. */
module ManifestText {
  import opened Bytes
  import opened Sorting
  import opened PathCodec
  import opened UnicodeTable
  import opened ManifestModel

  const HEADER: Bytes := "tydence-manifest/v1"

  datatype UnprintableField = UnprintableField(field: string, value: Bytes)

  type Lines = Result<seq<Bytes>, UnprintableField>

  // ----- the records of the grammar -----

  function Line(tokens: seq<Bytes>): Bytes
    requires tokens != []
  {
    Join(tokens, ' ')
  }

  function ParentsTokens(parents: seq<Bytes>): seq<Bytes> {
    ["parents", "--"] + parents
  }

  function PredecessorTokens(table: seq<Range>, commit: Bytes, origin: Bytes): seq<Bytes> {
    ["predecessor", "--commit", commit, "--", EncodePath(table, origin)]
  }

  function PastManifestTokens(commit: Bytes, hashes: PayloadHashes): seq<Bytes> {
    ["past-manifest", "--commit", commit, "--"] + HashFields(hashes)
  }

  function PastTokenTokens(commit: Bytes, token: PastToken): seq<Bytes> {
    ["past-token", "--commit", commit, "--spec", token.spec.Label(), "--site", token.site, "--"]
    + HashFields(token.tokenHashes)
  }

  function EntryTokens(table: seq<Range>, entry: Entry): seq<Bytes> {
    ["entry", "--path", EncodePath(table, entry.path), "--mode", ModeText(entry.mode), "--size", Decimal(entry.size),
        "--"]
    + HashFields(entry.contentHashes)
  }

  function EntryLine(table: seq<Range>, entry: Entry): Bytes {
    Line(EntryTokens(table, entry))
  }

  // ----- canonical order -----

  /** Rust's tuple order on `(label, site)`. */
  predicate TokenLe(a: PastToken, b: PastToken) {
    if a.spec.Label() == b.spec.Label() then LexLe(a.site, b.site)
    else LexLe(a.spec.Label(), b.spec.Label())
  }

  function OrderedTokens(tokens: seq<PastToken>): (ordered: seq<PastToken>)
    ensures multiset(ordered) == multiset(tokens)
  {
    Sort(TokenLe, tokens)
  }

  function LineOrder(table: seq<Range>): (Entry, Entry) -> bool {
    (a, b) => LexLe(EntryLine(table, a), EntryLine(table, b))
  }

  function OrderedEntries(table: seq<Range>, entries: seq<Entry>): (ordered: seq<Entry>)
    ensures multiset(ordered) == multiset(entries)
  {
    Sort(LineOrder(table), entries)
  }

  function CanonicalGroup(group: BindingGroup): BindingGroup {
    group.(tokens := OrderedTokens(group.tokens))
  }

  function CanonicalGroups(groups: seq<BindingGroup>): (canonical: seq<BindingGroup>)
    ensures |canonical| == |groups|
    ensures forall i | 0 <= i < |groups| :: canonical[i] == CanonicalGroup(groups[i])
  {
    if groups == [] then [] else [CanonicalGroup(groups[0])] + CanonicalGroups(groups[1..])
  }

  /** The manifest with its tokens and entries in canonical order; the order
      of the groups is given. */
  function Canonical(table: seq<Range>, manifest: Manifest): Manifest {
    Manifest(manifest.parents, CanonicalGroups(manifest.bindingGroups), OrderedEntries(table, manifest.entries))
  }

  // ----- lines -----

  function Both(a: Lines, b: Lines): Lines {
    match (a, b)
    case (Ok(x), Ok(y)) => Ok(x + y)
    case (Err(e), _) => Err(e)
    case (_, Err(e)) => Err(e)
  }

  /** The first field that is not a bare token. */
  function FirstNotBare(fields: seq<Bytes>): (found: Option<Bytes>)
    ensures found.None? <==> forall f | f in fields :: IsBareToken(f)
  {
    if fields == [] then None
    else if IsBareToken(fields[0]) then FirstNotBare(fields[1..])
    else Some(fields[0])
  }

  function ParentLines(parents: seq<Bytes>): Lines {
    if parents == [] then Ok([])
    else
      match FirstNotBare(parents)
      case Some(value) => Err(UnprintableField("parent commit", value))
      case None => Ok([Line(ParentsTokens(parents))])
  }

  function TokenLines(commit: Bytes, tokens: seq<PastToken>): Lines {
    if tokens == [] then Ok([])
    else if !IsBareToken(tokens[0].spec.Label()) then Err(UnprintableField("spec", tokens[0].spec.Label()))
    else if !IsBareToken(tokens[0].site) then Err(UnprintableField("site", tokens[0].site))
    else Both(Ok([Line(PastTokenTokens(commit, tokens[0]))]), TokenLines(commit, tokens[1..]))
  }

  function PredecessorLines(table: seq<Range>, group: BindingGroup): seq<Bytes> {
    match group.predecessorOrigin
    case Some(origin) => [Line(PredecessorTokens(table, group.commit, origin))]
    case None => []
  }

  function GroupLines(table: seq<Range>, group: BindingGroup): Lines {
    if !IsBareToken(group.commit) then Err(UnprintableField("commit", group.commit))
    else
      Both(Ok(PredecessorLines(table, group) + [Line(PastManifestTokens(group.commit, group.manifestHashes))]),
           TokenLines(group.commit, OrderedTokens(group.tokens)))
  }

  function AllGroupLines(table: seq<Range>, groups: seq<BindingGroup>): Lines {
    if groups == [] then Ok([])
    else Both(GroupLines(table, groups[0]), AllGroupLines(table, groups[1..]))
  }

  function EntryLines(table: seq<Range>, entries: seq<Entry>): (lines: seq<Bytes>)
    ensures |lines| == |entries|
    ensures forall i | 0 <= i < |entries| :: lines[i] == EntryLine(table, entries[i])
  {
    seq(|entries|, i requires 0 <= i < |entries| => EntryLine(table, entries[i]))
  }

  function RecordLines(table: seq<Range>, manifest: Manifest): Lines {
    Both(Both(ParentLines(manifest.parents), AllGroupLines(table, manifest.bindingGroups)),
         Ok(Sort(LEX_ORDER, EntryLines(table, manifest.entries))))
  }

  /** Every line ends with a newline. */
  function Unlines(lines: seq<Bytes>): Bytes {
    if lines == [] then [] else lines[0] + ['\n'] + Unlines(lines[1..])
  }

  function Serialized(table: seq<Range>, manifest: Manifest): Result<Bytes, UnprintableField> {
    match RecordLines(table, manifest)
    case Ok(lines) => Ok(Unlines([HEADER] + lines))
    case Err(cause) => Err(cause)
  }

  // ----- when it succeeds -----

  predicate SpellableGroup(group: BindingGroup) {
    && IsBareToken(group.commit)
    && forall t | t in group.tokens :: IsBareToken(t.spec.Label()) && IsBareToken(t.site)
  }

  predicate Spellable(manifest: Manifest) {
    && (forall p | p in manifest.parents :: IsBareToken(p))
    && (forall g | g in manifest.bindingGroups :: SpellableGroup(g))
  }

  lemma {:induction false} TokenLinesOk(commit: Bytes, tokens: seq<PastToken>)
    ensures TokenLines(commit, tokens).Ok? <==>
            forall t | t in tokens :: IsBareToken(t.spec.Label()) && IsBareToken(t.site)
  {
    hide IsBareToken;
    if tokens != [] {
      TokenLinesOk(commit, tokens[1..]);
      assert tokens == [tokens[0]] + tokens[1..];
    }
  }

  lemma GroupLinesOk(table: seq<Range>, group: BindingGroup)
    ensures GroupLines(table, group).Ok? <==> SpellableGroup(group)
  {
    hide IsBareToken;
    var ordered := OrderedTokens(group.tokens);
    TokenLinesOk(group.commit, ordered);
    assert forall t :: t in ordered <==> t in multiset(ordered);
    assert forall t :: t in group.tokens <==> t in multiset(group.tokens);
  }

  lemma {:induction false} AllGroupLinesOk(table: seq<Range>, groups: seq<BindingGroup>)
    ensures AllGroupLines(table, groups).Ok? <==> forall g | g in groups :: SpellableGroup(g)
  {
    if groups != [] {
      hide SpellableGroup, GroupLines;
      GroupLinesOk(table, groups[0]);
      AllGroupLinesOk(table, groups[1..]);
      assert groups == [groups[0]] + groups[1..];
    }
  }

  /** Serialization fails exactly when some annotation is not a bare token. */
  lemma SerializesWhenSpellable(table: seq<Range>, manifest: Manifest)
    ensures Serialized(table, manifest).Ok? <==> Spellable(manifest)
  {
    hide SpellableGroup, AllGroupLines, IsBareToken;
    AllGroupLinesOk(table, manifest.bindingGroups);
  }

  // ----- the loops of the source -----

  lemma {:induction false} UnlinesConcat(a: seq<Bytes>, b: seq<Bytes>)
    ensures Unlines(a + b) == Unlines(a) + Unlines(b)
  {
    if a == [] {
      assert a + b == b;
    } else {
      assert (a + b)[1..] == a[1..] + b;
      UnlinesConcat(a[1..], b);
    }
  }

  /** What a partly written output becomes once the given lines follow. */
  function Written(output: Bytes, lines: Lines): Result<Bytes, UnprintableField> {
    match lines
    case Ok(written) => Ok(output + Unlines(written))
    case Err(cause) => Err(cause)
  }

  lemma WrittenBoth(output: Bytes, a: Lines, b: Lines)
    ensures Written(output, Both(a, b)) ==
            if a.Ok? then Written(output + Unlines(a.value), b) else Err(a.error)
  {
    if a.Ok? && b.Ok? {
      UnlinesConcat(a.value, b.value);
      assert output + (Unlines(a.value) + Unlines(b.value)) == output + Unlines(a.value) + Unlines(b.value);
    }
  }

  lemma OneLine(output: Bytes, line: Bytes)
    ensures output + Unlines([line]) == output + line + ['\n']
  {
    assert Unlines([line][1..]) == [];
    assert Unlines([line]) == line + ['\n'];
  }

  method PushGroupLines(table: seq<Range>, output: Bytes, group: BindingGroup)
    returns (grown: Result<Bytes, UnprintableField>)
    ensures grown == Written(output, GroupLines(table, group))
  {
    hide IsBareToken, Line, HashFields, Unlines, EncodePath;
    if !IsBareToken(group.commit) { return Err(UnprintableField("commit", group.commit)); }
    var ordered := OrderedTokens(group.tokens);
    ghost var opening := PredecessorLines(table, group) +
        [Line(PastManifestTokens(group.commit, group.manifestHashes))];
    WrittenBoth(output, Ok(opening), TokenLines(group.commit, ordered));
    var text: Bytes := output;
    if group.predecessorOrigin.Some? {
      var line := Line(PredecessorTokens(table, group.commit, group.predecessorOrigin.value));
      OneLine(text, line);
      text := text + line + ['\n'];
    } else {
      NoLines(text);
    }
    var manifestLine := Line(PastManifestTokens(group.commit, group.manifestHashes));
    UnlinesConcat(PredecessorLines(table, group), [manifestLine]);
    OneLine(text, manifestLine);
    text := text + manifestLine + ['\n'];
    assert text == output + Unlines(opening);
    var rest := ordered;
    while rest != []
      invariant Written(text, TokenLines(group.commit, rest)) == Written(output, GroupLines(table, group))
      decreases |rest|
    {
      var token := rest[0];
      if !IsBareToken(token.spec.Label()) { return Err(UnprintableField("spec", token.spec.Label())); }
      if !IsBareToken(token.site) { return Err(UnprintableField("site", token.site)); }
      var line := Line(PastTokenTokens(group.commit, token));
      WrittenBoth(text, Ok([line]), TokenLines(group.commit, rest[1..]));
      OneLine(text, line);
      text := text + line + ['\n'];
      rest := rest[1..];
    }
    NoLines(text);
    return Ok(text);
  }

  lemma NoLines(output: Bytes)
    ensures output + Unlines([]) == output
  {
  }

  method PushParents(output: Bytes, parents: seq<Bytes>) returns (grown: Result<Bytes, UnprintableField>)
    ensures grown == Written(output, ParentLines(parents))
  {
    hide IsBareToken, Unlines;
    if parents == [] {
      NoLines(output);
      return Ok(output);
    }
    var line: Bytes := "parents" + [' '] + "--";
    assert Line(ParentsTokens(parents[..0])) == line by { ParentsPrefix(parents[..0]); }
    for i := 0 to |parents|
      invariant line == Line(ParentsTokens(parents[..i]))
      invariant forall k | 0 <= k < i :: IsBareToken(parents[k])
    {
      if !IsBareToken(parents[i]) {
        FirstNotBareAt(parents, i);
        return Err(UnprintableField("parent commit", parents[i]));
      }
      assert ParentsTokens(parents[..i + 1]) == ParentsTokens(parents[..i]) + [parents[i]];
      JoinOneMore(ParentsTokens(parents[..i]), parents[i]);
      line := line + [' '] + parents[i];
    }
    assert parents[..|parents|] == parents;
    OneLine(output, line);
    return Ok(output + line + ['\n']);
  }

  lemma ParentsPrefix(none: seq<Bytes>)
    requires none == []
    ensures Line(ParentsTokens(none)) == "parents" + [' '] + "--"
  {
    var tokens := ParentsTokens(none);
    assert tokens[1..] == ["--"];
    assert Join(tokens[1..], ' ') == "--";
    assert Join(tokens, ' ') == tokens[0] + [' '] + Join(tokens[1..], ' ');
  }

  lemma {:induction false} JoinOneMore(pieces: seq<Bytes>, piece: Bytes)
    requires pieces != []
    ensures Join(pieces + [piece], ' ') == Join(pieces, ' ') + [' '] + piece
  {
    if |pieces| == 1 {
      assert (pieces + [piece])[1..] == [piece];
    } else {
      assert (pieces + [piece])[1..] == pieces[1..] + [piece];
      JoinOneMore(pieces[1..], piece);
    }
  }

  lemma {:induction false} FirstNotBareAt(fields: seq<Bytes>, i: nat)
    requires i < |fields| && !IsBareToken(fields[i])
    requires forall k | 0 <= k < i :: IsBareToken(fields[k])
    ensures FirstNotBare(fields) == Some(fields[i])
  {
    if i > 0 { FirstNotBareAt(fields[1..], i - 1); }
  }

  method Serialize(table: seq<Range>, manifest: Manifest) returns (text: Result<Bytes, UnprintableField>)
    ensures text == Serialized(table, manifest)
  {
    hide Unlines, ParentLines, GroupLines, EntryLine, Sort;
    var groups, entries := manifest.bindingGroups, manifest.entries;
    var parentLines, groupLines := ParentLines(manifest.parents), AllGroupLines(table, groups);
    var entryLines := Sort(LEX_ORDER, EntryLines(table, entries));
    SerializedAsWritten(table, manifest);
    var output: Bytes := HEADER + ['\n'];
    WrittenBoth(output, Both(parentLines, groupLines), Ok(entryLines));
    WrittenBoth(output, parentLines, groupLines);
    var grown := PushParents(output, manifest.parents);
    if grown.Err? { return grown; }
    output := grown.value;
    for i := 0 to |groups|
      invariant Written(output, AllGroupLines(table, groups[i..])) ==
                Written(HEADER + ['\n'], Both(parentLines, groupLines))
    {
      assert groups[i..][1..] == groups[i + 1..];
      WrittenBoth(output, GroupLines(table, groups[i]), AllGroupLines(table, groups[i + 1..]));
      grown := PushGroupLines(table, output, groups[i]);
      if grown.Err? { return grown; }
      output := grown.value;
    }
    NoLines(output);
    for i := 0 to |entryLines|
      invariant output + Unlines(entryLines[i..]) == Written(HEADER + ['\n'], RecordLines(table, manifest)).value
      invariant RecordLines(table, manifest).Ok?
    {
      assert entryLines[i..] == [entryLines[i]] + entryLines[i + 1..];
      UnlinesConcat([entryLines[i]], entryLines[i + 1..]);
      OneLine(output, entryLines[i]);
      output := output + entryLines[i] + ['\n'];
    }
    NoLines(output);
    return Ok(output);
  }

  lemma SerializedAsWritten(table: seq<Range>, manifest: Manifest)
    ensures Serialized(table, manifest) == Written(HEADER + ['\n'], RecordLines(table, manifest))
  {
    var lines := RecordLines(table, manifest);
    if lines.Ok? {
      UnlinesConcat([HEADER], lines.value);
      OneLine([], HEADER);
    }
  }
}
