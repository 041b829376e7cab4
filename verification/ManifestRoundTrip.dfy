/** Serialization and parsing invert each other: which manifests read back,
    and which texts are accepted. */
module ManifestRoundTrip {
  import opened Bytes
  import opened Sorting
  import opened UnicodeTable
  import opened PathCodec
  import opened ManifestModel
  import opened ManifestText
  import opened ManifestGrammar
  import opened ManifestReader
  import opened ManifestLines

  // ----- what a manifest needs in order to read back -----

  ghost predicate ReadableToken(token: PastToken) {
    IsBareToken(token.spec.Label()) && IsBareToken(token.site) && token.spec != Unrecognized("rfc3161")
  }

  ghost predicate ReadableTokens(tokens: seq<PastToken>) {
    (forall i | 0 <= i < |tokens| :: ReadableToken(tokens[i])) && DistinctKeys(tokens)
  }

  ghost predicate ReadableGroup(group: BindingGroup) {
    IsBareToken(group.commit) && group.predecessorOrigin != Some([]) && ReadableTokens(group.tokens)
  }

  ghost predicate ReadableGroups(groups: seq<BindingGroup>) {
    (forall i | 0 <= i < |groups| :: ReadableGroup(groups[i])) && DistinctSha256(groups)
  }

  ghost predicate NamedEntries(entries: seq<Entry>) {
    forall i | 0 <= i < |entries| :: entries[i].path != []
  }

  ghost predicate WellFormed(manifest: Manifest) {
    && (forall p | p in manifest.parents :: IsBareToken(p))
    && ReadableGroups(manifest.bindingGroups)
    && NamedEntries(manifest.entries)
    && DistinctPaths(manifest.entries)
  }

  // ----- one record reads back -----

  lemma ReadsParents(state: State, parents: seq<Bytes>, line: nat)
    requires Coherent(state) && state.section == Start
    requires parents != [] && forall p | p in parents :: IsBareToken(p)
    ensures ReadRecord(state, Line(ParentsTokens(parents)), line) ==
            Ok(state.(section := Parents, parents := state.parents + parents))
  {
    var tokens := ParentsTokens(parents);
    hide IsField, IsBareToken;
    forall i | 0 <= i < |parents| ensures IsField(parents[i]) {
      assert parents[i] in parents;
      BareTokenIsField(parents[i]);
    }
    ParentsAreFields(parents);
    FieldsMakeLine(tokens);
    hide Line, Split;
    assert tokens[0] == "parents" && tokens[1] == "--" && tokens[2..] == parents;
    assert RecordKindOf(tokens[0]) == Some(ParentsRecord);
  }

  lemma ReadsPredecessor(table: Table, state: State, commit: Bytes, origin: Bytes, line: nat)
    requires Coherent(state) && state.section in {Start, Parents, Group}
    requires IsBareToken(commit) && origin != []
    ensures ReadRecord(state, Line(PredecessorTokens(table, commit, origin)), line) ==
            Ok(state.(section := GroupAnnounced, pending := Some(Pending(line, commit, origin))))
  {
    var tokens := PredecessorTokens(table, commit, origin);
    hide IsField, IsBareToken, EncodePath, DecodePath;
    BareTokenIsField(commit);
    PredecessorAreFields(table, commit, origin);
    FieldsMakeLine(tokens);
    PathRoundTrip(table, origin);
    hide Line, Split;
    assert RecordKindOf("predecessor") == Some(PredecessorRecord);
  }

  lemma ReadsPastManifest(state: State, commit: Bytes, hashes: PayloadHashes, line: nat)
    requires Coherent(state) && state.section != Entries
    requires IsBareToken(commit)
    requires forall g | g in state.groups :: g.manifestHashes.sha256 != hashes.sha256
    requires state.pending.Some? ==> state.pending.value.commit == commit
    ensures var origin := if state.pending.Some? then Some(state.pending.value.origin) else None;
            ReadRecord(state, Line(PastManifestTokens(commit, hashes)), line) ==
            Ok(state.(section := Group, pending := None,
                groups := state.groups + [BindingGroup(commit, origin, hashes, [])]))
  {
    var tokens := PastManifestTokens(commit, hashes);
    hide IsField, IsBareToken, HashFields, ParseHashes;
    BareTokenIsField(commit);
    PastManifestAreFields(commit, hashes);
    FieldsMakeLine(tokens);
    HashesExact(HashFields(hashes), hashes);
    hide Line, Split;
    assert tokens[4..] == HashFields(hashes);
    assert RecordKindOf("past-manifest") == Some(PastManifestRecord);
  }

  lemma ReadsPastToken(state: State, commit: Bytes, token: PastToken, line: nat)
    requires Coherent(state) && state.section == Group
    requires IsBareToken(commit) && ReadableToken(token)
    requires state.groups[|state.groups| - 1].commit == commit
    requires !RepeatsToken(state.groups[|state.groups| - 1].tokens, token.spec, token.site)
    ensures ReadRecord(state, Line(PastTokenTokens(commit, token)), line) ==
            Ok(state.(groups := WithToken(state.groups, token)))
  {
    var tokens := PastTokenTokens(commit, token);
    hide IsField, IsBareToken, HashFields, ParseHashes, ParseSpec;
    BareTokenIsField(commit);
    BareTokenIsField(token.spec.Label());
    BareTokenIsField(token.site);
    SpecExact(token.spec.Label(), token.spec);
    PastTokenAreFields(commit, token);
    FieldsMakeLine(tokens);
    HashesExact(HashFields(token.tokenHashes), token.tokenHashes);
    hide Line, Split, RepeatsToken;
    assert tokens[8..] == HashFields(token.tokenHashes);
    assert RecordKindOf("past-token") == Some(PastTokenRecord);
  }

  lemma ReadsEntry(table: Table, state: State, entry: Entry, line: nat)
    requires Coherent(state) && state.section != GroupAnnounced
    requires entry.path != []
    ensures ReadRecord(state, EntryLine(table, entry), line) ==
            if state.entries != [] && state.entries[|state.entries| - 1].path == entry.path
            then Err(DuplicateRecord(line))
            else Ok(state.(section := Entries, entries := state.entries + [entry]))
  {
    var tokens := EntryTokens(table, entry);
    hide IsField, HashFields, ParseHashes, EncodePath, DecodePath, ParseMode, ModeText, ParseSize, Decimal;
    EntryIsLine(table, entry);
    PathRoundTrip(table, entry.path);
    ModeExact(ModeText(entry.mode), entry.mode);
    SizeExact(Decimal(entry.size), entry.size);
    HashesExact(HashFields(entry.contentHashes), entry.contentHashes);
    hide Line, Split;
    assert tokens[8..] == HashFields(entry.contentHashes);
    assert RecordKindOf("entry") == Some(EntryRecord);
  }

  // ----- runs of lines -----

  lemma {:induction false} ReadLinesConcat(state: State, a: seq<Bytes>, b: seq<Bytes>, line: nat)
    requires Coherent(state)
    ensures ReadLines(state, a + b, line) == match ReadLines(state, a, line)
                                             case Ok(next) => ReadLines(next, b, line + |a|)
                                             case Err(cause) => Err(cause)
    decreases |a|
  {
    hide ReadRecord, Coherent;
    if a == [] {
      assert a + b == b;
    } else {
      assert (a + b)[0] == a[0] && (a + b)[1..] == a[1..] + b;
      match ReadRecord(state, a[0], line)
      case Ok(next) => ReadLinesConcat(next, a[1..], b, line + 1);
      case Err(_) =>
    }
  }

  lemma ReadOneLine(state: State, recordLine: Bytes, line: nat)
    requires Coherent(state)
    ensures ReadLines(state, [recordLine], line) == ReadRecord(state, recordLine, line)
  {
    hide ReadRecord, Coherent;
    assert [recordLine][1..] == [];
    var outcome := ReadRecord(state, recordLine, line);
    if outcome.Ok? { assert ReadLines(outcome.value, [], line + 1) == outcome; }
  }

  /** `groups` with more tokens on its last group. */
  ghost function WithTokens(groups: seq<BindingGroup>, tokens: seq<PastToken>): seq<BindingGroup>
    requires groups != []
  {
    var last := |groups| - 1;
    groups[last := groups[last].(tokens := groups[last].tokens + tokens)]
  }

  lemma WithTokensTwice(groups: seq<BindingGroup>, token: PastToken, rest: seq<PastToken>)
    requires groups != []
    ensures WithTokens(WithToken(groups, token), rest) == WithTokens(groups, [token] + rest)
  {
    AppendShift(groups[|groups| - 1].tokens, token, rest);
  }

  lemma {:induction false} ReadsTokens(state: State, commit: Bytes, tokens: seq<PastToken>, line: nat)
    requires Coherent(state) && state.section == Group && IsBareToken(commit)
    requires state.groups[|state.groups| - 1].commit == commit
    requires forall i | 0 <= i < |tokens| :: ReadableToken(tokens[i])
    requires DistinctKeys(state.groups[|state.groups| - 1].tokens + tokens)
    ensures TokenLines(commit, tokens).Ok?
    ensures ReadLines(state, TokenLines(commit, tokens).value, line) ==
            Ok(state.(groups := WithTokens(state.groups, tokens)))
    decreases |tokens|
  {
    var held := state.groups[|state.groups| - 1].tokens;
    if tokens == [] {
      assert held + [] == held;
      assert WithTokens(state.groups, []) == state.groups;
    } else {
      var token, rest := tokens[0], tokens[1..];
      assert held + tokens == (held + [token]) + rest;
      assert !RepeatsToken(held, token.spec, token.site) by { NoRepeat(held, tokens); }
      ReadsPastToken(state, commit, token, line);
      var next := state.(groups := WithToken(state.groups, token));
      assert ReadableToken(token);
      hide ReadRecord, IsBareToken, Line, DistinctKeys, RepeatsToken;
      ReadsTokens(next, commit, rest, line + 1);
      WithTokensTwice(state.groups, token, rest);
      assert tokens == [token] + rest;
      var recordLine := Line(PastTokenTokens(commit, token));
      ReadLinesConcat(state, [recordLine], TokenLines(commit, rest).value, line);
      ReadOneLine(state, recordLine, line);
    }
  }

  lemma NoRepeat(held: seq<PastToken>, tokens: seq<PastToken>)
    requires tokens != [] && DistinctKeys(held + tokens)
    ensures !RepeatsToken(held, tokens[0].spec, tokens[0].site)
  {
    var all := held + tokens;
    forall t | t in held ensures t.spec.Label() != tokens[0].spec.Label() || t.site != tokens[0].site {
      var i :| 0 <= i < |held| && held[i] == t;
      assert all[i] == t && all[|held|] == tokens[0];
    }
  }

  lemma OrderedTokensReadable(tokens: seq<PastToken>)
    requires ReadableTokens(tokens)
    ensures ReadableTokens(OrderedTokens(tokens))
  {
    var ordered := OrderedTokens(tokens);
    KeysPermute(tokens, ordered);
    forall i | 0 <= i < |ordered| ensures ReadableToken(ordered[i]) {
      assert ordered[i] in multiset(ordered);
      assert ordered[i] in multiset(tokens);
    }
  }

  lemma KeysPermute(a: seq<PastToken>, b: seq<PastToken>)
    requires multiset(a) == multiset(b) && DistinctKeys(a)
    ensures DistinctKeys(b)
  {
    assert Distinct(a);
    DistinctPermutes(a, b);
    forall i, j | 0 <= i < j < |b| ensures b[i].spec.Label() != b[j].spec.Label() || b[i].site != b[j].site {
      assert b[i] in multiset(b) && b[j] in multiset(b);
      assert b[i] in multiset(a) && b[j] in multiset(a);
      assert b[i] != b[j];
    }
  }

  /** The opening lines of a group: its announcement, if any, and its
      `past-manifest`. */
  lemma ReadsOpening(table: Table, state: State, group: BindingGroup, line: nat)
    requires Coherent(state) && state.section in {Start, Parents, Group}
    requires IsBareToken(group.commit) && group.predecessorOrigin != Some([])
    requires forall g | g in state.groups :: g.manifestHashes.sha256 != group.manifestHashes.sha256
    ensures ReadLines(state,
                      PredecessorLines(table, group) + [Line(PastManifestTokens(group.commit, group.manifestHashes))],
                      line) ==
            Ok(state.(section := Group, groups := state.groups + [group.(tokens := [])]))
  {
    hide ReadRecord, Line, IsBareToken, EncodePath, HashFields, ReadLines;
    var recordLine := Line(PastManifestTokens(group.commit, group.manifestHashes));
    if group.predecessorOrigin.None? {
      ReadsPastManifest(state, group.commit, group.manifestHashes, line);
      ReadOneLine(state, recordLine, line);
      assert PredecessorLines(table, group) + [recordLine] == [recordLine];
    } else {
      var origin := group.predecessorOrigin.value;
      var announced := state.(section := GroupAnnounced, pending := Some(Pending(line, group.commit, origin)));
      var announcement := Line(PredecessorTokens(table, group.commit, origin));
      ReadsPredecessor(table, state, group.commit, origin, line);
      ReadOneLine(state, announcement, line);
      ReadsPastManifest(announced, group.commit, group.manifestHashes, line + 1);
      ReadOneLine(announced, recordLine, line + 1);
      ReadLinesConcat(state, [announcement], [recordLine], line);
    }
  }

  lemma ReadsGroup(table: Table, state: State, group: BindingGroup, line: nat)
    requires Coherent(state) && state.section in {Start, Parents, Group}
    requires ReadableGroup(group)
    requires forall g | g in state.groups :: g.manifestHashes.sha256 != group.manifestHashes.sha256
    ensures GroupLines(table, group).Ok?
    ensures ReadLines(state, GroupLines(table, group).value, line) ==
            Ok(state.(section := Group, groups := state.groups + [CanonicalGroup(group)]))
  {
    hide ReadRecord, Line, Sort, IsBareToken, ReadableToken, HashFields, ReadLines, DistinctKeys;
    var ordered := OrderedTokens(group.tokens);
    OrderedTokensReadable(group.tokens);
    var opening := PredecessorLines(table, group) + [Line(PastManifestTokens(group.commit, group.manifestHashes))];
    ReadsOpening(table, state, group, line);
    var bare := group.(tokens := []);
    var entered := state.(section := Group, groups := state.groups + [bare]);
    assert bare.tokens + ordered == ordered;
    ReadsTokens(entered, group.commit, ordered, line + |opening|);
    ReadLinesConcat(state, opening, TokenLines(group.commit, ordered).value, line);
    assert WithTokens(entered.groups, ordered) == state.groups + [CanonicalGroup(group)];
  }

  lemma {:induction false} ReadsGroups(table: Table, state: State, groups: seq<BindingGroup>, line: nat)
    requires Coherent(state) && state.section in {Start, Parents, Group}
    requires forall i | 0 <= i < |groups| :: ReadableGroup(groups[i])
    requires DistinctSha256(state.groups + groups)
    ensures AllGroupLines(table, groups).Ok?
    ensures ReadLines(state, AllGroupLines(table, groups).value, line) ==
            Ok(state.(section := if groups == [] then state.section else Group,
                      groups := state.groups + CanonicalGroups(groups)))
    decreases |groups|
  {
    hide ReadRecord, GroupLines, Sort, ReadableGroup, DistinctSha256, OrderedTokens, IsBareToken, ReadableTokens;
    if groups == [] {
      assert state.groups + [] == state.groups;
      assert ReadLines(state, [], line) == Ok(state);
    } else {
      hide ReadLines;
      var group, rest := groups[0], groups[1..];
      NextBinding(state.groups, groups);
      ReadsGroup(table, state, group, line);
      var next := state.(section := Group, groups := state.groups + [CanonicalGroup(group)]);
      var first := GroupLines(table, group).value;
      assert Coherent(next);
      hide Coherent;
      ReadsGroups(table, next, rest, line + |first|);
      assert CanonicalGroups(groups) == [CanonicalGroup(group)] + CanonicalGroups(rest);
      assert AllGroupLines(table, groups) == Both(GroupLines(table, group), AllGroupLines(table, rest));
      hide AllGroupLines, CanonicalGroups, CanonicalGroup;
      ReadLinesConcat(state, first, AllGroupLines(table, rest).value, line);
      AppendShift(state.groups, CanonicalGroup(group), CanonicalGroups(rest));
    }
  }

  lemma NextBinding(held: seq<BindingGroup>, groups: seq<BindingGroup>)
    requires groups != [] && DistinctSha256(held + groups)
    ensures forall g | g in held :: g.manifestHashes.sha256 != groups[0].manifestHashes.sha256
    ensures DistinctSha256((held + [CanonicalGroup(groups[0])]) + groups[1..])
  {
    hide Sort;
    var all, grown := held + groups, (held + [CanonicalGroup(groups[0])]) + groups[1..];
    forall g | g in held ensures g.manifestHashes.sha256 != groups[0].manifestHashes.sha256 {
      var i :| 0 <= i < |held| && held[i] == g;
      assert all[i] == g && all[|held|] == groups[0];
    }
    assert |grown| == |all|;
    forall i | 0 <= i < |grown| ensures grown[i].manifestHashes == all[i].manifestHashes {}
  }

  /** No entry repeats the path of the entry read just before it. */
  ghost predicate NoAdjacentRepeat(entries: seq<Entry>) {
    forall i | 0 < i < |entries| :: entries[i - 1].path != entries[i].path
  }

  lemma {:induction false} ReadsEntries(table: Table, state: State, entries: seq<Entry>, line: nat)
    requires Coherent(state) && state.section != GroupAnnounced
    requires NamedEntries(entries) && NoAdjacentRepeat(state.entries)
    ensures var outcome := ReadLines(state, EntryLines(table, entries), line);
            && (outcome.Ok? <==> NoAdjacentRepeat(state.entries + entries))
            && (outcome.Ok? ==> outcome.value == state.(section := if entries == [] then state.section else Entries,
                      entries := state.entries + entries))
    decreases |entries|
  {
    hide ReadRecord, EntryLine;
    if entries == [] {
      assert state.entries + [] == state.entries;
    } else {
      var entry, rest := entries[0], entries[1..];
      ReadsEntry(table, state, entry, line);
      var all := state.entries + entries;
      assert EntryLines(table, entries)[1..] == EntryLines(table, rest);
      if state.entries != [] && state.entries[|state.entries| - 1].path == entry.path {
        assert all[|state.entries| - 1].path == all[|state.entries|].path;
      } else {
        var next := state.(section := Entries, entries := state.entries + [entry]);
        assert next.entries + rest == all;
        ReadsEntries(table, next, rest, line + 1);
      }
    }
  }

  // ----- serialization depends on the canonical order only -----

  lemma CanonicalTokens(tokens: seq<PastToken>)
    requires DistinctKeys(tokens)
    ensures OrderedTokens(OrderedTokens(tokens)) == OrderedTokens(tokens)
  {
    var ordered := OrderedTokens(tokens);
    TokenOrderIsTotalPreorder();
    SortSorts(TokenLe, tokens);
    KeysPermute(tokens, ordered);
    TokensSeparated(ordered);
    SortFixed(TokenLe, ordered);
  }

  lemma {:induction false} CanonicalGroupLines(table: seq<Range>, groups: seq<BindingGroup>)
    requires forall i | 0 <= i < |groups| :: DistinctKeys(groups[i].tokens)
    ensures AllGroupLines(table, CanonicalGroups(groups)) == AllGroupLines(table, groups)
    ensures CanonicalGroups(CanonicalGroups(groups)) == CanonicalGroups(groups)
  {
    if groups != [] {
      CanonicalTokens(groups[0].tokens);
      hide Sort, DistinctKeys;
      CanonicalGroupLines(table, groups[1..]);
      assert GroupLines(table, CanonicalGroup(groups[0])) == GroupLines(table, groups[0]);
      assert CanonicalGroups(groups)[1..] == CanonicalGroups(groups[1..]);
    }
  }

  lemma CanonicalEntryLines(table: Table, entries: seq<Entry>)
    ensures EntryLines(table, OrderedEntries(table, entries)) == Sort(LEX_ORDER, EntryLines(table, entries))
    ensures Sort(LEX_ORDER, EntryLines(table, OrderedEntries(table, entries))) ==
            Sort(LEX_ORDER, EntryLines(table, entries))
  {
    hide EntryLines, Sort;
    SortCommutes(table, entries);
    SortedLinesAreFixed(EntryLines(table, entries));
  }

  lemma CanonicalSerializesAlike(table: Table, manifest: Manifest)
    requires ReadableGroups(manifest.bindingGroups)
    ensures Serialized(table, Canonical(table, manifest)) == Serialized(table, manifest)
  {
    CanonicalGroupLines(table, manifest.bindingGroups);
    hide Sort, EntryLines, AllGroupLines;
    CanonicalEntryLines(table, manifest.entries);
  }

  // ----- reading a serialization -----

  function AfterParents(parents: seq<Bytes>): State {
    if parents == [] then INITIAL else State(Parents, parents, None, [], [])
  }

  lemma ReadsParentLines(parents: seq<Bytes>)
    requires forall p | p in parents :: IsBareToken(p)
    ensures ParentLines(parents).Ok?
    ensures ReadLines(INITIAL, ParentLines(parents).value, 2) == Ok(AfterParents(parents))
  {
    hide ReadRecord, Line, IsBareToken;
    if parents != [] {
      ReadsParents(INITIAL, parents, 2);
      ReadOneLine(INITIAL, Line(ParentsTokens(parents)), 2);
      assert [] + parents == parents;
    }
  }

  function AfterGroups(manifest: Manifest): State {
    var before := AfterParents(manifest.parents);
    before.(section := if manifest.bindingGroups == [] then before.section else Group,
            groups := CanonicalGroups(manifest.bindingGroups))
  }

  lemma ReadsHead(table: Table, manifest: Manifest)
    requires forall p | p in manifest.parents :: IsBareToken(p)
    requires ReadableGroups(manifest.bindingGroups)
    ensures ParentLines(manifest.parents).Ok? && AllGroupLines(table, manifest.bindingGroups).Ok?
    ensures ReadLines(INITIAL,
                      ParentLines(manifest.parents).value + AllGroupLines(table, manifest.bindingGroups).value, 2) ==
            Ok(AfterGroups(manifest))
    ensures Coherent(AfterGroups(manifest)) && AfterGroups(manifest).section != GroupAnnounced
  {
    hide ReadRecord, ReadLines, ReadableGroup, CanonicalGroups, AllGroupLines, ParentLines, IsBareToken,
         DistinctSha256;
    var parents, groups := ParentLines(manifest.parents), manifest.bindingGroups;
    ReadsParentLines(manifest.parents);
    var before := AfterParents(manifest.parents);
    AppendToNothing(groups);
    AppendToNothing(CanonicalGroups(groups));
    assert groups == [] ==> CanonicalGroups(groups) == [];
    ReadsGroups(table, before, groups, 2 + |parents.value|);
    ReadLinesConcat(INITIAL, parents.value, AllGroupLines(table, groups).value, 2);
  }

  lemma OrderedNamed(table: seq<Range>, entries: seq<Entry>)
    requires NamedEntries(entries)
    ensures NamedEntries(OrderedEntries(table, entries))
  {
    var ordered := OrderedEntries(table, entries);
    hide Sort;
    forall i | 0 <= i < |ordered| ensures ordered[i].path != [] {
      assert ordered[i] in multiset(ordered);
      assert ordered[i] in multiset(entries);
    }
  }

  /** What reading the serialized lines of a manifest yields, whether or not
      its entry paths are distinct. */
  lemma ReadsSerializedLines(table: Table, manifest: Manifest)
    requires forall p | p in manifest.parents :: IsBareToken(p)
    requires ReadableGroups(manifest.bindingGroups) && NamedEntries(manifest.entries)
    ensures RecordLines(table, manifest).Ok?
    ensures var outcome := ReadLines(INITIAL, RecordLines(table, manifest).value, 2);
            var ordered := OrderedEntries(table, manifest.entries);
            && (outcome.Ok? <==> NoAdjacentRepeat(ordered))
            && (outcome.Ok? ==> Finish(outcome.value) == Ok(Canonical(table, manifest)))
  {
    hide ReadRecord, ReadLines, EntryLines, OrderedEntries, ReadableGroups, NamedEntries, NoAdjacentRepeat,
         ParentLines, AllGroupLines, Sort, IsBareToken;
    ReadsHead(table, manifest);
    var head := ParentLines(manifest.parents).value + AllGroupLines(table, manifest.bindingGroups).value;
    var ordered := OrderedEntries(table, manifest.entries);
    var lines := EntryLines(table, ordered);
    CanonicalEntryLines(table, manifest.entries);
    OrderedNamed(table, manifest.entries);
    var state := AfterGroups(manifest);
    assert state.entries + ordered == ordered;
    NothingRepeats();
    ReadsEntries(table, state, ordered, 2 + |head|);
    ReadLinesConcat(INITIAL, head, lines, 2);
  }

  lemma NothingRepeats()
    ensures NoAdjacentRepeat([])
  {
  }

  lemma ParseOfSerialized(table: Table, manifest: Manifest)
    requires Serialized(table, manifest).Ok?
    ensures Parse(table, Serialized(table, manifest).value) ==
            match ReadLines(INITIAL, RecordLines(table, manifest).value, 2)
            case Err(cause) => Err(cause)
            case Ok(state) =>
              match Finish(state)
              case Err(cause) => Err(cause)
              case Ok(read) => Gate(table, Serialized(table, manifest).value, read)
  {
    assert RecordLines(table, manifest).Ok?;
    hide Split, ReadLines, Serialized, RecordLines, Gate;
    SerializedSplits(table, manifest);
    var records := RecordLines(table, manifest).value;
    assert ([HEADER] + records)[1..] == records;
  }

  /** A well-formed manifest reads back as its canonical form. */
  lemma WellFormedReadsBack(table: Table, manifest: Manifest)
    requires WellFormed(manifest)
    ensures Serialized(table, manifest).Ok?
    ensures Parse(table, Serialized(table, manifest).value) == Ok(Canonical(table, manifest))
  {
    ReadsSerializedLines(table, manifest);
    PathsPermute(manifest.entries, OrderedEntries(table, manifest.entries));
    CanonicalSerializesAlike(table, manifest);
    ParseOfSerialized(table, manifest);
    hide ReadLines, RecordLines, Sort;
  }

  // ----- whatever is read is well formed -----

  ghost predicate Sound(state: State) {
    && (forall p | p in state.parents :: IsBareToken(p))
    && ReadableGroups(state.groups)
    && (state.pending.Some? ==> IsBareToken(state.pending.value.commit) && state.pending.value.origin != [])
    && NamedEntries(state.entries)
    && NoAdjacentRepeat(state.entries)
  }

  lemma PastManifestSound(state: State, commit: Bytes, hashFields: seq<Bytes>, line: nat)
    requires Sound(state)
    ensures var outcome := ReadPastManifest(state, commit, hashFields, line);
            outcome.Ok? ==> Sound(outcome.value)
  {
    hide IsBareToken, ParseHashes, NamedEntries, NoAdjacentRepeat;
    var outcome := ReadPastManifest(state, commit, hashFields, line);
    if outcome.Ok? {
      var groups := outcome.value.groups;
      var last := |state.groups|;
      assert groups[last].tokens == [] && ReadableGroup(groups[last]);
      assert forall i | 0 <= i < last :: groups[i] == state.groups[i] && groups[i] in state.groups;
    }
  }

  lemma PastTokenSound(state: State, commit: Bytes, name: Bytes, site: Bytes, hashFields: seq<Bytes>, line: nat)
    requires Sound(state) && state.groups != []
    ensures var outcome := ReadPastToken(state, commit, name, site, hashFields, line);
            outcome.Ok? ==> Sound(outcome.value)
  {
    hide IsBareToken, ParseHashes, NamedEntries, NoAdjacentRepeat;
    var outcome := ReadPastToken(state, commit, name, site, hashFields, line);
    if outcome.Ok? {
      var groups := outcome.value.groups;
      var last := |groups| - 1;
      var held, grown := state.groups[last].tokens, groups[last].tokens;
      assert ReadableGroup(state.groups[last]);
      assert ReadableToken(grown[|held|]) by { SpecIsBare(name); }
      assert forall k | 0 <= k < |held| :: grown[k] == held[k] && held[k] in held;
      assert ReadableTokens(grown);
      assert forall i | 0 <= i < last :: groups[i] == state.groups[i];
      assert forall i | 0 <= i <= last :: groups[i].manifestHashes == state.groups[i].manifestHashes;
    }
  }

  lemma SpecIsBare(name: Bytes)
    requires ParseSpec(name).Some?
    ensures IsBareToken(ParseSpec(name).value.Label()) && ParseSpec(name).value != Unrecognized("rfc3161")
  {
  }

  lemma EntrySound(state: State, path: Bytes, mode: Bytes, size: Bytes, hashFields: seq<Bytes>, line: nat)
    requires Sound(state)
    ensures var outcome := ReadEntry(state, path, mode, size, hashFields, line);
            outcome.Ok? ==> Sound(outcome.value)
  {
    hide IsBareToken, ParseHashes, ParseMode, ParseSize, ReadableGroups, DecodeText;
  }

  lemma RecordSound(state: State, recordLine: Bytes, line: nat)
    requires Coherent(state) && Sound(state)
    ensures var outcome := ReadRecord(state, recordLine, line);
            outcome.Ok? ==> Sound(outcome.value)
  {
    hide Split, ReadPastManifest, ReadPastToken, ReadEntry, ReadableGroups, IsBareToken, NamedEntries,
         NoAdjacentRepeat, DecodeText;
    var tokens := Split(recordLine, ' ');
    var kind := RecordKindOf(tokens[0]);
    if kind == Some(PastManifestRecord) && |tokens| >= 4 {
      PastManifestSound(state, tokens[2], tokens[4..], line);
    } else if kind == Some(PastTokenRecord) && |tokens| >= 8 && state.groups != [] {
      PastTokenSound(state, tokens[2], tokens[4], tokens[6], tokens[8..], line);
    } else if kind == Some(EntryRecord) && |tokens| >= 8 {
      EntrySound(state, tokens[2], tokens[4], tokens[6], tokens[8..], line);
    }
  }

  lemma {:induction false} LinesSound(state: State, lines: seq<Bytes>, line: nat)
    requires Coherent(state) && Sound(state)
    ensures var outcome := ReadLines(state, lines, line);
            outcome.Ok? ==> Sound(outcome.value)
    decreases |lines|
  {
    hide ReadRecord, Sound, Coherent;
    if lines != [] {
      RecordSound(state, lines[0], line);
      var outcome := ReadRecord(state, lines[0], line);
      if outcome.Ok? { LinesSound(outcome.value, lines[1..], line + 1); }
    }
  }

  /** Sorted by line, equal paths stand together, so a repeat shows up between
      neighbours. */
  lemma {:induction false} AdjacentSuffices(table: Table, entries: seq<Entry>)
    requires SortedBy(LineOrder(table), entries) && NoAdjacentRepeat(entries)
    ensures DistinctPaths(entries)
  {
    forall i, j | 0 <= i < j < |entries| ensures entries[i].path != entries[j].path {
      if entries[i].path == entries[j].path {
        hide EntryLine;
        assert LineOrder(table)(entries[i], entries[i + 1]);
        LineOrderIsPathOrder(table, entries[i], entries[i + 1]);
        if i + 1 < j {
          assert LineOrder(table)(entries[i + 1], entries[j]);
          LineOrderIsPathOrder(table, entries[i + 1], entries[j]);
          LexAntisymmetric(EncodePath(table, entries[i].path), EncodePath(table, entries[i + 1].path));
          EncodeInjective(table, entries[i].path, entries[i + 1].path);
        }
      }
    }
  }

  // ----- the two main results -----

  /** What `Parse` accepting means, step by step. */
  lemma AcceptedSteps(table: Table, text: Bytes, manifest: Manifest)
    requires Parse(table, text) == Ok(manifest)
    ensures Serialized(table, manifest) == Ok(text) && RecordLines(table, manifest).Ok?
    ensures var outcome := ReadLines(INITIAL, RecordLines(table, manifest).value, 2);
            outcome.Ok? && Finish(outcome.value) == Ok(manifest)
  {
    var lines := Split(text[..|text| - 1], '\n');
    SerializedSplits(table, manifest);
    assert lines == [HEADER] + RecordLines(table, manifest).value;
    assert lines[1..] == RecordLines(table, manifest).value;
    hide Split, ReadLines, Serialized;
  }

  lemma AcceptedIsWellFormed(table: Table, text: Bytes, manifest: Manifest)
    requires Parse(table, text) == Ok(manifest)
    ensures WellFormed(manifest) && Canonical(table, manifest) == manifest
  {
    hide Parse, ReadLines, RecordLines, Serialized, ReadableGroups, NamedEntries, NoAdjacentRepeat, DistinctPaths,
         IsBareToken, Sort;
    AcceptedSteps(table, text, manifest);
    InitialIsSound();
    LinesSound(INITIAL, RecordLines(table, manifest).value, 2);
    ReadsSerializedLines(table, manifest);
    LineOrderIsTotalPreorder(table);
    SortSorts(LineOrder(table), manifest.entries);
    AdjacentSuffices(table, manifest.entries);
  }

  lemma InitialIsSound()
    ensures Coherent(INITIAL) && Sound(INITIAL)
  {
  }

  /** The accepted texts are exactly the serializations of well-formed
      manifests in canonical order. */
  lemma AcceptsExactlySerializations(table: Table, text: Bytes, manifest: Manifest)
    ensures Parse(table, text) == Ok(manifest) <==>
            WellFormed(manifest) && Canonical(table, manifest) == manifest && Serialized(table, manifest) == Ok(text)
  {
    hide Parse, Serialized, WellFormed, Canonical;
    if Parse(table, text) == Ok(manifest) {
      AcceptedSteps(table, text, manifest);
      AcceptedIsWellFormed(table, text, manifest);
    }
    if WellFormed(manifest) && Canonical(table, manifest) == manifest && Serialized(table, manifest) == Ok(text) {
      WellFormedReadsBack(table, manifest);
    }
  }

  lemma CanonicalWellFormed(table: Table, manifest: Manifest)
    requires WellFormed(Canonical(table, manifest))
    ensures WellFormed(manifest)
  {
    hide Sort, IsBareToken;
    var canonical := Canonical(table, manifest);
    PathsPermute(canonical.entries, manifest.entries);
    forall i | 0 <= i < |manifest.entries| ensures manifest.entries[i].path != [] {
      assert manifest.entries[i] in multiset(manifest.entries);
      assert manifest.entries[i] in multiset(canonical.entries);
      assert manifest.entries[i] in canonical.entries;
    }
    forall i | 0 <= i < |manifest.bindingGroups| ensures ReadableGroup(manifest.bindingGroups[i]) {
      assert ReadableGroup(canonical.bindingGroups[i]);
      CanonicalGroupReadable(manifest.bindingGroups[i]);
    }
    assert forall i | 0 <= i < |manifest.bindingGroups| ::
        manifest.bindingGroups[i].manifestHashes == canonical.bindingGroups[i].manifestHashes;
  }

  lemma CanonicalGroupReadable(group: BindingGroup)
    requires ReadableGroup(CanonicalGroup(group))
    ensures ReadableGroup(group)
  {
    hide Sort, IsBareToken;
    var ordered := OrderedTokens(group.tokens);
    KeysPermute(ordered, group.tokens);
    forall i | 0 <= i < |group.tokens| ensures ReadableToken(group.tokens[i]) {
      assert group.tokens[i] in multiset(group.tokens);
      assert group.tokens[i] in multiset(ordered);
      assert group.tokens[i] in ordered;
    }
  }

  /** Reading back the serialization of a manifest returns that manifest in
      canonical order if and only if it is well formed. */
  lemma RoundTripExact(table: Table, manifest: Manifest)
    requires Serialized(table, manifest).Ok?
    ensures Parse(table, Serialized(table, manifest).value) == Ok(Canonical(table, manifest)) <==> WellFormed(manifest)
  {
    var text := Serialized(table, manifest).value;
    hide Parse, Serialized, WellFormed, Canonical;
    if WellFormed(manifest) { WellFormedReadsBack(table, manifest); }
    if Parse(table, text) == Ok(Canonical(table, manifest)) {
      AcceptedIsWellFormed(table, text, Canonical(table, manifest));
      CanonicalWellFormed(table, manifest);
    }
  }

  // ----- accepted texts follow the grammar -----

  ghost predicate KindsOf(lines: seq<Bytes>, kinds: seq<RecordKind>) {
    |kinds| == |lines| && forall i | 0 <= i < |lines| :: RecordKindOf(Split(lines[i], ' ')[0]) == Some(kinds[i])
  }

  lemma {:induction false} ReadLinesRun(state: State, lines: seq<Bytes>, line: nat) returns (kinds: seq<RecordKind>)
    requires Coherent(state) && ReadLines(state, lines, line).Ok?
    ensures KindsOf(lines, kinds)
    ensures ManifestGrammar.Run(state.section, kinds) == Some(ReadLines(state, lines, line).value.section)
    decreases |lines|
  {
    if lines == [] {
      kinds := [];
    } else {
      var next := ReadRecord(state, lines[0], line).value;
      var kind := RecordKindOf(Split(lines[0], ' ')[0]).value;
      hide ReadRecord, RecordKindOf, Split, SectionAfter, Coherent;
      var rest := ReadLinesRun(next, lines[1..], line + 1);
      kinds := [kind] + rest;
      assert kinds[1..] == rest;
    }
  }

  /** The record lines of every accepted text spell a word of the grammar. */
  lemma AcceptedFollowsGrammar(table: Table, text: Bytes, manifest: Manifest) returns (kinds: seq<RecordKind>)
    requires Parse(table, text) == Ok(manifest)
    ensures KindsOf(Split(text[..|text| - 1], '\n')[1..], kinds)
    ensures exists shape :: Render(shape) == kinds
  {
    var records := Split(text[..|text| - 1], '\n')[1..];
    var state := ReadLines(INITIAL, records, 2).value;
    hide ReadLines, Split, Serialized;
    kinds := ReadLinesRun(INITIAL, records, 2);
    AcceptsExactlyTheGrammar(kinds);
  }
}
