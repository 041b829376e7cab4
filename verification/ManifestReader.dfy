/** Reading canonical manifest text back, fail closed: the record reader, the
    line loop, and the final comparison with the canonical serialization. */
module ManifestReader {
  import opened Bytes
  import opened UnicodeTable
  import opened PathCodec
  import opened ManifestModel
  import opened ManifestText
  import opened ManifestGrammar

  datatype ParseError =
    | UnsupportedFormat
    | MissingFinalNewline
    | UnknownRecord(lineNumber: nat)
    | MalformedRecord(lineNumber: nat)
    | MisplacedRecord(lineNumber: nat)
    | DuplicateRecord(lineNumber: nat)
    | NonCanonicalSerialization

  datatype Pending = Pending(lineNumber: nat, commit: Bytes, origin: Bytes)

  datatype State = State(
    section: Section,
    parents: seq<Bytes>,
    pending: Option<Pending>,
    groups: seq<BindingGroup>,
    entries: seq<Entry>)

  const INITIAL: State := State(Start, [], None, [], [])

  type Outcome = Result<State, ParseError>

  /** What every reachable state keeps: a group is announced exactly while a
      predecessor is pending, and the group section has a group to extend. */
  ghost predicate Coherent(state: State) {
    && (state.section == GroupAnnounced <==> state.pending.Some?)
    && (state.section == Group ==> state.groups != [])
  }

  function RecordKindOf(name: Bytes): Option<RecordKind> {
    if name == "parents" then Some(ParentsRecord)
    else if name == "predecessor" then Some(PredecessorRecord)
    else if name == "past-manifest" then Some(PastManifestRecord)
    else if name == "past-token" then Some(PastTokenRecord)
    else if name == "entry" then Some(EntryRecord)
    else None
  }

  // ----- one record -----

  function ReadParents(state: State, fields: seq<Bytes>, line: nat): Outcome {
    if fields == [] || exists f | f in fields :: !IsBareToken(f) then Err(MalformedRecord(line))
    else Ok(state.(section := Parents, parents := state.parents + fields))
  }

  function ReadPredecessor(state: State, commit: Bytes, origin: Bytes, line: nat): Outcome {
    var decoded := DecodePath(origin);
    if !IsBareToken(commit) || decoded.None? then Err(MalformedRecord(line))
    else Ok(state.(section := GroupAnnounced, pending := Some(Pending(line, commit, decoded.value))))
  }

  function ReadPastManifest(state: State, commit: Bytes, hashFields: seq<Bytes>, line: nat): Outcome {
    var hashes := ParseHashes(hashFields);
    if !IsBareToken(commit) || hashes.None? then Err(MalformedRecord(line))
    else if exists g | g in state.groups :: g.manifestHashes.sha256 == hashes.value.sha256
    then Err(DuplicateRecord(line))
    else
      match state.pending
      case None =>
        Ok(state.(section := Group, groups := state.groups + [BindingGroup(commit, None, hashes.value, [])]))
      case Some(announcement) =>
        if announcement.commit != commit then Err(MisplacedRecord(line))
        else
          Ok(state.(section := Group, pending := None,
                    groups := state.groups + [BindingGroup(commit, Some(announcement.origin), hashes.value, [])]))
  }

  predicate RepeatsToken(tokens: seq<PastToken>, spec: AnchorSpec, site: Bytes) {
    exists t | t in tokens :: t.spec.Label() == spec.Label() && t.site == site
  }

  function WithToken(groups: seq<BindingGroup>, token: PastToken): (grown: seq<BindingGroup>)
    requires groups != []
    ensures |grown| == |groups|
  {
    var last := |groups| - 1;
    groups[last := groups[last].(tokens := groups[last].tokens + [token])]
  }

  function ReadPastToken(state: State, commit: Bytes, name: Bytes, site: Bytes, hashFields: seq<Bytes>,
          line: nat): Outcome
    requires state.groups != []
  {
    var spec, hashes := ParseSpec(name), ParseHashes(hashFields);
    var current := state.groups[|state.groups| - 1];
    if !IsBareToken(commit) || spec.None? || !IsBareToken(site) || hashes.None? then Err(MalformedRecord(line))
    else if commit != current.commit then Err(MisplacedRecord(line))
    else if RepeatsToken(current.tokens, spec.value, site) then Err(DuplicateRecord(line))
    else Ok(state.(section := Group, groups := WithToken(state.groups, PastToken(spec.value, site, hashes.value))))
  }

  function ReadEntry(state: State, path: Bytes, mode: Bytes, size: Bytes, hashFields: seq<Bytes>, line: nat): Outcome {
    var decoded, parsedMode, parsedSize, hashes := DecodePath(path), ParseMode(mode), ParseSize(size),
        ParseHashes(hashFields);
    if decoded.None? || parsedMode.None? || parsedSize.None? || hashes.None? then Err(MalformedRecord(line))
    else if state.entries != [] && state.entries[|state.entries| - 1].path == decoded.value
    then Err(DuplicateRecord(line))
    else
      Ok(state.(section := Entries,
                entries := state.entries + [Entry(decoded.value, parsedMode.value, parsedSize.value, hashes.value)]))
  }

  /** The record patterns: which tokens of a record are fixed. */
  predicate FixedAt(tokens: seq<Bytes>, index: nat, flag: Bytes) {
    index < |tokens| && tokens[index] == flag
  }

  function ReadRecord(state: State, recordLine: Bytes, line: nat): (outcome: Outcome)
    requires Coherent(state)
    ensures outcome.Ok? ==> Coherent(outcome.value)
    ensures outcome.Ok? ==>
              var kind := RecordKindOf(Split(recordLine, ' ')[0]);
              kind.Some? && SectionAfter(state.section, kind.value) == Some(outcome.value.section)
  {
    var tokens := Split(recordLine, ' ');
    var kind := RecordKindOf(tokens[0]);
    if kind.None? then Err(UnknownRecord(line))
    else if SectionAfter(state.section, kind.value).None? then Err(MisplacedRecord(line))
    else
      match kind.value
      case ParentsRecord =>
        if FixedAt(tokens, 1, "--") then ReadParents(state, tokens[2..], line)
        else Err(MalformedRecord(line))
      case PredecessorRecord =>
        if |tokens| == 5 && FixedAt(tokens, 1, "--commit") && FixedAt(tokens, 3, "--") then
          ReadPredecessor(state, tokens[2], tokens[4], line)
        else Err(MalformedRecord(line))
      case PastManifestRecord =>
        if FixedAt(tokens, 1, "--commit") && FixedAt(tokens, 3, "--") then
          ReadPastManifest(state, tokens[2], tokens[4..], line)
        else Err(MalformedRecord(line))
      case PastTokenRecord =>
        if FixedAt(tokens, 1, "--commit") && FixedAt(tokens, 3, "--spec") && FixedAt(tokens, 5, "--site")
            && FixedAt(tokens, 7, "--") then
          ReadPastToken(state, tokens[2], tokens[4], tokens[6], tokens[8..], line)
        else Err(MalformedRecord(line))
      case EntryRecord =>
        if FixedAt(tokens, 1, "--path") && FixedAt(tokens, 3, "--mode") && FixedAt(tokens, 5, "--size")
            && FixedAt(tokens, 7, "--") then
          ReadEntry(state, tokens[2], tokens[4], tokens[6], tokens[8..], line)
        else Err(MalformedRecord(line))
  }

  // ----- the whole text -----

  function ReadLines(state: State, lines: seq<Bytes>, line: nat): (outcome: Outcome)
    requires Coherent(state)
    ensures outcome.Ok? ==> Coherent(outcome.value)
    decreases |lines|
  {
    if lines == [] then Ok(state)
    else
      match ReadRecord(state, lines[0], line)
      case Ok(next) => ReadLines(next, lines[1..], line + 1)
      case Err(cause) => Err(cause)
  }

  function Finish(state: State): Result<Manifest, ParseError> {
    match state.pending
    case Some(announcement) => Err(MisplacedRecord(announcement.lineNumber))
    case None => Ok(Manifest(state.parents, state.groups, state.entries))
  }

  /** The canonicality gate: the manifest must write back to the text. */
  function Gate(table: seq<Range>, text: Bytes, manifest: Manifest): Result<Manifest, ParseError> {
    if Serialized(table, manifest) == Ok(text) then Ok(manifest) else Err(NonCanonicalSerialization)
  }

  function EndsWithNewline(text: Bytes): bool {
    text != [] && text[|text| - 1] == '\n'
  }

  function Parse(table: seq<Range>, text: Bytes): Result<Manifest, ParseError> {
    if !EndsWithNewline(text) then Err(MissingFinalNewline)
    else
      var lines := Split(text[..|text| - 1], '\n');
      if lines[0] != HEADER then Err(UnsupportedFormat)
      else
        match ReadLines(INITIAL, lines[1..], 2)
        case Err(cause) => Err(cause)
        case Ok(state) =>
          match Finish(state)
          case Err(cause) => Err(cause)
          case Ok(manifest) => Gate(table, text, manifest)
  }

  // ----- the builder and the line loop of the source -----

  class Builder {
    var section: Section
    var parents: seq<Bytes>
    var pendingPredecessor: Option<Pending>
    var bindingGroups: seq<BindingGroup>
    var entries: seq<Entry>

    function Contents(): State
      reads this
    {
      State(section, parents, pendingPredecessor, bindingGroups, entries)
    }

    ghost predicate Valid()
      reads this
    {
      Coherent(Contents())
    }

    constructor ()
      ensures Valid() && Contents() == INITIAL
    {
      section, parents, pendingPredecessor, bindingGroups, entries := Start, [], None, [], [];
    }

    method AddParents(fields: seq<Bytes>, line: nat) returns (failure: Option<ParseError>)
      modifies this`parents
      ensures match ReadParents(old(Contents()), fields, line)
              case Ok(next) => failure == None && Contents() == next.(section := old(section))
              case Err(cause) => failure == Some(cause)
    {
      if fields == [] { return Some(MalformedRecord(line)); }
      for i := 0 to |fields|
        invariant parents == old(parents) + fields[..i]
        invariant forall k | 0 <= k < i :: IsBareToken(fields[k])
      {
        if !IsBareToken(fields[i]) { return Some(MalformedRecord(line)); }
        parents := parents + [fields[i]];
      }
      assert fields[..|fields|] == fields;
      return None;
    }

    method AddPastManifest(group: BindingGroup, line: nat) returns (failure: Option<ParseError>)
      requires group.predecessorOrigin == None && group.tokens == [] && IsBareToken(group.commit)
      modifies this`bindingGroups, this`pendingPredecessor
      ensures match ReadPastManifest(old(Contents()), group.commit, HashFields(group.manifestHashes), line)
              case Ok(next) => failure == None && Contents() == next.(section := old(section))
              case Err(cause) => failure == Some(cause)
    {
      HashesExact(HashFields(group.manifestHashes), group.manifestHashes);
      hide HashFields, ParseHashes;
      if exists bound | bound in bindingGroups :: bound.manifestHashes.sha256 == group.manifestHashes.sha256 {
        return Some(DuplicateRecord(line));
      }
      var filled := group;
      var announcement := pendingPredecessor;
      pendingPredecessor := None;
      if announcement.Some? {
        if announcement.value.commit != group.commit { return Some(MisplacedRecord(line)); }
        filled := filled.(predecessorOrigin := Some(announcement.value.origin));
      }
      bindingGroups := bindingGroups + [filled];
      return None;
    }

    method AddPastToken(commit: Bytes, token: PastToken, line: nat) returns (failure: Option<ParseError>)
      requires bindingGroups != []
      modifies this`bindingGroups
      ensures var current := old(bindingGroups)[|old(bindingGroups)| - 1];
              if commit != current.commit then failure == Some(MisplacedRecord(line))
              else if RepeatsToken(current.tokens, token.spec, token.site) then failure == Some(DuplicateRecord(line))
              else failure == None && bindingGroups == WithToken(old(bindingGroups), token)
    {
      var last := |bindingGroups| - 1;
      var current := bindingGroups[last];
      if commit != current.commit { return Some(MisplacedRecord(line)); }
      if RepeatsToken(current.tokens, token.spec, token.site) { return Some(DuplicateRecord(line)); }
      bindingGroups := bindingGroups[last := current.(tokens := current.tokens + [token])];
      return None;
    }

    method AddEntry(entry: Entry, line: nat) returns (failure: Option<ParseError>)
      modifies this`entries
      ensures if old(entries) != [] && old(entries)[|old(entries)| - 1].path == entry.path
              then failure == Some(DuplicateRecord(line))
              else failure == None && entries == old(entries) + [entry]
    {
      if entries != [] && entries[|entries| - 1].path == entry.path { return Some(DuplicateRecord(line)); }
      entries := entries + [entry];
      return None;
    }

    /** One record line; the section advances only once it is accepted. */
    method Read(recordLine: Bytes, line: nat) returns (failure: Option<ParseError>)
      requires Valid()
      modifies this
      ensures match ReadRecord(old(Contents()), recordLine, line)
              case Ok(next) => failure == None && Valid() && Contents() == next
              case Err(cause) => failure == Some(cause)
    {
      hide IsBareToken, DecodePath, ParseHashes, ParseMode, ParseSize, ParseSpec, Split, HashFields;
      var tokens := Split(recordLine, ' ');
      var kind := RecordKindOf(tokens[0]);
      if kind.None? { return Some(UnknownRecord(line)); }
      var entered := SectionAfter(section, kind.value);
      if entered.None? { return Some(MisplacedRecord(line)); }
      failure := Some(MalformedRecord(line));
      match kind.value {
        case ParentsRecord =>
          if FixedAt(tokens, 1, "--") {
            failure := AddParents(tokens[2..], line);
          }
        case PredecessorRecord =>
          if |tokens| == 5 && FixedAt(tokens, 1, "--commit") && FixedAt(tokens, 3, "--") {
            var origin := DecodePath(tokens[4]);
            if IsBareToken(tokens[2]) && origin.Some? {
              pendingPredecessor := Some(Pending(line, tokens[2], origin.value));
              failure := None;
            }
          }
        case PastManifestRecord =>
          if FixedAt(tokens, 1, "--commit") && FixedAt(tokens, 3, "--") {
            var hashes := ParseHashes(tokens[4..]);
            if IsBareToken(tokens[2]) && hashes.Some? {
              HashesExact(tokens[4..], hashes.value);
              failure := AddPastManifest(BindingGroup(tokens[2], None, hashes.value, []), line);
            }
          }
        case PastTokenRecord =>
          if FixedAt(tokens, 1, "--commit") && FixedAt(tokens, 3, "--spec") && FixedAt(tokens, 5, "--site")
              && FixedAt(tokens, 7, "--") {
            var spec, hashes := ParseSpec(tokens[4]), ParseHashes(tokens[8..]);
            if IsBareToken(tokens[2]) && spec.Some? && IsBareToken(tokens[6]) && hashes.Some? {
              failure := AddPastToken(tokens[2], PastToken(spec.value, tokens[6], hashes.value), line);
            }
          }
        case EntryRecord =>
          if FixedAt(tokens, 1, "--path") && FixedAt(tokens, 3, "--mode") && FixedAt(tokens, 5, "--size")
              && FixedAt(tokens, 7, "--") {
            var path, mode, size, hashes := DecodePath(tokens[2]), ParseMode(tokens[4]), ParseSize(tokens[6]),
                ParseHashes(tokens[8..]);
            if path.Some? && mode.Some? && size.Some? && hashes.Some? {
              failure := AddEntry(Entry(path.value, mode.value, size.value, hashes.value), line);
            }
          }
      }
      if failure == None { section := entered.value; }
    }

    method Close() returns (manifest: Result<Manifest, ParseError>)
      ensures manifest == Finish(Contents())
    {
      if pendingPredecessor.Some? { return Err(MisplacedRecord(pendingPredecessor.value.lineNumber)); }
      return Ok(Manifest(parents, bindingGroups, entries));
    }
  }

  method Run(table: seq<Range>, text: Bytes) returns (parsed: Result<Manifest, ParseError>)
    ensures parsed == Parse(table, text)
  {
    if !EndsWithNewline(text) { return Err(MissingFinalNewline); }
    var lines := Split(text[..|text| - 1], '\n');
    if lines[0] != HEADER { return Err(UnsupportedFormat); }
    var records := lines[1..];
    var builder := new Builder();
    for index := 0 to |records|
      invariant builder.Valid()
      invariant ReadLines(INITIAL, records, 2) == ReadLines(builder.Contents(), records[index..], index + 2)
    {
      hide ReadRecord, Coherent;
      assert records[index..][0] == records[index] && records[index..][1..] == records[index + 1..];
      var failure := builder.Read(records[index], index + 2);
      if failure.Some? { return Err(failure.value); }
    }
    var manifest := builder.Close();
    if manifest.Err? { return manifest; }
    var canonicalText := Serialize(table, manifest.value);
    if canonicalText == Ok(text) { return manifest; }
    return Err(NonCanonicalSerialization);
  }
}
