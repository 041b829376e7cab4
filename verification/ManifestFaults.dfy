/** What a manifest text that is not accepted is told: the first line at
    fault, an announcement left open, or a departure from the canonical
    spelling. */
module ManifestFaults {
  import opened Bytes
  import opened UnicodeTable
  import opened PathCodec
  import opened ManifestModel
  import opened ManifestText
  import opened ManifestGrammar
  import opened ManifestReader

  const RECORD_NAMES: seq<Bytes> := ["parents", "predecessor", "past-manifest", "past-token", "entry"]

  /** The flags stand at the odd places in front of the payload, and every
      value can be read. */
  predicate IsShaped(fields: seq<Bytes>)
    requires fields != []
  {
    if fields[0] == "parents" then
      |fields| > 2 && fields[1] == "--" && forall i | 2 <= i < |fields| :: IsBareToken(fields[i])
    else if fields[0] == "predecessor" then
      && |fields| == 5 && fields[1] == "--commit" && fields[3] == "--"
      && IsBareToken(fields[2]) && DecodePath(fields[4]).Some?
    else if fields[0] == "past-manifest" then
      && |fields| == 6 && fields[1] == "--commit" && fields[3] == "--"
      && IsBareToken(fields[2]) && ParseHashes(fields[4..]).Some?
    else if fields[0] == "past-token" then
      && |fields| == 10 && fields[1] == "--commit" && fields[3] == "--spec" && fields[5] == "--site"
         && fields[7] == "--"
      && IsBareToken(fields[2]) && IsBareToken(fields[4]) && IsBareToken(fields[6]) && ParseHashes(fields[8..]).Some?
    else
      && |fields| == 10 && fields[1] == "--path" && fields[3] == "--mode" && fields[5] == "--size" && fields[7] == "--"
      && DecodePath(fields[2]).Some? && ParseMode(fields[4]).Some? && ParseSize(fields[6]).Some?
      && ParseHashes(fields[8..]).Some?
  }

  /** The record belongs to another commit than the one being told of. */
  predicate IsForeign(state: State, fields: seq<Bytes>)
    requires |fields| > 2
  {
    || (fields[0] == "past-manifest" && state.pending.Some? && state.pending.value.commit != fields[2])
    || (fields[0] == "past-token" && state.groups != [] && state.groups[|state.groups| - 1].commit != fields[2])
  }

  /** The record repeats what may stand once: a manifest's sha256 value, a
      group's token, the path of the entry before. */
  ghost predicate IsRepeated(state: State, fields: seq<Bytes>)
    requires fields != [] && IsShaped(fields)
  {
    if fields[0] == "past-manifest" then
      exists g | g in state.groups :: g.manifestHashes.sha256 == ParseHashes(fields[4..]).value.sha256
    else if fields[0] == "past-token" then
      state.groups != []
      && exists t | t in state.groups[|state.groups| - 1].tokens :: t.spec.Label() == fields[4] && t.site == fields[6]
    else
      fields[0] == "entry" && state.entries != []
      && Some(state.entries[|state.entries| - 1].path) == DecodePath(fields[2])
  }

  ghost predicate IsRecordFault(state: State, recordLine: Bytes, line: nat, error: ParseError) {
    var fields := Split(recordLine, ' ');
    match error
    case UnknownRecord(number) => number == line && fields[0] !in RECORD_NAMES
    case MalformedRecord(number) => number == line && fields[0] in RECORD_NAMES && !IsShaped(fields)
    case MisplacedRecord(number) =>
      number == line && fields[0] in RECORD_NAMES
      && (SectionAfter(state.section, RecordKindOf(fields[0]).value).None?
          || (|fields| > 2 && IsForeign(state, fields)))
    case DuplicateRecord(number) => number == line && IsShaped(fields) && IsRepeated(state, fields)
    case _ => false
  }

  lemma NamesExact(name: Bytes)
    ensures RecordKindOf(name).Some? <==> name in RECORD_NAMES
  {
  }

  lemma LabelKept(text: Bytes)
    ensures ParseSpec(text).Some? <==> IsBareToken(text)
    ensures ParseSpec(text).Some? ==> ParseSpec(text).value.Label() == text
  {
    var known: Bytes := "rfc3161";
    assert IsBareToken(known) by { assert forall i | 0 <= i < |known| :: IsGraphic(known[i]); }
  }

  lemma NamesDiffer()
    ensures forall i, j | 0 <= i < j < 5 :: RECORD_NAMES[i] != RECORD_NAMES[j]
    ensures RECORD_NAMES == ["parents", "predecessor", "past-manifest", "past-token", "entry"]
  {
    assert |RECORD_NAMES[0]| == 7 && |RECORD_NAMES[1]| == 11 && |RECORD_NAMES[2]| == 13 && |RECORD_NAMES[3]| == 10
           && |RECORD_NAMES[4]| == 5;
  }

  /** One record is refused for what is wrong with it where it stands. */
  lemma RecordFault(state: State, recordLine: Bytes, line: nat)
    requires Coherent(state) && ReadRecord(state, recordLine, line).Err?
    ensures IsRecordFault(state, recordLine, line, ReadRecord(state, recordLine, line).error)
  {
    hide Split, DecodePath, ParseMode, ParseSize, ParseHashes, ParseSpec, IsBareToken, SectionAfter;
    var fields := Split(recordLine, ' ');
    NamesExact(fields[0]);
    NamesDiffer();
    if |fields| > 4 { LabelKept(fields[4]); }
    TailLengths(fields);
    if RecordKindOf(fields[0]).Some? && SectionAfter(state.section, RecordKindOf(fields[0]).value).Some? {
      match RecordKindOf(fields[0]).value {
        case ParentsRecord =>
          if |fields| > 2 { assert forall i | 2 <= i < |fields| :: fields[i] in fields[2..]; }
        case PastTokenRecord => assert state.groups != [] by { TokenHasGroup(state); }
        case _ =>
      }
    }
  }

  lemma TokenHasGroup(state: State)
    requires Coherent(state) && SectionAfter(state.section, PastTokenRecord).Some?
    ensures state.groups != []
  {
  }

  /** Hashes are two fields. */
  lemma TailLengths(fields: seq<Bytes>)
    ensures |fields| >= 4 && ParseHashes(fields[4..]).Some? ==> |fields| == 6
    ensures |fields| >= 8 && ParseHashes(fields[8..]).Some? ==> |fields| == 10
  {
  }

  /** Lines are refused for the first one at fault, everything before it being
      read. */
  lemma {:induction false} ReadFault(state: State, lines: seq<Bytes>, line: nat) returns (k: nat)
    requires Coherent(state) && ReadLines(state, lines, line).Err?
    ensures k < |lines| && ReadLines(state, lines[..k], line).Ok?
    ensures IsRecordFault(ReadLines(state, lines[..k], line).value, lines[k], line + k,
            ReadLines(state, lines, line).error)
    decreases |lines|
  {
    hide ReadRecord, IsRecordFault;
    var first := ReadRecord(state, lines[0], line);
    if first.Err? {
      k := 0;
      RecordFault(state, lines[0], line);
    } else {
      var later := ReadFault(first.value, lines[1..], line + 1);
      k := later + 1;
      assert lines[..k][0] == lines[0] && lines[..k][1..] == lines[1..][..later];
    }
  }

  /** Why a text is not accepted, its lines being numbered from one. */
  ghost predicate IsTextFault(table: seq<Range>, text: Bytes, error: ParseError) {
    if text == [] || text[|text| - 1] != '\n' then error == MissingFinalNewline
    else
      var lines := Split(text[..|text| - 1], '\n');
      if lines[0] != "tydence-manifest/v1" then error == UnsupportedFormat
      else
        exists k | 1 <= k <= |lines| ::
          && ReadLines(INITIAL, lines[1..k], 2).Ok?
          && var state := ReadLines(INITIAL, lines[1..k], 2).value;
             if k < |lines| then IsRecordFault(state, lines[k], k + 1, error)
             else if state.pending.Some? then error == MisplacedRecord(state.pending.value.lineNumber)
             else
               error == NonCanonicalSerialization
               && Serialized(table, Manifest(state.parents, state.groups, state.entries)) != Ok(text)
  }

  lemma ParseFault(table: seq<Range>, text: Bytes)
    requires Parse(table, text).Err?
    ensures IsTextFault(table, text, Parse(table, text).error)
  {
    hide ReadLines, IsRecordFault, Serialized, Split;
    if EndsWithNewline(text) {
      var lines := Split(text[..|text| - 1], '\n');
      if lines[0] == HEADER {
        var read := ReadLines(INITIAL, lines[1..], 2);
        assert lines[1..|lines|] == lines[1..];
        if read.Err? {
          var k := ReadFault(INITIAL, lines[1..], 2);
          assert lines[1..][..k] == lines[1..k + 1] && lines[1..][k] == lines[k + 1];
        }
      }
    }
  }
}
