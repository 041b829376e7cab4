/** The record grammar of the manifest as an automaton, and the language it
    accepts. */
module ManifestGrammar {
  import opened Bytes

  datatype RecordKind = ParentsRecord | PredecessorRecord | PastManifestRecord | PastTokenRecord | EntryRecord

  /** Where the reader stands, named after what was read last. */
  datatype Section = Start | Parents | GroupAnnounced | Group | Entries

  datatype Arrow = Arrow(from: Section, on: RecordKind, to: Section)

  const SECTION_ARROWS: seq<Arrow> := [
    Arrow(Start, ParentsRecord, Parents),
    Arrow(Start, PredecessorRecord, GroupAnnounced),
    Arrow(Start, PastManifestRecord, Group),
    Arrow(Start, EntryRecord, Entries),
    Arrow(Parents, PredecessorRecord, GroupAnnounced),
    Arrow(Parents, PastManifestRecord, Group),
    Arrow(Parents, EntryRecord, Entries),
    Arrow(GroupAnnounced, PastManifestRecord, Group),
    Arrow(Group, PredecessorRecord, GroupAnnounced),
    Arrow(Group, PastManifestRecord, Group),
    Arrow(Group, PastTokenRecord, Group),
    Arrow(Group, EntryRecord, Entries),
    Arrow(Entries, EntryRecord, Entries)
  ]

  function FindArrow(arrows: seq<Arrow>, current: Section, incoming: RecordKind): Option<Section> {
    if arrows == [] then None
    else if arrows[0].from == current && arrows[0].on == incoming then Some(arrows[0].to)
    else FindArrow(arrows[1..], current, incoming)
  }

  /** The table as a transition function; `TransitionsAreTheTable` ties it to
      the arrows. */
  function SectionAfter(current: Section, incoming: RecordKind): Option<Section> {
    match incoming
    case ParentsRecord => if current == Start then Some(Parents) else None
    case PredecessorRecord => if current in {Start, Parents, Group} then Some(GroupAnnounced) else None
    case PastManifestRecord => if current != Entries then Some(Group) else None
    case PastTokenRecord => if current == Group then Some(Group) else None
    case EntryRecord => if current != GroupAnnounced then Some(Entries) else None
  }

  lemma {:induction false} ArrowIsListed(arrows: seq<Arrow>, current: Section, incoming: RecordKind)
    ensures match FindArrow(arrows, current, incoming)
            case Some(to) => Arrow(current, incoming, to) in arrows
            case None => forall to: Section :: Arrow(current, incoming, to) !in arrows
  {
    if arrows != [] {
      assert arrows == [arrows[0]] + arrows[1..];
      ArrowIsListed(arrows[1..], current, incoming);
    }
  }

  /** The first arrow found is the only one listed: none is shadowed. */
  lemma TransitionsAreTheTable(current: Section, incoming: RecordKind)
    ensures FindArrow(SECTION_ARROWS, current, incoming) == SectionAfter(current, incoming)
  {
    ArrowIsListed(SECTION_ARROWS, current, incoming);
    hide FindArrow;
  }

  function Run(section: Section, kinds: seq<RecordKind>): Option<Section>
    decreases |kinds|
  {
    if kinds == [] then Some(section)
    else
      match SectionAfter(section, kinds[0])
      case Some(next) => Run(next, kinds[1..])
      case None => None
  }

  /** Where a manifest may end: not on an announcement whose group is missing. */
  predicate MayEnd(section: Section) { section != GroupAnnounced }

  predicate Accepts(section: Section, kinds: seq<RecordKind>) {
    Run(section, kinds).Some? && MayEnd(Run(section, kinds).value)
  }

  // ----- the language: parents? (predecessor? past-manifest past-token*)* entry* -----

  datatype GroupShape = GroupShape(announced: bool, tokens: nat)

  datatype Shape = Shape(hasParents: bool, groups: seq<GroupShape>, entries: nat)

  function Repeat(kind: RecordKind, count: nat): seq<RecordKind> {
    if count == 0 then [] else [kind] + Repeat(kind, count - 1)
  }

  function RenderGroup(group: GroupShape): seq<RecordKind> {
    (if group.announced then [PredecessorRecord] else []) + [PastManifestRecord] + Repeat(PastTokenRecord, group.tokens)
  }

  function RenderGroups(groups: seq<GroupShape>): seq<RecordKind> {
    if groups == [] then [] else RenderGroup(groups[0]) + RenderGroups(groups[1..])
  }

  function Render(shape: Shape): seq<RecordKind> {
    (if shape.hasParents then [ParentsRecord] else []) + RenderGroups(shape.groups) + Repeat(EntryRecord, shape.entries)
  }

  lemma {:induction false} RunConcat(section: Section, a: seq<RecordKind>, b: seq<RecordKind>)
    ensures Run(section, a + b) == match Run(section, a)
                                   case Some(next) => Run(next, b)
                                   case None => None
    decreases |a|
  {
    if a == [] {
      assert a + b == b;
    } else {
      assert (a + b)[0] == a[0] && (a + b)[1..] == a[1..] + b;
      match SectionAfter(section, a[0])
      case Some(next) => RunConcat(next, a[1..], b);
      case None =>
    }
  }

  lemma {:induction false} RunRepeat(section: Section, kind: RecordKind, count: nat)
    requires SectionAfter(section, kind) == Some(section)
    decreases count
    ensures Run(section, Repeat(kind, count)) == Some(section)
  {
    if count > 0 {
      assert Repeat(kind, count)[1..] == Repeat(kind, count - 1);
      RunRepeat(section, kind, count - 1);
    }
  }

  lemma RunGroup(section: Section, group: GroupShape)
    requires section in {Start, Parents, Group}
    ensures Run(section, RenderGroup(group)) == Some(Group)
  {
    var opening := (if group.announced then [PredecessorRecord] else []) + [PastManifestRecord];
    RunRepeat(Group, PastTokenRecord, group.tokens);
    RunConcat(section, opening, Repeat(PastTokenRecord, group.tokens));
    if group.announced {
      assert opening[1..] == [PastManifestRecord] && opening[1..][1..] == [];
      assert Run(GroupAnnounced, opening[1..]) == Some(Group);
    } else {
      assert opening == [PastManifestRecord] && opening[1..] == [];
    }
  }

  lemma {:induction false} RunGroups(section: Section, groups: seq<GroupShape>)
    requires section in {Start, Parents, Group}
    decreases |groups|
    ensures Run(section, RenderGroups(groups)) == Some(if groups == [] then section else Group)
  {
    if groups != [] {
      RunGroup(section, groups[0]);
      RunGroups(Group, groups[1..]);
      RunConcat(section, RenderGroup(groups[0]), RenderGroups(groups[1..]));
    }
  }

  lemma RunEntries(section: Section, count: nat)
    requires section in {Start, Parents, Group}
    ensures Run(section, Repeat(EntryRecord, count)) == Some(if count == 0 then section else Entries)
  {
    if count > 0 {
      assert Repeat(EntryRecord, count)[1..] == Repeat(EntryRecord, count - 1);
      RunRepeat(Entries, EntryRecord, count - 1);
    }
  }

  lemma RenderedAccepted(shape: Shape)
    ensures Accepts(Start, Render(shape))
  {
    var opening := if shape.hasParents then [ParentsRecord] else [];
    var section := if shape.hasParents then Parents else Start;
    assert Run(Start, opening) == Some(section) by {
      if shape.hasParents { assert opening[1..] == []; }
    }
    var groups, entries := RenderGroups(shape.groups), Repeat(EntryRecord, shape.entries);
    RunConcat(Start, opening + groups, entries);
    RunConcat(Start, opening, groups);
    RunGroups(section, shape.groups);
    RunEntries(if shape.groups == [] then section else Group, shape.entries);
  }

  /** What may follow once the reader stands in a section. */
  lemma {:induction false} AcceptedFromGroup(kinds: seq<RecordKind>)
    returns (tokens: nat, groups: seq<GroupShape>, entries: nat)
    requires Accepts(Group, kinds)
    ensures kinds == Repeat(PastTokenRecord, tokens) + RenderGroups(groups) + Repeat(EntryRecord, entries)
    decreases |kinds|
  {
    if kinds != [] && kinds[0] == PastTokenRecord {
      tokens, groups, entries := AcceptedFromGroup(kinds[1..]);
      tokens := tokens + 1;
    } else {
      tokens := 0;
      groups, entries := AcceptedFromBetween(Group, kinds);
    }
  }

  lemma {:induction false} AcceptedFromBetween(section: Section, kinds: seq<RecordKind>)
    returns (groups: seq<GroupShape>, entries: nat)
    requires section in {Start, Parents, Group} && Accepts(section, kinds)
    requires kinds != [] ==> kinds[0] != ParentsRecord && kinds[0] != PastTokenRecord
    ensures kinds == RenderGroups(groups) + Repeat(EntryRecord, entries)
    decreases |kinds|, 0
  {
    if kinds == [] {
      groups, entries := [], 0;
    } else {
      var rest := kinds[1..];
      if kinds[0] == EntryRecord {
        entries := AcceptedFromEntries(rest);
        groups, entries := [], entries + 1;
      } else if kinds[0] == PastManifestRecord {
        var tokens;
        tokens, groups, entries := AcceptedFromGroup(rest);
        PrependGroup(GroupShape(false, tokens), groups);
        groups := [GroupShape(false, tokens)] + groups;
      } else {
        AnnouncementIsFollowed(rest);
        var tokens;
        tokens, groups, entries := AcceptedFromGroup(rest[1..]);
        PrependGroup(GroupShape(true, tokens), groups);
        groups := [GroupShape(true, tokens)] + groups;
        assert kinds == [PredecessorRecord] + ([PastManifestRecord] + rest[1..]);
      }
    }
  }

  lemma AnnouncementIsFollowed(kinds: seq<RecordKind>)
    requires Accepts(GroupAnnounced, kinds)
    ensures kinds != [] && kinds[0] == PastManifestRecord && Accepts(Group, kinds[1..])
  {
    assert !Accepts(GroupAnnounced, []);
  }

  lemma PrependGroup(group: GroupShape, groups: seq<GroupShape>)
    ensures RenderGroups([group] + groups) == RenderGroup(group) + RenderGroups(groups)
  {
    assert ([group] + groups)[1..] == groups;
  }

  lemma {:induction false} AcceptedFromEntries(kinds: seq<RecordKind>) returns (count: nat)
    requires Accepts(Entries, kinds)
    ensures kinds == Repeat(EntryRecord, count)
  {
    if kinds == [] {
      count := 0;
    } else {
      count := AcceptedFromEntries(kinds[1..]);
      count := count + 1;
    }
  }

  /** The arrows, with the rule on where a manifest may end, accept exactly
      `parents? (predecessor? past-manifest past-token*)* entry*`. */
  lemma AcceptsExactlyTheGrammar(kinds: seq<RecordKind>)
    ensures Accepts(Start, kinds) <==> exists shape :: Render(shape) == kinds
  {
    if Accepts(Start, kinds) {
      if kinds == [] {
        assert Render(Shape(false, [], 0)) == kinds;
      } else if kinds[0] == ParentsRecord {
        var rest := kinds[1..];
        var groups, entries := AcceptedFromBetween(Parents, rest);
        assert Render(Shape(true, groups, entries)) == kinds;
      } else {
        var groups, entries := AcceptedFromBetween(Start, kinds);
        assert Render(Shape(false, groups, entries)) == kinds;
      }
    }
    if exists shape :: Render(shape) == kinds {
      var shape :| Render(shape) == kinds;
      RenderedAccepted(shape);
    }
  }
}
