/** What a configuration that does not parse is told: the first line at fault,
    or what is left open at the end. */
module ConfigFaults {
  import opened Bytes
  import opened Config
  import opened ConfigMeaning

  /** The line has its directive's shape. */
  predicate IsWellFormed(line: Line) {
    && (forall a | a in line.arguments :: a == [] || a[0] != '#')
    && (line.directive == "Site" || line.directive == "Profile" ==> |line.arguments| == 1)
    && (line.directive == "URL" ==> UrlOf(line).Some?)
    && (line.directive == "Imprint" ==> ImprintGiven(line).Some?)
    && (line.directive == "UseSite" ==> ChoiceOf(line).Some?)
  }

  /** The line gives a second time what may be given once. */
  ghost predicate Repeats(state: State, line: Line) {
    if line.directive == "URL" then state.scope.SiteBlock? && state.scope.site.url.Some?
    else if line.directive == "Imprint" then state.scope.SiteBlock? && state.scope.site.imprint.Some?
    else
      line.arguments != []
      && var name := line.arguments[0];
         if line.directive == "Site"
         then name in state.sites || (state.scope.SiteBlock? && state.scope.site.name == name)
         else if line.directive == "Profile" then
           name in state.profiles || (state.scope.ProfileBlock? && state.scope.profile.name == name)
         else
           line.directive == "UseSite" && state.scope.ProfileBlock?
           && exists s | s in state.scope.profile.selections :: s.siteName == name
  }

  /** The block in progress lacks something; `number` is its first line's. */
  predicate IsUnfinished(scope: Scope, error: ConfigError) {
    match error
    case IncompleteSite(number) =>
      scope.SiteBlock? && number == scope.site.lineNumber && (scope.site.url.None? || scope.site.imprint.None?)
    case EmptyProfile(number) =>
      scope.ProfileBlock? && number == scope.profile.lineNumber && scope.profile.selections == []
    case _ => false
  }

  ghost predicate IsLineFault(state: State, line: Line, error: ConfigError) {
    match error
    case UnknownDirective(number) =>
      number == line.number
      && line.directive != "Site" && line.directive != "URL" && line.directive != "Imprint"
      && line.directive != "Profile" && line.directive != "UseSite"
    case MalformedDirective(number) => number == line.number && !IsWellFormed(line)
    case MisplacedDirective(number) =>
      number == line.number
      && if line.directive == "UseSite" then !state.scope.ProfileBlock?
         else (line.directive == "URL" || line.directive == "Imprint") && !state.scope.SiteBlock?
    case InvalidName(number) =>
      number == line.number && (line.directive == "Site" || line.directive == "Profile")
      && |line.arguments| == 1 && !IsValidName(line.arguments[0])
    case DuplicateDirective(number) => number == line.number && Repeats(state, line)
    case UnknownSite(_) => false
    case _ => (line.directive == "Site" || line.directive == "Profile") && IsUnfinished(state.scope, error)
  }

  lemma UnfinishedExact(state: State)
    ensures CloseScope(state).Err? ==> IsUnfinished(state.scope, CloseScope(state).error)
  {
  }

  lemma MarksExact(line: Line)
    ensures (exists a | a in line.arguments :: "#" <= a) <==>
            !(forall a | a in line.arguments :: a == [] || a[0] != '#')
  {
    forall a: Bytes ensures "#" <= a <==> a != [] && a[0] == '#' { MarkLeads(a); }
  }

  /** One directive is refused for what is wrong with it where it stands. */
  lemma DirectiveFault(state: State, line: Line)
    requires ReadDirective(state, line).Err?
    ensures IsLineFault(state, line, ReadDirective(state, line).error)
  {
    MarksExact(line);
    ImprintExact(line);
    ChoiceExact(line);
    UnfinishedExact(state);
    hide IsHttpsUrl, ImprintOf, ImprintGiven, Selection, ChoiceOf, IsValidName, IsUnfinished;
    if line.directive == "UseSite" && state.scope.ProfileBlock? && ChoiceOf(line).Some? {
      ChosenSite(line);
    }
  }

  lemma ChosenSite(line: Line)
    requires ChoiceOf(line).Some?
    ensures line.arguments != [] && ChoiceOf(line).value.siteName == line.arguments[0]
  {
  }

  /** Lines are refused for the first one at fault, everything before it being
      read. */
  lemma {:induction false} ReadFault(state: State, lines: seq<Line>) returns (k: nat)
    requires ReadAll(state, lines).Err?
    ensures k < |lines| && ReadAll(state, lines[..k]).Ok?
    ensures IsLineFault(ReadAll(state, lines[..k]).value, lines[k], ReadAll(state, lines).error)
    decreases |lines|
  {
    hide ReadDirective, IsLineFault;
    var first := ReadDirective(state, lines[0]);
    if first.Err? {
      k := 0;
      DirectiveFault(state, lines[0]);
    } else {
      var later := ReadFault(first.value, lines[1..]);
      k := later + 1;
      assert lines[..k][0] == lines[0] && lines[..k][1..] == lines[1..][..later];
    }
  }

  /** A text that does not parse is refused for its first line at fault; or,
      all lines being read, for the block left unfinished or a selection of a
      site no block defines. */
  lemma ParseFault(lines: seq<Line>) returns (k: nat)
    requires ParseLines(lines).Err?
    ensures k <= |lines| && ReadAll(INITIAL, lines[..k]).Ok?
    ensures var state, error := ReadAll(INITIAL, lines[..k]).value, ParseLines(lines).error;
            if k < |lines| then IsLineFault(state, lines[k], error)
            else
              || IsUnfinished(state.scope, error)
              || (error.UnknownSite? && exists r | r in state.references ::
                    r.lineNumber == error.lineNumber && r.siteName !in state.sites)
  {
    hide ReadAll, IsLineFault, IsUnfinished;
    var state := ReadAll(INITIAL, lines);
    if state.Err? {
      k := ReadFault(INITIAL, lines);
    } else {
      k := |lines|;
      assert lines[..k] == lines;
      UnfinishedExact(state.value);
      if CloseScope(state.value).Ok? {
        var closed := CloseScope(state.value).value;
        DanglingIs(closed.sites, closed.references);
        ClosingAdds(state.value);
      }
    }
  }

  lemma ClosingAdds(state: State)
    requires CloseScope(state).Ok?
    ensures CloseScope(state).value.references == state.references
    ensures forall name | name in state.sites :: name in CloseScope(state).value.sites
  {
  }

  lemma {:induction false} DanglingIs(sites: map<Bytes, Site>, references: seq<SiteReference>)
    ensures FirstDangling(sites, references).Some? ==>
              FirstDangling(sites, references).value in references
              && FirstDangling(sites, references).value.siteName !in sites
  {
    if references != [] {
      DanglingIs(sites, references[1..]);
      assert references == [references[0]] + references[1..];
    }
  }
}
