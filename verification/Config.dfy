/** Reading `.tydence/config` (configuration manual, sections 2 to 4): site and
    profile blocks, read line by line, resolved at the end. */
module Config {
  import opened Bytes
  import opened ManifestModel

  datatype ImprintAlgorithm = Sha256 | Sha384 | Sha512

  datatype Site = Site(url: Bytes, imprint: ImprintAlgorithm)

  datatype UseSite = UseSite(siteName: Bytes, continuesOnError: bool)

  datatype Profile = Profile(selections: seq<UseSite>)

  datatype Configuration = Configuration(sites: map<Bytes, Site>, profiles: map<Bytes, Profile>)

  datatype ConfigError =
    | UnknownDirective(lineNumber: nat)
    | MalformedDirective(lineNumber: nat)
    | MisplacedDirective(lineNumber: nat)
    | DuplicateDirective(lineNumber: nat)
    | InvalidName(lineNumber: nat)
    | UnknownSite(lineNumber: nat)
    | IncompleteSite(lineNumber: nat)
    | EmptyProfile(lineNumber: nat)

  // ----- values -----

  predicate IsAlphanumeric(b: Byte) {
    '0' <= b <= '9' || 'A' <= b <= 'Z' || 'a' <= b <= 'z'
  }

  const MAX_NAME_LENGTH: nat := 64

  /** Site and profile names: alphanumeric at both edges, with `-` and `_`
      inside, at most 64 bytes. */
  predicate IsValidName(name: Bytes) {
    && name != [] && |name| <= MAX_NAME_LENGTH
    && IsAlphanumeric(name[0]) && IsAlphanumeric(name[|name| - 1])
    && forall i | 0 <= i < |name| :: IsAlphanumeric(name[i]) || name[i] == '-' || name[i] == '_'
  }

  predicate IsHttpsUrl(url: Bytes) {
    "https://" < url && forall i | 0 <= i < |url| :: IsGraphic(url[i])
  }

  function ImprintOf(family: Bytes): Option<ImprintAlgorithm> {
    if family == "sha256" then Some(Sha256)
    else if family == "sha384" then Some(Sha384)
    else if family == "sha512" then Some(Sha512)
    else None
  }

  // ----- the lexer -----

  /** The runs between spaces and tabs. */
  function Tokens(line: Bytes): (tokens: seq<Bytes>) {
    if line == [] then []
    else if line[0] == ' ' || line[0] == '\t' then Tokens(line[1..])
    else
      var n := RunLength(line);
      [line[..n]] + Tokens(line[n..])
  }

  function RunLength(line: Bytes): (n: nat)
    ensures n <= |line|
    ensures line != [] && line[0] != ' ' && line[0] != '\t' ==> n > 0
  {
    if line == [] || line[0] == ' ' || line[0] == '\t' then 0 else 1 + RunLength(line[1..])
  }

  function Trimmed(line: Bytes): Bytes {
    if line != [] && (line[0] == ' ' || line[0] == '\t') then Trimmed(line[1..]) else line
  }

  /** One trailing carriage return is tolerated; a comment line has no
      tokens. */
  function LexLine(raw: Bytes): seq<Bytes> {
    var line := if raw != [] && raw[|raw| - 1] == '\r' then raw[..|raw| - 1] else raw;
    if "#" <= Trimmed(line) then [] else Tokens(line)
  }

  /** A line that says something, with its number. */
  datatype Line = Line(directive: Bytes, arguments: seq<Bytes>, number: nat)

  function LexLines(raw: seq<Bytes>, number: nat): seq<Line> {
    if raw == [] then []
    else
      var rest := LexLines(raw[1..], number + 1);
      var tokens := LexLine(raw[0]);
      if tokens == [] then rest else [Line(tokens[0], tokens[1..], number)] + rest
  }

  // ----- the reader's state -----

  datatype PendingSite = PendingSite(lineNumber: nat, name: Bytes, url: Option<Bytes>,
      imprint: Option<ImprintAlgorithm>)

  datatype PendingProfile = PendingProfile(lineNumber: nat, name: Bytes, selections: seq<UseSite>)

  datatype SiteReference = SiteReference(siteName: Bytes, lineNumber: nat)

  datatype Scope = TopLevel | SiteBlock(site: PendingSite) | ProfileBlock(profile: PendingProfile)

  datatype State = State(scope: Scope, sites: map<Bytes, Site>, profiles: map<Bytes, Profile>,
      references: seq<SiteReference>)

  const INITIAL: State := State(TopLevel, map[], map[], [])

  type Outcome = Result<State, ConfigError>

  function CloseScope(state: State): Outcome {
    match state.scope
    case TopLevel => Ok(state)
    case SiteBlock(site) =>
      if site.url.None? || site.imprint.None? then Err(IncompleteSite(site.lineNumber))
      else Ok(state.(scope := TopLevel, sites := state.sites[site.name := Site(site.url.value, site.imprint.value)]))
    case ProfileBlock(profile) =>
      if profile.selections == [] then Err(EmptyProfile(profile.lineNumber))
      else Ok(state.(scope := TopLevel, profiles := state.profiles[profile.name := Profile(profile.selections)]))
  }

  function OpenSite(state: State, arguments: seq<Bytes>, line: nat): Outcome {
    if |arguments| != 1 then Err(MalformedDirective(line))
    else if !IsValidName(arguments[0]) then Err(InvalidName(line))
    else
      match CloseScope(state)
      case Err(cause) => Err(cause)
      case Ok(closed) =>
        if arguments[0] in closed.sites then Err(DuplicateDirective(line))
        else Ok(closed.(scope := SiteBlock(PendingSite(line, arguments[0], None, None))))
  }

  function OpenProfile(state: State, arguments: seq<Bytes>, line: nat): Outcome {
    if |arguments| != 1 then Err(MalformedDirective(line))
    else if !IsValidName(arguments[0]) then Err(InvalidName(line))
    else
      match CloseScope(state)
      case Err(cause) => Err(cause)
      case Ok(closed) =>
        if arguments[0] in closed.profiles then Err(DuplicateDirective(line))
        else Ok(closed.(scope := ProfileBlock(PendingProfile(line, arguments[0], []))))
  }

  function Selection(arguments: seq<Bytes>): Option<UseSite> {
    if |arguments| == 1 then Some(UseSite(arguments[0], false))
    else if |arguments| == 2 && arguments[1] == "ContinueOnError" then Some(UseSite(arguments[0], true))
    else None
  }

  predicate Selects(selections: seq<UseSite>, name: Bytes) {
    exists s | s in selections :: s.siteName == name
  }

  function ReadSelection(state: State, arguments: seq<Bytes>, line: nat): Outcome {
    if !state.scope.ProfileBlock? then Err(MisplacedDirective(line))
    else
      var profile := state.scope.profile;
      match Selection(arguments)
      case None => Err(MalformedDirective(line))
      case Some(selection) =>
        if Selects(profile.selections, selection.siteName) then Err(DuplicateDirective(line))
        else
          Ok(state.(scope := ProfileBlock(profile.(selections := profile.selections + [selection])),
                    references := state.references + [SiteReference(selection.siteName, line)]))
  }

  function ReadUrl(state: State, arguments: seq<Bytes>, line: nat): Outcome {
    if !state.scope.SiteBlock? then Err(MisplacedDirective(line))
    else if |arguments| != 1 || !IsHttpsUrl(arguments[0]) then Err(MalformedDirective(line))
    else if state.scope.site.url.Some? then Err(DuplicateDirective(line))
    else Ok(state.(scope := SiteBlock(state.scope.site.(url := Some(arguments[0])))))
  }

  function ReadImprint(state: State, arguments: seq<Bytes>, line: nat): Outcome {
    if !state.scope.SiteBlock? then Err(MisplacedDirective(line))
    else if |arguments| != 1 || ImprintOf(arguments[0]).None? then Err(MalformedDirective(line))
    else if state.scope.site.imprint.Some? then Err(DuplicateDirective(line))
    else Ok(state.(scope := SiteBlock(state.scope.site.(imprint := ImprintOf(arguments[0])))))
  }

  function ReadDirective(state: State, line: Line): Outcome {
    if exists a | a in line.arguments :: "#" <= a then Err(MalformedDirective(line.number))
    else if line.directive == "Site" then OpenSite(state, line.arguments, line.number)
    else if line.directive == "URL" then ReadUrl(state, line.arguments, line.number)
    else if line.directive == "Imprint" then ReadImprint(state, line.arguments, line.number)
    else if line.directive == "Profile" then OpenProfile(state, line.arguments, line.number)
    else if line.directive == "UseSite" then ReadSelection(state, line.arguments, line.number)
    else Err(UnknownDirective(line.number))
  }

  function ReadAll(state: State, lines: seq<Line>): Outcome
    decreases |lines|
  {
    if lines == [] then Ok(state)
    else
      match ReadDirective(state, lines[0])
      case Err(cause) => Err(cause)
      case Ok(next) => ReadAll(next, lines[1..])
  }

  /** The first reference to a site no block defines. */
  function FirstDangling(sites: map<Bytes, Site>, references: seq<SiteReference>): (found: Option<SiteReference>)
    ensures found.None? <==> forall r | r in references :: r.siteName in sites
  {
    if references == [] then None
    else if references[0].siteName !in sites then Some(references[0])
    else FirstDangling(sites, references[1..])
  }

  function Finish(state: State): Result<Configuration, ConfigError> {
    match CloseScope(state)
    case Err(cause) => Err(cause)
    case Ok(closed) =>
      match FirstDangling(closed.sites, closed.references)
      case Some(reference) => Err(UnknownSite(reference.lineNumber))
      case None => Ok(Configuration(closed.sites, closed.profiles))
  }

  function ParseLines(lines: seq<Line>): Result<Configuration, ConfigError> {
    match ReadAll(INITIAL, lines)
    case Err(cause) => Err(cause)
    case Ok(state) => Finish(state)
  }

  function Parse(text: Bytes): Result<Configuration, ConfigError> {
    ParseLines(LexLines(Split(text, '\n'), 1))
  }

  // ----- the builder of the source -----

  class Builder {
    var scope: Scope
    var sites: map<Bytes, Site>
    var profiles: map<Bytes, Profile>
    var unresolvedReferences: seq<SiteReference>

    function Contents(): State
      reads this
    {
      State(scope, sites, profiles, unresolvedReferences)
    }

    constructor ()
      ensures Contents() == INITIAL
    {
      scope, sites, profiles, unresolvedReferences := TopLevel, map[], map[], [];
    }

    method Close() returns (failure: Option<ConfigError>)
      modifies this
      ensures match CloseScope(old(Contents()))
              case Ok(closed) => failure == None && Contents() == closed
              case Err(cause) => failure == Some(cause)
    {
      var open := scope;
      scope := TopLevel;
      match open {
        case TopLevel =>
        case SiteBlock(site) =>
          if site.url.None? || site.imprint.None? { return Some(IncompleteSite(site.lineNumber)); }
          sites := sites[site.name := Site(site.url.value, site.imprint.value)];
        case ProfileBlock(profile) =>
          if profile.selections == [] { return Some(EmptyProfile(profile.lineNumber)); }
          profiles := profiles[profile.name := Profile(profile.selections)];
      }
      return None;
    }

    method StartSite(arguments: seq<Bytes>, line: nat) returns (failure: Option<ConfigError>)
      modifies this
      ensures match OpenSite(old(Contents()), arguments, line)
              case Ok(next) => failure == None && Contents() == next
              case Err(cause) => failure == Some(cause)
    {
      if |arguments| != 1 { return Some(MalformedDirective(line)); }
      if !IsValidName(arguments[0]) { return Some(InvalidName(line)); }
      failure := Close();
      if failure.Some? { return; }
      if arguments[0] in sites { return Some(DuplicateDirective(line)); }
      scope := SiteBlock(PendingSite(line, arguments[0], None, None));
    }

    method StartProfile(arguments: seq<Bytes>, line: nat) returns (failure: Option<ConfigError>)
      modifies this
      ensures match OpenProfile(old(Contents()), arguments, line)
              case Ok(next) => failure == None && Contents() == next
              case Err(cause) => failure == Some(cause)
    {
      if |arguments| != 1 { return Some(MalformedDirective(line)); }
      if !IsValidName(arguments[0]) { return Some(InvalidName(line)); }
      failure := Close();
      if failure.Some? { return; }
      if arguments[0] in profiles { return Some(DuplicateDirective(line)); }
      scope := ProfileBlock(PendingProfile(line, arguments[0], []));
    }

    method AddSelection(arguments: seq<Bytes>, line: nat) returns (failure: Option<ConfigError>)
      modifies this
      ensures match ReadSelection(old(Contents()), arguments, line)
              case Ok(next) => failure == None && Contents() == next
              case Err(cause) => failure == Some(cause)
    {
      if !scope.ProfileBlock? { return Some(MisplacedDirective(line)); }
      var selection := Selection(arguments);
      if selection.None? { return Some(MalformedDirective(line)); }
      var profile := scope.profile;
      if Selects(profile.selections, selection.value.siteName) { return Some(DuplicateDirective(line)); }
      scope := ProfileBlock(profile.(selections := profile.selections + [selection.value]));
      unresolvedReferences := unresolvedReferences + [SiteReference(selection.value.siteName, line)];
      return None;
    }

    method SetUrl(arguments: seq<Bytes>, line: nat) returns (failure: Option<ConfigError>)
      modifies this`scope
      ensures match ReadUrl(old(Contents()), arguments, line)
              case Ok(next) => failure == None && Contents() == next
              case Err(cause) => failure == Some(cause)
    {
      if !scope.SiteBlock? { return Some(MisplacedDirective(line)); }
      if |arguments| != 1 || !IsHttpsUrl(arguments[0]) { return Some(MalformedDirective(line)); }
      if scope.site.url.Some? { return Some(DuplicateDirective(line)); }
      scope := SiteBlock(scope.site.(url := Some(arguments[0])));
      return None;
    }

    method SetImprint(arguments: seq<Bytes>, line: nat) returns (failure: Option<ConfigError>)
      modifies this`scope
      ensures match ReadImprint(old(Contents()), arguments, line)
              case Ok(next) => failure == None && Contents() == next
              case Err(cause) => failure == Some(cause)
    {
      if !scope.SiteBlock? { return Some(MisplacedDirective(line)); }
      if |arguments| != 1 { return Some(MalformedDirective(line)); }
      var algorithm := ImprintOf(arguments[0]);
      if algorithm.None? { return Some(MalformedDirective(line)); }
      if scope.site.imprint.Some? { return Some(DuplicateDirective(line)); }
      scope := SiteBlock(scope.site.(imprint := algorithm));
      return None;
    }

    method Read(line: Line) returns (failure: Option<ConfigError>)
      modifies this
      ensures match ReadDirective(old(Contents()), line)
              case Ok(next) => failure == None && Contents() == next
              case Err(cause) => failure == Some(cause)
    {
      hide CloseScope, IsValidName, IsHttpsUrl, Selects, Selection, ImprintOf;
      if exists a | a in line.arguments :: "#" <= a { return Some(MalformedDirective(line.number)); }
      if line.directive == "Site" {
        failure := StartSite(line.arguments, line.number);
      } else if line.directive == "URL" {
        failure := SetUrl(line.arguments, line.number);
      } else if line.directive == "Imprint" {
        failure := SetImprint(line.arguments, line.number);
      } else if line.directive == "Profile" {
        failure := StartProfile(line.arguments, line.number);
      } else if line.directive == "UseSite" {
        failure := AddSelection(line.arguments, line.number);
      } else {
        failure := Some(UnknownDirective(line.number));
      }
    }

    method Complete() returns (config: Result<Configuration, ConfigError>)
      modifies this
      ensures config == Finish(old(Contents()))
    {
      var failure := Close();
      if failure.Some? { return Err(failure.value); }
      for i := 0 to |unresolvedReferences|
        invariant Contents() == CloseScope(old(Contents())).value
        invariant FirstDangling(sites, unresolvedReferences) == FirstDangling(sites, unresolvedReferences[i..])
      {
        assert unresolvedReferences[i..][1..] == unresolvedReferences[i + 1..];
        if unresolvedReferences[i].siteName !in sites { return Err(UnknownSite(unresolvedReferences[i].lineNumber)); }
      }
      return Ok(Configuration(sites, profiles));
    }
  }

  method Run(text: Bytes) returns (config: Result<Configuration, ConfigError>)
    ensures config == Parse(text)
  {
    var lines := LexLines(Split(text, '\n'), 1);
    var builder := new Builder();
    for i := 0 to |lines|
      invariant ReadAll(INITIAL, lines) == ReadAll(builder.Contents(), lines[i..])
    {
      hide ReadDirective, LexLines;
      assert lines[i..][0] == lines[i] && lines[i..][1..] == lines[i + 1..];
      var failure := builder.Read(lines[i]);
      if failure.Some? { return Err(failure.value); }
    }
    assert lines[|lines|..] == [];
    config := builder.Complete();
  }
}
