/** The meaning of a configuration text does not depend on the order of its
    blocks: each block reads on its own, and the whole is their union. */
module ConfigBlocks {
  import opened Bytes
  import opened Config

  // ----- blocks -----

  predicate IsOpener(line: Line) {
    line.directive == "Site" || line.directive == "Profile"
  }

  predicate HasNoOpener(lines: seq<Line>) {
    forall i | 0 <= i < |lines| :: !IsOpener(lines[i])
  }

  predicate IsBlock(lines: seq<Line>) {
    lines != [] && IsOpener(lines[0]) && HasNoOpener(lines[1..])
  }

  predicate AreBlocks(blocks: seq<seq<Line>>) {
    forall i | 0 <= i < |blocks| :: IsBlock(blocks[i])
  }

  function Flatten(blocks: seq<seq<Line>>): seq<Line> {
    if blocks == [] then [] else blocks[0] + Flatten(blocks[1..])
  }

  function BodyLength(lines: seq<Line>): (n: nat)
    ensures n <= |lines|
    ensures HasNoOpener(lines[..n])
    ensures n < |lines| ==> IsOpener(lines[n])
  {
    if lines == [] || IsOpener(lines[0]) then 0 else 1 + BodyLength(lines[1..])
  }

  /** The lines cut in front of every opener. */
  function Blocks(lines: seq<Line>): seq<seq<Line>> {
    if lines == [] then []
    else
      var n := 1 + BodyLength(lines[1..]);
      [lines[..n]] + Blocks(lines[n..])
  }

  lemma {:induction false} BlocksRebuild(lines: seq<Line>)
    ensures Flatten(Blocks(lines)) == lines
    ensures lines != [] && IsOpener(lines[0]) ==> AreBlocks(Blocks(lines))
  {
    hide IsOpener, HasNoOpener;
    if lines != [] {
      var n := 1 + BodyLength(lines[1..]);
      var first, rest := lines[..n], lines[n..];
      BlocksRebuild(rest);
      assert first + rest == lines;
      assert first[1..] == lines[1..][..n - 1];
      var blocks := [first] + Blocks(rest);
      assert blocks[1..] == Blocks(rest);
    }
  }

  // ----- reading a stretch of lines and closing the block it ends in -----

  function Closed(state: State, lines: seq<Line>): Outcome {
    match ReadAll(state, lines)
    case Err(cause) => Err(cause)
    case Ok(next) => CloseScope(next)
  }

  lemma {:induction false} ReadAllAppends(state: State, a: seq<Line>, b: seq<Line>)
    ensures ReadAll(state, a + b) ==
            match ReadAll(state, a) { case Err(cause) => Err(cause) case Ok(next) => ReadAll(next, b) }
    decreases |a|
  {
    hide ReadDirective;
    if a == [] {
      assert a + b == b;
    } else {
      assert (a + b)[0] == a[0] && (a + b)[1..] == a[1..] + b;
      match ReadDirective(state, a[0]) {
        case Err(_) =>
        case Ok(next) => ReadAllAppends(next, a[1..], b);
      }
    }
  }

  /** Nothing read yet but the open block. */
  function Bare(state: State): State {
    State(state.scope, map[], map[], [])
  }

  /** What `state` had collected before the stretch that ends in `later`. */
  function Under(state: State, later: State): State {
    State(later.scope, state.sites + later.sites, state.profiles + later.profiles, state.references + later.references)
  }

  lemma BodyLineIsLocal(state: State, line: Line)
    requires !IsOpener(line)
    ensures match ReadDirective(Bare(state), line)
            case Err(_) => ReadDirective(state, line).Err?
            case Ok(next) =>
              ReadDirective(state, line) == Ok(Under(state, next)) && next.sites == map[] && next.profiles == map[]
  {
    hide IsHttpsUrl, Selection, Selects, ImprintOf;
    assert state.references + [] == state.references;
    assert state.sites + map[] == state.sites && state.profiles + map[] == state.profiles;
    if ReadDirective(Bare(state), line).Ok? {
      var next := ReadDirective(Bare(state), line).value;
      if next.references != [] { AppendToNothing([SiteReference(next.references[0].siteName, line.number)]); }
    }
  }

  lemma {:induction false} BodyIsLocal(state: State, lines: seq<Line>)
    requires HasNoOpener(lines)
    ensures match ReadAll(Bare(state), lines)
            case Err(_) => ReadAll(state, lines).Err?
            case Ok(next) =>
              ReadAll(state, lines) == Ok(Under(state, next)) && next.sites == map[] && next.profiles == map[]
    decreases |lines|
  {
    hide ReadDirective, IsOpener;
    if lines == [] {
      assert Under(state, Bare(state)) == state;
    } else {
      BodyLineIsLocal(state, lines[0]);
      match ReadDirective(Bare(state), lines[0]) {
        case Err(_) =>
        case Ok(next) =>
          BodyIsLocal(next, lines[1..]);
          BodyIsLocal(Under(state, next), lines[1..]);
          assert Bare(Under(state, next)) == Bare(next);
          if ReadAll(Bare(next), lines[1..]).Ok? {
            var last := ReadAll(Bare(next), lines[1..]).value;
            assert Under(next, last).sites == map[] && Under(next, last).profiles == map[];
            assert Under(Under(state, next), last) == Under(state, Under(next, last));
          }
      }
    }
  }

  // ----- one block -----

  /** What a block defines, read on its own. */
  function Alone(block: seq<Line>): Outcome {
    Closed(INITIAL, block)
  }

  predicate Disjoint(a: State, b: State) {
    a.sites.Keys !! b.sites.Keys && a.profiles.Keys !! b.profiles.Keys
  }

  /** The block an opener opens. */
  function Started(line: Line): State
    requires |line.arguments| == 1
  {
    var scope := if line.directive == "Site" then SiteBlock(PendingSite(line.number, line.arguments[0], None, None))
                 else ProfileBlock(PendingProfile(line.number, line.arguments[0], []));
    INITIAL.(scope := scope)
  }

  predicate Clashes(closed: State, started: State) {
    match started.scope
    case TopLevel => false
    case SiteBlock(site) => site.name in closed.sites
    case ProfileBlock(profile) => profile.name in closed.profiles
  }

  lemma OpenerIsLocal(state: State, line: Line)
    requires IsOpener(line)
    ensures match ReadDirective(INITIAL, line)
            case Err(_) => ReadDirective(state, line).Err?
            case Ok(started) =>
              && |line.arguments| == 1 && started == Started(line)
              && match CloseScope(state)
                 case Err(_) => ReadDirective(state, line).Err?
                 case Ok(closed) =>
                   if Clashes(closed, started) then ReadDirective(state, line).Err?
                   else ReadDirective(state, line) == Ok(closed.(scope := started.scope))
  {
    hide IsValidName;
  }

  predicate SameBlock(a: Scope, b: Scope) {
    match a
    case TopLevel => b.TopLevel?
    case SiteBlock(site) => b.SiteBlock? && b.site.name == site.name
    case ProfileBlock(profile) => b.ProfileBlock? && b.profile.name == profile.name
  }

  lemma BodyLineKeepsBlock(state: State, line: Line)
    requires !IsOpener(line) && ReadDirective(state, line).Ok?
    ensures SameBlock(state.scope, ReadDirective(state, line).value.scope)
  {
    hide IsHttpsUrl, Selection, Selects, ImprintOf;
  }

  lemma {:induction false} BodyKeepsBlock(state: State, lines: seq<Line>)
    requires HasNoOpener(lines) && ReadAll(state, lines).Ok?
    ensures SameBlock(state.scope, ReadAll(state, lines).value.scope)
    decreases |lines|
  {
    hide ReadDirective, IsOpener;
    if lines != [] {
      BodyLineKeepsBlock(state, lines[0]);
      BodyKeepsBlock(ReadDirective(state, lines[0]).value, lines[1..]);
    }
  }

  /** Closing a block on top of what earlier blocks collected. */
  lemma CloseIsLocal(closed: State, started: State, last: State)
    requires SameBlock(started.scope, last.scope) && !started.scope.TopLevel?
    requires last.sites == map[] && last.profiles == map[] && closed.scope.TopLevel?
    ensures match CloseScope(last)
            case Err(_) => CloseScope(Under(closed, last)).Err?
            case Ok(alone) =>
              && CloseScope(Under(closed, last)) == Ok(Under(closed, alone))
              && (Disjoint(closed, alone) <==> !Clashes(closed, started))
  {
    assert Under(closed, last).sites == closed.sites && Under(closed, last).profiles == closed.profiles;
    if CloseScope(last).Ok? {
      var alone := CloseScope(last).value;
      if started.scope.SiteBlock? {
        assert alone.sites.Keys == {started.scope.site.name} && alone.profiles.Keys == {};
        assert closed.sites[last.scope.site.name := alone.sites[last.scope.site.name]] == closed.sites + alone.sites;
      } else {
        assert alone.profiles.Keys == {started.scope.profile.name} && alone.sites.Keys == {};
        assert closed.profiles[last.scope.profile.name := alone.profiles[last.scope.profile.name]] ==
               closed.profiles + alone.profiles;
      }
    }
  }

  /** A block reads the same wherever it stands, unless its name is taken. */
  lemma BlockIsLocal(state: State, block: seq<Line>)
    requires IsBlock(block)
    ensures Closed(state, block).Ok? <==>
              CloseScope(state).Ok? && Alone(block).Ok? && Disjoint(CloseScope(state).value, Alone(block).value)
    ensures Closed(state, block).Ok? ==>
            Closed(state, block).value == Under(CloseScope(state).value, Alone(block).value)
  {
    hide ReadDirective, HasNoOpener, Disjoint, Clashes, SameBlock;
    OpenerIsLocal(state, block[0]);
    if ReadDirective(INITIAL, block[0]).Ok? {
      var started, body := Started(block[0]), block[1..];
      BodyIsLocal(started, body);
      assert Bare(started) == started;
      if CloseScope(state).Ok? {
        var closed := CloseScope(state).value;
        var open := closed.(scope := started.scope);
        BodyIsLocal(open, body);
        assert Bare(open) == started;
        if ReadAll(started, body).Ok? {
          var last := ReadAll(started, body).value;
          BodyKeepsBlock(started, body);
          assert Under(open, last) == Under(closed, last);
          CloseIsLocal(closed, started, last);
        }
      }
    }
  }

  // ----- the union of blocks -----

  function AsOption(outcome: Outcome): Option<State> {
    match outcome case Err(_) => None case Ok(state) => Some(state)
  }

  /** The union of two collections that define nothing twice. */
  function Combine(a: Option<State>, b: Option<State>): Option<State> {
    if a.Some? && b.Some? && Disjoint(a.value, b.value) then Some(Under(a.value, b.value)) else None
  }

  function Assembled(blocks: seq<seq<Line>>): (union: Option<State>)
    ensures union.Some? ==> union.value.scope.TopLevel?
  {
    if blocks == [] then Some(INITIAL) else Combine(AsOption(Alone(blocks[0])), Assembled(blocks[1..]))
  }

  lemma NothingToCombine(b: Option<State>)
    ensures Combine(Some(INITIAL), b) == b
  {
    if b.Some? { assert Under(INITIAL, b.value) == b.value; }
  }

  lemma DisjointFromUnion(x: State, y: State, z: State)
    ensures Disjoint(x, Under(y, z)) <==> Disjoint(x, y) && Disjoint(x, z)
    ensures Disjoint(Under(y, z), x) <==> Disjoint(y, x) && Disjoint(z, x)
  {
    assert Under(y, z).sites.Keys == y.sites.Keys + z.sites.Keys;
    assert Under(y, z).profiles.Keys == y.profiles.Keys + z.profiles.Keys;
  }

  lemma CombineAssociates(a: Option<State>, b: Option<State>, c: Option<State>)
    ensures Combine(Combine(a, b), c) == Combine(a, Combine(b, c))
  {
    hide Disjoint;
    if a.Some? && b.Some? && c.Some? {
      var x, y, z := a.value, b.value, c.value;
      DisjointFromUnion(x, y, z);
      DisjointFromUnion(z, x, y);
      assert Under(Under(x, y), z) == Under(x, Under(y, z));
    }
  }

  lemma {:induction false} ClosedIsAssembled(state: State, blocks: seq<seq<Line>>)
    requires AreBlocks(blocks)
    ensures AsOption(Closed(state, Flatten(blocks))) == Combine(AsOption(CloseScope(state)), Assembled(blocks))
    decreases |blocks|
  {
    hide IsBlock;
    if blocks == [] {
      if CloseScope(state).Ok? {
        var closed := CloseScope(state).value;
        assert Under(closed, INITIAL) == closed;
      }
    } else {
      var first, rest := blocks[0], blocks[1..];
      hide CloseScope, Disjoint, Under, ReadAll;
      ReadAllAppends(state, first, Flatten(rest));
      BlockIsLocal(state, first);
      CombineAssociates(AsOption(CloseScope(state)), AsOption(Alone(first)), Assembled(rest));
      assert Combine(AsOption(CloseScope(state)), AsOption(Alone(first))) == AsOption(Closed(state, first));
      if ReadAll(state, first).Ok? { ClosedIsAssembled(ReadAll(state, first).value, rest); }
    }
  }

  /** The same definitions and references, in whatever order. */
  predicate Agree(a: Option<State>, b: Option<State>) {
    && a.Some? == b.Some?
    && (a.Some? ==>
          && a.value.sites == b.value.sites && a.value.profiles == b.value.profiles
          && multiset(a.value.references) == multiset(b.value.references))
  }

  lemma UnionCommutes<K, V>(m: map<K, V>, n: map<K, V>, rest: map<K, V>)
    requires m.Keys !! n.Keys
    ensures m + (n + rest) == n + (m + rest)
  {
  }

  lemma CombineCommutes(a: Option<State>, b: Option<State>, c: Option<State>)
    ensures Agree(Combine(a, Combine(b, c)), Combine(b, Combine(a, c)))
  {
    if a.Some? && b.Some? && c.Some? {
      var x, y, z := a.value, b.value, c.value;
      DisjointFromUnion(x, y, z);
      DisjointFromUnion(y, x, z);
      assert Disjoint(x, y) == Disjoint(y, x);
      if Disjoint(x, y) {
        UnionCommutes(x.sites, y.sites, z.sites);
        UnionCommutes(x.profiles, y.profiles, z.profiles);
      }
      hide Disjoint;
    }
  }

  lemma CombineCongruent(a: Option<State>, b: Option<State>, c: Option<State>)
    requires Agree(b, c)
    ensures Agree(Combine(a, b), Combine(a, c))
  {
  }

  lemma {:induction false} MoveToFront(before: seq<seq<Line>>, block: seq<Line>, after: seq<seq<Line>>)
    ensures Agree(Assembled(before + ([block] + after)), Assembled([block] + (before + after)))
    decreases |before|
  {
    hide Alone, Combine, Agree;
    if before == [] {
      AppendToNothing(after);
      AppendToNothing([block] + after);
      hide *;
      AgreeReflexive(Assembled([block] + after));
    } else {
      var first, rest := before[0], before[1..];
      MoveToFront(rest, block, after);
      var a, b, c := AsOption(Alone(first)), AsOption(Alone(block)), Assembled(rest + after);
      assert (before + ([block] + after))[1..] == rest + ([block] + after);
      assert (before + after)[1..] == rest + after;
      assert ([block] + (before + after))[1..] == before + after;
      assert ([block] + (rest + after))[1..] == rest + after;
      assert Assembled([block] + (rest + after)) == Combine(b, c);
      assert Assembled([block] + (before + after)) == Combine(b, Combine(a, c));
      assert Assembled(before + ([block] + after)) == Combine(a, Assembled(rest + ([block] + after)));
      CombineCongruent(a, Assembled(rest + ([block] + after)), Combine(b, c));
      CombineCommutes(a, b, c);
      AgreeTransitive(Combine(a, Assembled(rest + ([block] + after))), Combine(a, Combine(b, c)),
          Combine(b, Combine(a, c)));
    }
  }

  lemma AgreeReflexive(a: Option<State>)
    ensures Agree(a, a)
  {
  }

  lemma AgreeTransitive(a: Option<State>, b: Option<State>, c: Option<State>)
    requires Agree(a, b) && Agree(b, c)
    ensures Agree(a, c)
  {
  }

  /** The first element of `a`, found in a rearrangement of `a`. */
  lemma Around<T>(a: seq<T>, b: seq<T>) returns (before: seq<T>, after: seq<T>)
    requires a != [] && multiset(a) == multiset(b)
    ensures b == before + ([a[0]] + after)
    ensures multiset(a[1..]) == multiset(before + after)
  {
    assert a == [a[0]] + a[1..];
    assert a[0] in multiset(b);
    var i :| 0 <= i < |b| && b[i] == a[0];
    before, after := b[..i], b[i + 1..];
    assert b == before + ([a[0]] + after);
    assert multiset(a[1..]) == multiset(a) - multiset{a[0]};
  }

  lemma {:induction false} ReorderedAgree(a: seq<seq<Line>>, b: seq<seq<Line>>)
    requires multiset(a) == multiset(b)
    ensures Agree(Assembled(a), Assembled(b))
    decreases |a|
  {
    hide Alone, Combine, Agree;
    if a == [] {
      assert |b| == |multiset(b)|;
      assert b == [];
      AgreeReflexive(Assembled(a));
    } else {
      var first, rest := a[0], a[1..];
      var before, after := Around(a, b);
      ReorderedAgree(rest, before + after);
      MoveToFront(before, first, after);
      var head := AsOption(Alone(first));
      AgreeSymmetric(Assembled(rest), Assembled(before + after));
      CombineCongruent(head, Assembled(before + after), Assembled(rest));
      assert ([first] + (before + after))[1..] == before + after;
      AgreeTransitive(Assembled(b), Combine(head, Assembled(before + after)), Assembled(a));
      AgreeSymmetric(Assembled(b), Assembled(a));
    }
  }

  lemma AgreeSymmetric(a: Option<State>, b: Option<State>)
    requires Agree(a, b)
    ensures Agree(b, a)
  {
  }

  // ----- reordering the blocks of a text -----

  predicate Resolved(state: State) {
    forall r | r in state.references :: r.siteName in state.sites
  }

  /** A run of blocks parses exactly when its blocks define nothing twice and
      refer to nothing undefined, and means the union of what they define. */
  lemma ParsesAsUnion(blocks: seq<seq<Line>>)
    requires AreBlocks(blocks)
    ensures match ParseLines(Flatten(blocks))
            case Ok(config) =>
              && Assembled(blocks).Some? && Resolved(Assembled(blocks).value)
              && config == Configuration(Assembled(blocks).value.sites, Assembled(blocks).value.profiles)
            case Err(_) => Assembled(blocks).Some? ==> !Resolved(Assembled(blocks).value)
  {
    hide IsBlock, ReadAll, Assembled, FirstDangling, Combine;
    ClosedIsAssembled(INITIAL, blocks);
    NothingToCombine(Assembled(blocks));
  }

  lemma FirstLineOpens(lines: seq<Line>)
    requires lines != [] && ParseLines(lines).Ok?
    ensures IsOpener(lines[0])
  {
  }

  lemma AgreeingUnionsResolve(a: State, b: State)
    requires Agree(Some(a), Some(b)) && Resolved(a)
    ensures Resolved(b)
  {
    forall r | r in b.references ensures r.siteName in b.sites {
      assert r in multiset(a.references);
    }
  }

  /** A text that parses keeps its meaning under every reordering of its
      blocks. */
  lemma BlockOrderIsFree(lines: seq<Line>, blocks: seq<seq<Line>>)
    requires ParseLines(lines).Ok?
    requires multiset(blocks) == multiset(Blocks(lines))
    ensures ParseLines(Flatten(blocks)) == ParseLines(lines)
  {
    hide ParseLines, Assembled, IsBlock, Resolved;
    BlocksRebuild(lines);
    if lines != [] { FirstLineOpens(lines); }
    assert AreBlocks(Blocks(lines));
    forall i | 0 <= i < |blocks| ensures IsBlock(blocks[i]) {
      assert blocks[i] in multiset(Blocks(lines));
    }
    ParsesAsUnion(Blocks(lines));
    ParsesAsUnion(blocks);
    ReorderedAgree(Blocks(lines), blocks);
    AgreeingUnionsResolve(Assembled(Blocks(lines)).value, Assembled(blocks).value);
  }

  // ----- line numbers only ever name a fault -----

  predicate SameWords(a: seq<Line>, b: seq<Line>) {
    && |a| == |b|
    && forall i | 0 <= i < |a| :: a[i].directive == b[i].directive && a[i].arguments == b[i].arguments
  }

  predicate SameScope(a: Scope, b: Scope) {
    match a
    case TopLevel => b.TopLevel?
    case SiteBlock(site) => b.SiteBlock? && b.site == site.(lineNumber := b.site.lineNumber)
    case ProfileBlock(profile) => b.ProfileBlock? && b.profile == profile.(lineNumber := b.profile.lineNumber)
  }

  predicate SameReferences(a: seq<SiteReference>, b: seq<SiteReference>) {
    |a| == |b| && forall i | 0 <= i < |a| :: a[i].siteName == b[i].siteName
  }

  predicate SameState(a: State, b: State) {
    && SameScope(a.scope, b.scope)
    && a.sites == b.sites && a.profiles == b.profiles
    && SameReferences(a.references, b.references)
  }

  lemma ClosingIgnoresNumber(a: State, b: State)
    requires SameState(a, b)
    ensures CloseScope(a).Ok? == CloseScope(b).Ok?
    ensures CloseScope(a).Ok? ==> SameState(CloseScope(a).value, CloseScope(b).value)
  {
    hide SameReferences;
  }

  lemma OpeningIgnoresNumber(a: State, b: State, x: Line, y: Line)
    requires SameState(a, b) && x.directive == y.directive && x.arguments == y.arguments && IsOpener(x)
    ensures ReadDirective(a, x).Ok? == ReadDirective(b, y).Ok?
    ensures ReadDirective(a, x).Ok? ==> SameState(ReadDirective(a, x).value, ReadDirective(b, y).value)
  {
    hide IsValidName, CloseScope, SameReferences;
    ClosingIgnoresNumber(a, b);
  }

  lemma DirectiveIgnoresNumber(a: State, b: State, x: Line, y: Line)
    requires SameState(a, b) && x.directive == y.directive && x.arguments == y.arguments
    ensures ReadDirective(a, x).Ok? == ReadDirective(b, y).Ok?
    ensures ReadDirective(a, x).Ok? ==> SameState(ReadDirective(a, x).value, ReadDirective(b, y).value)
  {
    hide IsHttpsUrl, Selection, Selects, ImprintOf, OpenSite, OpenProfile, CloseScope;
    if IsOpener(x) { OpeningIgnoresNumber(a, b, x, y); }
  }

  lemma {:induction false} ReadingIgnoresNumbers(a: State, b: State, lines: seq<Line>, others: seq<Line>)
    requires SameState(a, b) && SameWords(lines, others)
    ensures ReadAll(a, lines).Ok? == ReadAll(b, others).Ok?
    ensures ReadAll(a, lines).Ok? ==> SameState(ReadAll(a, lines).value, ReadAll(b, others).value)
    decreases |lines|
  {
    hide SameState, ReadDirective;
    if lines != [] {
      DirectiveIgnoresNumber(a, b, lines[0], others[0]);
      if ReadDirective(a, lines[0]).Ok? {
        ReadingIgnoresNumbers(ReadDirective(a, lines[0]).value, ReadDirective(b, others[0]).value, lines[1..],
            others[1..]);
      }
    }
  }

  lemma NumbersDoNotMatter(lines: seq<Line>, others: seq<Line>)
    requires SameWords(lines, others) && ParseLines(lines).Ok?
    ensures ParseLines(others) == ParseLines(lines)
  {
    hide ReadAll, FirstDangling, SameWords;
    ReadingIgnoresNumbers(INITIAL, INITIAL, lines, others);
    var a, b := CloseScope(ReadAll(INITIAL, lines).value).value, CloseScope(ReadAll(INITIAL, others).value).value;
    forall r | r in b.references ensures r.siteName in b.sites {
      var i :| 0 <= i < |b.references| && b.references[i] == r;
      assert a.references[i] in a.references;
    }
  }

  /** The two together: reorder the blocks, count the lines anew, and the
      text still means the same. */
  lemma ReorderedTextMeansTheSame(lines: seq<Line>, blocks: seq<seq<Line>>, renumbered: seq<Line>)
    requires ParseLines(lines).Ok?
    requires multiset(blocks) == multiset(Blocks(lines)) && SameWords(Flatten(blocks), renumbered)
    ensures ParseLines(renumbered) == ParseLines(lines)
  {
    hide *;
    BlockOrderIsFree(lines, blocks);
    NumbersDoNotMatter(Flatten(blocks), renumbered);
  }

  // ----- what every parsed configuration satisfies -----

  predicate DistinctSelections(selections: seq<UseSite>) {
    forall i, j | 0 <= i < j < |selections| :: selections[i].siteName != selections[j].siteName
  }

  /** A profile acquisition can walk: at least one selection, no site twice,
      every site defined. */
  predicate IsUsable(profile: Profile, sites: map<Bytes, Site>) {
    && profile.selections != []
    && DistinctSelections(profile.selections)
    && forall s | s in profile.selections :: s.siteName in sites
  }

  predicate AreReferenced(selections: seq<UseSite>, references: seq<SiteReference>) {
    forall s | s in selections :: exists r | r in references :: r.siteName == s.siteName
  }

  predicate SitesAreSound(sites: map<Bytes, Site>) {
    forall name | name in sites :: IsValidName(name) && IsHttpsUrl(sites[name].url)
  }

  predicate ProfilesAreSound(profiles: map<Bytes, Profile>, references: seq<SiteReference>) {
    forall name | name in profiles ::
      && IsValidName(name) && profiles[name].selections != []
      && DistinctSelections(profiles[name].selections) && AreReferenced(profiles[name].selections, references)
  }

  predicate ScopeIsSound(scope: Scope, references: seq<SiteReference>) {
    match scope
    case TopLevel => true
    case SiteBlock(site) => IsValidName(site.name) && (site.url.Some? ==> IsHttpsUrl(site.url.value))
    case ProfileBlock(profile) =>
      IsValidName(profile.name) && DistinctSelections(profile.selections)
      && AreReferenced(profile.selections, references)
  }

  predicate IsSound(state: State) {
    && SitesAreSound(state.sites)
    && ProfilesAreSound(state.profiles, state.references)
    && ScopeIsSound(state.scope, state.references)
  }

  lemma ReferencesOnlyGrow(selections: seq<UseSite>, references: seq<SiteReference>, more: seq<SiteReference>)
    requires AreReferenced(selections, references)
    ensures AreReferenced(selections, references + more)
  {
    forall s | s in selections ensures exists r | r in references + more :: r.siteName == s.siteName {
      var r :| r in references && r.siteName == s.siteName;
      assert r in references + more;
    }
  }

  lemma ClosingKeepsSound(state: State)
    requires IsSound(state) && CloseScope(state).Ok?
    ensures IsSound(CloseScope(state).value)
  {
    hide IsValidName, IsHttpsUrl, DistinctSelections, AreReferenced;
  }

  lemma SelectingKeepsSound(state: State, line: Line)
    requires IsSound(state) && ReadSelection(state, line.arguments, line.number).Ok?
    ensures IsSound(ReadSelection(state, line.arguments, line.number).value)
  {
    hide IsValidName, IsHttpsUrl;
    var next := ReadSelection(state, line.arguments, line.number).value;
    var selection := Selection(line.arguments).value;
    var reference := SiteReference(selection.siteName, line.number);
    ReferencesOnlyGrow(state.scope.profile.selections, state.references, [reference]);
    assert reference in next.references;
    forall name | name in state.profiles ensures AreReferenced(state.profiles[name].selections, next.references) {
      ReferencesOnlyGrow(state.profiles[name].selections, state.references, [reference]);
    }
    var selections := state.scope.profile.selections;
    var longer := next.scope.profile.selections;
    forall i, j | 0 <= i < j < |longer| ensures longer[i].siteName != longer[j].siteName {
      assert selections[i] in selections;
    }
  }

  lemma ReadingKeepsSound(state: State, line: Line)
    requires IsSound(state) && ReadDirective(state, line).Ok?
    ensures IsSound(ReadDirective(state, line).value)
  {
    hide IsValidName, IsHttpsUrl, AreReferenced, DistinctSelections, CloseScope, ReadSelection;
    if line.directive == "UseSite" {
      SelectingKeepsSound(state, line);
    } else if IsOpener(line) {
      ClosingKeepsSound(state);
      OpeningIsSound(state, line);
    }
  }

  lemma OpeningIsSound(state: State, line: Line)
    requires IsOpener(line) && ReadDirective(state, line).Ok?
    requires CloseScope(state).Ok? && IsSound(CloseScope(state).value)
    ensures IsSound(ReadDirective(state, line).value)
  {
    hide IsValidName, IsHttpsUrl, CloseScope;
  }

  lemma {:induction false} ReadingAllKeepsSound(state: State, lines: seq<Line>)
    requires IsSound(state) && ReadAll(state, lines).Ok?
    ensures IsSound(ReadAll(state, lines).value)
    decreases |lines|
  {
    hide IsSound, ReadDirective;
    if lines != [] {
      ReadingKeepsSound(state, lines[0]);
      ReadingAllKeepsSound(ReadDirective(state, lines[0]).value, lines[1..]);
    }
  }

  /** Every parsed configuration is one acquisition can use: its names are
      valid, its URLs are HTTPS, and each profile is usable. */
  lemma ParsedIsUsable(lines: seq<Line>)
    requires ParseLines(lines).Ok?
    ensures SitesAreSound(ParseLines(lines).value.sites)
    ensures forall name | name in ParseLines(lines).value.profiles ::
              IsValidName(name) && IsUsable(ParseLines(lines).value.profiles[name], ParseLines(lines).value.sites)
  {
    hide ReadAll, IsValidName, IsHttpsUrl, DistinctSelections, CloseScope, FirstDangling;
    ReadingAllKeepsSound(INITIAL, lines);
    var state := ReadAll(INITIAL, lines).value;
    ClosingKeepsSound(state);
  }
}
