/** Stamp claims in history (stamping specification, sections 2 and 3): the
    walk to the nearest claims, and the artifacts one claim carries. */
module Claims {
  import opened Bytes
  import opened Sorting
  import opened Utf8
  import opened Repository

  datatype ClaimError =
    | ObjectAccess(commit: ObjectId)
    | ForeignStampArtifact(commit: ObjectId, path: Bytes)

  datatype History = History(commits: map<ObjectId, Commit>, trees: map<ObjectId, seq<Record>>)

  predicate IsReadable(history: History, commit: ObjectId) {
    commit in history.commits && history.commits[commit].tree in history.trees
  }

  function TreeOf(history: History, commit: ObjectId): seq<Record>
    requires IsReadable(history, commit)
  {
    history.trees[history.commits[commit].tree]
  }

  /** Carrying anything at the manifest path is the claim. */
  predicate IsClaiming(history: History, commit: ObjectId) {
    IsReadable(history, commit) && HoldsEntry(TreeOf(history, commit), MANIFEST_PATH)
  }

  function ParentsOf(history: History, commit: ObjectId): seq<ObjectId> {
    if commit in history.commits then history.commits[commit].parents else []
  }

  /** Where the walk goes on from a commit: to its parents, unless it claims. */
  function Onward(history: History, commit: ObjectId): seq<ObjectId> {
    if IsReadable(history, commit) && !IsClaiming(history, commit) then ParentsOf(history, commit) else []
  }

  // ----- lines of history -----

  /** A line back from a start, through readable commits that claim nothing. */
  ghost predicate IsOpenLine(history: History, starts: seq<ObjectId>, line: seq<ObjectId>) {
    && line != [] && line[0] in starts
    && forall i | 0 < i < |line| :: line[i] in Onward(history, line[i - 1])
  }

  ghost predicate IsReached(history: History, starts: seq<ObjectId>, commit: ObjectId) {
    exists line :: IsOpenLine(history, starts, line) && line[|line| - 1] == commit
  }

  lemma ReachedStart(history: History, starts: seq<ObjectId>, commit: ObjectId)
    requires commit in starts
    ensures IsReached(history, starts, commit)
  {
    assert IsOpenLine(history, starts, [commit]);
    assert [commit][|[commit]| - 1] == commit;
  }

  lemma ReachedOnward(history: History, starts: seq<ObjectId>, commit: ObjectId, next: ObjectId)
    requires IsReached(history, starts, commit) && next in Onward(history, commit)
    ensures IsReached(history, starts, next)
  {
    hide Onward;
    var line :| IsOpenLine(history, starts, line) && line[|line| - 1] == commit;
    var longer := line + [next];
    forall i | 0 < i < |longer| ensures longer[i] in Onward(history, longer[i - 1]) {
      assert longer[i - 1] == line[i - 1];
      if i < |line| { assert longer[i] == line[i]; }
    }
    assert IsOpenLine(history, starts, longer);
    assert longer[|longer| - 1] == next;
  }

  // ----- the walk -----

  /** Every commit met so far, visited or waiting, is reached. */
  ghost predicate AllReached(history: History, starts: seq<ObjectId>, met: set<ObjectId>) {
    forall c | c in met :: IsReached(history, starts, c)
  }

  /** Nothing is forgotten: what lies onward from a visited commit is met. */
  ghost predicate IsExplored(history: History, visited: set<ObjectId>, met: set<ObjectId>) {
    forall c | c in visited :: IsReadable(history, c) && forall p | p in Onward(history, c) :: p in met
  }

  /** Everything reached lies in a set that holds the starts and is closed
      under going onward. */
  lemma {:induction false} ReachedWithin(history: History, starts: seq<ObjectId>, visited: set<ObjectId>,
          line: seq<ObjectId>)
    requires Members(starts) <= visited && IsExplored(history, visited, visited)
    requires IsOpenLine(history, starts, line)
    ensures line[|line| - 1] in visited
    decreases |line|
  {
    hide Onward, IsReadable;
    if |line| == 1 {
      assert line[0] in Members(starts);
    } else {
      var front := line[..|line| - 1];
      forall i | 0 < i < |front| ensures front[i] in Onward(history, front[i - 1]) {
        assert line[i] in Onward(history, line[i - 1]);
      }
      ReachedWithin(history, starts, visited, front);
      assert line[|line| - 1] in Onward(history, line[|line| - 2]);
    }
  }

  lemma AllReachedVisited(history: History, starts: seq<ObjectId>, visited: set<ObjectId>)
    requires Members(starts) <= visited && IsExplored(history, visited, visited)
    ensures forall c | IsReached(history, starts, c) :: c in visited
    ensures forall c | c in visited :: IsReadable(history, c)
  {
    forall c | IsReached(history, starts, c) ensures c in visited {
      var line :| IsOpenLine(history, starts, line) && line[|line| - 1] == c;
      ReachedWithin(history, starts, visited, line);
    }
  }

  lemma VisitShrinks(all: set<ObjectId>, visited: set<ObjectId>, commit: ObjectId)
    requires commit in all && commit !in visited
    ensures |all - (visited + {commit})| < |all - visited|
  {
    assert all - visited == (all - (visited + {commit})) + {commit};
  }

  /** Visiting one commit keeps the walk's two promises. */
  lemma VisitKeeps(history: History, starts: seq<ObjectId>, visited: set<ObjectId>, rest: seq<ObjectId>,
          commit: ObjectId)
    requires IsReadable(history, commit)
    requires AllReached(history, starts, visited + Members(rest + [commit]))
    requires IsExplored(history, visited, visited + Members(rest + [commit]))
    ensures var grown, waiting := visited + {commit}, rest + Onward(history, commit);
            && AllReached(history, starts, grown + Members(waiting))
            && IsExplored(history, grown, grown + Members(waiting))
            && visited + Members(rest + [commit]) <= grown + Members(waiting)
  {
    hide Onward, IsReached, IsReadable;
    assert commit in Members(rest + [commit]);
    forall p | p in Onward(history, commit) ensures IsReached(history, starts, p) {
      ReachedOnward(history, starts, commit, p);
    }
  }

  /** Walks every line of history behind the starts to its nearest claim. The
      claims returned are exactly the claiming commits reached, each once; the
      walk fails exactly when it reaches a commit it cannot read. */
  method NearestClaimingCommits(history: History, starts: seq<ObjectId>)
    returns (claims: Result<seq<ObjectId>, ClaimError>)
    ensures claims.Ok? ==> Distinct(claims.value)
    ensures claims.Ok? ==> forall c | IsReached(history, starts, c) :: IsReadable(history, c)
    ensures claims.Ok? ==> forall c :: c in claims.value <==> IsReached(history, starts, c) && IsClaiming(history, c)
    ensures claims.Err? ==> claims.error.ObjectAccess?
    ensures claims.Err? ==> IsReached(history, starts, claims.error.commit) && !IsReadable(history, claims.error.commit)
  {
    hide IsClaiming, IsReached, Onward, AllReached, IsExplored;
    var visited: set<ObjectId> := {};
    var frontier := starts;
    var claiming: seq<ObjectId> := [];
    StartsKeep(history, starts);
    while frontier != []
      invariant AllReached(history, starts, visited + Members(frontier))
      invariant IsExplored(history, visited, visited + Members(frontier))
      invariant Members(starts) <= visited + Members(frontier)
      invariant Distinct(claiming)
      invariant forall c :: c in claiming <==> c in visited && IsClaiming(history, c)
      decreases |history.commits.Keys - visited|, |frontier|
    {
      var commit := frontier[|frontier| - 1];
      var rest := frontier[..|frontier| - 1];
      assert frontier == rest + [commit];
      if commit in visited {
        assert visited + Members(frontier) == visited + Members(rest);
        frontier := rest;
        continue;
      }
      if !IsReadable(history, commit) {
        MetIsReached(history, starts, visited + Members(frontier), commit);
        return Err(ObjectAccess(commit));
      }
      VisitShrinks(history.commits.Keys, visited, commit);
      VisitKeeps(history, starts, visited, rest, commit);
      visited := visited + {commit};
      if IsClaiming(history, commit) { claiming := claiming + [commit]; }
      assert Onward(history, commit) == if IsClaiming(history, commit) then [] else ParentsOf(history, commit) by {
        OnwardIs(history, commit);
      }
      frontier := if IsClaiming(history, commit) then rest else rest + ParentsOf(history, commit);
      assert frontier == rest + Onward(history, commit);
    }
    assert visited + Members(frontier) == visited;
    AllReachedVisited(history, starts, visited);
    forall c | c in visited ensures IsReached(history, starts, c) { MetIsReached(history, starts, visited, c); }
    return Ok(claiming);
  }

  lemma OnwardIs(history: History, commit: ObjectId)
    requires IsReadable(history, commit)
    ensures Onward(history, commit) == if IsClaiming(history, commit) then [] else ParentsOf(history, commit)
  {
  }

  lemma MetIsReached(history: History, starts: seq<ObjectId>, met: set<ObjectId>, commit: ObjectId)
    requires AllReached(history, starts, met) && commit in met
    ensures IsReached(history, starts, commit)
  {
  }

  lemma StartsKeep(history: History, starts: seq<ObjectId>)
    ensures AllReached(history, starts, {} + Members(starts))
    ensures IsExplored(history, {}, {} + Members(starts))
  {
    forall c | c in starts ensures IsReached(history, starts, c) { ReachedStart(history, starts, c); }
  }

  /** A line of history back from a start, claims or not. */
  ghost predicate IsLine(history: History, starts: seq<ObjectId>, line: seq<ObjectId>) {
    && line != [] && line[0] in starts
    && (forall i | 0 <= i < |line| :: IsReadable(history, line[i]))
    && forall i | 0 < i < |line| :: line[i] in ParentsOf(history, line[i - 1])
  }

  /** No line of evidence is left dangling: every line back from a start that
      claims anywhere meets a nearest claim, and meets it first. */
  lemma EveryLineMeetsItsNearestClaim(history: History, starts: seq<ObjectId>, line: seq<ObjectId>, claimAt: nat)
    returns (first: nat)
    requires IsLine(history, starts, line)
    requires claimAt < |line| && IsClaiming(history, line[claimAt])
    ensures first <= claimAt && IsClaiming(history, line[first]) && IsReached(history, starts, line[first])
    ensures forall i | 0 <= i < first :: !IsClaiming(history, line[i])
  {
    hide IsClaiming, Onward;
    first := 0;
    while !IsClaiming(history, line[first])
      invariant first <= claimAt
      invariant forall i | 0 <= i < first :: !IsClaiming(history, line[i])
      decreases claimAt - first
    {
      first := first + 1;
    }
    var prefix := line[..first + 1];
    forall i | 0 < i < |prefix| ensures prefix[i] in Onward(history, prefix[i - 1]) {
      OnwardIs(history, line[i - 1]);
    }
    assert IsOpenLine(history, starts, prefix);
    assert prefix[|prefix| - 1] == line[first];
  }

  // ----- the artifacts of one claim -----

  datatype TokenFile = TokenFile(site: Bytes, bytes: Bytes)

  datatype Artifacts = Artifacts(manifestBytes: Bytes, tokens: seq<TokenFile>)

  function TokenPath(site: Bytes): Bytes {
    TOKENS_PATH + "/" + site + TOKEN_FILE_SUFFIX
  }

  /** The site a token file is named after: a flat, non-empty `<site>.tsr`. */
  function SiteOf(path: Bytes): (site: Option<Bytes>)
    requires IsBelow(TOKENS_PATH, path)
    ensures site.Some? ==> path == TokenPath(site.value) && site.value != [] && '/' !in site.value
  {
    var name := path[|TOKENS_PATH| + 1..];
    var stem := |name| - |TOKEN_FILE_SUFFIX|;
    assert path == TOKENS_PATH + "/" + name;
    if '/' in name || !Valid(name) || stem <= 0 || name[stem..] != TOKEN_FILE_SUFFIX then None
    else
      assert name == name[..stem] + TOKEN_FILE_SUFFIX;
      Some(name[..stem])
  }

  /** The entry of the token directory a record stands at or below. */
  function EntryPath(path: Bytes): Bytes
    requires IsBelow(TOKENS_PATH, path)
  {
    TOKENS_PATH + "/" + Split(path[|TOKENS_PATH| + 1..], '/')[0]
  }

  /** A file directly in the token directory is its own entry; a file further
      down is reported by the directory it came in. */
  lemma EntryPathExact(path: Bytes)
    requires IsBelow(TOKENS_PATH, path)
    ensures '/' !in EntryPath(path)[|TOKENS_PATH| + 1..]
    ensures EntryPath(path) == path || IsBelow(EntryPath(path), path)
  {
    var name := path[|TOKENS_PATH| + 1..];
    var pieces := Split(name, '/');
    JoinOfSplit(name, '/');
    assert path == TOKENS_PATH + "/" + name;
    assert EntryPath(path)[|TOKENS_PATH| + 1..] == pieces[0];
    if |pieces| > 1 {
      var rest := Join(pieces[1..], '/');
      assert name == pieces[0] + ['/'] + rest;
      assert path == EntryPath(path) + ['/'] + rest;
    }
  }

  /** Every record below the token directory, read or refused. */
  function ReadTokenFiles(records: seq<Record>, commit: ObjectId): Result<seq<TokenFile>, ClaimError> {
    if records == [] then Ok([])
    else
      var r, rest := records[0], ReadTokenFiles(records[1..], commit);
      if IsTreeMode(r.mode) || !IsBelow(TOKENS_PATH, r.path) then rest
      else if r.mode != REGULAR_MODE || SiteOf(r.path).None? then Err(ForeignStampArtifact(commit, EntryPath(r.path)))
      else if r.blob.None? then Err(ObjectAccess(commit))
      else
        match rest
        case Ok(files) => Ok([TokenFile(SiteOf(r.path).value, r.blob.value)] + files)
        case Err(cause) => Err(cause)
  }

  function ReadArtifacts(history: History, commit: ObjectId): Result<Artifacts, ClaimError> {
    if !IsReadable(history, commit) then Err(ObjectAccess(commit))
    else
      var records := TreeOf(history, commit);
      match FindFile(records, MANIFEST_PATH)
      case None => Err(ForeignStampArtifact(commit, MANIFEST_PATH))
      case Some(entry) =>
        if entry.mode != REGULAR_MODE then Err(ForeignStampArtifact(commit, MANIFEST_PATH))
        else if entry.blob.None? then Err(ObjectAccess(commit))
        else if HoldsFile(records, TOKENS_PATH) then Err(ForeignStampArtifact(commit, TOKENS_PATH))
        else
          match ReadTokenFiles(records, commit)
          case Ok(tokens) => Ok(Artifacts(entry.blob.value, tokens))
          case Err(cause) => Err(cause)
  }

  method ReadTokenFilesLoop(records: seq<Record>, commit: ObjectId) returns (files: Result<seq<TokenFile>, ClaimError>)
    ensures files == ReadTokenFiles(records, commit)
  {
    hide SiteOf, IsBelow, IsTreeMode;
    var read: seq<TokenFile> := [];
    assert forall s: seq<TokenFile> :: [] + s == s;
    for i := 0 to |records|
      invariant ReadTokenFiles(records, commit) == match ReadTokenFiles(records[i..], commit)
                                                   case Ok(rest) => Ok(read + rest)
                                                   case Err(cause) => Err(cause)
    {
      var r := records[i];
      assert records[i..][1..] == records[i + 1..];
      if IsTreeMode(r.mode) || !IsBelow(TOKENS_PATH, r.path) { continue; }
      if r.mode != REGULAR_MODE { return Err(ForeignStampArtifact(commit, EntryPath(r.path))); }
      var site := SiteOf(r.path);
      if site.None? { return Err(ForeignStampArtifact(commit, EntryPath(r.path))); }
      if r.blob.None? { return Err(ObjectAccess(commit)); }
      var file := TokenFile(site.value, r.blob.value);
      assert forall rest: seq<TokenFile> :: read + ([file] + rest) == (read + [file]) + rest;
      read := read + [file];
    }
    assert read + [] == read;
    return Ok(read);
  }

  ghost predicate DistinctSites(files: seq<TokenFile>) {
    forall i, j | 0 <= i < j < |files| :: files[i].site != files[j].site
  }

  lemma TokenPathInjective(a: Bytes, b: Bytes)
    requires TokenPath(a) == TokenPath(b)
    ensures a == b
  {
    var head := |TOKENS_PATH| + 1;
    assert |TokenPath(a)| == head + |a| + |TOKEN_FILE_SUFFIX| && |TokenPath(b)| == head + |b| + |TOKEN_FILE_SUFFIX|;
    assert TokenPath(a)[head..head + |a|] == a && TokenPath(b)[head..head + |b|] == b;
  }

  /** Each file read comes from its own record. */
  lemma {:induction false} TokenFilesFrom(records: seq<Record>, commit: ObjectId)
    requires ReadTokenFiles(records, commit).Ok?
    ensures var files := ReadTokenFiles(records, commit).value;
            forall f | f in files :: exists r | r in records ::
              !IsTreeMode(r.mode) && r.mode == REGULAR_MODE && r.path == TokenPath(f.site) && r.blob == Some(f.bytes)
                && f.site != [] && '/' !in f.site
  {
    hide SiteOf, IsBelow, IsTreeMode, TokenPath;
    if records != [] {
      TokenFilesFrom(records[1..], commit);
      assert records == [records[0]] + records[1..];
    }
  }

  /** File names are unique within a directory, so every site is offered
      once. */
  lemma {:induction false} SitesAreDistinct(records: seq<Record>, commit: ObjectId)
    requires ReadTokenFiles(records, commit).Ok? && IsTree(records)
    ensures DistinctSites(ReadTokenFiles(records, commit).value)
  {
    if records != [] {
      var rest := records[1..];
      assert records == [records[0]] + rest;
      assert IsTree(rest) by {
        assert forall i | 0 <= i < |rest| :: rest[i] == records[i + 1];
      }
      SitesAreDistinct(rest, commit);
      var files, later := ReadTokenFiles(records, commit).value, ReadTokenFiles(rest, commit).value;
      if files != later {
        FirstSiteIsNew(records, commit);
      }
    }
  }

  lemma FirstSiteIsNew(records: seq<Record>, commit: ObjectId)
    requires records != [] && ReadTokenFiles(records, commit).Ok? && IsTree(records)
    requires ReadTokenFiles(records, commit) != ReadTokenFiles(records[1..], commit)
    ensures var files, later := ReadTokenFiles(records, commit).value, ReadTokenFiles(records[1..], commit).value;
            files == [files[0]] + later && forall f | f in later :: f.site != files[0].site
  {
    var rest := records[1..];
    var first := ReadTokenFiles(records, commit).value[0];
    var later := ReadTokenFiles(rest, commit).value;
    assert records[0].path == TokenPath(first.site);
    hide ReadTokenFiles, SiteOf, IsBelow, IsTreeMode, TokenPath;
    TokenFilesFrom(rest, commit);
    forall f | f in later ensures f.site != first.site {
      var r :| r in rest && !IsTreeMode(r.mode) && r.path == TokenPath(f.site);
      var i :| 0 <= i < |rest| && rest[i] == r;
      assert records[i + 1] == r;
    }
  }

  /** A record below the token directory that stands for one token file. */
  predicate IsTokenRecord(r: Record) {
    IsBelow(TOKENS_PATH, r.path) && r.mode == REGULAR_MODE && SiteOf(r.path).Some? && r.blob.Some?
  }

  /** The tree claims in good order: the manifest is a readable regular file,
      no file takes the token directory's place, and every record below it is
      a readable token file. */
  ghost predicate ClaimsInOrder(records: seq<Record>) {
    && FindFile(records, MANIFEST_PATH).Some?
    && FindFile(records, MANIFEST_PATH).value.mode == REGULAR_MODE && FindFile(records, MANIFEST_PATH).value.blob.Some?
    && !HoldsFile(records, TOKENS_PATH)
    && forall r | r in records && !IsTreeMode(r.mode) && IsBelow(TOKENS_PATH, r.path) :: IsTokenRecord(r)
  }

  lemma {:induction false} TokenFilesExact(records: seq<Record>, commit: ObjectId)
    ensures ReadTokenFiles(records, commit).Ok? <==>
            forall r | r in records && !IsTreeMode(r.mode) && IsBelow(TOKENS_PATH, r.path) :: IsTokenRecord(r)
    ensures ReadTokenFiles(records, commit).Ok? ==>
              forall f :: f in ReadTokenFiles(records, commit).value <==>
                exists r | r in records ::
                  !IsTreeMode(r.mode) && IsTokenRecord(r) && f == TokenFile(SiteOf(r.path).value, r.blob.value)
  {
    hide SiteOf, IsBelow, IsTreeMode;
    if records != [] {
      TokenFilesExact(records[1..], commit);
      assert records == [records[0]] + records[1..];
      assert records[0] in records && forall r | r in records[1..] :: r in records;
    }
  }

  /** A claim's artifacts are read exactly when its tree claims in good order;
      they are then the manifest's bytes and one file for each token record,
      none left out. */
  lemma ArtifactsExact(history: History, commit: ObjectId)
    requires IsReadable(history, commit)
    ensures ReadArtifacts(history, commit).Ok? <==> ClaimsInOrder(TreeOf(history, commit))
    ensures ReadArtifacts(history, commit).Ok? ==>
              var records, artifacts := TreeOf(history, commit), ReadArtifacts(history, commit).value;
              && Some(artifacts.manifestBytes) == FindFile(records, MANIFEST_PATH).value.blob
              && forall f :: f in artifacts.tokens <==>
                   exists r | r in records ::
                     !IsTreeMode(r.mode) && IsTokenRecord(r) && f == TokenFile(SiteOf(r.path).value, r.blob.value)
  {
    hide SiteOf, IsBelow, ReadTokenFiles, IsTokenRecord;
    TokenFilesExact(TreeOf(history, commit), commit);
  }
}
