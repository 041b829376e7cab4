/** Claims told by names and lines of history: what makes a commit claim, which
    claims are nearest, and what a claim's artifacts are. */
module ClaimMeaning {
  import opened Bytes
  import opened Utf8
  import opened Repository
  import opened Claims

  // ----- claiming and reaching -----

  /** The commit's tree is at hand and has something at the manifest's path. */
  ghost predicate HoldsClaim(history: History, commit: ObjectId) {
    && commit in history.commits && history.commits[commit].tree in history.trees
    && exists r | r in history.trees[history.commits[commit].tree] ::
         r.mode / 0x1000 % 0x10 != 4 && (r.path == ".tydence/manifest" || ".tydence/manifest/" <= r.path)
  }

  lemma ClaimsExact(history: History, commit: ObjectId)
    ensures IsClaiming(history, commit) <==> HoldsClaim(history, commit)
  {
    if IsReadable(history, commit) {
      assert MANIFEST_PATH + "/" == ".tydence/manifest/";
      forall r | r in TreeOf(history, commit)
        ensures IsBelow(MANIFEST_PATH, r.path) <==> ".tydence/manifest/" <= r.path
      {
        BelowIsPrefix(MANIFEST_PATH, r.path);
      }
    }
  }

  ghost predicate IsStored(history: History, commit: ObjectId) {
    commit in history.commits && history.commits[commit].tree in history.trees
  }

  /** A step back: from a stored commit that claims nothing to a parent. */
  ghost predicate IsStep(history: History, commit: ObjectId, parent: ObjectId) {
    IsStored(history, commit) && !HoldsClaim(history, commit) && parent in history.commits[commit].parents
  }

  /** From a start back to the commit by such steps. */
  ghost predicate IsLineTo(history: History, starts: seq<ObjectId>, line: seq<ObjectId>, commit: ObjectId) {
    && line != [] && line[0] in starts && line[|line| - 1] == commit
    && forall i | 0 < i < |line| :: IsStep(history, line[i - 1], line[i])
  }

  lemma StepExact(history: History, commit: ObjectId, parent: ObjectId)
    ensures parent in Onward(history, commit) <==> IsStep(history, commit, parent)
  {
    hide IsClaiming, HoldsClaim;
    ClaimsExact(history, commit);
  }

  lemma LineExact(history: History, starts: seq<ObjectId>, line: seq<ObjectId>, commit: ObjectId)
    requires line != [] && line[|line| - 1] == commit
    ensures IsOpenLine(history, starts, line) <==> IsLineTo(history, starts, line, commit)
  {
    hide Onward, IsStep;
    forall i | 0 < i < |line|
      ensures line[i] in Onward(history, line[i - 1]) <==> IsStep(history, line[i - 1], line[i])
    {
      StepExact(history, line[i - 1], line[i]);
    }
  }

  /** A commit is reached exactly by such a line. */
  lemma ReachedExact(history: History, starts: seq<ObjectId>, commit: ObjectId)
    ensures IsReached(history, starts, commit) <==> exists line :: IsLineTo(history, starts, line, commit)
  {
    if IsReached(history, starts, commit) {
      var line :| IsOpenLine(history, starts, line) && line[|line| - 1] == commit;
      LineExact(history, starts, line, commit);
    }
    if line :| IsLineTo(history, starts, line, commit) { LineExact(history, starts, line, commit); }
  }

  // ----- artifacts -----

  /** A path names a site's token when it is the site's name between the token
      directory and the suffix, a flat name in UTF-8. */
  lemma SiteExact(path: Bytes, site: Bytes)
    requires IsBelow(TOKENS_PATH, path)
    ensures SiteOf(path) == Some(site) <==>
            path == ".tydence/tokens/" + site + ".tsr" && site != [] && '/' !in site && Valid(site + ".tsr")
  {
    hide Utf8.Valid;
    var name := path[|TOKENS_PATH| + 1..];
    assert TOKENS_PATH + "/" == ".tydence/tokens/";
    assert path == ".tydence/tokens/" + name by {
      BelowIsPrefix(TOKENS_PATH, path);
      assert path[..16] == ".tydence/tokens/";
    }
    var suffix: Bytes := ".tsr";
    assert '/' !in suffix;
    if path == ".tydence/tokens/" + site + ".tsr" {
      assert path == ".tydence/tokens/" + (site + suffix);
      assert name == site + suffix;
      assert name[|name| - 4..] == suffix && name[..|name| - 4] == site;
    }
    if SiteOf(path) == Some(site) {
      assert name == name[..|name| - 4] + name[|name| - 4..];
      assert forall i | 0 <= i < |site| :: site[i] == name[i];
    }
  }

  /** The record is the site's token: a regular file with its bytes. */
  ghost predicate IsTokenOf(r: Record, f: TokenFile) {
    && r.mode == 0x81A4 && r.blob == Some(f.bytes)
    && r.path == ".tydence/tokens/" + f.site + ".tsr" && f.site != [] && '/' !in f.site && Valid(f.site + ".tsr")
  }

  predicate IsInTokens(r: Record) {
    r.mode / 0x1000 % 0x10 != 4 && ".tydence/tokens/" <= r.path
  }

  lemma TokenExact(r: Record, f: TokenFile)
    ensures IsTokenRecord(r) && f == TokenFile(SiteOf(r.path).value, r.blob.value) <==> IsTokenOf(r, f)
  {
    hide Utf8.Valid;
    assert TOKENS_PATH + "/" == ".tydence/tokens/";
    BelowIsPrefix(TOKENS_PATH, r.path);
    if IsBelow(TOKENS_PATH, r.path) {
      SiteExact(r.path, f.site);
    } else {
      hide SiteOf;
      assert ".tydence/tokens/" <= ".tydence/tokens/" + (f.site + ".tsr");
      assert ".tydence/tokens/" + (f.site + ".tsr") == ".tydence/tokens/" + f.site + ".tsr";
    }
  }

  /** The files stand for the records at the given places, in order, and every
      record in the token directory is one of them. */
  ghost predicate AreTokens(records: seq<Record>, files: seq<TokenFile>, places: seq<nat>) {
    && |places| == |files|
    && (forall k | 0 <= k < |places| :: places[k] < |records| && IsTokenOf(records[places[k]], files[k]))
    && (forall j, k | 0 <= j < k < |places| :: places[j] < places[k])
    && forall i | 0 <= i < |records| && IsInTokens(records[i]) :: i in places
  }

  lemma InTokensExact(r: Record)
    ensures !IsTreeMode(r.mode) && IsBelow(TOKENS_PATH, r.path) <==> IsInTokens(r)
  {
    assert TOKENS_PATH + "/" == ".tydence/tokens/";
    BelowIsPrefix(TOKENS_PATH, r.path);
  }

  lemma {:induction false} TokensInOrder(records: seq<Record>, commit: ObjectId) returns (places: seq<nat>)
    requires ReadTokenFiles(records, commit).Ok?
    ensures AreTokens(records, ReadTokenFiles(records, commit).value, places)
    decreases |records|
  {
    hide SiteOf, IsBelow, IsTreeMode, IsInTokens, IsTokenOf;
    if records == [] {
      places := [];
    } else {
      var rest := records[1..];
      var later := TokensInOrder(rest, commit);
      var files := ReadTokenFiles(rest, commit).value;
      var shifted: seq<nat> := seq(|later|, k requires 0 <= k < |later| => later[k] + 1);
      InTokensExact(records[0]);
      TokensShift(records, files, later, shifted);
      if IsInTokens(records[0]) {
        places := [0] + shifted;
        TokenExact(records[0], ReadTokenFiles(records, commit).value[0]);
        TokenFirst(records, ReadTokenFiles(records, commit).value[0], files, shifted);
      } else {
        places := shifted;
      }
    }
  }

  lemma TokensShift(records: seq<Record>, files: seq<TokenFile>, later: seq<nat>, shifted: seq<nat>)
    requires records != [] && AreTokens(records[1..], files, later)
    requires |shifted| == |later| && forall k | 0 <= k < |later| :: shifted[k] == later[k] + 1
    ensures forall k | 0 <= k < |shifted| ::
              0 < shifted[k] < |records| && IsTokenOf(records[shifted[k]], files[k])
    ensures forall j, k | 0 <= j < k < |shifted| :: shifted[j] < shifted[k]
    ensures forall i | 0 < i < |records| && IsInTokens(records[i]) :: i in shifted
  {
    hide IsTokenOf, IsInTokens;
    forall i | 0 < i < |records| && IsInTokens(records[i]) ensures i in shifted {
      assert records[1..][i - 1] == records[i];
      var k :| 0 <= k < |later| && later[k] == i - 1;
      assert shifted[k] == i;
    }
  }

  lemma TokenFirst(records: seq<Record>, first: TokenFile, files: seq<TokenFile>, shifted: seq<nat>)
    requires records != [] && IsTokenOf(records[0], first) && |shifted| == |files|
    requires forall k | 0 <= k < |shifted| :: 0 < shifted[k] < |records| && IsTokenOf(records[shifted[k]], files[k])
    requires forall j, k | 0 <= j < k < |shifted| :: shifted[j] < shifted[k]
    requires forall i | 0 < i < |records| && IsInTokens(records[i]) :: i in shifted
    ensures AreTokens(records, [first] + files, [0] + shifted)
  {
    hide IsTokenOf, IsInTokens;
    var places, all := [0] + shifted, [first] + files;
    forall k | 0 <= k < |places| ensures places[k] < |records| && IsTokenOf(records[places[k]], all[k]) {
      if k > 0 { assert places[k] == shifted[k - 1] && all[k] == files[k - 1]; }
    }
    forall j, k | 0 <= j < k < |places| ensures places[j] < places[k] {
      assert places[k] == shifted[k - 1];
      if j > 0 { assert places[j] == shifted[j - 1]; }
    }
    forall i: nat | i < |records| && IsInTokens(records[i]) ensures i in places {
      assert i in places <==> i == 0 || i in shifted;
    }
  }

  /** A commit's artifacts can be read exactly when its tree has the manifest as
      a readable regular file, no file in the token directory's place, and in
      the token directory tokens only; they are the manifest's bytes and the
      tokens in their order. */
  lemma ArtifactsMean(history: History, commit: ObjectId, artifacts: Artifacts)
    requires IsStored(history, commit) && IsTree(history.trees[history.commits[commit].tree])
    ensures var records := history.trees[history.commits[commit].tree];
            ReadArtifacts(history, commit).Ok? <==>
            && (exists r | r in records ::
                  r.path == ".tydence/manifest" && r.mode == 0x81A4 && r.blob.Some?)
            && (forall r | r in records && r.path == ".tydence/tokens" :: r.mode / 0x1000 % 0x10 == 4)
            && (forall r | r in records && IsInTokens(r) :: exists f :: IsTokenOf(r, f))
    ensures var records := history.trees[history.commits[commit].tree];
            ReadArtifacts(history, commit) == Ok(artifacts) ==>
            && (forall r | r in records && r.path == ".tydence/manifest" && r.mode / 0x1000 % 0x10 != 4 ::
                  r.mode == 0x81A4 && r.blob == Some(artifacts.manifestBytes))
            && exists places :: AreTokens(records, artifacts.tokens, places)
  {
    hide IsTree, IsTokenRecord, ReadTokenFiles, SiteOf, IsTokenOf, IsInTokens, AreTokens, FindFile;
    ArtifactsExact(history, commit);
    var records := TreeOf(history, commit);
    assert MANIFEST_PATH == ".tydence/manifest" && TOKENS_PATH == ".tydence/tokens";
    forall r: Record ensures !IsTreeMode(r.mode) && IsBelow(TOKENS_PATH, r.path) <==> IsInTokens(r) {
      InTokensExact(r);
    }
    forall r ensures IsTokenRecord(r) <==> exists f :: IsTokenOf(r, f) { SomeTokenExact(r); }
    forall r | r in records && !IsTreeMode(r.mode) ensures FindFile(records, r.path) == Some(r) {
      FoundIsOnly(records, r);
    }
    if ReadArtifacts(history, commit) == Ok(artifacts) {
      var places := TokensInOrder(records, commit);
    }
  }

  lemma SomeTokenExact(r: Record)
    ensures IsTokenRecord(r) <==> exists f :: IsTokenOf(r, f)
  {
    if IsTokenRecord(r) { TokenExact(r, TokenFile(SiteOf(r.path).value, r.blob.value)); }
    hide SiteOf, IsTokenRecord, IsTokenOf;
    if f :| IsTokenOf(r, f) { TokenExact(r, f); }
  }

  /** No token: not a regular file, or not named as one. */
  ghost predicate IsOutOfPlace(r: Record) {
    r.mode != 0x81A4 || forall site: Bytes | r.path == ".tydence/tokens/" + site + ".tsr" ::
      site == [] || '/' in site || !Valid(site + ".tsr")
  }

  /** The entry of the token directory the path stands at or below. */
  predicate IsEntryAbove(entry: Bytes, path: Bytes) {
    ".tydence/tokens/" <= entry && '/' !in entry[16..] && (entry == path || entry + "/" <= path)
  }

  /** Why artifacts cannot be read: a commit or a file not at hand, or an entry
      out of place. */
  ghost predicate IsArtifactFault(history: History, commit: ObjectId, error: ClaimError) {
    error.commit == commit
    && if !IsStored(history, commit) then error.ObjectAccess?
       else
         var records := history.trees[history.commits[commit].tree];
         match error
         case ObjectAccess(_) =>
           exists r | r in records ::
             r.mode == 0x81A4 && r.blob.None? && (r.path == ".tydence/manifest" || IsInTokens(r))
         case ForeignStampArtifact(_, path) =>
           || (path == ".tydence/manifest" && forall r | r in records && r.path == path :: r.mode != 0x81A4)
           || (path == ".tydence/tokens" && exists r | r in records :: r.path == path && r.mode / 0x1000 % 0x10 != 4)
           || exists r | r in records :: IsInTokens(r) && IsOutOfPlace(r) && IsEntryAbove(path, r.path)
  }

  lemma EntryIsAbove(path: Bytes)
    requires IsBelow(TOKENS_PATH, path)
    ensures IsEntryAbove(EntryPath(path), path)
  {
    EntryPathExact(path);
    var entry := EntryPath(path);
    assert TOKENS_PATH + "/" == ".tydence/tokens/" && |TOKENS_PATH| == 15;
    assert entry[..16] == ".tydence/tokens/";
    if entry != path { BelowIsPrefix(entry, path); }
  }

  lemma OutOfPlaceExact(r: Record)
    requires IsBelow(TOKENS_PATH, r.path)
    ensures r.mode != REGULAR_MODE || SiteOf(r.path).None? ==> IsOutOfPlace(r)
  {
    hide SiteOf, Utf8.Valid;
    forall site: Bytes
      ensures SiteOf(r.path) == Some(site) <==>
              r.path == ".tydence/tokens/" + site + ".tsr" && site != [] && '/' !in site && Valid(site + ".tsr")
    {
      SiteExact(r.path, site);
    }
  }

  lemma {:induction false} TokensFault(records: seq<Record>, commit: ObjectId) returns (r: Record)
    requires ReadTokenFiles(records, commit).Err?
    ensures r in records && IsInTokens(r)
    ensures var error := ReadTokenFiles(records, commit).error;
            error.commit == commit
            && if error.ObjectAccess? then r.mode == 0x81A4 && r.blob.None?
               else IsOutOfPlace(r) && IsEntryAbove(error.path, r.path)
  {
    hide SiteOf, IsTreeMode, IsInTokens, IsOutOfPlace, IsEntryAbove, EntryPath, IsBelow;
    r := records[0];
    InTokensExact(r);
    if !IsTreeMode(r.mode) && IsBelow(TOKENS_PATH, r.path)
       && (r.mode != REGULAR_MODE || SiteOf(r.path).None? || r.blob.None?)
    {
      EntryIsAbove(r.path);
      OutOfPlaceExact(r);
    } else {
      r := TokensFault(records[1..], commit);
    }
  }

  lemma ArtifactsFault(history: History, commit: ObjectId)
    requires ReadArtifacts(history, commit).Err?
    requires IsStored(history, commit) ==> IsTree(history.trees[history.commits[commit].tree])
    ensures IsArtifactFault(history, commit, ReadArtifacts(history, commit).error)
  {
    hide IsTree, ReadTokenFiles, IsInTokens, IsOutOfPlace, IsEntryAbove, FindFile, IsTreeMode;
    if IsStored(history, commit) {
      var records := TreeOf(history, commit);
      RegularIsFile();
      forall r | r in records && !IsTreeMode(r.mode) ensures FindFile(records, r.path) == Some(r) {
        FoundIsOnly(records, r);
      }
      if ReadTokenFiles(records, commit).Err? { var r := TokensFault(records, commit); }
    }
  }

  lemma RegularIsFile()
    ensures !IsTreeMode(0x81A4) && forall mode :: !IsTreeMode(mode) <==> mode / 0x1000 % 0x10 != 4
  {
  }
}
