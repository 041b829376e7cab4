/** Sealing (stamping specification, section 5): stale stamp artifacts leave
    the content tree, the manifest and the new tokens enter it. */
module Seal {
  import opened Bytes
  import opened Utf8
  import opened Repository
  import opened Claims
  import opened Acquire

  /** The files of one tree, by full path. */
  type Files = map<Bytes, Record>

  const CONFIG_PATH: Bytes := ".tydence/config"
  const ARTIFACT_DIRECTORY: Bytes := ".tydence"
  const NO_COMMIT: ObjectId := "00000000000000000000"

  /** What a tree can hold: named files, none of which is also a directory. */
  ghost predicate IsFiles(files: Files) {
    forall p | p in files ::
      p != [] && files[p].path == p && !IsTreeMode(files[p].mode) && forall q | q in files :: !IsBelow(p, q)
  }

  /** The records list these files, in whatever order. */
  ghost predicate Lists(records: seq<Record>, files: Files) {
    && IsTree(records)
    && (forall r | r in records && !IsTreeMode(r.mode) :: r.path in files && files[r.path] == r)
    && (forall p | p in files :: files[p] in records && files[p].path == p && !IsTreeMode(files[p].mode))
  }

  function FilesOf(records: seq<Record>): Files {
    if records == [] then map[]
    else
      var last := records[|records| - 1];
      var before := FilesOf(records[..|records| - 1]);
      if IsTreeMode(last.mode) then before else before[last.path := last]
  }

  lemma {:induction false} TreeIsListed(records: seq<Record>)
    requires IsTree(records)
    ensures Lists(records, FilesOf(records))
  {
    if records != [] {
      var before, last := records[..|records| - 1], records[|records| - 1];
      assert records == before + [last];
      assert IsTree(before) by { assert forall i | 0 <= i < |before| :: before[i] == records[i]; }
      TreeIsListed(before);
      if !IsTreeMode(last.mode) {
        forall r | r in before && !IsTreeMode(r.mode) ensures r.path != last.path {
          var i :| 0 <= i < |before| && before[i] == r;
          assert records[i].path != records[|before|].path;
        }
      }
    }
  }

  lemma ListedAreFiles(records: seq<Record>, files: Files)
    requires Lists(records, files)
    ensures IsFiles(files)
  {
    forall p, q | p in files && q in files ensures p != [] && !IsBelow(p, q) {
      var i :| 0 <= i < |records| && records[i] == files[p];
      var j :| 0 <= j < |records| && records[j] == files[q];
    }
  }

  // ----- tree edits -----

  /** Without the entry at `path`, be it a file or a directory. */
  function Removed(files: Files, path: Bytes): Files {
    map p | p in files && p != path && !IsBelow(path, p) :: files[p]
  }

  /** With a file at the record's path: a directory there gives way, and so
      does a file where the path needs a directory. */
  function Upserted(files: Files, record: Record): Files {
    (map p | p in files && !IsBelow(record.path, p) && !IsBelow(p, record.path) :: files[p])[record.path := record]
  }

  lemma RemovedKeepsFiles(files: Files, path: Bytes)
    requires IsFiles(files)
    ensures IsFiles(Removed(files, path))
  {
  }

  lemma UpsertedKeepsFiles(files: Files, record: Record)
    requires IsFiles(files) && record.path != [] && !IsTreeMode(record.mode)
    ensures IsFiles(Upserted(files, record))
  {
  }

  function BlobRecord(path: Bytes, content: Bytes): Record {
    Record(path, REGULAR_MODE, Some(content), NO_COMMIT)
  }

  function TokenRecord(token: AcquiredToken): Record {
    BlobRecord(TokenPath(token.siteName), token.content)
  }

  function WithTokens(files: Files, tokens: seq<AcquiredToken>): Files {
    if tokens == [] then files
    else Upserted(WithTokens(files, tokens[..|tokens| - 1]), TokenRecord(tokens[|tokens| - 1]))
  }

  function SealedTree(content: Files, manifestBytes: Bytes, tokens: seq<AcquiredToken>): Files {
    WithTokens(Upserted(Removed(content, TOKENS_PATH), BlobRecord(MANIFEST_PATH, manifestBytes)), tokens)
  }

  class TreeEditor {
    var files: Files

    constructor (records: seq<Record>)
      ensures files == FilesOf(records)
    {
      files := map[];
      new;
      for i := 0 to |records|
        invariant files == FilesOf(records[..i])
      {
        assert records[..i + 1][..i] == records[..i];
        if !IsTreeMode(records[i].mode) { files := files[records[i].path := records[i]]; }
      }
      assert records[..|records|] == records;
    }

    method Remove(path: Bytes)
      modifies this
      ensures files == Removed(old(files), path)
      ensures IsFiles(old(files)) ==> IsFiles(files)
    {
      files := map p | p in files && p != path && !IsBelow(path, p) :: files[p];
      if IsFiles(old(files)) { RemovedKeepsFiles(old(files), path); }
    }

    method Upsert(path: Bytes, content: Bytes)
      modifies this
      ensures files == Upserted(old(files), BlobRecord(path, content))
      ensures IsFiles(old(files)) && path != [] ==> IsFiles(files)
    {
      var record := BlobRecord(path, content);
      files := map p | p in files && !IsBelow(path, p) && !IsBelow(p, path) :: files[p];
      files := files[path := record];
      if IsFiles(old(files)) && path != [] { UpsertedKeepsFiles(old(files), record); }
    }
  }

  /** The stamp tree: stale tokens dropped, manifest replaced, tokens added. */
  method StampTree(content: seq<Record>, manifestBytes: Bytes, tokens: seq<AcquiredToken>) returns (files: Files)
    ensures files == SealedTree(FilesOf(content), manifestBytes, tokens)
  {
    hide Removed, Upserted, FilesOf;
    var editor := new TreeEditor(content);
    editor.Remove(TOKENS_PATH);
    editor.Upsert(MANIFEST_PATH, manifestBytes);
    ghost var cleared := editor.files;
    for i := 0 to |tokens|
      invariant editor.files == WithTokens(cleared, tokens[..i])
    {
      assert tokens[..i + 1][..i] == tokens[..i];
      editor.Upsert(TOKENS_PATH + "/" + tokens[i].siteName + TOKEN_FILE_SUFFIX, tokens[i].content);
    }
    assert tokens[..|tokens|] == tokens;
    return editor.files;
  }

  // ----- what a sealed tree holds -----

  predicate IsPlainSite(site: Bytes) {
    site != [] && '/' !in site
  }

  ghost predicate ArePlainSites(tokens: seq<AcquiredToken>) {
    && (forall t | t in tokens :: IsPlainSite(t.siteName))
    && (forall i, j | 0 <= i < j < |tokens| :: tokens[i].siteName != tokens[j].siteName)
  }

  /** A file of the content tree that sealing drops although no exclusion
      covers it: one standing where the token directory goes, or below the
      manifest's path. */
  predicate IsLost(path: Bytes) {
    path == TOKENS_PATH || IsBelow(MANIFEST_PATH, path)
  }

  predicate Survives(path: Bytes) {
    !IsStampArtifact(path) && !IsLost(path)
  }

  ghost predicate Seals(tokens: seq<AcquiredToken>, path: Bytes) {
    exists t | t in tokens :: path == TokenPath(t.siteName)
  }

  lemma ManifestParents(path: Bytes)
    requires IsBelow(path, MANIFEST_PATH)
    ensures path == ARTIFACT_DIRECTORY
  {
    assert forall i | 0 <= i < |MANIFEST_PATH| && MANIFEST_PATH[i] == '/' :: i == 8;
  }

  lemma TokenPathParents(path: Bytes, site: Bytes)
    requires '/' !in site && IsBelow(path, TokenPath(site))
    ensures path == ARTIFACT_DIRECTORY || path == TOKENS_PATH
  {
    var whole := TokenPath(site);
    var name := site + TOKEN_FILE_SUFFIX;
    assert whole == TOKENS_PATH + "/" + name;
    assert '/' !in name;
    assert forall i | |TOKENS_PATH| < i < |whole| :: whole[i] == name[i - |TOKENS_PATH| - 1];
    assert forall i | 0 <= i < |TOKENS_PATH| :: whole[i] == TOKENS_PATH[i];
    assert forall i | 0 <= i < |TOKENS_PATH| && TOKENS_PATH[i] == '/' :: i == 8;
  }

  lemma TokenPathsApart(a: Bytes, b: Bytes)
    requires '/' !in b
    ensures !IsBelow(TokenPath(a), TokenPath(b))
  {
    if IsBelow(TokenPath(a), TokenPath(b)) { TokenPathParents(TokenPath(a), b); }
  }

  lemma BelowTokenPath(site: Bytes, path: Bytes)
    ensures IsBelow(TOKENS_PATH, TokenPath(site))
    ensures IsBelow(TokenPath(site), path) ==> IsBelow(TOKENS_PATH, path)
    ensures TokenPath(site) != MANIFEST_PATH && !IsBelow(MANIFEST_PATH, TokenPath(site))
            && !IsBelow(TokenPath(site), MANIFEST_PATH)
  {
    var whole := TokenPath(site);
    assert whole == TOKENS_PATH + "/" + (site + TOKEN_FILE_SUFFIX);
    assert whole[9] == 't' && MANIFEST_PATH[9] == 'm';
    if IsBelow(TokenPath(site), path) {
      assert path[..|whole|][..|TOKENS_PATH|] == TOKENS_PATH
             && path[..|TOKENS_PATH|] == path[..|whole|][..|TOKENS_PATH|];
      assert path[|TOKENS_PATH|] == path[..|whole|][|TOKENS_PATH|];
    }
    assert whole[..|MANIFEST_PATH|][9] == whole[9];
  }

  lemma TokenPathIsLong(site: Bytes)
    ensures |TokenPath(site)| > |TOKENS_PATH|
  {
  }

  lemma NoFileAboveArtifacts(content: Files)
    requires IsFiles(content) && CONFIG_PATH in content
    ensures ARTIFACT_DIRECTORY !in content
  {
    assert CONFIG_PATH[..8] == ARTIFACT_DIRECTORY;
    assert IsBelow(ARTIFACT_DIRECTORY, CONFIG_PATH);
  }

  /** A file is in the tree with the manifest and its stale tokens dropped
      exactly when it is the manifest or survives. */
  lemma ClearedHolds(content: Files, manifestBytes: Bytes, path: Bytes)
    requires IsFiles(content) && CONFIG_PATH in content
    ensures var files := Upserted(Removed(content, TOKENS_PATH), BlobRecord(MANIFEST_PATH, manifestBytes));
            && (path in files <==> path == MANIFEST_PATH || (path in content && Survives(path)))
            && (path in files ==>
                  files[path] == if path == MANIFEST_PATH then BlobRecord(MANIFEST_PATH, manifestBytes)
                                 else content[path])
  {
    NoFileAboveArtifacts(content);
    if IsBelow(path, MANIFEST_PATH) { ManifestParents(path); }
  }

  /** The sealed tree holds exactly the manifest, one file for each token, and
      every surviving file of the content as it was. */
  lemma {:induction false} SealedHolds(content: Files, manifestBytes: Bytes, tokens: seq<AcquiredToken>, path: Bytes)
    requires IsFiles(content) && CONFIG_PATH in content && ArePlainSites(tokens)
    ensures var files := SealedTree(content, manifestBytes, tokens);
            && (path in files <==> path == MANIFEST_PATH || Seals(tokens, path) || (path in content && Survives(path)))
            && (path == MANIFEST_PATH ==> files[path] == BlobRecord(MANIFEST_PATH, manifestBytes))
            && (forall t | t in tokens && path == TokenPath(t.siteName) :: files[path] == TokenRecord(t))
            && (path in content && Survives(path) ==> files[path] == content[path])
    decreases |tokens|
  {
    hide Removed, Upserted, IsFiles, TokenPath, IsBelow, Survives, ArePlainSites;
    if Survives(path) { SurvivorsAreElsewhere(path); }
    if tokens == [] {
      ClearedHolds(content, manifestBytes, path);
      SealsMore(tokens, path);
    } else {
      var last, before := tokens[|tokens| - 1], tokens[..|tokens| - 1];
      SealsMore(tokens, path);
      SealedHolds(content, manifestBytes, before, path);
      TokenUpserted(SealedTree(content, manifestBytes, before), last, path);
      BelowTokenPath(last.siteName, path);
      NoFileAboveArtifacts(content);
      assert MANIFEST_PATH != ARTIFACT_DIRECTORY;
    }
  }

  lemma SurvivorsAreElsewhere(path: Bytes)
    requires Survives(path)
    ensures path != TOKENS_PATH && path != MANIFEST_PATH && !IsBelow(TOKENS_PATH, path)
  {
  }

  /** The last token's path is its own. */
  lemma SealsMore(tokens: seq<AcquiredToken>, path: Bytes)
    requires ArePlainSites(tokens)
    ensures tokens == [] ==> !Seals(tokens, path)
    ensures tokens != [] ==>
              var last, before := tokens[|tokens| - 1], tokens[..|tokens| - 1];
              && ArePlainSites(before) && IsPlainSite(last.siteName)
              && tokens == before + [last]
              && (Seals(tokens, path) <==> Seals(before, path) || path == TokenPath(last.siteName))
              && (Seals(before, path) ==>
                    && path != TokenPath(last.siteName) && !IsBelow(TokenPath(last.siteName), path)
                    && path != ARTIFACT_DIRECTORY && path != TOKENS_PATH && path != MANIFEST_PATH)
  {
    hide TokenPath, IsBelow;
    if tokens != [] {
      var last, before := tokens[|tokens| - 1], tokens[..|tokens| - 1];
      assert tokens == before + [last];
      assert forall i | 0 <= i < |before| :: before[i] == tokens[i];
      forall t | t in before
        ensures TokenPath(t.siteName) != TokenPath(last.siteName)
                && !IsBelow(TokenPath(last.siteName), TokenPath(t.siteName))
        ensures |TokenPath(t.siteName)| > |TOKENS_PATH| && TokenPath(t.siteName) != MANIFEST_PATH
      {
        var i :| 0 <= i < |before| && before[i] == t;
        assert tokens[i].siteName != tokens[|before|].siteName;
        TokenPathsApart(last.siteName, t.siteName);
        TokenPathIsLong(t.siteName);
        BelowTokenPath(t.siteName, []);
        if TokenPath(t.siteName) == TokenPath(last.siteName) { TokenPathInjective(t.siteName, last.siteName); }
      }
    }
  }

  lemma TokenUpserted(files: Files, token: AcquiredToken, path: Bytes)
    requires IsPlainSite(token.siteName)
    ensures var after := Upserted(files, TokenRecord(token));
            && TokenPath(token.siteName) in after && after[TokenPath(token.siteName)] == TokenRecord(token)
            && ((path in files && path != TokenPath(token.siteName) && !IsBelow(TokenPath(token.siteName), path)
                 && path != ARTIFACT_DIRECTORY && path != TOKENS_PATH) ==>
                    (path in after && after[path] == files[path]))
            && (path in after ==> path == TokenPath(token.siteName) || path in files)
  {
    if IsBelow(path, TokenPath(token.siteName)) { TokenPathParents(path, token.siteName); }
  }

  /** Sealing leaves a tree git can hold. */
  lemma {:induction false} SealedAreFiles(content: Files, manifestBytes: Bytes, tokens: seq<AcquiredToken>)
    requires IsFiles(content)
    ensures IsFiles(SealedTree(content, manifestBytes, tokens))
    decreases |tokens|
  {
    hide IsFiles, Upserted, Removed;
    RemovedKeepsFiles(content, TOKENS_PATH);
    if tokens == [] {
      UpsertedKeepsFiles(Removed(content, TOKENS_PATH), BlobRecord(MANIFEST_PATH, manifestBytes));
    } else {
      var before, last := tokens[..|tokens| - 1], tokens[|tokens| - 1];
      SealedAreFiles(content, manifestBytes, before);
      UpsertedKeepsFiles(SealedTree(content, manifestBytes, before), TokenRecord(last));
    }
  }
}
