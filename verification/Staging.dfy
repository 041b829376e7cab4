/** Index and working tree around a stamp: bringing a checkout to agree with
    the seal, queueing deposits, and leaving the stamped state again. */
module Staging {
  import opened Bytes
  import opened Repository
  import opened Sorting

  const LTV_CERTS_PATH: Bytes := ".tydence/ltv/certs"
  const LTV_CRLS_PATH: Bytes := ".tydence/ltv/crls"

  /** An index entry. Blobs are identified with their content; an untrusted
      entry carries no file statistics and is examined anew. */
  datatype IndexEntry = IndexEntry(blob: Bytes, mode: nat, trusted: bool)

  type Index = map<Bytes, IndexEntry>

  type Worktree = map<Bytes, Bytes>

  datatype StagingError = Objects | WorktreeFault(path: Bytes)

  datatype SealedFile = SealedFile(path: Bytes, blob: Option<Bytes>)

  datatype Deposit = Deposit(path: Bytes, content: Bytes)

  // ----- the stamp-managed files of HEAD -----

  /** A file directly inside the directory. */
  predicate IsChild(directory: Bytes, path: Bytes) {
    IsBelow(directory, path) && '/' !in path[|directory| + 1..]
  }

  function ChildFiles(head: seq<Record>, directory: Bytes): (files: seq<SealedFile>)
    ensures forall f :: f in files <==> exists r | r in head ::
              IsBlobMode(r.mode) && IsChild(directory, r.path) && f == SealedFile(r.path, r.blob)
  {
    if head == [] then []
    else
      var r, rest := head[0], ChildFiles(head[1..], directory);
      assert head == [r] + head[1..];
      if IsBlobMode(r.mode) && IsChild(directory, r.path) then [SealedFile(r.path, r.blob)] + rest else rest
  }

  function SealedFiles(head: seq<Record>): seq<SealedFile> {
    var manifest := FindFile(head, MANIFEST_PATH);
    (if manifest.Some? && IsBlobMode(manifest.value.mode) then [SealedFile(MANIFEST_PATH, manifest.value.blob)] else [])
    + ChildFiles(head, TOKENS_PATH) + ChildFiles(head, LTV_CERTS_PATH) + ChildFiles(head, LTV_CRLS_PATH)
  }

  predicate AreReadable(sealed: seq<SealedFile>) {
    forall i | 0 <= i < |sealed| :: sealed[i].blob.Some?
  }

  /** The content each stamp-managed path has in HEAD. */
  function Contents(sealed: seq<SealedFile>): (contents: map<Bytes, Bytes>)
    requires AreReadable(sealed)
    ensures forall p :: p in contents <==> exists i | 0 <= i < |sealed| :: sealed[i].path == p
  {
    if sealed == [] then map[]
    else
      var n := |sealed| - 1;
      assert forall i | 0 <= i < n :: sealed[..n][i] == sealed[i];
      Contents(sealed[..n])[sealed[n].path := sealed[n].blob.value]
  }

  // ----- what synchronizing amounts to -----

  /** An indexed artifact of a stamp HEAD no longer holds. */
  predicate IsStale(index: Index, sealed: set<Bytes>, path: Bytes) {
    path in index && IsStampArtifact(path) && path !in sealed
  }

  function Requeued(index: Index, path: Bytes, blob: Bytes): IndexEntry {
    if path !in index then IndexEntry(blob, REGULAR_MODE, false)
    else if index[path].blob == blob then index[path]
    else IndexEntry(blob, index[path].mode, false)
  }

  function SyncedIndex(index: Index, contents: map<Bytes, Bytes>): Index {
    map p | p in index.Keys + contents.Keys && !IsStale(index, contents.Keys, p) ::
      if p in contents then Requeued(index, p, contents[p]) else index[p]
  }

  function SyncedWorktree(index: Index, worktree: Worktree, contents: map<Bytes, Bytes>): Worktree {
    map p | p in worktree.Keys + contents.Keys && !IsStale(index, contents.Keys, p) ::
      if p in contents then contents[p] else worktree[p]
  }

  function Look(worktree: Worktree, path: Bytes): Option<Bytes> {
    if path in worktree then Some(worktree[path]) else None
  }

  function Paths(sealed: seq<SealedFile>): set<Bytes> { set f | f in sealed :: f.path }

  /** The working tree of a run that stopped part way: a sealed path may hold
      anything, even a file cut short, a stale one may be gone, and every other
      path is as it was. */
  ghost predicate IsPartWay(index: Index, sealed: seq<SealedFile>, before: Worktree, now: Worktree) {
    forall p ::
      || p in Paths(sealed)
      || Look(now, p) == Look(before, p)
      || (IsStale(index, Paths(sealed), p) && Look(now, p) == None)
  }

  // ----- the sealed files of a tree are apart -----

  ghost predicate AreApart(files: seq<SealedFile>) {
    forall i, j | 0 <= i < j < |files| :: files[i].path != files[j].path
  }

  lemma {:induction false} ChildFilesApart(head: seq<Record>, directory: Bytes)
    requires IsTree(head)
    ensures AreApart(ChildFiles(head, directory))
  {
    if head != [] {
      var rest := head[1..];
      assert forall i | 0 <= i < |rest| :: rest[i] == head[i + 1];
      ChildFilesApart(rest, directory);
      var later := ChildFiles(rest, directory);
      forall i | 0 <= i < |later| && IsBlobMode(head[0].mode) ensures later[i].path != head[0].path {
        assert later[i] in later;
        var r :| r in rest && IsBlobMode(r.mode) && IsChild(directory, r.path)
            && later[i] == SealedFile(r.path, r.blob);
        var k :| 0 <= k < |rest| && rest[k] == r;
        assert head[k + 1] == r;
      }
    }
  }

  lemma DirectoriesApart(path: Bytes)
    ensures IsBelow(TOKENS_PATH, path) ==> |path| > 9 && path[9] == 't'
    ensures IsBelow(LTV_CERTS_PATH, path) ==> |path| > 14 && path[9] == 'l' && path[14] == 'e'
    ensures IsBelow(LTV_CRLS_PATH, path) ==> |path| > 14 && path[9] == 'l' && path[14] == 'r'
    ensures path == MANIFEST_PATH ==> path[9] == 'm'
  {
    assert TOKENS_PATH[9] == 't' && MANIFEST_PATH[9] == 'm' && LTV_CERTS_PATH[9] == 'l' && LTV_CERTS_PATH[14] == 'e'
           && LTV_CRLS_PATH[9] == 'l' && LTV_CRLS_PATH[14] == 'r';
    assert IsBelow(TOKENS_PATH, path) ==> path[..|TOKENS_PATH|][9] == path[9];
    assert IsBelow(LTV_CERTS_PATH, path) ==>
           path[..|LTV_CERTS_PATH|][9] == path[9] && path[..|LTV_CERTS_PATH|][14] == path[14];
    assert IsBelow(LTV_CRLS_PATH, path) ==>
           path[..|LTV_CRLS_PATH|][9] == path[9] && path[..|LTV_CRLS_PATH|][14] == path[14];
  }

  ghost predicate AllIn(directory: Bytes, files: seq<SealedFile>) {
    forall f | f in files :: IsBelow(directory, f.path)
  }

  lemma SealedFilesApart(head: seq<Record>)
    requires IsTree(head)
    ensures AreApart(SealedFiles(head))
  {
    hide IsTree, IsBelow;
    var manifest := FindFile(head, MANIFEST_PATH);
    var first :=
      if manifest.Some? && IsBlobMode(manifest.value.mode) then [SealedFile(MANIFEST_PATH, manifest.value.blob)]
      else [];
    var tokens := ChildFiles(head, TOKENS_PATH);
    var certs, crls := ChildFiles(head, LTV_CERTS_PATH), ChildFiles(head, LTV_CRLS_PATH);
    ChildFilesApart(head, TOKENS_PATH);
    ChildFilesApart(head, LTV_CERTS_PATH);
    ChildFilesApart(head, LTV_CRLS_PATH);
    forall path { DirectoriesApart(path); }
    assert AllIn(TOKENS_PATH, tokens) && AllIn(LTV_CERTS_PATH, certs) && AllIn(LTV_CRLS_PATH, crls);
    JoinApart(first, tokens);
    JoinApart(first + tokens, certs);
    JoinApart(first + tokens + certs, crls);
  }

  lemma JoinApart(a: seq<SealedFile>, b: seq<SealedFile>)
    requires AreApart(a) && AreApart(b) && forall f, g | f in a && g in b :: f.path != g.path
    ensures AreApart(a + b)
  {
    var c := a + b;
    forall i, j | 0 <= i < j < |c| ensures c[i].path != c[j].path {
      if i < |a| && j >= |a| { assert a[i] in a && b[j - |a|] in b; }
    }
  }

  // ----- the checkout -----

  class Checkout {
    var index: Index
    var worktree: Worktree

    constructor (index: Index, worktree: Worktree)
      ensures this.index == index && this.worktree == worktree
    {
      this.index, this.worktree := index, worktree;
    }

    /** The stamp artifacts the index holds. */
    function StagedArtifacts(): set<Bytes>
      reads this
    {
      set p | p in index && IsStampArtifact(p)
    }

    /** Writes the sealed files out and queues them in a copy of the index.
        `patience` bounds the file operations that succeed before something
        outside fails; the one that fails may leave a file cut short. */
    method WriteSealed(sealed: seq<SealedFile>, patience: nat)
      returns (memory: Index, changed: bool, outcome: Result<nat, StagingError>)
      requires AreApart(sealed)
      modifies this`worktree
      ensures outcome.Ok? ==> AreReadable(sealed) && outcome.value + |sealed| == patience
      ensures outcome.Ok? ==> worktree == old(worktree) + Contents(sealed) && memory == Queued(index, Contents(sealed))
      ensures outcome.Ok? && !changed ==> memory == index
      ensures outcome.Err? ==> IsPartWay(index, sealed, old(worktree), worktree)
      ensures AreReadable(sealed) && patience >= |sealed| ==> outcome.Ok?
    {
      hide AreApart, Contents, Queued, IsPartWay;
      memory, changed := index, false;
      NothingWritten(index, worktree, sealed);
      for i := 0 to |sealed|
        invariant i <= patience
        invariant AreReadable(sealed[..i])
        invariant worktree == old(worktree) + Contents(sealed[..i])
        invariant memory == Queued(index, Contents(sealed[..i]))
        invariant !changed ==> memory == index
      {
        var path := sealed[i].path;
        WrittenIsPartWay(index, old(worktree), sealed, i);
        if sealed[i].blob.None? { return memory, changed, Err(Objects); }
        var blob := sealed[i].blob.value;
        if i == patience {
          var kept: nat :| kept <= |blob|;
          if * {
            CutShortIsPartWay(index, old(worktree), sealed, worktree, path, blob[..kept]);
            worktree := worktree[path := blob[..kept]];
          }
          return memory, changed, Err(WorktreeFault(path));
        }
        NextSealed(index, old(worktree), sealed, i);
        worktree := worktree[path := blob];
        if path in memory {
          if memory[path].blob != blob {
            memory := memory[path := IndexEntry(blob, memory[path].mode, false)];
            changed := true;
          }
        } else {
          memory := memory[path := IndexEntry(blob, REGULAR_MODE, false)];
          changed := true;
        }
      }
      assert sealed[..|sealed|] == sealed;
      return memory, changed, Ok(patience - |sealed|);
    }

    /** Removes files, in whatever order. */
    method RemoveFiles(paths: set<Bytes>, patience: nat)
      returns (outcome: Result<(), StagingError>, ghost removed: set<Bytes>)
      modifies this`worktree
      ensures worktree == old(worktree) - removed && removed <= paths
      ensures outcome.Ok? ==> removed == paths
      ensures patience >= |paths| ==> outcome.Ok?
    {
      var pending, left := paths, patience;
      removed := {};
      while pending != {}
        invariant pending <= paths && removed == paths - pending
        invariant worktree == old(worktree) - removed
        invariant patience >= |paths| ==> left >= |pending|
      {
        var path :| path in pending;
        if left == 0 { return Err(WorktreeFault(path)), removed; }
        left := left - 1;
        worktree := worktree - {path};
        removed := removed + {path};
        pending := pending - {path};
      }
      return Ok(()), removed;
    }

    /** Brings index and working tree to agree with HEAD. The index is written
        once, at the end. */
    method SyncArtifacts(head: seq<Record>, patience: nat) returns (outcome: Result<(), StagingError>)
      requires IsTree(head)
      modifies this
      ensures outcome.Ok? ==> AreReadable(SealedFiles(head))
      ensures outcome.Ok? ==> index == SyncedIndex(old(index), Contents(SealedFiles(head)))
      ensures outcome.Ok? ==> worktree == SyncedWorktree(old(index), old(worktree), Contents(SealedFiles(head)))
      ensures outcome.Err? ==> index == old(index) && IsPartWay(old(index), SealedFiles(head), old(worktree), worktree)
      ensures AreReadable(SealedFiles(head)) && patience >= |SealedFiles(head)| + |old(index)| ==> outcome.Ok?
    {
      hide SealedFiles, IsTree, AreApart, Contents, Queued, IsPartWay, SyncedIndex, SyncedWorktree;
      var sealed := SealedFiles(head);
      SealedFilesApart(head);
      var memory, changed, written := WriteSealed(sealed, patience);
      if written.Err? { return Err(written.error); }
      var stale := set p | p in memory && IsStampArtifact(p) && p !in Paths(sealed);
      StaleAreOld(index, sealed, stale);
      var removal, removed := RemoveFiles(stale, written.value);
      if removal.Err? {
        StoppedWhileRemoving(index, sealed, old(worktree), stale, removed);
        return Err(removal.error);
      }
      Finished(index, old(worktree), sealed, stale);
      if stale != {} {
        memory := memory - stale;
        changed := true;
      }
      if changed { index := memory; }
      return Ok(());
    }

    /** Queues the deposits of the working tree; answers with the paths whose
        entry changed. */
    method StageDeposits(deposits: seq<Deposit>) returns (staged: seq<Bytes>)
      modifies this`index
      ensures index == Deposited(old(index), deposits)
      ensures staged == Changed(old(index), deposits)
    {
      var memory := index;
      staged := [];
      for i := 0 to |deposits|
        invariant memory == Deposited(index, deposits[..i]) && staged == Changed(index, deposits[..i])
        invariant staged == [] ==> memory == index
      {
        assert deposits[..i + 1][..i] == deposits[..i];
        var deposit := deposits[i];
        if deposit.path in memory {
          if memory[deposit.path].blob == deposit.content { continue; }
          memory := memory[deposit.path := IndexEntry(deposit.content, memory[deposit.path].mode, false)];
        } else {
          memory := memory[deposit.path := IndexEntry(deposit.content, REGULAR_MODE, false)];
        }
        staged := staged + [deposit.path];
      }
      assert deposits[..|deposits|] == deposits;
      if staged != [] { index := memory; }
    }

    /** Leaves the stamped state: the artifacts go from index and working
        tree. Answers with what was dropped. */
    method DropArtifacts() returns (dropped: seq<Bytes>)
      modifies this
      ensures index == WithoutArtifacts(old(index)) && worktree == WithoutArtifacts(old(worktree))
      ensures IsSortedListOf(dropped, Dropped(old(index), old(worktree)))
    {
      var staged := StagedArtifacts();
      assert forall p :: p in staged <==> p in index && IsStampArtifact(p);
      if staged != {} { index := index - staged; }
      assert index == WithoutArtifacts(old(index));
      var removed := DropFiles();
      dropped := SortedList(staged + removed);
    }

    method DropFiles() returns (dropped: set<Bytes>)
      modifies this`worktree
      ensures worktree == WithoutArtifacts(old(worktree))
      ensures dropped == DroppedFiles(old(worktree))
    {
      assert !IsBelow(TOKENS_PATH, MANIFEST_PATH) by { DirectoriesApart(MANIFEST_PATH); }
      dropped := {};
      if MANIFEST_PATH in worktree {
        worktree := worktree - {MANIFEST_PATH};
        dropped := dropped + {MANIFEST_PATH};
      }
      var below := set p | p in worktree && IsBelow(TOKENS_PATH, p);
      assert forall p :: p in below <==> p in old(worktree) && IsBelow(TOKENS_PATH, p);
      if p :| p in below {
        worktree := worktree - below;
        dropped := dropped + {TOKENS_PATH + "/"};
      }
    }
  }

  /** Each path once, in byte order. */
  ghost predicate IsSortedListOf(list: seq<Bytes>, paths: set<Bytes>) {
    && SortedBy(LEX_ORDER, list) && Distinct(list)
    && forall p :: p in list <==> p in paths
  }

  method SortedList(paths: set<Bytes>) returns (list: seq<Bytes>)
    ensures IsSortedListOf(list, paths)
  {
    hide LexLe;
    var pending := paths;
    list := [];
    while pending != {}
      invariant pending <= paths && IsSortedListOf(list, paths - pending)
    {
      var path :| path in pending;
      assert paths - (pending - {path}) == (paths - pending) + {path};
      InsertPath(path, list, paths - pending);
      list := Insert(LEX_ORDER, path, list);
      pending := pending - {path};
    }
    assert paths - {} == paths;
  }

  lemma InsertPath(path: Bytes, list: seq<Bytes>, paths: set<Bytes>)
    requires IsSortedListOf(list, paths) && path !in paths
    ensures IsSortedListOf(Insert(LEX_ORDER, path, list), paths + {path})
  {
    hide LexLe;
    LexIsTotalPreorder();
    InsertSorted(LEX_ORDER, path, list);
    var longer := Insert(LEX_ORDER, path, list);
    assert Distinct(list + [path]);
    assert multiset(list + [path]) == multiset(longer);
    DistinctPermutes(list + [path], longer);
    forall p ensures p in longer <==> p in paths + {path} {
      assert p in longer <==> p in multiset(longer);
      assert p in list <==> p in multiset(list);
    }
  }

  function WithoutArtifacts<V>(files: map<Bytes, V>): map<Bytes, V> {
    map p | p in files && !IsStampArtifact(p) :: files[p]
  }

  // ----- deposits -----

  predicate IsQueued(index: Index, deposit: Deposit) {
    deposit.path in index && index[deposit.path].blob == deposit.content
  }

  function QueueOne(index: Index, deposit: Deposit): Index {
    if IsQueued(index, deposit) then index else index[deposit.path := Requeued(index, deposit.path, deposit.content)]
  }

  function Deposited(index: Index, deposits: seq<Deposit>): Index {
    if deposits == [] then index else QueueOne(Deposited(index, deposits[..|deposits| - 1]), deposits[|deposits| - 1])
  }

  function Changed(index: Index, deposits: seq<Deposit>): seq<Bytes> {
    if deposits == [] then []
    else
      var front, last := deposits[..|deposits| - 1], deposits[|deposits| - 1];
      Changed(index, front) + if IsQueued(Deposited(index, front), last) then [] else [last.path]
  }

  /** The working tree's deposits, one for each path. */
  ghost predicate OnePerPath(deposits: seq<Deposit>) {
    forall i, j | 0 <= i < j < |deposits| :: deposits[i].path != deposits[j].path
  }

  lemma LastIsApart(deposits: seq<Deposit>)
    requires OnePerPath(deposits) && deposits != []
    ensures var front, last := deposits[..|deposits| - 1], deposits[|deposits| - 1];
            && deposits == front + [last] && OnePerPath(front)
            && forall d | d in front :: d.path != last.path
  {
    var front := deposits[..|deposits| - 1];
    assert forall i | 0 <= i < |front| :: front[i] == deposits[i];
  }

  /** Nothing but the deposits' paths moves. */
  lemma {:induction false} OthersStay(index: Index, deposits: seq<Deposit>, path: Bytes)
    requires forall d | d in deposits :: d.path != path
    ensures path in Deposited(index, deposits) <==> path in index
    ensures path in index ==> Deposited(index, deposits)[path] == index[path]
  {
    if deposits != [] {
      assert deposits == deposits[..|deposits| - 1] + [deposits[|deposits| - 1]];
      OthersStay(index, deposits[..|deposits| - 1], path);
    }
  }

  /** Every deposit ends up queued, and the answer names exactly the deposits
      that were not queued before. */
  lemma {:induction false} DepositsQueue(index: Index, deposits: seq<Deposit>)
    requires OnePerPath(deposits)
    ensures forall d | d in deposits :: IsQueued(Deposited(index, deposits), d)
    ensures forall p :: p in Changed(index, deposits) <==>
            exists d | d in deposits :: d.path == p && !IsQueued(index, d)
  {
    if deposits != [] {
      LastIsApart(deposits);
      hide OnePerPath;
      var front, last := deposits[..|deposits| - 1], deposits[|deposits| - 1];
      DepositsQueue(index, front);
      OthersStay(index, front, last.path);
      var before := Deposited(index, front);
      assert IsQueued(before, last) == IsQueued(index, last);
      forall d | d in deposits ensures IsQueued(QueueOne(before, last), d) {
        if d in front { assert IsQueued(before, d); }
      }
    }
  }

  /** Queueing again changes nothing and answers with nothing. */
  lemma {:induction false} QueuedStays(index: Index, deposits: seq<Deposit>)
    requires forall d | d in deposits :: IsQueued(index, d)
    ensures Deposited(index, deposits) == index && Changed(index, deposits) == []
  {
    if deposits != [] {
      var n := |deposits| - 1;
      assert deposits == deposits[..n] + [deposits[n]];
      assert deposits[n] in deposits;
      QueuedStays(index, deposits[..n]);
    }
  }

  lemma StagingTwiceIsStagingOnce(index: Index, deposits: seq<Deposit>)
    requires OnePerPath(deposits)
    ensures Deposited(Deposited(index, deposits), deposits) == Deposited(index, deposits)
    ensures Changed(Deposited(index, deposits), deposits) == []
  {
    hide Deposited, Changed, OnePerPath;
    DepositsQueue(index, deposits);
    QueuedStays(Deposited(index, deposits), deposits);
  }

  // ----- dropping -----

  function DroppedFiles(worktree: Worktree): set<Bytes> {
    (if MANIFEST_PATH in worktree then {MANIFEST_PATH} else {})
    + (if exists p | p in worktree :: IsBelow(TOKENS_PATH, p) then {TOKENS_PATH + "/"} else {})
  }

  function Dropped(index: Index, worktree: Worktree): set<Bytes> {
    (set p | p in index && IsStampArtifact(p)) + DroppedFiles(worktree)
  }

  // ----- queueing the sealed files -----

  /** The index with the sealed files queued, nothing removed yet. */
  function Queued(index: Index, contents: map<Bytes, Bytes>): Index {
    map p | p in index.Keys + contents.Keys :: if p in contents then Requeued(index, p, contents[p]) else index[p]
  }

  lemma NothingWritten(index: Index, worktree: Worktree, sealed: seq<SealedFile>)
    ensures AreReadable(sealed[..0]) && worktree + Contents(sealed[..0]) == worktree
            && Queued(index, Contents(sealed[..0])) == index
  {
  }

  lemma WrittenIsPartWay(index: Index, worktree: Worktree, sealed: seq<SealedFile>, i: nat)
    requires i <= |sealed| && AreReadable(sealed[..i])
    ensures IsPartWay(index, sealed, worktree, worktree + Contents(sealed[..i]))
    ensures i < |sealed| ==> sealed[i].path in Paths(sealed)
  {
    hide Contents, IsStale;
    ContentPaths(sealed[..i]);
    assert forall f | f in sealed[..i] :: f in sealed;
  }

  lemma CutShortIsPartWay(index: Index, before: Worktree, sealed: seq<SealedFile>, now: Worktree, path: Bytes,
          content: Bytes)
    requires IsPartWay(index, sealed, before, now) && path in Paths(sealed)
    ensures IsPartWay(index, sealed, before, now[path := content])
  {
  }

  lemma ContentsGrow(sealed: seq<SealedFile>, i: nat)
    requires i < |sealed| && AreReadable(sealed[..i]) && AreApart(sealed) && sealed[i].blob.Some?
    ensures AreReadable(sealed[..i + 1]) && sealed[i].path !in Contents(sealed[..i])
    ensures Contents(sealed[..i + 1]) == Contents(sealed[..i])[sealed[i].path := sealed[i].blob.value]
  {
    assert sealed[..i + 1][..i] == sealed[..i];
    assert forall k | 0 <= k < i :: sealed[..i][k] == sealed[k];
  }

  lemma QueuedGrows(index: Index, contents: map<Bytes, Bytes>, path: Bytes, blob: Bytes)
    requires path !in contents
    ensures Queued(index, contents[path := blob]) == Queued(index, contents)[path := Requeued(index, path, blob)]
    ensures path in Queued(index, contents) <==> path in index
    ensures path in index ==> Queued(index, contents)[path] == index[path]
  {
  }

  lemma NextSealed(index: Index, worktree: Worktree, sealed: seq<SealedFile>, i: nat)
    requires i < |sealed| && AreReadable(sealed[..i]) && AreApart(sealed) && sealed[i].blob.Some?
    ensures var path, blob, memory := sealed[i].path, sealed[i].blob.value, Queued(index, Contents(sealed[..i]));
            && AreReadable(sealed[..i + 1])
            && worktree + Contents(sealed[..i + 1]) == (worktree + Contents(sealed[..i]))[path := blob]
            && Queued(index, Contents(sealed[..i + 1])) ==
               (if path !in memory then memory[path := IndexEntry(blob, REGULAR_MODE, false)]
                else if memory[path].blob != blob then memory[path := IndexEntry(blob, memory[path].mode, false)]
                else memory)
  {
    hide Contents, Queued, AreApart;
    ContentsGrow(sealed, i);
    QueuedGrows(index, Contents(sealed[..i]), sealed[i].path, sealed[i].blob.value);
  }

  lemma {:induction false} ContentsAreSealed(sealed: seq<SealedFile>)
    requires AreReadable(sealed)
    ensures forall p | p in Contents(sealed) :: SealedFile(p, Some(Contents(sealed)[p])) in sealed
    ensures AreApart(sealed) ==> forall f | f in sealed :: Contents(sealed)[f.path] == f.blob.value
  {
    if sealed != [] {
      var n := |sealed| - 1;
      assert forall i | 0 <= i < n :: sealed[..n][i] == sealed[i];
      ContentsAreSealed(sealed[..n]);
      assert sealed == sealed[..n] + [sealed[n]];
      assert SealedFile(sealed[n].path, Some(sealed[n].blob.value)) == sealed[n];
    }
  }

  lemma ContentPaths(sealed: seq<SealedFile>)
    requires AreReadable(sealed)
    ensures Contents(sealed).Keys == Paths(sealed)
  {
    forall p ensures p in Contents(sealed) <==> p in Paths(sealed) {
      if p in Paths(sealed) {
        var f :| f in sealed && f.path == p;
        var i :| 0 <= i < |sealed| && sealed[i] == f;
      }
    }
  }

  lemma StaleAreOld(index: Index, sealed: seq<SealedFile>, stale: set<Bytes>)
    requires AreReadable(sealed)
    requires stale == set p | p in Queued(index, Contents(sealed)) && IsStampArtifact(p) && p !in Paths(sealed)
    ensures forall p :: p in stale <==> IsStale(index, Paths(sealed), p)
    ensures |stale| <= |index|
  {
    hide Contents, IsStampArtifact;
    ContentPaths(sealed);
    assert stale <= index.Keys;
    assert index.Keys == stale + (index.Keys - stale);
    assert |index| == |index.Keys|;
  }

  lemma StoppedWhileRemoving(index: Index, sealed: seq<SealedFile>, before: Worktree, stale: set<Bytes>,
          removed: set<Bytes>)
    requires AreReadable(sealed) && removed <= stale && forall p :: p in stale <==> IsStale(index, Paths(sealed), p)
    ensures IsPartWay(index, sealed, before, (before + Contents(sealed)) - removed)
  {
    hide Contents, IsStale;
    ContentPaths(sealed);
  }

  lemma Finished(index: Index, worktree: Worktree, sealed: seq<SealedFile>, stale: set<Bytes>)
    requires AreReadable(sealed) && forall p :: p in stale <==> IsStale(index, Paths(sealed), p)
    ensures Queued(index, Contents(sealed)) - stale == SyncedIndex(index, Contents(sealed))
    ensures stale == {} ==> Queued(index, Contents(sealed)) == SyncedIndex(index, Contents(sealed))
    ensures (worktree + Contents(sealed)) - stale == SyncedWorktree(index, worktree, Contents(sealed))
  {
    hide Contents, IsStampArtifact;
    ContentPaths(sealed);
    assert Queued(index, Contents(sealed)) - {} == Queued(index, Contents(sealed));
  }

  lemma SameLooks(a: Worktree, b: Worktree)
    requires forall p :: Look(a, p) == Look(b, p)
    ensures a == b
  {
    forall p ensures p in a <==> p in b { assert Look(a, p) == Look(b, p); }
    forall p | p in a ensures a[p] == b[p] { assert Look(a, p) == Look(b, p); }
  }

  // ----- what synchronizing guarantees -----

  /** After a finished run HEAD, index and working tree agree on every sealed
      path, stale artifacts are gone from both, and every other path is as it
      was; the only artifacts left in the index are sealed ones. */
  lemma SyncedAgrees(index: Index, worktree: Worktree, sealed: seq<SealedFile>)
    requires AreReadable(sealed) && AreApart(sealed)
    ensures var contents := Contents(sealed);
            var after, files := SyncedIndex(index, contents), SyncedWorktree(index, worktree, contents);
            && (forall f | f in sealed ::
                  && f.path in after && after[f.path] == Requeued(index, f.path, f.blob.value)
                  && f.path in files && files[f.path] == f.blob.value)
            && (forall p | IsStale(index, Paths(sealed), p) :: p !in after && p !in files)
            && (forall p | p !in Paths(sealed) && !IsStale(index, Paths(sealed), p) ::
                  && (p in after <==> p in index) && (p in index ==> after[p] == index[p])
                  && Look(files, p) == Look(worktree, p))
            && (forall p | p in after && IsStampArtifact(p) :: p in Paths(sealed))
  {
    hide Contents, AreReadable, AreApart, IsStampArtifact;
    ContentPaths(sealed);
    ContentsAreSealed(sealed);
  }

  // ----- the same, read off HEAD's records -----

  /** The path is a plain name in the directory. */
  predicate StandsIn(directory: Bytes, path: Bytes) {
    directory + "/" <= path && '/' !in path[|directory| + 1..]
  }

  /** The paths a stamp manages: the manifest, the tokens, the long-term
      validation records. */
  predicate IsManaged(path: Bytes) {
    || path == ".tydence/manifest"
    || StandsIn(".tydence/tokens", path)
    || StandsIn(".tydence/ltv/certs", path)
    || StandsIn(".tydence/ltv/crls", path)
  }

  /** A managed file of HEAD's tree. */
  predicate IsSealedIn(head: seq<Record>, r: Record) {
    r in head && IsBlobMode(r.mode) && IsManaged(r.path)
  }

  lemma ChildStandsIn(directory: Bytes, path: Bytes)
    ensures IsChild(directory, path) <==> StandsIn(directory, path)
  {
    BelowIsPrefix(directory, path);
  }

  /** The sealed files of HEAD are its managed files, no more and no fewer. */
  lemma SealedFilesExact(head: seq<Record>, f: SealedFile)
    requires IsTree(head)
    ensures f in SealedFiles(head) <==> exists r :: IsSealedIn(head, r) && f == SealedFile(r.path, r.blob)
  {
    hide IsTree, FindFile, IsBlobMode, IsTreeMode;
    forall path: Bytes
      ensures IsManaged(path) <==>
              path == MANIFEST_PATH || IsChild(TOKENS_PATH, path)
              || IsChild(LTV_CERTS_PATH, path) || IsChild(LTV_CRLS_PATH, path)
    {
      ChildStandsIn(TOKENS_PATH, path);
      ChildStandsIn(LTV_CERTS_PATH, path);
      ChildStandsIn(LTV_CRLS_PATH, path);
    }
    hide IsChild, IsManaged;
    BlobIsNoTree();
    forall r | r in head && IsBlobMode(r.mode) && r.path == MANIFEST_PATH
      ensures FindFile(head, MANIFEST_PATH) == Some(r)
    {
      FoundIsOnly(head, r);
    }
    SealedFrom(head, f);
  }

  lemma SealedFrom(head: seq<Record>, f: SealedFile)
    ensures f in SealedFiles(head) <==>
            || (FindFile(head, MANIFEST_PATH).Some? && IsBlobMode(FindFile(head, MANIFEST_PATH).value.mode)
                && f == SealedFile(MANIFEST_PATH, FindFile(head, MANIFEST_PATH).value.blob))
            || f in ChildFiles(head, TOKENS_PATH)
            || f in ChildFiles(head, LTV_CERTS_PATH)
            || f in ChildFiles(head, LTV_CRLS_PATH)
  {
    hide ChildFiles, FindFile, IsBlobMode;
  }

  lemma BlobIsNoTree()
    ensures forall mode | IsBlobMode(mode) :: !IsTreeMode(mode)
  {
  }

  /** After a finished run every managed file of HEAD stands in index and
      working tree with HEAD's content; an artifact HEAD does not hold is in
      neither if the index had it; and no other path has moved. */
  lemma HeadIsSynced(head: seq<Record>, index: Index, worktree: Worktree)
    requires IsTree(head) && AreReadable(SealedFiles(head))
    ensures var contents := Contents(SealedFiles(head));
            var after, files := SyncedIndex(index, contents), SyncedWorktree(index, worktree, contents);
            && (forall r | IsSealedIn(head, r) ::
                  && r.blob.Some? && r.path in after && r.path in files && files[r.path] == r.blob.value
                  && after[r.path] == if r.path !in index then IndexEntry(r.blob.value, 0x81A4, false)
                                      else if index[r.path].blob == r.blob.value then index[r.path]
                                      else IndexEntry(r.blob.value, index[r.path].mode, false))
            && (forall p | HasNone(head, p) && p in index && IsStampArtifact(p) :: p !in after && p !in files)
            && (forall p | HasNone(head, p) && !(p in index && IsStampArtifact(p)) ::
                  && (p in after <==> p in index) && (p in index ==> after[p] == index[p])
                  && Look(files, p) == Look(worktree, p))
  {
    hide SealedFiles, Contents, AreReadable, AreApart, IsManaged, IsStampArtifact, IsBlobMode, SyncedIndex,
         SyncedWorktree, IsTree;
    var sealed := SealedFiles(head);
    SealedFilesApart(head);
    SyncedAgrees(index, worktree, sealed);
    forall r | IsSealedIn(head, r) ensures SealedFile(r.path, r.blob) in sealed && r.blob.Some? {
      SealedFilesExact(head, SealedFile(r.path, r.blob));
      ReadableBlob(sealed, SealedFile(r.path, r.blob));
    }
    forall p ensures p in Paths(sealed) <==> !HasNone(head, p) {
      if p in Paths(sealed) {
        var f :| f in sealed && f.path == p;
        SealedFilesExact(head, f);
      }
      if !HasNone(head, p) {
        var r :| IsSealedIn(head, r) && r.path == p;
        assert SealedFile(r.path, r.blob) in sealed;
      }
    }
  }

  /** HEAD manages no file at the path. */
  ghost predicate HasNone(head: seq<Record>, path: Bytes) {
    forall r | IsSealedIn(head, r) :: r.path != path
  }

  lemma ReadableBlob(sealed: seq<SealedFile>, f: SealedFile)
    requires AreReadable(sealed) && f in sealed
    ensures f.blob.Some?
  {
  }

  /** A second run changes nothing, the index entries' trust included. */
  lemma SyncingTwiceIsSyncingOnce(index: Index, worktree: Worktree, contents: map<Bytes, Bytes>)
    ensures var after, files := SyncedIndex(index, contents), SyncedWorktree(index, worktree, contents);
            SyncedIndex(after, contents) == after && SyncedWorktree(after, files, contents) == files
  {
    hide IsStampArtifact;
  }

  /** A run interrupted after any step and then repeated ends where an
      uninterrupted run does. */
  lemma InterruptedRunConverges(index: Index, before: Worktree, sealed: seq<SealedFile>, now: Worktree)
    requires AreReadable(sealed) && IsPartWay(index, sealed, before, now)
    ensures SyncedWorktree(index, now, Contents(sealed)) == SyncedWorktree(index, before, Contents(sealed))
  {
    hide Contents;
    ContentPaths(sealed);
    var a, b := SyncedWorktree(index, now, Contents(sealed)), SyncedWorktree(index, before, Contents(sealed));
    forall p ensures Look(a, p) == Look(b, p) {
      assert p in Paths(sealed) || Look(now, p) == Look(before, p) || IsStale(index, Paths(sealed), p);
    }
    SameLooks(a, b);
  }

  /** Dropping leaves nothing to drop. */
  lemma DroppedOnce(index: Index, worktree: Worktree)
    ensures Dropped(WithoutArtifacts(index), WithoutArtifacts(worktree)) == {}
  {
    assert IsStampArtifact(MANIFEST_PATH);
  }

  /** Each deposit's entry afterwards: as it was if it had the content, and
      otherwise with the content, untrusted, in the mode it had or as a regular
      file; every other entry is as it was. */
  lemma {:induction false} DepositedExact(index: Index, deposits: seq<Deposit>)
    requires OnePerPath(deposits)
    ensures forall d | d in deposits ::
              && d.path in Deposited(index, deposits)
              && Deposited(index, deposits)[d.path] ==
                 if d.path !in index then IndexEntry(d.content, 0x81A4, false)
                 else if index[d.path].blob == d.content then index[d.path]
                 else IndexEntry(d.content, index[d.path].mode, false)
    ensures forall p | (forall d | d in deposits :: d.path != p) :: InBoth(index, Deposited(index, deposits), p)
  {
    hide OnePerPath;
    forall p | forall d | d in deposits :: d.path != p ensures InBoth(index, Deposited(index, deposits), p) {
      OthersStay(index, deposits, p);
    }
    if deposits != [] {
      LastIsApart(deposits);
      var front, last := deposits[..|deposits| - 1], deposits[|deposits| - 1];
      DepositedExact(index, front);
      OthersStay(index, front, last.path);
    }
  }

  ghost predicate InBoth(before: Index, after: Index, path: Bytes) {
    (path in after <==> path in before) && (path in before ==> after[path] == before[path])
  }

  /** What dropping takes away and answers: the manifest and the tokens, of
      index and working tree; the answer names the artifacts the index had, the
      manifest if it was a file, and the token directory if it held any. */
  lemma DroppedExact(index: Index, worktree: Worktree, path: Bytes)
    ensures path in WithoutArtifacts(index) <==>
            path in index && path != ".tydence/manifest" && !(".tydence/tokens/" <= path)
    ensures path in WithoutArtifacts(worktree) <==>
            path in worktree && path != ".tydence/manifest" && !(".tydence/tokens/" <= path)
    ensures path in WithoutArtifacts(index) ==> WithoutArtifacts(index)[path] == index[path]
    ensures path in WithoutArtifacts(worktree) ==> WithoutArtifacts(worktree)[path] == worktree[path]
    ensures path in Dropped(index, worktree) <==>
            || (path in index && (path == ".tydence/manifest" || ".tydence/tokens/" <= path))
            || (path in worktree && path == ".tydence/manifest")
            || (path == ".tydence/tokens/" && exists p | p in worktree :: ".tydence/tokens/" <= p)
  {
    ArtifactsByName(path);
    assert TOKENS_PATH + "/" == ".tydence/tokens/";
    forall p: Bytes ensures IsBelow(TOKENS_PATH, p) <==> ".tydence/tokens/" <= p { BelowIsPrefix(TOKENS_PATH, p); }
    hide IsStampArtifact, IsBelow;
  }
}
