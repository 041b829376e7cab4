/** Verification check 2 (stamping specification, section 7): manifest and
    tree list the same entries, compared in both directions. */
module TreeAgreement {
  import opened Bytes
  import opened Sorting
  import opened ManifestModel

  datatype Disagreement =
    | MissingFromTree(path: Bytes)
    | MissingFromManifest(path: Bytes)
    | ConflictingContent(manifestEntry: Entry, treeEntry: Entry)

  datatype TreeError =
    | DuplicateManifestPath(path: Bytes)
    | DuplicateTreePath(path: Bytes)
    | Disagreements(list: seq<Disagreement>)

  // ----- the ordered index -----

  const PATH_ORDER: (Entry, Entry) -> bool := (a: Entry, b: Entry) => LexLe(a.path, b.path)

  lemma PathOrderIsTotal()
    ensures TotalPreorder(PATH_ORDER)
  {
    forall a: Entry, b: Entry ensures LexLe(a.path, b.path) || LexLe(b.path, a.path) { LexTotal(a.path, b.path); }
    forall a: Entry, b: Entry, c: Entry | LexLe(a.path, b.path) && LexLe(b.path, c.path) ensures LexLe(a.path, c.path) {
      LexTransitive(a.path, b.path, c.path);
    }
  }

  function At(entries: seq<Entry>, path: Bytes): (found: Option<Entry>)
    ensures found.Some? <==> exists e | e in entries :: e.path == path
    ensures found.Some? ==> found.value in entries && found.value.path == path
  {
    if entries == [] then None
    else
      assert entries == [entries[0]] + entries[1..];
      if entries[0].path == path then Some(entries[0]) else At(entries[1..], path)
  }

  /** The path of the first entry that repeats an earlier one's. */
  function FirstRepeat(entries: seq<Entry>): Option<Bytes> {
    if entries == [] then None
    else
      var last := |entries| - 1;
      match FirstRepeat(entries[..last])
      case Some(path) => Some(path)
      case None => if At(entries[..last], entries[last].path).Some? then Some(entries[last].path) else None
  }

  ghost predicate Repeats(entries: seq<Entry>, path: Bytes) {
    exists i, j | 0 <= i < j < |entries| :: entries[i].path == path == entries[j].path
  }

  lemma OneMoreEntry(before: seq<Entry>, entry: Entry)
    ensures DistinctPaths(before + [entry]) <==> DistinctPaths(before) && At(before, entry.path).None?
    ensures At(before, entry.path).Some? ==> Repeats(before + [entry], entry.path)
    ensures forall path | Repeats(before, path) :: Repeats(before + [entry], path)
  {
    var entries := before + [entry];
    assert forall i | 0 <= i < |before| :: entries[i] == before[i] && before[i] in before;
    if At(before, entry.path).Some? {
      var i :| 0 <= i < |before| && before[i] == At(before, entry.path).value;
      assert entries[i].path == entry.path == entries[|before|].path;
    }
    forall path | Repeats(before, path) ensures Repeats(entries, path) {
      var i, j :| 0 <= i < j < |before| && before[i].path == path == before[j].path;
      assert entries[i].path == path == entries[j].path;
    }
    if DistinctPaths(entries) {
      assert forall i, j | 0 <= i < j < |before| :: entries[i].path != entries[j].path;
    }
  }

  lemma {:induction false} FirstRepeatExact(entries: seq<Entry>)
    ensures FirstRepeat(entries).None? <==> DistinctPaths(entries)
    ensures FirstRepeat(entries).Some? ==> Repeats(entries, FirstRepeat(entries).value)
  {
    if entries != [] {
      hide At, Repeats, DistinctPaths;
      var last := |entries| - 1;
      FirstRepeatExact(entries[..last]);
      OneMoreEntry(entries[..last], entries[last]);
      assert entries == entries[..last] + [entries[last]];
    }
  }

  lemma {:induction false} RepeatPersists(entries: seq<Entry>, n: nat)
    requires n <= |entries| && FirstRepeat(entries[..n]).Some?
    ensures FirstRepeat(entries) == FirstRepeat(entries[..n])
    decreases |entries|
  {
    if n == |entries| {
      assert entries[..n] == entries;
    } else {
      var before := entries[..|entries| - 1];
      assert before[..n] == entries[..n];
      RepeatPersists(before, n);
    }
  }

  lemma PathsSeparate(entries: seq<Entry>)
    requires DistinctPaths(entries)
    ensures Separates(PATH_ORDER, entries)
  {
    forall x, y | x in entries && y in entries && PATH_ORDER(x, y) && PATH_ORDER(y, x) ensures x == y {
      LexAntisymmetric(x.path, y.path);
      var i :| 0 <= i < |entries| && entries[i] == x;
      var j :| 0 <= j < |entries| && entries[j] == y;
    }
  }

  /** A map ordered by path, holding these entries. */
  ghost predicate IsIndexOf(rows: seq<Entry>, entries: seq<Entry>) {
    multiset(rows) == multiset(entries) && SortedBy(PATH_ORDER, rows)
  }

  /** Fills a map ordered by path, one insertion at a time, refusing the
      first path already present. */
  method IndexByPath(entries: seq<Entry>) returns (index: Result<seq<Entry>, Bytes>)
    ensures index == match FirstRepeat(entries) case Some(path) => Err(path) case None => Ok(Sort(PATH_ORDER, entries))
  {
    hide FirstRepeat, IsIndexOf, Insert, Sort;
    var rows: seq<Entry> := [];
    NothingIndexed(entries);
    for i := 0 to |entries|
      invariant FirstRepeat(entries[..i]).None?
      invariant IsIndexOf(rows, entries[..i])
    {
      IndexStep(entries, i, rows);
      if At(rows, entries[i].path).Some? { return Err(entries[i].path); }
      rows := Insert(PATH_ORDER, entries[i], rows);
    }
    assert entries[..|entries|] == entries;
    IndexIsSorted(entries, rows);
    return Ok(rows);
  }

  lemma NothingIndexed(entries: seq<Entry>)
    ensures FirstRepeat(entries[..0]).None? && IsIndexOf([], entries[..0])
  {
  }

  lemma SamePaths(rows: seq<Entry>, entries: seq<Entry>, path: Bytes)
    requires multiset(rows) == multiset(entries)
    ensures At(rows, path).Some? == At(entries, path).Some?
  {
    forall e ensures e in rows <==> e in entries {
      assert e in rows <==> e in multiset(rows);
      assert e in entries <==> e in multiset(entries);
    }
  }

  lemma IndexStep(entries: seq<Entry>, i: nat, rows: seq<Entry>)
    requires i < |entries| && FirstRepeat(entries[..i]).None? && IsIndexOf(rows, entries[..i])
    ensures if At(rows, entries[i].path).Some? then FirstRepeat(entries) == Some(entries[i].path)
            else
              FirstRepeat(entries[..i + 1]).None?
              && IsIndexOf(Insert(PATH_ORDER, entries[i], rows), entries[..i + 1])
  {
    hide LexLe, At, Insert;
    var longer := entries[..i + 1];
    assert longer[..i] == entries[..i] && longer == entries[..i] + [entries[i]];
    SamePaths(rows, entries[..i], entries[i].path);
    if At(rows, entries[i].path).Some? {
      RepeatPersists(entries, i + 1);
    } else {
      PathOrderIsTotal();
      InsertSorted(PATH_ORDER, entries[i], rows);
    }
  }

  lemma IndexIsSorted(entries: seq<Entry>, rows: seq<Entry>)
    requires FirstRepeat(entries).None? && IsIndexOf(rows, entries)
    ensures rows == Sort(PATH_ORDER, entries)
  {
    hide LexLe;
    FirstRepeatExact(entries);
    PathsSeparate(entries);
    PathOrderIsTotal();
    SortSorts(PATH_ORDER, entries);
    SeparatesPermutes(entries, rows);
    SortedUnique(PATH_ORDER, rows, Sort(PATH_ORDER, entries));
  }

  lemma SeparatesPermutes(a: seq<Entry>, b: seq<Entry>)
    requires multiset(a) == multiset(b) && Separates(PATH_ORDER, a)
    ensures Separates(PATH_ORDER, b)
  {
    forall x | x in b ensures x in a { assert x in multiset(b); }
  }

  // ----- the comparison -----

  function OfManifestEntry(entry: Entry, tree: seq<Entry>): seq<Disagreement> {
    match At(tree, entry.path)
    case None => [MissingFromTree(entry.path)]
    case Some(held) => if held == entry then [] else [ConflictingContent(entry, held)]
  }

  function Uncovered(manifest: seq<Entry>, tree: seq<Entry>): seq<Disagreement> {
    if manifest == [] then [] else OfManifestEntry(manifest[0], tree) + Uncovered(manifest[1..], tree)
  }

  function Unlisted(manifest: seq<Entry>, tree: seq<Entry>): seq<Disagreement> {
    if tree == [] then []
    else
      (if At(manifest, tree[0].path).None? then [MissingFromManifest(tree[0].path)] else [])
      + Unlisted(manifest, tree[1..])
  }

  function Compare(manifest: seq<Entry>, tree: seq<Entry>): Result<(), TreeError> {
    match FirstRepeat(manifest)
    case Some(path) => Err(DuplicateManifestPath(path))
    case None =>
      match FirstRepeat(tree)
      case Some(path) => Err(DuplicateTreePath(path))
      case None =>
        var manifestIndex, treeIndex := Sort(PATH_ORDER, manifest), Sort(PATH_ORDER, tree);
        var found := Uncovered(manifestIndex, treeIndex) + Unlisted(manifestIndex, treeIndex);
        if found == [] then Ok(()) else Err(Disagreements(found))
  }

  method Run(manifest: seq<Entry>, tree: seq<Entry>) returns (verdict: Result<(), TreeError>)
    ensures verdict == Compare(manifest, tree)
  {
    hide FirstRepeat, Sort;
    var manifestIndex := IndexByPath(manifest);
    if manifestIndex.Err? { return Err(DuplicateManifestPath(manifestIndex.error)); }
    var treeIndex := IndexByPath(tree);
    if treeIndex.Err? { return Err(DuplicateTreePath(treeIndex.error)); }
    var left, right := manifestIndex.value, treeIndex.value;
    var found: seq<Disagreement> := [];
    for i := 0 to |left|
      invariant Uncovered(left, right) == found + Uncovered(left[i..], right)
    {
      assert left[i..][1..] == left[i + 1..];
      Regroup(found, OfManifestEntry(left[i], right), Uncovered(left[i + 1..], right));
      match At(right, left[i].path) {
        case None => found := found + [MissingFromTree(left[i].path)];
        case Some(held) =>
          if held != left[i] { found := found + [ConflictingContent(left[i], held)]; }
      }
    }
    ghost var uncovered := found;
    assert uncovered == Uncovered(left, right);
    for i := 0 to |right|
      invariant uncovered + Unlisted(left, right) == found + Unlisted(left, right[i..])
    {
      assert right[i..][1..] == right[i + 1..];
      var path := right[i].path;
      AppendShift(found, MissingFromManifest(path), Unlisted(left, right[i + 1..]));
      AppendToNothing(Unlisted(left, right[i + 1..]));
      if At(left, path).None? { found := found + [MissingFromManifest(path)]; }
    }
    assert found + [] == found;
    if found == [] { return Ok(()); }
    return Err(Disagreements(found));
  }

  lemma Regroup<T>(a: seq<T>, b: seq<T>, c: seq<T>)
    ensures a + (b + c) == (a + b) + c
    ensures b == [] ==> a + b == a
  {
  }

  // ----- what the verdict means -----

  /** One path on which the sides truly differ, and how. */
  ghost predicate IsDisagreement(manifest: seq<Entry>, tree: seq<Entry>, d: Disagreement) {
    match d
    case MissingFromTree(path) => (exists e | e in manifest :: e.path == path) && forall e | e in tree :: e.path != path
    case MissingFromManifest(path) =>
      (exists e | e in tree :: e.path == path) && forall e | e in manifest :: e.path != path
    case ConflictingContent(a, b) => a in manifest && b in tree && a.path == b.path && a != b
  }

  lemma AtFindsOnly(entries: seq<Entry>, entry: Entry)
    requires DistinctPaths(entries) && entry in entries
    ensures At(entries, entry.path) == Some(entry)
  {
    var found := At(entries, entry.path).value;
    var i :| 0 <= i < |entries| && entries[i] == entry;
    var j :| 0 <= j < |entries| && entries[j] == found;
  }

  lemma {:induction false} UncoveredExact(manifest: seq<Entry>, tree: seq<Entry>)
    requires DistinctPaths(tree)
    ensures forall d :: d in Uncovered(manifest, tree) <==> !d.MissingFromManifest? && IsDisagreement(manifest, tree, d)
  {
    if manifest != [] {
      var rest := manifest[1..];
      UncoveredExact(rest, tree);
      assert manifest == [manifest[0]] + rest;
      hide DistinctPaths;
      forall d: Disagreement ensures d in OfManifestEntry(manifest[0], tree) <==>
        !d.MissingFromManifest? && IsDisagreement([manifest[0]], tree, d)
      {
        if d.ConflictingContent? && d.treeEntry in tree { AtFindsOnly(tree, d.treeEntry); }
      }
      forall d: Disagreement | !d.MissingFromManifest?
        ensures IsDisagreement(manifest, tree, d) <==>
                IsDisagreement([manifest[0]], tree, d) || IsDisagreement(rest, tree, d)
      {
      }
    }
  }

  lemma {:induction false} UnlistedExact(manifest: seq<Entry>, tree: seq<Entry>)
    ensures forall d :: d in Unlisted(manifest, tree) <==> d.MissingFromManifest? && IsDisagreement(manifest, tree, d)
  {
    if tree != [] {
      UnlistedExact(manifest, tree[1..]);
      assert tree == [tree[0]] + tree[1..];
    }
  }

  /** The disagreements reported are exactly the disagreements there are. */
  lemma ReportsEveryDisagreement(manifest: seq<Entry>, tree: seq<Entry>)
    requires DistinctPaths(manifest) && DistinctPaths(tree)
    ensures match Compare(manifest, tree)
            case Ok(_) => forall d :: !IsDisagreement(manifest, tree, d)
            case Err(error) =>
              error.Disagreements? && error.list != []
              && forall d :: d in error.list <==> IsDisagreement(manifest, tree, d)
  {
    hide IsDisagreement, FirstRepeat, DistinctPaths;
    FirstRepeatExact(manifest);
    FirstRepeatExact(tree);
    var left, right := Sort(PATH_ORDER, manifest), Sort(PATH_ORDER, tree);
    PathsPermute(tree, right);
    UncoveredExact(left, right);
    UnlistedExact(left, right);
    forall d ensures IsDisagreement(left, right, d) == IsDisagreement(manifest, tree, d) {
      SameMembers(manifest, left, tree, right, d);
    }
    assert forall d :: d in Uncovered(left, right) + Unlisted(left, right) <==>
           d in Uncovered(left, right) || d in Unlisted(left, right);
    var found := Uncovered(left, right) + Unlisted(left, right);
    if found != [] { assert found[0] in found; }
  }

  lemma SameMembers(a: seq<Entry>, b: seq<Entry>, c: seq<Entry>, e: seq<Entry>, d: Disagreement)
    requires multiset(a) == multiset(b) && multiset(c) == multiset(e)
    ensures IsDisagreement(a, c, d) == IsDisagreement(b, e, d)
  {
    forall x ensures x in a <==> x in b { assert x in a <==> x in multiset(a); assert x in b <==> x in multiset(b); }
    forall x ensures x in c <==> x in e { assert x in c <==> x in multiset(c); assert x in e <==> x in multiset(e); }
  }

  /** Check 2 passes if and only if neither side lists a path twice and both
      list the same entries. */
  lemma AgreementExact(manifest: seq<Entry>, tree: seq<Entry>)
    ensures Compare(manifest, tree).Ok? <==>
            DistinctPaths(manifest) && DistinctPaths(tree) && multiset(manifest) == multiset(tree)
  {
    hide FirstRepeat, Sort, Uncovered, Unlisted, DistinctPaths, IsDisagreement;
    FirstRepeatExact(manifest);
    FirstRepeatExact(tree);
    if DistinctPaths(manifest) && DistinctPaths(tree) {
      ReportsEveryDisagreement(manifest, tree);
      if Compare(manifest, tree).Ok? {
        SameEntries(manifest, tree);
      } else if multiset(manifest) == multiset(tree) {
        assert Compare(manifest, tree).error.list[0] in Compare(manifest, tree).error.list;
        NeverDisagrees(manifest, tree);
      }
    }
  }

  lemma NeverDisagrees(manifest: seq<Entry>, tree: seq<Entry>)
    requires multiset(manifest) == multiset(tree) && DistinctPaths(tree)
    ensures forall d :: !IsDisagreement(manifest, tree, d)
  {
    forall d ensures !IsDisagreement(manifest, tree, d) {
      SameMembers(manifest, tree, tree, tree, d);
      NeverWithItself(tree, d);
    }
  }

  lemma NeverWithItself(entries: seq<Entry>, d: Disagreement)
    requires DistinctPaths(entries)
    ensures !IsDisagreement(entries, entries, d)
  {
    if d.ConflictingContent? && d.manifestEntry in entries && d.treeEntry in entries {
      AtFindsOnly(entries, d.manifestEntry);
      AtFindsOnly(entries, d.treeEntry);
    }
  }

  lemma SameEntries(manifest: seq<Entry>, tree: seq<Entry>)
    requires DistinctPaths(manifest) && DistinctPaths(tree)
    requires forall d :: !IsDisagreement(manifest, tree, d)
    ensures multiset(manifest) == multiset(tree)
  {
    forall e | e in manifest ensures e in tree {
      assert !IsDisagreement(manifest, tree, MissingFromTree(e.path));
      var held :| held in tree && held.path == e.path;
      assert !IsDisagreement(manifest, tree, ConflictingContent(e, held));
    }
    forall e | e in tree ensures e in manifest {
      assert !IsDisagreement(manifest, tree, MissingFromManifest(e.path));
      var held :| held in manifest && held.path == e.path;
      assert !IsDisagreement(manifest, tree, ConflictingContent(held, e));
    }
    DistinctPathsAreDistinct(manifest);
    DistinctPathsAreDistinct(tree);
    DistinctByMultiset(manifest);
    DistinctByMultiset(tree);
    forall e ensures multiset(manifest)[e] == multiset(tree)[e] {
      if e in manifest { assert multiset(manifest)[e] == 1 && multiset(tree)[e] == 1; }
      else { assert e !in multiset(manifest) && e !in multiset(tree); }
    }
  }

  lemma DistinctPathsAreDistinct(entries: seq<Entry>)
    requires DistinctPaths(entries)
    ensures Distinct(entries)
  {
  }
}
