/** The character table the path encoding consults: read from the Unicode
    character database, filtered by general category, merged, and searched. */
module UnicodeTable {
  import opened Bytes
  import opened Sorting

  const MAX_U32: nat := 0xFFFF_FFFF
  const CODE_SPACE: nat := 0x11_0000

  datatype CategorizedRange = CategorizedRange(first: nat, last: nat, category: string)

  datatype Range = Range(first: nat, last: nat)

  predicate FirstLe(a: CategorizedRange, b: CategorizedRange) { a.first <= b.first }

  // ----- the source must tile the code space -----

  /** Every code point up to U+10FFFF falls into exactly one range, in order. */
  ghost predicate Tiles(ranges: seq<CategorizedRange>) {
    && ranges != []
    && ranges[0].first == 0
    && ranges[|ranges| - 1].last + 1 == CODE_SPACE
    && (forall i | 0 <= i < |ranges| :: ranges[i].first <= ranges[i].last)
    && (forall i | 0 < i < |ranges| :: ranges[i].first == ranges[i - 1].last + 1)
  }

  /** Rust's checked `u32` addition panics past 32 bits, which rejects. */
  method VerifyPartition(ranges: seq<CategorizedRange>) returns (tiled: bool)
    ensures tiled <==> Tiles(ranges)
  {
    var expectedFirst := 0;
    for i := 0 to |ranges|
      invariant expectedFirst == if i == 0 then 0 else ranges[i - 1].last + 1
      invariant forall k | 0 <= k < i :: ranges[k].first <= ranges[k].last < MAX_U32
      invariant i > 0 ==> ranges[0].first == 0
      invariant forall k | 0 < k < i :: ranges[k].first == ranges[k - 1].last + 1
    {
      var range := ranges[i];
      if range.first != expectedFirst || range.first > range.last { return false; }
      if range.last >= MAX_U32 {
        TilesBounded(ranges, i);
        return false;
      }
      expectedFirst := range.last + 1;
    }
    return expectedFirst == CODE_SPACE;
  }

  lemma {:induction false} TilesOrdered(ranges: seq<CategorizedRange>, i: nat, j: nat)
    requires Tiles(ranges) && i < j < |ranges|
    ensures ranges[i].last < ranges[j].first
    decreases j
  {
    if i + 1 < j { TilesOrdered(ranges, i, j - 1); }
  }

  lemma TilesBounded(ranges: seq<CategorizedRange>, i: nat)
    requires i < |ranges|
    ensures Tiles(ranges) ==> ranges[i].last < CODE_SPACE
  {
    if Tiles(ranges) && i < |ranges| - 1 { TilesOrdered(ranges, i, |ranges| - 1); }
  }

  predicate Covers(range: CategorizedRange, codePoint: nat) {
    range.first <= codePoint <= range.last
  }

  lemma {:induction false} TilePrefix(ranges: seq<CategorizedRange>, n: nat, codePoint: nat)
    requires Tiles(ranges) && 0 < n <= |ranges| && codePoint <= ranges[n - 1].last
    ensures exists i | 0 <= i < n :: Covers(ranges[i], codePoint)
  {
    if Covers(ranges[n - 1], codePoint) {
    } else {
      TilePrefix(ranges, n - 1, codePoint);
    }
  }

  /** A tiling assigns every code point exactly one category. */
  lemma TilesExactlyOnce(ranges: seq<CategorizedRange>, codePoint: nat)
    requires Tiles(ranges) && codePoint < CODE_SPACE
    ensures exists i | 0 <= i < |ranges| :: Covers(ranges[i], codePoint)
    ensures forall i, j | 0 <= i < |ranges| && 0 <= j < |ranges| ::
              Covers(ranges[i], codePoint) && Covers(ranges[j], codePoint) ==> i == j
  {
    TilePrefix(ranges, |ranges|, codePoint);
    forall i, j | 0 <= i < j < |ranges| && Covers(ranges[i], codePoint) ensures !Covers(ranges[j], codePoint) {
      TilesOrdered(ranges, i, j);
    }
  }

  /** Restores code point order and refuses anything that does not tile. */
  method ReadSource(lines: seq<CategorizedRange>) returns (ranges: Option<seq<CategorizedRange>>)
    ensures ranges == if Tiles(Sort(FirstLe, lines)) then Some(Sort(FirstLe, lines)) else None
  {
    var ordered := Sort(FirstLe, lines);
    var tiled := VerifyPartition(ordered);
    return if tiled then Some(ordered) else None;
  }

  // ----- selecting categories -----

  predicate InTable(table: seq<Range>, codePoint: nat) {
    exists i | 0 <= i < |table| :: table[i].first <= codePoint <= table[i].last
  }

  /** Ranges stand in order with at least one code point between them. */
  ghost predicate Separated(table: seq<Range>) {
    && (forall i | 0 <= i < |table| :: table[i].first <= table[i].last)
    && (forall i, j | 0 <= i < j < |table| :: table[i].last + 1 < table[j].first)
  }

  ghost predicate SelectedIn(ranges: seq<CategorizedRange>, matches: string -> bool, codePoint: nat) {
    exists i | 0 <= i < |ranges| :: matches(ranges[i].category) && Covers(ranges[i], codePoint)
  }

  /** Filters by category and merges neighbours in place; selecting nothing
      panics. */
  method Select(ranges: seq<CategorizedRange>, matches: string -> bool) returns (table: Option<seq<Range>>)
    requires Tiles(ranges)
    ensures table.None? <==> forall r | r in ranges :: !matches(r.category)
    ensures table.Some? ==> Separated(table.value) && table.value != []
    ensures table.Some? ==> forall c: nat :: InTable(table.value, c) <==> SelectedIn(ranges, matches, c)
  {
    var merged: seq<Range> := [];
    assert forall c: nat :: !InTable(merged, c) && !SelectedIn(ranges[..0], matches, c);
    hide InTable, SelectedIn;
    for i := 0 to |ranges|
      invariant Separated(merged)
      invariant merged == [] <==> forall k | 0 <= k < i :: !matches(ranges[k].category)
      invariant merged != [] ==> i > 0 && merged[|merged| - 1].last <= ranges[i - 1].last
      invariant forall c: nat :: InTable(merged, c) <==> SelectedIn(ranges[..i], matches, c)
    {
      var range := ranges[i];
      ghost var before := merged;
      assert ranges[..i + 1] == ranges[..i] + [range];
      if matches(range.category) {
        assert merged != [] ==> merged[|merged| - 1].last < range.first;
        var last := |merged| - 1;
        if merged != [] && merged[last].last + 1 == range.first {
          TableExtended(before, range.last);
          merged := merged[last := Range(merged[last].first, range.last)];
        } else {
          merged := merged + [Range(range.first, range.last)];
          TablePushed(before, Range(range.first, range.last));
        }
      }
      SelectedStep(ranges[..i], range, matches);
    }
    assert ranges[..|ranges|] == ranges;
    if merged == [] { return None; }
    return Some(merged);
  }

  lemma TableExtended(table: seq<Range>, newLast: nat)
    requires table != [] && Separated(table) && table[|table| - 1].last <= newLast
    ensures var k := |table| - 1;
            forall c: nat :: InTable(table[k := Range(table[k].first, newLast)], c) <==>
                             InTable(table, c) || table[k].last < c <= newLast
  {
    var k := |table| - 1;
    var extended := table[k := Range(table[k].first, newLast)];
    forall c: nat ensures InTable(extended, c) <==> InTable(table, c) || table[k].last < c <= newLast {
      if InTable(table, c) {
        var i :| 0 <= i < |table| && table[i].first <= c <= table[i].last;
        assert extended[i].first <= c <= extended[i].last;
      }
      if InTable(extended, c) {
        var i :| 0 <= i < |extended| && extended[i].first <= c <= extended[i].last;
        if i < k { assert table[i] == extended[i]; }
      }
      if table[k].last < c <= newLast { assert extended[k].first <= c <= extended[k].last; }
    }
  }

  lemma TablePushed(table: seq<Range>, range: Range)
    ensures forall c: nat :: InTable(table + [range], c) <==> InTable(table, c) || range.first <= c <= range.last
  {
    var pushed := table + [range];
    forall c: nat ensures InTable(pushed, c) <==> InTable(table, c) || range.first <= c <= range.last {
      if InTable(table, c) {
        var i :| 0 <= i < |table| && table[i].first <= c <= table[i].last;
        assert pushed[i].first <= c <= pushed[i].last;
      }
      if range.first <= c <= range.last { assert pushed[|table|].first <= c <= pushed[|table|].last; }
    }
  }

  lemma SelectedStep(ranges: seq<CategorizedRange>, range: CategorizedRange, matches: string -> bool)
    ensures forall c: nat :: SelectedIn(ranges + [range], matches, c) <==>
                             SelectedIn(ranges, matches, c) || (matches(range.category) && Covers(range, c))
  {
    var all := ranges + [range];
    forall c: nat
      ensures SelectedIn(all, matches, c) <==>
              SelectedIn(ranges, matches, c) || (matches(range.category) && Covers(range, c))
    {
      if SelectedIn(ranges, matches, c) {
        var i :| 0 <= i < |ranges| && matches(ranges[i].category) && Covers(ranges[i], c);
        assert all[i] == ranges[i];
      }
      if matches(range.category) && Covers(range, c) { assert all[|ranges|] == range; }
    }
  }

  // ----- searching -----

  /** `binary_search_by` over the table: decides membership exactly. */
  method IsInTable(table: seq<Range>, codePoint: nat) returns (found: bool)
    requires Separated(table)
    ensures found <==> InTable(table, codePoint)
  {
    var low, high := 0, |table|;
    while low < high
      invariant 0 <= low <= high <= |table|
      invariant forall i | 0 <= i < low :: table[i].last < codePoint
      invariant forall i | high <= i < |table| :: codePoint < table[i].first
    {
      var middle := (low + high) / 2;
      if codePoint < table[middle].first {
        high := middle;
      } else if table[middle].last < codePoint {
        low := middle + 1;
      } else {
        return true;
      }
    }
    return false;
  }

  /** From the database to the verdict on one code point: whatever source is
      accepted, the search answers whether the code point's one category
      matches. */
  method Classify(lines: seq<CategorizedRange>, matches: string -> bool, codePoint: nat)
    returns (answer: Option<bool>)
    ensures answer.Some? ==>
              Tiles(Sort(FirstLe, lines))
              && (answer.value <==> exists r | r in lines :: matches(r.category) && Covers(r, codePoint))
    ensures answer.None? ==>
              !Tiles(Sort(FirstLe, lines)) || forall r | r in lines :: !matches(r.category)
  {
    var source := ReadSource(lines);
    if source.None? { return None; }
    ghost var ordered := source.value;
    assert forall r :: r in ordered <==> r in lines by {
      assert forall r :: r in ordered <==> r in multiset(ordered);
      assert forall r :: r in lines <==> r in multiset(lines);
    }
    var table := Select(source.value, matches);
    if table.None? { return None; }
    var found := IsInTable(table.value, codePoint);
    assert found <==> SelectedIn(ordered, matches, codePoint);
    return Some(found);
  }

  /** What the manifest format needs of its pinned table: separated ranges
      that take every code point up to the space and the delete character,
      and none of the visible ASCII ones. */
  ghost predicate PinsAscii(table: seq<Range>) {
    && (forall c: nat | c <= 0x20 :: InTable(table, c))
    && InTable(table, 0x7F)
    && (forall c: nat | 0x21 <= c <= 0x7E :: !InTable(table, c))
  }
}
