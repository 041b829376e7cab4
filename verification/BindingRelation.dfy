/** The binding relation behind the order: exactly the cyclic relations fail,
    transitive edges make no difference, and neither does the order in which
    the groups are listed. */
module BindingRelation {
  import opened Bytes
  import opened Sorting
  import opened ManifestModel
  import opened BindingOrder

  ghost predicate AllValid(count: nat, edges: seq<Edge>) {
    forall e | e in edges :: IsValidEdge(count, e)
  }

  ghost predicate IsWalk(edges: seq<Edge>, walk: seq<nat>) {
    forall i | 0 < i < |walk| :: Edge(walk[i - 1], walk[i]) in edges
  }

  ghost predicate Connects(edges: seq<Edge>, walk: seq<nat>, from: nat, to: nat) {
    |walk| >= 2 && IsWalk(edges, walk) && walk[0] == from && walk[|walk| - 1] == to
  }

  /** The transitive closure of the edges. */
  ghost predicate Reaches(edges: seq<Edge>, from: nat, to: nat) {
    exists walk :: Connects(edges, walk, from, to)
  }

  ghost predicate HasCycle(edges: seq<Edge>) {
    exists slot :: Reaches(edges, slot, slot)
  }

  // ----- cycles -----

  lemma {:induction false} WalkAscends(count: nat, edges: seq<Edge>, order: seq<nat>, walk: seq<nat>)
    returns (first: nat, last: nat)
    requires IsOrdering(count, edges, order) && AllValid(count, edges)
    requires |walk| >= 2 && IsWalk(edges, walk)
    ensures first < last < |order| && order[first] == walk[0] && order[last] == walk[|walk| - 1]
    decreases |walk|
  {
    var edge := Edge(walk[0], walk[1]);
    assert edge in edges && IsValidEdge(count, edge);
    Onto(count, order, walk[0]);
    Onto(count, order, walk[1]);
    first :| 0 <= first < |order| && order[first] == walk[0];
    last :| 0 <= last < |order| && order[last] == walk[1];
    if |walk| > 2 {
      var rest := walk[1..];
      assert forall i | 0 < i < |rest| :: rest[i - 1] == walk[i] && rest[i] == walk[i + 1];
      var second;
      second, last := WalkAscends(count, edges, order, rest);
    }
  }

  lemma NoOrderingOfCycle(count: nat, edges: seq<Edge>, order: seq<nat>)
    requires IsOrdering(count, edges, order) && AllValid(count, edges)
    ensures !HasCycle(edges)
  {
    if HasCycle(edges) {
      var slot :| Reaches(edges, slot, slot);
      var walk :| Connects(edges, walk, slot, slot);
      var first, last := WalkAscends(count, edges, order, walk);
    }
  }

  /** Where the loop gets stuck: every remaining slot waits for another. */
  lemma {:induction false} GreedyStuck(groups: Groups, edges: seq<Edge>, emitted: seq<nat>) returns (stuck: seq<nat>)
    requires IsEmission(|groups|, edges, emitted) && Greedy(groups, edges, emitted).None?
    ensures IsEmission(|groups|, edges, stuck) && |stuck| < |groups|
    ensures Smallest(groups, edges, stuck, |groups|).None?
    decreases |groups| - |emitted|
  {
    hide IsEmission, IsEmittable, Smallest;
    var slot := Smallest(groups, edges, emitted, |groups|);
    if slot.None? {
      stuck := emitted;
    } else {
      EmissionGrows(|groups|, edges, emitted, slot.value);
      stuck := GreedyStuck(groups, edges, emitted + [slot.value]);
    }
  }

  lemma Waiting(groups: Groups, edges: seq<Edge>, stuck: seq<nat>, slot: nat) returns (binder: nat)
    requires AllValid(|groups|, edges) && Smallest(groups, edges, stuck, |groups|).None?
    requires slot < |groups| && slot !in stuck
    ensures Edge(binder, slot) in edges && binder < |groups| && binder !in stuck
  {
    assert !IsEmittable(edges, stuck, slot) by {
      if IsEmittable(edges, stuck, slot) { SmallestIsLeast(groups, edges, stuck, |groups|, slot); }
    }
    var edge :| edge in edges && edge.bound == slot && edge.binder !in stuck;
    assert IsValidEdge(|groups|, edge);
    binder := edge.binder;
  }

  /** Following who waits for whom, backwards, as far as one likes. */
  lemma {:induction false} WaitingWalk(groups: Groups, edges: seq<Edge>, stuck: seq<nat>, slot: nat, length: nat)
    returns (walk: seq<nat>)
    requires AllValid(|groups|, edges) && Smallest(groups, edges, stuck, |groups|).None?
    requires slot < |groups| && slot !in stuck && length > 0
    ensures |walk| == length && IsWalk(edges, walk) && walk[length - 1] == slot
    ensures forall i | 0 <= i < |walk| :: walk[i] < |groups|
    decreases length
  {
    hide Smallest;
    if length == 1 {
      walk := [slot];
    } else {
      var binder := Waiting(groups, edges, stuck, slot);
      var front := WaitingWalk(groups, edges, stuck, binder, length - 1);
      walk := front + [slot];
    }
  }

  ghost function PositionIn(s: seq<nat>, x: nat): (i: nat)
    requires x in s
    ensures i < |s| && s[i] == x
  {
    var i :| 0 <= i < |s| && s[i] == x;
    i
  }

  /** Fewer than `count` emitted slots leave one out. */
  lemma SomeSlotLeft(count: nat, emitted: seq<nat>) returns (slot: nat)
    requires |emitted| < count
    ensures slot < count && slot !in emitted
  {
    if forall s: nat | s < count :: s in emitted {
      var positions := seq(count, s requires 0 <= s < count => PositionIn(emitted, s));
      assert forall s | 0 <= s < count :: emitted[positions[s]] == s;
      assert Distinct(positions);
      Pigeonhole(|emitted|, positions);
    }
    slot :| slot < count && slot !in emitted;
  }

  lemma StuckIsCyclic(groups: Groups, edges: seq<Edge>)
    requires AllValid(|groups|, edges) && Greedy(groups, edges, []).None?
    ensures HasCycle(edges)
  {
    hide Smallest, Greedy, IsEmission;
    NothingEmitted(|groups|, edges);
    var stuck := GreedyStuck(groups, edges, []);
    var slot := SomeSlotLeft(|groups|, stuck);
    var walk := WaitingWalk(groups, edges, stuck, slot, |groups| + 1);
    Pigeonhole(|groups|, walk);
    var i, j :| 0 <= i < j < |walk| && walk[i] == walk[j];
    var cycle := walk[i..j + 1];
    forall k | 0 < k < |cycle| ensures Edge(cycle[k - 1], cycle[k]) in edges {
      assert Edge(walk[i + k - 1], walk[i + k]) in edges;
    }
    assert Connects(edges, cycle, walk[i], walk[i]);
    assert Reaches(edges, walk[i], walk[i]);
  }

  /** With valid edges, ordering fails if and only if the relation has a
      directed cycle. */
  lemma CycleExact(groups: Groups, edges: seq<Edge>)
    requires AllValid(|groups|, edges)
    ensures Order(groups, edges) == Err(Cycle) <==> HasCycle(edges)
    ensures Order(groups, edges).Ok? <==> !HasCycle(edges)
  {
    hide HasCycle, Smallest, IsEmission;
    if Greedy(groups, edges, []).None? {
      StuckIsCyclic(groups, edges);
    } else {
      NothingEmitted(|groups|, edges);
      GreedyIsOrdering(groups, edges, []);
      hide Greedy, IsOrdering;
      NoOrderingOfCycle(|groups|, edges, Greedy(groups, edges, []).value);
    }
  }

  // ----- transitive edges make no difference -----

  ghost predicate SameClosure(a: seq<Edge>, b: seq<Edge>) {
    forall from, to :: Reaches(a, from, to) <==> Reaches(b, from, to)
  }

  lemma EdgeReaches(edges: seq<Edge>, edge: Edge)
    requires edge in edges
    ensures Reaches(edges, edge.binder, edge.bound)
  {
    assert Connects(edges, [edge.binder, edge.bound], edge.binder, edge.bound);
  }

  lemma ReachesTransitive(edges: seq<Edge>, a: nat, b: nat, c: nat)
    requires Reaches(edges, a, b) && Reaches(edges, b, c)
    ensures Reaches(edges, a, c)
  {
    var front :| Connects(edges, front, a, b);
    var back :| Connects(edges, back, b, c);
    var walk := front + back[1..];
    assert forall i | 0 < i < |walk| ::
        if i < |front| then walk[i - 1] == front[i - 1] && walk[i] == front[i]
        else walk[i - 1] == back[i - |front|] && walk[i] == back[i - |front| + 1];
    assert Connects(edges, walk, a, c);
  }

  lemma {:induction false} WalkReaches(a: seq<Edge>, b: seq<Edge>, walk: seq<nat>)
    requires forall e | e in a :: Reaches(b, e.binder, e.bound)
    requires |walk| >= 2 && IsWalk(a, walk)
    ensures Reaches(b, walk[0], walk[|walk| - 1])
    decreases |walk|
  {
    hide Reaches;
    assert Edge(walk[0], walk[1]) in a;
    if |walk| > 2 {
      var rest := walk[1..];
      assert forall i | 0 < i < |rest| :: rest[i - 1] == walk[i] && rest[i] == walk[i + 1];
      WalkReaches(a, b, rest);
      ReachesTransitive(b, walk[0], walk[1], walk[|walk| - 1]);
    }
  }

  lemma ReachesThrough(a: seq<Edge>, b: seq<Edge>)
    requires forall e | e in a :: Reaches(b, e.binder, e.bound)
    ensures forall from, to | Reaches(a, from, to) :: Reaches(b, from, to)
  {
    forall from, to | Reaches(a, from, to) ensures Reaches(b, from, to) {
      var walk :| Connects(a, walk, from, to);
      WalkReaches(a, b, walk);
    }
  }

  /** Listing the edges directly, transitively closed, or anything between. */
  lemma ClosedListing(direct: seq<Edge>, listed: seq<Edge>)
    requires forall e | e in direct :: e in listed
    requires forall e | e in listed :: Reaches(direct, e.binder, e.bound)
    ensures SameClosure(direct, listed)
  {
    forall e | e in direct ensures Reaches(listed, e.binder, e.bound) { EdgeReaches(listed, e); }
    ReachesThrough(direct, listed);
    ReachesThrough(listed, direct);
  }

  lemma {:induction false} EmittedBackwards(count: nat, edges: seq<Edge>, emitted: seq<nat>, walk: seq<nat>)
    requires IsEmission(count, edges, emitted)
    requires walk != [] && IsWalk(edges, walk) && walk[|walk| - 1] in emitted
    ensures walk[0] in emitted
    decreases |walk|
  {
    if |walk| > 1 {
      var edge := Edge(walk[|walk| - 2], walk[|walk| - 1]);
      assert edge in edges;
      var j := PositionIn(emitted, edge.bound);
      assert edge.binder in emitted[..j];
      EmittedBackwards(count, edges, emitted, walk[..|walk| - 1]);
    }
  }

  /** What is emittable depends on the closure alone. */
  lemma EmittableByClosure(count: nat, edges: seq<Edge>, emitted: seq<nat>, slot: nat)
    requires IsEmission(count, edges, emitted)
    ensures IsEmittable(edges, emitted, slot) <==>
            slot !in emitted && forall from | Reaches(edges, from, slot) :: from in emitted
  {
    if IsEmittable(edges, emitted, slot) {
      forall from | Reaches(edges, from, slot) ensures from in emitted {
        var walk :| Connects(edges, walk, from, slot);
        var front := walk[..|walk| - 1];
        var edge := Edge(walk[|walk| - 2], walk[|walk| - 1]);
        assert edge in edges;
        EmittedBackwards(count, edges, emitted, front);
      }
    }
    if slot !in emitted && forall from | Reaches(edges, from, slot) :: from in emitted {
      forall e | e in edges && e.bound == slot ensures e.binder in emitted { EdgeReaches(edges, e); }
    }
  }

  lemma EmissionByClosure(count: nat, a: seq<Edge>, b: seq<Edge>, emitted: seq<nat>)
    requires IsEmission(count, a, emitted) && SameClosure(a, b)
    ensures IsEmission(count, b, emitted)
  {
    hide Reaches;
    forall e, j | e in b && 0 <= j < |emitted| && emitted[j] == e.bound ensures e.binder in emitted[..j] {
      EdgeReaches(b, e);
      assert Reaches(a, e.binder, e.bound);
      EmissionPrefix(count, a, emitted, j);
      assert IsEmittable(a, emitted[..j], emitted[j]);
      EmittableByClosure(count, a, emitted[..j], emitted[j]);
    }
  }

  lemma EmissionPrefix(count: nat, edges: seq<Edge>, emitted: seq<nat>, n: nat)
    requires IsEmission(count, edges, emitted) && n <= |emitted|
    ensures IsEmission(count, edges, emitted[..n])
  {
    forall e, j | e in edges && 0 <= j < n && emitted[..n][j] == e.bound ensures e.binder in emitted[..n][..j] {
      assert emitted[..n][..j] == emitted[..j] && emitted[j] == e.bound;
    }
  }

  lemma {:induction false} SmallestAlike(groups: Groups, a: seq<Edge>, b: seq<Edge>, emitted: seq<nat>, upTo: nat)
    requires upTo <= |groups|
    requires forall slot :: IsEmittable(a, emitted, slot) <==> IsEmittable(b, emitted, slot)
    ensures Smallest(groups, a, emitted, upTo) == Smallest(groups, b, emitted, upTo)
  {
    hide IsEmittable, LexLe;
    if upTo > 0 { SmallestAlike(groups, a, b, emitted, upTo - 1); }
  }

  lemma {:induction false} GreedyAlike(groups: Groups, a: seq<Edge>, b: seq<Edge>, emitted: seq<nat>)
    requires SameClosure(a, b) && IsEmission(|groups|, a, emitted)
    ensures Greedy(groups, a, emitted) == Greedy(groups, b, emitted)
    decreases |groups| - |emitted|
  {
    hide Reaches, IsEmission, IsEmittable, Smallest;
    if |emitted| < |groups| {
      EmissionByClosure(|groups|, a, b, emitted);
      forall slot ensures IsEmittable(a, emitted, slot) <==> IsEmittable(b, emitted, slot) {
        EmittableByClosure(|groups|, a, emitted, slot);
        EmittableByClosure(|groups|, b, emitted, slot);
      }
      SmallestAlike(groups, a, b, emitted, |groups|);
      var next := Smallest(groups, a, emitted, |groups|);
      if next.Some? {
        EmissionGrows(|groups|, a, emitted, next.value);
        GreedyAlike(groups, a, b, emitted + [next.value]);
      }
    }
  }

  /** Edge lists with the same transitive closure order alike, and fail
      alike. */
  lemma ClosureMakesNoDifference(groups: Groups, a: seq<Edge>, b: seq<Edge>)
    requires AllValid(|groups|, a) && AllValid(|groups|, b) && SameClosure(a, b)
    ensures Order(groups, a) == Order(groups, b)
  {
    hide SameClosure, Smallest, Greedy, IsEmission, IsValidEdge;
    NothingEmitted(|groups|, a);
    GreedyAlike(groups, a, b, []);
  }

  /** Whether the edges are listed directly, transitively closed, or anything
      between: the order is the same, or the same error. */
  lemma TransitiveListingMakesNoDifference(groups: Groups, direct: seq<Edge>, listed: seq<Edge>)
    requires AllValid(|groups|, direct) && AllValid(|groups|, listed)
    requires forall e | e in direct :: e in listed
    requires forall e | e in listed :: Reaches(direct, e.binder, e.bound)
    ensures Order(groups, listed) == Order(groups, direct)
  {
    hide SameClosure, Order, Reaches;
    ClosedListing(direct, listed);
    ClosureMakesNoDifference(groups, direct, listed);
  }

  // ----- neither does the listing order of the groups -----

  /** `moved[i]` is `groups[place[i]]`, and the edges are re-indexed with it. */
  ghost predicate Relisted(groups: Groups, edges: seq<Edge>, moved: Groups, movedEdges: seq<Edge>, place: seq<nat>) {
    && |moved| == |groups| == |place| && Distinct(place)
    && (forall i | 0 <= i < |place| :: place[i] < |groups| && moved[i] == groups[place[i]])
    && AllValid(|groups|, edges) && AllValid(|groups|, movedEdges)
    && (forall a, b | 0 <= a < |place| && 0 <= b < |place| ::
          Edge(a, b) in movedEdges <==> Edge(place[a], place[b]) in edges)
  }

  ghost function Places(place: seq<nat>, slots: seq<nat>): (places: seq<nat>)
    requires forall i | 0 <= i < |slots| :: slots[i] < |place|
    ensures |places| == |slots|
    ensures forall i | 0 <= i < |slots| :: places[i] == place[slots[i]]
  {
    seq(|slots|, i requires 0 <= i < |slots| => place[slots[i]])
  }

  ghost predicate InRange(slots: seq<nat>, count: nat) {
    forall i | 0 <= i < |slots| :: slots[i] < count
  }

  lemma PlaceMember(place: seq<nat>, slots: seq<nat>, slot: nat)
    requires Distinct(place) && InRange(slots, |place|) && slot < |place|
    ensures place[slot] in Places(place, slots) <==> slot in slots
  {
    var places := Places(place, slots);
    if slot in slots {
      var i := PositionIn(slots, slot);
      assert places[i] == place[slot];
    }
    if place[slot] in places {
      var i := PositionIn(places, place[slot]);
      assert place[slots[i]] == place[slot];
      assert slots[i] == slot;
    }
  }

  lemma EmittableMoves(groups: Groups, edges: seq<Edge>, moved: Groups, movedEdges: seq<Edge>, place: seq<nat>,
          emitted: seq<nat>, slot: nat)
    requires Relisted(groups, edges, moved, movedEdges, place) && InRange(emitted, |place|) && slot < |place|
    ensures IsEmittable(movedEdges, emitted, slot) <==> IsEmittable(edges, Places(place, emitted), place[slot])
  {
    var places := Places(place, emitted);
    PlaceMember(place, emitted, slot);
    if IsEmittable(movedEdges, emitted, slot) {
      forall e | e in edges && e.bound == place[slot] ensures e.binder in places {
        assert IsValidEdge(|groups|, e);
        Onto(|groups|, place, e.binder);
        var a := PositionIn(place, e.binder);
        assert Edge(place[a], place[slot]) in edges;
        assert Edge(a, slot) in movedEdges;
        PlaceMember(place, emitted, a);
      }
    }
    if IsEmittable(edges, places, place[slot]) {
      forall e | e in movedEdges && e.bound == slot ensures e.binder in emitted {
        assert IsValidEdge(|groups|, e);
        assert Edge(e.binder, slot) in movedEdges;
        assert Edge(place[e.binder], place[slot]) in edges;
        PlaceMember(place, emitted, e.binder);
      }
    }
  }

  lemma SmallestMoves(groups: Groups, edges: seq<Edge>, moved: Groups, movedEdges: seq<Edge>, place: seq<nat>,
          emitted: seq<nat>)
    requires Relisted(groups, edges, moved, movedEdges, place) && InRange(emitted, |place|) && DistinctSha256(groups)
    ensures var next := Smallest(moved, movedEdges, emitted, |moved|);
            Smallest(groups, edges, Places(place, emitted), |groups|) ==
            if next.None? then None else Some(place[next.value])
  {
    hide IsEmittable, Smallest, LexLe;
    var places := Places(place, emitted);
    var next, there := Smallest(moved, movedEdges, emitted, |moved|), Smallest(groups, edges, places, |groups|);
    if there.Some? {
      Onto(|groups|, place, there.value);
      var back := PositionIn(place, there.value);
      EmittableMoves(groups, edges, moved, movedEdges, place, emitted, back);
      SmallestIsLeast(moved, movedEdges, emitted, |moved|, back);
      EmittableMoves(groups, edges, moved, movedEdges, place, emitted, next.value);
      SmallestIsLeast(groups, edges, places, |groups|, place[next.value]);
      LexAntisymmetric(Key(groups[there.value]), Key(groups[place[next.value]]));
    } else if next.Some? {
      EmittableMoves(groups, edges, moved, movedEdges, place, emitted, next.value);
      SmallestIsLeast(groups, edges, places, |groups|, place[next.value]);
    }
  }

  lemma {:induction false} GreedyMoves(groups: Groups, edges: seq<Edge>, moved: Groups, movedEdges: seq<Edge>,
          place: seq<nat>, emitted: seq<nat>)
    requires Relisted(groups, edges, moved, movedEdges, place) && InRange(emitted, |place|) && DistinctSha256(groups)
    ensures var order := Greedy(moved, movedEdges, emitted);
            order.Some? ==> InRange(order.value, |place|)
    ensures var order := Greedy(moved, movedEdges, emitted);
            Greedy(groups, edges, Places(place, emitted)) ==
            if order.None? then None else Some(Places(place, order.value))
    decreases |groups| - |emitted|
  {
    hide Smallest, Relisted, DistinctSha256;
    assert |moved| == |groups| == |place| by { RelistedLength(groups, edges, moved, movedEdges, place); }
    if |emitted| < |groups| {
      SmallestMoves(groups, edges, moved, movedEdges, place, emitted);
      var next := Smallest(moved, movedEdges, emitted, |moved|);
      if next.Some? {
        assert Places(place, emitted + [next.value]) == Places(place, emitted) + [place[next.value]];
        GreedyMoves(groups, edges, moved, movedEdges, place, emitted + [next.value]);
      }
    }
  }

  lemma RelistedLength(groups: Groups, edges: seq<Edge>, moved: Groups, movedEdges: seq<Edge>, place: seq<nat>)
    requires Relisted(groups, edges, moved, movedEdges, place)
    ensures |moved| == |groups| == |place|
  {
  }

  /** With distinct payloads, listing the groups in another order (and
      re-indexing the edges) yields the same groups in the same order, or the
      same failure. */
  lemma ListingMakesNoDifference(groups: Groups, edges: seq<Edge>, moved: Groups, movedEdges: seq<Edge>,
          place: seq<nat>)
    requires Relisted(groups, edges, moved, movedEdges, place) && DistinctSha256(groups)
    ensures Order(moved, movedEdges) == Order(groups, edges)
  {
    hide Greedy, IsValidEdge;
    GreedyMoves(groups, edges, moved, movedEdges, place, []);
    assert Places(place, []) == [];
    var order := Greedy(moved, movedEdges, []);
    GreedyInRange(groups, edges, []);
    if order.Some? {
      assert Pick(moved, order.value) == Pick(groups, Places(place, order.value));
    }
  }

  /** With a repeated payload it does: of two different groups sharing one and
      bound by no edge, whichever is listed first is emitted first. */
  lemma RepeatedPayloadsDepend(a: BindingGroup, b: BindingGroup)
    requires Key(a) == Key(b) && a != b
    ensures Order([a, b], []) != Order([b, a], [])
    ensures Order([a, b], []) == Ok([a, b])
  {
    RepeatedPayloadsStay(a, b);
    RepeatedPayloadsStay(b, a);
    assert [a, b][0] != [b, a][0];
  }

  lemma RepeatedPayloadsStay(a: BindingGroup, b: BindingGroup)
    requires Key(a) == Key(b)
    ensures Order([a, b], []) == Ok([a, b])
  {
    var groups := [a, b];
    LexReflexive(Key(a));
    assert Smallest(groups, [], [], 1) == Some(0);
    assert Smallest(groups, [], [], 2) == Some(0);
    assert Smallest(groups, [], [0], 1) == None;
    assert Smallest(groups, [], [0], 2) == Some(1);
    hide Smallest, LexLe;
    assert [] + [0] == [0] && [0] + [1] == [0, 1];
    assert Greedy(groups, [], [0, 1]) == Some([0, 1]);
    assert Greedy(groups, [], [0]) == Some([0, 1]);
    assert Pick(groups, [0, 1]) == groups;
  }
}
