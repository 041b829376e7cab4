/** The canonical order of binding groups (stamping specification, section
    4.1): repeatedly emit the smallest payload among the groups no unemitted
    group binds. */
module BindingOrder {
  import opened Bytes
  import opened Sorting
  import opened ManifestModel

  /** `groups[binder]`'s stamp binds `groups[bound]`'s stamp. */
  datatype Edge = Edge(binder: nat, bound: nat)

  datatype OrderError = InvalidEdge(edge: Edge) | Cycle

  type Groups = seq<BindingGroup>

  predicate IsValidEdge(count: nat, edge: Edge) {
    edge.binder < count && edge.bound < count && edge.binder != edge.bound
  }

  // ----- the greedy choice -----

  predicate IsEmittable(edges: seq<Edge>, emitted: seq<nat>, slot: nat) {
    slot !in emitted && forall e | e in edges && e.bound == slot :: e.binder in emitted
  }

  /** The first slot below `upTo` of smallest key among the emittable ones,
      as `min_by_key` picks it. */
  function Smallest(groups: Groups, edges: seq<Edge>, emitted: seq<nat>, upTo: nat): (slot: Option<nat>)
    requires upTo <= |groups|
    ensures slot.Some? ==> slot.value < upTo && IsEmittable(edges, emitted, slot.value)
  {
    if upTo == 0 then None
    else
      var last := upTo - 1;
      var best := Smallest(groups, edges, emitted, last);
      if !IsEmittable(edges, emitted, last) then best
      else if best.None? || !LexLe(Key(groups[best.value]), Key(groups[last])) then Some(last)
      else best
  }

  /** The emission order from a partial one on; `None` when nothing is left to
      emit but slots remain. */
  function Greedy(groups: Groups, edges: seq<Edge>, emitted: seq<nat>): (order: Option<seq<nat>>)
    ensures order.Some? ==> |order.value| >= |groups|
    decreases |groups| - |emitted|
  {
    if |emitted| >= |groups| then Some(emitted)
    else
      match Smallest(groups, edges, emitted, |groups|)
      case Some(slot) => Greedy(groups, edges, emitted + [slot])
      case None => None
  }

  function FirstInvalid(count: nat, edges: seq<Edge>): (found: Option<Edge>)
    ensures found.None? <==> forall e | e in edges :: IsValidEdge(count, e)
  {
    if edges == [] then None
    else if IsValidEdge(count, edges[0]) then FirstInvalid(count, edges[1..])
    else Some(edges[0])
  }

  /** The groups a list of slots stands for. */
  function Pick(groups: Groups, order: seq<nat>): (picked: Groups)
    requires forall i | 0 <= i < |order| :: order[i] < |groups|
    ensures |picked| == |order|
    ensures forall i | 0 <= i < |order| :: picked[i] == groups[order[i]]
  {
    seq(|order|, i requires 0 <= i < |order| => groups[order[i]])
  }

  function Order(groups: Groups, edges: seq<Edge>): Result<Groups, OrderError> {
    match FirstInvalid(|groups|, edges)
    case Some(edge) => Err(InvalidEdge(edge))
    case None =>
      match Greedy(groups, edges, [])
      case Some(order) =>
        GreedyInRange(groups, edges, []);
        Ok(Pick(groups, order))
      case None => Err(Cycle)
  }

  lemma {:induction false} GreedyInRange(groups: Groups, edges: seq<Edge>, emitted: seq<nat>)
    requires forall i | 0 <= i < |emitted| :: emitted[i] < |groups|
    ensures var order := Greedy(groups, edges, emitted);
            order.Some? ==> forall i | 0 <= i < |order.value| :: order.value[i] < |groups|
    decreases |groups| - |emitted|
  {
    hide IsEmittable, Smallest;
    if |emitted| < |groups| {
      var slot := Smallest(groups, edges, emitted, |groups|);
      if slot.Some? { GreedyInRange(groups, edges, emitted + [slot.value]); }
    }
  }

  // ----- the loop of the source -----

  /** Which groups are still in their slots. */
  ghost predicate Occupies(groups: Groups, groupSlots: array<Option<BindingGroup>>, emitted: seq<nat>)
    reads groupSlots
  {
    && groupSlots.Length == |groups|
    && forall i: nat | i < |groups| :: groupSlots[i] == if i in emitted then None else Some(groups[i])
  }

  /** The filters of the source: the slot is occupied and no unemitted group
      binds it. */
  method IsSlotFree(groups: Groups, edges: seq<Edge>, groupSlots: array<Option<BindingGroup>>,
          ghost emitted: seq<nat>, slot: nat)
    returns (isFree: bool)
    requires Occupies(groups, groupSlots, emitted) && slot < |groups|
    requires forall e | e in edges :: IsValidEdge(|groups|, e)
    ensures isFree <==> IsEmittable(edges, emitted, slot)
  {
    isFree := groupSlots[slot].Some?;
    for k := 0 to |edges|
      invariant isFree <==>
                slot !in emitted && forall j | 0 <= j < k && edges[j].bound == slot :: edges[j].binder in emitted
    {
      assert edges[k] in edges;
      if edges[k].bound == slot && groupSlots[edges[k].binder].Some? { isFree := false; }
    }
  }

  method SelectNext(groups: Groups, edges: seq<Edge>, groupSlots: array<Option<BindingGroup>>, ghost emitted: seq<nat>)
    returns (next: Option<nat>)
    requires Occupies(groups, groupSlots, emitted)
    requires forall e | e in edges :: IsValidEdge(|groups|, e)
    ensures next == Smallest(groups, edges, emitted, |groups|)
  {
    hide Occupies, IsEmittable, LexLe;
    next := None;
    assert groupSlots.Length == |groups| by { OccupiesLength(groups, groupSlots, emitted); }
    for slot := 0 to groupSlots.Length
      invariant next == Smallest(groups, edges, emitted, slot)
    {
      var isFree := IsSlotFree(groups, edges, groupSlots, emitted, slot);
      if isFree && (next.None? || !LexLe(Key(groups[next.value]), Key(groups[slot]))) { next := Some(slot); }
    }
  }

  lemma OccupiesLength(groups: Groups, groupSlots: array<Option<BindingGroup>>, emitted: seq<nat>)
    requires Occupies(groups, groupSlots, emitted)
    ensures groupSlots.Length == |groups|
  {
  }

  /** Takes groups out of their slots in place until none is left. */
  method Run(groups: Groups, edges: seq<Edge>) returns (ordered: Result<Groups, OrderError>)
    ensures ordered == Order(groups, edges)
  {
    var invalid := FirstInvalid(|groups|, edges);
    if invalid.Some? { return Err(InvalidEdge(invalid.value)); }
    GreedyInRange(groups, edges, []);
    hide Smallest, IsEmittable, Greedy, IsValidEdge;
    var groupSlots := new Option<BindingGroup>[|groups|](i requires 0 <= i < |groups| => Some(groups[i]));
    var output: Groups := [];
    ghost var emitted: seq<nat> := [];
    while |output| < groupSlots.Length
      invariant Occupies(groups, groupSlots, emitted)
      invariant |emitted| == |output| <= |groups|
      invariant forall i | 0 <= i < |emitted| :: emitted[i] < |groups| && output[i] == groups[emitted[i]]
      invariant Greedy(groups, edges, emitted) == Greedy(groups, edges, [])
      decreases groupSlots.Length - |output|
    {
      var next := SelectNext(groups, edges, groupSlots, emitted);
      GreedyStep(groups, edges, emitted);
      if next.None? { return Err(Cycle); }
      assert next.value !in emitted by { ChosenIsFresh(groups, edges, emitted); }
      output := output + [groups[next.value]];
      groupSlots[next.value] := None;
      emitted := emitted + [next.value];
    }
    assert output == Pick(groups, emitted);
    GreedyDone(groups, edges, emitted);
    return Ok(output);
  }

  lemma GreedyDone(groups: Groups, edges: seq<Edge>, emitted: seq<nat>)
    requires |emitted| >= |groups|
    ensures Greedy(groups, edges, emitted) == Some(emitted)
  {
  }

  lemma ChosenIsFresh(groups: Groups, edges: seq<Edge>, emitted: seq<nat>)
    requires Smallest(groups, edges, emitted, |groups|).Some?
    ensures Smallest(groups, edges, emitted, |groups|).value !in emitted
  {
  }

  lemma GreedyStep(groups: Groups, edges: seq<Edge>, emitted: seq<nat>)
    requires |emitted| < |groups|
    ensures var next := Smallest(groups, edges, emitted, |groups|);
            Greedy(groups, edges, emitted) == if next.None? then None else Greedy(groups, edges, emitted + [next.value])
  {
  }

  // ----- orderings and their comparison -----

  /** Every binder stands before what it binds. */
  ghost predicate Respects(edges: seq<Edge>, order: seq<nat>) {
    forall e, i, j | e in edges && 0 <= i < |order| && 0 <= j < |order| ::
      order[i] == e.binder && order[j] == e.bound ==> i < j
  }

  ghost predicate IsOrdering(count: nat, edges: seq<Edge>, order: seq<nat>) {
    && |order| == count && Distinct(order)
    && (forall i | 0 <= i < |order| :: order[i] < count)
    && Respects(edges, order)
  }

  /** Strictly smaller at the first difference, by the bytes of the sha256
      value. */
  ghost predicate LexBefore(a: seq<BindingGroup>, b: seq<BindingGroup>) {
    exists k | 0 <= k < |a| && k < |b| :: LexBeforeAt(a, b, k)
  }

  ghost predicate LexBeforeAt(a: seq<BindingGroup>, b: seq<BindingGroup>, k: nat)
    requires k < |a| && k < |b|
  {
    && (forall i | 0 <= i < k :: a[i].manifestHashes.sha256 == b[i].manifestHashes.sha256)
    && ComesBefore(a[k].manifestHashes.sha256, b[k].manifestHashes.sha256)
  }

  lemma {:induction false} SmallestIsLeast(groups: Groups, edges: seq<Edge>, emitted: seq<nat>, upTo: nat, other: nat)
    requires other < upTo <= |groups| && IsEmittable(edges, emitted, other)
    ensures var slot := Smallest(groups, edges, emitted, upTo);
            slot.Some? && LexLe(Key(groups[slot.value]), Key(groups[other]))
  {
    hide IsEmittable, LexLe;
    var last := upTo - 1;
    var best := Smallest(groups, edges, emitted, last);
    if other < last {
      SmallestIsLeast(groups, edges, emitted, last, other);
      if IsEmittable(edges, emitted, last) && !LexLe(Key(groups[best.value]), Key(groups[last])) {
        LexTotal(Key(groups[best.value]), Key(groups[last]));
        LexTransitive(Key(groups[last]), Key(groups[best.value]), Key(groups[other]));
      }
    } else {
      LexReflexive(Key(groups[other]));
    }
  }

  /** What holds of every prefix the loop emits. */
  ghost predicate IsEmission(count: nat, edges: seq<Edge>, emitted: seq<nat>) {
    && Distinct(emitted)
    && (forall i | 0 <= i < |emitted| :: emitted[i] < count)
    && (forall e, j | e in edges && 0 <= j < |emitted| && emitted[j] == e.bound :: e.binder in emitted[..j])
  }

  lemma EmissionGrows(count: nat, edges: seq<Edge>, emitted: seq<nat>, slot: nat)
    requires IsEmission(count, edges, emitted) && slot < count && IsEmittable(edges, emitted, slot)
    ensures IsEmission(count, edges, emitted + [slot])
  {
    var grown := emitted + [slot];
    forall e, j | e in edges && 0 <= j < |grown| && grown[j] == e.bound ensures e.binder in grown[..j] {
      if j < |emitted| {
        assert grown[..j] == emitted[..j];
      } else {
        assert grown[..j] == emitted;
      }
    }
  }

  lemma EmissionRespects(count: nat, edges: seq<Edge>, emitted: seq<nat>)
    requires IsEmission(count, edges, emitted)
    ensures Respects(edges, emitted)
  {
    forall e, i, j | e in edges && 0 <= i < |emitted| && 0 <= j < |emitted|
                     && emitted[i] == e.binder && emitted[j] == e.bound
      ensures i < j
    {
      assert e.binder in emitted[..j];
      var k :| 0 <= k < j && emitted[k] == e.binder;
    }
  }

  lemma {:induction false} GreedyIsOrdering(groups: Groups, edges: seq<Edge>, emitted: seq<nat>)
    requires |emitted| <= |groups| && IsEmission(|groups|, edges, emitted)
    ensures var order := Greedy(groups, edges, emitted);
            order.Some? ==>
              emitted <= order.value
              && IsOrdering(|groups|, edges, order.value) && IsEmission(|groups|, edges, order.value)
    decreases |groups| - |emitted|
  {
    hide IsEmittable, Respects, IsEmission, Smallest;
    if |emitted| == |groups| {
      EmissionRespects(|groups|, edges, emitted);
      EmissionFacts(|groups|, edges, emitted);
    } else {
      var slot := Smallest(groups, edges, emitted, |groups|);
      if slot.Some? {
        EmissionGrows(|groups|, edges, emitted, slot.value);
        GreedyIsOrdering(groups, edges, emitted + [slot.value]);
      }
    }
  }

  lemma EmissionFacts(count: nat, edges: seq<Edge>, emitted: seq<nat>)
    requires IsEmission(count, edges, emitted)
    ensures Distinct(emitted) && forall i | 0 <= i < |emitted| :: emitted[i] < count
  {
  }

  lemma NothingEmitted(count: nat, edges: seq<Edge>)
    ensures IsEmission(count, edges, [])
  {
  }

  /** Each slot of the result was the greedy choice at its turn. */
  lemma {:induction false} GreedyTurn(groups: Groups, edges: seq<Edge>, emitted: seq<nat>, k: nat)
    requires |emitted| <= k < |groups|
    requires Greedy(groups, edges, emitted).Some? && emitted <= Greedy(groups, edges, emitted).value
    requires |Greedy(groups, edges, emitted).value| == |groups|
    ensures var order := Greedy(groups, edges, emitted).value;
            Smallest(groups, edges, order[..k], |groups|) == Some(order[k])
    decreases |groups| - |emitted|
  {
    hide Smallest;
    var slot := Smallest(groups, edges, emitted, |groups|).value;
    GreedyExtends(groups, edges, emitted + [slot]);
    var order := Greedy(groups, edges, emitted).value;
    if k == |emitted| {
      assert order[..k] == emitted;
    } else {
      GreedyTurn(groups, edges, emitted + [slot], k);
    }
  }

  lemma {:induction false} GreedyExtends(groups: Groups, edges: seq<Edge>, emitted: seq<nat>)
    ensures var order := Greedy(groups, edges, emitted);
            order.Some? ==> emitted <= order.value
    decreases |groups| - |emitted|
  {
    hide Smallest;
    if |emitted| < |groups| {
      var slot := Smallest(groups, edges, emitted, |groups|);
      if slot.Some? { GreedyExtends(groups, edges, emitted + [slot.value]); }
    }
  }

  /** In any ordering, the slot at `k` is emittable once the slots before it
      are emitted. */
  lemma OrderingIsEmittable(count: nat, edges: seq<Edge>, order: seq<nat>, k: nat)
    requires IsOrdering(count, edges, order) && k < |order|
    requires forall e | e in edges :: IsValidEdge(count, e)
    ensures IsEmittable(edges, order[..k], order[k])
  {
    forall e | e in edges && e.bound == order[k] ensures e.binder in order[..k] {
      Onto(count, order, e.binder);
      var i :| 0 <= i < |order| && order[i] == e.binder;
      assert i < k;
      assert order[..k][i] == e.binder;
    }
  }

  /** `count` distinct slots below `count` are all of them. */
  lemma Onto(count: nat, order: seq<nat>, slot: nat)
    requires |order| == count && Distinct(order) && slot < count
    requires forall i | 0 <= i < |order| :: order[i] < count
    ensures slot in order
  {
    if slot !in order {
      var all := order + [slot];
      assert Distinct(all);
      Pigeonhole(count, all);
    }
  }

  lemma {:induction false} Pigeonhole(count: nat, s: seq<nat>)
    requires |s| > count && forall i | 0 <= i < |s| :: s[i] < count
    ensures !Distinct(s)
  {
    if Distinct(s) {
      var first := s[0];
      if count == 0 {
        assert false;
      } else if count - 1 in s {
        var i :| 0 <= i < |s| && s[i] == count - 1;
        var rest := s[..i] + s[i + 1..];
        assert forall k | 0 <= k < |rest| :: rest[k] == if k < i then s[k] else s[k + 1];
        Pigeonhole(count - 1, rest);
      } else {
        Pigeonhole(count - 1, s);
      }
    }
  }

  lemma FirstDifference(a: seq<nat>, b: seq<nat>) returns (k: nat)
    requires |a| == |b| && a != b
    ensures k < |a| && a[..k] == b[..k] && a[k] != b[k]
  {
    k := 0;
    while a[k] == b[k]
      invariant k < |a| && a[..k] == b[..k]
      invariant exists i | k <= i < |a| :: a[i] != b[i]
      decreases |a| - k
    {
      assert a[..k + 1] == a[..k] + [a[k]] && b[..k + 1] == b[..k] + [b[k]];
      k := k + 1;
    }
  }

  /** Greedy optimality: against any other ordering the greedy one is smaller
      at the first difference. */
  lemma GreedyIsLeast(groups: Groups, edges: seq<Edge>, other: seq<nat>)
    requires DistinctSha256(groups) && forall e | e in edges :: IsValidEdge(|groups|, e)
    requires Greedy(groups, edges, []).Some? && IsOrdering(|groups|, edges, other)
    ensures var order := Greedy(groups, edges, []).value;
            IsOrdering(|groups|, edges, order)
            && (order == other || LexBefore(Pick(groups, order), Pick(groups, other)))
  {
    NothingEmitted(|groups|, edges);
    GreedyIsOrdering(groups, edges, []);
    var order := Greedy(groups, edges, []).value;
    if order != other {
      var k := FirstDifference(order, other);
      GreedyTurn(groups, edges, [], k);
      OrderingIsEmittable(|groups|, edges, other, k);
      SmallestIsLeast(groups, edges, order[..k], |groups|, other[k]);
      LexExact(Key(groups[order[k]]), Key(groups[other[k]]));
      hide IsEmittable, IsOrdering, Greedy, Smallest, LexLe, ComesBefore;
      assert forall i | 0 <= i < k :: order[i] == order[..k][i] && other[i] == other[..k][i];
      assert LexBeforeAt(Pick(groups, order), Pick(groups, other), k);
    }
  }

  /** Nothing outside the list binds the slot any more. */
  ghost predicate IsFree(edges: seq<Edge>, before: seq<nat>, slot: nat) {
    slot !in before && forall e | e in edges && e.bound == slot :: e.binder in before
  }

  /** The slot is taken ahead of another: for its sha256 value, or for its
      place when the values are the same. */
  ghost predicate IsPreferred(groups: Groups, slot: nat, other: nat)
    requires slot < |groups| && other < |groups|
  {
    var a, b := groups[slot].manifestHashes.sha256, groups[other].manifestHashes.sha256;
    ComesBefore(a, b) || (a == b && slot <= other)
  }

  lemma {:induction false} SmallestIsPreferred(groups: Groups, edges: seq<Edge>, emitted: seq<nat>, upTo: nat,
          other: nat)
    requires other < upTo <= |groups| && IsEmittable(edges, emitted, other)
    ensures var slot := Smallest(groups, edges, emitted, upTo);
            slot.Some? && IsPreferred(groups, slot.value, other)
  {
    hide IsEmittable, LexLe, ComesBefore;
    var last := upTo - 1;
    var best := Smallest(groups, edges, emitted, last);
    if other < last { SmallestIsPreferred(groups, edges, emitted, last, other); }
    LexReflexive(Key(groups[last]));
    if best.Some? && IsEmittable(edges, emitted, last) {
      LexExact(Key(groups[best.value]), Key(groups[last]));
      LexExact(Key(groups[last]), Key(groups[best.value]));
      LexTotal(Key(groups[best.value]), Key(groups[last]));
      if other < last && !LexLe(Key(groups[best.value]), Key(groups[last])) {
        LexExact(Key(groups[best.value]), Key(groups[other]));
        LexTransitive(Key(groups[last]), Key(groups[best.value]), Key(groups[other]));
        LexExact(Key(groups[last]), Key(groups[other]));
      }
    }
  }

  /** Every turn of a finished run, ties included: the slot taken is free, and
      preferred to every other free one. */
  lemma GreedyTurnExact(groups: Groups, edges: seq<Edge>, k: nat, other: nat)
    requires Greedy(groups, edges, []).Some? && k < |groups| && other < |groups|
    ensures var order := Greedy(groups, edges, []).value;
            && |order| == |groups| && order[k] < |groups|
            && IsFree(edges, order[..k], order[k])
            && (IsFree(edges, order[..k], other) ==> IsPreferred(groups, order[k], other))
  {
    hide IsPreferred;
    NothingEmitted(|groups|, edges);
    GreedyIsOrdering(groups, edges, []);
    GreedyTurn(groups, edges, [], k);
    var order := Greedy(groups, edges, []).value;
    hide Greedy, Smallest, IsOrdering, IsEmission;
    if IsFree(edges, order[..k], other) {
      SmallestIsPreferred(groups, edges, order[..k], |groups|, other);
    }
  }

  /** The edge names no two different groups, and every one before it does. */
  ghost predicate IsFirstInvalid(count: nat, edges: seq<Edge>, edge: Edge, i: nat) {
    && i < |edges| && edges[i] == edge
    && (edge.binder >= count || edge.bound >= count || edge.binder == edge.bound)
    && forall k | 0 <= k < i :: edges[k].binder < count && edges[k].bound < count && edges[k].binder != edges[k].bound
  }

  lemma InvalidOfRest(count: nat, edges: seq<Edge>, edge: Edge, i: nat)
    requires edges != [] && i > 0
    ensures IsFirstInvalid(count, edges, edge, i) <==>
            IsValidEdge(count, edges[0]) && IsFirstInvalid(count, edges[1..], edge, i - 1)
  {
    var rest := edges[1..];
    if IsFirstInvalid(count, edges, edge, i) {
      assert forall k | 0 <= k < i - 1 :: rest[k] == edges[k + 1];
    }
    if IsFirstInvalid(count, rest, edge, i - 1) { assert forall k | 0 < k < i :: edges[k] == rest[k - 1]; }
  }

  /** An invalid edge is reported exactly when there is one, and it is the
      first. */
  lemma {:induction false} FirstInvalidExact(count: nat, edges: seq<Edge>, edge: Edge)
    ensures FirstInvalid(count, edges) == Some(edge) <==> exists i: nat :: IsFirstInvalid(count, edges, edge, i)
  {
    if edges != [] {
      FirstInvalidExact(count, edges[1..], edge);
      forall i: nat | i > 0
        ensures IsFirstInvalid(count, edges, edge, i) <==>
                IsValidEdge(count, edges[0]) && IsFirstInvalid(count, edges[1..], edge, i - 1)
      {
        InvalidOfRest(count, edges, edge, i);
      }
      assert IsFirstInvalid(count, edges, edge, 0) <==> edges[0] == edge && !IsValidEdge(count, edge);
      hide IsFirstInvalid, IsValidEdge;
      if i: nat :| IsFirstInvalid(count, edges[1..], edge, i) {
        assert IsFirstInvalid(count, edges, edge, i + 1) <==> IsValidEdge(count, edges[0]);
      }
    }
  }
}
