/** Protected spans of crp/advanced/auto_ingest.py (lines 118-135): regions that should stay together are
    sorted and merged, in place. */
module ProtectedSpans {

  import opened Common

  /** Characters start (inclusive) to end (exclusive) should stay together. */
  datatype Span = Span(start: nat, end: nat, kind: string)

  predicate InProtected(pos: int, spans: seq<Span>) {
    exists s | s in spans :: s.start <= pos < s.end
  }

  // ---------------------------------------------------------------------------------------------
  // Merging spans

  /** Stable: `s`, which came earlier in the input, goes in front of the spans with its start. */
  function InsertByStart(s: Span, sorted: seq<Span>): seq<Span> {
    if sorted == [] || s.start <= sorted[0].start then [s] + sorted
    else [sorted[0]] + InsertByStart(s, sorted[1..])
  }

  function SortByStart(spans: seq<Span>): seq<Span> {
    if spans == [] then [] else InsertByStart(spans[0], SortByStart(spans[1..]))
  }

  ghost predicate SortedByStart(spans: seq<Span>) {
    forall i, j | 0 <= i < j < |spans| :: spans[i].start <= spans[j].start
  }

  /** No two spans overlap or touch, and they come in order. */
  ghost predicate Separated(spans: seq<Span>) {
    && SortedByStart(spans)
    && forall i, j | 0 <= i < j < |spans| :: spans[i].end < spans[j].start
  }

  /** Spans found by matching never end before they start. */
  ghost predicate Proper(spans: seq<Span>) {
    forall s | s in spans :: s.start <= s.end
  }

  lemma {:induction false} InsertMembers(s: Span, sorted: seq<Span>)
    ensures forall x :: x in InsertByStart(s, sorted) <==> x == s || x in sorted
  {
    if !(sorted == [] || s.start <= sorted[0].start) {
      InsertMembers(s, sorted[1..]);
      assert sorted == [sorted[0]] + sorted[1..];
    }
  }

  lemma {:induction false} InsertSorted(s: Span, sorted: seq<Span>)
    requires SortedByStart(sorted)
    ensures SortedByStart(InsertByStart(s, sorted))
  {
    if !(sorted == [] || s.start <= sorted[0].start) {
      InsertSorted(s, sorted[1..]);
      var rest := InsertByStart(s, sorted[1..]);
      InsertMembers(s, sorted[1..]);
      assert forall i | 0 <= i < |rest| :: rest[i] in rest;
    }
  }

  lemma {:induction false} SortKeeps(spans: seq<Span>)
    ensures SortedByStart(SortByStart(spans))
    ensures forall x :: x in SortByStart(spans) <==> x in spans
    ensures |SortByStart(spans)| == |spans|
  {
    if spans != [] {
      SortKeeps(spans[1..]);
      InsertSorted(spans[0], SortByStart(spans[1..]));
      InsertMembers(spans[0], SortByStart(spans[1..]));
      InsertLength(spans[0], SortByStart(spans[1..]));
    }
  }

  lemma {:induction false} InsertLength(s: Span, sorted: seq<Span>)
    ensures |InsertByStart(s, sorted)| == |sorted| + 1
  {
    if !(sorted == [] || s.start <= sorted[0].start) {
      InsertLength(s, sorted[1..]);
    }
  }

  /** The last merged span swallows `s`, or `s` is appended. */
  function Absorb(merged: seq<Span>, s: Span): seq<Span>
    requires merged != []
  {
    var prev := merged[|merged| - 1];
    if s.start <= prev.end then
      merged[..|merged| - 1] + [Span(prev.start, Max(prev.end, s.end), prev.kind + "+" + s.kind)]
    else
      merged + [s]
  }

  function AbsorbAll(merged: seq<Span>, rest: seq<Span>): seq<Span>
    requires merged != []
    decreases |rest|
  {
    if rest == [] then merged else AbsorbAll(Absorb(merged, rest[0]), rest[1..])
  }

  function MergeSpans(spans: seq<Span>): seq<Span> {
    var sorted := SortByStart(spans);
    if sorted == [] then [] else AbsorbAll(sorted[..1], sorted[1..])
  }

  ghost predicate SamePositions(a: seq<Span>, b: seq<Span>) {
    forall pos: int :: InProtected(pos, a) <==> InProtected(pos, b)
  }

  lemma InProtectedSplits(pos: int, a: seq<Span>, b: seq<Span>)
    ensures InProtected(pos, a + b) <==> InProtected(pos, a) || InProtected(pos, b)
  {
    assert forall x :: x in a + b <==> x in a || x in b;
  }

  lemma AbsorbOrder(merged: seq<Span>, s: Span)
    requires merged != [] && Separated(merged)
    requires merged[|merged| - 1].start <= s.start
    ensures Separated(Absorb(merged, s))
    ensures Absorb(merged, s)[|Absorb(merged, s)| - 1].start <= s.start
    ensures Proper(merged) && s.start <= s.end ==> Proper(Absorb(merged, s))
  {
    var n := |merged| - 1;
    var prev := merged[n];
    if s.start <= prev.end {
      assert Absorb(merged, s) == merged[n := Span(prev.start, Max(prev.end, s.end), prev.kind + "+" + s.kind)];
      hide Absorb;
    }
  }

  lemma AbsorbPositions(merged: seq<Span>, s: Span)
    requires merged != [] && merged[|merged| - 1].start <= s.start
    ensures SamePositions(Absorb(merged, s), merged + [s])
  {
    var front, prev := merged[..|merged| - 1], merged[|merged| - 1];
    var grown := Span(prev.start, Max(prev.end, s.end), prev.kind + "+" + s.kind);
    assert merged == front + [prev];
    forall pos: int
      ensures InProtected(pos, Absorb(merged, s)) <==> InProtected(pos, merged + [s])
    {
      InProtectedSplits(pos, merged, [s]);
      InProtectedSplits(pos, front, [prev]);
      InProtectedSplits(pos, front, [grown]);
      InOne(pos, s);
      InOne(pos, prev);
      InOne(pos, grown);
      hide InProtected;
    }
  }

  lemma InOne(pos: int, s: Span)
    ensures InProtected(pos, [s]) <==> s.start <= pos < s.end
  {
    assert s in [s];
  }

  lemma AppendPositions(a: seq<Span>, b: seq<Span>, tail: seq<Span>)
    requires SamePositions(a, b)
    ensures SamePositions(a + tail, b + tail)
  {
    forall pos: int
      ensures InProtected(pos, a + tail) <==> InProtected(pos, b + tail)
    {
      InProtectedSplits(pos, a, tail);
      InProtectedSplits(pos, b, tail);
    }
  }

  lemma PositionsTransitive(a: seq<Span>, b: seq<Span>, c: seq<Span>)
    requires SamePositions(a, b) && SamePositions(b, c)
    ensures SamePositions(a, c)
  {
  }

  lemma {:induction false} AbsorbAllOrder(merged: seq<Span>, rest: seq<Span>)
    requires merged != [] && Separated(merged) && SortedByStart(rest)
    requires rest != [] ==> merged[|merged| - 1].start <= rest[0].start
    ensures Separated(AbsorbAll(merged, rest))
    ensures Proper(merged) && Proper(rest) ==> Proper(AbsorbAll(merged, rest))
    decreases |rest|
  {
    if rest != [] {
      AbsorbOrder(merged, rest[0]);
      assert rest == [rest[0]] + rest[1..];
      hide Absorb, Separated;
      AbsorbAllOrder(Absorb(merged, rest[0]), rest[1..]);
    }
  }

  lemma {:induction false} AbsorbAllPositions(merged: seq<Span>, rest: seq<Span>)
    requires merged != [] && SortedByStart(rest) && Separated(merged)
    requires rest != [] ==> merged[|merged| - 1].start <= rest[0].start
    ensures SamePositions(AbsorbAll(merged, rest), merged + rest)
    decreases |rest|
  {
    if rest == [] {
      assert merged + rest == merged;
    } else {
      var next := Absorb(merged, rest[0]);
      AbsorbOrder(merged, rest[0]);
      AbsorbPositions(merged, rest[0]);
      assert merged + rest == merged + [rest[0]] + rest[1..];
      hide Absorb, Separated, SamePositions;
      AbsorbAllPositions(next, rest[1..]);
      AppendPositions(next, merged + [rest[0]], rest[1..]);
      PositionsTransitive(AbsorbAll(next, rest[1..]), next + rest[1..], merged + rest);
    }
  }

  /** Merging yields ordered, strictly separated spans over exactly the same positions. */
  lemma MergeSpansKeepsPositions(spans: seq<Span>)
    ensures Separated(MergeSpans(spans))
    ensures SamePositions(MergeSpans(spans), spans)
    ensures Proper(spans) ==> Proper(MergeSpans(spans))
  {
    var sorted := SortByStart(spans);
    SortKeeps(spans);
    assert SamePositions(sorted, spans);
    if sorted != [] {
      AbsorbAllOrder(sorted[..1], sorted[1..]);
      AbsorbAllPositions(sorted[..1], sorted[1..]);
      assert sorted[..1] + sorted[1..] == sorted;
    }
  }

  /** The spans that start at `k`, in their order. */
  function StartingAt(spans: seq<Span>, k: nat): seq<Span> {
    if spans == [] then [] else (if spans[0].start == k then [spans[0]] else []) + StartingAt(spans[1..], k)
  }

  lemma {:induction false} InsertStable(s: Span, sorted: seq<Span>, k: nat)
    requires SortedByStart(sorted)
    ensures StartingAt(InsertByStart(s, sorted), k) == StartingAt([s] + sorted, k)
  {
    assert ([s] + sorted)[1..] == sorted;
    if !(sorted == [] || s.start <= sorted[0].start) {
      InsertStable(s, sorted[1..], k);
      var rest := InsertByStart(s, sorted[1..]);
      assert ([sorted[0]] + rest)[1..] == rest;
      assert ([s] + sorted[1..])[1..] == sorted[1..];
    }
  }

  /** The sort is a stable permutation: the spans with any one start are the same, in the same order. */
  lemma {:induction false} SortStable(spans: seq<Span>, k: nat)
    ensures StartingAt(SortByStart(spans), k) == StartingAt(spans, k)
  {
    if spans != [] {
      var sorted := SortByStart(spans[1..]);
      SortKeeps(spans[1..]);
      SortStable(spans[1..], k);
      InsertStable(spans[0], sorted, k);
      assert ([spans[0]] + sorted)[1..] == sorted;
    }
  }

  /** The kinds of a group of spans, joined by plus signs. */
  function JoinKinds(group: seq<Span>): string
    requires group != []
  {
    var n := |group| - 1;
    if n == 0 then group[0].kind else JoinKinds(group[..n]) + "+" + group[n].kind
  }

  /** `m` reaches from the start of the group to its farthest end, and names all its kinds. */
  ghost predicate Joins(m: Span, group: seq<Span>) {
    && group != [] && m.start == group[0].start && m.kind == JoinKinds(group)
    && (forall s | s in group :: s.end <= m.end) && exists s | s in group :: s.end == m.end
  }

  ghost predicate JoinsAll(merged: seq<Span>, groups: seq<seq<Span>>) {
    |merged| == |groups| && forall i | 0 <= i < |merged| :: Joins(merged[i], groups[i])
  }

  lemma JoinsOne(s: Span)
    ensures Joins(s, [s])
  {
    assert s in [s];
  }

  lemma JoinsMore(m: Span, group: seq<Span>, s: Span)
    requires Joins(m, group)
    ensures Joins(Span(m.start, Max(m.end, s.end), m.kind + "+" + s.kind), group + [s])
  {
    var all := group + [s];
    assert all[..|group|] == group && s in all && forall x | x in group :: x in all;
  }

  lemma AbsorbJoins(merged: seq<Span>, s: Span, groups: seq<seq<Span>>) returns (more: seq<seq<Span>>)
    requires merged != [] && JoinsAll(merged, groups)
    ensures JoinsAll(Absorb(merged, s), more) && Flatten(more) == Flatten(groups) + [s]
  {
    var n := |merged| - 1;
    var front, last := groups[..n], groups[n];
    assert groups == front + [last];
    JoinsOne(s);
    JoinsMore(merged[n], last, s);
    FlattenSnoc(groups, [s]);
    FlattenSnoc(front, last);
    FlattenSnoc(front, last + [s]);
    AppendAssociates(Flatten(front), last, [s]);
    hide Joins, Flatten;
    more := if s.start <= merged[n].end then front + [last + [s]] else groups + [[s]];
  }

  lemma {:induction false} AbsorbAllJoins(merged: seq<Span>, rest: seq<Span>, groups: seq<seq<Span>>)
    returns (more: seq<seq<Span>>)
    requires merged != [] && JoinsAll(merged, groups)
    ensures JoinsAll(AbsorbAll(merged, rest), more) && Flatten(more) == Flatten(groups) + rest
    decreases |rest|
  {
    if rest == [] {
      more := groups;
    } else {
      more := AbsorbJoins(merged, rest[0], groups);
      AppendAssociates(Flatten(groups), [rest[0]], rest[1..]);
      assert [rest[0]] + rest[1..] == rest;
      hide JoinsAll, Absorb, Flatten;
      more := AbsorbAllJoins(Absorb(merged, rest[0]), rest[1..], more);
    }
  }

  /** Merging cuts the sorted spans into groups, and each merged span stands for one group. */
  lemma MergedSpansJoin(spans: seq<Span>) returns (groups: seq<seq<Span>>)
    ensures Flatten(groups) == SortByStart(spans) && JoinsAll(MergeSpans(spans), groups)
  {
    var sorted := SortByStart(spans);
    groups := [];
    if sorted != [] {
      JoinsOne(sorted[0]);
      FlattenSnoc([], sorted[..1]);
      assert sorted[..1] + sorted[1..] == sorted;
      assert [] + [sorted[..1]] == [sorted[..1]];
      hide Joins;
      groups := AbsorbAllJoins(sorted[..1], sorted[1..], [sorted[..1]]);
    }
  }

  // ---------------------------------------------------------------------------------------------
  // The program, over span objects that it changes in place

  class ProtectedSpan {
    const start: nat
    var end: nat
    var kind: string

    constructor (start: nat, end: nat, kind: string)
      ensures this.start == start && this.end == end && this.kind == kind
    {
      this.start, this.end, this.kind := start, end, kind;
    }

    function View(): Span
      reads this
    {
      Span(start, end, kind)
    }
  }

  function Views(spans: seq<ProtectedSpan>): (r: seq<Span>)
    reads spans
    ensures |r| == |spans|
    ensures forall i | 0 <= i < |spans| :: r[i] == spans[i].View()
  {
    seq(|spans|, i requires 0 <= i < |spans| reads spans => spans[i].View())
  }

  /** What the spans of a set hold now. */
  ghost function Snapshot(spans: set<ProtectedSpan>): map<ProtectedSpan, Span>
    reads spans
  {
    map s | s in spans :: s.View()
  }

  function InsertSpan(s: ProtectedSpan, sorted: seq<ProtectedSpan>): (r: seq<ProtectedSpan>)
    ensures |r| == |sorted| + 1
    ensures s in r && (forall x | x in sorted :: x in r) && forall x | x in r :: x == s || x in sorted
  {
    if sorted == [] || s.start <= sorted[0].start then [s] + sorted
    else
      assert sorted == [sorted[0]] + sorted[1..];
      [sorted[0]] + InsertSpan(s, sorted[1..])
  }

  /** The sort is by start only, which never changes. */
  function SortSpans(spans: seq<ProtectedSpan>): (r: seq<ProtectedSpan>)
    ensures |r| == |spans|
    ensures (forall x | x in spans :: x in r) && forall x | x in r :: x in spans
  {
    if spans == [] then []
    else
      assert spans == [spans[0]] + spans[1..];
      InsertSpan(spans[0], SortSpans(spans[1..]))
  }

  /** The loop body on objects: the last merged span is changed, or the next one is appended. */
  function AbsorbNext<F(==)>(w: World<F, Span>, next: F): (r: World<F, Span>)
    requires Known(w.heap, w.result) && w.result != [] && next in w.heap
    ensures Known(r.heap, r.result) && r.result != [] && r.heap.Keys == w.heap.Keys
  {
    var last := w.result[|w.result| - 1];
    var prev, s := w.heap[last], w.heap[next];
    if s.start <= prev.end then
      w.(heap := w.heap[last := Span(prev.start, Max(prev.end, s.end), prev.kind + "+" + s.kind)])
    else
      w.(result := w.result + [next])
  }

  function AbsorbEach<F(==)>(w: World<F, Span>, rest: seq<F>): (r: World<F, Span>)
    requires Known(w.heap, w.result) && w.result != [] && Known(w.heap, rest)
    ensures Known(r.heap, r.result) && r.result != [] && r.heap.Keys == w.heap.Keys
    decreases |rest|
  {
    if rest == [] then w else AbsorbEach(AbsorbNext(w, rest[0]), rest[1..])
  }

  /** What merging does to the span objects: sorted, they are merged into the objects that come
      first, and the others are left as they are. */
  ghost function MergedWorld(heap: map<ProtectedSpan, Span>, spans: seq<ProtectedSpan>)
    : (w: World<ProtectedSpan, Span>)
    requires Known(heap, spans)
    ensures Known(w.heap, w.result)
  {
    var sorted := SortSpans(spans);
    if sorted == [] then World(heap, []) else AbsorbEach(World(heap, sorted[..1]), sorted[1..])
  }

  ghost predicate StartsHold(heap: map<ProtectedSpan, Span>, spans: seq<ProtectedSpan>) {
    Known(heap, spans) && forall s | s in spans :: heap[s].start == s.start
  }

  lemma {:induction false} InsertSpanViews(
      heap: map<ProtectedSpan, Span>, s: ProtectedSpan, sorted: seq<ProtectedSpan>)
    requires StartsHold(heap, sorted) && s in heap && heap[s].start == s.start
    ensures At(heap, InsertSpan(s, sorted)) == InsertByStart(heap[s], At(heap, sorted))
  {
    if sorted == [] || s.start <= sorted[0].start {
      assert At(heap, [s] + sorted) == [heap[s]] + At(heap, sorted);
    } else {
      var rest := InsertSpan(s, sorted[1..]);
      InsertSpanViews(heap, s, sorted[1..]);
      assert At(heap, sorted)[1..] == At(heap, sorted[1..]);
      assert At(heap, [sorted[0]] + rest) == [heap[sorted[0]]] + At(heap, rest);
    }
  }

  lemma {:induction false} InsertSpanDistinct(s: ProtectedSpan, sorted: seq<ProtectedSpan>)
    requires Distinct(sorted) && s !in sorted
    ensures Distinct(InsertSpan(s, sorted))
  {
    if sorted != [] && sorted[0].start < s.start {
      InsertSpanDistinct(s, sorted[1..]);
      var rest := InsertSpan(s, sorted[1..]);
      assert forall i | 0 <= i < |rest| :: rest[i] in rest;
    }
  }

  lemma {:induction false} SortSpansViews(heap: map<ProtectedSpan, Span>, spans: seq<ProtectedSpan>)
    requires StartsHold(heap, spans)
    ensures At(heap, SortSpans(spans)) == SortByStart(At(heap, spans))
    ensures Distinct(spans) ==> Distinct(SortSpans(spans))
  {
    if spans != [] {
      SortSpansViews(heap, spans[1..]);
      assert At(heap, spans)[1..] == At(heap, spans[1..]);
      InsertSpanViews(heap, spans[0], SortSpans(spans[1..]));
      if Distinct(spans) {
        InsertSpanDistinct(spans[0], SortSpans(spans[1..]));
      }
    }
  }

  lemma AbsorbNextViews<F>(w: World<F, Span>, next: F)
    requires Known(w.heap, w.result) && w.result != [] && next in w.heap && Distinct(w.result)
    ensures var r := AbsorbNext(w, next);
            && At(r.heap, r.result) == Absorb(At(w.heap, w.result), w.heap[next])
            && (r.result == w.result || r.result == w.result + [next])
            && forall f | f in w.heap && f !in w.result :: r.heap[f] == w.heap[f]
  {
  }

  lemma DistinctParts<F>(a: seq<F>, next: F, rest: seq<F>)
    requires Distinct(a + ([next] + rest))
    ensures Distinct(a) && Distinct(a + rest) && Distinct(a + [next] + rest)
    ensures forall i | 0 <= i < |rest| :: rest[i] !in a
  {
    var all := a + ([next] + rest);
    assert a + [next] + rest == all;
    assert forall i | 0 <= i < |a| :: a[i] == all[i];
    assert forall i | 0 <= i < |rest| :: rest[i] == all[|a| + 1 + i];
  }

  lemma {:induction false} AbsorbEachViews<F>(w: World<F, Span>, rest: seq<F>)
    requires Known(w.heap, w.result) && w.result != [] && Known(w.heap, rest)
    requires Distinct(w.result + rest)
    ensures var r := AbsorbEach(w, rest);
            At(r.heap, r.result) == AbsorbAll(At(w.heap, w.result), At(w.heap, rest))
    decreases |rest|
  {
    if rest != [] {
      assert rest == [rest[0]] + rest[1..];
      DistinctParts(w.result, rest[0], rest[1..]);
      AbsorbNextViews(w, rest[0]);
      var next := AbsorbNext(w, rest[0]);
      hide AbsorbNext, Absorb, Distinct;
      assert forall i | 0 <= i < |rest[1..]| :: rest[1..][i] in w.heap;
      assert At(next.heap, rest[1..]) == At(w.heap, rest[1..]);
      assert At(w.heap, rest)[1..] == At(w.heap, rest[1..]);
      AbsorbEachViews(next, rest[1..]);
    }
  }

  lemma AbsorbSorted<F>(heap: map<F, Span>, sorted: seq<F>)
    requires Known(heap, sorted) && sorted != [] && Distinct(sorted)
    ensures var w := AbsorbEach(World(heap, sorted[..1]), sorted[1..]);
            At(w.heap, w.result) == AbsorbAll(At(heap, sorted)[..1], At(heap, sorted)[1..])
  {
    hide AbsorbEach, AbsorbAll;
    assert sorted[..1] + sorted[1..] == sorted;
    AbsorbEachViews(World(heap, sorted[..1]), sorted[1..]);
    assert At(heap, sorted)[..1] == At(heap, sorted[..1]);
    assert At(heap, sorted)[1..] == At(heap, sorted[1..]);
  }

  /** When all spans are distinct objects, the merged ones hold the merge of the values. */
  lemma MergedViews(heap: map<ProtectedSpan, Span>, spans: seq<ProtectedSpan>)
    requires StartsHold(heap, spans) && Distinct(spans)
    ensures var w := MergedWorld(heap, spans); At(w.heap, w.result) == MergeSpans(At(heap, spans))
  {
    SortSpansViews(heap, spans);
    hide SortSpans, SortByStart, AbsorbEach, AbsorbAll, StartsHold, Distinct;
    if SortSpans(spans) != [] {
      AbsorbSorted(heap, SortSpans(spans));
    }
  }

  /** The loop body. */
  method AbsorbSpan(merged: seq<ProtectedSpan>, s: ProtectedSpan, ghost all: set<ProtectedSpan>)
    returns (r: seq<ProtectedSpan>)
    requires merged != [] && Known(Snapshot(all), merged) && s in all
    modifies all
    ensures Known(Snapshot(all), r)
    ensures World(Snapshot(all), r) == AbsorbNext(World(old(Snapshot(all)), merged), s)
  {
    var prev := merged[|merged| - 1];
    assert prev in Snapshot(all);
    r := merged;
    if s.start <= prev.end {
      prev.end, prev.kind := Max(prev.end, s.end), prev.kind + "+" + s.kind;
    } else {
      r := r + [s];
    }
  }

  /** The loop over the sorted spans. */
  method MergeSorted(sorted: seq<ProtectedSpan>, ghost all: set<ProtectedSpan>) returns (merged: seq<ProtectedSpan>)
    requires sorted != [] && Known(Snapshot(all), sorted)
    modifies all
    ensures World(Snapshot(all), merged) == AbsorbEach(World(old(Snapshot(all)), sorted[..1]), sorted[1..])
  {
    ghost var before := World(Snapshot(all), sorted[..1]);
    merged := [sorted[0]];
    assert sorted[..1] == merged;
    for i := 1 to |sorted|
      invariant merged != [] && Known(Snapshot(all), merged)
      invariant AbsorbEach(World(Snapshot(all), merged), sorted[i..]) == AbsorbEach(before, sorted[1..])
    {
      hide AbsorbNext;
      assert sorted[i] in Snapshot(all);
      assert sorted[i..][1..] == sorted[i + 1..];
      merged := AbsorbSpan(merged, sorted[i], all);
    }
  }

  method MergeOverlappingSpans(spans: seq<ProtectedSpan>) returns (merged: seq<ProtectedSpan>)
    modifies spans
    ensures var all := set s | s in spans;
            World(Snapshot(all), merged) == old(MergedWorld(Snapshot(all), spans))
    ensures Distinct(spans) ==> Views(merged) == MergeSpans(old(Views(spans)))
  {
    ghost var all := set s | s in spans;
    ghost var before := Snapshot(all);
    ghost var views := Views(spans);
    assert views == At(before, spans) && StartsHold(before, spans);
    if spans == [] {
      return [];
    }
    var sorted := SortSpans(spans);
    hide SortSpans, AbsorbEach;
    merged := MergeSorted(sorted, all);
    hide MergedWorld, MergeSpans, StartsHold;
    if Distinct(spans) {
      assert Views(merged) == At(Snapshot(all), merged);
      MergedViews(before, spans);
    }
  }
}
