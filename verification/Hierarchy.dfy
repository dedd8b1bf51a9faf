/** The map-reduce hierarchy of crp/advanced/hierarchical.py: the planner predicts a number of
    levels, the reduce loop performs rounds of merging, and the two are shown to agree. */
module Hierarchy {

  import opened Common

  const DEFAULT_SEGMENT_SIZE_MULTIPLIER: nat := 100
  const DEFAULT_FAN_IN: nat := 50
  const SEPARATOR: string := "\n\n---\n\n"

  // ---------------------------------------------------------------------------------------------
  // Powers and ceilings

  function Pow(k: nat, e: nat): nat {
    if e == 0 then 1 else k * Pow(k, e - 1)
  }

  /** n / k, rounded up; `CeilDivAtMost` says so. */
  function CeilDiv(n: nat, k: nat): nat
    requires 0 < k
  {
    if n == 0 then 0 else if n <= k then 1 else 1 + CeilDiv(n - k, k)
  }

  lemma MulMonotone(k: nat, x: nat, y: nat)
    requires x <= y
    ensures k * x <= k * y
  {
  }

  lemma {:induction false} PowPositive(k: nat, e: nat)
    requires 0 < k
    ensures 0 < Pow(k, e)
  {
    if e > 0 {
      PowPositive(k, e - 1);
      MulMonotone(k, 1, Pow(k, e - 1));
    }
  }

  lemma {:induction false} PowMonotone(k: nat, d: nat, e: nat)
    requires 0 < k && d <= e
    ensures Pow(k, d) <= Pow(k, e)
    decreases e
  {
    if d < e {
      PowMonotone(k, d, e - 1);
      MulMonotone(Pow(k, e - 1), 1, k);
    }
  }

  lemma {:induction false} PowExceeds(k: nat, e: nat)
    requires 2 <= k
    ensures e < Pow(k, e)
  {
    if e > 0 {
      PowExceeds(k, e - 1);
      MulMonotone(Pow(k, e - 1), 2, k);
    }
  }

  lemma {:induction false} PowOne(e: nat)
    ensures Pow(1, e) == 1
  {
    if e > 0 {
      PowOne(e - 1);
    }
  }

  /** The ceiling of n / k is the least q with n <= k q. */
  lemma {:induction false} CeilDivAtMost(n: nat, k: nat, q: nat)
    requires 0 < k
    ensures CeilDiv(n, k) <= q <==> n <= k * q
    decreases n
  {
    if 0 < n {
      if q == 0 {
        assert k * q == 0;
      } else {
        assert k * q == k + k * (q - 1);
        if k < n {
          CeilDivAtMost(n - k, k, q - 1);
        }
      }
    }
  }

  lemma MulAssociates(m: nat, k: nat, q: nat)
    ensures m * (k * q) == (k * m) * q
  {
  }

  lemma {:induction false} NestedCeilAtMost(n: nat, m: nat, k: nat, q: nat)
    requires 0 < m && 0 < k && 0 < k * m
    ensures CeilDiv(CeilDiv(n, m), k) <= q <==> CeilDiv(n, k * m) <= q
  {
    CeilDivAtMost(CeilDiv(n, m), k, q);
    CeilDivAtMost(n, m, k * q);
    CeilDivAtMost(n, k * m, q);
    MulAssociates(m, k, q);
  }

  /** Nested ceilings collapse: ceil(ceil(n / m) / k) == ceil(n / (k m)). */
  lemma {:induction false} NestedCeil(n: nat, m: nat, k: nat)
    requires 0 < m && 0 < k && 0 < k * m
    ensures CeilDiv(CeilDiv(n, m), k) == CeilDiv(n, k * m)
  {
    hide CeilDiv;
    NestedCeilAtMost(n, m, k, CeilDiv(CeilDiv(n, m), k));
    NestedCeilAtMost(n, m, k, CeilDiv(n, k * m));
  }

  // ---------------------------------------------------------------------------------------------
  // The plan

  /** The least L >= 1 with k^L >= n: the ceiling of log n over log k, never below one. */
  function Levels(n: nat, k: nat): (l: nat)
    requires 2 <= k
    ensures 1 <= l && n <= Pow(k, l)
    ensures forall i | 1 <= i < l :: Pow(k, i) < n
  {
    LevelsFrom(n, k, 1)
  }

  function LevelsFrom(n: nat, k: nat, l: nat): (r: nat)
    requires 2 <= k
    ensures l <= r && n <= Pow(k, r)
    ensures forall i | l <= i < r :: Pow(k, i) < n
    decreases n - l
  {
    PowExceeds(k, l);
    if n <= Pow(k, l) then l else LevelsFrom(n, k, l + 1)
  }

  function PowReal(x: real, e: nat): real {
    if e == 0 then 1.0 else x * PowReal(x, e - 1)
  }

  /** 1 - (1 - perLevel)^levels */
  function ChainDegradation(levels: nat, perLevel: real): real {
    1.0 - PowReal(1.0 - perLevel, levels)
  }

  lemma {:induction false} PowRealAdds(x: real, d: nat, e: nat)
    ensures PowReal(x, d + e) == PowReal(x, d) * PowReal(x, e)
    decreases e
  {
    if e > 0 {
      PowRealAdds(x, d, e - 1);
      assert x * (PowReal(x, d) * PowReal(x, e - 1)) == PowReal(x, d) * (x * PowReal(x, e - 1));
    }
  }

  lemma {:induction false} PowRealFraction(x: real, e: nat)
    requires 0.0 <= x <= 1.0
    ensures 0.0 <= PowReal(x, e) <= 1.0
  {
    if e > 0 {
      PowRealFraction(x, e - 1);
      Product(x, PowReal(x, e - 1));
    }
  }

  lemma Product(x: real, y: real)
    requires 0.0 <= x <= 1.0 && 0.0 <= y <= 1.0
    ensures 0.0 <= x * y <= y
  {
  }

  lemma EqualProducts(a: real, b: real, y: real, z: real)
    requires a == y && b == z
    ensures a * b == y * z
  {
  }

  lemma Undegraded(levels: nat, perLevel: real)
    ensures 1.0 - ChainDegradation(levels, perLevel) == PowReal(1.0 - perLevel, levels)
  {
    hide PowReal;
  }

  lemma PowRealOne(x: real)
    ensures PowReal(x, 0) == 1.0 && PowReal(x, 1) == x
  {
    assert PowReal(x, 1) == x * PowReal(x, 0);
  }

  /** No level degrades nothing, and one level by `perLevel`. */
  lemma DegradationOfOne(perLevel: real)
    ensures ChainDegradation(0, perLevel) == 0.0 && ChainDegradation(1, perLevel) == perLevel
  {
    PowRealOne(1.0 - perLevel);
    hide PowReal;
  }

  /** Degradation compounds: what two stretches of levels leave is the product of what each of them
      leaves. */
  lemma DegradationCompounds(d: nat, e: nat, perLevel: real)
    ensures 1.0 - ChainDegradation(d + e, perLevel) ==
            (1.0 - ChainDegradation(d, perLevel)) * (1.0 - ChainDegradation(e, perLevel))
  {
    var x := 1.0 - perLevel;
    hide *;
    PowRealAdds(x, d, e);
    Undegraded(d, perLevel);
    Undegraded(e, perLevel);
    Undegraded(d + e, perLevel);
    EqualProducts(1.0 - ChainDegradation(d, perLevel), 1.0 - ChainDegradation(e, perLevel),
                  PowReal(x, d), PowReal(x, e));
  }

  /** It is a share, and grows with the number of levels. */
  lemma DegradationGrows(d: nat, e: nat, perLevel: real)
    requires 0.0 <= perLevel <= 1.0
    ensures 0.0 <= ChainDegradation(d, perLevel) <= ChainDegradation(d + e, perLevel) <= 1.0
  {
    var x := 1.0 - perLevel;
    var y, z := PowReal(x, d), PowReal(x, e);
    PowRealAdds(x, d, e);
    PowRealFraction(x, d);
    PowRealFraction(x, e);
    hide PowReal;
    Product(z, y);
    assert PowReal(x, d + e) == z * y;
  }

  const PER_LEVEL: real := 0.03

  datatype Plan = Plan(
    totalTokens: nat,
    segmentCount: nat,
    segmentSize: nat,
    fanIn: nat,
    hierarchyLevels: nat,
    estimatedDegradation: real,
    multiLevel: bool)

  datatype Config = Config(segmentSize: Option<nat>, fanIn: Option<nat>)

  /** `a or b`: an absent or zero setting takes the default. */
  function OrDefault(setting: Option<nat>, default: nat): nat {
    if setting.None? || setting.value == 0 then default else setting.value
  }

  function MakePlan(totalTokens: nat, config: Config, contextWindow: nat): (p: Plan)
    requires 0 < contextWindow
    ensures 1 <= p.segmentCount && 1 <= p.fanIn
    ensures totalTokens <= p.segmentSize * p.segmentCount
    ensures 1 < p.segmentCount ==> p.segmentSize * (p.segmentCount - 1) < totalTokens
  {
    var segmentSize := OrDefault(config.segmentSize, DEFAULT_SEGMENT_SIZE_MULTIPLIER * contextWindow);
    var fanIn := OrDefault(config.fanIn, DEFAULT_FAN_IN);
    var segmentCount := Max(1, CeilDiv(totalTokens, segmentSize));
    CeilDivAtMost(totalTokens, segmentSize, segmentCount);
    CeilDivAtMost(totalTokens, segmentSize, segmentCount - 1);
    var levels := Levels(Max(segmentCount, 2), Max(fanIn, 2));
    Plan(totalTokens, segmentCount, segmentSize, fanIn, levels, ChainDegradation(levels, PER_LEVEL),
         totalTokens > 1000 * contextWindow)
  }

  /** The guards `max(count, 2)` and `max(fan_in, 2)` only protect the logarithms. */
  lemma PlanLevels(totalTokens: nat, config: Config, contextWindow: nat)
    requires 0 < contextWindow
    ensures var p := MakePlan(totalTokens, config, contextWindow);
            && (2 <= p.fanIn ==> p.hierarchyLevels == Levels(p.segmentCount, p.fanIn))
            && (p.segmentCount == 1 ==> p.hierarchyLevels == 1)
  {
    var p := MakePlan(totalTokens, config, contextWindow);
    FewSegments(Max(p.fanIn, 2));
    hide Levels, CeilDiv, ChainDegradation;
  }

  /** What a plan records, with its defaults: 100 context windows to a segment, a fan-in of 50, three
      percent lost per level, and a second level of hierarchy beyond 1000 context windows. */
  lemma PlanSettings(totalTokens: nat, config: Config, contextWindow: nat)
    requires 0 < contextWindow
    ensures var p := MakePlan(totalTokens, config, contextWindow);
            && p.totalTokens == totalTokens
            && (config.segmentSize in {None, Some(0)} ==> p.segmentSize == 100 * contextWindow)
            && (config.segmentSize !in {None, Some(0)} ==> Some(p.segmentSize) == config.segmentSize)
            && (config.fanIn in {None, Some(0)} ==> p.fanIn == 50)
            && (config.fanIn !in {None, Some(0)} ==> Some(p.fanIn) == config.fanIn)
            && p.estimatedDegradation == ChainDegradation(p.hierarchyLevels, 0.03)
            && (p.multiLevel <==> 1000 * contextWindow < totalTokens)
  {
    hide Levels, CeilDiv, ChainDegradation;
  }

  lemma FewSegments(k: nat)
    requires 2 <= k
    ensures Levels(1, k) == Levels(2, k) == 1
  {
    assert Pow(k, 1) == k by {
      assert Pow(k, 0) == 1;
    }
  }

  // ---------------------------------------------------------------------------------------------
  // One round of reduction

  /** Consecutive slices of k items; the last one may be shorter. */
  function Batches<T>(items: seq<T>, k: nat): seq<seq<T>>
    requires 0 < k
  {
    if items == [] then []
    else if |items| <= k then [items]
    else [items[..k]] + Batches(items[k..], k)
  }

  lemma {:induction false} BatchesPartition<T>(items: seq<T>, k: nat)
    requires 0 < k
    ensures |Batches(items, k)| == CeilDiv(|items|, k)
    ensures Flatten(Batches(items, k)) == items
    ensures forall b | b in Batches(items, k) :: 0 < |b| <= k
    decreases |items|
  {
    if items == [] {
    } else if |items| <= k {
      FlattenCons(items, []);
      assert items + Flatten([]) == items;
      assert [items] + [] == [items];
    } else {
      var first, rest := items[..k], items[k..];
      BatchesPartition(rest, k);
      FlattenCons(first, Batches(rest, k));
      hide Flatten;
      assert first + rest == items;
    }
  }

  function Join(separator: string, parts: seq<string>): string {
    if parts == [] then ""
    else if |parts| == 1 then parts[0]
    else parts[0] + separator + Join(separator, parts[1..])
  }

  /** Joining two non-empty lists puts one separator between their joins. */
  lemma {:induction false} JoinAppend(separator: string, a: seq<string>, b: seq<string>)
    requires a != [] && b != []
    ensures Join(separator, a + b) == Join(separator, a) + separator + Join(separator, b)
    ensures Join(separator, []) == "" && Join(separator, a[..1]) == a[0]
  {
    assert (a + b)[0] == a[0] && (a + b)[1..] == a[1..] + b;
    if |a| == 1 {
      assert a[1..] + b == b;
    } else {
      JoinAppend(separator, a[1..], b);
      AppendAssociates(a[0] + separator, Join(separator, a[1..]), separator);
      AppendAssociates(a[0] + separator, Join(separator, a[1..]) + separator, Join(separator, b));
    }
  }

  lemma SliceShifts<T>(items: seq<T>, k: nat, start: nat)
    requires k <= |items| && start < |items[k..]|
    ensures items[k..][start..Min(start + k, |items[k..]|)] == items[start + k..Min(start + k + k, |items|)]
  {
  }

  /** Where batch `i` lies in the list. */
  lemma {:induction false} BatchAt<T>(items: seq<T>, k: nat, i: nat)
    requires 0 < k && i < |Batches(items, k)|
    ensures Offset(i, k) < |items|
    ensures Batches(items, k)[i] == items[Offset(i, k)..Min(Offset(i, k) + k, |items|)]
    decreases |items|
  {
    assert Offset(0, k) == 0;
    if |items| <= k {
      assert items[0..|items|] == items;
    } else if i > 0 {
      assert Batches(items, k)[i] == Batches(items[k..], k)[i - 1];
      BatchAt(items[k..], k, i - 1);
      assert Offset(i, k) == Offset(i - 1, k) + k;
      hide Offset, Batches;
      SliceShifts(items, k, Offset(i - 1, k));
    }
  }

  function Offset(i: nat, size: nat): nat { i * size }

  /** The model's answer to a prompt naming the batch size, or the first 1000 characters. */
  function Synthesize(dispatch: Option<(nat, string) -> string>, batch: seq<string>): string {
    var joined := Join(SEPARATOR, batch);
    if dispatch.Some? then dispatch.value(|batch|, joined)
    else if |joined| <= 1000 then joined else joined[..1000]
  }

  function SynthesizeAll(dispatch: Option<(nat, string) -> string>, batches: seq<seq<string>>): seq<string> {
    seq(|batches|, i requires 0 <= i < |batches| => Synthesize(dispatch, batches[i]))
  }

  function Round(dispatch: Option<(nat, string) -> string>, items: seq<string>, k: nat): seq<string>
    requires 0 < k
  {
    SynthesizeAll(dispatch, Batches(items, k))
  }

  function Rounds(dispatch: Option<(nat, string) -> string>, items: seq<string>, k: nat, r: nat): seq<string>
    requires 0 < k
  {
    if r == 0 then items else Round(dispatch, Rounds(dispatch, items, k, r - 1), k)
  }

  /** A round turns the i-th k items into one: the model's answer on their number and their texts, with
      a rule between any two; without a model, the first 1000 characters of that. */
  lemma RoundAt(dispatch: Option<(nat, string) -> string>, items: seq<string>, k: nat, i: nat)
    requires 0 < k && i < |Round(dispatch, items, k)|
    ensures Offset(i, k) < |items|
    ensures var batch := items[Offset(i, k)..Min(Offset(i, k) + k, |items|)];
            var text := Join("\n\n---\n\n", batch);
            var r := Round(dispatch, items, k)[i];
            && (dispatch.Some? ==> r == dispatch.value(|batch|, text))
            && (dispatch.None? ==> r <= text && |r| == Min(|text|, 1000))
  {
    BatchAt(items, k, i);
    hide Batches, Offset, Join;
  }

  /** The model repeats what it is given; or there is none, and the text is short enough to be kept. */
  ghost predicate Repeats(dispatch: Option<(nat, string) -> string>, length: nat) {
    if dispatch.Some? then forall n, text :: dispatch.value(n, text) == text else length <= 1000
  }

  lemma {:induction false} JoinBatches(
      dispatch: Option<(nat, string) -> string>, batches: seq<seq<string>>)
    requires forall b | b in batches :: b != []
    requires Repeats(dispatch, |Join(SEPARATOR, Flatten(batches))|)
    ensures Join(SEPARATOR, SynthesizeAll(dispatch, batches)) == Join(SEPARATOR, Flatten(batches))
  {
    if batches != [] {
      var first, rest := batches[0], batches[1..];
      assert first in batches && forall b | b in rest :: b in batches;
      var done := SynthesizeAll(dispatch, batches);
      assert done == [Synthesize(dispatch, first)] + SynthesizeAll(dispatch, rest);
      assert Flatten(batches) == first + Flatten(rest);
      if rest == [] {
        assert first + Flatten(rest) == first;
        assert done == [Join(SEPARATOR, first)];
      } else {
        assert rest[0] in rest && Flatten(rest) == rest[0] + Flatten(rest[1..]);
        JoinAppend(SEPARATOR, first, Flatten(rest));
        JoinBatches(dispatch, rest);
        JoinAppend(SEPARATOR, [Synthesize(dispatch, first)], SynthesizeAll(dispatch, rest));
        assert Join(SEPARATOR, [Synthesize(dispatch, first)]) == Synthesize(dispatch, first);
        hide Join, Flatten, SynthesizeAll;
      }
    }
  }

  lemma RoundKeepsText(dispatch: Option<(nat, string) -> string>, items: seq<string>, k: nat)
    requires 0 < k && Repeats(dispatch, |Join(SEPARATOR, items)|)
    ensures Join(SEPARATOR, Round(dispatch, items, k)) == Join(SEPARATOR, items)
  {
    BatchesPartition(items, k);
    assert Round(dispatch, items, k) == SynthesizeAll(dispatch, Batches(items, k));
    assert forall b | b in Batches(items, k) :: b != [];
    hide *;
    JoinBatches(dispatch, Batches(items, k));
  }

  /** Reduction keeps order and separators: when every synthesis keeps its text, the joined text is the
      same after any number of rounds. */
  lemma {:induction false} RoundsKeepText(
      dispatch: Option<(nat, string) -> string>, items: seq<string>, k: nat, r: nat)
    requires 0 < k && Repeats(dispatch, |Join(SEPARATOR, items)|)
    ensures Join(SEPARATOR, Rounds(dispatch, items, k, r)) == Join(SEPARATOR, items)
    decreases r
  {
    hide Join, Repeats, Round;
    if r > 0 {
      RoundsKeepText(dispatch, items, k, r - 1);
      RoundKeepsText(dispatch, Rounds(dispatch, items, k, r - 1), k);
    }
  }

  lemma {:induction false} CeilDivByOne(n: nat)
    ensures CeilDiv(n, 1) == n
  {
    if n > 1 {
      CeilDivByOne(n - 1);
    }
  }

  /** r rounds leave ceil(n / k^r) items. */
  lemma {:induction false} RoundsLength(dispatch: Option<(nat, string) -> string>, items: seq<string>, k: nat, r: nat)
    requires 0 < k
    ensures 0 < Pow(k, r) && |Rounds(dispatch, items, k, r)| == CeilDiv(|items|, Pow(k, r))
  {
    PowPositive(k, r);
    if r == 0 {
      CeilDivByOne(|items|);
    } else {
      RoundsLength(dispatch, items, k, r - 1);
      BatchesPartition(Rounds(dispatch, items, k, r - 1), k);
      hide CeilDiv;
      NestedCeil(|items|, Pow(k, r - 1), k);
    }
  }

  /** After r rounds at most k items are left exactly when k^(r+1) covers the input. */
  lemma SmallEnoughIff(dispatch: Option<(nat, string) -> string>, items: seq<string>, k: nat, r: nat)
    requires 0 < k
    ensures |Rounds(dispatch, items, k, r)| <= k <==> |items| <= Pow(k, r + 1)
  {
    hide CeilDiv, Rounds;
    RoundsLength(dispatch, items, k, r);
    CeilDivAtMost(|items|, Pow(k, r), k);
    assert Pow(k, r + 1) == k * Pow(k, r);
  }

  /** The reduce loop has a last round exactly when the fan-in shrinks the list or nothing has to
      shrink: with a fan-in of one and two or more syntheses it never ends. */
  lemma ReduceEndsIff(dispatch: Option<(nat, string) -> string>, items: seq<string>, k: nat)
    requires 0 < k
    ensures (exists r: nat :: |Rounds(dispatch, items, k, r)| <= k) <==> (2 <= k || |items| <= 1)
  {
    if 2 <= k {
      var r := Levels(|items|, k) - 1;
      SmallEnoughIff(dispatch, items, k, r);
      assert |Rounds(dispatch, items, k, r)| <= k;
    } else if |items| <= 1 {
      assert |Rounds(dispatch, items, k, 0)| <= k;
    } else {
      forall r: nat
        ensures |Rounds(dispatch, items, k, r)| > k
      {
        SmallEnoughIff(dispatch, items, k, r);
        PowOne(r + 1);
      }
    }
  }

  /** `rounds` is the first round count after which at most k items remain. */
  ghost predicate FirstSmallEnough(dispatch: Option<(nat, string) -> string>, items: seq<string>, k: nat, rounds: nat)
    requires 0 < k
  {
    && |Rounds(dispatch, items, k, rounds)| <= k
    && forall r: nat | r < rounds :: |Rounds(dispatch, items, k, r)| > k
  }

  /** The planner's level count is one more than the number of rounds, and only that number. */
  lemma PlannedRounds(dispatch: Option<(nat, string) -> string>, items: seq<string>, k: nat, rounds: nat)
    requires 2 <= k
    ensures FirstSmallEnough(dispatch, items, k, rounds) <==> rounds + 1 == Levels(|items|, k)
  {
    var l := Levels(|items|, k);
    forall r: nat
      ensures |Rounds(dispatch, items, k, r)| <= k <==> l - 1 <= r
    {
      SmallEnoughIff(dispatch, items, k, r);
      if l <= r + 1 {
        PowMonotone(k, l, r + 1);
      }
    }
    assert |Rounds(dispatch, items, k, l - 1)| <= k;
  }

  // ---------------------------------------------------------------------------------------------
  // The programs

  /** The next slice, and the batches of the rest. */
  lemma BatchesFrom(current: seq<string>, k: nat, i: nat)
    requires 0 < k && i < |current|
    ensures var end := Min(i + k, |current|);
            Batches(current[i..], k) == [current[i..end]] + Batches(current[end..], k)
  {
    var end, rest := Min(i + k, |current|), current[i..];
    assert rest[..end - i] == current[i..end] && rest[end - i..] == current[end..];
    assert |rest| <= k ==> rest[..end - i] == rest;
  }

  /** The slicing loop of a round. */
  method MakeBatches(current: seq<string>, fanIn: nat) returns (batches: seq<seq<string>>)
    requires 0 < fanIn
    ensures batches == Batches(current, fanIn)
  {
    batches := [];
    var i := 0;
    assert current[0..] == current && Batches(current[|current|..], fanIn) == [];
    hide Batches;
    while i < |current|
      invariant 0 <= i
      invariant batches + Batches(current[Min(i, |current|)..], fanIn) == Batches(current, fanIn)
    {
      var end := Min(i + fanIn, |current|);
      BatchesFrom(current, fanIn, i);
      AppendAssociates(batches, [current[i..end]], Batches(current[end..], fanIn));
      batches := batches + [current[i..end]];
      i := i + fanIn;
    }
  }

  /** One pass of the loop body: batch, then synthesise every batch. */
  method RunRound(dispatch: Option<(nat, string) -> string>, current: seq<string>, fanIn: nat)
    returns (nextLevel: seq<string>)
    requires 0 < fanIn
    ensures nextLevel == Round(dispatch, current, fanIn)
  {
    var batches := MakeBatches(current, fanIn);
    hide Batches, Synthesize;
    nextLevel := [];
    for b := 0 to |batches|
      invariant |nextLevel| == b
      invariant forall i | 0 <= i < b :: nextLevel[i] == Synthesize(dispatch, batches[i])
    {
      nextLevel := nextLevel + [Synthesize(dispatch, batches[b])];
    }
  }

  lemma RoundShrinks(dispatch: Option<(nat, string) -> string>, items: seq<string>, k: nat)
    requires 2 <= k < |items|
    ensures |Round(dispatch, items, k)| < |items|
  {
    BatchesPartition(items, k);
    CeilDivShrinks(|items|, k);
  }

  /** The reduce loop, wherever it ends at all (see `ReduceEndsIff`). */
  method ReducePhase(dispatch: Option<(nat, string) -> string>, syntheses: seq<string>, fanIn: nat)
    returns (current: seq<string>, ghost rounds: nat)
    requires 1 <= fanIn && (2 <= fanIn || |syntheses| <= 1)
    ensures FirstSmallEnough(dispatch, syntheses, fanIn, rounds)
    ensures current == Rounds(dispatch, syntheses, fanIn, rounds) && |current| <= fanIn
    ensures rounds == if 2 <= fanIn then Levels(|syntheses|, fanIn) - 1 else 0
  {
    hide Levels, CeilDiv, Round;
    current := syntheses;
    rounds := 0;
    while |current| > fanIn
      invariant 2 <= fanIn || (rounds == 0 && |current| <= 1)
      invariant current == Rounds(dispatch, syntheses, fanIn, rounds)
      invariant forall r: nat | r < rounds :: |Rounds(dispatch, syntheses, fanIn, r)| > fanIn
      decreases |current|
    {
      RoundShrinks(dispatch, current, fanIn);
      current := RunRound(dispatch, current, fanIn);
      rounds := rounds + 1;
    }
    if 2 <= fanIn {
      PlannedRounds(dispatch, syntheses, fanIn, rounds);
    }
  }

  lemma {:induction false} CeilDivShrinks(n: nat, k: nat)
    requires 2 <= k && 0 < n
    ensures 0 < CeilDiv(n, k) <= n
    ensures 1 < n ==> CeilDiv(n, k) < n
  {
    if k < n {
      CeilDivShrinks(n - k, k);
    }
  }

  function FloorDiv(n: nat, k: nat): (q: nat)
    requires 0 < k
    ensures k * q <= n < k * (q + 1)
  {
    n / k
  }

  lemma OffsetStep(i: nat, size: nat, count: nat, n: nat)
    requires i < count && count * size <= n
    ensures Offset(0, size) == 0
    ensures Offset(i + 1, size) == Offset(i, size) + size <= n
  {
    MulMonotone(size, i + 1, count);
  }

  /** The equal cuts of the input, the last one taking the remainder. */
  method Segment(input: string, segmentCount: nat) returns (segments: seq<string>)
    requires 1 <= segmentCount
    ensures |segments| == segmentCount
    ensures Flatten(segments) == input
    ensures forall i | 0 <= i < segmentCount - 1 :: |segments[i]| == FloorDiv(|input|, segmentCount)
  {
    var size := FloorDiv(|input|, segmentCount);
    segments := [];
    OffsetStep(0, size, segmentCount, |input|);
    hide FloorDiv, Offset, Flatten;
    for i := 0 to segmentCount
      invariant |segments| == i
      invariant Offset(i, size) <= |input|
      invariant forall j | 0 <= j < i && j < segmentCount - 1 :: |segments[j]| == size
      invariant Flatten(segments) == if i < segmentCount then input[..Offset(i, size)] else input
    {
      OffsetStep(i, size, segmentCount, |input|);
      var start := Offset(i, size);
      var end := if i < segmentCount - 1 then start + size else |input|;
      FlattenSnoc(segments, input[start..end]);
      assert input[..start] + input[start..end] == input[..end];
      segments := segments + [input[start..end]];
    }
  }

  /** The whole pipeline; `answer` stands for the map phase on one segment. */
  method HierarchicalDispatch(
      answer: (nat, string) -> string,
      dispatch: Option<(nat, string) -> string>,
      input: string,
      totalTokens: nat,
      config: Config,
      contextWindow: nat)
    returns (reduced: seq<string>, plan: Plan, ghost rounds: nat)
    requires 0 < contextWindow
    requires 2 <= OrDefault(config.fanIn, DEFAULT_FAN_IN) ||
             MakePlan(totalTokens, config, contextWindow).segmentCount == 1
    ensures plan == MakePlan(totalTokens, config, contextWindow)
    ensures 1 <= |reduced| <= plan.fanIn
    ensures rounds + 1 == plan.hierarchyLevels
    ensures plan.estimatedDegradation == ChainDegradation(rounds + 1, 0.03)
    ensures exists segments: seq<string>, mapped: seq<string> ::
              && Flatten(segments) == input
              && |mapped| == |segments| == plan.segmentCount
              && (forall i | 0 <= i < |segments| :: mapped[i] == answer(i, segments[i]))
              && reduced == Rounds(dispatch, mapped, plan.fanIn, rounds)
  {
    plan := MakePlan(totalTokens, config, contextWindow);
    PlanLevels(totalTokens, config, contextWindow);
    var segments := Segment(input, plan.segmentCount);
    var mapped: seq<string> := [];
    for i := 0 to |segments|
      invariant |mapped| == i
      invariant forall j | 0 <= j < i :: mapped[j] == answer(j, segments[j])
    {
      mapped := mapped + [answer(i, segments[i])];
    }
    reduced, rounds := ReducePhase(dispatch, mapped, plan.fanIn);
    RoundsLength(dispatch, mapped, plan.fanIn, rounds);
  }
}
