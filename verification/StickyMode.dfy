/** The sticky operating-mode tracker of crp/activation/mode.py (lines 47-137). */
module StickyMode {

  import opened Common

  const FULL_MIN_FACTS: int := 1000
  const FULL_MIN_COMMUNITIES: int := 3
  const PROMOTE_STICKY_SECONDS: real := 60.0
  const DEMOTE_STICKY_SECONDS: real := 300.0

  datatype Mode = ZeroCkf | PartialCkf | FullCkf

  function DetectMode(facts: int, communities: int): Mode {
    if facts <= 0 then ZeroCkf
    else if facts >= FULL_MIN_FACTS && communities >= FULL_MIN_COMMUNITIES then FullCkf
    else PartialCkf
  }

  function Rank(m: Mode): nat {
    match m
    case ZeroCkf => 0
    case PartialCkf => 1
    case FullCkf => 2
  }

  /** How long the target must persist before it replaces the mode. */
  function Required(mode: Mode, target: Mode): real {
    if Rank(target) > Rank(mode) then PROMOTE_STICKY_SECONDS else DEMOTE_STICKY_SECONDS
  }

  datatype Transition = Transition(previous: Mode, current: Mode, transitioned: bool)

  datatype State = State(mode: Mode, candidate: Option<Mode>, since: Option<real>)

  /** A stored time of 0.0 counts as missing. */
  function Elapsed(since: Option<real>, now: real): real {
    now - (if since.Some? && since.value != 0.0 then since.value else now)
  }

  function Next(s: State, target: Mode, now: real): State {
    if target == s.mode then s.(candidate := None, since := None)
    else if s.candidate != Some(target) then s.(candidate := Some(target), since := Some(now))
    else if Elapsed(s.since, now) >= Required(s.mode, target) then State(target, None, None)
    else s
  }

  class ModeState {
    var mode: Mode
    var candidate: Option<Mode>
    var candidateSince: Option<real>

    constructor ()
      ensures Abstract() == Start(ZeroCkf)
    {
      mode, candidate, candidateSince := ZeroCkf, None, None;
    }

    function Abstract(): State
      reads this
    {
      State(mode, candidate, candidateSince)
    }

    method Update(facts: int, communities: int, now: real) returns (t: Transition)
      modifies this
      ensures Abstract() == Next(old(Abstract()), DetectMode(facts, communities), now)
      ensures t == Transition(old(mode), mode, mode != old(mode))
    {
      var target := DetectMode(facts, communities);
      var previous := mode;
      if target == mode {
        candidate, candidateSince := None, None;
        return Transition(previous, mode, false);
      }
      if candidate != Some(target) {
        candidate, candidateSince := Some(target), Some(now);
        return Transition(previous, mode, false);
      }
      var promoting := Rank(target) > Rank(mode);
      var required := if promoting then PROMOTE_STICKY_SECONDS else DEMOTE_STICKY_SECONDS;
      var elapsed := now - (if candidateSince.Some? && candidateSince.value != 0.0 then candidateSince.value else now);
      if elapsed >= required {
        mode := target;
        candidate, candidateSince := None, None;
        return Transition(previous, mode, true);
      }
      return Transition(previous, mode, false);
    }
  }

  // ---------------------------------------------------------------------------------------------
  // Runs

  /** What one update saw. */
  datatype Observation = Observation(target: Mode, now: real)

  function Start(mode: Mode): State { State(mode, None, None) }

  function Run(mode: Mode, obs: seq<Observation>): State {
    if obs == [] then Start(mode)
    else
      var last := obs[|obs| - 1];
      Next(Run(mode, obs[..|obs| - 1]), last.target, last.now)
  }

  /** The effective mode in front of update `k`. */
  function ModeAt(mode: Mode, obs: seq<Observation>, k: nat): Mode
    requires k <= |obs|
  {
    Run(mode, obs[..k]).mode
  }

  /** Update `j` changes the mode. */
  predicate Fires(mode: Mode, obs: seq<Observation>, j: nat)
    requires j < |obs|
  {
    ModeAt(mode, obs, j + 1) != ModeAt(mode, obs, j)
  }

  function Fired(mode: Mode, obs: seq<Observation>): nat {
    if obs == [] then 0
    else Fired(mode, obs[..|obs| - 1]) + (if Fires(mode, obs, |obs| - 1) then 1 else 0)
  }

  /** A clock that never runs backwards. */
  ghost predicate Monotone(obs: seq<Observation>) {
    forall i, j | 0 <= i <= j < |obs| :: obs[i].now <= obs[j].now
  }

  /** And never shows the value that counts as missing. */
  ghost predicate Clock(obs: seq<Observation>) {
    Monotone(obs) && forall i | 0 <= i < |obs| :: obs[i].now != 0.0
  }

  /** Updates i to j all see the same target, which differs from an unchanged mode. */
  ghost predicate Stretch(mode: Mode, obs: seq<Observation>, i: nat, j: nat) {
    && i <= j < |obs|
    && obs[j].target != ModeAt(mode, obs, j)
    && forall k | i <= k <= j :: obs[k].target == obs[j].target && ModeAt(mode, obs, k) == ModeAt(mode, obs, j)
  }

  // ---------------------------------------------------------------------------------------------
  // What the candidate fields stand for

  /** The candidate was first seen by update `i`, and every update since saw it and changed nothing. */
  ghost predicate Pending(mode: Mode, obs: seq<Observation>, n: nat, i: nat)
    requires n <= |obs|
  {
    && i < n && Stretch(mode, obs, i, n - 1)
    && ModeAt(mode, obs, n) == ModeAt(mode, obs, n - 1)
    && Run(mode, obs[..n]).candidate == Some(obs[i].target)
    && Run(mode, obs[..n]).since == Some(obs[i].now)
    && (i == 0 || !Stretch(mode, obs, i - 1, n - 1))
  }

  /** After every update the pending candidate, if any, is the whole unbroken stretch behind it. */
  ghost predicate Tracked(mode: Mode, obs: seq<Observation>, n: nat)
    requires n <= |obs|
  {
    var s := Run(mode, obs[..n]);
    if s.candidate.Some? then exists i: nat :: Pending(mode, obs, n, i)
    else s.since == None && (n > 0 ==> obs[n - 1].target == s.mode)
  }

  lemma RunStep(mode: Mode, obs: seq<Observation>, n: nat)
    requires n < |obs|
    ensures Run(mode, obs[..n + 1]) == Next(Run(mode, obs[..n]), obs[n].target, obs[n].now)
  {
    assert obs[..n + 1][..n] == obs[..n];
  }

  /** A stretch grows by an update that sees the same target while nothing fired. */
  lemma StretchExtends(mode: Mode, obs: seq<Observation>, i: nat, j: nat)
    requires j + 1 < |obs| && obs[j + 1].target == obs[j].target
    requires ModeAt(mode, obs, j + 1) == ModeAt(mode, obs, j)
    ensures i <= j ==> (Stretch(mode, obs, i, j + 1) <==> Stretch(mode, obs, i, j))
  {
    if i <= j && Stretch(mode, obs, i, j + 1) {
      assert obs[j].target == obs[j + 1].target;
    }
  }

  lemma TrackedStep(mode: Mode, obs: seq<Observation>, n: nat)
    requires n < |obs| && Tracked(mode, obs, n)
    ensures Tracked(mode, obs, n + 1)
  {
    RunStep(mode, obs, n);
    hide Run;
    var s, target := Run(mode, obs[..n]), obs[n].target;
    if target != s.mode {
      if s.candidate != Some(target) {
        NewCandidate(mode, obs, n);
      } else if Run(mode, obs[..n + 1]).candidate.Some? {
        var i: nat :| Pending(mode, obs, n, i);
        KeptCandidate(mode, obs, n, i);
      }
      hide Stretch, Pending;
    }
  }

  lemma {:induction false} AlwaysTracked(mode: Mode, obs: seq<Observation>, n: nat)
    requires n <= |obs|
    ensures Tracked(mode, obs, n)
  {
    if n > 0 {
      AlwaysTracked(mode, obs, n - 1);
      TrackedStep(mode, obs, n - 1);
    }
  }

  /** A changed target starts a new stretch: no longer one reaches back past this update. */
  lemma NewCandidate(mode: Mode, obs: seq<Observation>, n: nat)
    requires n < |obs| && Tracked(mode, obs, n)
    requires obs[n].target != ModeAt(mode, obs, n) && Run(mode, obs[..n]).candidate != Some(obs[n].target)
    ensures Pending(mode, obs, n + 1, n)
  {
    RunStep(mode, obs, n);
    assert Stretch(mode, obs, n, n);
    if n > 0 {
      RunStep(mode, obs, n - 1);
      assert obs[n - 1].target != obs[n].target;
    }
  }

  lemma KeptCandidate(mode: Mode, obs: seq<Observation>, n: nat, i: nat)
    requires n < |obs| && Pending(mode, obs, n, i)
    requires obs[n].target != ModeAt(mode, obs, n) && obs[i].target == obs[n].target
    requires Run(mode, obs[..n + 1]).candidate.Some?
    ensures Pending(mode, obs, n + 1, i)
  {
    RunStep(mode, obs, n);
    StretchExtends(mode, obs, i, n - 1);
    if i > 0 {
      StretchExtends(mode, obs, i - 1, n - 1);
    }
  }

  // ---------------------------------------------------------------------------------------------
  // When a change fires

  /** The rule that the documentation states, without candidate or timer. */
  ghost predicate Persisted(mode: Mode, obs: seq<Observation>, j: nat)
    requires j < |obs|
  {
    exists i: nat :: Stretch(mode, obs, i, j) &&
      obs[j].now - obs[i].now >= Required(ModeAt(mode, obs, j), obs[j].target)
  }

  lemma StretchInside(mode: Mode, obs: seq<Observation>, i: nat, j: nat)
    requires Stretch(mode, obs, i, j)
    ensures i <= j < |obs|
  {
  }

  lemma StretchSuffix(mode: Mode, obs: seq<Observation>, h: nat, i: nat, j: nat)
    ensures h < i <= j && Stretch(mode, obs, h, j) ==> Stretch(mode, obs, i - 1, j)
  {
  }

  /** The whole stretch behind update `j`: it does not reach further back. */
  ghost predicate Longest(mode: Mode, obs: seq<Observation>, i: nat, j: nat) {
    Stretch(mode, obs, i, j) && (i == 0 || !Stretch(mode, obs, i - 1, j))
  }

  lemma LongestUnique(mode: Mode, obs: seq<Observation>, h: nat, i: nat, j: nat)
    requires Longest(mode, obs, i, j) && Stretch(mode, obs, h, j)
    ensures i <= h
    ensures Longest(mode, obs, h, j) ==> h == i
  {
    StretchSuffix(mode, obs, h, i, j);
    StretchSuffix(mode, obs, i, h, j);
    StretchInside(mode, obs, i, j);
    StretchInside(mode, obs, h, j);
    hide Stretch;
  }

  lemma {:induction false} LongestExists(mode: Mode, obs: seq<Observation>, h: nat, j: nat) returns (i: nat)
    requires Stretch(mode, obs, h, j)
    ensures i <= h && Longest(mode, obs, i, j)
    decreases h
  {
    hide Stretch;
    if h > 0 && Stretch(mode, obs, h - 1, j) {
      i := LongestExists(mode, obs, h - 1, j);
    } else {
      i := h;
    }
  }

  /** The whole stretch lasted the required time, and its first update was not at 0.0. */
  ghost predicate RanOut(mode: Mode, obs: seq<Observation>, j: nat)
    requires j < |obs|
  {
    exists i: nat :: Longest(mode, obs, i, j) && obs[i].now != 0.0 &&
      obs[j].now - obs[i].now >= Required(ModeAt(mode, obs, j), obs[j].target)
  }

  lemma RanOutAt(mode: Mode, obs: seq<Observation>, j: nat, i: nat)
    requires j < |obs| && Longest(mode, obs, i, j)
    ensures RanOut(mode, obs, j) <==>
              obs[i].now != 0.0 && obs[j].now - obs[i].now >= Required(ModeAt(mode, obs, j), obs[j].target)
  {
    if RanOut(mode, obs, j) {
      var h: nat :| Longest(mode, obs, h, j) && obs[h].now != 0.0 &&
        obs[j].now - obs[h].now >= Required(ModeAt(mode, obs, j), obs[j].target);
      LongestUnique(mode, obs, h, i, j);
    }
    hide Stretch, ModeAt;
  }

  lemma PendingIsLongest(mode: Mode, obs: seq<Observation>, j: nat, i: nat)
    requires j < |obs| && Pending(mode, obs, j, i)
    requires obs[j].target != ModeAt(mode, obs, j) && obs[i].target == obs[j].target
    ensures Longest(mode, obs, i, j)
  {
    StretchExtends(mode, obs, i, j - 1);
    if i > 0 {
      StretchExtends(mode, obs, i - 1, j - 1);
    }
  }

  /** The exact rule, for any clock: an update changes the mode, to its target, when the whole
      stretch behind it lasted the required time and did not begin at 0.0. */
  lemma FiresExact(mode: Mode, obs: seq<Observation>, j: nat)
    requires j < |obs|
    ensures Fires(mode, obs, j) <==> RanOut(mode, obs, j)
    ensures Fires(mode, obs, j) ==> ModeAt(mode, obs, j + 1) == obs[j].target
  {
    AlwaysTracked(mode, obs, j);
    RunStep(mode, obs, j);
    hide Run;
    var s, target := Run(mode, obs[..j]), obs[j].target;
    if target == s.mode {
      assert !RanOut(mode, obs, j);
    } else if s.candidate != Some(target) {
      NewCandidate(mode, obs, j);
      RanOutAt(mode, obs, j, j);
    } else {
      var i: nat :| Pending(mode, obs, j, i);
      PendingIsLongest(mode, obs, j, i);
      RanOutAt(mode, obs, j, i);
    }
  }

  lemma FiresOnlyPersisted(mode: Mode, obs: seq<Observation>, j: nat)
    requires j < |obs| && Fires(mode, obs, j)
    ensures Persisted(mode, obs, j)
    ensures ModeAt(mode, obs, j + 1) == obs[j].target
  {
    FiresExact(mode, obs, j);
    hide Run, Fires, Stretch, ModeAt;
  }

  /** With a clock as one expects it: an update changes the mode exactly when the target it sees has
      persisted, without interruption, for the required time; it then becomes the mode. */
  lemma FiresIffPersisted(mode: Mode, obs: seq<Observation>, j: nat)
    requires Clock(obs) && j < |obs|
    ensures Fires(mode, obs, j) <==> Persisted(mode, obs, j)
    ensures Fires(mode, obs, j) ==> ModeAt(mode, obs, j + 1) == obs[j].target
  {
    FiresExact(mode, obs, j);
    hide Run, Fires, Stretch, ModeAt;
    if Persisted(mode, obs, j) {
      var h: nat :| Stretch(mode, obs, h, j) &&
        obs[j].now - obs[h].now >= Required(ModeAt(mode, obs, j), obs[j].target);
      var i := LongestExists(mode, obs, h, j);
      StretchInside(mode, obs, h, j);
      RanOutAt(mode, obs, j, i);
    }
  }

  /** In seconds: a promotion follows an unbroken minute of its target, a demotion five. */
  lemma ChangeWasStable(mode: Mode, obs: seq<Observation>, j: nat)
    requires j < |obs| && Fires(mode, obs, j)
    ensures var promoted := Rank(ModeAt(mode, obs, j + 1)) > Rank(ModeAt(mode, obs, j));
            exists i: nat :: Stretch(mode, obs, i, j) &&
              obs[i].now + (if promoted then 60.0 else 300.0) <= obs[j].now
  {
    FiresOnlyPersisted(mode, obs, j);
    hide ModeAt, Fires;
    var i: nat :| Stretch(mode, obs, i, j) &&
      obs[j].now - obs[i].now >= Required(ModeAt(mode, obs, j), obs[j].target);
    assert Stretch(mode, obs, i, j);
  }

  // From raw measurements, with all thresholds written out

  /** What one update is given. */
  datatype Measurement = Measurement(facts: int, communities: int, now: real)

  function Observed(ms: seq<Measurement>): (obs: seq<Observation>)
    ensures |obs| == |ms|
    ensures forall i | 0 <= i < |ms| :: obs[i] == Observation(DetectMode(ms[i].facts, ms[i].communities), ms[i].now)
  {
    seq(|ms|, i requires 0 <= i < |ms| => Observation(DetectMode(ms[i].facts, ms[i].communities), ms[i].now))
  }

  /** The measurement calls for this mode: no facts at all, 1000 facts in three communities, or anything
      in between. */
  ghost predicate CallsFor(m: Measurement, mode: Mode) {
    match mode
    case ZeroCkf => m.facts <= 0
    case PartialCkf => 0 < m.facts && (m.facts < 1000 || m.communities < 3)
    case FullCkf => 1000 <= m.facts && 3 <= m.communities
  }

  /** Changes to a richer mode take a minute, all others five. */
  ghost function Wait(previous: Mode, current: Mode): real {
    match (previous, current)
    case (ZeroCkf, PartialCkf) => 60.0
    case (ZeroCkf, FullCkf) => 60.0
    case (PartialCkf, FullCkf) => 60.0
    case _ => 300.0
  }

  /** Every mode change was called for by all measurements of an unbroken time of the length that this
      change takes. */
  lemma ChangeWasCalledFor(ms: seq<Measurement>, j: nat) returns (i: nat)
    requires j < |ms| && Fires(ZeroCkf, Observed(ms), j)
    ensures var obs := Observed(ms);
            var previous, current := ModeAt(ZeroCkf, obs, j), ModeAt(ZeroCkf, obs, j + 1);
            && i <= j && ms[j].now - ms[i].now >= Wait(previous, current)
            && forall k | i <= k <= j :: CallsFor(ms[k], current)
  {
    var obs := Observed(ms);
    FiresOnlyPersisted(ZeroCkf, obs, j);
    FiringTarget(ZeroCkf, obs, j);
    hide ModeAt, Fires;
    i :| Stretch(ZeroCkf, obs, i, j) &&
      obs[j].now - obs[i].now >= Required(ModeAt(ZeroCkf, obs, j), obs[j].target);
    forall k | i <= k <= j
      ensures CallsFor(ms[k], obs[j].target)
    {
      assert obs[k].target == obs[j].target;
    }
  }

  /** The mode after a change is the one that the last update called for. */
  lemma FiringTarget(mode: Mode, obs: seq<Observation>, j: nat)
    requires j < |obs| && Fires(mode, obs, j)
    ensures ModeAt(mode, obs, j + 1) == obs[j].target
  {
    RunStep(mode, obs, j);
  }

  /** Exactly one mode is called for. */
  lemma DetectMeaning(m: Measurement, mode: Mode)
    ensures DetectMode(m.facts, m.communities) == mode <==> CallsFor(m, mode)
  {
  }

  /** A target seen by every update from i to j, over the required time, is the mode afterwards. */
  lemma PersistentTargetWins(mode: Mode, obs: seq<Observation>, i: nat, j: nat)
    requires Clock(obs) && i <= j < |obs|
    requires forall k | i <= k <= j :: obs[k].target == obs[j].target
    requires obs[j].now - obs[i].now >= Required(ModeAt(mode, obs, i), obs[j].target)
    ensures ModeAt(mode, obs, j + 1) == obs[j].target
  {
    hide Run;
    if ModeAt(mode, obs, i) == obs[j].target {
      HoldsTarget(mode, obs, i, j);
    } else if forall k | i <= k <= j :: ModeAt(mode, obs, k) == ModeAt(mode, obs, i) {
      assert Stretch(mode, obs, i, j);
      FiresIffPersisted(mode, obs, j);
    } else {
      var k := FirstChange(mode, obs, i, j);
      FiresIffPersisted(mode, obs, k);
      HoldsTarget(mode, obs, k + 1, j);
    }
  }

  lemma {:induction false} FirstChange(mode: Mode, obs: seq<Observation>, i: nat, j: nat) returns (k: nat)
    requires i <= j < |obs| && exists h | i <= h <= j :: ModeAt(mode, obs, h) != ModeAt(mode, obs, i)
    ensures i <= k < j && Fires(mode, obs, k)
    decreases j - i
  {
    hide Run;
    if Fires(mode, obs, i) {
      k := i;
    } else {
      k := FirstChange(mode, obs, i + 1, j);
    }
  }

  lemma {:induction false} HoldsTarget(mode: Mode, obs: seq<Observation>, k: nat, j: nat)
    requires k <= j < |obs| && ModeAt(mode, obs, k) == obs[j].target
    requires forall h | k <= h <= j :: obs[h].target == obs[j].target
    ensures ModeAt(mode, obs, j + 1) == obs[j].target
    decreases j - k
  {
    RunStep(mode, obs, k);
    if k < j {
      HoldsTarget(mode, obs, k + 1, j);
    }
  }

  // ---------------------------------------------------------------------------------------------
  // How often it can fire

  /** What update `j` has to wait for: 60 seconds for a promotion, 300 for a demotion. */
  function Cost(mode: Mode, obs: seq<Observation>, j: nat): real
    requires j < |obs|
  {
    if Fires(mode, obs, j) then Required(ModeAt(mode, obs, j), ModeAt(mode, obs, j + 1)) else 0.0
  }

  function Spent(mode: Mode, obs: seq<Observation>): real {
    if obs == [] then 0.0 else Spent(mode, obs[..|obs| - 1]) + Cost(mode, obs, |obs| - 1)
  }

  predicate Promotes(mode: Mode, obs: seq<Observation>, j: nat)
    requires j < |obs|
  {
    Rank(ModeAt(mode, obs, j + 1)) > Rank(ModeAt(mode, obs, j))
  }

  function Promotions(mode: Mode, obs: seq<Observation>): nat {
    if obs == [] then 0
    else Promotions(mode, obs[..|obs| - 1]) + (if Promotes(mode, obs, |obs| - 1) then 1 else 0)
  }

  predicate Demotes(mode: Mode, obs: seq<Observation>, j: nat)
    requires j < |obs|
  {
    Rank(ModeAt(mode, obs, j + 1)) < Rank(ModeAt(mode, obs, j))
  }

  function Demotions(mode: Mode, obs: seq<Observation>): nat {
    if obs == [] then 0
    else Demotions(mode, obs[..|obs| - 1]) + (if Demotes(mode, obs, |obs| - 1) then 1 else 0)
  }

  /** Every change is one of the two. */
  lemma {:induction false} SpentCounts(mode: Mode, obs: seq<Observation>)
    ensures Fired(mode, obs) == Promotions(mode, obs) + Demotions(mode, obs)
    ensures Spent(mode, obs) ==
            PROMOTE_STICKY_SECONDS * Promotions(mode, obs) as real +
            DEMOTE_STICKY_SECONDS * Demotions(mode, obs) as real
    decreases |obs|
  {
    hide ModeAt;
    if obs != [] {
      SpentCounts(mode, obs[..|obs| - 1]);
    }
  }

  lemma SpentStep(mode: Mode, obs: seq<Observation>, n: nat)
    requires n < |obs|
    ensures Spent(mode, obs[..n + 1]) == Spent(mode, obs[..n]) + Cost(mode, obs, n)
  {
    var front := obs[..n + 1];
    assert front[..n] == obs[..n] && front[..n + 1] == obs[..n + 1];
  }

  lemma {:induction false} NoFireBetween(mode: Mode, obs: seq<Observation>, i: nat, j: nat)
    requires i <= j <= |obs|
    requires forall k | i <= k < j :: !Fires(mode, obs, k)
    ensures Spent(mode, obs[..j]) == Spent(mode, obs[..i])
    decreases j - i
  {
    hide Fires, Spent;
    if i < j {
      NoFireBetween(mode, obs, i, j - 1);
      SpentStep(mode, obs, j - 1);
    }
  }

  lemma NothingSpent(mode: Mode, obs: seq<Observation>)
    ensures Spent(mode, obs[..0]) == 0.0
  {
  }

  /** The first `n` updates took as long as their changes have to. */
  ghost predicate Paced(mode: Mode, obs: seq<Observation>, n: nat)
    requires n <= |obs|
  {
    Spent(mode, obs[..n]) <= if n == 0 then 0.0 else obs[n - 1].now - obs[0].now
  }

  lemma PacedQuiet(mode: Mode, obs: seq<Observation>, n: nat)
    requires Monotone(obs) && n < |obs| && Paced(mode, obs, n)
    requires Spent(mode, obs[..n + 1]) == Spent(mode, obs[..n])
    ensures Paced(mode, obs, n + 1)
  {
    hide Spent;
  }

  lemma PacedFire(mode: Mode, obs: seq<Observation>, i: nat, j: nat, cost: real)
    requires Monotone(obs) && i <= j < |obs| && Paced(mode, obs, i)
    requires Spent(mode, obs[..j + 1]) == Spent(mode, obs[..i]) + cost
    requires obs[i].now + cost <= obs[j].now
    ensures Paced(mode, obs, j + 1)
  {
    hide Spent;
  }

  /** Each change uses up its own waiting time: the stretches behind two changes do not overlap. */
  lemma {:induction false} ChangesTakeTime(mode: Mode, obs: seq<Observation>, n: nat)
    requires Monotone(obs) && n <= |obs|
    ensures Paced(mode, obs, n)
    decreases n, 1
  {
    NothingSpent(mode, obs);
    if n > 0 {
      NextPaced(mode, obs, n - 1);
    }
  }

  lemma {:induction false} NextPaced(mode: Mode, obs: seq<Observation>, j: nat)
    requires Monotone(obs) && j < |obs|
    ensures Paced(mode, obs, j + 1)
    decreases j + 1, 0
  {
    SpentStep(mode, obs, j);
    assert !Fires(mode, obs, j) ==> Cost(mode, obs, j) == 0.0;
    hide *;
    if Fires(mode, obs, j) {
      var i := FireTakesTime(mode, obs, j);
      ChangesTakeTime(mode, obs, i);
      PacedFire(mode, obs, i, j, Cost(mode, obs, j));
    } else {
      ChangesTakeTime(mode, obs, j);
      PacedQuiet(mode, obs, j);
    }
  }

  /** The stretch behind a change lasted its waiting time, and nothing else fired in it. */
  lemma FireTakesTime(mode: Mode, obs: seq<Observation>, j: nat) returns (i: nat)
    requires Monotone(obs) && j < |obs| && Fires(mode, obs, j)
    ensures i <= j && Spent(mode, obs[..j]) == Spent(mode, obs[..i])
    ensures obs[i].now + Cost(mode, obs, j) <= obs[j].now
  {
    hide Run, Fires, Spent;
    FiresOnlyPersisted(mode, obs, j);
    i :| Stretch(mode, obs, i, j) && obs[j].now - obs[i].now >= Required(ModeAt(mode, obs, j), obs[j].target);
    StretchQuiet(mode, obs, i, j);
  }

  lemma StretchQuiet(mode: Mode, obs: seq<Observation>, i: nat, j: nat)
    requires Stretch(mode, obs, i, j)
    ensures Spent(mode, obs[..j]) == Spent(mode, obs[..i])
  {
    hide Run;
    forall k | i <= k < j
      ensures !Fires(mode, obs, k)
    {
      assert ModeAt(mode, obs, k) == ModeAt(mode, obs, k + 1);
    }
    NoFireBetween(mode, obs, i, j);
  }

  /** A run lasts 60 seconds for every promotion and 300 for every demotion, so there is at most one
      change a minute. */
  lemma ChangesBounded(mode: Mode, obs: seq<Observation>)
    requires Monotone(obs) && obs != []
    ensures var duration := obs[|obs| - 1].now - obs[0].now;
            && 60.0 * Promotions(mode, obs) as real + 300.0 * Demotions(mode, obs) as real <= duration
            && Fired(mode, obs) <= (duration / 60.0).Floor
  {
    ChangesTakeTime(mode, obs, |obs|);
    assert obs[..|obs|] == obs;
    SpentCounts(mode, obs);
    hide Spent, Promotions, Demotions, Fired;
    var f, q := Fired(mode, obs), (obs[|obs| - 1].now - obs[0].now) / 60.0;
    assert f as real <= q;
    assert q < (q.Floor + 1) as real;
  }

  // ---------------------------------------------------------------------------------------------
  // Why the clock must not show 0.0

  /** A candidate first seen at time 0.0 never fires, however long it persists. */
  lemma {:induction false} ZeroStartNeverFires(mode: Mode, obs: seq<Observation>)
    requires obs != [] && obs[0].now == 0.0 && obs[0].target != mode
    requires forall k | 0 <= k < |obs| :: obs[k].target == obs[0].target
    ensures Run(mode, obs) == State(mode, Some(obs[0].target), Some(0.0))
    decreases |obs|
  {
    var front := obs[..|obs| - 1];
    if front == [] {
      assert Run(mode, front) == Start(mode);
    } else {
      ZeroStartNeverFires(mode, front);
    }
  }
}
