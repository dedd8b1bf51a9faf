/** The edit distance of crp/advanced/cross_window.py (lines 143-170).

    `Lev` is the textbook recursion on last characters. Edit scripts give it a meaning that does
    not mention the recursion: it is the least cost of any script that turns one sequence into the
    other. The single-row dynamic program computes it, and it is a metric. */
module EditDistance {

  import opened Common

  function Front<T>(s: seq<T>): seq<T>
    requires s != []
  {
    s[..|s| - 1]
  }

  function Last<T>(s: seq<T>): T
    requires s != []
  {
    s[|s| - 1]
  }

  function Lev<T(==)>(a: seq<T>, b: seq<T>): nat
    decreases |a| + |b|
  {
    if a == [] then |b|
    else if b == [] then |a|
    else if Last(a) == Last(b) then Lev(Front(a), Front(b))
    else 1 + Min(Lev(Front(a), Front(b)), Min(Lev(Front(a), b), Lev(a, Front(b))))
  }

  // ---------------------------------------------------------------------------------------------
  // Edit scripts: the independent meaning of the distance

  /** One step of a script. A script reads its source from left to right. */
  datatype Edit<T> = Keep | Substitute(c: T) | Delete | Insert(c: T)

  /** What the script makes of `a`; None when it does not consume exactly `a`. */
  function Apply<T>(script: seq<Edit<T>>, a: seq<T>): Option<seq<T>>
  {
    if script == [] then
      if a == [] then Some([]) else None
    else
      var op := Last(script);
      if op.Insert? then Extend(Apply(Front(script), a), [op.c])
      else if a == [] then None
      else
        var tail := if op.Keep? then [Last(a)] else if op.Substitute? then [op.c] else [];
        Extend(Apply(Front(script), Front(a)), tail)
  }

  function Extend<T>(r: Option<seq<T>>, tail: seq<T>): Option<seq<T>> {
    if r.None? then None else Some(r.value + tail)
  }

  /** Every operation but Keep costs one. */
  function Cost<T>(script: seq<Edit<T>>): nat {
    if script == [] then 0 else Cost(Front(script)) + (if Last(script).Keep? then 0 else 1)
  }

  ghost predicate Turns<T>(script: seq<Edit<T>>, a: seq<T>, b: seq<T>) {
    Apply(script, a) == Some(b)
  }

  lemma AppendInsert<T>(script: seq<Edit<T>>, a: seq<T>, b: seq<T>)
    requires b != [] && Turns(script, a, Front(b))
    ensures Turns(script + [Insert(Last(b))], a, b)
    ensures Cost(script + [Insert(Last(b))]) == Cost(script) + 1
  {
    Snoc(script, Insert(Last(b)));
    assert Front(b) + [Last(b)] == b;
  }

  lemma AppendDelete<T>(script: seq<Edit<T>>, a: seq<T>, b: seq<T>)
    requires a != [] && Turns(script, Front(a), b)
    ensures Turns(script + [Delete], a, b)
    ensures Cost(script + [Delete]) == Cost(script) + 1
  {
    Snoc(script, Delete);
    assert b + [] == b;
  }

  lemma AppendDiagonal<T>(script: seq<Edit<T>>, a: seq<T>, b: seq<T>)
    requires a != [] && b != [] && Turns(script, Front(a), Front(b))
    ensures Turns(script + [Substitute(Last(b))], a, b)
    ensures Cost(script + [Substitute(Last(b))]) == Cost(script) + 1
    ensures Last(a) == Last(b) ==> Turns(script + [Keep], a, b) && Cost(script + [Keep]) == Cost(script)
  {
    Snoc(script, Substitute(Last(b)));
    Snoc(script, Keep);
    assert Front(b) + [Last(b)] == b;
  }

  lemma Snoc<T>(script: seq<Edit<T>>, op: Edit<T>)
    ensures Front(script + [op]) == script && Last(script + [op]) == op
  {
  }

  // ---------------------------------------------------------------------------------------------
  // Lev is the least cost of a script

  /** Inserting one character moves the distance by at most one, in either direction. */
  lemma {:induction false} StepRight<T>(a: seq<T>, b: seq<T>)
    requires b != []
    ensures Lev(a, b) <= 1 + Lev(a, Front(b))
    ensures Lev(a, Front(b)) <= 1 + Lev(a, b)
    decreases |a| + |b|
  {
    if a != [] {
      StepLeft(a, Front(b));
      StepRight(Front(a), b);
      if |b| > 1 {
        StepRight(a, Front(b));
        StepRight(Front(a), Front(b));
      }
    }
  }

  /** Deleting one character moves the distance by at most one, in either direction. */
  lemma {:induction false} StepLeft<T>(a: seq<T>, b: seq<T>)
    requires a != []
    ensures Lev(a, b) <= 1 + Lev(Front(a), b)
    ensures Lev(Front(a), b) <= 1 + Lev(a, b)
    decreases |a| + |b|
  {
    if b != [] {
      StepRight(Front(a), b);
      StepLeft(a, Front(b));
      if |a| > 1 {
        StepLeft(Front(a), b);
        StepLeft(Front(a), Front(b));
      }
    }
  }

  /** No script is cheaper than Lev. */
  lemma {:induction false} LevBelowScript<T>(script: seq<Edit<T>>, a: seq<T>, b: seq<T>)
    requires Turns(script, a, b)
    ensures Lev(a, b) <= Cost(script)
    decreases |script|
  {
    if script != [] {
      var rest, op := Front(script), Last(script);
      if op.Insert? {
        assert b == Apply(rest, a).value + [op.c];
        assert Front(b) == Apply(rest, a).value;
        LevBelowScript(rest, a, Front(b));
        StepRight(a, b);
      } else if op.Delete? {
        var b' := Apply(rest, Front(a)).value;
        assert b == b' + [] == b';
        LevBelowScript(rest, Front(a), b);
        StepLeft(a, b);
      } else {
        assert b == Apply(rest, Front(a)).value + [if op.Keep? then Last(a) else op.c];
        assert Front(b) == Apply(rest, Front(a)).value;
        LevBelowScript(rest, Front(a), Front(b));
        DiagonalStep(a, b);
      }
    }
  }

  lemma DiagonalStep<T>(a: seq<T>, b: seq<T>)
    requires a != [] && b != []
    ensures Lev(a, b) <= Lev(Front(a), Front(b)) + (if Last(a) == Last(b) then 0 else 1)
  {
  }

  /** A script whose cost is exactly Lev: the trace back through the recursion. */
  function BestScript<T(==)>(a: seq<T>, b: seq<T>): seq<Edit<T>>
    decreases |a| + |b|
  {
    if a == [] && b == [] then []
    else if a == [] then BestScript(a, Front(b)) + [Insert(Last(b))]
    else if b == [] then BestScript(Front(a), b) + [Delete]
    else if Last(a) == Last(b) then BestScript(Front(a), Front(b)) + [Keep]
    else if Lev(a, b) == 1 + Lev(Front(a), Front(b)) then
      BestScript(Front(a), Front(b)) + [Substitute(Last(b))]
    else if Lev(a, b) == 1 + Lev(Front(a), b) then BestScript(Front(a), b) + [Delete]
    else BestScript(a, Front(b)) + [Insert(Last(b))]
  }

  lemma {:induction false} BestScriptIsBest<T>(a: seq<T>, b: seq<T>)
    ensures Turns(BestScript(a, b), a, b)
    ensures Cost(BestScript(a, b)) == Lev(a, b)
    decreases |a| + |b|
  {
    if a != [] && b != [] {
      BestScriptIsBest(Front(a), Front(b));
      AppendDiagonal(BestScript(Front(a), Front(b)), a, b);
    }
    if a != [] {
      BestScriptIsBest(Front(a), b);
      AppendDelete(BestScript(Front(a), b), a, b);
    }
    if b != [] {
      BestScriptIsBest(a, Front(b));
      AppendInsert(BestScript(a, Front(b)), a, b);
    }
  }

  /** `d` is the least cost over all scripts that turn `a` into `b`. */
  ghost predicate IsLeastCost<T(!new)>(d: nat, a: seq<T>, b: seq<T>) {
    && (exists script: seq<Edit<T>> :: Turns(script, a, b) && Cost(script) == d)
    && (forall script: seq<Edit<T>> :: Turns(script, a, b) ==> d <= Cost(script))
  }

  /** The recursion is the edit distance, and nothing else is. */
  lemma LevIsLeastCost<T(!new)>(a: seq<T>, b: seq<T>, d: nat)
    ensures IsLeastCost(d, a, b) <==> d == Lev(a, b)
  {
    BestScriptIsBest(a, b);
    forall script: seq<Edit<T>> | Turns(script, a, b)
      ensures Lev(a, b) <= Cost(script)
    {
      LevBelowScript(script, a, b);
    }
  }

  // ---------------------------------------------------------------------------------------------
  // The metric laws

  /** Run `first`, then `second`, in a single pass. */
  function Compose<T>(first: seq<Edit<T>>, second: seq<Edit<T>>): seq<Edit<T>>
    decreases |first| + |second|
  {
    if first != [] && Last(first).Delete? then Compose(Front(first), second) + [Delete]
    else if second != [] && Last(second).Insert? then Compose(first, Front(second)) + [Last(second)]
    else if first == [] || second == [] then []
    else
      var rest := Compose(Front(first), Front(second));
      match (Last(first), Last(second))
      case (Insert(_), Delete) => rest
      case (_, Delete) => rest + [Delete]
      case (Insert(_), Substitute(c)) => rest + [Insert(c)]
      case (_, Substitute(c)) => rest + [Substitute(c)]
      case (op, _) => rest + [op]
  }

  lemma {:induction false} ComposeTurns<T>(first: seq<Edit<T>>, second: seq<Edit<T>>, a: seq<T>, b: seq<T>, c: seq<T>)
    requires Turns(first, a, b) && Turns(second, b, c)
    ensures Turns(Compose(first, second), a, c)
    ensures Cost(Compose(first, second)) <= Cost(first) + Cost(second)
    decreases |first| + |second|
  {
    if first != [] && Last(first).Delete? {
      var b' := Apply(Front(first), Front(a)).value;
      assert b == b' + [] == b';
      ComposeTurns(Front(first), second, Front(a), b, c);
      Snoc(Compose(Front(first), second), Delete);
      assert c + [] == c;
    } else if second != [] && Last(second).Insert? {
      assert c == Apply(Front(second), b).value + [Last(second).c];
      assert Front(c) == Apply(Front(second), b).value;
      ComposeTurns(first, Front(second), a, b, Front(c));
      Snoc(Compose(first, Front(second)), Last(second));
    } else if first != [] && second != [] {
      ComposeDiagonal(first, second, a, b, c);
    }
  }

  /** The step of `ComposeTurns` in which `first` writes the character that `second` reads. */
  lemma {:induction false} ComposeDiagonal<T>(
      first: seq<Edit<T>>, second: seq<Edit<T>>, a: seq<T>, b: seq<T>, c: seq<T>)
    requires first != [] && second != [] && !Last(first).Delete? && !Last(second).Insert?
    requires Turns(first, a, b) && Turns(second, b, c)
    ensures Turns(Compose(first, second), a, c)
    ensures Cost(Compose(first, second)) <= Cost(first) + Cost(second)
    decreases |first| + |second|, 0
  {
    var op, op' := Last(first), Last(second);
    var a' := if op.Insert? then a else Front(a);
    var written := if op.Keep? then Last(a) else op.c;
    assert b == Apply(Front(first), a').value + [written];
    assert Front(b) == Apply(Front(first), a').value && Last(b) == written;
    var c' := Apply(Front(second), Front(b)).value;
    ComposeTurns(Front(first), Front(second), a', Front(b), c');
    var rest := Compose(Front(first), Front(second));
    if op'.Delete? && op.Insert? {
      assert c' + [] == c';
    } else {
      Snoc(rest, Last(Compose(first, second)));
    }
  }

  lemma {:induction false} LevSymmetric<T>(a: seq<T>, b: seq<T>)
    ensures Lev(a, b) == Lev(b, a)
    decreases |a| + |b|
  {
    if a != [] && b != [] {
      LevSymmetric(Front(a), Front(b));
      LevSymmetric(Front(a), b);
      LevSymmetric(a, Front(b));
    }
  }

  lemma {:induction false} LevZeroIffEqual<T>(a: seq<T>, b: seq<T>)
    ensures Lev(a, b) == 0 <==> a == b
    decreases |a| + |b|
  {
    if a != [] && b != [] {
      assert a == Front(a) + [Last(a)] && b == Front(b) + [Last(b)];
      LevZeroIffEqual(Front(a), Front(b));
    }
  }

  lemma {:induction false} LevTriangle<T>(a: seq<T>, b: seq<T>, c: seq<T>)
    ensures Lev(a, c) <= Lev(a, b) + Lev(b, c)
  {
    BestScriptIsBest(a, b);
    BestScriptIsBest(b, c);
    ComposeTurns(BestScript(a, b), BestScript(b, c), a, b, c);
    LevBelowScript(Compose(BestScript(a, b), BestScript(b, c)), a, c);
  }

  /** The distance lies between the difference of the lengths and the longer length. */
  lemma {:induction false} LevBounds<T>(a: seq<T>, b: seq<T>)
    ensures Lev(a, b) <= Max(|a|, |b|)
    ensures |a| <= |b| + Lev(a, b) && |b| <= |a| + Lev(a, b)
    decreases |a| + |b|
  {
    if a != [] && b != [] {
      LevBounds(Front(a), Front(b));
      LevBounds(Front(a), b);
      LevBounds(a, Front(b));
    }
  }

  // ---------------------------------------------------------------------------------------------
  // Chains of matches: the distance read off positions with equal characters

  /** Positions (i, j) with a[i] == b[j], rising in both strings. */
  ghost predicate IsChain<T>(chain: seq<(nat, nat)>, a: seq<T>, b: seq<T>) {
    chain == [] ||
    var (i, j) := Last(chain);
    i < |a| && j < |b| && a[i] == b[j] && IsChain(Front(chain), a[..i], b[..j])
  }

  /** Each gap between two matches costs the longer of its two sides. */
  function Gaps(chain: seq<(nat, nat)>, n: int, m: int): int {
    if chain == [] then (if n <= m then m else n)
    else
      var (i, j) := Last(chain);
      Gaps(Front(chain), i, j) + (if n - i <= m - j then m - j - 1 else n - i - 1)
  }

  lemma {:induction false} PadBound<T>(a: seq<T>, b: seq<T>, i: nat, j: nat)
    requires i <= |a| && j <= |b|
    ensures Lev(a, b) <= Lev(a[..i], b[..j]) + Max(|a| - i, |b| - j)
    decreases |a| + |b|
  {
    if i < |a| && j < |b| {
      assert Front(a)[..i] == a[..i] && Front(b)[..j] == b[..j];
      PadBound(Front(a), Front(b), i, j);
      DiagonalStep(a, b);
    } else if i < |a| {
      assert Front(a)[..i] == a[..i];
      PadBound(Front(a), b, i, j);
      StepLeft(a, b);
    } else if j < |b| {
      assert Front(b)[..j] == b[..j];
      PadBound(a, Front(b), i, j);
      StepRight(a, b);
    } else {
      assert a[..i] == a && b[..j] == b;
    }
  }

  lemma {:induction false} LevBelowGaps<T>(chain: seq<(nat, nat)>, a: seq<T>, b: seq<T>)
    requires IsChain(chain, a, b)
    ensures Lev(a, b) <= Gaps(chain, |a|, |b|)
    decreases |chain|
  {
    if chain == [] {
      LevBounds(a, b);
    } else {
      var (i, j) := Last(chain);
      LevBelowGaps(Front(chain), a[..i], b[..j]);
      PadBound(a, b, i + 1, j + 1);
      assert Front(a[..i + 1]) == a[..i] && Front(b[..j + 1]) == b[..j];
      DiagonalStep(a[..i + 1], b[..j + 1]);
    }
  }

  lemma {:induction false} ChainExtends<T>(chain: seq<(nat, nat)>, a: seq<T>, b: seq<T>, n: nat, m: nat)
    requires n <= |a| && m <= |b| && IsChain(chain, a[..n], b[..m])
    ensures IsChain(chain, a, b)
    ensures Gaps(chain, |a|, |b|) <= Gaps(chain, n, m) + Max(|a| - n, |b| - m)
  {
    if chain != [] {
      var (i, j) := Last(chain);
      assert a[..n][..i] == a[..i] && b[..m][..j] == b[..j];
    }
  }

  lemma {:induction false} BestChain<T>(a: seq<T>, b: seq<T>) returns (chain: seq<(nat, nat)>)
    ensures IsChain(chain, a, b) && Gaps(chain, |a|, |b|) <= Lev(a, b)
    decreases |a| + |b|
  {
    chain := [];
    if a != [] && b != [] {
      if Last(a) == Last(b) {
        var rest := BestChain(Front(a), Front(b));
        chain := rest + [(|a| - 1, |b| - 1)];
        assert Front(chain) == rest;
      } else if Lev(a, b) == 1 + Lev(Front(a), Front(b)) {
        chain := BestChain(Front(a), Front(b));
        ChainExtends(chain, a, b, |a| - 1, |b| - 1);
      } else if Lev(a, b) == 1 + Lev(Front(a), b) {
        chain := BestChain(Front(a), b);
        assert b[..|b|] == b;
        ChainExtends(chain, a, b, |a| - 1, |b|);
      } else {
        chain := BestChain(a, Front(b));
        assert a[..|a|] == a;
        ChainExtends(chain, a, b, |a|, |b| - 1);
      }
    }
  }

  /** The distance is the least cost of the gaps of a chain. */
  lemma LevIsLeastGaps<T>(a: seq<T>, b: seq<T>, d: nat)
    ensures d <= Lev(a, b) <==> forall chain | IsChain(chain, a, b) :: d <= Gaps(chain, |a|, |b|)
  {
    forall chain | IsChain(chain, a, b)
      ensures Lev(a, b) <= Gaps(chain, |a|, |b|)
    {
      LevBelowGaps(chain, a, b);
    }
    var best := BestChain(a, b);
  }

  /** By how much the offsets j - i of a chain fall in all, from 0 at the start to `end`. */
  function Fall(chain: seq<(nat, nat)>, end: int): nat {
    if chain == [] then (if end < 0 then -end else 0)
    else
      var offset := Last(chain).1 - Last(chain).0;
      Fall(Front(chain), offset) + (if end < offset then offset - end else 0)
  }

  lemma {:induction false} GapsAreFall(chain: seq<(nat, nat)>, n: int, m: int)
    ensures Gaps(chain, n, m) + |chain| == m + Fall(chain, m - n)
    decreases |chain|
  {
    if chain != [] {
      GapsAreFall(Front(chain), Last(chain).0, Last(chain).1);
    }
  }

  // ---------------------------------------------------------------------------------------------
  // The program

  /** The normalised distance that the documentation promises. */
  ghost function Normalized(a: string, b: string): real {
    if a == b == [] then 0.0 else Lev(a, b) as real / Max(|a|, |b|) as real
  }

  /** The value of cell `j` of the row for the first `i` characters of `a`. */
  ghost function Cell(a: string, b: string, i: nat, j: nat): nat
    requires i <= |a| && j <= |b|
  {
    Lev(a[..i], b[..j])
  }

  lemma CellStep(a: string, b: string, i: nat, j: nat)
    requires 0 < i <= |a| && 0 < j <= |b|
    ensures Cell(a, b, i, j) ==
            if a[i - 1] == b[j - 1] then Cell(a, b, i - 1, j - 1)
            else 1 + Min(Cell(a, b, i - 1, j - 1), Min(Cell(a, b, i - 1, j), Cell(a, b, i, j - 1)))
  {
    assert Front(a[..i]) == a[..i - 1] && Front(b[..j]) == b[..j - 1];
  }

  /** Columns `from` up to `to` of the row array hold the cells of row `i`. */
  ghost predicate RowHolds(dp: array<nat>, from: nat, to: nat, a: string, b: string, i: nat)
    requires i <= |a| && dp.Length == |b| + 1
    reads dp
  {
    forall k | from <= k < to && k <= |b| :: dp[k] == Cell(a, b, i, k)
  }

  /** The inner loop: row `i` overwrites row `i - 1` in place, while `prev` keeps the cell up and to
      the left, which the previous column has already overwritten. */
  method FillRow(dp: array<nat>, a: string, b: string, i: nat)
    requires 0 < i <= |a| && dp.Length == |b| + 1
    requires RowHolds(dp, 0, |b| + 1, a, b, i - 1)
    modifies dp
    ensures RowHolds(dp, 0, |b| + 1, a, b, i)
  {
    var prev := dp[0];
    dp[0] := i;
    for j := 1 to |b| + 1
      invariant prev == Cell(a, b, i - 1, j - 1)
      invariant RowHolds(dp, 0, j, a, b, i)
      invariant RowHolds(dp, j, |b| + 1, a, b, i - 1)
    {
      var tmp := dp[j];
      CellStep(a, b, i, j);
      if a[i - 1] == b[j - 1] {
        dp[j] := prev;
      } else {
        dp[j] := 1 + Min(prev, Min(dp[j], dp[j - 1]));
      }
      prev := tmp;
    }
  }

  method NormalizedEditDistance(a: string, b: string) returns (r: real)
    ensures r == Normalized(a, b)
  {
    if a == [] && b == [] {
      return 0.0;
    }
    if a == [] || b == [] {
      Ratio(Lev(a, b), Max(|a|, |b|));
      return 1.0;
    }
    var n, m := |a|, |b|;
    var dp := new nat[m + 1](j => j);
    for i := 1 to n + 1
      invariant RowHolds(dp, 0, m + 1, a, b, i - 1)
    {
      FillRow(dp, a, b, i);
    }
    assert a[..n] == a && b[..m] == b;
    assert dp[m] == Lev(a, b);
    r := dp[m] as real / Max(n, m) as real;
  }

  // ---------------------------------------------------------------------------------------------
  // What the normalised distance means

  /** It lies in [0, 1] and is symmetric, and "0.0 means identical" is exact. */
  lemma {:induction false} NormalizedRange(a: string, b: string)
    ensures 0.0 <= Normalized(a, b) <= 1.0
    ensures Normalized(a, b) == 0.0 <==> a == b
    ensures Normalized(a, b) == 1.0 <==> a + b != [] && Lev(a, b) == Max(|a|, |b|)
    ensures Normalized(a, b) == Normalized(b, a)
  {
    LevBounds(a, b);
    LevZeroIffEqual(a, b);
    LevSymmetric(a, b);
    if a + b != [] {
      Ratio(Lev(a, b), Max(|a|, |b|));
    }
  }

  /** "1.0 means completely different" is not: the value is 1.0 exactly when no chain of matches
      between the shorter and the longer string outnumbers the fall of its offsets. */
  lemma NormalizedOneIff(a: string, b: string)
    ensures var (short, long) := if |a| <= |b| then (a, b) else (b, a);
            Normalized(a, b) == 1.0 <==>
              a + b != [] && forall chain | IsChain(chain, short, long) :: |chain| <= Fall(chain, |long| - |short|)
  {
    var (short, long) := if |a| <= |b| then (a, b) else (b, a);
    NormalizedRange(a, b);
    LevSymmetric(a, b);
    LevBounds(a, b);
    LevIsLeastGaps(short, long, |long|);
    hide Normalized, Lev, IsChain, Gaps, Fall;
    forall chain | IsChain(chain, short, long)
      ensures |long| <= Gaps(chain, |short|, |long|) <==> |chain| <= Fall(chain, |long| - |short|)
    {
      GapsAreFall(chain, |short|, |long|);
    }
  }

  /** Strings that share no character score 1.0. */
  lemma NothingShared(a: string, b: string)
    requires a + b != [] && forall i, j | 0 <= i < |a| && 0 <= j < |b| :: a[i] != b[j]
    ensures Normalized(a, b) == 1.0
  {
    NormalizedOneIff(a, b);
  }

  /** One match whose offset lies between 0 and the difference of the lengths is enough to score less. */
  lemma MatchInReach(a: string, b: string, i: nat, j: nat)
    requires i < |a| && j < |b| && a[i] == b[j]
    requires 0 <= j - i <= |b| - |a| || |b| - |a| <= j - i <= 0
    ensures Normalized(a, b) < 1.0
  {
    NormalizedRange(a, b);
    NormalizedOneIff(a, b);
    hide Normalized;
    if |a| <= |b| {
      OneMatch(a, b, i, j);
    } else {
      OneMatch(b, a, j, i);
    }
  }

  lemma OneMatch(short: string, long: string, i: nat, j: nat)
    requires i < |short| && j < |long| && short[i] == long[j] && 0 <= j - i <= |long| - |short|
    ensures IsChain([(i, j)], short, long) && Fall([(i, j)], |long| - |short|) == 0
  {
    assert Front([(i, j)]) == [];
  }

  /** Both characters are shared, and still the score is 1.0. */
  lemma SharedButOne()
    ensures Normalized("ab", "ba") == 1.0
  {
    assert Lev("ab", "ba") == 2;
    NormalizedRange("ab", "ba");
  }

  // Dividing by the longer length may lose the triangle inequality of the raw distance.

  ghost predicate TriangleHolds(a: string, b: string, c: string) {
    Normalized(a, c) <= Normalized(a, b) + Normalized(b, c)
  }

  /** A quotient falls as its divisor grows. */
  lemma DivideMore(x: real, y: real, z: real)
    requires 0.0 <= x && 0.0 < y <= z
    ensures x / z <= x / y
    ensures 0.0 < x && y < z ==> x / z < x / y
  {
    var q := x / y;
    assert q * y == x;
    QuotientCompare(x, y, 0.0);
    QuotientCompare(x, z, q);
    assert q * z == q * y + q * (z - y);
  }

  lemma SharesAdd(x: real, n: real, y: real, u: real, z: real, v: real)
    requires 0.0 <= y && 0.0 <= z && 0.0 < u <= n && 0.0 < v <= n && x <= y + z
    ensures x / n <= y / u + z / v
  {
    DivideMore(y, u, n);
    DivideMore(z, v, n);
    QuotientSum(y, z, n);
    QuotientMonotone(x, y + z, n);
  }

  lemma NormalizedQuotient(a: string, b: string)
    requires a + b != []
    ensures Max(|a|, |b|) > 0 && Normalized(a, b) == (Lev(a, b) as real) / (Max(|a|, |b|) as real)
  {
  }

  lemma TriangleShortMiddle(a: string, b: string, c: string)
    requires |b| <= Max(|a|, |c|) && a + b != [] && b + c != [] && a + c != []
    ensures TriangleHolds(a, b, c)
  {
    LevTriangle(a, b, c);
    NormalizedQuotient(a, b);
    NormalizedQuotient(a, c);
    NormalizedQuotient(b, c);
    hide Lev, Normalized;
    var x, y, z := Lev(a, c) as real, Lev(a, b) as real, Lev(b, c) as real;
    var n, u, v := Max(|a|, |c|) as real, Max(|a|, |b|) as real, Max(|b|, |c|) as real;
    SharesAdd(x, n, y, u, z, v);
  }

  lemma SharesOfOne(y: real, z: real, n: real)
    requires 0.0 < n <= y + z
    ensures 1.0 <= y / n + z / n
  {
    QuotientSum(y, z, n);
    QuotientCompare(y + z, n, 1.0);
  }

  lemma TriangleLongMiddle(a: string, b: string, c: string)
    requires |a| + |c| <= |b| && b != []
    ensures TriangleHolds(a, b, c)
  {
    LevBounds(a, b);
    LevBounds(b, c);
    NormalizedQuotient(a, b);
    NormalizedQuotient(b, c);
    NormalizedRange(a, c);
    hide Lev, Normalized;
    assert |b| <= Lev(a, b) + Lev(b, c);
    SharesOfOne(Lev(a, b) as real, Lev(b, c) as real, |b| as real);
  }

  lemma TriangleOfLengths(a: string, b: string, c: string)
    requires |b| <= Max(|a|, |c|) || |a| + |c| <= |b|
    ensures TriangleHolds(a, b, c)
  {
    if a == b || b == c {
      NormalizedRange(a, b);
      NormalizedRange(b, c);
      hide Normalized;
    } else if |b| <= Max(|a|, |c|) {
      TriangleShortMiddle(a, b, c);
    } else {
      TriangleLongMiddle(a, b, c);
    }
  }

  function Repeat(ch: char, n: nat): (r: string)
    ensures |r| == n && forall i | 0 <= i < n :: r[i] == ch
  {
    seq(n, _ => ch)
  }

  lemma {:induction false} LevSuffix(prefix: string, s: string)
    ensures Lev(s, prefix + s) <= |prefix|
    decreases |s|
  {
    if s == [] {
      assert prefix + s == prefix;
    } else if prefix == [] {
      assert prefix + s == s;
      LevZeroIffEqual(s, s);
    } else {
      LevSuffix(prefix, Front(s));
      assert Front(prefix + s) == prefix + Front(s) && Last(prefix + s) == Last(s);
    }
  }

  lemma LevPrefix(s: string, suffix: string)
    ensures Lev(s + suffix, s) <= |suffix|
  {
    assert (s + suffix)[..|s|] == s && s[..|s|] == s;
    PadBound(s + suffix, s, |s|, |s|);
    LevZeroIffEqual(s, s);
  }

  /** A chain into a string whose first p characters match nothing leaves a gap of p in front. */
  lemma {:induction false} FrontGap(chain: seq<(nat, nat)>, a: string, b: string, p: nat)
    requires IsChain(chain, a, b) && p <= |b|
    requires forall i, j | 0 <= i < |a| && 0 <= j < p :: a[i] != b[j]
    ensures Gaps(chain, |a|, |b|) >= p
    decreases |chain|
  {
    if chain != [] {
      var (i, j) := Last(chain);
      FrontGap(Front(chain), a[..i], b[..j], p);
    }
  }

  /** y^k z^q against x^p y^k: sharing the block of y saves nothing over p + q edits. */
  lemma LevOverlap(p: nat, k: nat, q: nat)
    ensures Lev(Repeat('y', k) + Repeat('z', q), Repeat('x', p) + Repeat('y', k)) >= Min(p + q, Max(p + k, k + q))
  {
    var a, b := Repeat('y', k) + Repeat('z', q), Repeat('x', p) + Repeat('y', k);
    forall chain | IsChain(chain, a, b)
      ensures Gaps(chain, |a|, |b|) >= Min(p + q, Max(p + k, k + q))
    {
      if chain != [] {
        var (i, j) := Last(chain);
        assert i < k;
        FrontGap(Front(chain), a[..i], b[..j], p);
      }
    }
    LevIsLeastGaps(a, b, Min(p + q, Max(p + k, k + q)));
  }

  /** For all lengths strictly between the longer one and the sum, x^p y^k z^q is a shortcut between
      its own end and its own beginning. */
  lemma TriangleFails(p: nat, k: nat, q: nat)
    requires 0 < p && 0 < k && 0 < q
    ensures var x, y, z := Repeat('x', p), Repeat('y', k), Repeat('z', q);
            !TriangleHolds(y + z, x + y + z, x + y)
  {
    var x, y, z := Repeat('x', p), Repeat('y', k), Repeat('z', q);
    var a, b, c := y + z, x + y + z, x + y;
    assert b == x + a;
    LevSuffix(x, a);
    LevPrefix(c, z);
    LevOverlap(p, k, q);
    NormalizedQuotient(a, b);
    NormalizedQuotient(b, c);
    NormalizedQuotient(a, c);
    hide Lev, Normalized, Repeat;
    var n, m := Max(|a|, |c|) as real, |b| as real;
    OverlapShares(Lev(a, c) as real, n, Lev(a, b) as real, Lev(b, c) as real, m, (p + q) as real);
  }

  lemma OverlapShares(d: real, n: real, e: real, f: real, m: real, s: real)
    requires 0.0 < n < m && e + f <= s && 0.0 < s < m && (s <= d || n <= d)
    ensures d / n > e / m + f / m
  {
    QuotientSum(e, f, m);
    QuotientMonotone(e + f, s, m);
    if s <= d {
      DivideMore(s, n, m);
      QuotientMonotone(s, d, n);
    } else {
      QuotientCompare(s, m, 1.0);
      QuotientMonotone(n, d, n);
    }
  }

  ghost predicate TriangleForLengths(la: nat, lb: nat, lc: nat) {
    forall a: string, b: string, c: string | |a| == la && |b| == lb && |c| == lc :: TriangleHolds(a, b, c)
  }

  /** The exact condition on the lengths: the triangle inequality survives the division for all
      strings of three given lengths exactly when the middle string is no longer than the longer of
      the others, or at least as long as both together. */
  lemma NormalizedTriangleIff(la: nat, lb: nat, lc: nat)
    ensures TriangleForLengths(la, lb, lc) <==> lb <= Max(la, lc) || la + lc <= lb
  {
    if lb <= Max(la, lc) || la + lc <= lb {
      forall a: string, b: string, c: string | |a| == la && |b| == lb && |c| == lc
        ensures TriangleHolds(a, b, c)
      {
        TriangleOfLengths(a, b, c);
      }
    } else {
      var p, k, q := lb - la, la + lc - lb, lb - lc;
      TriangleFails(p, k, q);
      hide TriangleHolds;
      var x, y, z := Repeat('x', p), Repeat('y', k), Repeat('z', q);
      assert |y + z| == la && |x + y + z| == lb && |x + y| == lc;
    }
  }
}
