/** What several modules share: optional values, concatenation of parts, objects that are changed in
    place, and quotients. */
module Common {

  datatype Option<+T> = None | Some(value: T)

  function Min(x: int, y: int): int { if x <= y then x else y }

  function Max(x: int, y: int): int { if x <= y then y else x }

  function Flatten<T>(parts: seq<seq<T>>): seq<T> {
    if parts == [] then [] else parts[0] + Flatten(parts[1..])
  }

  lemma FlattenCons<T>(first: seq<T>, rest: seq<seq<T>>)
    ensures Flatten([first] + rest) == first + Flatten(rest)
  {
    assert ([first] + rest)[1..] == rest;
  }

  lemma AppendAssociates<T>(a: seq<T>, b: seq<T>, c: seq<T>)
    ensures a + b + c == a + (b + c)
  {
  }

  lemma AppendCancels<T>(a: seq<T>, b: seq<T>, c: seq<T>)
    ensures a + b == a + c ==> b == c
  {
    assert (a + b)[|a|..] == b && (a + c)[|a|..] == c;
  }

  lemma {:induction false} FlattenAppend<T>(left: seq<seq<T>>, right: seq<seq<T>>)
    ensures Flatten(left + right) == Flatten(left) + Flatten(right)
  {
    if left == [] {
      assert left + right == right;
    } else {
      var first, rest := left[0], left[1..];
      FlattenAppend(rest, right);
      hide Flatten;
      FlattenCons(first, rest);
      FlattenCons(first, rest + right);
      AppendAssociates([first], rest, right);
      AppendAssociates(first, Flatten(rest), Flatten(right));
      assert left == [first] + rest;
    }
  }

  lemma FlattenSnoc<T>(parts: seq<seq<T>>, last: seq<T>)
    ensures Flatten(parts + [last]) == Flatten(parts) + last
  {
    FlattenAppend(parts, [last]);
    FlattenCons(last, []);
    assert [last] + [] == [last];
    assert last + Flatten([]) == last;
  }

  lemma TakeOneMore<T>(s: seq<T>, i: nat)
    requires i < |s|
    ensures s[..i] + [s[i]] == s[..i + 1]
  {
  }

  /** One part more. */
  lemma FlattenAt<T>(parts: seq<seq<T>>, i: nat)
    requires i < |parts|
    ensures Flatten(parts[..i + 1]) == Flatten(parts[..i]) + parts[i]
  {
    hide Flatten;
    TakeOneMore(parts, i);
    FlattenSnoc(parts[..i], parts[i]);
  }

  lemma FlattenSplit<T>(parts: seq<seq<T>>, i: nat)
    requires i <= |parts|
    ensures Flatten(parts) == Flatten(parts[..i]) + Flatten(parts[i..])
  {
    hide Flatten;
    FlattenAppend(parts[..i], parts[i..]);
    assert parts[..i] + parts[i..] == parts;
  }

  // Objects that are changed in place, seen from outside: what each of them holds, and a list of them

  datatype World<F, V> = World(heap: map<F, V>, result: seq<F>)

  predicate Known<F(==), V>(heap: map<F, V>, objects: seq<F>) {
    forall f | f in objects :: f in heap
  }

  function At<F(==), V>(heap: map<F, V>, objects: seq<F>): (r: seq<V>)
    requires Known(heap, objects)
    ensures |r| == |objects|
    ensures forall i | 0 <= i < |objects| :: r[i] == heap[objects[i]]
  {
    seq(|objects|, i requires 0 <= i < |objects| => heap[objects[i]])
  }

  ghost predicate Distinct<T>(s: seq<T>) {
    forall i, j | 0 <= i < j < |s| :: s[i] != s[j]
  }

  lemma DistinctSnoc<T>(s: seq<T>, t: seq<T>, last: T)
    requires Distinct(s + (t + [last]))
    ensures Distinct(s + t) && Distinct(s) && last !in s && last !in t
  {
    var all := s + (t + [last]);
    assert forall i | 0 <= i < |s| :: s[i] == all[i];
    assert forall i | 0 <= i < |s + t| :: (s + t)[i] == all[i];
    assert last == all[|s + t|];
    assert forall i | 0 <= i < |t| :: t[i] == all[|s| + i];
  }

  // Quotients of reals

  lemma TimesLess(p: real, q: real, y: real)
    requires p < q && 0.0 < y
    ensures p * y < q * y
  {
    assert (q - p) * y > 0.0;
  }

  lemma QuotientCompare(x: real, y: real, k: real)
    requires 0.0 < y
    ensures x / y <= k <==> x <= k * y
    ensures x / y < k <==> x < k * y
  {
    var q := x / y;
    assert q * y == x;
    if k < q {
      TimesLess(k, q, y);
    } else if q < k {
      TimesLess(q, k, y);
    }
  }

  lemma QuotientMonotone(x: real, y: real, n: real)
    requires 0.0 < n && x <= y
    ensures x / n <= y / n
  {
    var q := y / n;
    assert q * n == y;
    QuotientCompare(x, n, q);
  }

  lemma QuotientSum(x: real, y: real, n: real)
    requires 0.0 < n
    ensures x / n + y / n == (x + y) / n
  {
    var p, q, r := x / n, y / n, (x + y) / n;
    assert p * n == x && q * n == y && r * n == x + y;
    assert (p + q) * n == r * n;
    if p + q < r {
      TimesLess(p + q, r, n);
    } else if r < p + q {
      TimesLess(r, p + q, n);
    }
  }

  lemma Ratio(x: nat, y: nat)
    requires x <= y && 0 < y
    ensures 0.0 <= x as real / y as real <= 1.0
    ensures x as real / y as real == 0.0 <==> x == 0
    ensures x as real / y as real == 1.0 <==> x == y
  {
    var q := x as real / y as real;
    assert q * y as real == x as real;
  }
}
