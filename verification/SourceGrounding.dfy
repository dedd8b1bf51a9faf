/** The passage store and the envelope builder of crp/advanced/source_grounding.py. Percentages are
    exact fractions. */
module SourceGrounding {

  import opened Common

  const HIGH_CONFIDENCE_THRESHOLD: real := 0.8
  const HIGH_RELEVANCE_THRESHOLD: real := 0.7

  datatype Passage = Passage(id: string, text: string, linked: seq<string>, tokens: nat)

  type Tokenizer = string -> nat

  // ---------------------------------------------------------------------------------------------
  // The store

  /** Passages by id, and for every fact the ids of the passages linked to it. */
  datatype Store = Store(passages: map<string, Passage>, index: map<string, seq<string>>)

  const EMPTY: Store := Store(map[], map[])

  function Ids(index: map<string, seq<string>>, fact: string): seq<string> {
    if fact in index then index[fact] else []
  }

  function LinkAll(index: map<string, seq<string>>, facts: seq<string>, id: string): map<string, seq<string>> {
    if facts == [] then index
    else
      var before := LinkAll(index, facts[..|facts| - 1], id);
      var fact := facts[|facts| - 1];
      before[fact := Ids(before, fact) + [id]]
  }

  function Accepts(confidence: real): bool { confidence >= HIGH_CONFIDENCE_THRESHOLD }

  function Put(count: Tokenizer, s: Store, p: Passage, confidence: real): Store {
    if !Accepts(confidence) then s
    else Store(s.passages[p.id := p.(tokens := count(p.text))], LinkAll(s.index, p.linked, p.id))
  }

  /** The passages behind the ids, as far as they are stored. */
  function Resolve(passages: map<string, Passage>, ids: seq<string>): seq<Passage> {
    if ids == [] then []
    else
      var id := ids[|ids| - 1];
      Resolve(passages, ids[..|ids| - 1]) + (if id in passages then [passages[id]] else [])
  }

  function Lookup(s: Store, fact: string): seq<Passage> {
    Resolve(s.passages, Ids(s.index, fact))
  }

  // ---------------------------------------------------------------------------------------------
  // The reference: a scan of the history of store calls

  type History = seq<(Passage, real)>

  function Run(count: Tokenizer, h: History): Store {
    if h == [] then EMPTY
    else
      var (p, confidence) := h[|h| - 1];
      Put(count, Run(count, h[..|h| - 1]), p, confidence)
  }

  /** The accepted passages in store order, with their token counts. */
  function Accepted(count: Tokenizer, h: History): seq<Passage> {
    if h == [] then []
    else
      var (p, confidence) := h[|h| - 1];
      Accepted(count, h[..|h| - 1]) + (if Accepts(confidence) then [p.(tokens := count(p.text))] else [])
  }

  /** `x`, once for every occurrence of `fact` among `facts`. */
  function PerMention<T>(facts: seq<string>, fact: string, x: T): seq<T> {
    if facts == [] then []
    else PerMention(facts[..|facts| - 1], fact, x) + (if facts[|facts| - 1] == fact then [x] else [])
  }

  /** The passages that mention the fact, in store order. */
  function Scan(accepted: seq<Passage>, fact: string): seq<Passage> {
    if accepted == [] then []
    else
      var p := accepted[|accepted| - 1];
      Scan(accepted[..|accepted| - 1], fact) + PerMention(p.linked, fact, p)
  }

  /** The last accepted passage with an id. */
  function Latest(accepted: seq<Passage>, id: string): Passage
    requires exists p | p in accepted :: p.id == id
  {
    var p := accepted[|accepted| - 1];
    if p.id == id then p
    else
      assert forall x | x in accepted && x != p :: x in accepted[..|accepted| - 1];
      Latest(accepted[..|accepted| - 1], id)
  }

  function Renew(accepted: seq<Passage>, found: seq<Passage>): seq<Passage>
    requires forall p | p in found :: exists q | q in accepted :: q.id == p.id
  {
    seq(|found|, i requires 0 <= i < |found| => assert found[i] in found; Latest(accepted, found[i].id))
  }

  function IdsOf(found: seq<Passage>): seq<string> {
    if found == [] then [] else IdsOf(found[..|found| - 1]) + [found[|found| - 1].id]
  }

  lemma {:induction false} LinkAllIds(index: map<string, seq<string>>, facts: seq<string>, id: string, fact: string)
    ensures Ids(LinkAll(index, facts, id), fact) == Ids(index, fact) + PerMention(facts, fact, id)
    decreases |facts|
  {
    if facts != [] {
      LinkAllIds(index, facts[..|facts| - 1], id, fact);
    }
  }

  lemma {:induction false} IdsOfAppend(a: seq<Passage>, b: seq<Passage>)
    ensures IdsOf(a + b) == IdsOf(a) + IdsOf(b)
    decreases |b|
  {
    if b == [] {
      assert a + b == a;
    } else {
      IdsOfAppend(a, b[..|b| - 1]);
      assert (a + b)[..|a + b| - 1] == a + b[..|b| - 1];
    }
  }

  lemma {:induction false} IdsPerMention(facts: seq<string>, fact: string, p: Passage)
    ensures IdsOf(PerMention(facts, fact, p)) == PerMention(facts, fact, p.id)
    decreases |facts|
  {
    if facts != [] {
      var front := facts[..|facts| - 1];
      IdsPerMention(front, fact, p);
      IdsOfAppend(PerMention(front, fact, p), if facts[|facts| - 1] == fact then [p] else []);
      assert IdsOf([p]) == [p.id];
    }
  }

  lemma {:induction false} PerMentionMembers<T>(facts: seq<string>, fact: string, x: T)
    ensures forall y | y in PerMention(facts, fact, x) :: y == x
    decreases |facts|
  {
    if facts != [] {
      PerMentionMembers(facts[..|facts| - 1], fact, x);
    }
  }

  lemma {:induction false} ScanMembers(accepted: seq<Passage>, fact: string)
    ensures forall p | p in Scan(accepted, fact) :: p in accepted
    decreases |accepted|
  {
    if accepted != [] {
      var front, p := accepted[..|accepted| - 1], accepted[|accepted| - 1];
      ScanMembers(front, fact);
      PerMentionMembers(p.linked, fact, p);
      assert accepted == front + [p];
    }
  }

  /** The index lists, for every fact, the ids that a scan finds. */
  lemma {:induction false} IndexIsScan(count: Tokenizer, h: History, fact: string)
    ensures Ids(Run(count, h).index, fact) == IdsOf(Scan(Accepted(count, h), fact))
    decreases |h|
  {
    if h != [] {
      var front := h[..|h| - 1];
      IndexIsScan(count, front, fact);
      var (p, confidence) := h[|h| - 1];
      if Accepts(confidence) {
        var q, before := p.(tokens := count(p.text)), Accepted(count, front);
        LinkAllIds(Run(count, front).index, p.linked, p.id, fact);
        IdsPerMention(q.linked, fact, q);
        IdsOfAppend(Scan(before, fact), PerMention(q.linked, fact, q));
        assert (before + [q])[..|before|] == before;
      } else {
        assert Accepted(count, h) == Accepted(count, front);
      }
    }
  }

  /** What is stored under an id is the last accepted passage with that id. */
  lemma {:induction false} StoredIsLatest(count: Tokenizer, h: History, id: string)
    ensures id in Run(count, h).passages <==> exists p | p in Accepted(count, h) :: p.id == id
    ensures id in Run(count, h).passages ==> Run(count, h).passages[id] == Latest(Accepted(count, h), id)
    decreases |h|
  {
    if h != [] {
      var front := h[..|h| - 1];
      StoredIsLatest(count, front, id);
      var (p, confidence) := h[|h| - 1];
      var before := Accepted(count, front);
      if Accepts(confidence) {
        var q := p.(tokens := count(p.text));
        assert (before + [q])[..|before|] == before;
        assert q in before + [q];
        assert forall x | x in before :: x in before + [q];
      } else {
        assert Accepted(count, h) == before;
      }
    }
  }

  lemma {:induction false} ResolveAll(passages: map<string, Passage>, accepted: seq<Passage>, found: seq<Passage>)
    requires forall p | p in found :: p in accepted
    requires forall p | p in accepted :: p.id in passages && passages[p.id] == Latest(accepted, p.id)
    ensures Resolve(passages, IdsOf(found)) == Renew(accepted, found)
    decreases |found|
  {
    if found != [] {
      var front, p := found[..|found| - 1], found[|found| - 1];
      assert found == front + [p];
      ResolveAll(passages, accepted, front);
      assert IdsOf(found)[..|IdsOf(found)| - 1] == IdsOf(front);
      assert Renew(accepted, found) == Renew(accepted, front) + [Latest(accepted, p.id)];
    }
  }

  /** The scan, with every passage replaced by the newest one stored under its id. */
  function RenewedScan(count: Tokenizer, h: History, fact: string): seq<Passage> {
    var accepted := Accepted(count, h);
    ScanMembers(accepted, fact);
    Renew(accepted, Scan(accepted, fact))
  }

  /** For any history at all, a lookup is the renewed scan. */
  lemma {:induction false} LookupIsRenewedScan(count: Tokenizer, h: History, fact: string)
    ensures var accepted := Accepted(count, h);
            && (forall p | p in Scan(accepted, fact) :: p in accepted)
            && Lookup(Run(count, h), fact) == RenewedScan(count, h, fact) == Renew(accepted, Scan(accepted, fact))
  {
    var accepted, s := Accepted(count, h), Run(count, h);
    ScanMembers(accepted, fact);
    IndexIsScan(count, h, fact);
    forall p | p in accepted
      ensures p.id in s.passages && s.passages[p.id] == Latest(accepted, p.id)
    {
      StoredIsLatest(count, h, p.id);
    }
    ResolveAll(s.passages, accepted, Scan(accepted, fact));
  }

  ghost predicate DistinctIds(accepted: seq<Passage>) {
    forall i, j | 0 <= i < j < |accepted| :: accepted[i].id != accepted[j].id
  }

  lemma {:induction false} LatestOfDistinct(accepted: seq<Passage>, p: Passage)
    requires DistinctIds(accepted) && p in accepted
    ensures Latest(accepted, p.id) == p
    decreases |accepted|
  {
    var last := accepted[|accepted| - 1];
    if p != last {
      assert accepted == accepted[..|accepted| - 1] + [last];
      LatestOfDistinct(accepted[..|accepted| - 1], p);
    }
  }

  /** With distinct ids the inverted index agrees with a plain scan. */
  lemma LookupIsScan(count: Tokenizer, h: History, fact: string)
    requires DistinctIds(Accepted(count, h))
    ensures Lookup(Run(count, h), fact) == Scan(Accepted(count, h), fact)
  {
    var accepted := Accepted(count, h);
    var found := Scan(accepted, fact);
    LookupIsRenewedScan(count, h, fact);
    forall i | 0 <= i < |found|
      ensures Latest(accepted, found[i].id) == found[i]
    {
      assert found[i] in found;
      LatestOfDistinct(accepted, found[i]);
    }
  }

  lemma HistoryGrows(count: Tokenizer, h: History, p: Passage, confidence: real)
    ensures Run(count, h + [(p, confidence)]) == Put(count, Run(count, h), p, confidence)
  {
    hide Put;
    assert (h + [(p, confidence)])[..|h|] == h;
  }

  /** Everything stored carries its own token count. */
  ghost predicate Counted(count: Tokenizer, passages: map<string, Passage>) {
    forall id | id in passages :: passages[id].tokens == count(passages[id].text)
  }

  lemma {:induction false} StoredCounts(count: Tokenizer, h: History)
    ensures Counted(count, Run(count, h).passages)
    decreases |h|
  {
    if h != [] {
      var (p, confidence) := h[|h| - 1];
      StoredCounts(count, h[..|h| - 1]);
      assert Run(count, h) == Put(count, Run(count, h[..|h| - 1]), p, confidence);
    }
  }

  // ---------------------------------------------------------------------------------------------
  // Budgets

  datatype Tier = S | A | B | C | D | OtherTier

  /** Percent of the budget for facts and for sources. */
  function Split(tier: Tier): (int, int) {
    match tier
    case S => (100, 0)
    case A => (90, 10)
    case B => (70, 30)
    case C => (70, 30)
    case D => (75, 25)
    case OtherTier => (70, 30)
  }

  /** int(budget * percent), truncating toward zero. */
  function Share(budget: int, percent: int): int {
    var x := budget * percent;
    if x >= 0 then x / 100 else -((-x) / 100)
  }

  /** For a budget that is not negative, the share is the percentage rounded down; a negative one has the
      opposite share. */
  lemma ShareIsFloor(budget: int, percent: nat)
    ensures 0 <= budget ==>
              100 * Share(budget, percent) <= budget * percent < 100 * Share(budget, percent) + 100
    ensures Share(-budget, percent) == -Share(budget, percent)
  {
    assert -budget * percent == -(budget * percent);
    assert 0 <= budget ==> 0 <= budget * percent;
  }

  lemma SharesFit(budget: nat, tier: Tier)
    ensures 0 <= Share(budget, Split(tier).0) && 0 <= Share(budget, Split(tier).1)
    ensures budget - 1 <= Share(budget, Split(tier).0) + Share(budget, Split(tier).1) <= budget
  {
    match tier
    case S =>
    case A =>
    case B =>
    case C =>
    case D =>
    case OtherTier =>
  }

  /** What the tiers grant to sources; the facts get the rest of the hundred percent. */
  lemma TierTable(tier: Tier)
    ensures Split(tier).0 + Split(tier).1 == 100
    ensures Split(tier).1 ==
            if tier.S? then 0 else if tier.A? then 10 else if tier.D? then 25 else 30
  {
  }

  datatype Fact = Fact(id: string, text: string, score: real)

  function FactTokens(count: Tokenizer, facts: seq<Fact>): nat {
    if facts == [] then 0 else FactTokens(count, facts[..|facts| - 1]) + count(facts[|facts| - 1].text)
  }

  function PassageTokens(passages: seq<Passage>): nat {
    if passages == [] then 0
    else PassageTokens(passages[..|passages| - 1]) + passages[|passages| - 1].tokens
  }

  /** `k` facts are packed: as many as fit. */
  ghost predicate IsPacked(count: Tokenizer, facts: seq<Fact>, budget: int, k: nat) {
    && k <= |facts|
    && (k > 0 ==> FactTokens(count, facts[..k]) <= budget)
    && (k < |facts| ==> FactTokens(count, facts[..k + 1]) > budget)
  }

  lemma {:induction false} FactTokensMonotone(count: Tokenizer, facts: seq<Fact>, i: nat, j: nat)
    requires i <= j <= |facts|
    ensures FactTokens(count, facts[..i]) <= FactTokens(count, facts[..j])
    decreases j
  {
    if i < j {
      FactTokensMonotone(count, facts, i, j - 1);
      assert facts[..j][..j - 1] == facts[..j - 1];
    }
  }

  /** The packed facts are the longest prefix that fits, and there is only one such prefix. */
  lemma PackedIsLongest(count: Tokenizer, facts: seq<Fact>, budget: nat, k: nat, other: nat)
    requires IsPacked(count, facts, budget, k) && other <= |facts|
    ensures FactTokens(count, facts[..other]) <= budget <==> other <= k
  {
    if other <= k {
      FactTokensMonotone(count, facts, other, k);
      assert k == 0 ==> facts[..k] == [];
    } else {
      FactTokensMonotone(count, facts, k + 1, other);
    }
  }

  /** The longest prefix of the passages that fits into the room. */
  function FitPrefix(passages: seq<Passage>, room: int): (n: nat)
    ensures n <= |passages|
  {
    if passages == [] || passages[0].tokens > room then 0
    else 1 + FitPrefix(passages[1..], room - passages[0].tokens)
  }

  function Relevant(f: Fact): bool { f.score >= HIGH_RELEVANCE_THRESHOLD }

  /** A relevant fact takes what fits of its passages into the room that is left. */
  function IncludeNext(s: Store, before: seq<Passage>, fact: Fact, room: int): seq<Passage> {
    if !Relevant(fact) then before
    else
      var found := Lookup(s, fact.id);
      before + found[..FitPrefix(found, room - PassageTokens(before))]
  }

  lemma NextIs(s: Store, before: seq<Passage>, fact: Fact, room: int)
    ensures var found := Lookup(s, fact.id);
            var n := FitPrefix(found, room - PassageTokens(before));
            IncludeNext(s, before, fact, room) ==
              if fact.score < HIGH_RELEVANCE_THRESHOLD then before else before + found[..n]
  {
    hide Lookup, FitPrefix, PassageTokens;
  }

  /** Fact by fact. */
  function Include(s: Store, facts: seq<Fact>, room: int): seq<Passage> {
    if facts == [] then []
    else IncludeNext(s, Include(s, facts[..|facts| - 1], room), facts[|facts| - 1], room)
  }

  lemma {:induction false} PassageTokensAppend(a: seq<Passage>, b: seq<Passage>)
    ensures PassageTokens(a + b) == PassageTokens(a) + PassageTokens(b)
    decreases |b|
  {
    if b == [] {
      assert a + b == a;
    } else {
      PassageTokensAppend(a, b[..|b| - 1]);
      assert (a + b)[..|a + b| - 1] == a + b[..|b| - 1];
    }
  }

  /** A prefix fits exactly when it is no longer than the chosen one. */
  lemma {:induction false} FitPrefixIsLongest(passages: seq<Passage>, room: nat, n: nat)
    requires n <= |passages|
    ensures PassageTokens(passages[..n]) <= room <==> n <= FitPrefix(passages, room)
    decreases |passages|
  {
    if n > 0 {
      var head, rest := passages[0], passages[1..];
      assert passages[..n] == [head] + rest[..n - 1];
      PassageTokensAppend([head], rest[..n - 1]);
      assert PassageTokens([head]) == head.tokens;
      if head.tokens <= room {
        FitPrefixIsLongest(rest, room - head.tokens, n - 1);
      }
    }
  }

  ghost predicate Justified(s: Store, facts: seq<Fact>, p: Passage) {
    exists f | f in facts :: f.score >= 0.7 && p in Lookup(s, f.id)
  }

  /** The passage was accepted for a relevant fact, and is the newest one under its id. */
  ghost predicate Sourced(count: Tokenizer, h: History, facts: seq<Fact>, p: Passage) {
    exists f | f in facts :: f.score >= 0.7 && p in RenewedScan(count, h, f.id)
  }

  lemma JustifiedIsSourced(count: Tokenizer, h: History, facts: seq<Fact>, p: Passage)
    requires Justified(Run(count, h), facts, p)
    ensures Sourced(count, h, facts, p)
  {
    var f :| f in facts && f.score >= 0.7 && p in Lookup(Run(count, h), f.id);
    hide Lookup, RenewedScan, Run, Accepted, Scan, Renew;
    LookupIsRenewedScan(count, h, f.id);
  }

  /** What is included fits into the source share, and belongs to relevant facts. */
  lemma {:induction false} IncludeKeeps(s: Store, facts: seq<Fact>, room: nat)
    ensures PassageTokens(Include(s, facts, room)) <= room
    ensures forall p | p in Include(s, facts, room) :: Justified(s, facts, p)
    decreases |facts|
  {
    if facts != [] {
      var front, fact := facts[..|facts| - 1], facts[|facts| - 1];
      var before := Include(s, front, room);
      IncludeKeeps(s, front, room);
      assert facts == front + [fact];
      hide Lookup;
      var found := Lookup(s, fact.id);
      var left := room - PassageTokens(before);
      var taken := found[..FitPrefix(found, left)];
      FitPrefixIsLongest(found, left, |taken|);
      PassageTokensAppend(before, taken);
      forall p | p in before
        ensures Justified(s, facts, p)
      {
        var f :| f in front && Relevant(f) && p in Lookup(s, f.id);
        assert f in facts;
      }
      if Relevant(fact) {
        assert fact in facts;
        forall p | p in taken
          ensures Justified(s, facts, p)
        {
          assert p in Lookup(s, fact.id);
        }
      }
    }
  }

  /** `n` passages of this fact are taken when `used` tokens are: none unless it scores at least 0.7, and
      else as many as fit. */
  ghost predicate TakesAllThatFit(s: Store, fact: Fact, used: nat, room: int, n: nat) {
    var found := Lookup(s, fact.id);
    && n <= |found|
    && (fact.score < 0.7 ==> n == 0)
    && (n > 0 ==> used + PassageTokens(found[..n]) <= room)
    && (fact.score >= 0.7 && n < |found| ==> used + PassageTokens(found[..n + 1]) > room)
  }

  /** The passages taken by each fact, one list after the other. */
  function TakenParts(s: Store, facts: seq<Fact>, ns: seq<nat>): (r: seq<seq<Passage>>)
    requires |facts| == |ns| && forall i | 0 <= i < |facts| :: ns[i] <= |Lookup(s, facts[i].id)|
    ensures |r| == |facts| && forall i | 0 <= i < |facts| :: r[i] == Lookup(s, facts[i].id)[..ns[i]]
  {
    seq(|facts|, i requires 0 <= i < |facts| => Lookup(s, facts[i].id)[..ns[i]])
  }

  ghost predicate TakenInTurn(s: Store, facts: seq<Fact>, room: int, ns: seq<nat>) {
    && |ns| == |facts|
    && (forall i | 0 <= i < |facts| :: ns[i] <= |Lookup(s, facts[i].id)|)
    && forall i | 0 <= i < |facts| ::
         TakesAllThatFit(s, facts[i], PassageTokens(Flatten(TakenParts(s, facts, ns)[..i])), room, ns[i])
  }

  lemma {:induction false} FitPrefixStops(passages: seq<Passage>, room: int)
    ensures var n := FitPrefix(passages, room);
            && (n > 0 ==> PassageTokens(passages[..n]) <= room)
            && (n < |passages| ==> PassageTokens(passages[..n + 1]) > room)
    decreases |passages|
  {
    if passages != [] {
      var head, rest := passages[0], passages[1..];
      var n := FitPrefix(passages, room);
      assert PassageTokens([head]) == head.tokens;
      if head.tokens > room {
        assert passages[..1] == [head];
      } else {
        FitPrefixStops(rest, room - head.tokens);
        assert passages[..n] == [head] + rest[..n - 1];
        PassageTokensAppend([head], rest[..n - 1]);
        assert n == 1 ==> rest[..0] == [] && passages[..1] == [head];
        if n < |passages| {
          assert passages[..n + 1] == [head] + rest[..n];
          PassageTokensAppend([head], rest[..n]);
        }
      }
    }
  }

  lemma NextTakes(s: Store, before: seq<Passage>, fact: Fact, room: int) returns (n: nat)
    ensures n <= |Lookup(s, fact.id)| && TakesAllThatFit(s, fact, PassageTokens(before), room, n)
    ensures IncludeNext(s, before, fact, room) == before + Lookup(s, fact.id)[..n]
  {
    var found := Lookup(s, fact.id);
    n := if Relevant(fact) then FitPrefix(found, room - PassageTokens(before)) else 0;
    FitPrefixStops(found, room - PassageTokens(before));
    hide Lookup, PassageTokens, FitPrefix;
    assert before + found[..0] == before;
  }

  lemma TakenSnoc(s: Store, facts: seq<Fact>, fact: Fact, room: int, ns: seq<nat>, n: nat)
    requires TakenInTurn(s, facts, room, ns) && n <= |Lookup(s, fact.id)|
    requires TakesAllThatFit(s, fact, PassageTokens(Flatten(TakenParts(s, facts, ns))), room, n)
    ensures TakenInTurn(s, facts + [fact], room, ns + [n])
    ensures TakenParts(s, facts + [fact], ns + [n]) == TakenParts(s, facts, ns) + [Lookup(s, fact.id)[..n]]
  {
    hide Lookup, PassageTokens, TakesAllThatFit, Flatten;
    var parts, all := TakenParts(s, facts, ns), TakenParts(s, facts + [fact], ns + [n]);
    assert all == parts + [Lookup(s, fact.id)[..n]];
    forall i | 0 <= i <= |facts|
      ensures TakesAllThatFit(s, (facts + [fact])[i], PassageTokens(Flatten(all[..i])), room, (ns + [n])[i])
    {
      assert all[..i] == parts[..i];
      assert parts[..|parts|] == parts;
    }
  }

  /** Fact by fact, the envelope takes from the passages of every relevant packed fact as many as fit into
      what the earlier ones left. */
  lemma {:induction false} IncludeTakesAll(s: Store, facts: seq<Fact>, room: int) returns (ns: seq<nat>)
    ensures TakenInTurn(s, facts, room, ns) && Include(s, facts, room) == Flatten(TakenParts(s, facts, ns))
    decreases |facts|
  {
    if facts == [] {
      ns := [];
    } else {
      var front, fact := facts[..|facts| - 1], facts[|facts| - 1];
      assert facts == front + [fact];
      ns := IncludeTakesAll(s, front, room);
      assert Include(s, facts, room) == IncludeNext(s, Include(s, front, room), fact, room);
      var n := NextTakes(s, Include(s, front, room), fact, room);
      assert TakenInTurn(s, front, room, ns) ==> |ns| == |front|;
      var parts := TakenParts(s, front, ns);
      hide *;
      TakenSnoc(s, front, fact, room, ns, n);
      FlattenSnoc(parts, Lookup(s, fact.id)[..n]);
      ns := ns + [n];
    }
  }

  lemma {:induction false} FactTokensAppend(count: Tokenizer, a: seq<Fact>, b: seq<Fact>)
    ensures FactTokens(count, a + b) == FactTokens(count, a) + FactTokens(count, b)
    decreases |b|
  {
    if b == [] {
      assert a + b == a;
    } else {
      FactTokensAppend(count, a, b[..|b| - 1]);
      assert (a + b)[..|a + b| - 1] == a + b[..|b| - 1];
    }
  }

  /** Tokens add up, over facts and over passages. */
  lemma TokensAddUp(count: Tokenizer, facts: seq<Fact>, fact: Fact, passages: seq<Passage>, p: Passage)
    ensures FactTokens(count, [fact] + facts) == count(fact.text) + FactTokens(count, facts)
    ensures PassageTokens([p] + passages) == p.tokens + PassageTokens(passages)
    ensures FactTokens(count, []) == 0 == PassageTokens([])
  {
    FactTokensAppend(count, [fact], facts);
    PassageTokensAppend([p], passages);
    assert FactTokens(count, [fact]) == count(fact.text) && PassageTokens([p]) == p.tokens;
  }

  // ---------------------------------------------------------------------------------------------
  // The engine

  /** A passage object. Storing it sets its token count, and the store keeps the object itself. */
  class SourcePassage {
    const id: string
    const text: string
    const linked: seq<string>
    var tokens: nat

    constructor (id: string, text: string, linked: seq<string>)
      ensures View() == Passage(id, text, linked, 0)
    {
      this.id, this.text, this.linked, this.tokens := id, text, linked, 0;
    }

    function View(): Passage
      reads this
    {
      Passage(id, text, linked, tokens)
    }
  }

  /** The objects hold these values now. */
  ghost predicate Shows(objects: seq<SourcePassage>, views: seq<Passage>)
    reads objects
  {
    |objects| == |views| && forall i | 0 <= i < |views| :: objects[i].View() == views[i]
  }

  lemma ShowsAppend(
      objects: seq<SourcePassage>, views: seq<Passage>, more: seq<SourcePassage>, moreViews: seq<Passage>, n: nat)
    requires Shows(objects, views) && Shows(more, moreViews) && n <= |more|
    ensures |more| == |moreViews| && Shows(objects + more[..n], views + moreViews[..n])
  {
  }

  class SourceGroundingEngine {
    const countTokens: Tokenizer
    var passages: map<string, SourcePassage>
    var factToPassages: map<string, seq<string>>
    ghost var history: History

    ghost function Stored(): map<string, Passage>
      reads `passages, passages.Values
    {
      map id | id in passages :: passages[id].View()
    }

    ghost function Abstract(): Store
      reads this, passages.Values
    {
      Store(Stored(), factToPassages)
    }

    /** The store is the replay of its history. */
    ghost predicate Valid()
      reads this, passages.Values
    {
      Abstract() == Run(countTokens, history)
    }

    constructor (countTokens: Tokenizer)
      ensures this.countTokens == countTokens && Valid() && history == []
    {
      this.countTokens := countTokens;
      passages, factToPassages, history := map[], map[], [];
      new;
      assert Abstract() == EMPTY;
    }

    method StorePassage(passage: SourcePassage, confidence: real) returns (stored: bool)
      requires Valid()
      modifies this, passage
      ensures Valid() && history == old(history) + [(old(passage.View()), confidence)]
      ensures stored <==> confidence >= 0.8
      ensures passages == if stored then old(passages)[passage.id := passage] else old(passages)
      ensures passage.tokens == if stored then countTokens(passage.text) else old(passage.tokens)
    {
      ghost var before, view := Abstract(), passage.View();
      HistoryGrows(countTokens, history, view, confidence);
      StoredCounts(countTokens, history);
      history := history + [(view, confidence)];
      hide Run, Stored, LinkAll, Counted;
      if confidence < HIGH_CONFIDENCE_THRESHOLD {
        return false;
      }
      Keep(passage);
      Link(passage.linked, passage.id);
      return true;
    }

    /** The passage gets its token count and its place; other stored objects already have theirs. */
    method Keep(passage: SourcePassage)
      requires Counted(countTokens, Stored())
      modifies `passages, passage
      ensures passages == old(passages)[passage.id := passage] && passage.tokens == countTokens(passage.text)
      ensures Stored() == old(Stored())[passage.id := old(passage.View()).(tokens := countTokens(passage.text))]
    {
      ghost var before, view := Stored(), passage.View();
      ghost var kept := view.(tokens := countTokens(view.text));
      assert forall id | id in passages && passages[id] == passage :: before[id] == view == kept;
      passage.tokens := countTokens(passage.text);
      assert passage.View() == kept;
      passages := passages[passage.id := passage];
      forall id | id in passages
        ensures id in before[passage.id := kept] && passages[id].View() == before[passage.id := kept][id]
      {
        if id != passage.id && passages[id] != passage {
          assert passages[id].View() == old(passages[id].View());
        }
      }
      assert Stored().Keys == before[passage.id := kept].Keys;
    }

    method Link(facts: seq<string>, id: string)
      modifies `factToPassages
      ensures factToPassages == LinkAll(old(factToPassages), facts, id)
    {
      for i := 0 to |facts|
        invariant factToPassages == LinkAll(old(factToPassages), facts[..i], id)
      {
        var fact := facts[i];
        assert facts[..i + 1][..i] == facts[..i];
        factToPassages := factToPassages[fact := Ids(factToPassages, fact) + [id]];
      }
      assert facts[..|facts|] == facts;
    }

    /** The stored objects behind the ids of a fact; they hold the renewed scan of the history. */
    method GetPassagesForFact(fact: string) returns (found: seq<SourcePassage>)
      requires Valid()
      ensures Shows(found, RenewedScan(countTokens, history, fact))
      ensures Shows(found, Lookup(Abstract(), fact))
      ensures forall p | p in found :: p in passages.Values
    {
      var pids := Ids(factToPassages, fact);
      found := [];
      for i := 0 to |pids|
        invariant Shows(found, Resolve(Stored(), pids[..i]))
        invariant forall p | p in found :: p in passages.Values
      {
        assert pids[..i + 1][..i] == pids[..i];
        if pids[i] in passages {
          found := found + [passages[pids[i]]];
        }
      }
      assert pids[..|pids|] == pids;
      LookupIsRenewedScan(countTokens, history, fact);
    }

    method PackFacts(facts: seq<Fact>, budget: int) returns (packed: seq<Fact>)
      ensures packed <= facts && IsPacked(countTokens, facts, budget, |packed|)
    {
      packed := [];
      var tokensUsed := 0;
      for i := 0 to |facts|
        invariant packed == facts[..i]
        invariant tokensUsed == FactTokens(countTokens, packed)
        invariant i > 0 ==> tokensUsed <= budget
      {
        var t := countTokens(facts[i].text);
        assert facts[..i + 1][..i] == facts[..i];
        if tokensUsed + t > budget {
          return;
        }
        packed := packed + [facts[i]];
        tokensUsed := tokensUsed + t;
      }
    }

    /** The passages of one fact, until the first that does not fit. */
    method TakePassages(found: seq<SourcePassage>, used: int, budget: int, ghost views: seq<Passage>)
      returns (n: nat, usedNow: int)
      requires Shows(found, views)
      ensures n == FitPrefix(views, budget - used)
      ensures usedNow == used + PassageTokens(views[..n])
    {
      n, usedNow := 0, used;
      while n < |found|
        invariant n <= |found|
        invariant n + FitPrefix(views[n..], budget - usedNow) == FitPrefix(views, budget - used)
        invariant usedNow == used + PassageTokens(views[..n])
      {
        assert views[n..][1..] == views[n + 1..] && views[..n + 1][..n] == views[..n];
        if usedNow + found[n].tokens > budget {
          break;
        }
        usedNow := usedNow + found[n].tokens;
        n := n + 1;
      }
    }

    /** One packed fact adds what fits of its passages. */
    method IncludeFact(
        included: seq<SourcePassage>, fact: Fact, used: int, budget: int, ghost before: seq<Passage>)
      returns (now: seq<SourcePassage>, usedNow: int)
      requires Valid() && Shows(included, before) && used == PassageTokens(before)
      ensures Shows(now, IncludeNext(Abstract(), before, fact, budget))
      ensures usedNow == PassageTokens(IncludeNext(Abstract(), before, fact, budget))
    {
      ghost var store, views := Abstract(), Lookup(Abstract(), fact.id);
      NextIs(store, before, fact, budget);
      hide *;
      if fact.score < HIGH_RELEVANCE_THRESHOLD {
        return included, used;
      }
      var found := GetPassagesForFact(fact.id);
      var n;
      n, usedNow := TakePassages(found, used, budget, views);
      PassageTokensAppend(before, views[..n]);
      ShowsAppend(included, before, found, views, n);
      now := included + found[..n];
    }

    method IncludePassages(packed: seq<Fact>, budget: int) returns (included: seq<SourcePassage>)
      requires Valid()
      ensures Shows(included, Include(Abstract(), packed, budget))
    {
      included := [];
      var used := 0;
      hide Valid, Abstract, IncludeNext;
      for i := 0 to |packed|
        invariant Shows(included, Include(Abstract(), packed[..i], budget))
        invariant used == PassageTokens(Include(Abstract(), packed[..i], budget))
      {
        assert packed[..i + 1][..i] == packed[..i];
        ghost var before := Include(Abstract(), packed[..i], budget);
        included, used := IncludeFact(included, packed[i], used, budget, before);
      }
      assert packed[..|packed|] == packed;
    }

    method BuildSourceGroundedEnvelope(facts: seq<Fact>, budget: int, tier: Tier)
      returns (packed: seq<Fact>, included: seq<SourcePassage>)
      requires Valid()
      ensures packed <= facts && IsPacked(countTokens, facts, Share(budget, Split(tier).0), |packed|)
      ensures Shows(included, Include(Abstract(), packed, Share(budget, Split(tier).1)))
      ensures budget >= 0 ==> forall p | p in included :: Sourced(countTokens, history, packed, p.View())
      ensures var sources := PassageTokens(Include(Abstract(), packed, Share(budget, Split(tier).1)));
              budget >= 0 ==> FactTokens(countTokens, packed) + sources <= budget
    {
      var factBudget, sourceBudget := Share(budget, Split(tier).0), Share(budget, Split(tier).1);
      packed := PackFacts(facts, factBudget);
      included := IncludePassages(packed, sourceBudget);
      if budget >= 0 {
        SharesFit(budget, tier);
        IncludeKeeps(Abstract(), packed, sourceBudget);
        PackedIsLongest(countTokens, facts, factBudget, |packed|, |packed|);
        assert facts[..|packed|] == packed;
        hide Include, Share, Split, IsPacked, Sourced, Justified;
        forall p | p in included
          ensures Sourced(countTokens, history, packed, p.View())
        {
          var i :| 0 <= i < |included| && included[i] == p;
          assert p.View() == Include(Abstract(), packed, sourceBudget)[i];
          JustifiedIsSourced(countTokens, history, packed, p.View());
        }
      }
    }
  }
}
