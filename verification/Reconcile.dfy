/** Boundary reconciliation of crp/advanced/auto_ingest.py (lines 220-295): facts of later chunks
    are dropped, merged into an existing fact, or appended. */
module Reconcile {

  import opened Common
  import opened Text

  const DUP_SIMILARITY: real := 0.95
  const COMPLEMENT_SIMILARITY: real := 0.75
  const TOKEN_OVERLAP_THRESHOLD: real := 0.3

  datatype FactView = FactView(text: string, confidence: real)

  /** What the code cannot see inside: lower-casing, and the cosine similarity of two embeddings
      when an embedding function is given. */
  datatype Oracles = Oracles(lower: string -> string, embedded: Option<(string, string) -> real>)

  // ---------------------------------------------------------------------------------------------
  // Similarity

  function WordSet(words: seq<string>): (r: set<string>)
    ensures forall w :: w in r <==> w in words
  {
    set w | w in words
  }

  /** The share of the smaller word set that the two texts have in common. */
  function OverlapRatio(a: string, b: string, lower: string -> string): real {
    var wordsA := WordSet(Split(lower(a)));
    var wordsB := WordSet(Split(lower(b)));
    if wordsA == {} || wordsB == {} then 0.0
    else |wordsA * wordsB| as real / (if |wordsA| <= |wordsB| then |wordsA| else |wordsB|) as real
  }

  lemma SubsetSize<T>(a: set<T>, b: set<T>)
    requires a <= b
    ensures |a| <= |b|
    ensures |a| == |b| ==> a == b
  {
    assert b == a + (b - a);
    assert |b| == |a| + |b - a|;
  }

  /** A symmetric score in [0, 1] that is 1 exactly when one non-empty word set contains the other. */
  lemma OverlapRatioRange(a: string, b: string, lower: string -> string)
    ensures 0.0 <= OverlapRatio(a, b, lower) <= 1.0
    ensures OverlapRatio(a, b, lower) == OverlapRatio(b, a, lower)
    ensures var wordsA, wordsB := WordSet(Split(lower(a))), WordSet(Split(lower(b)));
            OverlapRatio(a, b, lower) == 1.0 <==>
              wordsA != {} && wordsB != {} && (wordsA <= wordsB || wordsB <= wordsA)
  {
    var wordsA, wordsB := WordSet(Split(lower(a))), WordSet(Split(lower(b)));
    hide WordSet, Split;
    assert wordsA * wordsB == wordsB * wordsA;
    if wordsA != {} && wordsB != {} {
      var both := wordsA * wordsB;
      SubsetSize(both, wordsA);
      SubsetSize(both, wordsB);
      var least := if |wordsA| <= |wordsB| then |wordsA| else |wordsB|;
      Ratio(|both|, least);
      assert wordsA <= wordsB ==> both == wordsA;
      assert wordsB <= wordsA ==> both == wordsB;
      if wordsA <= wordsB {
        SubsetSize(wordsA, wordsB);
      }
      if wordsB <= wordsA {
        SubsetSize(wordsB, wordsA);
      }
    }
  }

  function Similarity(o: Oracles, a: string, b: string): real {
    if o.embedded.Some? then o.embedded.value(a, b) else OverlapRatio(a, b, o.lower)
  }

  predicate IsDuplicate(o: Oracles, existing: string, text: string) {
    Similarity(o, existing, text) > DUP_SIMILARITY
  }

  predicate IsComplement(o: Oracles, existing: string, text: string) {
    && COMPLEMENT_SIMILARITY < Similarity(o, existing, text) <= DUP_SIMILARITY
    && OverlapRatio(existing, text, o.lower) > TOKEN_OVERLAP_THRESHOLD
  }

  // ---------------------------------------------------------------------------------------------
  // Merging two texts

  /** The words of `words` whose lower-case form is not yet known. */
  function Unseen(words: seq<string>, known: set<string>, lower: string -> string): (r: seq<string>)
    ensures forall w :: w in r <==> w in words && lower(w) !in known
  {
    if words == [] then []
    else if lower(words[0]) in known then Unseen(words[1..], known, lower)
    else [words[0]] + Unseen(words[1..], known, lower)
  }

  function MergeTexts(a: string, b: string, lower: string -> string): string {
    var known := set w | w in Split(a) :: lower(w);
    var extra := Unseen(Split(b), known, lower);
    if extra == [] then a else a + " " + JoinWords(extra)
  }

  /** The text holds the word, up to case. */
  ghost predicate HasWord(text: string, w: string, lower: string -> string) {
    exists v | v in Split(text) :: lower(v) == lower(w)
  }

  ghost predicate HasWordsOf(text: string, other: string, lower: string -> string) {
    forall w | w in Split(other) :: HasWord(text, w, lower)
  }

  /** The merged text continues the first one and misses no word of either. */
  lemma MergeTextsCovers(a: string, b: string, lower: string -> string)
    ensures a <= MergeTexts(a, b, lower)
    ensures HasWordsOf(MergeTexts(a, b, lower), b, lower)
    ensures forall w | w in Split(a) :: w in Split(MergeTexts(a, b, lower))
  {
    var known := set w | w in Split(a) :: lower(w);
    var extra := Unseen(Split(b), known, lower);
    var merged := MergeTexts(a, b, lower);
    if extra != [] {
      SplitJoin(extra);
      SplitAppend(a, JoinWords(extra));
    }
    assert Split(merged) == Split(a) + extra;
    forall w | w in Split(b)
      ensures HasWord(merged, w, lower)
    {
      if lower(w) in known {
        var v :| v in Split(a) && lower(v) == lower(w);
        assert v in Split(merged);
      } else {
        assert w in Split(merged);
      }
    }
  }

  /** Word by word: the word itself if its lower-case form is not known, and nothing otherwise. */
  function EachUnknown(words: seq<string>, known: set<string>, lower: string -> string): (r: seq<seq<string>>)
    ensures |r| == |words|
    ensures forall i | 0 <= i < |r| :: r[i] == if lower(words[i]) in known then [] else [words[i]]
  {
    seq(|words|, i requires 0 <= i < |words| => if lower(words[i]) in known then [] else [words[i]])
  }

  lemma {:induction false} UnseenInOrder(words: seq<string>, known: set<string>, lower: string -> string)
    ensures Unseen(words, known, lower) == Flatten(EachUnknown(words, known, lower))
    decreases |words|
  {
    if words != [] {
      UnseenInOrder(words[1..], known, lower);
      assert EachUnknown(words, known, lower)[1..] == EachUnknown(words[1..], known, lower);
    }
  }

  /** The merged text has the words of the first one, followed by exactly those words of the second
      one that the first does not have, up to case, in their order; without any it is the first text. */
  lemma MergeTextsExact(a: string, b: string, lower: string -> string)
    ensures var extra := Flatten(EachUnknown(Split(b), set w | w in Split(a) :: lower(w), lower));
            && Split(MergeTexts(a, b, lower)) == Split(a) + extra
            && (extra == [] ==> MergeTexts(a, b, lower) == a)
  {
    var known := set w | w in Split(a) :: lower(w);
    var extra := Unseen(Split(b), known, lower);
    UnseenInOrder(Split(b), known, lower);
    if extra != [] {
      SplitJoin(extra);
      SplitAppend(a, JoinWords(extra));
    }
  }

  // ---------------------------------------------------------------------------------------------
  // The fate of one fact

  datatype Outcome = Dropped | Merged(target: nat) | Appended

  /** The first existing fact, from index `from` on, that decides the fate of `text`. */
  function JudgeFrom(o: Oracles, result: seq<FactView>, text: string, from: nat): Outcome
    decreases |result| - from
  {
    if from >= |result| then Appended
    else if IsDuplicate(o, result[from].text, text) then Dropped
    else if IsComplement(o, result[from].text, text) then Merged(from)
    else JudgeFrom(o, result, text, from + 1)
  }

  function Judge(o: Oracles, result: seq<FactView>, text: string): Outcome {
    JudgeFrom(o, result, text, 0)
  }

  predicate Decides(o: Oracles, existing: string, text: string) {
    IsDuplicate(o, existing, text) || IsComplement(o, existing, text)
  }

  /** `i` is the first index from `from` on that decides about `text`; |result| when none does. */
  ghost predicate IsFirst(o: Oracles, result: seq<FactView>, text: string, from: nat, i: nat) {
    && from <= i <= |result|
    && (forall k | from <= k < i :: !Decides(o, result[k].text, text))
    && (i < |result| ==> Decides(o, result[i].text, text))
  }

  lemma {:induction false} JudgeFromMeaning(o: Oracles, result: seq<FactView>, text: string, from: nat, i: nat)
    requires IsFirst(o, result, text, from, i)
    ensures JudgeFrom(o, result, text, from) ==
            if i == |result| then Appended
            else if IsDuplicate(o, result[i].text, text) then Dropped
            else Merged(i)
    decreases i - from
  {
    hide IsDuplicate, IsComplement;
    if from < i {
      JudgeFromMeaning(o, result, text, from + 1, i);
    }
  }

  lemma {:induction false} FirstExists(o: Oracles, result: seq<FactView>, text: string, from: nat) returns (i: nat)
    requires from <= |result|
    ensures IsFirst(o, result, text, from, i)
    decreases |result| - from
  {
    hide Decides;
    if from == |result| || Decides(o, result[from].text, text) {
      i := from;
    } else {
      i := FirstExists(o, result, text, from + 1);
    }
  }

  /** A fact is dropped when the first existing fact that is a duplicate or a complement is a
      duplicate, merged into it when it is a complement, and appended when there is none. */
  lemma JudgeMeaning(o: Oracles, result: seq<FactView>, text: string)
    ensures exists i: nat :: IsFirst(o, result, text, 0, i) &&
              Judge(o, result, text) ==
                if i == |result| then Appended
                else if IsDuplicate(o, result[i].text, text) then Dropped
                else Merged(i)
  {
    var i := FirstExists(o, result, text, 0);
    JudgeFromMeaning(o, result, text, 0, i);
  }

  // The same on numbers: embeddings where they are given, and otherwise the sizes of word sets.

  /** How many words two texts have in common, and how many the smaller one has. */
  function Shared(a: string, b: string, lower: string -> string): nat {
    |WordSet(Split(lower(a))) * WordSet(Split(lower(b)))|
  }

  function Smaller(a: string, b: string, lower: string -> string): nat {
    var m, n := |WordSet(Split(lower(a)))|, |WordSet(Split(lower(b)))|;
    if m <= n then m else n
  }

  /** With embeddings: the two are as close as duplicates, or as complements that share words. */
  ghost predicate Close(f: (string, string) -> real, lower: string -> string, a: string, b: string) {
    f(a, b) > 0.95 || (f(a, b) > 0.75 && 10 * Shared(a, b, lower) > 3 * Smaller(a, b, lower))
  }

  /** Without: more than three quarters of the smaller word set are shared. */
  ghost predicate Overlapping(lower: string -> string, a: string, b: string) {
    4 * Shared(a, b, lower) > 3 * Smaller(a, b, lower)
  }

  lemma ShareCompare(x: nat, y: nat, k: real)
    requires 0 < y
    ensures x as real / y as real > k <==> x as real > k * y as real
  {
    QuotientCompare(x as real, y as real, k);
  }

  /** The thresholds on word sets of any size. */
  lemma OverlapThresholds(a: string, b: string, lower: string -> string)
    ensures var shared, smaller := Shared(a, b, lower), Smaller(a, b, lower);
            && (OverlapRatio(a, b, lower) > 0.95 <==> 20 * shared > 19 * smaller)
            && (OverlapRatio(a, b, lower) > 0.75 <==> 4 * shared > 3 * smaller)
            && (OverlapRatio(a, b, lower) > 0.3 <==> 10 * shared > 3 * smaller)
  {
    var wordsA, wordsB := WordSet(Split(lower(a))), WordSet(Split(lower(b)));
    hide WordSet, Split;
    var both := wordsA * wordsB;
    SubsetSize(both, wordsA);
    SubsetSize(both, wordsB);
    if wordsA != {} && wordsB != {} {
      var least := Smaller(a, b, lower);
      assert 0 < least;
      ShareCompare(|both|, least, 0.95);
      ShareCompare(|both|, least, 0.75);
      ShareCompare(|both|, least, 0.3);
    }
  }

  lemma DecidesOnNumbers(o: Oracles, a: string, b: string)
    ensures o.embedded.Some? ==>
              && (IsDuplicate(o, a, b) <==> o.embedded.value(a, b) > 0.95)
              && (Decides(o, a, b) <==> Close(o.embedded.value, o.lower, a, b))
    ensures o.embedded.None? ==>
              && (IsDuplicate(o, a, b) <==> 20 * Shared(a, b, o.lower) > 19 * Smaller(a, b, o.lower))
              && (Decides(o, a, b) <==> Overlapping(o.lower, a, b))
  {
    OverlapThresholds(a, b, o.lower);
    hide OverlapRatio, Shared, Smaller;
  }

  /** With embeddings, the first existing fact that is closer than 0.95, or closer than 0.75 and with
      more than three tenths of the smaller word set in common, decides: the first kind drops the later
      fact, the second takes it in, and without either it is appended. */
  lemma FateByEmbedding(o: Oracles, f: (string, string) -> real, result: seq<FactView>, text: string, i: nat)
    requires o.embedded == Some(f) && i <= |result|
    requires forall k | 0 <= k < i :: !Close(f, o.lower, result[k].text, text)
    requires i < |result| ==> Close(f, o.lower, result[i].text, text)
    ensures Judge(o, result, text) ==
              if i == |result| then Appended else if f(result[i].text, text) > 0.95 then Dropped else Merged(i)
  {
    forall k | 0 <= k < |result|
      ensures Decides(o, result[k].text, text) <==> Close(f, o.lower, result[k].text, text)
      ensures IsDuplicate(o, result[k].text, text) <==> f(result[k].text, text) > 0.95
    {
      DecidesOnNumbers(o, result[k].text, text);
    }
    hide Judge, Decides, Close, IsDuplicate;
    assert IsFirst(o, result, text, 0, i);
    JudgedByFirst(o, result, text, i);
  }

  /** Without embeddings the first fact decides that has more than three quarters of the smaller word
      set in common with the later one; more than nineteen twentieths make a duplicate. */
  lemma FateByWords(o: Oracles, result: seq<FactView>, text: string, i: nat)
    requires o.embedded.None? && i <= |result|
    requires forall k | 0 <= k < i :: !Overlapping(o.lower, result[k].text, text)
    requires i < |result| ==> Overlapping(o.lower, result[i].text, text)
    ensures Judge(o, result, text) ==
              if i == |result| then Appended
              else if 20 * Shared(result[i].text, text, o.lower) > 19 * Smaller(result[i].text, text, o.lower)
              then Dropped else Merged(i)
  {
    forall k | 0 <= k < |result|
      ensures Decides(o, result[k].text, text) <==> Overlapping(o.lower, result[k].text, text)
      ensures IsDuplicate(o, result[k].text, text) <==>
                20 * Shared(result[k].text, text, o.lower) > 19 * Smaller(result[k].text, text, o.lower)
    {
      DecidesOnNumbers(o, result[k].text, text);
    }
    hide Judge, Decides, Overlapping, IsDuplicate, Shared, Smaller;
    assert IsFirst(o, result, text, 0, i);
    JudgedByFirst(o, result, text, i);
  }

  lemma JudgedByFirst(o: Oracles, result: seq<FactView>, text: string, i: nat)
    requires IsFirst(o, result, text, 0, i)
    ensures Judge(o, result, text) ==
              if i == |result| then Appended
              else if IsDuplicate(o, result[i].text, text) then Dropped
              else Merged(i)
  {
    JudgeFromMeaning(o, result, text, 0, i);
  }

  function MaxReal(x: real, y: real): real { if x >= y then x else y }

  function MergeFacts(o: Oracles, target: FactView, fact: FactView): FactView {
    FactView(MergeTexts(target.text, fact.text, o.lower), MaxReal(target.confidence, fact.confidence))
  }

  function Take(o: Oracles, result: seq<FactView>, fact: FactView, outcome: Outcome): seq<FactView> {
    match outcome
    case Dropped => result
    case Merged(t) => if t < |result| then result[t := MergeFacts(o, result[t], fact)] else result
    case Appended => result + [fact]
  }

  // ---------------------------------------------------------------------------------------------
  // A whole run, with its log

  datatype Ledger = Ledger(result: seq<FactView>, log: seq<Outcome>)

  /** The facts of the first chunk, and after them the later facts one by one. */
  function Run(o: Oracles, first: seq<FactView>, later: seq<FactView>): (l: Ledger)
    ensures |l.log| == |later|
  {
    if later == [] then Ledger(first, [])
    else
      var n := |later| - 1;
      var before := Run(o, first, later[..n]);
      var outcome := Judge(o, before.result, later[n].text);
      Ledger(Take(o, before.result, later[n], outcome), before.log + [outcome])
  }

  /** The later facts that were appended, in input order. */
  function AppendedFacts(later: seq<FactView>, log: seq<Outcome>): seq<FactView>
    requires |later| == |log|
  {
    if later == [] then []
    else
      var n := |later| - 1;
      AppendedFacts(later[..n], log[..n]) + (if log[n].Appended? then [later[n]] else [])
  }

  /** The later facts that were merged into result `t`, in input order. */
  function MergedFacts(later: seq<FactView>, log: seq<Outcome>, t: nat): seq<FactView>
    requires |later| == |log|
  {
    if later == [] then []
    else
      var n := |later| - 1;
      MergedFacts(later[..n], log[..n], t) + (if log[n] == Merged(t) then [later[n]] else [])
  }

  /** A seed after merging the given facts into it, in order. */
  function Grow(o: Oracles, seed: FactView, merged: seq<FactView>): FactView {
    if merged == [] then seed
    else MergeFacts(o, Grow(o, seed, merged[..|merged| - 1]), merged[|merged| - 1])
  }

  lemma GrowStep(o: Oracles, seed: FactView, merged: seq<FactView>, fact: FactView)
    ensures Grow(o, seed, merged + [fact]) == MergeFacts(o, Grow(o, seed, merged), fact)
  {
    assert (merged + [fact])[..|merged|] == merged;
  }

  lemma FactsStep(later: seq<FactView>, log: seq<Outcome>, fact: FactView, outcome: Outcome)
    requires |later| == |log|
    ensures AppendedFacts(later + [fact], log + [outcome]) ==
            AppendedFacts(later, log) + (if outcome.Appended? then [fact] else [])
    ensures forall t: nat :: (MergedFacts(later + [fact], log + [outcome], t) ==
              if outcome == Merged(t) then MergedFacts(later, log, t) + [fact] else MergedFacts(later, log, t))
  {
    assert (later + [fact])[..|later|] == later && (log + [outcome])[..|log|] == log;
  }

  /** Each result is its seed, grown by exactly the facts whose outcome names it. */
  ghost predicate Balanced(
      o: Oracles, seeds: seq<FactView>, result: seq<FactView>, later: seq<FactView>, log: seq<Outcome>)
    requires |later| == |log|
  {
    && |result| == |seeds|
    && (forall t | 0 <= t < |result| :: result[t] == Grow(o, seeds[t], MergedFacts(later, log, t)))
    && (forall t: nat | t >= |result| :: MergedFacts(later, log, t) == [])
  }

  lemma BalancedStep(o: Oracles, seeds: seq<FactView>, result: seq<FactView>, later: seq<FactView>, log: seq<Outcome>,
                     fact: FactView, outcome: Outcome)
    requires |later| == |log| && Balanced(o, seeds, result, later, log)
    requires outcome.Merged? ==> outcome.target < |result|
    ensures Balanced(o, seeds + (if outcome.Appended? then [fact] else []), Take(o, result, fact, outcome),
                     later + [fact], log + [outcome])
  {
    FactsStep(later, log, fact, outcome);
    assert Grow(o, fact, []) == fact;
    if outcome.Merged? {
      GrowStep(o, seeds[outcome.target], MergedFacts(later, log, outcome.target), fact);
    }
    hide Grow, MergedFacts, MergeFacts;
  }

  lemma RunSnoc(o: Oracles, first: seq<FactView>, later: seq<FactView>, fact: FactView)
    ensures var before := Run(o, first, later);
            var outcome := Judge(o, before.result, fact.text);
            Run(o, first, later + [fact]) == Ledger(Take(o, before.result, fact, outcome), before.log + [outcome])
  {
    hide Judge, Take;
    assert (later + [fact])[..|later|] == later;
  }

  /** Every later fact is accounted for once: the result lists the first chunk and then the appended
      facts in input order, each grown by exactly the facts whose outcome names it. */
  lemma {:induction false} RunAccounts(o: Oracles, first: seq<FactView>, later: seq<FactView>)
    ensures var l := Run(o, first, later);
            Balanced(o, first + AppendedFacts(later, l.log), l.result, later, l.log)
    decreases |later|
  {
    if later == [] {
      assert first + [] == first;
    } else {
      var front, fact := later[..|later| - 1], later[|later| - 1];
      assert later == front + [fact];
      RunAccounts(o, first, front);
      AccountsSnoc(o, first, front, fact);
    }
  }

  lemma AccountsSnoc(o: Oracles, first: seq<FactView>, front: seq<FactView>, fact: FactView)
    requires var l := Run(o, first, front);
             Balanced(o, first + AppendedFacts(front, l.log), l.result, front, l.log)
    ensures var l := Run(o, first, front + [fact]);
            Balanced(o, first + AppendedFacts(front + [fact], l.log), l.result, front + [fact], l.log)
  {
    hide *;
    var before := Run(o, first, front);
    var outcome := Judge(o, before.result, fact.text);
    RunSnoc(o, first, front, fact);
    JudgeTarget(o, before.result, fact.text);
    FactsStep(front, before.log, fact, outcome);
    var appended, more := AppendedFacts(front, before.log), if outcome.Appended? then [fact] else [];
    BalancedStep(o, first + appended, before.result, front, before.log, fact, outcome);
    AppendAssociates(first, appended, more);
  }

  lemma JudgeTarget(o: Oracles, result: seq<FactView>, text: string)
    ensures Judge(o, result, text).Merged? ==> Judge(o, result, text).target < |result|
  {
    JudgeMeaning(o, result, text);
    hide Judge;
  }

  /** Every fact is judged against the results as they were when its turn came. */
  lemma {:induction false} LogIsFate(o: Oracles, first: seq<FactView>, later: seq<FactView>, i: nat)
    requires i < |later|
    ensures Run(o, first, later).log[i] == Judge(o, Run(o, first, later[..i]).result, later[i].text)
    decreases |later|
  {
    var n := |later| - 1;
    var front := later[..n];
    assert later == front + [later[n]];
    RunSnoc(o, first, front, later[n]);
    hide Run, Judge, Take;
    if i < n {
      LogIsFate(o, first, front, i);
      assert front[..i] == later[..i];
    }
  }

  /** The number of results never falls, so every recorded target names a result of the whole run. */
  lemma {:induction false} RunTargets(o: Oracles, first: seq<FactView>, later: seq<FactView>)
    ensures var l := Run(o, first, later);
            && |first| <= |l.result|
            && forall i | 0 <= i < |l.log| && l.log[i].Merged? :: l.log[i].target < |l.result|
    decreases |later|
  {
    if later != [] {
      var n := |later| - 1;
      RunTargets(o, first, later[..n]);
      JudgeTarget(o, Run(o, first, later[..n]).result, later[n].text);
      hide Judge;
    }
  }

  /** What growing keeps: the text is continued, no word of a merged fact is lost, and the
      confidence is the greatest one involved. */
  lemma {:induction false} GrowKeeps(o: Oracles, seed: FactView, merged: seq<FactView>)
    ensures var grown := Grow(o, seed, merged);
            && seed.text <= grown.text
            && (forall f | f in merged :: HasWordsOf(grown.text, f.text, o.lower))
            && (forall w | w in Split(seed.text) :: w in Split(grown.text))
            && seed.confidence <= grown.confidence
            && (forall f | f in merged :: f.confidence <= grown.confidence)
            && (grown.confidence == seed.confidence || exists f | f in merged :: f.confidence == grown.confidence)
    decreases |merged|
  {
    if merged != [] {
      var front, fact := merged[..|merged| - 1], merged[|merged| - 1];
      GrowKeeps(o, seed, front);
      assert merged == front + [fact];
      GrowStep(o, seed, front, fact);
      hide Grow;
      MergeKeeps(o, Grow(o, seed, front), fact);
    }
  }

  lemma MergeKeeps(o: Oracles, target: FactView, fact: FactView)
    ensures var grown := MergeFacts(o, target, fact);
            && target.text <= grown.text && HasWordsOf(grown.text, fact.text, o.lower)
            && (forall w | w in Split(target.text) :: w in Split(grown.text))
            && (forall other: string | HasWordsOf(target.text, other, o.lower) ::
                  HasWordsOf(grown.text, other, o.lower))
            && target.confidence <= grown.confidence && fact.confidence <= grown.confidence
            && (grown.confidence == target.confidence || grown.confidence == fact.confidence)
  {
    MergeTextsCovers(target.text, fact.text, o.lower);
    hide Split, MergeTexts;
  }

  // ---------------------------------------------------------------------------------------------
  // Which words survive

  /** Some result has the word, up to case. */
  ghost predicate Survives(result: seq<FactView>, w: string, lower: string -> string) {
    exists t | 0 <= t < |result| :: HasWord(result[t].text, w, lower)
  }

  ghost predicate AllSurvive(result: seq<FactView>, text: string, lower: string -> string) {
    forall w | w in Split(text) :: Survives(result, w, lower)
  }

  /** One step loses no word that a result had, and none of the fact unless it is dropped. */
  lemma TakeSurvival(o: Oracles, result: seq<FactView>, fact: FactView, outcome: Outcome, w: string)
    requires outcome.Merged? ==> outcome.target < |result|
    ensures Survives(result, w, o.lower) ==> Survives(Take(o, result, fact, outcome), w, o.lower)
    ensures !outcome.Dropped? && w in Split(fact.text) ==> Survives(Take(o, result, fact, outcome), w, o.lower)
  {
    var after := Take(o, result, fact, outcome);
    hide Split, MergeTexts;
    if outcome.Merged? {
      MergeTextsCovers(result[outcome.target].text, fact.text, o.lower);
      if w in Split(fact.text) {
        assert HasWord(after[outcome.target].text, w, o.lower);
      }
    } else if outcome.Appended? && w in Split(fact.text) {
      assert HasWord(after[|result|].text, w, o.lower);
    }
    if Survives(result, w, o.lower) {
      var t :| 0 <= t < |result| && HasWord(result[t].text, w, o.lower);
      assert HasWord(after[t].text, w, o.lower);
    }
  }

  /** Over a whole run: every word of the first chunk survives, and every word of every later fact
      that is not dropped. */
  lemma {:induction false} WordsSurvive(o: Oracles, first: seq<FactView>, later: seq<FactView>, w: string)
    ensures var l := Run(o, first, later);
            && (Survives(first, w, o.lower) ==> Survives(l.result, w, o.lower))
            && forall i | 0 <= i < |later| && !l.log[i].Dropped? && w in Split(later[i].text) ::
                 Survives(l.result, w, o.lower)
    decreases |later|
  {
    if later != [] {
      var n := |later| - 1;
      var before := Run(o, first, later[..n]);
      WordsSurvive(o, first, later[..n], w);
      JudgeTarget(o, before.result, later[n].text);
      TakeSurvival(o, before.result, later[n], Judge(o, before.result, later[n].text), w);
      hide Survives, Judge, Take, Split;
    }
  }

  /** A step loses a word of its fact exactly when the first existing fact that decides about it is
      a duplicate and no existing fact has the word. */
  lemma WordLostIff(o: Oracles, result: seq<FactView>, fact: FactView, i: nat, w: string)
    requires IsFirst(o, result, fact.text, 0, i) && w in Split(fact.text)
    ensures !Survives(Take(o, result, fact, Judge(o, result, fact.text)), w, o.lower) <==>
              && i < |result| && IsDuplicate(o, result[i].text, fact.text)
              && !Survives(result, w, o.lower)
  {
    JudgeFromMeaning(o, result, fact.text, 0, i);
    JudgeTarget(o, result, fact.text);
    hide Survives, JudgeFrom, IsDuplicate, IsComplement, Split;
    TakeSurvival(o, result, fact, Judge(o, result, fact.text), w);
  }

  /** Lower-casing the text or its words comes to the same. */
  ghost predicate LowersByWord(text: string, lower: string -> string) {
    WordSet(Split(lower(text))) == set w | w in Split(text) :: lower(w)
  }

  /** Without embeddings, and up to 20 distinct words on the smaller side, a duplicate is a text
      whose word set contains the other's or is contained in it. */
  lemma DuplicateOfFew(o: Oracles, a: string, b: string)
    requires o.embedded.None?
    requires |WordSet(Split(o.lower(a)))| <= 20 || |WordSet(Split(o.lower(b)))| <= 20
    ensures var wordsA, wordsB := WordSet(Split(o.lower(a))), WordSet(Split(o.lower(b)));
            IsDuplicate(o, a, b) <==>
              wordsA != {} && wordsB != {} && (wordsA <= wordsB || wordsB <= wordsA)
  {
    var wordsA, wordsB := WordSet(Split(o.lower(a))), WordSet(Split(o.lower(b)));
    OverlapRatioRange(a, b, o.lower);
    hide WordSet, Split;
    if wordsA != {} && wordsB != {} {
      var both, least := wordsA * wordsB, if |wordsA| <= |wordsB| then |wordsA| else |wordsB|;
      SubsetSize(both, wordsA);
      SubsetSize(both, wordsB);
      if |both| < least {
        ShareOfFew(|both|, least);
      } else {
        Ratio(|both|, least);
      }
    }
  }

  lemma ShareOfFew(x: nat, y: nat)
    requires x < y <= 20
    ensures x as real / y as real <= DUP_SIMILARITY
  {
    QuotientCompare(x as real, y as real, DUP_SIMILARITY);
  }

  /** The family that loses words: without embeddings, a later fact of a run with one existing fact
      of at most 20 distinct words loses a word exactly when its words properly include the existing
      ones. */
  lemma LongerFactIsLost(o: Oracles, existing: FactView, fact: FactView)
    requires o.embedded.None? && |WordSet(Split(o.lower(existing.text)))| <= 20
    requires LowersByWord(existing.text, o.lower) && LowersByWord(fact.text, o.lower)
    ensures var result := Run(o, [existing], [fact]).result;
            var known, words := WordSet(Split(o.lower(existing.text))), WordSet(Split(o.lower(fact.text)));
            && (!AllSurvive(result, fact.text, o.lower) <==> known != {} && known < words)
            && (known != {} && known < words ==> result == [existing])
  {
    var known, words := WordSet(Split(o.lower(existing.text))), WordSet(Split(o.lower(fact.text)));
    var outcome := Judge(o, [existing], fact.text);
    assert Run(o, [existing], [fact]).result == Take(o, [existing], fact, outcome) by {
      assert [fact][..0] == [];
    }
    var i: nat := if Decides(o, existing.text, fact.text) then 0 else 1;
    assert IsFirst(o, [existing], fact.text, 0, i);
    JudgeFromMeaning(o, [existing], fact.text, 0, i);
    DuplicateOfFew(o, existing.text, fact.text);
    hide Run, Judge, JudgeFrom, IsDuplicate, Decides, Split, WordSet;
    forall w | w in Split(fact.text)
      ensures !Survives(Take(o, [existing], fact, outcome), w, o.lower) <==>
                i == 0 && IsDuplicate(o, existing.text, fact.text) && o.lower(w) !in known
    {
      WordLostIff(o, [existing], fact, i, w);
      SurvivesInOne(existing, w, o.lower);
    }
    hide Survives, Take, OverlapRatio;
    assert forall v | v in words :: exists w | w in Split(fact.text) :: o.lower(w) == v;
  }

  lemma SurvivesInOne(existing: FactView, w: string, lower: string -> string)
    requires LowersByWord(existing.text, lower)
    ensures Survives([existing], w, lower) <==> lower(w) in WordSet(Split(lower(existing.text)))
  {
    hide WordSet, Split;
    assert Survives([existing], w, lower) <==> HasWord([existing][0].text, w, lower);
  }

  lemma SplitOneTwo()
    ensures Split("a") == ["a"] && Split("a b") == ["a", "b"]
  {
    SplitWord("a");
    SplitWord("b");
    SplitAppend("a", "b");
    hide Split;
    assert "a" + " " + "b" == "a b";
    assert ["a"] + ["b"] == ["a", "b"];
  }

  /** The later fact "a b" is dropped for the sake of "a", and the word "b" is gone. */
  lemma WordLost()
    ensures var o, one, two := Oracles(s => s, None), FactView("a", 1.0), FactView("a b", 1.0);
            && Run(o, [one], [two]).result == [one]
            && "b" in Split(two.text) && !Survives([one], "b", o.lower)
  {
    var o, one, two := Oracles(s => s, None), FactView("a", 1.0), FactView("a b", 1.0);
    SplitOneTwo();
    hide Split, Run, Survives, AllSurvive;
    assert WordSet(Split("a")) == {"a"};
    assert "a" in WordSet(Split("a b")) && "b" in WordSet(Split("a b")) && "b" !in WordSet(Split("a"));
    LongerFactIsLost(o, one, two);
    SurvivesInOne(one, "b", o.lower);
  }

  // ---------------------------------------------------------------------------------------------
  // The program, over fact objects that it changes in place

  class IngestFact {
    var text: string
    var confidence: real

    constructor (text: string, confidence: real)
      ensures this.text == text && this.confidence == confidence
    {
      this.text, this.confidence := text, confidence;
    }

    function View(): FactView
      reads this
    {
      FactView(text, confidence)
    }
  }

  function Views(facts: seq<IngestFact>): (r: seq<FactView>)
    reads facts
    ensures |r| == |facts|
    ensures forall i | 0 <= i < |facts| :: r[i] == facts[i].View()
  {
    seq(|facts|, i requires 0 <= i < |facts| reads facts => facts[i].View())
  }

  /** What a set of facts holds now. */
  ghost function Snapshot(facts: set<IngestFact>): map<IngestFact, FactView>
    reads facts
  {
    map f | f in facts :: f.View()
  }

  // The same run on facts that have an identity: one fact may be listed several times.

  function TakeFact<F(==)>(o: Oracles, w: World<F, FactView>, fact: F): (r: World<F, FactView>)
    requires Known(w.heap, w.result) && fact in w.heap
    ensures Known(r.heap, r.result) && r.heap.Keys == w.heap.Keys
    ensures w.result <= r.result && forall f | f in r.result :: f in w.result || f == fact
  {
    match Judge(o, At(w.heap, w.result), w.heap[fact].text)
    case Dropped => w
    case Merged(t) =>
      if t < |w.result| then
        w.(heap := w.heap[w.result[t] := MergeFacts(o, w.heap[w.result[t]], w.heap[fact])])
      else w
    case Appended => w.(result := w.result + [fact])
  }

  function RunFacts<F(==)>(o: Oracles, w: World<F, FactView>, later: seq<F>): (r: World<F, FactView>)
    requires Known(w.heap, w.result) && Known(w.heap, later)
    ensures Known(r.heap, r.result) && r.heap.Keys == w.heap.Keys
    ensures w.result <= r.result && forall f | f in r.result :: f in w.result || f in later
  {
    if later == [] then w
    else TakeFact(o, RunFacts(o, w, later[..|later| - 1]), later[|later| - 1])
  }

  lemma TakeFactDistinct<F>(o: Oracles, w: World<F, FactView>, fact: F)
    requires Known(w.heap, w.result) && fact in w.heap
    requires Distinct(w.result) && fact !in w.result
    ensures var r, views := TakeFact(o, w, fact), At(w.heap, w.result);
            && Distinct(r.result)
            && At(r.heap, r.result) == Take(o, views, w.heap[fact], Judge(o, views, w.heap[fact].text))
            && forall f | f in w.heap && f !in w.result :: r.heap[f] == w.heap[f]
  {
    hide Judge, MergeFacts;
  }

  lemma {:induction false} TakeDistinct<F>(
      o: Oracles, w: World<F, FactView>, mid: World<F, FactView>, front: seq<F>, last: F)
    requires Known(w.heap, w.result) && Known(w.heap, front) && last in w.heap
    requires last !in w.result && last !in front
    requires mid == RunFacts(o, w, front) && Distinct(mid.result)
    requires At(mid.heap, mid.result) == Run(o, At(w.heap, w.result), At(w.heap, front)).result
    requires forall f | f in w.heap && f !in w.result && f !in front :: mid.heap[f] == w.heap[f]
    ensures var r := TakeFact(o, mid, last);
            && Distinct(r.result)
            && At(r.heap, r.result) == Run(o, At(w.heap, w.result), At(w.heap, front + [last])).result
            && forall f | f in w.heap && f !in w.result && f !in front + [last] :: r.heap[f] == w.heap[f]
  {
    TakeFactDistinct(o, mid, last);
    RunSnoc(o, At(w.heap, w.result), At(w.heap, front), w.heap[last]);
    hide Run, TakeFact, RunFacts, Take, Judge, Distinct;
    assert At(w.heap, front + [last]) == At(w.heap, front) + [w.heap[last]];
  }

  /** When all facts are distinct objects, identity does not matter. */
  lemma {:induction false} RunFactsDistinct<F>(o: Oracles, w: World<F, FactView>, later: seq<F>)
    requires Known(w.heap, w.result) && Known(w.heap, later)
    requires Distinct(w.result + later)
    ensures var r := RunFacts(o, w, later);
            && Distinct(r.result)
            && At(r.heap, r.result) == Run(o, At(w.heap, w.result), At(w.heap, later)).result
            && forall f | f in w.heap && f !in w.result && f !in later :: r.heap[f] == w.heap[f]
    decreases |later|
  {
    if later == [] {
      assert w.result + later == w.result;
    } else {
      var n := |later| - 1;
      var front, last := later[..n], later[n];
      assert later == front + [last];
      var mid := RunFacts(o, w, front);
      assert RunFacts(o, w, later) == TakeFact(o, mid, last);
      hide TakeFact, Run, At, Distinct;
      DistinctSnoc(w.result, front, last);
      RunFactsDistinct(o, w, front);
      TakeDistinct(o, w, mid, front, last);
    }
  }

  /** The loop over the existing facts. */
  method Decide(o: Oracles, result: seq<IngestFact>, fact: IngestFact) returns (outcome: Outcome)
    ensures outcome == Judge(o, Views(result), fact.text)
  {
    var i := 0;
    while i < |result|
      invariant i <= |result|
      invariant JudgeFrom(o, Views(result), fact.text, i) == Judge(o, Views(result), fact.text)
    {
      var existing := result[i];
      var sim := Similarity(o, existing.text, fact.text);
      if sim > DUP_SIMILARITY {
        return Dropped;
      }
      if sim > COMPLEMENT_SIMILARITY {
        var overlap := OverlapRatio(existing.text, fact.text, o.lower);
        if overlap > TOKEN_OVERLAP_THRESHOLD {
          return Merged(i);
        }
      }
      i := i + 1;
    }
    return Appended;
  }

  /** One fact of a later chunk, which may itself be among the results. */
  method Settle(o: Oracles, result: seq<IngestFact>, fact: IngestFact, ghost facts: set<IngestFact>)
    returns (r: seq<IngestFact>)
    requires fact in facts && Known(Snapshot(facts), result)
    modifies facts
    ensures World(Snapshot(facts), r) == TakeFact(o, World(old(Snapshot(facts)), result), fact)
  {
    assert Views(result) == At(Snapshot(facts), result);
    var judged := Decide(o, result, fact);
    hide Judge, MergeTexts;
    r := result;
    match judged {
      case Dropped =>
      case Merged(t) =>
        if t < |result| {
          var target := result[t];
          assert target in Snapshot(facts);
          target.text := MergeTexts(target.text, fact.text, o.lower);
          target.confidence := MaxReal(target.confidence, fact.confidence);
        }
      case Appended =>
        r := result + [fact];
    }
  }

  /** The inner loop, over the facts of one later chunk. */
  method ReconcileChunk(o: Oracles, result: seq<IngestFact>, chunk: seq<IngestFact>, ghost facts: set<IngestFact>)
    returns (r: seq<IngestFact>)
    requires Known(Snapshot(facts), result) && Known(Snapshot(facts), chunk)
    modifies facts
    ensures World(Snapshot(facts), r) == RunFacts(o, World(old(Snapshot(facts)), result), chunk)
  {
    r := result;
    hide TakeFact;
    for j := 0 to |chunk|
      invariant World(Snapshot(facts), r) == RunFacts(o, World(old(Snapshot(facts)), result), chunk[..j])
    {
      assert chunk[..j + 1][..j] == chunk[..j];
      assert chunk[j] in Snapshot(facts);
      r := Settle(o, r, chunk[j], facts);
    }
    assert chunk[..|chunk|] == chunk;
  }

  lemma {:induction false} RunFactsAppend<F>(o: Oracles, w: World<F, FactView>, later: seq<F>, more: seq<F>)
    requires Known(w.heap, w.result) && Known(w.heap, later) && Known(w.heap, more)
    ensures RunFacts(o, w, later + more) == RunFacts(o, RunFacts(o, w, later), more)
    decreases |more|
  {
    hide TakeFact;
    if more == [] {
      assert later + more == later;
    } else {
      var n := |more| - 1;
      RunFactsAppend(o, w, later, more[..n]);
      assert (later + more)[..|later + more| - 1] == later + more[..n];
    }
  }

  ghost function AllFacts(chunks: seq<seq<IngestFact>>): set<IngestFact> {
    set f | f in Flatten(chunks)
  }

  /** The facts before the call, and the first chunk as the result so far. */
  ghost function Initially(chunks: seq<seq<IngestFact>>): (w: World<IngestFact, FactView>)
    requires chunks != []
    reads Flatten(chunks)
    ensures Known(w.heap, w.result) && Known(w.heap, Flatten(chunks[1..]))
  {
    World(Snapshot(AllFacts(chunks)), chunks[0])
  }

  /** The outer loop. Facts listed several times are shared, as in the source; distinct ones give
      the run on their values. */
  method ReconcileChunkBoundaries(o: Oracles, chunks: seq<seq<IngestFact>>) returns (result: seq<IngestFact>)
    modifies Flatten(chunks)
    ensures chunks == [] ==> result == []
    ensures chunks != [] ==>
              World(Snapshot(AllFacts(chunks)), result) ==
              RunFacts(o, old(Initially(chunks)), Flatten(chunks[1..]))
    ensures chunks != [] && Distinct(Flatten(chunks)) ==>
              Views(result) == Run(o, old(Views(chunks[0])), old(Views(Flatten(chunks[1..])))).result
  {
    if chunks == [] {
      return [];
    }
    ghost var later := Flatten(chunks[1..]);
    ghost var before := Initially(chunks);
    ghost var views0, views1 := Views(chunks[0]), Views(later);
    assert views0 == At(before.heap, chunks[0]) && views1 == At(before.heap, later);
    result := ReconcileChunks(o, chunks[0], chunks[1..], AllFacts(chunks));
    if Distinct(Flatten(chunks)) {
      assert Views(result) == At(Snapshot(AllFacts(chunks)), result);
      RunFactsDistinct(o, before, later);
    }
  }

  method ReconcileChunks(
      o: Oracles, first: seq<IngestFact>, chunks: seq<seq<IngestFact>>, ghost facts: set<IngestFact>)
    returns (result: seq<IngestFact>)
    requires Known(Snapshot(facts), first) && Known(Snapshot(facts), Flatten(chunks))
    modifies facts
    ensures World(Snapshot(facts), result) == RunFacts(o, World(old(Snapshot(facts)), first), Flatten(chunks))
  {
    result := first;
    ghost var before := World(Snapshot(facts), first);
    assert chunks[..0] == [] && Flatten(chunks[..0]) == [];
    for c := 0 to |chunks|
      invariant Known(before.heap, Flatten(chunks[..c]))
      invariant World(Snapshot(facts), result) == RunFacts(o, before, Flatten(chunks[..c]))
    {
      FlattenAt(chunks, c);
      FlattenSplit(chunks, c + 1);
      hide *;
      assert Flatten(chunks[..c + 1]) == Flatten(chunks[..c]) + chunks[c];
      RunFactsAppend(o, before, Flatten(chunks[..c]), chunks[c]);
      result := ReconcileChunk(o, result, chunks[c], facts);
    }
    assert chunks[..|chunks|] == chunks;
  }
}
