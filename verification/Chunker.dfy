/** Structure-aware chunking of crp/advanced/auto_ingest.py: protected spans are merged, and a chunk
    is cut at the first free place of the first kind that has one; if that place is the chunk's own
    start, or there is none, the chunk is full. */
module Chunker {

  import opened Common
  import opened Text
  import opened ProtectedSpans

  /** The end may be negative or in front of the start when the chunk size is. */
  datatype Chunk = Chunk(index: nat, text: string, start: nat, end: int)

  // ---------------------------------------------------------------------------------------------
  // Where to cut

  /** The fixed-width patterns of the splitter: "\n# ", "\n\n", a full stop before white space, "\n", " ". */
  datatype Pattern = Heading | Paragraph | Sentence | Line | Word {
    function Width(): nat {
      match this
      case Heading => 3
      case Paragraph => 2
      case Sentence => 2
      case Line => 1
      case Word => 1
    }

    predicate MatchesAt(s: string, i: nat)
      requires i + Width() <= |s|
    {
      match this
      case Heading => s[i] == '\n' && s[i + 1] == '#' && s[i + 2] == ' '
      case Paragraph => s[i] == '\n' && s[i + 1] == '\n'
      case Sentence => s[i] == '.' && IsSpace(s[i + 1])
      case Line => s[i] == '\n'
      case Word => s[i] == ' '
    }
  }

  /** Non-overlapping matches from `from` on, left to right. */
  function FindAll(p: Pattern, s: string, from: nat): (r: seq<nat>)
    ensures forall i | i in r :: from <= i && i + p.Width() <= |s| && p.MatchesAt(s, i)
    decreases |s| - from
  {
    if from + p.Width() > |s| then []
    else if p.MatchesAt(s, from) then [from] + FindAll(p, s, from + p.Width())
    else FindAll(p, s, from + 1)
  }

  /** A sentence is cut behind its full stop, everything else in front of the match. */
  function CutOffset(p: Pattern): nat { if p.Sentence? then 1 else 0 }

  /** The first candidate that lies in no protected span. */
  function FirstFree(candidates: seq<nat>, spans: seq<Span>): Option<nat> {
    if candidates == [] then None
    else if !InProtected(candidates[0], spans) then Some(candidates[0])
    else FirstFree(candidates[1..], spans)
  }

  function Shift(positions: seq<nat>, offset: nat): (r: seq<nat>)
    ensures |r| == |positions|
    ensures forall i | 0 <= i < |r| :: r[i] == positions[i] + offset
  {
    if positions == [] then [] else [positions[0] + offset] + Shift(positions[1..], offset)
  }

  /** text[start:end], where a negative end counts from the end of the text. */
  function PySlice(text: string, start: nat, end: int): (r: string)
    ensures start <= end <= |text| ==> r == text[start..end]
    ensures |r| <= Max(0, (if end < 0 then end + |text| else Min(end, |text|)) - start)
  {
    var stop := if end < 0 then end + |text| else Min(end, |text|);
    if start < stop then text[start..stop] else ""
  }

  /** Python's slices, with the end in all its four positions. */
  lemma PySliceMeaning(text: string, start: nat, end: int)
    ensures start <= end <= |text| ==> PySlice(text, start, end) == text[start..end]
    ensures start <= |text| <= end ==> PySlice(text, start, end) == text[start..]
    ensures end < 0 && start <= |text| + end ==> PySlice(text, start, end) == text[start..|text| + end]
    ensures (0 <= end < start || |text| <= start || |text| + end < start) ==> PySlice(text, start, end) == ""
  {
  }

  function Candidates(p: Pattern, text: string, start: nat, end: int): seq<nat> {
    var found := FindAll(p, PySlice(text, start, end), 0);
    Shift(found, start + CutOffset(p))
  }

  function FreeCut(p: Pattern, text: string, start: nat, end: int, spans: seq<Span>): Option<nat> {
    FirstFree(Candidates(p, text, start, end), spans)
  }

  /** The end of the first span, other than the last one, that ends inside the region. */
  function FirstGap(start: nat, end: int, spans: seq<Span>): Option<nat> {
    if |spans| <= 1 then None
    else if start <= spans[0].end < end then Some(spans[0].end)
    else FirstGap(start, end, spans[1..])
  }

  function OrElse(a: Option<nat>, b: Option<nat>): Option<nat> { if a.Some? then a else b }

  /** The first kind of place that has a free candidate in the region wins. */
  function FoundCut(text: string, start: nat, end: int, spans: seq<Span>): Option<nat> {
    OrElse(FreeCut(Heading, text, start, end, spans),
    OrElse(FreeCut(Paragraph, text, start, end, spans),
    OrElse(FirstGap(start, end, spans),
    OrElse(FreeCut(Sentence, text, start, end, spans),
    OrElse(FreeCut(Line, text, start, end, spans),
           FreeCut(Word, text, start, end, spans))))))
  }

  function SplitPoint(text: string, start: nat, end: int, spans: seq<Span>): int {
    var found := FoundCut(text, start, end, spans);
    if found.Some? then found.value else end
  }

  method FindFreeCut(p: Pattern, text: string, start: nat, end: int, spans: seq<Span>) returns (cut: Option<nat>)
    ensures cut == FreeCut(p, text, start, end, spans)
  {
    var candidates := Candidates(p, text, start, end);
    for i := 0 to |candidates|
      invariant FirstFree(candidates[i..], spans) == FreeCut(p, text, start, end, spans)
    {
      var pos := candidates[i];
      assert candidates[i..][1..] == candidates[i + 1..];
      if !InProtected(pos, spans) {
        return Some(pos);
      }
    }
    return None;
  }

  method FindSplitPoint(text: string, start: nat, end: int, spans: seq<Span>) returns (split: int)
    ensures split == SplitPoint(text, start, end, spans)
  {
    var cut := FindFreeCut(Heading, text, start, end, spans);
    if cut.Some? { return cut.value; }
    cut := FindFreeCut(Paragraph, text, start, end, spans);
    if cut.Some? { return cut.value; }
    for i := 0 to Max(|spans| - 1, 0)
      invariant FirstGap(start, end, spans[i..]) == FirstGap(start, end, spans)
    {
      var gapStart := spans[i].end;
      assert spans[i..][1..] == spans[i + 1..];
      if start <= gapStart < end { return gapStart; }
    }
    cut := FindFreeCut(Sentence, text, start, end, spans);
    if cut.Some? { return cut.value; }
    cut := FindFreeCut(Line, text, start, end, spans);
    if cut.Some? { return cut.value; }
    cut := FindFreeCut(Word, text, start, end, spans);
    if cut.Some? { return cut.value; }
    return end;
  }

  lemma {:induction false} FirstFreeIsFree(candidates: seq<nat>, spans: seq<Span>)
    ensures var r := FirstFree(candidates, spans);
            match r
            case None => forall c | c in candidates :: InProtected(c, spans)
            case Some(pos) => pos in candidates && !InProtected(pos, spans)
  {
    if candidates != [] {
      FirstFreeIsFree(candidates[1..], spans);
    }
  }

  lemma FreeCutIsFree(p: Pattern, text: string, start: nat, end: int, spans: seq<Span>)
    ensures var r := FreeCut(p, text, start, end, spans);
            r.Some? ==> start <= r.value < |text| && (start <= end ==> r.value < end) && !InProtected(r.value, spans)
  {
    var r := FreeCut(p, text, start, end, spans);
    FirstFreeIsFree(Candidates(p, text, start, end), spans);
    if r.Some? {
      var found := FindAll(p, PySlice(text, start, end), 0);
      var i :| 0 <= i < |found| && r.value == found[i] + (start + CutOffset(p));
      assert found[i] in found;
    }
  }

  lemma {:induction false} FirstGapBeyond(start: nat, end: int, spans: seq<Span>)
    ensures var r := FirstGap(start, end, spans);
            r.Some? ==> start <= r.value < end && exists i | 0 <= i < |spans| - 1 :: r.value == spans[i].end
  {
    var r := FirstGap(start, end, spans);
    if r.Some? && !(start <= spans[0].end < end) {
      FirstGapBeyond(start, end, spans[1..]);
      var i :| 0 <= i < |spans| - 2 && r.value == spans[1..][i].end;
      assert r.value == spans[i + 1].end;
    }
  }

  /** The end of a span that has a successor is free, because the spans are strictly separated. */
  lemma {:induction false} FirstGapIsFree(start: nat, end: int, spans: seq<Span>)
    ensures var r := FirstGap(start, end, spans);
            r.Some? ==> start <= r.value < end && (Separated(spans) && Proper(spans) ==> !InProtected(r.value, spans))
  {
    FirstGapBeyond(start, end, spans);
  }

  lemma FoundCutIsFree(text: string, start: nat, end: int, spans: seq<Span>)
    requires end <= |text|
    ensures var r := FoundCut(text, start, end, spans);
            r.Some? ==>
              && start <= r.value < |text| && (start <= end ==> r.value < end)
              && (Separated(spans) && Proper(spans) ==> !InProtected(r.value, spans))
  {
    FreeCutIsFree(Heading, text, start, end, spans);
    FreeCutIsFree(Paragraph, text, start, end, spans);
    FirstGapIsFree(start, end, spans);
    FreeCutIsFree(Sentence, text, start, end, spans);
    FreeCutIsFree(Line, text, start, end, spans);
    FreeCutIsFree(Word, text, start, end, spans);
  }

  /** The split point lies in the region; unless it is the very end, no protected span is cut. */
  lemma SplitPointIsFree(text: string, start: nat, end: nat, spans: seq<Span>)
    requires start <= end <= |text|
    ensures start <= SplitPoint(text, start, end, spans) <= end
    ensures Separated(spans) && Proper(spans) && SplitPoint(text, start, end, spans) < end ==>
              !InProtected(SplitPoint(text, start, end, spans), spans)
  {
    FoundCutIsFree(text, start, end, spans);
  }

  // Where the scan finds its matches, in terms of the characters

  /** Only runs of newlines make matches overlap; all other patterns are found wherever they are. */
  lemma {:induction false} FoundIff(p: Pattern, s: string, from: nat, i: nat)
    requires !p.Paragraph?
    ensures i in FindAll(p, s, from) <==> from <= i && i + p.Width() <= |s| && p.MatchesAt(s, i)
    decreases |s| - from
  {
    if from + p.Width() <= |s| {
      if p.MatchesAt(s, from) {
        FoundIff(p, s, from + p.Width(), i);
        assert FindAll(p, s, from) == [from] + FindAll(p, s, from + p.Width());
      } else {
        FoundIff(p, s, from + 1, i);
      }
    }
  }

  ghost predicate Newlines(s: string, from: nat, to: nat)
    requires to <= |s|
  {
    forall k | from <= k < to :: s[k] == '\n'
  }

  /** `r` is where the run of newlines around `i` begins in s[from..]. */
  ghost predicate RunBegins(s: string, from: nat, i: nat, r: nat)
    requires i <= |s|
  {
    from <= r <= i && Newlines(s, r, i) && (r == from || s[r - 1] != '\n')
  }

  /** Two newlines at an even distance from where their run begins. */
  ghost predicate EvenBreak(s: string, from: nat, i: nat) {
    && i + 2 <= |s| && s[i] == '\n' && s[i + 1] == '\n'
    && exists r | RunBegins(s, from, i, r) :: (i - r) % 2 == 0
  }

  lemma EvenBreakSkips(s: string, from: nat, i: nat)
    requires from + 2 <= |s| && s[from] == '\n' && s[from + 1] == '\n' && from < i
    ensures EvenBreak(s, from, i) <==> from + 2 <= i && EvenBreak(s, from + 2, i)
  {
    if EvenBreak(s, from, i) {
      var r :| RunBegins(s, from, i, r) && (i - r) % 2 == 0;
      assert r != from + 1;
      assert RunBegins(s, from + 2, i, if r == from then from + 2 else r);
    }
    if from + 2 <= i && EvenBreak(s, from + 2, i) {
      var r :| RunBegins(s, from + 2, i, r) && (i - r) % 2 == 0;
      assert RunBegins(s, from, i, if r == from + 2 then from else r);
    }
  }

  lemma EvenBreakMoves(s: string, from: nat, i: nat)
    requires from + 2 <= |s| && !(s[from] == '\n' && s[from + 1] == '\n')
    ensures EvenBreak(s, from, i) <==> EvenBreak(s, from + 1, i)
  {
    if EvenBreak(s, from, i) {
      var r :| RunBegins(s, from, i, r) && (i - r) % 2 == 0;
      assert r != from;
      assert RunBegins(s, from + 1, i, r);
    }
    if EvenBreak(s, from + 1, i) {
      var r :| RunBegins(s, from + 1, i, r) && (i - r) % 2 == 0;
      assert r == from + 1 ==> s[from + 1] == '\n';
      assert RunBegins(s, from, i, r);
    }
  }

  lemma {:induction false} ParagraphsFoundIff(s: string, from: nat, i: nat)
    ensures i in FindAll(Paragraph, s, from) <==> EvenBreak(s, from, i)
    decreases |s| - from
  {
    if from + 2 <= |s| {
      if Paragraph.MatchesAt(s, from) {
        ParagraphsFoundIff(s, from + 2, i);
        assert FindAll(Paragraph, s, from) == [from] + FindAll(Paragraph, s, from + 2);
        if from < i {
          EvenBreakSkips(s, from, i);
        } else {
          assert i == from ==> RunBegins(s, from, i, from);
        }
      } else {
        ParagraphsFoundIff(s, from + 1, i);
        EvenBreakMoves(s, from, i);
      }
    }
  }

  ghost predicate Ascending(r: seq<nat>) {
    forall i, j | 0 <= i < j < |r| :: r[i] < r[j]
  }

  lemma AscendingCons(x: nat, rest: seq<nat>)
    requires Ascending(rest) && forall y | y in rest :: x < y
    ensures Ascending([x] + rest)
  {
    assert forall i | 0 <= i < |rest| :: rest[i] in rest;
  }

  lemma {:induction false} FindAllAscends(p: Pattern, s: string, from: nat)
    ensures Ascending(FindAll(p, s, from))
    decreases |s| - from
  {
    if from + p.Width() <= |s| {
      if p.MatchesAt(s, from) {
        FindAllAscends(p, s, from + p.Width());
        AscendingCons(from, FindAll(p, s, from + p.Width()));
      } else {
        FindAllAscends(p, s, from + 1);
      }
    }
  }

  // What the places of the six kinds are

  /** The six kinds of places, the most wanted first. */
  datatype Kind = Headings | Paragraphs | Gaps | Sentences | Lines | Words

  const PRIORITIES: seq<Kind> := [Headings, Paragraphs, Gaps, Sentences, Lines, Words]

  /** Where the region text[start:end] ends; a negative end counts from the end of the text. */
  function RegionEnd(text: string, end: int): (stop: int)
    ensures stop <= |text|
  {
    if end < 0 then |text| + end else if end < |text| then end else |text|
  }

  /** The region has a place of this kind at `pos`, on the characters of the text. */
  ghost predicate PlaceAt(kind: Kind, text: string, start: nat, end: int, spans: seq<Span>, pos: int) {
    var stop := RegionEnd(text, end);
    match kind
    case Headings =>
      start <= pos && pos + 3 <= stop && text[pos] == '\n' && text[pos + 1] == '#' && text[pos + 2] == ' '
    case Paragraphs => 0 <= stop && 0 <= pos && EvenBreak(text[..stop], start, pos)
    case Gaps => start <= pos < end && exists i | 0 <= i < |spans| - 1 :: spans[i].end == pos
    case Sentences => start + 1 <= pos && pos + 1 <= stop && text[pos - 1] == '.' && text[pos] in SPACES
    case Lines => start <= pos < stop && text[pos] == '\n'
    case Words => start <= pos < stop && text[pos] == ' '
  }

  /** The ends of spans are taken as they are; a place of another kind has to be free. */
  ghost predicate UsablePlace(kind: Kind, text: string, start: nat, end: int, spans: seq<Span>, pos: int) {
    PlaceAt(kind, text, start, end, spans, pos) && (kind.Gaps? || !InProtected(pos, spans))
  }

  ghost predicate HasPlace(kind: Kind, text: string, start: nat, end: int, spans: seq<Span>) {
    exists pos :: UsablePlace(kind, text, start, end, spans, pos)
  }

  /** The first one: the leftmost, and of the ends of spans that of the first span. */
  ghost predicate FirstPlace(kind: Kind, text: string, start: nat, end: int, spans: seq<Span>, pos: int) {
    && UsablePlace(kind, text, start, end, spans, pos)
    && if kind.Gaps? then
         exists i | 0 <= i < |spans| - 1 ::
           spans[i].end == pos && forall j | 0 <= j < i :: !(start <= spans[j].end < end)
       else
         forall other :: UsablePlace(kind, text, start, end, spans, other) ==> pos <= other
  }

  /** `found` is the first place of this kind, if there is one. */
  ghost predicate Finds(
      found: Option<nat>, kind: Kind, text: string, start: nat, end: int, spans: seq<Span>)
  {
    match found
    case None => !HasPlace(kind, text, start, end, spans)
    case Some(pos) => FirstPlace(kind, text, start, end, spans, pos)
  }

  lemma {:induction false} FirstFreeIsLeast(candidates: seq<nat>, spans: seq<Span>)
    requires Ascending(candidates)
    ensures FirstFree(candidates, spans).Some? ==>
              forall c | c in candidates && !InProtected(c, spans) :: FirstFree(candidates, spans).value <= c
  {
    if candidates != [] {
      var rest := candidates[1..];
      assert candidates == [candidates[0]] + rest;
      assert forall c | c in rest :: candidates[0] < c;
      assert forall i | 0 <= i < |rest| :: rest[i] == candidates[i + 1];
      FirstFreeIsLeast(rest, spans);
      hide InProtected;
    }
  }

  lemma ShiftMembers(found: seq<nat>, offset: nat, pos: nat)
    ensures pos in Shift(found, offset) <==> pos >= offset && pos - offset in found
  {
    hide Shift;
    if i :| 0 <= i < |found| && found[i] == pos - offset {
      assert Shift(found, offset)[i] == pos;
    }
  }

  lemma CandidatesAscend(p: Pattern, text: string, start: nat, end: int)
    ensures Ascending(Candidates(p, text, start, end))
  {
    var found := FindAll(p, PySlice(text, start, end), 0);
    FindAllAscends(p, PySlice(text, start, end), 0);
    hide FindAll, PySlice, Shift;
    assert forall i | 0 <= i < |found| :: Candidates(p, text, start, end)[i] == found[i] + (start + CutOffset(p));
  }

  function KindOf(p: Pattern): Kind {
    match p
    case Heading => Headings
    case Paragraph => Paragraphs
    case Sentence => Sentences
    case Line => Lines
    case Word => Words
  }

  lemma EvenBreakShifts(s: string, start: nat, i: nat)
    requires start <= |s|
    ensures EvenBreak(s[start..], 0, i) <==> EvenBreak(s, start, start + i)
  {
    var region := s[start..];
    if EvenBreak(region, 0, i) {
      var r :| RunBegins(region, 0, i, r) && (i - r) % 2 == 0;
      assert RunBegins(s, start, start + i, start + r) by {
        assert forall k | start + r <= k < start + i :: s[k] == region[k - start];
      }
      assert (start + i - (start + r)) % 2 == 0;
    }
    if EvenBreak(s, start, start + i) {
      var r: nat :| RunBegins(s, start, start + i, r) && (start + i - r) % 2 == 0;
      assert RunBegins(region, 0, i, r - start);
      assert (i - (r - start)) % 2 == 0;
    }
  }

  /** Character by character. */
  lemma RegionAt(text: string, start: nat, end: int)
    ensures var region, stop := PySlice(text, start, end), RegionEnd(text, end);
            && |region| == (if start < stop then stop - start else 0)
            && forall k | 0 <= k < |region| :: region[k] == text[start + k]
  {
  }

  /** The region is a piece of the text, and empty when it ends before it starts. */
  lemma RegionIs(text: string, start: nat, end: int)
    ensures var stop := RegionEnd(text, end);
            PySlice(text, start, end) == if start < stop then text[..stop][start..] else ""
  {
  }

  lemma ParagraphsArePlaces(text: string, start: nat, end: int, spans: seq<Span>, i: nat)
    ensures i in FindAll(Paragraph, PySlice(text, start, end), 0) <==>
              PlaceAt(Paragraphs, text, start, end, spans, start + i)
  {
    var region, stop := PySlice(text, start, end), RegionEnd(text, end);
    RegionIs(text, start, end);
    ParagraphsFoundIff(region, 0, i);
    hide PySlice, FindAll, RegionEnd, RunBegins;
    if start < stop {
      EvenBreakShifts(text[..stop], start, i);
    }
  }

  lemma PlainMatch(
      p: Pattern, text: string, start: nat, end: int, spans: seq<Span>, region: string, stop: int, i: nat)
    requires !p.Paragraph? && stop == RegionEnd(text, end)
    requires |region| == (if start < stop then stop - start else 0)
    requires forall k | 0 <= k < |region| :: region[k] == text[start + k]
    ensures i + p.Width() <= |region| && p.MatchesAt(region, i) <==>
              PlaceAt(KindOf(p), text, start, end, spans, start + CutOffset(p) + i)
  {
    hide RegionEnd, IsSpace, EvenBreak;
    if p.Sentence? && i + 1 < |region| {
      SpacesListed(region[i + 1]);
    }
    hide SPACES;
  }

  /** The matches of a pattern in the region are the places of its kind. */
  lemma MatchesArePlaces(p: Pattern, text: string, start: nat, end: int, spans: seq<Span>, i: nat)
    ensures i in FindAll(p, PySlice(text, start, end), 0) <==>
              PlaceAt(KindOf(p), text, start, end, spans, start + CutOffset(p) + i)
  {
    if p.Paragraph? {
      ParagraphsArePlaces(text, start, end, spans, i);
    } else {
      var region, stop := PySlice(text, start, end), RegionEnd(text, end);
      RegionAt(text, start, end);
      hide *;
      FoundIff(p, region, 0, i);
      PlainMatch(p, text, start, end, spans, region, stop, i);
    }
  }

  lemma PlaceInRegion(p: Pattern, text: string, start: nat, end: int, spans: seq<Span>, pos: int)
    requires PlaceAt(KindOf(p), text, start, end, spans, pos)
    ensures start + CutOffset(p) <= pos
  {
    hide RegionEnd, SPACES;
  }

  /** The candidates of a pattern are the places of its kind. */
  lemma CandidatesArePlaces(p: Pattern, text: string, start: nat, end: int, spans: seq<Span>, pos: nat)
    ensures pos in Candidates(p, text, start, end) <==> PlaceAt(KindOf(p), text, start, end, spans, pos)
  {
    var i := pos - start - CutOffset(p);
    hide FindAll, PySlice, Shift, PlaceAt;
    ShiftMembers(FindAll(p, PySlice(text, start, end), 0), start + CutOffset(p), pos);
    assert pos in Candidates(p, text, start, end) <==> i >= 0 && i in FindAll(p, PySlice(text, start, end), 0);
    hide *;
    if i >= 0 {
      MatchesArePlaces(p, text, start, end, spans, i);
    } else if PlaceAt(KindOf(p), text, start, end, spans, pos) {
      PlaceInRegion(p, text, start, end, spans, pos);
    }
  }

  lemma FreeCutFinds(p: Pattern, text: string, start: nat, end: int, spans: seq<Span>)
    ensures Finds(FreeCut(p, text, start, end, spans), KindOf(p), text, start, end, spans)
  {
    var candidates, kind := Candidates(p, text, start, end), KindOf(p);
    forall pos: nat
      ensures pos in candidates <==> PlaceAt(kind, text, start, end, spans, pos)
    {
      CandidatesArePlaces(p, text, start, end, spans, pos);
    }
    forall pos: int | UsablePlace(kind, text, start, end, spans, pos)
      ensures 0 <= pos
    {
    }
    CandidatesAscend(p, text, start, end);
    FirstFreeIsFree(candidates, spans);
    FirstFreeIsLeast(candidates, spans);
    hide PlaceAt, InProtected, Candidates, FirstFree;
  }

  lemma {:induction false} FirstGapFinds(text: string, start: nat, end: int, spans: seq<Span>)
    ensures Finds(FirstGap(start, end, spans), Gaps, text, start, end, spans)
  {
    if |spans| > 1 && !(start <= spans[0].end < end) {
      FirstGapFinds(text, start, end, spans[1..]);
      assert forall i | 0 <= i < |spans| - 2 :: spans[1..][i] == spans[i + 1];
      var found := FirstGap(start, end, spans[1..]);
      if found.Some? {
        var i :| 0 <= i < |spans| - 2 && spans[1..][i].end == found.value &&
                 forall j | 0 <= j < i :: !(start <= spans[1..][j].end < end);
        assert spans[i + 1].end == found.value;
        assert forall j | 0 < j < i + 1 :: spans[j] == spans[1..][j - 1];
      } else {
        forall pos | UsablePlace(Gaps, text, start, end, spans, pos)
          ensures false
        {
          var i :| 0 <= i < |spans| - 1 && spans[i].end == pos;
          assert spans[1..][i - 1].end == pos;
          assert UsablePlace(Gaps, text, start, end, spans[1..], pos);
        }
      }
    } else if |spans| > 1 {
      assert spans[0].end == FirstGap(start, end, spans).value;
    }
  }

  /** `pos` is the first place of the first kind that has one. */
  ghost predicate BestPlace(text: string, start: nat, end: int, spans: seq<Span>, pos: int) {
    exists n | 0 <= n < |PRIORITIES| ::
      && FirstPlace(PRIORITIES[n], text, start, end, spans, pos)
      && forall m | 0 <= m < n :: !HasPlace(PRIORITIES[m], text, start, end, spans)
  }

  ghost predicate NoPlace(text: string, start: nat, end: int, spans: seq<Span>) {
    forall kind: Kind :: !HasPlace(kind, text, start, end, spans)
  }

  lemma CutIsBest(text: string, start: nat, end: int, spans: seq<Span>)
    ensures match FoundCut(text, start, end, spans)
            case None => NoPlace(text, start, end, spans)
            case Some(pos) => BestPlace(text, start, end, spans, pos)
  {
    FreeCutFinds(Heading, text, start, end, spans);
    FreeCutFinds(Paragraph, text, start, end, spans);
    FirstGapFinds(text, start, end, spans);
    FreeCutFinds(Sentence, text, start, end, spans);
    FreeCutFinds(Line, text, start, end, spans);
    FreeCutFinds(Word, text, start, end, spans);
    hide FreeCut, FirstGap, HasPlace, FirstPlace;
    var r := PRIORITIES;
    assert r[0] == Headings && r[1] == Paragraphs && r[2] == Gaps && r[3] == Sentences && r[4] == Lines &&
           r[5] == Words;
    if FoundCut(text, start, end, spans).None? {
      forall kind: Kind
        ensures !HasPlace(kind, text, start, end, spans)
      {
        match kind
        case Headings =>
        case Paragraphs =>
        case Gaps =>
        case Sentences =>
        case Lines =>
        case Words =>
      }
    }
  }

  lemma FirstPlaceUnique(kind: Kind, text: string, start: nat, end: int, spans: seq<Span>, p: int, q: int)
    requires FirstPlace(kind, text, start, end, spans, p) && FirstPlace(kind, text, start, end, spans, q)
    ensures p == q
  {
    hide InProtected, RegionEnd, EvenBreak;
  }

  lemma BestPlaceUnique(text: string, start: nat, end: int, spans: seq<Span>, p: int, q: int)
    requires BestPlace(text, start, end, spans, p) && BestPlace(text, start, end, spans, q)
    ensures p == q
  {
    var m :| 0 <= m < |PRIORITIES| && FirstPlace(PRIORITIES[m], text, start, end, spans, p) &&
             forall k | 0 <= k < m :: !HasPlace(PRIORITIES[k], text, start, end, spans);
    var n :| 0 <= n < |PRIORITIES| && FirstPlace(PRIORITIES[n], text, start, end, spans, q) &&
             forall k | 0 <= k < n :: !HasPlace(PRIORITIES[k], text, start, end, spans);
    assert HasPlace(PRIORITIES[m], text, start, end, spans) && HasPlace(PRIORITIES[n], text, start, end, spans);
    FirstPlaceUnique(PRIORITIES[m], text, start, end, spans, p, q);
  }

  /** For every region and all spans: the split point is the first place of the first of the six kinds
      that has one, and the end of the region when none has. */
  lemma SplitPointMeaning(text: string, start: nat, end: int, spans: seq<Span>)
    ensures forall pos :: BestPlace(text, start, end, spans, pos) ==> SplitPoint(text, start, end, spans) == pos
    ensures NoPlace(text, start, end, spans) ==> SplitPoint(text, start, end, spans) == end
    ensures NoPlace(text, start, end, spans) || BestPlace(text, start, end, spans, SplitPoint(text, start, end, spans))
  {
    CutIsBest(text, start, end, spans);
    hide FoundCut;
    forall pos | BestPlace(text, start, end, spans, pos)
      ensures SplitPoint(text, start, end, spans) == pos
    {
      BestHasKind(text, start, end, spans, pos);
      if FoundCut(text, start, end, spans).Some? {
        BestPlaceUnique(text, start, end, spans, pos, SplitPoint(text, start, end, spans));
      }
    }
    if NoPlace(text, start, end, spans) && FoundCut(text, start, end, spans).Some? {
      BestHasKind(text, start, end, spans, SplitPoint(text, start, end, spans));
    }
  }

  lemma BestHasKind(text: string, start: nat, end: int, spans: seq<Span>, pos: int)
    requires BestPlace(text, start, end, spans, pos)
    ensures exists kind: Kind :: HasPlace(kind, text, start, end, spans)
  {
    var n :| 0 <= n < |PRIORITIES| && FirstPlace(PRIORITIES[n], text, start, end, spans, pos);
    assert HasPlace(PRIORITIES[n], text, start, end, spans);
  }

  ghost predicate HeadingAt(text: string, pos: nat) {
    pos + 3 <= |text| && text[pos] == '\n' && text[pos + 1] == '#' && text[pos + 2] == ' '
  }

  /** If the region has a heading break outside the protected spans, the cut is at the first one. */
  lemma HeadingPreferred(text: string, start: nat, end: nat, spans: seq<Span>, pos: nat)
    requires start <= pos && pos + 3 <= end <= |text|
    requires HeadingAt(text, pos) && !InProtected(pos, spans)
    ensures var cut := FoundCut(text, start, end, spans);
            && cut.Some? && start <= cut.value <= pos && cut.value + 3 <= end
            && HeadingAt(text, cut.value) && !InProtected(cut.value, spans)
  {
    FreeCutFinds(Heading, text, start, end, spans);
    assert UsablePlace(Headings, text, start, end, spans, pos);
    hide FreeCut, InProtected;
  }

  // ---------------------------------------------------------------------------------------------
  // The chunks

  function ChunkEnd(text: string, size: int, spans: seq<Span>, pos: nat): int
    requires pos < |text|
  {
    var end := Min(pos + size, |text|);
    if end == |text| then end
    else
      var split := SplitPoint(text, pos, end, spans);
      if split <= pos then end else split
  }

  function NextStart(start: nat, end: int, overlap: int): nat {
    Max(start + 1, end - overlap)
  }

  /** The chunk with this index, as cut at its start. */
  ghost predicate IsCut(c: Chunk, index: nat, text: string, size: int, spans: seq<Span>) {
    && c.index == index
    && c.start < |text|
    && c.end == ChunkEnd(text, size, spans, c.start)
    && c.text == PySlice(text, c.start, c.end)
  }

  ghost predicate IsSlice(c: Chunk, text: string) {
    c.start <= c.end <= |text| && c.text == text[c.start..c.end]
  }

  /** Chunk by chunk, what the loop appends; `end` is where the next chunk would start. */
  ghost predicate Follows(chunks: seq<Chunk>, text: string, size: int, overlap: int, spans: seq<Span>, next: nat) {
    && (chunks == [] ==> next == 0)
    && (chunks != [] ==>
          && chunks[0].start == 0
          && next == NextStart(chunks[|chunks| - 1].start, chunks[|chunks| - 1].end, overlap))
    && (forall i | 0 <= i < |chunks| :: IsCut(chunks[i], i, text, size, spans))
    && (forall i | 0 < i < |chunks| ::
          chunks[i].start == NextStart(chunks[i - 1].start, chunks[i - 1].end, overlap))
  }

  /** The output of the splitter. */
  ghost predicate IsChunking(chunks: seq<Chunk>, text: string, size: int, overlap: int, spans: seq<Span>) {
    exists next: nat :: |text| <= next && Follows(chunks, text, size, overlap, spans, next)
  }

  lemma ChunkEndBounds(text: string, size: nat, spans: seq<Span>, pos: nat)
    requires 1 <= size && pos < |text|
    ensures pos < ChunkEnd(text, size, spans, pos) <= Min(pos + size, |text|)
  {
    SplitPointIsFree(text, pos, Min(pos + size, |text|), spans);
  }

  lemma FollowsStep(chunks: seq<Chunk>, c: Chunk, text: string, size: int, overlap: int, spans: seq<Span>)
    requires Follows(chunks, text, size, overlap, spans, c.start)
    requires IsCut(c, |chunks|, text, size, spans)
    ensures Follows(chunks + [c], text, size, overlap, spans, NextStart(c.start, c.end, overlap))
  {
    hide IsCut;
  }

  method SplitAtBoundaries(text: string, size: int, overlap: int, spans: seq<Span>) returns (chunks: seq<Chunk>)
    ensures IsChunking(chunks, text, size, overlap, spans)
  {
    chunks := [];
    var pos: nat, idx := 0, 0;
    assert Follows(chunks, text, size, overlap, spans, pos);
    hide Follows, SplitPoint, PySlice, IsChunking;
    while pos < |text|
      invariant idx == |chunks|
      invariant Follows(chunks, text, size, overlap, spans, pos)
      decreases |text| - pos
    {
      var end := Min(pos + size, |text|);
      var split := end;
      if end < |text| {
        split := FindSplitPoint(text, pos, end, spans);
        if split <= pos {
          split := end;
        }
      }
      assert split == ChunkEnd(text, size, spans, pos);
      var chunk := Chunk(idx, PySlice(text, pos, split), pos, split);
      assert IsCut(chunk, idx, text, size, spans);
      hide IsCut, ChunkEnd;
      FollowsStep(chunks, chunk, text, size, overlap, spans);
      chunks := chunks + [chunk];
      idx := idx + 1;
      pos := Max(pos + 1, split - overlap);
    }
  }

  /** Where a chunk ends: at the end of the text if that is in reach, else at the best place if it lies
      behind the chunk's start, else where the chunk is full. */
  lemma ChunkEndMeaning(text: string, size: int, spans: seq<Span>, pos: nat)
    requires pos < |text|
    ensures var end := ChunkEnd(text, size, spans, pos);
            var full := pos + size;
            if |text| <= full then end == |text|
            else if NoPlace(text, pos, full, spans) then end == full
            else exists best: int :: BestPlace(text, pos, full, spans, best) && end == if pos < best then best else full
  {
    var full := pos + size;
    if full < |text| {
      SplitPointMeaning(text, pos, full, spans);
      var split := SplitPoint(text, pos, full, spans);
      assert ChunkEnd(text, size, spans, pos) == if split <= pos then full else split;
      hide *;
    }
  }

  /** Put the chunks back together: each one up to the start of the next. */
  function Reassemble(chunks: seq<Chunk>): string {
    if chunks == [] then ""
    else if |chunks| == 1 then chunks[0].text
    else
      var step := chunks[1].start - chunks[0].start;
      (if 0 <= step <= |chunks[0].text| then chunks[0].text[..step] else chunks[0].text) +
      Reassemble(chunks[1..])
  }

  /** Non-empty bounded slices whose starts rise from 0 without leaving a gap, up to the end. */
  lemma ChunksTile(chunks: seq<Chunk>, text: string, size: int, overlap: int, spans: seq<Span>)
    requires 1 <= size && 0 <= overlap && IsChunking(chunks, text, size, overlap, spans)
    ensures chunks == [] <==> text == ""
    ensures forall c | c in chunks ::
              c.start < c.end <= |text| && c.end - c.start <= size && c.text == text[c.start..c.end]
    ensures forall i | 0 < i < |chunks| :: chunks[i - 1].start < chunks[i].start <= chunks[i - 1].end
    ensures chunks != [] ==> chunks[0].start == 0 && chunks[|chunks| - 1].end == |text|
  {
    var next: nat :| |text| <= next && Follows(chunks, text, size, overlap, spans, next);
    hide IsCut;
    forall i | 0 <= i < |chunks|
      ensures CutBounds(chunks[i], text, size)
    {
      CutIsBounded(chunks[i], i, text, size, spans);
    }
  }

  /** A non-empty slice of at most `size` characters. */
  ghost predicate CutBounds(c: Chunk, text: string, size: int) {
    && c.start < c.end <= |text| && c.end - c.start <= size
    && c.text == text[c.start..c.end]
  }

  lemma CutIsBounded(c: Chunk, index: nat, text: string, size: int, spans: seq<Span>)
    requires 1 <= size && IsCut(c, index, text, size, spans)
    ensures CutBounds(c, text, size)
  {
    hide ChunkEnd, PySlice;
    ChunkEndBounds(text, size, spans, c.start);
  }

  /** Chunks are numbered from 0, and neighbours have exactly `overlap` characters in common, or all
      but one of the earlier chunk when it is not longer than that. */
  lemma ChunksOverlap(chunks: seq<Chunk>, text: string, size: int, overlap: int, spans: seq<Span>, i: nat)
    requires 1 <= size && 0 <= overlap && IsChunking(chunks, text, size, overlap, spans) && i < |chunks|
    ensures chunks[i].index == i
    ensures 0 < i ==> chunks[i - 1].end - chunks[i].start == Min(overlap, |chunks[i - 1].text| - 1)
  {
    var next: nat :| |text| <= next && Follows(chunks, text, size, overlap, spans, next);
    assert IsCut(chunks[i], i, text, size, spans);
    if 0 < i {
      assert IsCut(chunks[i - 1], i - 1, text, size, spans);
      assert chunks[i].start == NextStart(chunks[i - 1].start, chunks[i - 1].end, overlap);
      hide Follows, IsCut;
      CutIsBounded(chunks[i - 1], i - 1, text, size, spans);
    }
  }

  lemma SlicePrefix(text: string, a: nat, b: nat, end: nat)
    requires a <= b <= end <= |text|
    ensures text[a..end][..b - a] + text[b..] == text[a..]
  {
  }

  /** Slices up to the end of the text, each starting within the one before. */
  ghost predicate Linked(chunks: seq<Chunk>, text: string) {
    && chunks != [] && chunks[|chunks| - 1].end == |text|
    && (forall i | 0 <= i < |chunks| :: IsSlice(chunks[i], text))
    && forall i | 0 < i < |chunks| :: chunks[i - 1].start < chunks[i].start <= chunks[i - 1].end
  }

  lemma LinkedTail(chunks: seq<Chunk>, text: string)
    requires Linked(chunks, text)
    ensures IsSlice(chunks[0], text)
    ensures |chunks| == 1 ==> chunks[0].end == |text|
    ensures |chunks| > 1 ==>
              && Linked(chunks[1..], text) && IsSlice(chunks[1], text)
              && chunks[0].start < chunks[1].start <= chunks[0].end
  {
    hide IsSlice;
    if |chunks| > 1 {
      var rest := chunks[1..];
      assert forall i | 0 <= i < |rest| :: rest[i] == chunks[i + 1];
    }
  }

  lemma {:induction false} ReassembleFrom(chunks: seq<Chunk>, text: string)
    requires Linked(chunks, text)
    ensures IsSlice(chunks[0], text) && Reassemble(chunks) == text[chunks[0].start..]
  {
    LinkedTail(chunks, text);
    hide Linked;
    if |chunks| > 1 {
      ReassembleFrom(chunks[1..], text);
      SlicePrefix(text, chunks[0].start, chunks[1].start, chunks[0].end);
    }
  }

  /** Nothing is lost: the chunks give back the text, whatever the overlap. */
  lemma ChunksReassemble(chunks: seq<Chunk>, text: string, size: int, overlap: int, spans: seq<Span>)
    requires 1 <= size && 0 <= overlap && IsChunking(chunks, text, size, overlap, spans)
    ensures Reassemble(chunks) == text
  {
    ChunksTile(chunks, text, size, overlap, spans);
    if chunks != [] {
      forall i | 0 <= i < |chunks|
        ensures IsSlice(chunks[i], text)
      {
        assert chunks[i] in chunks;
      }
      ReassembleFrom(chunks, text);
    }
  }

  /** With no room, or less, the last character is in no chunk. */
  lemma SmallChunk(text: string, size: int, spans: seq<Span>, pos: nat)
    requires size <= 0 && pos < |text|
    ensures |PySlice(text, pos, ChunkEnd(text, size, spans, pos))| <= |text| - 1 - pos
  {
    FoundCutIsFree(text, pos, pos + size, spans);
  }

  lemma {:induction false} ReassembleShort(chunks: seq<Chunk>, n: nat)
    requires chunks != [] && forall c | c in chunks :: |c.text| <= n - 1 - c.start
    requires forall i | 0 < i < |chunks| :: chunks[i - 1].start < chunks[i].start
    ensures |Reassemble(chunks)| <= n - 1 - chunks[0].start
  {
    if |chunks| > 1 {
      assert forall i | 0 < i < |chunks[1..]| :: chunks[1..][i] == chunks[i + 1] && chunks[1..][i - 1] == chunks[i];
      ReassembleShort(chunks[1..], n);
    }
  }

  lemma NoRoomLoses(chunks: seq<Chunk>, text: string, size: int, overlap: int, spans: seq<Span>)
    requires size <= 0 && text != "" && IsChunking(chunks, text, size, overlap, spans)
    ensures |Reassemble(chunks)| < |text|
  {
    forall c | c in chunks
      ensures |c.text| <= |text| - 1 - c.start
    {
      var i :| 0 <= i < |chunks| && chunks[i] == c;
      assert IsCut(c, i, text, size, spans);
      SmallChunk(text, size, spans, c.start);
    }
    hide IsCut, PySlice;
    ReassembleShort(chunks, |text|);
  }

  ghost predicate Lossless(size: int, overlap: int) {
    forall chunks, text, spans | IsChunking(chunks, text, size, overlap, spans) :: Reassemble(chunks) == text
  }

  lemma OneChunk(text: string, size: int, overlap: int)
    requires text != "" && ChunkEnd(text, size, [], 0) == size && |text| <= NextStart(0, size, overlap)
    ensures IsChunking([Chunk(0, PySlice(text, 0, size), 0, size)], text, size, overlap, [])
    ensures Reassemble([Chunk(0, PySlice(text, 0, size), 0, size)]) == PySlice(text, 0, size)
  {
    assert Follows([Chunk(0, PySlice(text, 0, size), 0, size)], text, size, overlap, [], NextStart(0, size, overlap));
  }

  lemma {:induction false} NothingToFind(p: Pattern, s: string, from: nat)
    requires forall i | 0 <= i < |s| :: s[i] == 'x'
    ensures FindAll(p, s, from) == []
    decreases |s| - from
  {
    if from + p.Width() <= |s| {
      NothingToFind(p, s, from + 1);
    }
  }

  lemma PlainText(text: string, end: int)
    requires forall i | 0 <= i < |text| :: text[i] == 'x'
    ensures FoundCut(text, 0, end, []) == None
  {
    var region := PySlice(text, 0, end);
    forall p: Pattern
      ensures FreeCut(p, text, 0, end, []) == None
    {
      NothingToFind(p, region, 0);
    }
  }

  /** Every text survives chunking exactly when the chunk size is positive and the overlap is not
      negative. */
  lemma LosslessIff(size: int, overlap: int)
    ensures Lossless(size, overlap) <==> 1 <= size && 0 <= overlap
  {
    if 1 <= size && 0 <= overlap {
      forall chunks, text, spans | IsChunking(chunks, text, size, overlap, spans)
        ensures Reassemble(chunks) == text
      {
        ChunksReassemble(chunks, text, size, overlap, spans);
      }
    } else {
      var n: nat := if size <= 0 then 1 else size + 1;
      var text := seq(n, _ => 'x');
      PlainText(text, size);
      OneChunk(text, size, overlap);
      hide IsChunking, PySlice;
      var chunks := [Chunk(0, PySlice(text, 0, size), 0, size)];
      assert |PySlice(text, 0, size)| < |text|;
      assert Reassemble(chunks) != text;
    }
  }

  /** A chunk that stops before the end of the text stops in front of a free position, or is full. */
  lemma ChunkEndsAreFree(chunks: seq<Chunk>, text: string, size: int, overlap: int, spans: seq<Span>)
    requires 1 <= size && Separated(spans) && Proper(spans) && IsChunking(chunks, text, size, overlap, spans)
    ensures forall c | c in chunks ::
              c.end == |text| || c.end == c.start + size || !InProtected(c.end, spans)
  {
    hide SplitPoint, Separated, Proper;
    forall c | c in chunks
      ensures c.end == |text| || c.end == c.start + size || !InProtected(c.end, spans)
    {
      var i :| 0 <= i < |chunks| && chunks[i] == c;
      assert IsCut(c, i, text, size, spans);
      SplitPointIsFree(text, c.start, Min(c.start + size, |text|), spans);
    }
  }

  /** When exactly a chunk ends in a protected span: the full chunk would, and the winning place is
      the chunk's own start or there is none at all. */
  lemma ProtectedEndIff(text: string, size: int, spans: seq<Span>, pos: nat)
    requires Separated(spans) && Proper(spans) && pos < |text| && pos + size < |text|
    ensures InProtected(ChunkEnd(text, size, spans, pos), spans) <==>
              && InProtected(pos + size, spans)
              && var cut := FoundCut(text, pos, pos + size, spans);
                 cut.None? || cut.value == pos
  {
    hide FoundCut, InProtected, Separated, Proper;
    FoundCutIsFree(text, pos, pos + size, spans);
  }

  /** So a free place may be there and not be used: the heading at the start of the chunk wins, the
      blank at 4 is left alone, and the code block from 5 to 14 is cut at 8. */
  lemma FreePlaceUnused(text: string, code: Span)
    requires text == "\n# a ```b c```" && code == Span(5, 14, "code_block")
    ensures text[code.start..code.start + 3] == "```" == text[code.end - 3..code.end]
    ensures Separated([code]) && Proper([code])
    ensures ChunkEnd(text, 8, [code], 0) == 8 && InProtected(8, [code])
    ensures Word.MatchesAt(text, 4) && !InProtected(4, [code])
  {
    assert HeadingAt(text, 0) && !InProtected(0, [code]);
    assert code in [code];
    hide ChunkEnd, HeadingAt;
    HeadingStays(text, 8, [code]);
  }

  lemma HeadingStays(text: string, size: nat, spans: seq<Span>)
    requires 3 <= size < |text| && HeadingAt(text, 0) && !InProtected(0, spans)
    ensures ChunkEnd(text, size, spans, 0) == size
  {
    HeadingPreferred(text, 0, size, spans, 0);
    hide FoundCut, HeadingAt, InProtected;
  }

  /** When the overlap makes the next chunk start inside a protected span: without overlap only if the
      chunk ends in one, and after a free end exactly if a span that reaches back to the start of the
      overlap, or before it, ends within it. */
  lemma NextStartProtectedIff(text: string, size: int, overlap: int, spans: seq<Span>, pos: nat)
    requires 1 <= size && 0 <= overlap && pos < |text|
    ensures var end := ChunkEnd(text, size, spans, pos);
            var next := NextStart(pos, end, overlap);
            && (overlap == 0 ==> next == end)
            && (!InProtected(end, spans) ==>
                  (InProtected(next, spans) <==> exists s | s in spans :: s.start <= next < s.end <= end))
  {
    ChunkEndBounds(text, size, spans, pos);
    var end := ChunkEnd(text, size, spans, pos);
    var next := NextStart(pos, end, overlap);
    hide ChunkEnd;
    if !InProtected(end, spans) && InProtected(next, spans) {
      var s :| s in spans && s.start <= next < s.end;
      assert !(s.start <= end < s.end);
    }
  }

  /** What a span loses by that: nothing. A non-empty span of the text is whole in some chunk, unless
      a chunk ends strictly inside it. */
  lemma SpanKeptWhole(chunks: seq<Chunk>, text: string, size: int, overlap: int, spans: seq<Span>, s: Span)
    requires 1 <= size && 0 <= overlap && IsChunking(chunks, text, size, overlap, spans)
    requires s.start < s.end <= |text| && forall c | c in chunks :: !(s.start < c.end < s.end)
    ensures exists c | c in chunks :: c.start <= s.start && s.end <= c.end
  {
    hide *;
    FirstChunk(chunks, text, size, overlap, spans);
    var i := LastStartBefore(chunks, s.start, |chunks| - 1);
    ChunkReaches(chunks, text, size, overlap, spans, i);
    assert chunks[i] in chunks;
  }

  lemma FirstChunk(chunks: seq<Chunk>, text: string, size: int, overlap: int, spans: seq<Span>)
    requires 1 <= size && 0 <= overlap && IsChunking(chunks, text, size, overlap, spans) && text != ""
    ensures chunks != [] && chunks[0].start == 0
  {
    ChunksTile(chunks, text, size, overlap, spans);
  }

  /** A chunk reaches the start of the next one, or the end of the text. */
  lemma ChunkReaches(chunks: seq<Chunk>, text: string, size: int, overlap: int, spans: seq<Span>, i: nat)
    requires 1 <= size && 0 <= overlap && IsChunking(chunks, text, size, overlap, spans) && i < |chunks|
    ensures (if i + 1 < |chunks| then chunks[i + 1].start else |text|) <= chunks[i].end
  {
    var last: nat :| |text| <= last && Follows(chunks, text, size, overlap, spans, last);
    assert IsCut(chunks[i], i, text, size, spans);
    assert i + 1 == |chunks| ==> |text| <= last == NextStart(chunks[i].start, chunks[i].end, overlap);
    assert i + 1 < |chunks| ==> chunks[i + 1].start == NextStart(chunks[i].start, chunks[i].end, overlap);
    hide Follows;
    CutIsBounded(chunks[i], i, text, size, spans);
  }

  /** The last chunk that starts at or before a position. */
  lemma {:induction false} LastStartBefore(chunks: seq<Chunk>, pos: nat, n: nat) returns (i: nat)
    requires n < |chunks| && chunks[0].start <= pos
    requires forall j | n < j < |chunks| :: pos < chunks[j].start
    ensures i < |chunks| && chunks[i].start <= pos
    ensures forall j | i < j < |chunks| :: pos < chunks[j].start
  {
    if chunks[n].start <= pos {
      i := n;
    } else {
      i := LastStartBefore(chunks, pos, n - 1);
    }
  }

  /** The chunking step of ingestion: merge the detected spans, then cut. The size comes from the
      token budget and may be negative; the overlap is a tenth of it, up to a limit. Exactly the
      positive sizes lose nothing, and unless a chunk is full or ends the text, it ends inside no
      detected span. */
  method ChunkText(text: string, size: int, limit: nat, detected: seq<ProtectedSpan>) returns (chunks: seq<Chunk>)
    modifies detected
    ensures Reassemble(chunks) == text <==> text == "" || 1 <= size
    ensures 1 <= size && Distinct(detected) && Proper(old(Views(detected))) ==>
              forall c | c in chunks ::
                c.end == |text| || c.end == c.start + size || !InProtected(c.end, old(Views(detected)))
  {
    ghost var views := Views(detected);
    var merged := MergeOverlappingSpans(detected);
    var spans := Views(merged);
    var overlap := Min(size / 10, limit);
    chunks := SplitAtBoundaries(text, size, overlap, spans);
    MergeSpansKeepsPositions(views);
    hide MergeSpans, ChunkEnd, IsChunking, Separated;
    if 1 <= size {
      ChunksReassemble(chunks, text, size, overlap, spans);
      if Distinct(detected) && Proper(views) {
        ChunkEndsAreFree(chunks, text, size, overlap, spans);
      }
    } else if text != "" {
      NoRoomLoses(chunks, text, size, overlap, spans);
    } else {
      StartsInText(chunks, text, size, overlap, spans);
    }
  }

  lemma StartsInText(chunks: seq<Chunk>, text: string, size: int, overlap: int, spans: seq<Span>)
    requires IsChunking(chunks, text, size, overlap, spans)
    ensures forall i | 0 <= i < |chunks| :: chunks[i].start < |text|
  {
    forall i | 0 <= i < |chunks|
      ensures chunks[i].start < |text|
    {
      assert IsCut(chunks[i], i, text, size, spans);
    }
  }
}
