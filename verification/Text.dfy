/** White space and word splitting, as Python's `str.split()` and the pattern `\s` see them. */
module Text {

  import opened Common

  /** The characters for which `str.isspace` holds. */
  predicate IsSpace(c: char) {
    || '\U{0009}' <= c <= '\U{000D}'
    || '\U{001C}' <= c <= '\U{0020}'
    || c == '\U{0085}' || c == '\U{00A0}' || c == '\U{1680}'
    || '\U{2000}' <= c <= '\U{200A}'
    || c == '\U{2028}' || c == '\U{2029}' || c == '\U{202F}' || c == '\U{205F}' || c == '\U{3000}'
  }

  predicate IsWord(w: string) {
    w != "" && forall i | 0 <= i < |w| :: !IsSpace(w[i])
  }

  /** The number of leading characters that are not white space. */
  function WordLength(s: string): (n: nat)
    ensures n <= |s|
    ensures forall i | 0 <= i < n :: !IsSpace(s[i])
    ensures n < |s| ==> IsSpace(s[n])
  {
    if s == "" || IsSpace(s[0]) then 0 else 1 + WordLength(s[1..])
  }

  /** `s.split()`: the maximal runs without white space, in order. */
  function Split(s: string): (words: seq<string>)
    ensures forall w | w in words :: IsWord(w)
    decreases |s|
  {
    if s == "" then []
    else if IsSpace(s[0]) then Split(s[1..])
    else
      var n := WordLength(s);
      [s[..n]] + Split(s[n..])
  }

  /** `" ".join(words)` */
  function JoinWords(words: seq<string>): string {
    if words == [] then "" else if |words| == 1 then words[0] else words[0] + " " + JoinWords(words[1..])
  }

  lemma {:induction false} WordLengthStops(a: string, b: string)
    requires b == "" || IsSpace(b[0])
    ensures WordLength(a + b) == WordLength(a)
  {
    hide IsSpace;
    if a == "" {
      assert a + b == b;
    } else {
      WordLengthStops(a[1..], b);
      assert (a + b)[1..] == a[1..] + b && (a + b)[0] == a[0];
    }
  }

  lemma TakeDrop(a: string, b: string, n: nat)
    requires n <= |a|
    ensures (a + b)[..n] == a[..n]
    ensures (a + b)[n..] == a[n..] + b
  {
  }

  lemma SkipSpace(a: string, tail: string)
    requires a != "" && IsSpace(a[0])
    ensures Split(a) == Split(a[1..]) && Split(a + tail) == Split(a[1..] + tail)
  {
    hide IsSpace;
    assert (a + tail)[0] == a[0] && (a + tail)[1..] == a[1..] + tail;
  }

  lemma {:induction false} FirstWord(a: string, tail: string)
    requires a != "" && !IsSpace(a[0]) && tail != "" && IsSpace(tail[0])
    ensures var n := WordLength(a);
            && 0 < n
            && Split(a) == [a[..n]] + Split(a[n..]) && Split(a + tail) == [a[..n]] + Split(a[n..] + tail)
  {
    hide IsSpace;
    WordLengthStops(a, tail);
    TakeDrop(a, tail, WordLength(a));
    assert (a + tail)[0] == a[0];
  }

  lemma SplitSpace(c: char, b: string)
    requires IsSpace(c)
    ensures Split([c] + b) == Split(b) && ([c] + b) != "" && IsSpace(([c] + b)[0])
  {
    assert ([c] + b)[1..] == b;
  }

  lemma {:induction false} SplitAt(a: string, c: char, b: string)
    requires IsSpace(c)
    ensures Split(a + [c] + b) == Split(a) + Split(b)
    decreases |a|
  {
    assert Split("") == [];
    hide *;
    SplitSpace(c, b);
    AppendAssociates(a, [c], b);
    if a == "" {
      assert "" + ([c] + b) == [c] + b;
      assert [] + Split(b) == Split(b);
    } else if IsSpace(a[0]) {
      SkipSpace(a, [c] + b);
      SplitAt(a[1..], c, b);
      AppendAssociates(a[1..], [c], b);
    } else {
      FirstWord(a, [c] + b);
      var n := WordLength(a);
      SplitAt(a[n..], c, b);
      AppendAssociates(a[n..], [c], b);
      AppendAssociates([a[..n]], Split(a[n..]), Split(b));
    }
  }

  /** White space separates: splitting distributes over it. */
  lemma SplitAppend(a: string, b: string)
    ensures Split(a + " " + b) == Split(a) + Split(b)
  {
    SplitAt(a, ' ', b);
  }

  /** The characters with the White_Space property, and the four information separators. */
  const SPACES: string :=
    "\t\n\U{0B}\U{0C}\r\U{1C}\U{1D}\U{1E}\U{1F} \U{85}\U{A0}\U{1680}\U{2000}\U{2001}\U{2002}\U{2003}\U{2004}" +
    "\U{2005}\U{2006}\U{2007}\U{2008}\U{2009}\U{200A}\U{2028}\U{2029}\U{202F}\U{205F}\U{3000}"

  /** Exactly these characters separate words: a text that has none of them is one word, and splitting
      distributes over each of them. */
  lemma SeparatorsExact(a: string, c: char, b: string)
    ensures c in SPACES ==> Split(a + [c] + b) == Split(a) + Split(b)
    ensures c !in SPACES ==> Split([c]) == [[c]]
  {
    SpacesListed(c);
    if c in SPACES {
      SplitAt(a, c, b);
    } else {
      SplitWord([c]);
    }
  }

  lemma SpacesListed(c: char)
    ensures IsSpace(c) <==> c in SPACES
  {
    var first :=
      "\t\n\U{0B}\U{0C}\r\U{1C}\U{1D}\U{1E}\U{1F} \U{85}\U{A0}\U{1680}\U{2000}\U{2001}\U{2002}\U{2003}\U{2004}";
    var second := "\U{2005}\U{2006}\U{2007}\U{2008}\U{2009}\U{200A}\U{2028}\U{2029}\U{202F}\U{205F}\U{3000}";
    assert c in SPACES <==> c in first || c in second;
  }

  lemma {:induction false} SplitWord(w: string)
    requires IsWord(w)
    ensures Split(w) == [w]
  {
    var n := WordLength(w);
    assert w[..|w|] == w && w[|w|..] == "";
  }

  /** Splitting undoes joining. */
  lemma {:induction false} SplitJoin(words: seq<string>)
    requires forall w | w in words :: IsWord(w)
    ensures Split(JoinWords(words)) == words
  {
    if words != [] {
      SplitWord(words[0]);
      if |words| > 1 {
        SplitJoin(words[1..]);
        SplitAppend(words[0], JoinWords(words[1..]));
      }
    }
  }

  /** `s.split(".")`: never empty. */
  function SplitDots(s: string): (parts: seq<string>)
    ensures parts != []
  {
    if s == "" then [""]
    else
      var rest := SplitDots(s[1..]);
      if s[0] == '.' then [""] + rest else [[s[0]] + rest[0]] + rest[1..]
  }

  predicate NoDots(s: string) {
    forall i | 0 <= i < |s| :: s[i] != '.'
  }

  lemma {:induction false} SplitDotsPlain(s: string)
    requires NoDots(s)
    ensures SplitDots(s) == [s]
  {
    if s != "" {
      SplitDotsPlain(s[1..]);
      assert [s[0]] + s[1..] == s;
    }
  }

  lemma {:induction false} SplitDotsHead(a: string, s: string)
    requires NoDots(a)
    ensures SplitDots(a + "." + s) == [a] + SplitDots(s)
  {
    var t := a + "." + s;
    if a == "" {
      assert t[1..] == s;
    } else {
      SplitDotsHead(a[1..], s);
      assert t[1..] == a[1..] + "." + s;
      assert [a[0]] + a[1..] == a;
    }
  }

  /** No part of a split contains a dot. */
  lemma {:induction false} SplitDotsParts(s: string)
    ensures forall i | 0 <= i < |SplitDots(s)| :: NoDots(SplitDots(s)[i])
  {
    if s != "" {
      SplitDotsParts(s[1..]);
    }
  }
}
