/** The HMAC event chain of crp_shared/audit.py.

    The keyed MAC and SHA-256 are arbitrary functions into 64 hex digits. Such functions cannot be
    injective on all strings, so every result that needs it assumes that they do not collide on the
    payloads and data it is about. Event data is its canonical JSON text. */
module AuditChain {

  import opened Common

  predicate IsHexDigit(c: char) { '0' <= c <= '9' || 'a' <= c <= 'f' }

  type Digest = d: string | |d| == 64 && forall i | 0 <= i < 64 :: IsHexDigit(d[i])
    witness seq(64, i => '0')

  /** `mac` takes the session id, from which the key is derived, and the payload. */
  datatype Crypto = Crypto(mac: (string, string) -> Digest, sha: string -> Digest)

  datatype Severity = DEBUG | INFO | WARN | CRITICAL

  datatype Event = Event(
    kind: string,
    severity: Severity,
    sessionId: string,
    windowId: string,
    data: string,
    timestamp: string,
    hmac: string,
    index: int)

  const PREFIX: string := "sha256:"

  function Tag(d: Digest): (r: string)
    ensures |r| == 71 && r[6] == ':' && r[0] == 's'
  {
    PREFIX + d
  }

  function CanonicalDataHash(c: Crypto, data: string): string { Tag(c.sha(data)) }

  function Payload(c: Crypto, e: Event, previous: string): string {
    e.kind + e.timestamp + CanonicalDataHash(c, e.data) + e.windowId + previous
  }

  function ComputeEventHmac(c: Crypto, sid: string, e: Event, previous: string): string {
    Tag(c.mac(sid, Payload(c, e, previous)))
  }

  // ---------------------------------------------------------------------------------------------
  // Decoding a payload

  predicate IsTypeChar(ch: char) { 'A' <= ch <= 'Z' || ch == '_' }

  predicate IsTimestampChar(ch: char) {
    '0' <= ch <= '9' || ch == '-' || ch == ':' || ch == 'T' || ch == '+' || ch == '.' || ch == 'Z'
  }

  /** A type name such as TOOL_CALL and an ISO timestamp. */
  predicate WellFormed(e: Event) {
    && (forall i | 0 <= i < |e.kind| :: IsTypeChar(e.kind[i]))
    && e.timestamp != "" && '0' <= e.timestamp[0] <= '9'
    && (forall i | 0 <= i < |e.timestamp| :: IsTimestampChar(e.timestamp[i]))
  }

  predicate NoColon(w: string) {
    forall i | 0 <= i < |w| :: w[i] != ':'
  }

  ghost predicate IsTag(h: string) {
    exists d: Digest :: h == Tag(d)
  }

  /** What can stand in front of an event: nothing, or the HMAC of another one. */
  ghost predicate IsPrevious(h: string) {
    h == "" || IsTag(h)
  }

  /** Two texts that are cut at their first character outside P are cut at the same place. */
  lemma CutUnique(a: string, x: string, b: string, y: string, P: char -> bool)
    requires a + x == b + y
    requires (forall i | 0 <= i < |a| :: P(a[i])) && (forall i | 0 <= i < |b| :: P(b[i]))
    requires x != "" && y != "" && !P(x[0]) && !P(y[0])
    ensures a == b && x == y
  {
    var s := a + x;
    assert s[|a|] == x[0] && s[|b|] == y[0];
    assert (forall i | 0 <= i < |a| :: P(s[i])) && (forall i | 0 <= i < |b| :: P(s[i]));
    SameLengthCut(a, x, b, y);
  }

  lemma SameLengthCut(a: string, x: string, b: string, y: string)
    requires a + x == b + y && |a| == |b|
    ensures a == b && x == y
  {
    assert a == (a + x)[..|a|] && b == (b + y)[..|b|];
    assert x == (a + x)[|a|..] && y == (b + y)[|b|..];
  }

  lemma TagInjective(d: Digest, d': Digest)
    requires Tag(d) == Tag(d')
    ensures d == d'
  {
    SameLengthCut(PREFIX, d, PREFIX, d');
  }

  /** Without a separator, the payload still determines the type, the timestamp, the data hash and
      the text made of window id and previous HMAC. */
  lemma PayloadEqual(c: Crypto, e: Event, p: string, f: Event, q: string)
    requires WellFormed(e) && WellFormed(f)
    ensures Payload(c, e, p) == Payload(c, f, q) <==>
              e.kind == f.kind && e.timestamp == f.timestamp && c.sha(e.data) == c.sha(f.data) &&
              e.windowId + p == f.windowId + q
  {
    var hashE, hashF := CanonicalDataHash(c, e.data), CanonicalDataHash(c, f.data);
    var tailE, tailF := e.windowId + p, f.windowId + q;
    assert Payload(c, e, p) == e.kind + (e.timestamp + (hashE + tailE));
    assert Payload(c, f, q) == f.kind + (f.timestamp + (hashF + tailF));
    if Payload(c, e, p) == Payload(c, f, q) {
      CutUnique(e.kind, e.timestamp + (hashE + tailE), f.kind, f.timestamp + (hashF + tailF), IsTypeChar);
      CutUnique(e.timestamp, hashE + tailE, f.timestamp, hashF + tailF, IsTimestampChar);
      SameLengthCut(hashE, tailE, hashF, tailF);
      TagInjective(c.sha(e.data), c.sha(f.data));
    }
  }

  /** Exactly one ambiguity is left: a first event whose window id ends in what another event has
      as its previous HMAC. */
  lemma PayloadAmbiguity(c: Crypto, e: Event, p: string, f: Event, q: string)
    requires WellFormed(e) && WellFormed(f) && IsPrevious(p) && IsPrevious(q)
    ensures Payload(c, e, p) == Payload(c, f, q) <==>
              && e.kind == f.kind && e.timestamp == f.timestamp && c.sha(e.data) == c.sha(f.data)
              && (|| (e.windowId == f.windowId && p == q)
                  || (p == "" && q != "" && e.windowId == f.windowId + q)
                  || (q == "" && p != "" && f.windowId == e.windowId + p))
  {
    PayloadEqual(c, e, p, f, q);
    var w, v := e.windowId, f.windowId;
    assert w + "" == w && v + "" == v;
    if w + p == v + q && |p| == |q| {
      assert |w| == |v|;
      SameLengthCut(w, p, v, q);
    }
  }

  lemma TagHasColon(w: string, h: string)
    requires IsTag(h)
    ensures !NoColon(w + h)
  {
    assert (w + h)[|w| + 6] == h[6];
  }

  /** Window ids without a colon exclude it: the payload is uniquely decodable. */
  lemma PayloadDecodable(c: Crypto, e: Event, p: string, f: Event, q: string)
    requires WellFormed(e) && WellFormed(f) && IsPrevious(p) && IsPrevious(q)
    requires NoColon(e.windowId) && NoColon(f.windowId)
    requires Payload(c, e, p) == Payload(c, f, q)
    ensures e.kind == f.kind && e.timestamp == f.timestamp && c.sha(e.data) == c.sha(f.data)
    ensures e.windowId == f.windowId && p == q
  {
    PayloadAmbiguity(c, e, p, f, q);
    if p != "" {
      TagHasColon(e.windowId, p);
    }
    if q != "" {
      TagHasColon(f.windowId, q);
    }
  }

  // ---------------------------------------------------------------------------------------------
  // Chains

  function Previous(events: seq<Event>, i: nat): string
    requires i <= |events|
  {
    if i == 0 then "" else events[i - 1].hmac
  }

  /** Event `i` carries the MAC of its fields and of the HMAC before it. */
  predicate Linked(c: Crypto, sid: string, events: seq<Event>, i: nat)
    requires i < |events|
  {
    events[i].hmac == ComputeEventHmac(c, sid, events[i], Previous(events, i))
  }

  ghost predicate ValidChain(c: Crypto, sid: string, events: seq<Event>) {
    forall i | 0 <= i < |events| :: Linked(c, sid, events, i)
  }

  /** The fields that the MAC covers. */
  datatype Covered = Covered(kind: string, timestamp: string, data: string, windowId: string)

  function Cover(e: Event): Covered { Covered(e.kind, e.timestamp, e.data, e.windowId) }

  function PayloadAt(c: Crypto, events: seq<Event>, i: nat): string
    requires i < |events|
  {
    Payload(c, events[i], Previous(events, i))
  }

  /** Neither function collides on what the two lists feed it. */
  ghost predicate NoCollision(c: Crypto, sid: string, es: seq<Event>, fs: seq<Event>) {
    && (forall i, j | 0 <= i < |es| && 0 <= j < |fs| ::
          c.mac(sid, PayloadAt(c, es, i)) == c.mac(sid, PayloadAt(c, fs, j)) ==>
            PayloadAt(c, es, i) == PayloadAt(c, fs, j))
    && (forall i, j | 0 <= i < |es| && 0 <= j < |fs| ::
          c.sha(es[i].data) == c.sha(fs[j].data) ==> es[i].data == fs[j].data)
  }

  ghost predicate Sound(c: Crypto, sid: string, events: seq<Event>) {
    && ValidChain(c, sid, events)
    && forall i | 0 <= i < |events| :: WellFormed(events[i]) && NoColon(events[i].windowId)
  }

  lemma PreviousIsPrevious(c: Crypto, sid: string, events: seq<Event>, i: nat)
    requires ValidChain(c, sid, events) && i <= |events|
    ensures IsPrevious(Previous(events, i))
    ensures Previous(events, i) == "" <==> i == 0
  {
    if i > 0 {
      assert Linked(c, sid, events, i - 1);
    }
  }

  /** Equal HMACs in two chains mean equal covered fields and equal predecessors. */
  lemma EqualHmacs(c: Crypto, sid: string, es: seq<Event>, i: nat, fs: seq<Event>, j: nat)
    requires Sound(c, sid, es) && Sound(c, sid, fs) && NoCollision(c, sid, es, fs)
    requires i < |es| && j < |fs| && es[i].hmac == fs[j].hmac
    ensures Cover(es[i]) == Cover(fs[j])
    ensures Previous(es, i) == Previous(fs, j)
  {
    assert Linked(c, sid, es, i) && Linked(c, sid, fs, j);
    TagInjective(c.mac(sid, PayloadAt(c, es, i)), c.mac(sid, PayloadAt(c, fs, j)));
    PreviousIsPrevious(c, sid, es, i);
    PreviousIsPrevious(c, sid, fs, j);
    PayloadDecodable(c, es[i], Previous(es, i), fs[j], Previous(fs, j));
  }

  /** The chain tip commits to the whole history. */
  lemma {:induction false} TipCommits(c: Crypto, sid: string, es: seq<Event>, i: nat, fs: seq<Event>, j: nat)
    requires Sound(c, sid, es) && Sound(c, sid, fs) && NoCollision(c, sid, es, fs)
    requires i < |es| && j < |fs| && es[i].hmac == fs[j].hmac
    ensures i == j
    ensures forall k | 0 <= k <= i :: Cover(es[k]) == Cover(fs[k]) && es[k].hmac == fs[k].hmac
  {
    EqualHmacs(c, sid, es, i, fs, j);
    PreviousIsPrevious(c, sid, es, i);
    PreviousIsPrevious(c, sid, fs, j);
    if i > 0 {
      TipCommits(c, sid, es, i - 1, fs, j - 1);
    }
  }

  /** No HMAC occurs twice in a chain. */
  lemma HmacsDistinct(c: Crypto, sid: string, es: seq<Event>)
    requires Sound(c, sid, es) && NoCollision(c, sid, es, es)
    ensures forall i, j | 0 <= i < j < |es| :: es[i].hmac != es[j].hmac
  {
    forall i, j | 0 <= i < j < |es|
      ensures es[i].hmac != es[j].hmac
    {
      if es[i].hmac == es[j].hmac {
        TipCommits(c, sid, es, i, es, j);
      }
    }
  }

  // ---------------------------------------------------------------------------------------------
  // The event table

  /** The rows of one session, in insertion order. */
  function Select(rows: seq<Event>, sid: string): (r: seq<Event>)
    ensures forall e | e in r :: e.sessionId == sid
  {
    if rows == [] then []
    else
      var n := |rows| - 1;
      Select(rows[..n], sid) + (if rows[n].sessionId == sid then [rows[n]] else [])
  }

  /** ORDER BY event_index ASC */
  function InsertByIndex(sorted: seq<Event>, e: Event): seq<Event> {
    if sorted == [] then [e]
    else
      var n := |sorted| - 1;
      if sorted[n].index <= e.index then sorted + [e]
      else InsertByIndex(sorted[..n], e) + [sorted[n]]
  }

  function OrderByIndex(rows: seq<Event>): seq<Event> {
    if rows == [] then []
    else InsertByIndex(OrderByIndex(rows[..|rows| - 1]), rows[|rows| - 1])
  }

  /** ORDER BY event_index DESC LIMIT 1 */
  function LastHmac(rows: seq<Event>): string {
    var sorted := OrderByIndex(rows);
    if sorted == [] then "" else sorted[|sorted| - 1].hmac
  }

  /** COALESCE(MAX(event_index), -1) + 1 */
  function NextIndex(rows: seq<Event>): int {
    MaxIndex(rows) + 1
  }

  function MaxIndex(rows: seq<Event>): int {
    if rows == [] then -1
    else
      var n := |rows| - 1;
      if n == 0 || MaxIndex(rows[..n]) <= rows[n].index then rows[n].index else MaxIndex(rows[..n])
  }

  const DEFAULT_LIMIT: nat := 1000

  /** LIMIT and OFFSET on the ordered rows of a session. */
  function GetEvents(rows: seq<Event>, sid: string, limit: nat, offset: nat): seq<Event> {
    var sorted := OrderByIndex(Select(rows, sid));
    var rest := if offset <= |sorted| then sorted[offset..] else [];
    if limit <= |rest| then rest[..limit] else rest
  }

  /** Indices 0, 1, 2, ... in insertion order. */
  ghost predicate Numbered(events: seq<Event>) {
    forall i | 0 <= i < |events| :: events[i].index == i
  }

  lemma {:induction false} NumberedQueries(events: seq<Event>)
    requires Numbered(events)
    ensures OrderByIndex(events) == events
    ensures NextIndex(events) == |events|
    ensures LastHmac(events) == Previous(events, |events|)
    decreases |events|
  {
    if events != [] {
      var n := |events| - 1;
      NumberedQueries(events[..n]);
      assert events == events[..n] + [events[n]];
    }
  }

  /** A page of a session numbered from 0 has the rows with the indices from `offset` on, `limit` of them
      as far as there are so many. */
  lemma PageOfNumbered(rows: seq<Event>, sid: string, limit: nat, offset: nat)
    requires Numbered(Select(rows, sid))
    ensures var page, mine := GetEvents(rows, sid, limit, offset), Select(rows, sid);
            && |page| == Min(limit, Max(0, |mine| - offset))
            && forall i | 0 <= i < |page| :: page[i] == mine[offset + i] && page[i].index == offset + i
  {
    NumberedQueries(Select(rows, sid));
    hide Select, OrderByIndex;
  }

  /** On any rows, two successive pages make one longer page. */
  lemma PagesJoin(rows: seq<Event>, sid: string, limit: nat, more: nat, offset: nat)
    ensures GetEvents(rows, sid, limit, offset) + GetEvents(rows, sid, more, offset + limit) ==
            GetEvents(rows, sid, limit + more, offset)
  {
    hide Select, OrderByIndex;
    var sorted := OrderByIndex(Select(rows, sid));
    if offset + limit <= |sorted| {
      assert sorted[offset..][limit..] == sorted[offset + limit..];
    }
  }

  /** Indices never fall in insertion order. */
  ghost predicate Ascending(events: seq<Event>) {
    forall i, j | 0 <= i < j < |events| :: events[i].index <= events[j].index
  }

  lemma {:induction false} InsertMembers(sorted: seq<Event>, e: Event)
    ensures multiset(InsertByIndex(sorted, e)) == multiset(sorted) + multiset{e}
    decreases |sorted|
  {
    if sorted != [] {
      var n := |sorted| - 1;
      InsertMembers(sorted[..n], e);
      assert sorted == sorted[..n] + [sorted[n]];
    }
  }

  lemma {:induction false} InsertAscends(sorted: seq<Event>, e: Event)
    requires Ascending(sorted)
    ensures Ascending(InsertByIndex(sorted, e))
    decreases |sorted|
  {
    if sorted != [] && sorted[|sorted| - 1].index > e.index {
      var front, last := sorted[..|sorted| - 1], sorted[|sorted| - 1];
      var rest := InsertByIndex(front, e);
      InsertAscends(front, e);
      InsertMembers(front, e);
      hide InsertByIndex;
      forall i | 0 <= i < |rest|
        ensures rest[i].index <= last.index
      {
        assert rest[i] in multiset(rest);
        assert rest[i] == e || rest[i] in front;
      }
      assert InsertByIndex(sorted, e) == rest + [last];
    }
  }

  lemma {:induction false} OrderSorts(rows: seq<Event>)
    ensures multiset(OrderByIndex(rows)) == multiset(rows) && Ascending(OrderByIndex(rows))
    decreases |rows|
  {
    if rows != [] {
      var n := |rows| - 1;
      OrderSorts(rows[..n]);
      InsertMembers(OrderByIndex(rows[..n]), rows[n]);
      InsertAscends(OrderByIndex(rows[..n]), rows[n]);
      assert rows == rows[..n] + [rows[n]];
    }
  }

  lemma {:induction false} MaxIndexIsGreatest(rows: seq<Event>)
    requires rows != []
    ensures (forall e | e in rows :: e.index <= MaxIndex(rows)) && exists e | e in rows :: e.index == MaxIndex(rows)
    decreases |rows|
  {
    var n := |rows| - 1;
    assert rows == rows[..n] + [rows[n]];
    if n > 0 {
      MaxIndexIsGreatest(rows[..n]);
    }
  }

  lemma LastIsGreatest(sorted: seq<Event>, f: Event)
    requires Ascending(sorted) && f in sorted
    ensures f.index <= sorted[|sorted| - 1].index
  {
  }

  /** On any rows at all: the query lists every row once, by index; the last HMAC is that of a row with the
      greatest index, and the next index is one more than that, or 0. */
  lemma {:induction false} QueriesSort(rows: seq<Event>)
    ensures multiset(OrderByIndex(rows)) == multiset(rows) && Ascending(OrderByIndex(rows))
    ensures if rows == [] then NextIndex(rows) == 0 && LastHmac(rows) == ""
            else exists e | e in rows ::
              e.index == NextIndex(rows) - 1 && e.hmac == LastHmac(rows) && forall f | f in rows :: f.index <= e.index
  {
    OrderSorts(rows);
    var sorted := OrderByIndex(rows);
    if rows != [] {
      MaxIndexIsGreatest(rows);
      assert |sorted| == |multiset(sorted)| == |rows|;
      var e := sorted[|sorted| - 1];
      assert LastHmac(rows) == e.hmac && NextIndex(rows) == MaxIndex(rows) + 1;
      hide *;
      assert e in multiset(sorted) && e in rows;
      forall f | f in rows
        ensures f.index <= e.index
      {
        assert f in multiset(sorted);
        LastIsGreatest(sorted, f);
      }
    }
  }

  /** The row that recording `e` inserts. */
  function Seal(c: Crypto, rows: seq<Event>, e: Event): Event {
    var mine := Select(rows, e.sessionId);
    e.(index := NextIndex(mine), hmac := ComputeEventHmac(c, e.sessionId, e, LastHmac(mine)))
  }

  function Record(c: Crypto, rows: seq<Event>, e: Event): seq<Event> {
    rows + [Seal(c, rows, e)]
  }

  function RecordAll(c: Crypto, rows: seq<Event>, es: seq<Event>): seq<Event> {
    if es == [] then rows
    else Record(c, RecordAll(c, rows, es[..|es| - 1]), es[|es| - 1])
  }

  /** Every session is numbered from 0 and forms a valid chain. */
  ghost predicate WellKept(c: Crypto, rows: seq<Event>) {
    forall sid: string :: Numbered(Select(rows, sid)) && ValidChain(c, sid, Select(rows, sid))
  }

  lemma SelectAppend(rows: seq<Event>, e: Event, sid: string)
    ensures Select(rows + [e], sid) == Select(rows, sid) + (if e.sessionId == sid then [e] else [])
  {
    assert (rows + [e])[..|rows|] == rows;
  }

  lemma {:induction false} SealFits(c: Crypto, rows: seq<Event>, e: Event)
    requires WellKept(c, rows)
    ensures var mine, sealed := Select(rows, e.sessionId), Seal(c, rows, e);
            && sealed == e.(index := |mine|, hmac := "sha256:" + c.mac(e.sessionId,
                 e.kind + e.timestamp + ("sha256:" + c.sha(e.data)) + e.windowId + Previous(mine, |mine|)))
            && Numbered(mine + [sealed]) && ValidChain(c, e.sessionId, mine + [sealed])
  {
    var mine, sealed := Select(rows, e.sessionId), Seal(c, rows, e);
    NumberedQueries(mine);
    forall i | 0 <= i < |mine| + 1
      ensures Linked(c, e.sessionId, mine + [sealed], i)
    {
      if i < |mine| {
        assert Linked(c, e.sessionId, mine, i);
      } else {
        assert Payload(c, sealed, Previous(mine, |mine|)) == Payload(c, e, Previous(mine, |mine|));
      }
    }
  }

  lemma RecordKeeps(c: Crypto, rows: seq<Event>, e: Event)
    requires WellKept(c, rows)
    ensures WellKept(c, Record(c, rows, e))
  {
    var sealed := Seal(c, rows, e);
    SealFits(c, rows, e);
    hide Seal, Numbered, ValidChain;
    forall sid: string
      ensures Numbered(Select(rows + [sealed], sid)) && ValidChain(c, sid, Select(rows + [sealed], sid))
    {
      SelectAppend(rows, sealed, sid);
      assert Select(rows, sid) + [] == Select(rows, sid);
    }
  }

  // ---------------------------------------------------------------------------------------------
  // Verification

  datatype ChainIntegrity = VALID | BROKEN | PARTIAL | UNVERIFIED

  datatype Verdict = Verdict(integrity: ChainIntegrity, brokenAt: Option<int>)

  /** `j` is the first event from `from` on whose link does not hold. */
  ghost predicate FirstBreak(c: Crypto, sid: string, events: seq<Event>, from: int, j: nat) {
    && j < |events| && from <= j && !Linked(c, sid, events, j)
    && forall i | 0 <= i < j && from <= i :: Linked(c, sid, events, i)
  }

  /** What the verifier promises to report about a list of events. */
  ghost predicate Reports(c: Crypto, sid: string, events: seq<Event>, from: int, v: Verdict) {
    if events == [] then v == Verdict(UNVERIFIED, None)
    else if v.integrity == BROKEN then
      exists j: nat :: FirstBreak(c, sid, events, from, j) && v.brokenAt == Some(events[j].index)
    else
      && v == Verdict(if from > 0 then PARTIAL else VALID, None)
      && forall i | 0 <= i < |events| && from <= i :: Linked(c, sid, events, i)
  }

  lemma ReportsUnique(c: Crypto, sid: string, events: seq<Event>, from: int, v: Verdict, v': Verdict)
    requires Reports(c, sid, events, from, v) && Reports(c, sid, events, from, v')
    ensures v == v'
  {
    if v.integrity == BROKEN && v'.integrity == BROKEN && events != [] {
      var j: nat :| FirstBreak(c, sid, events, from, j) && v.brokenAt == Some(events[j].index);
      var j': nat :| FirstBreak(c, sid, events, from, j') && v'.brokenAt == Some(events[j'].index);
      assert j == j';
    }
  }

  class AuditTrail {
    const crypto: Crypto
    var rows: seq<Event>

    constructor (crypto: Crypto)
      ensures this.crypto == crypto && rows == [] && WellKept(crypto, rows)
    {
      this.crypto := crypto;
      rows := [];
    }

    method RecordEvent(event: Event) returns (recorded: Event)
      modifies this
      ensures rows == old(rows) + [recorded]
      ensures recorded == Seal(crypto, old(rows), event)
      ensures old(WellKept(crypto, rows)) ==> WellKept(crypto, rows)
    {
      var mine := Select(rows, event.sessionId);
      var previousHmac := LastHmac(mine);
      var sealed := event.(index := NextIndex(mine));
      sealed := sealed.(hmac := ComputeEventHmac(crypto, sealed.sessionId, sealed, previousHmac));
      assert Payload(crypto, sealed.(hmac := event.hmac, index := event.index), previousHmac) ==
             Payload(crypto, event, previousHmac);
      if WellKept(crypto, rows) {
        RecordKeeps(crypto, rows, event);
      }
      rows := rows + [sealed];
      recorded := sealed;
    }

    method VerifyChain(sid: string, fromIndex: int) returns (v: Verdict)
      ensures Reports(crypto, sid, GetEvents(rows, sid, DEFAULT_LIMIT, 0), fromIndex, v)
    {
      var events := GetEvents(rows, sid, DEFAULT_LIMIT, 0);
      if events == [] {
        return Verdict(UNVERIFIED, None);
      }
      var previousHmac := "";
      for idx := 0 to |events|
        invariant previousHmac == Previous(events, idx)
        invariant forall i | 0 <= i < idx && fromIndex <= i :: Linked(crypto, sid, events, i)
      {
        var event := events[idx];
        if idx >= fromIndex {
          var expected := ComputeEventHmac(crypto, sid, event, previousHmac);
          if expected != event.hmac {
            assert FirstBreak(crypto, sid, events, fromIndex, idx);
            return Verdict(BROKEN, Some(event.index));
          }
        }
        previousHmac := event.hmac;
      }
      return Verdict(if fromIndex > 0 then PARTIAL else VALID, None);
    }
  }

  /** The verifier run on the table. */
  ghost predicate VerifiesAs(c: Crypto, rows: seq<Event>, sid: string, from: int, v: Verdict) {
    Reports(c, sid, GetEvents(rows, sid, DEFAULT_LIMIT, 0), from, v)
  }

  // ---------------------------------------------------------------------------------------------
  // Whole histories

  lemma {:induction false} RecordAllKeeps(c: Crypto, es: seq<Event>)
    ensures WellKept(c, RecordAll(c, [], es))
    decreases |es|
  {
    if es != [] {
      RecordAllKeeps(c, es[..|es| - 1]);
      RecordKeeps(c, RecordAll(c, [], es[..|es| - 1]), es[|es| - 1]);
    }
  }

  /** What the verifier gets to see. */
  function FirstRows(events: seq<Event>): seq<Event> {
    if |events| <= DEFAULT_LIMIT then events else events[..DEFAULT_LIMIT]
  }

  lemma OrderShown(rows: seq<Event>, sid: string, listed: seq<Event>, after: seq<Event>)
    requires Select(rows, sid) == listed && OrderByIndex(listed) == after
    ensures GetEvents(rows, sid, DEFAULT_LIMIT, 0) == FirstRows(after)
  {
    hide Select, OrderByIndex;
    assert after[0..] == after;
  }

  lemma PrefixLinked(c: Crypto, sid: string, events: seq<Event>, n: nat, i: nat)
    requires i < n <= |events|
    ensures Linked(c, sid, events[..n], i) == Linked(c, sid, events, i)
  {
  }

  lemma ShownLinked(c: Crypto, sid: string, events: seq<Event>, i: nat)
    requires i < |FirstRows(events)|
    ensures Linked(c, sid, FirstRows(events), i) == Linked(c, sid, events, i)
    ensures FirstRows(events)[i] == events[i]
  {
    hide Linked;
    assert FirstRows(events) == events[..|FirstRows(events)|];
    PrefixLinked(c, sid, events, |FirstRows(events)|, i);
  }

  lemma BreakReport(c: Crypto, sid: string, events: seq<Event>, j: nat)
    requires j < |FirstRows(events)| && !Linked(c, sid, events, j)
    requires forall i | 0 <= i < j :: Linked(c, sid, events, i)
    ensures Reports(c, sid, FirstRows(events), 0, Verdict(BROKEN, Some(events[j].index)))
  {
    hide Linked;
    forall i | 0 <= i <= j
      ensures Linked(c, sid, FirstRows(events), i) == Linked(c, sid, events, i)
      ensures FirstRows(events)[i] == events[i]
    {
      ShownLinked(c, sid, events, i);
    }
    hide FirstRows;
    assert FirstBreak(c, sid, FirstRows(events), 0, j);
  }

  lemma LinkedReport(c: Crypto, sid: string, events: seq<Event>)
    requires forall i | 0 <= i < |FirstRows(events)| :: Linked(c, sid, events, i)
    ensures Reports(c, sid, FirstRows(events), 0, Verdict(if events == [] then UNVERIFIED else VALID, None))
  {
    hide Linked;
    forall i | 0 <= i < |FirstRows(events)|
      ensures Linked(c, sid, FirstRows(events), i)
    {
      ShownLinked(c, sid, events, i);
    }
  }

  lemma WellKeptVerifies(c: Crypto, rows: seq<Event>, sid: string, from: int)
    requires WellKept(c, rows)
    ensures VerifiesAs(c, rows, sid, from,
              Verdict(if Select(rows, sid) == [] then UNVERIFIED else if from > 0 then PARTIAL else VALID, None))
  {
    NumberedQueries(Select(rows, sid));
    OrderShown(rows, sid, Select(rows, sid), Select(rows, sid));
    var events, shown := Select(rows, sid), GetEvents(rows, sid, DEFAULT_LIMIT, 0);
    forall i | 0 <= i < |shown|
      ensures Linked(c, sid, shown, i)
    {
      assert Linked(c, sid, events, i);
      ShownLinked(c, sid, events, i);
    }
  }

  /** Whatever is recorded on a fresh trail, in whatever order and for whatever sessions: each
      session keeps its own events in order, numbered from 0, and verifies as VALID from the start
      and as PARTIAL from any later index. */
  lemma HistoryVerifies(c: Crypto, es: seq<Event>, sid: string, from: int)
    ensures var rows := RecordAll(c, [], es);
            var mine := Select(rows, sid);
            && Numbered(mine)
            && SameContents(mine, Select(es, sid))
            && VerifiesAs(c, rows, sid, from,
                 Verdict(if Select(es, sid) == [] then UNVERIFIED else if from > 0 then PARTIAL else VALID, None))
  {
    RecordAllKeeps(c, es);
    RecordAllContents(c, es, sid);
    WellKeptVerifies(c, RecordAll(c, [], es), sid, from);
    hide Reports, Select;
  }

  /** The same events in the same order, apart from index and HMAC. */
  ghost predicate SameContents(stored: seq<Event>, given: seq<Event>) {
    && |stored| == |given|
    && forall i | 0 <= i < |stored| :: SameContent(stored[i], given[i])
  }

  predicate SameContent(stored: Event, given: Event) {
    stored == given.(index := stored.index, hmac := stored.hmac)
  }

  lemma SealContent(c: Crypto, rows: seq<Event>, e: Event)
    ensures SameContent(Seal(c, rows, e), e)
  {
  }

  lemma SameContentsAppend(stored: seq<Event>, given: seq<Event>, s: Event, g: Event, sid: string)
    requires SameContents(stored, given) && SameContent(s, g)
    ensures SameContents(
              stored + (if s.sessionId == sid then [s] else []), given + (if g.sessionId == sid then [g] else []))
  {
    assert s.sessionId == g.sessionId;
    hide SameContent;
  }

  lemma RecordAllSnoc(c: Crypto, es: seq<Event>, e: Event)
    ensures var before := RecordAll(c, [], es); RecordAll(c, [], es + [e]) == before + [Seal(c, before, e)]
  {
    hide Seal;
    assert (es + [e])[..|es|] == es;
  }

  lemma NoContents(c: Crypto, sid: string)
    ensures SameContents(Select(RecordAll(c, [], []), sid), Select([], sid))
  {
  }

  lemma {:induction false} RecordAllContents(c: Crypto, es: seq<Event>, sid: string)
    ensures SameContents(Select(RecordAll(c, [], es), sid), Select(es, sid))
    decreases |es|
  {
    hide *;
    if es == [] {
      NoContents(c, sid);
    } else {
      var front, e := es[..|es| - 1], es[|es| - 1];
      var before := RecordAll(c, [], front);
      var sealed := Seal(c, before, e);
      assert front + [e] == es;
      RecordAllContents(c, front, sid);
      RecordAllSnoc(c, front, e);
      SelectAppend(before, sealed, sid);
      SelectAppend(front, e, sid);
      SealContent(c, before, e);
      SameContentsAppend(Select(before, sid), Select(front, sid), sealed, e, sid);
    }
  }

  // ---------------------------------------------------------------------------------------------
  // Tampering

  lemma SelectConcatNext(a: seq<Event>, front: seq<Event>, e: Event, sid: string)
    requires Select(a + front, sid) == Select(a, sid) + Select(front, sid)
    ensures Select(a + (front + [e]), sid) == Select(a, sid) + Select(front + [e], sid)
  {
    hide *;
    SelectAppend(front, e, sid);
    SelectAppend(a + front, e, sid);
    AppendAssociates(a, front, [e]);
    AppendAssociates(Select(a, sid), Select(front, sid), if e.sessionId == sid then [e] else []);
  }

  lemma SelectConcatNothing(a: seq<Event>, sid: string)
    ensures Select(a + [], sid) == Select(a, sid) + Select([], sid)
  {
    assert a + [] == a;
  }

  lemma {:induction false} SelectConcat(a: seq<Event>, b: seq<Event>, sid: string)
    ensures Select(a + b, sid) == Select(a, sid) + Select(b, sid)
    decreases |b|
  {
    hide *;
    if b == [] {
      SelectConcatNothing(a, sid);
    } else {
      var front, e := b[..|b| - 1], b[|b| - 1];
      SelectConcat(a, front, sid);
      SelectConcatNext(a, front, e, sid);
      assert front + [e] == b;
    }
  }

  /** The table with row `p` replaced by `middle`. */
  function Replaced(rows: seq<Event>, p: nat, middle: seq<Event>): seq<Event>
    requires p < |rows|
  {
    rows[..p] + middle + rows[p + 1..]
  }

  /** Where row `p` stands in the list of its session. */
  function Rank(rows: seq<Event>, p: nat): nat
    requires p < |rows|
  {
    |Select(rows[..p], rows[p].sessionId)|
  }

  lemma ReplacedParts(left: seq<Event>, e: Event, right: seq<Event>, middle: seq<Event>)
    ensures var whole := left + [e] + right;
            |left| < |whole| && whole[|left|] == e && Replaced(whole, |left|, middle) == left + middle + right
  {
    var whole := left + [e] + right;
    assert whole[..|left|] == left && whole[|left| + 1..] == right;
  }

  lemma ReplacedUpdate(rows: seq<Event>, p: nat, t: Event)
    requires p < |rows|
    ensures Replaced(rows, p, [t]) == rows[p := t]
  {
  }

  lemma {:induction false} SelectReplaced(rows: seq<Event>, p: nat, middle: seq<Event>)
    requires p < |rows| && SameSession(middle, rows[p].sessionId)
    ensures var mine, r := Select(rows, rows[p].sessionId), Rank(rows, p);
            && r < |mine| && mine[r] == rows[p]
            && Select(Replaced(rows, p, middle), rows[p].sessionId) == Replaced(mine, r, middle)
  {
    var e, sid := rows[p], rows[p].sessionId;
    var left, right := Select(rows[..p], sid), Select(rows[p + 1..], sid);
    assert SameSession([e], sid);
    hide Select, Replaced, SameSession;
    ReplacedUpdate(rows, p, e);
    assert rows[p := e] == rows;
    SelectParts(rows, p, [e], sid);
    SelectParts(rows, p, middle, sid);
    SelectSame([e], sid);
    SelectSame(middle, sid);
    ReplacedParts(left, e, right, middle);
  }

  lemma SelectReplacedOther(rows: seq<Event>, p: nat, middle: seq<Event>, sid: string)
    requires p < |rows| && SameSession(middle, rows[p].sessionId) && sid != rows[p].sessionId
    ensures Select(Replaced(rows, p, middle), sid) == Select(rows, sid)
  {
    var e := rows[p];
    SelectNone([e], sid);
    SelectNone(middle, sid);
    hide Select, Replaced, SameSession;
    ReplacedUpdate(rows, p, e);
    assert rows[p := e] == rows;
    SelectParts(rows, p, [e], sid);
    SelectParts(rows, p, middle, sid);
  }

  ghost predicate SameSession(events: seq<Event>, sid: string) {
    forall e | e in events :: e.sessionId == sid
  }

  lemma {:induction false} SelectSame(events: seq<Event>, sid: string)
    requires SameSession(events, sid)
    ensures Select(events, sid) == events
    decreases |events|
  {
    if events != [] {
      SelectSame(events[..|events| - 1], sid);
    }
  }

  lemma {:induction false} SelectNone(events: seq<Event>, sid: string)
    requires forall e | e in events :: e.sessionId != sid
    ensures Select(events, sid) == []
    decreases |events|
  {
    if events != [] {
      SelectNone(events[..|events| - 1], sid);
    }
  }

  lemma SelectParts(rows: seq<Event>, p: nat, middle: seq<Event>, sid: string)
    requires p < |rows|
    ensures Select(Replaced(rows, p, middle), sid) ==
            Select(rows[..p], sid) + Select(middle, sid) + Select(rows[p + 1..], sid)
  {
    SelectConcat(rows[..p] + middle, rows[p + 1..], sid);
    SelectConcat(rows[..p], middle, sid);
  }

  lemma {:induction false} OrderAscending(events: seq<Event>)
    requires Ascending(events)
    ensures OrderByIndex(events) == events
    decreases |events|
  {
    if events != [] {
      var n := |events| - 1;
      OrderAscending(events[..n]);
      assert events == events[..n] + [events[n]];
    }
  }

  lemma ReplacedAscends(events: seq<Event>, r: nat, middle: seq<Event>)
    requires Numbered(events) && r < |events| && |middle| <= 1 && forall e | e in middle :: e.index == r
    ensures OrderByIndex(Replaced(events, r, middle)) == Replaced(events, r, middle)
  {
    var after := Replaced(events, r, middle);
    hide OrderByIndex;
    forall i | 0 <= i < |after|
      ensures i <= after[i].index <= i + 1 && (i < r ==> after[i].index == i)
      ensures i > r ==> after[i].index == if middle == [] then i + 1 else i
    {
    }
    OrderAscending(after);
  }

  lemma {:induction false} ReplacedShown(rows: seq<Event>, p: nat, middle: seq<Event>)
    requires p < |rows| && Numbered(Select(rows, rows[p].sessionId)) && |middle| <= 1
    requires SameSession(middle, rows[p].sessionId) && forall e | e in middle :: e.index == rows[p].index
    ensures var sid, r := rows[p].sessionId, Rank(rows, p);
            && r < |Select(rows, sid)| && Select(rows, sid)[r] == rows[p] && rows[p].index == r
            && GetEvents(Replaced(rows, p, middle), sid, DEFAULT_LIMIT, 0) ==
               FirstRows(Replaced(Select(rows, sid), r, middle))
  {
    var mine, r := Select(rows, rows[p].sessionId), Rank(rows, p);
    assert mine[r].index == r by {
      SelectReplaced(rows, p, middle);
    }
    hide *;
    SelectReplaced(rows, p, middle);
    ReplacedAscends(mine, r, middle);
    OrderShown(Replaced(rows, p, middle), rows[p].sessionId, Replaced(mine, r, middle), Replaced(mine, r, middle));
  }

  /** The replacement carries the MAC of its own fields and of its predecessor. */
  predicate Fits(c: Crypto, sid: string, events: seq<Event>, r: nat, t: Event)
    requires r < |events|
  {
    t.hmac == ComputeEventHmac(c, sid, t, Previous(events, r))
  }

  /** The MAC does not collide on the payloads of one event after two predecessors. */
  predicate TellsPredecessors(c: Crypto, sid: string, e: Event, p: string, q: string) {
    c.mac(sid, Payload(c, e, p)) == c.mac(sid, Payload(c, e, q)) ==> Payload(c, e, p) == Payload(c, e, q)
  }

  lemma LinkTells(c: Crypto, sid: string, e: Event, p: string, q: string)
    requires TellsPredecessors(c, sid, e, p, q)
    ensures ComputeEventHmac(c, sid, e, p) == ComputeEventHmac(c, sid, e, q) <==> p == q
  {
    if ComputeEventHmac(c, sid, e, p) == ComputeEventHmac(c, sid, e, q) {
      TagInjective(c.mac(sid, Payload(c, e, p)), c.mac(sid, Payload(c, e, q)));
      var head := e.kind + e.timestamp + CanonicalDataHash(c, e.data) + e.windowId;
      SameLengthCut(head, p, head, q);
    }
  }

  /** The verdict on the list of a session whose row `r` was overwritten by `t`. */
  function TamperVerdict(c: Crypto, sid: string, events: seq<Event>, r: nat, t: Event): Verdict
    requires r < |events|
  {
    if r < DEFAULT_LIMIT && !Fits(c, sid, events, r, t) then Verdict(BROKEN, Some(r))
    else if r + 1 < |events| && r + 1 < DEFAULT_LIMIT && t.hmac != events[r].hmac then Verdict(BROKEN, Some(r + 1))
    else Verdict(VALID, None)
  }

  /** One stored row is overwritten by any other with its session and index. Verification from 0 is
      BROKEN there exactly when the new row does not carry the MAC of itself after its predecessor;
      when it does and its HMAC is new, BROKEN at the next row; and VALID when there is no next row
      among the first 1000, or the HMAC is the old one. No other session is affected. */
  lemma {:induction false} TamperReported(c: Crypto, rows: seq<Event>, p: nat, t: Event, other: string)
    requires WellKept(c, rows) && p < |rows|
    requires t.sessionId == rows[p].sessionId && t.index == rows[p].index
    requires var mine, r := Select(rows, t.sessionId), Rank(rows, p);
             r + 1 < |mine| ==> TellsPredecessors(c, t.sessionId, mine[r + 1], t.hmac, rows[p].hmac)
    ensures var mine, r := Select(rows, t.sessionId), Rank(rows, p);
            && r == t.index && r < |mine|
            && VerifiesAs(c, rows[p := t], t.sessionId, 0, TamperVerdict(c, t.sessionId, mine, r, t))
    ensures other != t.sessionId ==>
              GetEvents(rows[p := t], other, DEFAULT_LIMIT, 0) == GetEvents(rows, other, DEFAULT_LIMIT, 0)
  {
    var sid, r := t.sessionId, Rank(rows, p);
    var events := Select(rows, sid);
    assert Numbered(events) && ValidChain(c, sid, events);
    assert SameSession([t], sid) && Numbered(events);
    hide *;
    ReplacedUpdate(rows, p, t);
    ReplacedShown(rows, p, [t]);
    ReplacedUpdate(events, r, t);
    NumberedUpdate(events, r, t);
    TamperedReport(c, sid, events, r, t, events[r := t]);
    ShownAs(c, rows[p := t], sid, events[r := t], TamperVerdict(c, sid, events, r, t));
    if other != sid {
      SelectReplacedOther(rows, p, [t], other);
      SameEvents(rows[p := t], rows, other);
    }
  }

  lemma NumberedUpdate(events: seq<Event>, r: nat, t: Event)
    requires Numbered(events) && r < |events| && t.index == r
    ensures Numbered(events[r := t])
  {
  }

  lemma ShownAs(c: Crypto, rows: seq<Event>, sid: string, events: seq<Event>, v: Verdict)
    requires GetEvents(rows, sid, DEFAULT_LIMIT, 0) == FirstRows(events)
    requires Reports(c, sid, FirstRows(events), 0, v)
    ensures VerifiesAs(c, rows, sid, 0, v)
  {
  }

  lemma SameEvents(rows: seq<Event>, rows': seq<Event>, sid: string)
    requires Select(rows, sid) == Select(rows', sid)
    ensures GetEvents(rows, sid, DEFAULT_LIMIT, 0) == GetEvents(rows', sid, DEFAULT_LIMIT, 0)
  {
    hide Select, OrderByIndex;
  }

  /** The same for the list of one session. */
  lemma TamperedReport(c: Crypto, sid: string, events: seq<Event>, r: nat, t: Event, after: seq<Event>)
    requires ValidChain(c, sid, events) && Numbered(after) && r < |events| && after == events[r := t]
    requires r + 1 < |events| ==> TellsPredecessors(c, sid, events[r + 1], t.hmac, events[r].hmac)
    ensures Reports(c, sid, FirstRows(after), 0, TamperVerdict(c, sid, events, r, t))
  {
    TamperedLinks(c, sid, events, r, t, after);
    hide Linked, Fits, Reports;
    if r < DEFAULT_LIMIT && !Fits(c, sid, events, r, t) {
      BreakReport(c, sid, after, r);
    } else if r + 1 < |events| && r + 1 < DEFAULT_LIMIT && t.hmac != events[r].hmac {
      BreakReport(c, sid, after, r + 1);
    } else {
      LinkedReport(c, sid, after);
    }
  }

  lemma TamperedLinks(c: Crypto, sid: string, events: seq<Event>, r: nat, t: Event, after: seq<Event>)
    requires ValidChain(c, sid, events) && r < |events| && after == events[r := t]
    requires r + 1 < |events| ==> TellsPredecessors(c, sid, events[r + 1], t.hmac, events[r].hmac)
    ensures forall i | 0 <= i < |events| && i != r && i != r + 1 :: Linked(c, sid, after, i)
    ensures Linked(c, sid, after, r) <==> Fits(c, sid, events, r, t)
    ensures r + 1 < |events| ==> (Linked(c, sid, after, r + 1) <==> t.hmac == events[r].hmac)
  {
    forall i | 0 <= i < |events| && i != r && i != r + 1
      ensures Linked(c, sid, after, i)
    {
      assert Linked(c, sid, events, i);
    }
    if r + 1 < |events| {
      assert Linked(c, sid, events, r + 1);
      LinkTells(c, sid, events[r + 1], t.hmac, events[r].hmac);
    }
  }

  /** Changing a covered field or the HMAC alone never fits. */
  lemma EditNeverFits(c: Crypto, sid: string, events: seq<Event>, r: nat, t: Event)
    requires ValidChain(c, sid, events) && r < |events|
    requires t.hmac == events[r].hmac || Cover(t) == Cover(events[r])
    requires WellFormed(t) && WellFormed(events[r])
    requires c.sha(t.data) == c.sha(events[r].data) ==> t.data == events[r].data
    requires var before := Previous(events, r);
             c.mac(sid, Payload(c, t, before)) == c.mac(sid, Payload(c, events[r], before)) ==>
               Payload(c, t, before) == Payload(c, events[r], before)
    ensures Fits(c, sid, events, r, t) <==> t.hmac == events[r].hmac && Cover(t) == Cover(events[r])
  {
    var before := Previous(events, r);
    assert Linked(c, sid, events, r);
    PayloadEqual(c, t, before, events[r], before);
    if t.windowId + before == events[r].windowId + before {
      assert |t.windowId| == |events[r].windowId|;
      SameLengthCut(t.windowId, before, events[r].windowId, before);
    }
    if Fits(c, sid, events, r, t) && t.hmac == events[r].hmac {
      TagInjective(c.mac(sid, Payload(c, t, before)), c.mac(sid, Payload(c, events[r], before)));
    }
  }

  /** Neither does another row of the chain, copied over with its HMAC. */
  lemma CopyNeverFits(c: Crypto, sid: string, events: seq<Event>, r: nat, q: nat, t: Event)
    requires Sound(c, sid, events) && NoCollision(c, sid, events, events)
    requires r < |events| && q < |events| && q != r
    requires Cover(t) == Cover(events[q]) && t.hmac == events[q].hmac
    requires TellsPredecessors(c, sid, events[q], Previous(events, r), Previous(events, q))
    ensures !Fits(c, sid, events, r, t)
  {
    assert Linked(c, sid, events, q);
    assert Payload(c, t, Previous(events, r)) == Payload(c, events[q], Previous(events, r));
    LinkTells(c, sid, events[q], Previous(events, r), Previous(events, q));
    PreviousDistinct(c, sid, events, r, q);
  }

  lemma PreviousDistinct(c: Crypto, sid: string, events: seq<Event>, i: nat, j: nat)
    requires Sound(c, sid, events) && NoCollision(c, sid, events, events)
    requires i <= |events| && j <= |events| && i != j
    ensures Previous(events, i) != Previous(events, j)
  {
    PreviousIsPrevious(c, sid, events, i);
    PreviousIsPrevious(c, sid, events, j);
    HmacsDistinct(c, sid, events);
    if i > 0 && j > 0 {
      assert events[i - 1].hmac != events[j - 1].hmac;
    }
  }

  /** One stored row is deleted. Deleting the last row of a session, or one the verifier does not
      get to see, goes unnoticed; any other deletion is BROKEN at the row that followed. */
  lemma {:induction false} DeletionReported(c: Crypto, rows: seq<Event>, p: nat, other: string)
    requires WellKept(c, rows) && p < |rows|
    requires var sid, mine := rows[p].sessionId, Select(rows, rows[p].sessionId);
             && Sound(c, sid, mine) && NoCollision(c, sid, mine, mine)
             && var r := Rank(rows, p);
                r + 1 < |mine| ==> TellsPredecessors(c, sid, mine[r + 1], Previous(mine, r), rows[p].hmac)
    ensures var sid, mine, r := rows[p].sessionId, Select(rows, rows[p].sessionId), Rank(rows, p);
            && r == rows[p].index
            && VerifiesAs(c, Replaced(rows, p, []), sid, 0,
                 if |mine| == 1 then Verdict(UNVERIFIED, None)
                 else if r + 1 < |mine| && r < DEFAULT_LIMIT then Verdict(BROKEN, Some(r + 1))
                 else Verdict(VALID, None))
    ensures other != rows[p].sessionId ==>
              GetEvents(Replaced(rows, p, []), other, DEFAULT_LIMIT, 0) == GetEvents(rows, other, DEFAULT_LIMIT, 0)
  {
    var sid, r := rows[p].sessionId, Rank(rows, p);
    var events := Select(rows, sid);
    assert Numbered(events) && SameSession([], sid);
    hide *;
    ReplacedShown(rows, p, []);
    DeletedReport(c, sid, events, r, Replaced(events, r, []));
    ShownAs(c, Replaced(rows, p, []), sid, Replaced(events, r, []),
      if |events| == 1 then Verdict(UNVERIFIED, None)
      else if r + 1 < |events| && r < DEFAULT_LIMIT then Verdict(BROKEN, Some(r + 1))
      else Verdict(VALID, None));
    if other != sid {
      SelectReplacedOther(rows, p, [], other);
      SameEvents(Replaced(rows, p, []), rows, other);
    }
  }

  lemma DeletedReport(c: Crypto, sid: string, events: seq<Event>, r: nat, after: seq<Event>)
    requires Sound(c, sid, events) && NoCollision(c, sid, events, events) && Numbered(events)
    requires r < |events| && after == Replaced(events, r, [])
    requires r + 1 < |events| ==> TellsPredecessors(c, sid, events[r + 1], Previous(events, r), events[r].hmac)
    ensures Reports(c, sid, FirstRows(after), 0,
              if |events| == 1 then Verdict(UNVERIFIED, None)
              else if r + 1 < |events| && r < DEFAULT_LIMIT then Verdict(BROKEN, Some(r + 1))
              else Verdict(VALID, None))
  {
    DeletedLinks(c, sid, events, r, after);
    hide Linked, Reports;
    if r + 1 < |events| && r < DEFAULT_LIMIT {
      assert after[r] == events[r + 1];
      BreakReport(c, sid, after, r);
    } else {
      LinkedReport(c, sid, after);
    }
  }

  lemma DeletedLinks(c: Crypto, sid: string, events: seq<Event>, r: nat, after: seq<Event>)
    requires Sound(c, sid, events) && NoCollision(c, sid, events, events)
    requires r < |events| && after == Replaced(events, r, [])
    requires r + 1 < |events| ==> TellsPredecessors(c, sid, events[r + 1], Previous(events, r), events[r].hmac)
    ensures forall i | 0 <= i < |after| :: Linked(c, sid, after, i) <==> i != r
  {
    forall i | 0 <= i < |after| && i != r
      ensures Linked(c, sid, after, i)
    {
      assert Linked(c, sid, events, if i < r then i else i + 1);
    }
    if r < |after| {
      assert Linked(c, sid, events, r + 1);
      LinkTells(c, sid, events[r + 1], Previous(events, r), events[r].hmac);
      PreviousDistinct(c, sid, events, r, r + 1);
    }
  }

  lemma PrefixReport(c: Crypto, sid: string, events: seq<Event>, n: nat)
    requires ValidChain(c, sid, events) && n <= |events|
    ensures Reports(c, sid, FirstRows(events[..n]), 0, Verdict(if n == 0 then UNVERIFIED else VALID, None))
  {
    hide Reports, Linked;
    forall i | 0 <= i < n
      ensures Linked(c, sid, events[..n], i)
    {
      PrefixLinked(c, sid, events, n, i);
    }
    LinkedReport(c, sid, events[..n]);
  }

  /** However many of a session's last rows are gone, what is left verifies. */
  lemma {:induction false} TruncationUnseen(c: Crypto, rows: seq<Event>, left: seq<Event>, sid: string, n: nat)
    requires WellKept(c, rows) && n <= |Select(rows, sid)| && Select(left, sid) == Select(rows, sid)[..n]
    ensures VerifiesAs(c, left, sid, 0, Verdict(if n == 0 then UNVERIFIED else VALID, None))
  {
    var mine := Select(left, sid);
    assert ValidChain(c, sid, Select(rows, sid)) && Numbered(Select(rows, sid));
    hide Select, Reports, ValidChain, OrderByIndex;
    assert Numbered(mine);
    hide *;
    NumberedQueries(mine);
    OrderShown(left, sid, mine, mine);
    PrefixReport(c, sid, Select(rows, sid), n);
    ShownAs(c, left, sid, mine, Verdict(if n == 0 then UNVERIFIED else VALID, None));
  }

  // ---------------------------------------------------------------------------------------------
  // Rows of the chain in another order: the index is not covered by the MAC

  /** The same row, apart from its index. */
  predicate SameRow(a: Event, b: Event) {
    Cover(a) == Cover(b) && a.hmac == b.hmac
  }

  /** The MAC tells all predecessors of the chain apart, for each of its events. */
  ghost predicate TellsAll(c: Crypto, sid: string, events: seq<Event>) {
    forall i, k | 0 <= i < |events| && 0 <= k < |events| ::
      TellsPredecessors(c, sid, events[k], Previous(events, i), Previous(events, k))
  }

  /** The two lists hold the same rows up to position `n`. */
  ghost predicate AgreeUpTo(shown: seq<Event>, events: seq<Event>, n: nat) {
    && n <= |shown| && n <= |events|
    && forall i | 0 <= i < n :: SameRow(shown[i], events[i])
  }

  /** Behind the first `i` rows of the chain, only row `i` fits. */
  lemma OnlyNextFits(c: Crypto, sid: string, events: seq<Event>, shown: seq<Event>, i: nat, k: nat)
    requires Sound(c, sid, events) && NoCollision(c, sid, events, events) && TellsAll(c, sid, events)
    requires i < |shown| && i < |events| && k < |events| && AgreeUpTo(shown, events, i)
    requires SameRow(shown[i], events[k])
    ensures Linked(c, sid, shown, i) <==> k == i
  {
    assert Previous(shown, i) == Previous(events, i);
    assert Linked(c, sid, events, k);
    assert TellsPredecessors(c, sid, events[k], Previous(events, i), Previous(events, k));
    assert Payload(c, shown[i], Previous(events, i)) == Payload(c, events[k], Previous(events, i));
    LinkTells(c, sid, events[k], Previous(events, i), Previous(events, k));
    if k != i {
      PreviousDistinct(c, sid, events, i, k);
    }
  }

  lemma AgreeingLinked(c: Crypto, sid: string, events: seq<Event>, shown: seq<Event>, n: nat)
    requires ValidChain(c, sid, events) && AgreeUpTo(shown, events, n)
    ensures forall i | 0 <= i < n :: Linked(c, sid, shown, i)
  {
    forall i | 0 <= i < n
      ensures Linked(c, sid, shown, i)
    {
      assert Linked(c, sid, events, i);
      assert SameRow(shown[i], events[i]);
      assert i > 0 ==> SameRow(shown[i - 1], events[i - 1]);
    }
  }

  /** Whatever is listed of a chain, in whatever order, with gaps or repetitions: the verifier
      reports the first row that is not the one the chain has there. */
  lemma RearrangedReport(c: Crypto, sid: string, events: seq<Event>, listed: seq<Event>, n: nat, k: nat)
    requires Sound(c, sid, events) && NoCollision(c, sid, events, events) && TellsAll(c, sid, events)
    requires n < |FirstRows(listed)| && n < |events| && AgreeUpTo(listed, events, n)
    requires k < |events| && k != n && SameRow(listed[n], events[k])
    ensures Reports(c, sid, FirstRows(listed), 0, Verdict(BROKEN, Some(listed[n].index)))
  {
    AgreeingLinked(c, sid, events, listed, n);
    OnlyNextFits(c, sid, events, listed, n, k);
    hide Linked, Reports, FirstRows;
    FirstRowsShorter(listed);
    BreakReport(c, sid, listed, n);
  }

  lemma FirstRowsShorter(events: seq<Event>)
    ensures |FirstRows(events)| == Min(|events|, DEFAULT_LIMIT)
  {
  }

  lemma AgreeingReport(c: Crypto, sid: string, events: seq<Event>, listed: seq<Event>)
    requires ValidChain(c, sid, events) && listed != [] && AgreeUpTo(listed, events, |FirstRows(listed)|)
    ensures Reports(c, sid, FirstRows(listed), 0, Verdict(VALID, None))
  {
    AgreeingLinked(c, sid, events, listed, |FirstRows(listed)|);
    hide Linked, Reports;
    LinkedReport(c, sid, listed);
  }

  function PutIn<T>(s: seq<T>, t: T, q: nat): seq<T>
    requires q <= |s|
  {
    s[..q] + [t] + s[q..]
  }

  /** Insertion puts a row behind all rows with the same or a smaller index. */
  lemma {:induction false} InsertedAt(sorted: seq<Event>, e: Event, q: nat)
    requires q <= |sorted|
    requires forall i | 0 <= i < q :: sorted[i].index <= e.index
    requires forall i | q <= i < |sorted| :: sorted[i].index > e.index
    ensures InsertByIndex(sorted, e) == PutIn(sorted, e, q)
    decreases |sorted|
  {
    var n := |sorted| - 1;
    if q == |sorted| {
      assert PutIn(sorted, e, q) == sorted + [e];
    } else {
      InsertedAt(sorted[..n], e, q);
      assert sorted[..n][..q] == sorted[..q] && sorted[..n][q..] + [sorted[n]] == sorted[q..];
      AppendAssociates(sorted[..q] + [e], sorted[..n][q..], [sorted[n]]);
    }
  }

  /** Where row `r` of `n` goes when its index becomes `x`. */
  function MovedTo(r: nat, x: int, n: nat): (q: nat)
    requires r < n
    ensures q < n
  {
    if x < 0 then 0 else if x < r then x + 1 else if x == r then r else if x < n then x - 1 else n - 1
  }

  function Without<T>(s: seq<T>, r: nat): seq<T>
    requires r < |s|
  {
    s[..r] + s[r + 1..]
  }

  lemma WithoutGrows<T>(s: seq<T>, r: nat, n: nat)
    requires r + 1 < n <= |s|
    ensures Without(s[..n], r) == Without(s[..n - 1], r) + [s[n - 1]]
  {
    assert s[..n][r + 1..] == s[..n - 1][r + 1..] + [s[n - 1]];
  }

  /** A row with a greater index than all others but perhaps `t` goes behind them, and behind `t`
      unless `t` has a greater one. */
  lemma {:induction false} InsertGreatest(rest: seq<Event>, t: Event, q: nat, e: Event)
    requires q <= |rest| && forall i | 0 <= i < |rest| :: rest[i].index < e.index
    ensures t.index <= e.index ==> InsertByIndex(PutIn(rest, t, q), e) == PutIn(rest + [e], t, q)
    ensures e.index < t.index && q == |rest| ==> InsertByIndex(PutIn(rest, t, q), e) == PutIn(rest + [e], t, q + 1)
  {
    var put := PutIn(rest, t, q);
    if t.index <= e.index {
      assert put[|put| - 1].index <= e.index;
      assert put + [e] == PutIn(rest + [e], t, q);
    } else if q == |rest| {
      assert put == rest + [t] && put[..|put| - 1] == rest;
      assert PutIn(rest + [e], t, q + 1) == rest + [e] + [t];
    }
  }

  lemma WithoutBelow(events: seq<Event>, r: nat, n: nat)
    requires Numbered(events) && r + 1 < n <= |events|
    ensures var rest := Without(events[..n - 1], r);
            |rest| == n - 2 && forall i | 0 <= i < |rest| :: rest[i].index < events[n - 1].index
  {
  }

  lemma OrderLast(rows: seq<Event>, n: nat)
    requires 0 < n <= |rows|
    ensures OrderByIndex(rows[..n]) == InsertByIndex(OrderByIndex(rows[..n - 1]), rows[n - 1])
  {
    assert rows[..n][..n - 1] == rows[..n - 1];
  }

  /** Sorting after an index change moves one row. */
  lemma {:induction false} OrderMoved(events: seq<Event>, r: nat, t: Event, n: nat)
    requires Numbered(events) && r < n <= |events|
    ensures var q := Min(MovedTo(r, t.index, |events|), n - 1);
            OrderByIndex(events[r := t][..n]) == PutIn(Without(events[..n], r), t, q)
    decreases n
  {
    hide *;
    if n == r + 1 {
      OrderMovedFirst(events, r, t);
    } else {
      OrderMoved(events, r, t, n - 1);
      OrderMovedNext(events, r, t, n);
    }
  }

  lemma OrderMovedFirst(events: seq<Event>, r: nat, t: Event)
    requires Numbered(events) && r < |events|
    ensures var q := Min(MovedTo(r, t.index, |events|), r);
            OrderByIndex(events[r := t][..r + 1]) == PutIn(Without(events[..r + 1], r), t, q)
  {
    var q := Min(MovedTo(r, t.index, |events|), r);
    OrderLast(events[r := t], r + 1);
    OrderAscending(events[..r]);
    hide OrderByIndex, InsertByIndex, PutIn;
    assert events[r := t][..r] == events[..r] && Without(events[..r + 1], r) == events[..r];
    InsertedAt(events[..r], t, q);
  }

  lemma OrderMovedNext(events: seq<Event>, r: nat, t: Event, n: nat)
    requires Numbered(events) && r + 1 < n <= |events|
    requires OrderByIndex(events[r := t][..n - 1]) ==
             PutIn(Without(events[..n - 1], r), t, Min(MovedTo(r, t.index, |events|), n - 2))
    ensures OrderByIndex(events[r := t][..n]) ==
            PutIn(Without(events[..n], r), t, Min(MovedTo(r, t.index, |events|), n - 1))
  {
    var q := MovedTo(r, t.index, |events|);
    assert t.index <= n - 1 ==> Min(q, n - 2) == Min(q, n - 1) == q;
    assert n - 1 < t.index ==> Min(q, n - 2) == n - 2 && Min(q, n - 1) == n - 1;
    assert events[n - 1].index == n - 1 && events[r := t][n - 1] == events[n - 1];
    hide *;
    OrderLast(events[r := t], n);
    WithoutGrows(events, r, n);
    WithoutBelow(events, r, n);
    InsertGreatest(Without(events[..n - 1], r), t, Min(q, n - 2), events[n - 1]);
  }

  lemma MovedAt(events: seq<Event>, r: nat, t: Event, q: nat)
    requires r < |events| && q < |events| && SameRow(t, events[r])
    ensures var m := PutIn(Without(events, r), t, q);
            && |m| == |events| && AgreeUpTo(m, events, Min(q, r))
            && (q == r ==> AgreeUpTo(m, events, |m|))
            && (q < r ==> m[q] == t) && (r < q ==> m[r] == events[r + 1])
  {
    hide SameRow;
    SameAsItself();
  }

  lemma SameAsItself()
    ensures forall e: Event :: SameRow(e, e)
  {
  }

  /** The same for the list of one session. */
  lemma MovedReport(c: Crypto, sid: string, events: seq<Event>, r: nat, t: Event, q: nat, after: seq<Event>)
    requires Sound(c, sid, events) && NoCollision(c, sid, events, events) && TellsAll(c, sid, events)
    requires Numbered(events) && r < |events| && q < |events| && SameRow(t, events[r])
    requires after == PutIn(Without(events, r), t, q)
    ensures Reports(c, sid, FirstRows(after), 0, MovedVerdict(r, q, t.index))
  {
    MovedAt(events, r, t, q);
    FirstRowsShorter(after);
    hide FirstRows, Reports, PutIn, Without;
    if q == r || DEFAULT_LIMIT <= Min(q, r) {
      assert AgreeUpTo(after, events, |FirstRows(after)|);
      AgreeingReport(c, sid, events, after);
    } else if q < r {
      RearrangedReport(c, sid, events, after, q, r);
    } else {
      RearrangedReport(c, sid, events, after, r, r + 1);
    }
  }

  /** The verdict after row `r`, now with index `x`, moved to position `q`. */
  function MovedVerdict(r: nat, q: nat, x: int): Verdict {
    if q == r || DEFAULT_LIMIT <= Min(q, r) then Verdict(VALID, None)
    else if q < r then Verdict(BROKEN, Some(x))
    else Verdict(BROKEN, Some(r + 1))
  }

  /** The index of one stored row is changed, and nothing else. If the row keeps its place, or all of
      it happens behind the first 1000, verification does not notice; otherwise it is BROKEN at the row
      itself when it moved to the front, and at its old successor when it moved to the back. */
  lemma {:induction false} IndexChangeReported(c: Crypto, rows: seq<Event>, p: nat, x: int)
    requires WellKept(c, rows) && p < |rows|
    requires var sid, mine := rows[p].sessionId, Select(rows, rows[p].sessionId);
             Sound(c, sid, mine) && NoCollision(c, sid, mine, mine) && TellsAll(c, sid, mine)
    ensures var sid, mine, r := rows[p].sessionId, Select(rows, rows[p].sessionId), Rank(rows, p);
            && r == rows[p].index < |mine|
            && VerifiesAs(c, rows[p := rows[p].(index := x)], sid, 0, MovedVerdict(r, MovedTo(r, x, |mine|), x))
  {
    var sid, r, t := rows[p].sessionId, Rank(rows, p), rows[p].(index := x);
    var events := Select(rows, sid);
    assert Numbered(events) && SameSession([t], sid) && SameRow(t, rows[p]);
    SelectReplaced(rows, p, [t]);
    assert rows[p].index == events[r].index == r;
    var q := MovedTo(r, x, |events|);
    assert Min(q, |events| - 1) == q;
    hide *;
    ReplacedUpdate(rows, p, t);
    ReplacedUpdate(events, r, t);
    OrderMoved(events, r, t, |events|);
    assert events[r := t][..|events|] == events[r := t] && events[..|events|] == events;
    var after := PutIn(Without(events, r), t, q);
    MovedReport(c, sid, events, r, t, q, after);
    IndexShown(c, rows[p := t], sid, events[r := t], after, MovedVerdict(r, q, x));
  }

  lemma IndexShown(c: Crypto, rows: seq<Event>, sid: string, listed: seq<Event>, after: seq<Event>, v: Verdict)
    requires Select(rows, sid) == listed && OrderByIndex(listed) == after
    requires Reports(c, sid, FirstRows(after), 0, v)
    ensures VerifiesAs(c, rows, sid, 0, v)
  {
    OrderShown(rows, sid, listed, after);
    ShownAs(c, rows, sid, after, v);
  }
}
