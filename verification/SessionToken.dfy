/** The session token of crp_shared/session_token.py: header, payload and signature, each in
    base64url, joined by dots.

    JSON is an abstract codec and the keyed MAC an arbitrary function of session id and text; each
    result names the instances of "decoding inverts encoding" that it needs. */
module SessionToken {

  import opened Common
  import opened Text
  import Base64Url

  type Bytes = seq<Base64Url.byte>

  const VERSION: string := "4"

  /** A JSON value: a string, an integer, or anything else, told apart by its text. */
  datatype Value = Str(s: string) | Num(n: int) | Other(json: string)

  type Claims = map<string, Value>

  /** The text fields are not converted, so a token from a foreign payload may hold any value there. */
  datatype Token = Token(
    v: string, sid: Value, win: Value, qh: Value, sb: int, ct: int, cid: Value, dag: Value,
    strategy: Value, pol: Value, ckf: Value, scope: int, iat: int, exp: int, nonce: Value)

  datatype Reason = BadFormat | BadAlgorithm | BadVersion | Expired | BadSignature | Failed

  datatype Verdict = Accepted(token: Token) | Rejected(reason: Reason)

  /** A JSON text is an object or something else. */
  datatype Parsed = Object(claims: Claims) | NoObject

  /** `dumps` prints an object; `loads` parses any JSON, or fails; `sign` is the MAC of a text under
      the key of a session; `text` and `number` are Python's `str` and `int` on values that are not
      already of that type. */
  datatype Manager = Manager(
    dumps: Claims -> Bytes,
    loads: Bytes -> Option<Parsed>,
    sign: (string, string) -> Bytes,
    text: Value -> string,
    number: Value -> Option<int>)

  ghost predicate Survives(m: Manager, c: Claims) {
    m.loads(m.dumps(c)) == Some(Object(c))
  }

  // ---------------------------------------------------------------------------------------------
  // Tokens and claims

  const DEFAULT: Token := Token(
    VERSION, Str(""), Str(""), Str(""), 0, 0, Str(""), Str(""), Str(""), Str(""), Str(""), 0, 0, 0, Str(""))

  function ToClaims(t: Token): Claims {
    map[
      "v" := Str(t.v), "sid" := t.sid, "win" := t.win, "qh" := t.qh,
      "sb" := Num(t.sb), "ct" := Num(t.ct), "cid" := t.cid, "dag" := t.dag,
      "str" := t.strategy, "pol" := t.pol, "ckf" := t.ckf, "scope" := Num(t.scope),
      "iat" := Num(t.iat), "exp" := Num(t.exp), "nonce" := t.nonce]
  }

  function GetValue(c: Claims, key: string): Value {
    if key in c then c[key] else Str("")
  }

  /** `int(...)`: None when it raises. */
  function GetNumber(m: Manager, c: Claims, key: string): Option<int> {
    if key !in c then Some(0) else if c[key].Num? then Some(c[key].n) else m.number(c[key])
  }

  function VersionOf(m: Manager, c: Claims): string {
    if "v" !in c then VERSION else if c["v"].Str? then c["v"].s else m.text(c["v"])
  }

  /** Absent fields take their defaults; only a number that cannot be converted fails. */
  function FromClaims(m: Manager, c: Claims): Option<Token> {
    var sb, ct, scope := GetNumber(m, c, "sb"), GetNumber(m, c, "ct"), GetNumber(m, c, "scope");
    var iat, exp := GetNumber(m, c, "iat"), GetNumber(m, c, "exp");
    if sb.Some? && ct.Some? && scope.Some? && iat.Some? && exp.Some? then
      Some(Token(
        VersionOf(m, c), GetValue(c, "sid"), GetValue(c, "win"), GetValue(c, "qh"), sb.value, ct.value,
        GetValue(c, "cid"), GetValue(c, "dag"), GetValue(c, "str"), GetValue(c, "pol"), GetValue(c, "ckf"),
        scope.value, iat.value, exp.value, GetValue(c, "nonce")))
    else None
  }

  lemma NumbersBack(m: Manager, t: Token)
    ensures var c := ToClaims(t);
            && GetNumber(m, c, "sb") == Some(t.sb) && GetNumber(m, c, "ct") == Some(t.ct)
            && GetNumber(m, c, "scope") == Some(t.scope) && GetNumber(m, c, "iat") == Some(t.iat)
            && GetNumber(m, c, "exp") == Some(t.exp) && VersionOf(m, c) == t.v
  {
    var c := ToClaims(t);
    assert "sb" in c && "ct" in c && "scope" in c && "iat" in c && "exp" in c && "v" in c;
  }

  lemma IdsBack(t: Token)
    ensures var c := ToClaims(t);
            && GetValue(c, "sid") == t.sid && GetValue(c, "win") == t.win && GetValue(c, "qh") == t.qh
            && GetValue(c, "cid") == t.cid && GetValue(c, "dag") == t.dag
  {
    var c := ToClaims(t);
    assert "sid" in c && "win" in c && "qh" in c && "cid" in c && "dag" in c;
  }

  lemma NamesBack(t: Token)
    ensures var c := ToClaims(t);
            && GetValue(c, "str") == t.strategy && GetValue(c, "pol") == t.pol && GetValue(c, "ckf") == t.ckf
            && GetValue(c, "nonce") == t.nonce
  {
    var c := ToClaims(t);
    assert "str" in c && "pol" in c && "ckf" in c && "nonce" in c;
  }

  /** Reading back one's own dict restores every field, whatever the text fields hold. */
  lemma ClaimsRoundTrip(m: Manager, t: Token)
    ensures FromClaims(m, ToClaims(t)) == Some(t)
  {
    NumbersBack(m, t);
    IdsBack(t);
    NamesBack(t);
    hide ToClaims, GetNumber, GetValue, VersionOf;
  }

  /** `x` is what the dict has under the key, or the default when it has nothing. */
  ghost predicate Holds(c: Claims, key: string, x: Value, default: Value) {
    x == if key in c then c[key] else default
  }

  /** `n` is the integer under the key, converted if it is none, and 0 when there is nothing. */
  ghost predicate HoldsNumber(m: Manager, c: Claims, key: string, n: Option<int>) {
    n == if key !in c then Some(0) else match c[key] { case Num(k) => Some(k) case other => m.number(other) }
  }

  /** A token is read from a dict field by field: each field from its own key, and with its own default.
      It fails exactly when one of the five numbers cannot be converted. */
  lemma ReadsFields(m: Manager, c: Claims)
    ensures var r := FromClaims(m, c);
            r.Some? ==>
              var t := r.value;
              && (if "v" !in c then t.v == "4" else if c["v"].Str? then t.v == c["v"].s else t.v == m.text(c["v"]))
              && Holds(c, "sid", t.sid, Str("")) && Holds(c, "win", t.win, Str("")) && Holds(c, "qh", t.qh, Str(""))
              && Holds(c, "cid", t.cid, Str("")) && Holds(c, "dag", t.dag, Str(""))
              && Holds(c, "str", t.strategy, Str("")) && Holds(c, "pol", t.pol, Str(""))
              && Holds(c, "ckf", t.ckf, Str("")) && Holds(c, "nonce", t.nonce, Str(""))
              && HoldsNumber(m, c, "sb", Some(t.sb)) && HoldsNumber(m, c, "ct", Some(t.ct))
              && HoldsNumber(m, c, "scope", Some(t.scope)) && HoldsNumber(m, c, "iat", Some(t.iat))
              && HoldsNumber(m, c, "exp", Some(t.exp))
    ensures FromClaims(m, c) == None <==>
              exists key | key in ["sb", "ct", "scope", "iat", "exp"] :: HoldsNumber(m, c, key, None)
  {
    assert forall key :: HoldsNumber(m, c, key, GetNumber(m, c, key));
    var keys := ["sb", "ct", "scope", "iat", "exp"];
    assert keys[0] in keys && keys[1] in keys && keys[2] in keys && keys[3] in keys && keys[4] in keys;
    hide GetNumber;
  }

  /** The fields are assigned one by one to a default token. */
  method FromDict(m: Manager, c: Claims) returns (r: Option<Token>)
    ensures r == FromClaims(m, c)
  {
    var token := DEFAULT;
    hide GetValue, GetNumber, VersionOf;
    token := token.(v := VersionOf(m, c));
    token := token.(sid := GetValue(c, "sid"));
    token := token.(win := GetValue(c, "win"));
    token := token.(qh := GetValue(c, "qh"));
    var number := GetNumber(m, c, "sb");
    if number.None? { return None; }
    token := token.(sb := number.value);
    number := GetNumber(m, c, "ct");
    if number.None? { return None; }
    token := token.(ct := number.value);
    token := token.(cid := GetValue(c, "cid"));
    token := token.(dag := GetValue(c, "dag"));
    token := token.(strategy := GetValue(c, "str"));
    token := token.(pol := GetValue(c, "pol"));
    token := token.(ckf := GetValue(c, "ckf"));
    number := GetNumber(m, c, "scope");
    if number.None? { return None; }
    token := token.(scope := number.value);
    number := GetNumber(m, c, "iat");
    if number.None? { return None; }
    token := token.(iat := number.value);
    number := GetNumber(m, c, "exp");
    if number.None? { return None; }
    token := token.(exp := number.value);
    token := token.(nonce := GetValue(c, "nonce"));
    return Some(token);
  }

  // ---------------------------------------------------------------------------------------------
  // Printing and verifying

  const HEADER: Claims := map["alg" := Str("HS256"), "typ" := Str("CRP-SESS-v4")]

  function Material(header: string, payload: string): string { header + "." + payload }

  /** Signing encodes the session id, so it has to be a string. */
  function Serialize(m: Manager, t: Token): string
    requires t.sid.Str?
  {
    var header := Base64Url.Encode(m.dumps(HEADER));
    var payload := Base64Url.Encode(m.dumps(ToClaims(t)));
    header + "." + (payload + "." + Base64Url.Encode(m.sign(t.sid.s, Material(header, payload))))
  }

  /** The signature that `Serialize` appends. */
  function SignatureOf(m: Manager, t: Token): Bytes
    requires t.sid.Str?
  {
    m.sign(t.sid.s, Material(Base64Url.Encode(m.dumps(HEADER)), Base64Url.Encode(m.dumps(ToClaims(t)))))
  }

  /** The text of a token with its signature spelled as given. */
  function Spell(m: Manager, t: Token, spelling: string): string {
    Base64Url.Encode(m.dumps(HEADER)) + "." + (Base64Url.Encode(m.dumps(ToClaims(t))) + "." + spelling)
  }

  datatype Fields = Fields(
    sid: string, win: string, qh: string, sb: int, ct: int, cid: string, dag: string,
    strategy: string, pol: string, ckf: string, scope: int)

  function NewToken(f: Fields, now: int, ttl: int, nonce: string): Token {
    Token(VERSION, Str(f.sid), Str(f.win), Str(f.qh), f.sb, f.ct, Str(f.cid), Str(f.dag), Str(f.strategy),
          Str(f.pol), Str(f.ckf), f.scope, now, now + ttl, Str(nonce))
  }

  function Issue(m: Manager, f: Fields, now: int, ttl: int, nonce: string): string {
    Serialize(m, NewToken(f, now, ttl, nonce))
  }

  function DecodeJson(m: Manager, s: string): Option<Parsed> {
    var bytes := Base64Url.Decode(s);
    if bytes.None? then None else m.loads(bytes.value)
  }

  /** The checks, in the order in which they are made; the first one that fails is reported. */
  function Verify(m: Manager, serialized: string, now: int): Verdict {
    var parts := SplitDots(serialized);
    if |parts| != 3 then Rejected(BadFormat)
    else
      var header, payload := DecodeJson(m, parts[0]), DecodeJson(m, parts[1]);
      var signature := Base64Url.Decode(parts[2]);
      if header.None? || payload.None? || signature.None? then Rejected(Failed)
      else if header.value.NoObject? then Rejected(Failed)
      else if !("alg" in header.value.claims && header.value.claims["alg"] == Str("HS256")) then Rejected(BadAlgorithm)
      else if payload.value.NoObject? then Rejected(Failed)
      else
        var token := FromClaims(m, payload.value.claims);
        if token.None? then Rejected(Failed)
        else if token.value.v != VERSION then Rejected(BadVersion)
        else if now > token.value.exp then Rejected(Expired)
        else if !token.value.sid.Str? then Rejected(Failed)
        else if m.sign(token.value.sid.s, Material(parts[0], parts[1])) != signature.value then Rejected(BadSignature)
        else Accepted(token.value)
  }

  lemma EncodeHasNoDots(data: Bytes)
    ensures NoDots(Base64Url.Encode(data))
  {
    Base64Url.EncodeShape(data);
    hide Base64Url.Encode;
  }

  /** A serialized token is split into the three parts it was made of. */
  lemma SplitsInThree(a: Bytes, b: Bytes, c: string)
    requires NoDots(c)
    ensures SplitDots(Base64Url.Encode(a) + "." + (Base64Url.Encode(b) + "." + c)) ==
            [Base64Url.Encode(a), Base64Url.Encode(b), c]
  {
    EncodeHasNoDots(a);
    EncodeHasNoDots(b);
    hide Base64Url.Encode, SplitDots;
    SplitDotsHead(Base64Url.Encode(a), Base64Url.Encode(b) + "." + c);
    SplitDotsHead(Base64Url.Encode(b), c);
    SplitDotsPlain(c);
  }

  lemma HeaderNamesAlgorithm()
    ensures "alg" in HEADER && HEADER["alg"] == Str("HS256")
  {
  }

  /** The checks on a text whose three parts decode. */
  lemma VerifyParts(
      m: Manager, s: string, a: string, b: string, c: string, header: Claims, payload: Claims, signature: Bytes,
      t: Token, now: int)
    requires SplitDots(s) == [a, b, c]
    requires DecodeJson(m, a) == Some(Object(header)) && DecodeJson(m, b) == Some(Object(payload))
    requires "alg" in header && header["alg"] == Str("HS256")
    requires Base64Url.Decode(c) == Some(signature) && FromClaims(m, payload) == Some(t) && t.sid.Str?
    ensures Verify(m, s, now) ==
            if t.v != VERSION then Rejected(BadVersion)
            else if now > t.exp then Rejected(Expired)
            else if m.sign(t.sid.s, Material(a, b)) != signature then Rejected(BadSignature)
            else Accepted(t)
  {
    hide SplitDots, DecodeJson, Base64Url.Decode, FromClaims, Material;
  }

  /** A text with the header and payload of a serialized token and any spelling of its signature. */
  lemma VerifySpelled(m: Manager, t: Token, spelling: string, now: int)
    requires t.sid.Str? && Survives(m, HEADER) && Survives(m, ToClaims(t)) && NoDots(spelling)
    requires var header, payload := Base64Url.Encode(m.dumps(HEADER)), Base64Url.Encode(m.dumps(ToClaims(t)));
             Base64Url.Decode(spelling) == Some(m.sign(t.sid.s, Material(header, payload)))
    ensures Verify(m, Spell(m, t, spelling), now) ==
            if t.v != VERSION then Rejected(BadVersion)
            else if now > t.exp then Rejected(Expired)
            else Accepted(t)
  {
    var a, b := m.dumps(HEADER), m.dumps(ToClaims(t));
    var header, payload := Base64Url.Encode(a), Base64Url.Encode(b);
    var s := Spell(m, t, spelling);
    assert s == header + "." + (payload + "." + spelling);
    HeaderNamesAlgorithm();
    hide *;
    SplitsInThree(a, b, spelling);
    DecodesBack(m, HEADER);
    DecodesBack(m, ToClaims(t));
    ClaimsRoundTrip(m, t);
    var signature := m.sign(t.sid.s, Material(header, payload));
    VerifyParts(m, s, header, payload, spelling, HEADER, ToClaims(t), signature, t, now);
  }

  /** Verification of any serialized token: the version is checked first, then the clock, and
      otherwise the very token comes back. */
  lemma VerifySerialized(m: Manager, t: Token, now: int)
    requires t.sid.Str? && Survives(m, HEADER) && Survives(m, ToClaims(t))
    ensures Verify(m, Serialize(m, t), now) ==
            if t.v != VERSION then Rejected(BadVersion)
            else if now > t.exp then Rejected(Expired)
            else Accepted(t)
  {
    var signature := SignatureOf(m, t);
    assert Serialize(m, t) == Spell(m, t, Base64Url.Encode(signature));
    hide Base64Url.Encode, Base64Url.Decode, Serialize, Spell, Verify, ToClaims, HEADER, Survives;
    Base64Url.DecodeInverts(signature);
    EncodeHasNoDots(signature);
    VerifySpelled(m, t, Base64Url.Encode(signature), now);
  }

  /** The signature is not spelled in one way only: unless its length is a multiple of three, another
      text without padding is accepted for the same token. HMAC-SHA256 has 32 bytes. */
  lemma OtherTextAccepted(m: Manager, t: Token, now: int)
    requires t.sid.Str? && Survives(m, HEADER) && Survives(m, ToClaims(t)) && |SignatureOf(m, t)| % 3 != 0
    ensures exists s :: s != Serialize(m, t) && Verify(m, s, now) == Verify(m, Serialize(m, t), now)
  {
    var signature := SignatureOf(m, t);
    var spelling := Base64Url.Respelled(signature);
    assert Serialize(m, t) == Spell(m, t, Base64Url.Encode(signature));
    SpellsApart(m, t, spelling, Base64Url.Encode(signature));
    hide Base64Url.Encode, Base64Url.Decode, Base64Url.Respelled, Serialize, Spell, Verify, ToClaims, HEADER, Survives;
    Base64Url.OtherSpelling(signature);
    VerifySerialized(m, t, now);
    VerifySpelled(m, t, spelling, now);
    assert Verify(m, Spell(m, t, spelling), now) == Verify(m, Serialize(m, t), now);
  }

  lemma SpellsApart(m: Manager, t: Token, a: string, b: string)
    ensures Spell(m, t, a) == Spell(m, t, b) ==> a == b
  {
    var header, payload := Base64Url.Encode(m.dumps(HEADER)) + ".", Base64Url.Encode(m.dumps(ToClaims(t))) + ".";
    assert Spell(m, t, a) == header + (payload + a) && Spell(m, t, b) == header + (payload + b);
    hide *;
    AppendCancels(header, payload + a, payload + b);
    AppendCancels(payload, a, b);
  }

  lemma DecodesBack(m: Manager, c: Claims)
    requires Survives(m, c)
    ensures DecodeJson(m, Base64Url.Encode(m.dumps(c))) == Some(Object(c))
  {
    Base64Url.DecodeInverts(m.dumps(c));
    hide Base64Url.Encode, Base64Url.Decode;
  }

  /** An issued token is accepted, unchanged, up to and including its expiry second, and not after. */
  lemma IssuedVerifies(m: Manager, f: Fields, issued: int, ttl: int, nonce: string, now: int)
    requires Survives(m, HEADER) && Survives(m, ToClaims(NewToken(f, issued, ttl, nonce)))
    ensures Verify(m, Issue(m, f, issued, ttl, nonce), now) ==
            if now <= issued + ttl then Accepted(NewToken(f, issued, ttl, nonce)) else Rejected(Expired)
    ensures NewToken(f, issued, ttl, nonce) ==
            Token("4", Str(f.sid), Str(f.win), Str(f.qh), f.sb, f.ct, Str(f.cid), Str(f.dag), Str(f.strategy),
                  Str(f.pol), Str(f.ckf), f.scope, issued, issued + ttl, Str(nonce))
  {
    VerifySerialized(m, NewToken(f, issued, ttl, nonce), now);
  }

  /** What the three parts of a text say. */
  ghost predicate Says(m: Manager, s: string, header: Claims, payload: Option<Claims>, signature: Bytes) {
    var parts := SplitDots(s);
    && |parts| == 3 && DecodeJson(m, parts[0]) == Some(Object(header))
    && DecodeJson(m, parts[1]) == Some(if payload.None? then NoObject else Object(payload.value))
    && Base64Url.Decode(parts[2]) == Some(signature)
  }

  /** Its header names the one algorithm, and its payload is a dict that makes this token. */
  ghost predicate Carries(m: Manager, s: string, t: Token, signature: Bytes) {
    exists header, payload :: Says(m, s, header, Some(payload), signature) && FromClaims(m, payload) == Some(t) &&
      "alg" in header && header["alg"] == Str("HS256")
  }

  /** The MAC of the first two parts, with the dot between them, under the key of the token's session. */
  ghost predicate Signed(m: Manager, s: string, t: Token, signature: Bytes) {
    var parts := SplitDots(s);
    |parts| == 3 && t.sid.Str? && signature == m.sign(t.sid.s, parts[0] + "." + parts[1])
  }

  lemma CarriesOne(m: Manager, s: string, t: Token, signature: Bytes, t': Token, signature': Bytes)
    requires Carries(m, s, t, signature) && Carries(m, s, t', signature')
    ensures t == t' && signature == signature'
  {
    hide SplitDots, DecodeJson, Base64Url.Decode, FromClaims;
  }

  lemma CarriedVerdict(m: Manager, s: string, t: Token, signature: Bytes, now: int)
    requires Carries(m, s, t, signature)
    ensures Verify(m, s, now) ==
              if t.v != "4" then Rejected(BadVersion)
              else if now > t.exp then Rejected(Expired)
              else if !t.sid.Str? then Rejected(Failed)
              else if !Signed(m, s, t, signature) then Rejected(BadSignature)
              else Accepted(t)
  {
    hide SplitDots, DecodeJson, Base64Url.Decode, FromClaims;
  }

  /** For any text at all: it is accepted exactly when its header names the algorithm HS256, its payload
      makes the returned token, of version 4 and not expired, and its third part is that token's
      signature. */
  lemma AcceptedIff(m: Manager, s: string, now: int, t: Token)
    ensures Verify(m, s, now) == Accepted(t) <==>
              exists signature :: Carries(m, s, t, signature) && Signed(m, s, t, signature) &&
                t.v == "4" && now <= t.exp
  {
    if Verify(m, s, now) == Accepted(t) {
      AcceptedCarries(m, s, now);
    }
    if signature :| Carries(m, s, t, signature) && Signed(m, s, t, signature) && t.v == "4" && now <= t.exp {
      CarriedVerdict(m, s, t, signature, now);
    }
  }

  lemma AcceptedCarries(m: Manager, s: string, now: int)
    requires Verify(m, s, now).Accepted?
    ensures var t := Verify(m, s, now).token;
            exists signature :: Carries(m, s, t, signature) && Signed(m, s, t, signature) && t.v == "4" && now <= t.exp
  {
    hide SplitDots, DecodeJson, Base64Url.Decode, FromClaims;
    var parts := SplitDots(s);
    var header, payload := DecodeJson(m, parts[0]).value.claims, DecodeJson(m, parts[1]).value.claims;
    var signature := Base64Url.Decode(parts[2]).value;
    assert Says(m, s, header, Some(payload), signature);
    assert Carries(m, s, Verify(m, s, now).token, signature);
  }

  /** A foreign algorithm is reported before anything about the payload, and a text without three parts
      before anything else. */
  lemma RejectedEarly(m: Manager, s: string, now: int)
    ensures Verify(m, s, now) == Rejected(BadFormat) <==> |SplitDots(s)| != 3
    ensures Verify(m, s, now) == Rejected(BadAlgorithm) <==>
              exists header, payload, signature :: Says(m, s, header, payload, signature) &&
                ("alg" in header ==> header["alg"] != Str("HS256"))
  {
    hide SplitDots, DecodeJson, Base64Url.Decode, FromClaims;
    if Verify(m, s, now) == Rejected(BadAlgorithm) {
      var parts := SplitDots(s);
      var second := DecodeJson(m, parts[1]).value;
      var payload := if second.NoObject? then None else Some(second.claims);
      assert Says(m, s, DecodeJson(m, parts[0]).value.claims, payload, Base64Url.Decode(parts[2]).value);
    }
  }

  /** An accepted text carries, as its third part, the MAC of the other two under the key of the
      session that its own payload names. */
  lemma {:induction false} AcceptedIsSigned(m: Manager, s: string, now: int)
    requires Verify(m, s, now).Accepted?
    ensures var t, parts := Verify(m, s, now).token, SplitDots(s);
            && |parts| == 3 && t.v == VERSION && now <= t.exp && t.sid.Str?
            && Base64Url.Decode(parts[2]) == Some(m.sign(t.sid.s, Material(parts[0], parts[1])))
            && (exists c :: DecodeJson(m, parts[1]) == Some(Object(c)) && FromClaims(m, c) == Some(t))
  {
  }

  lemma MaterialDetermines(a: string, b: string, c: string, d: string)
    requires NoDots(a) && NoDots(b) && NoDots(c) && NoDots(d) && Material(a, b) == Material(c, d)
    ensures a == c && b == d
  {
    hide SplitDots;
    SplitDotsHead(a, b);
    SplitDotsPlain(b);
    SplitDotsHead(c, d);
    SplitDotsPlain(d);
    var both := [a] + [b];
    assert both[0] == a && both[1] == b;
    assert both == [c] + [d];
  }

  lemma SerializedParts(m: Manager, t: Token)
    requires t.sid.Str? && Survives(m, ToClaims(t))
    ensures var parts := SplitDots(Serialize(m, t));
            && |parts| == 3 && NoDots(parts[0]) && NoDots(parts[1])
            && DecodeJson(m, parts[1]) == Some(Object(ToClaims(t)))
            && Base64Url.Decode(parts[2]) == Some(m.sign(t.sid.s, Material(parts[0], parts[1])))
  {
    var a, b := m.dumps(HEADER), m.dumps(ToClaims(t));
    var c := m.sign(t.sid.s, Material(Base64Url.Encode(a), Base64Url.Encode(b)));
    EncodeHasNoDots(a);
    EncodeHasNoDots(b);
    EncodeHasNoDots(c);
    SplitsInThree(a, b, Base64Url.Encode(c));
    Base64Url.DecodeInverts(b);
    Base64Url.DecodeInverts(c);
    hide SplitDots, Base64Url.Encode, Base64Url.Decode, ToClaims, HEADER;
  }

  /** What an issued text says to anyone who decodes it. */
  lemma SerializedSays(m: Manager, t: Token)
    requires t.sid.Str? && Survives(m, HEADER) && Survives(m, ToClaims(t))
    ensures exists signature ::
              && Says(m, Serialize(m, t), map["alg" := Str("HS256"), "typ" := Str("CRP-SESS-v4")],
                      Some(ToClaims(t)), signature)
              && Signed(m, Serialize(m, t), t, signature)
  {
    var a, b := m.dumps(HEADER), m.dumps(ToClaims(t));
    var c := SignatureOf(m, t);
    var header, payload := Base64Url.Encode(a), Base64Url.Encode(b);
    assert Material(header, payload) == header + "." + payload;
    assert Serialize(m, t) == header + "." + (payload + "." + Base64Url.Encode(c));
    hide SplitDots, Base64Url.Encode, Base64Url.Decode, Serialize, Survives;
    EncodeHasNoDots(c);
    SplitsInThree(a, b, Base64Url.Encode(c));
    DecodesBack(m, HEADER);
    DecodesBack(m, ToClaims(t));
    Base64Url.DecodeInverts(c);
    hide ToClaims, DecodeJson;
    assert Says(m, Serialize(m, t), HEADER, Some(ToClaims(t)), c);
  }

  /** A signature vouches for one header and payload only: a text that is accepted for the session of
      an issued token, with that token's signature in whatever spelling, yields that token, provided
      that the MAC does not collide on the two texts. */
  lemma SignatureBinds(m: Manager, t: Token, s: string, now: int)
    requires t.sid.Str? && Survives(m, ToClaims(t))
    requires Verify(m, s, now).Accepted? && Verify(m, s, now).token.sid == t.sid
    requires |SplitDots(s)| == 3 && |SplitDots(Serialize(m, t))| == 3
    requires var parts, issued := SplitDots(s), SplitDots(Serialize(m, t));
             && Base64Url.Decode(parts[2]) == Base64Url.Decode(issued[2])
             && (m.sign(t.sid.s, Material(parts[0], parts[1])) == m.sign(t.sid.s, Material(issued[0], issued[1])) ==>
                   Material(parts[0], parts[1]) == Material(issued[0], issued[1]))
    ensures Verify(m, s, now).token == t
  {
    AcceptedIsSigned(m, s, now);
    SerializedParts(m, t);
    SplitDotsParts(s);
    ClaimsRoundTrip(m, t);
    hide *;
    var parts, issued := SplitDots(s), SplitDots(Serialize(m, t));
    MaterialDetermines(parts[0], parts[1], issued[0], issued[1]);
  }
}
