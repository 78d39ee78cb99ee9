/**
 Tokens and revocation. A token is header.payload.signature; the revocation map remembers, per
 token id, the expiry it was revoked with and is pruned whenever it is consulted. HMAC and JSON are
 parameters; every clock reading is an argument.
 */
module Auth {
  import opened Prelude
  import opened Base64Url
  import opened Text

  const TOKEN_EXPIRY_SECONDS: int := 86400

  datatype Claims = Claims(sub: Bytes, email: Bytes, iat: int, exp: int, jti: Bytes)

  /** What the manager is built on: the keyed digest and the JSON writer and reader. */
  datatype Library = Library(hmac: Bytes -> Bytes, dump: Claims -> Bytes, parse: Bytes -> Option<Claims>) {
    ghost predicate Lawful() { forall c: Claims :: parse(dump(c)) == Some(c) }
  }

  const HEADER: Bytes := "{\"alg\":\"HS256\",\"typ\":\"JWT\"}"

  // ----- tokens -----

  /** The signing input and its signature. */
  function Signed(k: Library, header: Bytes, payload: Bytes): Bytes {
    Joined('.', header, payload, Encode(k.hmac(header + "." + payload)))
  }

  function Token(k: Library, c: Claims): Bytes { Signed(k, Encode(HEADER), Encode(k.dump(c))) }

  /** The claims of a token whose signature is right; none if it is not, or if the payload is no
      claims. */
  function Checked(k: Library, token: Bytes): Option<Claims> {
    match FindChar(token, '.', 0)
    case None => None
    case Some(p1) =>
      match FindChar(token, '.', p1 + 1)
      case None => None
      case Some(p2) =>
        var header, payload := token[..p1], token[p1 + 1..p2];
        if Encode(k.hmac(header + "." + payload)) != token[p2 + 1..] then None
        else k.parse(Decode(payload))
  }

  lemma EncodedHasNoDot(d: Bytes)
    ensures Lacks(Encode(d), '.')
  {
    EncodeIsCanonical(d);
    assert !UrlSafe('.');
  }

  /** The token is a correctly signed header and payload, and the payload is these claims. */
  ghost predicate SignedBy(k: Library, token: Bytes, header: Bytes, payload: Bytes, c: Claims) {
    && Lacks(header, '.') && Lacks(payload, '.')
    && token == Signed(k, header, payload) && k.parse(Decode(payload)) == Some(c)
  }

  /** A token is accepted, before the clock and the revocations are looked at, exactly when it is
      the signed form of some header and payload without dots. */
  lemma CheckedIff(k: Library, token: Bytes, c: Claims)
    ensures Checked(k, token) == Some(c) <==>
            exists header: Bytes, payload: Bytes :: SignedBy(k, token, header, payload, c)
  {
    if Checked(k, token) == Some(c) {
      var header, payload := PartsOf(k, token, c);
    }
    if header: Bytes, payload: Bytes :| SignedBy(k, token, header, payload, c) {
      SignedIsChecked(k, token, header, payload, c);
    }
  }

  lemma PartsOf(k: Library, token: Bytes, c: Claims) returns (header: Bytes, payload: Bytes)
    requires Checked(k, token) == Some(c)
    ensures SignedBy(k, token, header, payload, c)
  {
    hide Encode, Decode;
    var p1 := FindChar(token, '.', 0).value;
    var p2 := FindChar(token, '.', p1 + 1).value;
    header, payload := token[..p1], token[p1 + 1..p2];
    assert token[0..p1] == header;
    hide FindChar;
    assert token[p2 + 1..] == Encode(k.hmac(header + "." + payload));
    assert token == Joined('.', header, payload, token[p2 + 1..]);
  }

  lemma SignedIsChecked(k: Library, token: Bytes, header: Bytes, payload: Bytes, c: Claims)
    requires SignedBy(k, token, header, payload, c)
    ensures Checked(k, token) == Some(c)
  {
    hide Encode, Decode, FindChar, Joined;
    SplitAtTwo('.', header, payload, Encode(k.hmac(header + "." + payload)));
  }

  /** The same without further names: the token is a header, a dot, a payload, a dot and the encoded digest
      of what is before it. */
  lemma CheckedMeans(k: Library, token: Bytes, c: Claims)
    ensures Checked(k, token) == Some(c) <==>
            exists header: Bytes, payload: Bytes ::
              && '.' !in header && '.' !in payload
              && token == header + "." + payload + "." + Encode(k.hmac(header + "." + payload))
              && k.parse(Decode(payload)) == Some(c)
  {
    hide Encode, Decode, Checked;
    CheckedIff(k, token, c);
    if header: Bytes, payload: Bytes :| SignedBy(k, token, header, payload, c) {
      assert token == header + "." + payload + "." + Encode(k.hmac(header + "." + payload));
    }
    if header: Bytes, payload: Bytes :|
      && '.' !in header && '.' !in payload
      && token == header + "." + payload + "." + Encode(k.hmac(header + "." + payload))
      && k.parse(Decode(payload)) == Some(c)
    {
      assert SignedBy(k, token, header, payload, c);
    }
  }

  /** A token without an id is accepted exactly as long as it has not expired: it cannot be revoked. */
  lemma WithoutIdNeverRevoked(k: Library, steps: seq<Step>, token: Bytes, c: Claims, now: int, later: int)
    requires Checked(k, token) == Some(c) && c.jti == []
    ensures Accepts(k, Run(k, steps), token, now, later) <==> now < c.exp
  {
  }

  /** A created token gives back its claims. */
  lemma CreatedIsChecked(k: Library, c: Claims)
    requires k.Lawful()
    ensures Checked(k, Token(k, c)) == Some(c)
  {
    EncodedHasNoDot(HEADER);
    EncodedHasNoDot(k.dump(c));
    RoundTrip(k.dump(c));
    hide Encode, Decode;
    SignedIsChecked(k, Token(k, c), Encode(HEADER), Encode(k.dump(c)), c);
  }

  // ----- the revocation map -----

  /** What is left of the map after a look at the clock. */
  function Pruned(m: map<Bytes, int>, now: int): map<Bytes, int> {
    map j | j in m && !(0 < m[j] < now) :: m[j]
  }

  datatype Step =
    | Revoke(jti: Bytes, exp: int)
    | Ask(jti: Bytes, now: int)
    | Verify(token: Bytes, now: int, later: int)

  /** Whether a verification gets as far as asking for revocation. */
  predicate Asks(k: Library, token: Bytes, now: int) {
    Checked(k, token).Some? && now < Checked(k, token).value.exp && Checked(k, token).value.jti != []
  }

  /** The clock reading a step prunes with, if it prunes. */
  function Reading(k: Library, s: Step): Option<int> {
    match s
    case Revoke(_, _) => None
    case Ask(jti, now) => if jti == [] then None else Some(now)
    case Verify(token, now, later) => if Asks(k, token, now) then Some(later) else None
  }

  function Next(k: Library, m: map<Bytes, int>, s: Step): map<Bytes, int> {
    if s.Revoke? then (if s.jti == [] then m else m[s.jti := s.exp])
    else match Reading(k, s)
      case None => m
      case Some(now) => Pruned(m, now)
  }

  function Run(k: Library, steps: seq<Step>): map<Bytes, int> {
    if steps == [] then map[] else Next(k, Run(k, steps[..|steps| - 1]), steps[|steps| - 1])
  }

  /** Whether a token is accepted in a state. */
  predicate Accepts(k: Library, m: map<Bytes, int>, token: Bytes, now: int, later: int) {
    && Checked(k, token).Some?
    && now < Checked(k, token).value.exp
    && (Checked(k, token).value.jti == [] || Checked(k, token).value.jti !in Pruned(m, later))
  }

  // ----- what the map remembers -----

  ghost predicate Revokes(s: Step, jti: Bytes) { s.Revoke? && s.jti == jti }

  /** Step i revokes the id, with this expiry, and no later step revokes it again. */
  ghost predicate LastRevoke(steps: seq<Step>, jti: Bytes, i: nat, e: int) {
    && i < |steps| && steps[i] == Revoke(jti, e)
    && forall n :: i < n < |steps| ==> !Revokes(steps[n], jti)
  }

  /** No reading of the clock after step i is past the expiry. */
  ghost predicate Outlives(k: Library, steps: seq<Step>, i: nat, e: int) {
    e <= 0 || forall n :: i < n < |steps| && Reading(k, steps[n]).Some? ==> Reading(k, steps[n]).value <= e
  }

  /** The map after any run: an id is in it exactly if its last revocation has outlived every
      reading of the clock since. */
  lemma {:induction false} RememberedIff(k: Library, steps: seq<Step>, jti: Bytes, e: int)
    requires jti != []
    ensures (jti in Run(k, steps) && Run(k, steps)[jti] == e) <==>
            exists i: nat :: LastRevoke(steps, jti, i, e) && Outlives(k, steps, i, e)
    decreases |steps|
  {
    hide Asks;
    if steps != [] {
      var n := |steps| - 1;
      var before, s := steps[..n], steps[n];
      RememberedIff(k, before, jti, e);
      if Revokes(s, jti) {
        if s.exp == e { assert LastRevoke(steps, jti, n, e) && Outlives(k, steps, n, e); }
        if i: nat :| LastRevoke(steps, jti, i, e) { assert i == n; }
      } else {
        if i: nat :| LastRevoke(before, jti, i, e) && Outlives(k, before, i, e) {
          assert LastRevoke(steps, jti, i, e);
          if jti in Run(k, steps) { assert Outlives(k, steps, i, e); }
        }
        if i: nat :| LastRevoke(steps, jti, i, e) && Outlives(k, steps, i, e) {
          OneStepBack(k, steps, jti, i, e);
        }
      }
    }
  }

  lemma OneStepBack(k: Library, steps: seq<Step>, jti: Bytes, i: nat, e: int)
    requires LastRevoke(steps, jti, i, e) && Outlives(k, steps, i, e)
    requires !Revokes(steps[|steps| - 1], jti)
    ensures var before := steps[..|steps| - 1];
            LastRevoke(before, jti, i, e) && Outlives(k, before, i, e)
    ensures e <= 0 || Reading(k, steps[|steps| - 1]).None? || Reading(k, steps[|steps| - 1]).value <= e
  {
    hide Reading;
    var before := steps[..|steps| - 1];
    assert i < |before|;
    forall n | i < n < |before| ensures !Revokes(before[n], jti) { assert before[n] == steps[n]; }
    if e > 0 {
      forall n | i < n < |before| && Reading(k, before[n]).Some? ensures Reading(k, before[n]).value <= e {
        assert before[n] == steps[n];
      }
    }
  }

  // ----- the life of a token -----

  ghost predicate EverRevoked(steps: seq<Step>, jti: Bytes) {
    exists i :: 0 <= i < |steps| && Revokes(steps[i], jti)
  }

  lemma {:induction false} SomeLastRevoke(steps: seq<Step>, jti: Bytes) returns (i: nat, e: int)
    requires EverRevoked(steps, jti)
    ensures LastRevoke(steps, jti, i, e)
    decreases |steps|
  {
    var n := |steps| - 1;
    if Revokes(steps[n], jti) { return n, steps[n].exp; }
    var j :| 0 <= j < |steps| && Revokes(steps[j], jti);
    assert steps[..n][j] == steps[j];
    i, e := SomeLastRevoke(steps[..n], jti);
  }

  /** A created token is accepted after any run exactly when the first reading is before its expiry
      and its last revocation, if any, has been outlived: by the readings since, or by this one. */
  lemma AcceptedIff(k: Library, steps: seq<Step>, c: Claims, now: int, later: int)
    requires k.Lawful() && c.jti != []
    ensures Accepts(k, Run(k, steps), Token(k, c), now, later) <==>
            && now < c.exp
            && forall i: nat, e: int :: LastRevoke(steps, c.jti, i, e) ==>
                 0 < e && (e < later || !Outlives(k, steps, i, e))
  {
    CreatedIsChecked(k, c);
    hide Checked, Token;
    var m := Run(k, steps);
    if c.jti in Pruned(m, later) {
      RememberedIff(k, steps, c.jti, m[c.jti]);
    }
    forall i: nat, e: int | LastRevoke(steps, c.jti, i, e) && !(0 < e && (e < later || !Outlives(k, steps, i, e)))
      ensures c.jti in Pruned(m, later)
    {
      RememberedIff(k, steps, c.jti, e);
    }
  }

  /** Every revocation of the token's id passes 0 or at least the token's expiry. */
  ghost predicate Disciplined(steps: seq<Step>, c: Claims) {
    forall i :: 0 <= i < |steps| && Revokes(steps[i], c.jti) ==> steps[i].exp <= 0 || c.exp <= steps[i].exp
  }

  /** The clock did not run backwards: no reading of the run is past this one. */
  ghost predicate NoReadingAfter(k: Library, steps: seq<Step>, now: int) {
    forall i :: 0 <= i < |steps| && Reading(k, steps[i]).Some? ==> Reading(k, steps[i]).value <= now
  }

  ghost predicate Orderly(k: Library, steps: seq<Step>, c: Claims, later: int) {
    Disciplined(steps, c) && NoReadingAfter(k, steps, later)
  }

  /** What a caller expects of a created token. */
  ghost predicate AsExpected(k: Library, steps: seq<Step>, c: Claims, now: int, later: int) {
    Accepts(k, Run(k, steps), Token(k, c), now, later) <==> now < c.exp && !EverRevoked(steps, c.jti)
  }

  /** After any orderly run a created token is accepted exactly when it has not expired and was
      never revoked, provided its expiry does not fall between the two readings of the clock. The run
      includes what other threads revoke and prune between the two readings. */
  lemma TokenLifecycle(k: Library, steps: seq<Step>, c: Claims, now: int, later: int)
    requires k.Lawful() && c.jti != [] && Orderly(k, steps, c, later)
    requires c.exp <= now || later <= c.exp
    ensures AsExpected(k, steps, c, now, later)
  {
    hide Accepts, Run, Reading;
    AcceptedIff(k, steps, c, now, later);
    if now < c.exp && EverRevoked(steps, c.jti) {
      var i, e := SomeLastRevoke(steps, c.jti);
      assert Revokes(steps[i], c.jti);
      assert e <= 0 || (later <= e && Outlives(k, steps, i, e));
    }
    if !EverRevoked(steps, c.jti) {
      assert forall i: nat, e: int :: LastRevoke(steps, c.jti, i, e) ==> Revokes(steps[i], c.jti);
    }
  }

  /** The two readings of the clock cannot be ignored: the promise holds of every orderly run if
      and only if the expiry does not fall strictly between them. */
  lemma LifecycleIff(k: Library, c: Claims, now: int, later: int)
    requires k.Lawful() && c.jti != [] && 0 <= now
    ensures (forall steps :: Orderly(k, steps, c, later) ==> AsExpected(k, steps, c, now, later))
            <==> (c.exp <= now || later <= c.exp)
  {
    if c.exp <= now || later <= c.exp {
      forall steps | Orderly(k, steps, c, later) ensures AsExpected(k, steps, c, now, later) {
        TokenLifecycle(k, steps, c, now, later);
      }
    } else {
      var steps := [Revoke(c.jti, c.exp)];
      assert Revokes(steps[0], c.jti);
      AcceptedIff(k, steps, c, now, later);
      assert Orderly(k, steps, c, later);
      assert !AsExpected(k, steps, c, now, later);
    }
  }

  /** Whatever happened before a revocation with expiry e, and whatever disciplined run follows it, the
      token is refused. */
  ghost predicate RefusedFor(k: Library, c: Claims, e: int, before: seq<Step>, after: seq<Step>, now: int, later: int) {
    Orderly(k, after, c, later) && (c.exp <= now || later <= c.exp) ==>
      !Accepts(k, Run(k, before + [Revoke(c.jti, e)] + after), Token(k, c), now, later)
  }

  /** The last revocation of a run that revokes at step |before| comes no earlier, and no reading
      since is past `later`. */
  lemma LastFrom(k: Library, c: Claims, e: int, before: seq<Step>, after: seq<Step>, later: int, i: nat, f: int)
    requires Orderly(k, after, c, later) && (e <= 0 || c.exp <= e)
    requires LastRevoke(before + [Revoke(c.jti, e)] + after, c.jti, i, f)
    ensures f <= 0 || c.exp <= f
    ensures later <= f ==> Outlives(k, before + [Revoke(c.jti, e)] + after, i, f)
  {
    hide Reading;
    var steps, n := before + [Revoke(c.jti, e)] + after, |before|;
    assert steps[n] == Revoke(c.jti, e) && Revokes(steps[n], c.jti);
    assert forall j :: n < j < |steps| ==> steps[j] == after[j - n - 1];
    assert Revokes(steps[i], c.jti);
    if i > n { assert Revokes(after[i - n - 1], c.jti); }
  }

  lemma RevokedStaysRefused(k: Library, c: Claims, e: int, before: seq<Step>, after: seq<Step>, now: int, later: int)
    requires k.Lawful() && c.jti != [] && (e <= 0 || c.exp <= e)
    ensures RefusedFor(k, c, e, before, after, now, later)
  {
    hide Accepts, Run, Reading, LastRevoke, Outlives, Orderly;
    var steps := before + [Revoke(c.jti, e)] + after;
    if Orderly(k, after, c, later) && (c.exp <= now || later <= c.exp) {
      AcceptedIff(k, steps, c, now, later);
      assert Revokes(steps[|before|], c.jti);
      var i, f := SomeLastRevoke(steps, c.jti);
      LastFrom(k, c, e, before, after, later, i, f);
    }
  }

  /** A revocation is for ever exactly if it passes 0 or at least the token's expiry: with any other
      expiry it is forgotten once the clock has passed it, and the token is accepted again. */
  lemma RevokedForEverIff(k: Library, c: Claims, e: int)
    requires k.Lawful() && c.jti != []
    ensures (forall before, after, now, later :: RefusedFor(k, c, e, before, after, now, later))
            <==> (e <= 0 || c.exp <= e)
  {
    if e <= 0 || c.exp <= e {
      forall before, after, now, later ensures RefusedFor(k, c, e, before, after, now, later) {
        RevokedStaysRefused(k, c, e, before, after, now, later);
      }
    } else {
      var steps := [] + [Revoke(c.jti, e)] + [];
      assert steps == [Revoke(c.jti, e)];
      AcceptedIff(k, steps, c, c.exp - 1, c.exp);
      assert Orderly(k, [], c, c.exp);
      assert !RefusedFor(k, c, e, [], [], c.exp - 1, c.exp);
    }
  }

  /** Not even one reading for both checks helps: such a token is accepted at any clock between the two
      expiries. */
  lemma EarlyExpiryIsForgotten(k: Library, c: Claims, e: int, now: int)
    requires k.Lawful() && c.jti != [] && 0 < e < now < c.exp
    ensures Accepts(k, Run(k, [Revoke(c.jti, e)]), Token(k, c), now, now)
  {
    AcceptedIff(k, [Revoke(c.jti, e)], c, now, now);
  }

  // ----- the class -----

  class AuthManager {
    const library: Library
    var revoked: map<Bytes, int>
    ghost var history: seq<Step>

    ghost predicate Valid()
      reads this
    {
      revoked == Run(library, history)
    }

    constructor (library: Library)
      ensures Valid() && this.library == library && history == []
    {
      this.library := library;
      revoked := map[];
      history := [];
    }

    /** create_token, given the clock and a random id. */
    method CreateToken(userId: Bytes, email: Bytes, now: int, jti: Bytes) returns (token: Bytes)
      ensures token == Token(library, Claims(userId, email, now, now + TOKEN_EXPIRY_SECONDS, jti))
      ensures var payload := Encode(library.dump(Claims(userId, email, now, now + 86400, jti)));
              var input := Encode("{\"alg\":\"HS256\",\"typ\":\"JWT\"}") + "." + payload;
              token == input + "." + Encode(library.hmac(input))
    {
      hide Encode;
      var header := EncodeBytes(HEADER);
      var payload := EncodeBytes(library.dump(Claims(userId, email, now, now + TOKEN_EXPIRY_SECONDS, jti)));
      var signingInput := header + "." + payload;
      var signature := EncodeBytes(library.hmac(signingInput));
      token := signingInput + "." + signature;
    }

    /** revoke_token. */
    method RevokeToken(jti: Bytes, exp: int)
      requires Valid()
      modifies this
      ensures Valid() && history == old(history) + [Revoke(jti, exp)]
    {
      history := history + [Revoke(jti, exp)];
      assert history[..|history| - 1] == old(history);
      if jti == [] { return; }
      revoked := revoked[jti := exp];
    }

    /** The pruning loop of is_revoked, over the entries in any order. */
    method Prune(now: int)
      modifies this`revoked
      ensures revoked == Pruned(old(revoked), now)
    {
      var entries := revoked.Keys;
      while entries != {}
        invariant entries <= revoked.Keys <= old(revoked).Keys
        invariant forall j :: j in revoked ==> revoked[j] == old(revoked)[j]
        invariant forall j :: j in old(revoked) && j !in entries ==> (j in revoked <==> !(0 < old(revoked)[j] < now))
        decreases |entries|
      {
        var j :| j in entries;
        if revoked[j] > 0 && revoked[j] < now { revoked := revoked - {j}; }
        entries := entries - {j};
      }
    }

    /** is_revoked. */
    method IsRevoked(jti: Bytes, now: int) returns (yes: bool)
      requires Valid()
      modifies this
      ensures Valid() && history == old(history) + [Ask(jti, now)]
      ensures yes <==> jti != [] && jti in Pruned(old(revoked), now)
    {
      history := history + [Ask(jti, now)];
      assert history[..|history| - 1] == old(history);
      if jti == [] { return false; }
      Prune(now);
      yes := jti in revoked;
    }

    /** verify_token. The claims are handed out as soon as the payload is read, even if the token
        is then refused. */
    method VerifyToken(token: Bytes, now: int, later: int) returns (ok: bool, claims: Option<Claims>)
      requires Valid()
      modifies this
      ensures Valid() && history == old(history) + [Verify(token, now, later)]
      ensures ok <==> Accepts(library, old(revoked), token, now, later)
      ensures claims == Checked(library, token)
    {
      history := history + [Verify(token, now, later)];
      assert history[..|history| - 1] == old(history);
      claims := CheckSignature(token);
      if claims.None? || claims.value.exp <= now { return false, claims; }
      if claims.value.jti == [] { return true, claims; }
      Prune(later);
      ok := claims.value.jti !in revoked;
    }

    /** The part of verify_token that does not look at the clock. */
    method CheckSignature(token: Bytes) returns (claims: Option<Claims>)
      ensures claims == Checked(library, token)
    {
      var p1 := FindChar(token, '.', 0);
      if p1.None? { return None; }
      var p2 := FindChar(token, '.', p1.value + 1);
      if p2.None? { return None; }
      var header, payload := token[..p1.value], token[p1.value + 1..p2.value];
      var signature := token[p2.value + 1..];
      var expected := EncodeBytes(library.hmac(header + "." + payload));
      if |expected| != |signature| || expected != signature { return None; }
      var bytes := DecodeBytes(payload);
      claims := library.parse(bytes);
    }
  }
}
