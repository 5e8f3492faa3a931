/**
 * Key sets and validation of one access token against one key set
 * (hosts/memory-mcp/src/resource_auth.rs; RFC 7517, sections 4.5 and 5).
 */
module Jwks {
  import opened Wrappers

  datatype Algorithm = ES256 | RS256 | OtherAlgorithm(name: string)
  datatype KeyType = EllipticCurve | Rsa | OtherKeyType
  datatype KeyUse = Signature | Encryption | OtherUse
  datatype KeyOperation = Verify | OtherOperation

  /** `material` stands for the remaining parameters of the key. */
  datatype Jwk = Jwk(
    kty: KeyType,
    alg: Option<Algorithm>,
    keyUse: Option<KeyUse>,
    keyOps: Option<seq<KeyOperation>>,
    kid: Option<string>,
    material: int)

  datatype Header = Header(kid: Option<string>, alg: Algorithm)

  /** A token whose header cannot be decoded has none. */
  datatype Token = Token(header: Option<Header>, payload: int)

  datatype Claims = Claims(subject: string, scopes: set<string>)

  datatype TokenError = Invalid | MissingScope | EmptyJwks | UnknownKey | JwksUnavailable

  type Time = nat

  /**
   * The foreign calls: whether a decoding key can be built from a key, and the claims of a token whose signature,
   * expiry, issuer and audience (RFC 7519, section 4.1) are accepted under a key at a time.
   */
  datatype Verifier = Verifier(
    decodable: Jwk -> bool,
    decode: (Token, Jwk, Time) -> Option<Claims>,
    requiredScopes: set<string>)

  function SigningAlgorithm(key: Jwk): Option<Algorithm> {
    match (key.kty, key.alg)
    case (EllipticCurve, Some(ES256)) => Some(ES256)
    case (Rsa, Some(RS256)) => Some(RS256)
    case _ => None
  }

  /** A key that may verify signatures, has a non-empty id and can be decoded. */
  predicate Usable(v: Verifier, key: Jwk) {
    && SigningAlgorithm(key).Some?
    && (key.keyUse.Some? ==> key.keyUse.value == Signature)
    && (key.keyOps.Some? ==> Verify in key.keyOps.value)
    && key.kid.Some? && key.kid.value != ""
    && v.decodable(key)
  }

  /** A key set that may serve: some key is usable, and no two usable keys share an id. */
  ghost predicate ValidSet(v: Verifier, keys: seq<Jwk>) {
    && (exists i :: 0 <= i < |keys| && Usable(v, keys[i]))
    && forall i, j :: 0 <= i < j < |keys| && Usable(v, keys[i]) && Usable(v, keys[j]) ==> keys[i].kid != keys[j].kid
  }

  /** The key ids collected from the first `n` keys. */
  ghost predicate Collected(v: Verifier, keys: seq<Jwk>, n: nat, ids: set<string>)
    requires n <= |keys|
  {
    && (forall i :: 0 <= i < n && Usable(v, keys[i]) ==> keys[i].kid.value in ids)
    && (forall id :: id in ids ==> exists i :: 0 <= i < n && Usable(v, keys[i]) && keys[i].kid.value == id)
    && forall i, j :: 0 <= i < j < n && Usable(v, keys[i]) && Usable(v, keys[j]) ==> keys[i].kid != keys[j].kid
  }

  method ValidateJwks(v: Verifier, keys: seq<Jwk>) returns (r: Result<(), TokenError>)
    ensures r.Ok? <==> ValidSet(v, keys)
    ensures r.Err? ==> r.error == EmptyJwks
  {
    var keyIds: set<string> := {};
    for i := 0 to |keys|
      invariant Collected(v, keys, i, keyIds)
    {
      var key := keys[i];
      if SigningAlgorithm(key).None?
         || (key.keyUse.Some? && key.keyUse.value != Signature)
         || (key.keyOps.Some? && Verify !in key.keyOps.value) {
        continue;
      }
      if key.kid.None? || key.kid.value == "" {
        continue;
      }
      if !v.decodable(key) {
        continue;
      }
      assert Usable(v, keys[i]);
      if key.kid.value in keyIds {
        return Err(EmptyJwks);
      }
      ghost var before := keyIds;
      keyIds := keyIds + {key.kid.value};
      forall id | id in keyIds ensures exists j :: 0 <= j < i + 1 && Usable(v, keys[j]) && keys[j].kid.value == id {
        if id in before {
          var j :| 0 <= j < i && Usable(v, keys[j]) && keys[j].kid.value == id;
        }
      }
    }
    if keyIds == {} {
      return Err(EmptyJwks);
    }
    var id :| id in keyIds;
    r := Ok(());
  }

  function Find(keys: seq<Jwk>, kid: string): Option<Jwk> {
    if keys == [] then None
    else if keys[0].kid == Some(kid) then Some(keys[0])
    else Find(keys[1..], kid)
  }

  ghost predicate FirstOf(keys: seq<Jwk>, kid: string, i: int) {
    && 0 <= i < |keys| && keys[i].kid == Some(kid)
    && forall j :: 0 <= j < i ==> keys[j].kid != Some(kid)
  }

  /** The key found is the first of that id, if there is one. */
  lemma {:induction false} FindIsFirst(keys: seq<Jwk>, kid: string, i: int)
    requires 0 <= i < |keys| && keys[i].kid == Some(kid)
    ensures exists f :: FirstOf(keys, kid, f) && f <= i && Find(keys, kid) == Some(keys[f])
  {
    if keys[0].kid == Some(kid) {
      assert FirstOf(keys, kid, 0);
    } else {
      FindIsFirst(keys[1..], kid, i - 1);
      var f :| FirstOf(keys[1..], kid, f) && f <= i - 1 && Find(keys[1..], kid) == Some(keys[1..][f]);
      forall j | 0 <= j < f + 1 ensures keys[j].kid != Some(kid) {
        assert j > 0 ==> keys[j] == keys[1..][j - 1];
      }
      assert FirstOf(keys, kid, f + 1);
    }
  }

  lemma {:induction false} FoundHasId(keys: seq<Jwk>, kid: string)
    ensures Find(keys, kid).Some? ==> exists i :: 0 <= i < |keys| && keys[i].kid == Some(kid)
  {
    if keys != [] {
      FoundHasId(keys[1..], kid);
      if keys[0].kid != Some(kid) && Find(keys, kid).Some? {
        var i :| 0 <= i < |keys[1..]| && keys[1..][i].kid == Some(kid);
        assert keys[i + 1].kid == Some(kid);
      }
    }
  }

  function ValidateAgainst(v: Verifier, token: Token, keys: seq<Jwk>, now: Time): Result<Claims, TokenError> {
    if token.header.None? then Err(Invalid)
    else if token.header.value.kid.None? then Err(Invalid)
    else
      var jwk := Find(keys, token.header.value.kid.value);
      if jwk.None? then Err(UnknownKey)
      else if SigningAlgorithm(jwk.value) != Some(token.header.value.alg) then Err(Invalid)
      else if !v.decodable(jwk.value) then Err(Invalid)
      else
        var claims := v.decode(token, jwk.value, now);
        if claims.None? then Err(Invalid)
        else if !(v.requiredScopes <= claims.value.scopes) then Err(MissingScope)
        else Ok(claims.value)
  }

  /** A usable key that signs the token, in the sense that the token is accepted under it. */
  ghost predicate Signs(v: Verifier, key: Jwk, token: Token, now: Time) {
    && Usable(v, key) && token.header == Some(Header(key.kid, SigningAlgorithm(key).value))
    && v.decode(token, key, now).Some? && v.requiredScopes <= v.decode(token, key, now).value.scopes
  }

  /**
   * In a valid set the key found for a usable key's id is that key if and only if no key that is not usable carries
   * the same id before it.
   */
  lemma UsableKeyIsFound(v: Verifier, keys: seq<Jwk>, i: nat)
    requires ValidSet(v, keys) && i < |keys| && Usable(v, keys[i])
    ensures Find(keys, keys[i].kid.value) == Some(keys[i]) <==>
      forall j :: 0 <= j < i && !Usable(v, keys[j]) ==> keys[j].kid != keys[i].kid
  {
    hide Find, SigningAlgorithm, ValidSet;
    var kid := keys[i].kid.value;
    FindIsFirst(keys, kid, i);
    var f :| FirstOf(keys, kid, f) && f <= i && Find(keys, kid) == Some(keys[f]);
    if f < i {
      UsableKeysDiffer(v, keys, f, i);
    }
  }

  lemma UsableKeysDiffer(v: Verifier, keys: seq<Jwk>, i: nat, j: nat)
    requires ValidSet(v, keys) && i < j < |keys| && Usable(v, keys[j])
    ensures Usable(v, keys[i]) ==> keys[i].kid != keys[j].kid
  {
  }

  /** A token signed by a usable key of a valid set is accepted, unless an unusable key of that id comes first. */
  lemma SignedTokenIsAccepted(v: Verifier, keys: seq<Jwk>, i: nat, token: Token, now: Time)
    requires ValidSet(v, keys) && i < |keys| && Signs(v, keys[i], token, now)
    requires forall j :: 0 <= j < i && !Usable(v, keys[j]) ==> keys[j].kid != keys[i].kid
    ensures ValidateAgainst(v, token, keys, now) == Ok(v.decode(token, keys[i], now).value)
  {
    hide Find, ValidSet;
    UsableKeyIsFound(v, keys, i);
  }

  /** A valid set in which an encryption key hides the signing key that shares its id. */
  lemma UnusableKeyShadowsUsable()
    ensures exists v: Verifier, keys: seq<Jwk>, token: Token, now: Time ::
      && ValidSet(v, keys) && |keys| == 2 && Signs(v, keys[1], token, now)
      && ValidateAgainst(v, token, keys, now) == Err(Invalid)
  {
    var other := Jwk(Rsa, Some(OtherAlgorithm("RSA-OAEP")), Some(Encryption), None, Some("k"), 0);
    var signing := Jwk(Rsa, Some(RS256), Some(Signature), None, Some("k"), 1);
    var v := Verifier((key: Jwk) => true, (token: Token, key: Jwk, now: Time) => Some(Claims("", {})), {});
    var token := Token(Some(Header(Some("k"), RS256)), 0);
    var keys := [other, signing];
    assert !Usable(v, keys[0]) && Usable(v, keys[1]);
    assert Find(keys, "k") == Some(other);
    assert ValidSet(v, keys) && Signs(v, keys[1], token, 0);
    assert ValidateAgainst(v, token, keys, 0) == Err(Invalid);
  }

  ghost predicate AcceptedUnder(v: Verifier, token: Token, keys: seq<Jwk>, now: Time, i: int) {
    && token.header.Some? && token.header.value.kid.Some?
    && FirstOf(keys, token.header.value.kid.value, i)
    && SigningAlgorithm(keys[i]) == Some(token.header.value.alg) && v.decodable(keys[i])
    && v.decode(token, keys[i], now).Some? && v.requiredScopes <= v.decode(token, keys[i], now).value.scopes
  }

  /** Acceptance is the whole chain: an id, the first key of that id, its algorithm, the signature, the scopes. */
  lemma AcceptedMeans(v: Verifier, token: Token, keys: seq<Jwk>, now: Time)
    ensures ValidateAgainst(v, token, keys, now).Ok? <==> exists i :: AcceptedUnder(v, token, keys, now, i)
  {
    hide Find, SigningAlgorithm;
    if token.header.Some? && token.header.value.kid.Some? {
      var kid := token.header.value.kid.value;
      FoundHasId(keys, kid);
      if ValidateAgainst(v, token, keys, now).Ok? {
        var i :| 0 <= i < |keys| && keys[i].kid == Some(kid);
        FindIsFirst(keys, kid, i);
        var f :| FirstOf(keys, kid, f) && f <= i && Find(keys, kid) == Some(keys[f]);
        assert AcceptedUnder(v, token, keys, now, f);
      }
      if i :| AcceptedUnder(v, token, keys, now, i) {
        AcceptedKeyIsFound(v, token, keys, now, i);
      }
    }
  }

  lemma AcceptedKeyIsFound(v: Verifier, token: Token, keys: seq<Jwk>, now: Time, i: int)
    requires AcceptedUnder(v, token, keys, now, i)
    ensures Find(keys, token.header.value.kid.value) == Some(keys[i])
  {
    hide Find, SigningAlgorithm;
    var kid := token.header.value.kid.value;
    FindIsFirst(keys, kid, i);
    var f :| FirstOf(keys, kid, f) && f <= i && Find(keys, kid) == Some(keys[f]);
  }

  // ----- every verdict

  /** The key is of the kind that the algorithm needs, and says so. */
  predicate SuitsAlgorithm(key: Jwk, alg: Algorithm) {
    || (key.kty == EllipticCurve && key.alg == Some(ES256) && alg == ES256)
    || (key.kty == Rsa && key.alg == Some(RS256) && alg == RS256)
  }

  lemma SignsWith(key: Jwk, alg: Algorithm)
    ensures SigningAlgorithm(key) == Some(alg) <==> SuitsAlgorithm(key, alg)
    ensures SigningAlgorithm(key).Some? <==> SuitsAlgorithm(key, ES256) || SuitsAlgorithm(key, RS256)
  {
  }

  /** A key that counts when a set is validated. */
  lemma UsableMeans(v: Verifier, key: Jwk)
    ensures Usable(v, key) <==>
      && (SuitsAlgorithm(key, ES256) || SuitsAlgorithm(key, RS256))
      && (key.keyUse == None || key.keyUse == Some(Signature))
      && (key.keyOps == None || Verify in key.keyOps.value)
      && key.kid != None && key.kid != Some("") && v.decodable(key)
  {
  }

  /** The token names a key id that no key of the set carries. */
  ghost predicate NamesNoKey(token: Token, keys: seq<Jwk>) {
    && token.header.Some? && token.header.value.kid.Some?
    && forall i :: 0 <= i < |keys| ==> keys[i].kid != token.header.value.kid
  }

  /** The token is signed under key i, the first of its id, and its time, issuer and audience are accepted. */
  ghost predicate ClaimsDecoded(v: Verifier, token: Token, keys: seq<Jwk>, now: Time, i: int) {
    && token.header.Some? && token.header.value.kid.Some?
    && FirstOf(keys, token.header.value.kid.value, i)
    && SuitsAlgorithm(keys[i], token.header.value.alg) && v.decodable(keys[i])
    && v.decode(token, keys[i], now).Some?
  }

  ghost predicate HasScopes(v: Verifier, token: Token, key: Jwk, now: Time) {
    && v.decode(token, key, now).Some?
    && forall scope :: scope in v.requiredScopes ==> scope in v.decode(token, key, now).value.scopes
  }

  /**
   * The verdict: unknown key if and only if no key of the set has the token's id; missing scope if and only if the claims
   * were decoded and lack a required scope; the claims themselves if they lack none; invalid in every other case.
   */
  lemma VerdictExactly(v: Verifier, token: Token, keys: seq<Jwk>, now: Time)
    ensures var r := ValidateAgainst(v, token, keys, now);
      && (r == Err(UnknownKey) <==> NamesNoKey(token, keys))
      && (r == Err(MissingScope) <==> exists i :: ClaimsDecoded(v, token, keys, now, i) && !HasScopes(v, token, keys[i], now))
      && (r.Ok? <==> exists i :: ClaimsDecoded(v, token, keys, now, i) && HasScopes(v, token, keys[i], now))
      && (r.Ok? || r == Err(UnknownKey) || r == Err(MissingScope) || r == Err(Invalid))
      && (r.Ok? ==> exists i :: ClaimsDecoded(v, token, keys, now, i) && r.value == v.decode(token, keys[i], now).value)
  {
    hide Find, SigningAlgorithm, SuitsAlgorithm;
    if token.header.Some? && token.header.value.kid.Some? {
      var kid := token.header.value.kid.value;
      FoundHasId(keys, kid);
      if i :| 0 <= i < |keys| && keys[i].kid == Some(kid) {
        FindIsFirst(keys, kid, i);
        var f :| FirstOf(keys, kid, f) && f <= i && Find(keys, kid) == Some(keys[f]);
        SignsWith(keys[f], token.header.value.alg);
        assert forall j :: FirstOf(keys, kid, j) ==> j == f;
        assert ClaimsDecoded(v, token, keys, now, f) <==>
          SuitsAlgorithm(keys[f], token.header.value.alg) && v.decodable(keys[f]) && v.decode(token, keys[f], now).Some?;
      } else {
        assert Find(keys, kid) == None;
      }
    }
  }
}
