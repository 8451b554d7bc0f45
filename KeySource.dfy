/**
  includes/functions.php `convertJwkToPublicKey` and `getTradosPublicKey`:
  checking a JSON Web Key (RFC 7517) and finding, in the published key set,
  the first key whose `kid` is identical to the token's.

  The key set is fetched over the network at most once per request and kept
  in a `static` variable; here that variable is the field of a `KeyCache`
  object and the fetched, JSON-decoded document is a parameter (None when the
  fetch itself failed).  `openssl_pkey_get_public` is the parameter
  `importPem`, which says whether OpenSSL accepts a PEM; the key handle it
  returns is identified with the PEM it was made from.
*/
module KeySource {
  import opened Json
  import opened Bytes
  import opened Wrappers
  import Base64Url
  import RsaPem

  datatype KeyHandle = KeyHandle(pem: string)

  datatype KeyError =
    | FetchFailed          // file_get_contents returned false
    | InvalidJwksJson      // the document decoded to something falsy
    | NoKeysMember         // no `keys` in the document
    | KeyNotFound          // no key with the requested kid
    | UnsupportedKeyType   // kty is not "RSA"
    | MissingComponents    // n or e is absent or null
    | ComponentNotString   // n or e is present but not a JSON string
    | ImportFailed         // OpenSSL rejected the PEM

  // ---------------------------------------------------------------------
  // convertJwkToPublicKey

  /** The PEM the source builds from a JWK's base64url `n` and `e`. */
  function JwkPem(n: string, e: string): string
  {
    RsaPem.CreateWorkingRsaPem(Base64Url.Base64UrlDecode(n), Base64Url.Base64UrlDecode(e))
  }

  /** includes/functions.php `convertJwkToPublicKey`, with its checks in
      source order.  (`createWorkingRsaPem` never returns a falsy value, so
      the source's "Failed to create PEM format" branch cannot be taken.) */
  function ConvertJwkToPublicKey(jwk: JsonValue, importPem: string -> bool): (r: Result<KeyHandle, KeyError>)
    ensures r.Ok? <==>
              && Lookup(jwk, "kty") == JStr("RSA")
              && Lookup(jwk, "n").JStr? && Lookup(jwk, "e").JStr?
              && importPem(JwkPem(Lookup(jwk, "n").s, Lookup(jwk, "e").s))
    ensures r.Ok? ==> r.value.pem == JwkPem(Lookup(jwk, "n").s, Lookup(jwk, "e").s)
    ensures r == Err(UnsupportedKeyType) <==> Lookup(jwk, "kty") != JStr("RSA")
    ensures r == Err(MissingComponents) <==>
              Lookup(jwk, "kty") == JStr("RSA") && (Lookup(jwk, "n") == JNull || Lookup(jwk, "e") == JNull)
  {
    var kty, n, e := Lookup(jwk, "kty"), Lookup(jwk, "n"), Lookup(jwk, "e");
    if kty != JStr("RSA") then Err(UnsupportedKeyType)
    else if n == JNull || e == JNull then Err(MissingComponents)
    else if !n.JStr? || !e.JStr? then Err(ComponentNotString)
    else
      var pem := JwkPem(n.s, e.s);
      if !importPem(pem) then Err(ImportFailed) else Ok(KeyHandle(pem))
  }

  /** A key handle made from a JWK carries that JWK's modulus and exponent:
      a standards-following reader recovers them from its PEM. */
  lemma ConvertedKeyMatchesJwk(jwk: JsonValue, importPem: string -> bool)
    requires ConvertJwkToPublicKey(jwk, importPem).Ok?
    requires var n := Base64Url.Base64UrlDecode(Lookup(jwk, "n").s);
             var e := Base64Url.Base64UrlDecode(Lookup(jwk, "e").s);
             n != [] && e != [] && |e| < 0x7f && |n| + |e| <= 65000
    ensures RsaPem.ReadRsaPublicKey(ConvertJwkToPublicKey(jwk, importPem).value.pem)
         == Some((BigEndian(Base64Url.Base64UrlDecode(Lookup(jwk, "n").s)),
                  BigEndian(Base64Url.Base64UrlDecode(Lookup(jwk, "e").s))))
  {
    RsaPem.PemRoundTrip(Base64Url.Base64UrlDecode(Lookup(jwk, "n").s), Base64Url.Base64UrlDecode(Lookup(jwk, "e").s));
  }

  // ---------------------------------------------------------------------
  // getTradosPublicKey

  /** The position of the first key whose `kid` is identical (`===`) to
      `keyId`; a key without a kid has kid null, as has a header without one. */
  function FirstMatch(keys: seq<JsonValue>, keyId: JsonValue): (r: Option<nat>)
    ensures r.Some? ==> r.value < |keys| && Lookup(keys[r.value], "kid") == keyId
    ensures r.Some? ==> forall j :: 0 <= j < r.value ==> Lookup(keys[j], "kid") != keyId
    ensures r.None? ==> forall j :: 0 <= j < |keys| ==> Lookup(keys[j], "kid") != keyId
  {
    if keys == [] then None
    else if Lookup(keys[0], "kid") == keyId then Some(0)
    else match FirstMatch(keys[1..], keyId)
      case None => None
      case Some(i) => Some(i + 1)
  }

  /** The first match is the match with no match before it. */
  lemma FirstMatchIs(keys: seq<JsonValue>, keyId: JsonValue, i: int)
    requires 0 <= i <= |keys|
    requires forall j :: 0 <= j < i ==> Lookup(keys[j], "kid") != keyId
    requires i < |keys| ==> Lookup(keys[i], "kid") == keyId
    ensures FirstMatch(keys, keyId) == if i < |keys| then Some(i) else None
  {
  }

  /** The key set the lookup scans: the cached one, else the `keys` member of
      the freshly fetched document, else the reason there is none. */
  function LoadKeys(cached: Option<JsonValue>, fetched: Option<JsonValue>): (r: Result<JsonValue, KeyError>)
    ensures cached.Some? ==> r == Ok(cached.value)
    ensures cached.None? && fetched.None? ==> r == Err(FetchFailed)
    ensures cached.None? && fetched.Some? && !Truthy(fetched.value) ==> r == Err(InvalidJwksJson)
    ensures cached.None? && fetched.Some? && Truthy(fetched.value) && Lookup(fetched.value, "keys") == JNull ==>
              r == Err(NoKeysMember)
    ensures cached.None? && fetched.Some? && Truthy(fetched.value) && Lookup(fetched.value, "keys") != JNull ==>
              r == Ok(Lookup(fetched.value, "keys"))
  {
    if cached.Some? then Ok(cached.value)
    else match fetched
      case None => Err(FetchFailed)
      case Some(doc) =>
        if !Truthy(doc) then Err(InvalidJwksJson)
        else if Lookup(doc, "keys") == JNull then Err(NoKeysMember)
        else Ok(Lookup(doc, "keys"))
  }

  /** The cache after one lookup: filled with the loaded key set the first
      time a usable one is fetched, never changed once filled, left empty
      after a failed fetch. */
  function CacheAfter(cached: Option<JsonValue>, fetched: Option<JsonValue>): (c: Option<JsonValue>)
    ensures cached.Some? ==> c == cached
    ensures c.Some? <==> LoadKeys(cached, fetched).Ok?
    ensures c.Some? ==> c.value == LoadKeys(cached, fetched).value
  {
    match LoadKeys(cached, fetched)
    case Ok(keys) => Some(keys)
    case Err(_) => cached
  }

  /** Key i has the requested kid and no key before it has. */
  predicate IsFirstMatch(keys: seq<JsonValue>, keyId: JsonValue, i: int)
  {
    0 <= i < |keys| && Lookup(keys[i], "kid") == keyId
    && forall j :: 0 <= j < i ==> Lookup(keys[j], "kid") != keyId
  }

  /** The scan of a loaded key set: the first key whose kid matches,
      converted, or KeyNotFound. */
  function KeyFor(keys: seq<JsonValue>, keyId: JsonValue, importPem: string -> bool): (r: Result<KeyHandle, KeyError>)
    ensures r == Err(KeyNotFound) <==> forall j :: 0 <= j < |keys| ==> Lookup(keys[j], "kid") != keyId
    ensures forall i :: IsFirstMatch(keys, keyId, i) ==> r == ConvertJwkToPublicKey(keys[i], importPem)
  {
    match FirstMatch(keys, keyId)
    case None => Err(KeyNotFound)
    case Some(i) =>
      assert forall k :: IsFirstMatch(keys, keyId, k) ==> k == i by {
        forall k | IsFirstMatch(keys, keyId, k) ensures k == i {
          FirstMatchIs(keys, keyId, k);
        }
      }
      ConvertJwkToPublicKey(keys[i], importPem)
  }

  /** What `getTradosPublicKey($keyId)` returns, given the cache before the
      call and what a fetch would return. */
  function PublicKeyFor(cached: Option<JsonValue>, fetched: Option<JsonValue>, keyId: JsonValue,
                        importPem: string -> bool): (r: Result<KeyHandle, KeyError>)
    ensures LoadKeys(cached, fetched).Err? ==> r == Err(LoadKeys(cached, fetched).error)
    ensures LoadKeys(cached, fetched).Ok? ==>
              var keys := Elements(LoadKeys(cached, fetched).value);
              && ((forall j :: 0 <= j < |keys| ==> Lookup(keys[j], "kid") != keyId) ==> r == Err(KeyNotFound))
              && forall i :: IsFirstMatch(keys, keyId, i) ==> r == ConvertJwkToPublicKey(keys[i], importPem)
    ensures r.Ok? ==>
              var keys := Elements(LoadKeys(cached, fetched).value);
              exists i :: IsFirstMatch(keys, keyId, i) && r == ConvertJwkToPublicKey(keys[i], importPem)
  {
    match LoadKeys(cached, fetched)
    case Err(e) => Err(e)
    case Ok(keys) =>
      var r := KeyFor(Elements(keys), keyId, importPem);
      if r.Ok? then
        var i := FirstMatch(Elements(keys), keyId).value;
        assert IsFirstMatch(Elements(keys), keyId, i);
        r
      else r
  }

  /** Once the cache is filled, a later fetch has no influence. */
  lemma CachedKeysWin(keys: JsonValue, fetched1: Option<JsonValue>, fetched2: Option<JsonValue>,
                      keyId: JsonValue, importPem: string -> bool)
    ensures PublicKeyFor(Some(keys), fetched1, keyId, importPem) == PublicKeyFor(Some(keys), fetched2, keyId, importPem)
    ensures CacheAfter(Some(keys), fetched1) == Some(keys)
  {
  }

  /** The `foreach` over the key set: the first key whose kid is identical to
      the requested one is converted and returned. */
  method ScanKeys(candidates: seq<JsonValue>, keyId: JsonValue, importPem: string -> bool)
    returns (r: Result<KeyHandle, KeyError>)
    ensures r == KeyFor(candidates, keyId, importPem)
  {
    var i := 0;
    while i < |candidates|
      invariant 0 <= i <= |candidates|
      invariant forall j :: 0 <= j < i ==> Lookup(candidates[j], "kid") != keyId
    {
      if Lookup(candidates[i], "kid") == keyId {
        assert IsFirstMatch(candidates, keyId, i);
        return ConvertJwkToPublicKey(candidates[i], importPem);
      }
      i := i + 1;
    }
    return Err(KeyNotFound);
  }

  /** The `static $keys` of getTradosPublicKey, which lives for one request. */
  class KeyCache {
    var keys: Option<JsonValue>

    constructor()
      ensures keys == None
    {
      keys := None;
    }

    /** includes/functions.php `getTradosPublicKey`: fill the cache if it is
        empty, then scan the keys in order for the first matching kid. */
    method GetTradosPublicKey(keyId: JsonValue, fetched: Option<JsonValue>, importPem: string -> bool)
      returns (r: Result<KeyHandle, KeyError>)
      modifies this
      ensures keys == CacheAfter(old(keys), fetched)
      ensures r == PublicKeyFor(old(keys), fetched, keyId, importPem)
    {
      if keys.None? {
        if fetched.None? {
          return Err(FetchFailed);
        }
        var jwks := fetched.value;
        if !Truthy(jwks) {
          return Err(InvalidJwksJson);
        }
        if Lookup(jwks, "keys") == JNull {
          return Err(NoKeysMember);
        }
        keys := Some(Lookup(jwks, "keys"));
      }
      assert LoadKeys(old(keys), fetched) == Ok(keys.value);
      r := ScanKeys(Elements(keys.value), keyId, importPem);
    }
  }
}
