/**
  includes/functions.php `validateJwsSignature`: the gate every inbound
  webhook passes.  The token is a detached-payload JWS in compact form
  (section 7.1 and appendix F of RFC 7515): `header..signature`.  The gate
  splits it on '.', decodes the header, insists on RS256, resolves the key by
  `kid`, rebuilds the signing input from the header segment and the digest of
  an EMPTY body, asks OpenSSL to verify the signature and finally checks the
  claims.  The request body and the token's middle segment play no part.

  JSON decoding, key import and signature verification are OpenSSL / PHP
  primitives and come in as the fields of a `Crypto` value; the fetched key
  set and the clock are parameters.
*/
module Jws {
  import opened Json
  import opened Bytes
  import opened Wrappers
  import opened Base64Url
  import opened KeySource
  import opened Claims

  // ---------------------------------------------------------------------
  // explode('.', $token)

  /** The pieces joined back with '.', as `implode('.', $parts)`. */
  function Implode(parts: seq<string>): (s: string)
    requires |parts| >= 1
  {
    if |parts| == 1 then parts[0] else parts[0] + "." + Implode(parts[1..])
  }

  /** `explode('.', $s)`: the maximal dot-free pieces between the dots, in
      order; an empty string gives one empty piece. */
  function Explode(s: string): (parts: seq<string>)
    ensures |parts| >= 1
    ensures forall p :: p in parts ==> '.' !in p
    ensures Implode(parts) == s
  {
    if s == [] then [""]
    else
      var rest := Explode(s[1..]);
      if s[0] == '.' then [""] + rest
      else [[s[0]] + rest[0]] + rest[1..]
  }

  /** A dot-free string is one piece. */
  lemma {:induction false} ExplodeOfDotFree(p: string)
    requires '.' !in p
    ensures Explode(p) == [p]
    decreases |p|
  {
    if p != [] {
      ExplodeOfDotFree(p[1..]);
      assert [p[0]] + p[1..] == p;
    }
  }

  /** A dot-free string followed by a dot splits off as one piece. */
  lemma {:induction false} ExplodeDotFree(p: string, t: string)
    requires '.' !in p
    ensures Explode(p + "." + t) == [p] + Explode(t)
    decreases |p|
  {
    var s := p + "." + t;
    if p == [] {
      assert s == ['.'] + t;
      assert s[1..] == t;
    } else {
      ExplodeDotFree(p[1..], t);
      assert s[0] == p[0] && s[1..] == p[1..] + "." + t;
      var rest := Explode(s[1..]);
      assert rest == [p[1..]] + Explode(t);
      assert rest[0] == p[1..] && rest[1..] == Explode(t);
      assert [p[0]] + p[1..] == p;
    }
  }

  /** explode undoes implode when no piece contains the separator. */
  lemma {:induction false} ExplodeImplode(parts: seq<string>)
    requires |parts| >= 1
    requires forall p :: p in parts ==> '.' !in p
    ensures Explode(Implode(parts)) == parts
    decreases |parts|
  {
    if |parts| == 1 {
      ExplodeOfDotFree(parts[0]);
    } else {
      ExplodeDotFree(parts[0], Implode(parts[1..]));
      assert forall p :: p in parts[1..] ==> p in parts;
      ExplodeImplode(parts[1..]);
      assert [parts[0]] + parts[1..] == parts;
    }
  }

  /** A token of three dot-free segments splits into exactly those three. */
  lemma ThreeSegments(h: string, p: string, sig: string)
    requires '.' !in h && '.' !in p && '.' !in sig
    ensures Explode(h + "." + p + "." + sig) == [h, p, sig]
  {
    var parts := [h, p, sig];
    assert parts[1..] == [p, sig] && parts[1..][1..] == [sig];
    assert Implode(parts[1..]) == p + "." + sig;
    assert Implode(parts) == h + "." + (p + "." + sig);
    assert h + "." + (p + "." + sig) == h + "." + p + "." + sig;
    ExplodeImplode(parts);
  }

  // ---------------------------------------------------------------------
  // The digest of the empty body

  /** The constant the source compares its computed digest with. */
  const EmptyBodyDigest: string := "47DEQpj8HBSa-_TImW-5JCeuQeRkm5NMpJWZG3hSuFU"

  /** SHA-256 of the empty string (FIPS 180-4), written in the 3-byte groups
      that base64 encodes into 4 characters each. */
  const Sha256OfEmpty: seq<Byte> :=
    [0xe3, 0xb0, 0xc4] + (
    [0x42, 0x98, 0xfc] + (
    [0x1c, 0x14, 0x9a] + (
    [0xfb, 0xf4, 0xc8] + (
    [0x99, 0x6f, 0xb9] + (
    [0x24, 0x27, 0xae] + (
    [0x41, 0xe4, 0x64] + (
    [0x9b, 0x93, 0x4c] + (
    [0xa4, 0x95, 0x99] + (
    [0x1b, 0x78, 0x52] + (
    [0xb8, 0x55]))))))))))

  /** Encoding one whole 3-byte group and then the rest is encoding both. */
  lemma GroupThenRest(g: seq<Byte>, rest: seq<Byte>)
    requires |g| == 3
    ensures UrlChars(EncodeSextets(g + rest)) == UrlChars(EncodeSextets(g)) + UrlChars(EncodeSextets(rest))
  {
    assert (g + rest)[3..] == rest;
    assert g[3..] == [];
    assert EncodeSextets(g + rest) == EncodeSextets(g) + EncodeSextets(rest);
  }
  lemma DigestGroup0(rest: seq<Byte>)
    ensures UrlChars(EncodeSextets([0xe3, 0xb0, 0xc4] + rest)) == "47DE" + UrlChars(EncodeSextets(rest))
  {
    assert UrlChars(EncodeSextets([0xe3, 0xb0, 0xc4])) == "47DE";
    GroupThenRest([0xe3, 0xb0, 0xc4], rest);
  }
  lemma DigestGroup1(rest: seq<Byte>)
    ensures UrlChars(EncodeSextets([0x42, 0x98, 0xfc] + rest)) == "Qpj8" + UrlChars(EncodeSextets(rest))
  {
    assert UrlChars(EncodeSextets([0x42, 0x98, 0xfc])) == "Qpj8";
    GroupThenRest([0x42, 0x98, 0xfc], rest);
  }
  lemma DigestGroup2(rest: seq<Byte>)
    ensures UrlChars(EncodeSextets([0x1c, 0x14, 0x9a] + rest)) == "HBSa" + UrlChars(EncodeSextets(rest))
  {
    assert UrlChars(EncodeSextets([0x1c, 0x14, 0x9a])) == "HBSa";
    GroupThenRest([0x1c, 0x14, 0x9a], rest);
  }
  lemma DigestGroup3(rest: seq<Byte>)
    ensures UrlChars(EncodeSextets([0xfb, 0xf4, 0xc8] + rest)) == "-_TI" + UrlChars(EncodeSextets(rest))
  {
    assert UrlChars(EncodeSextets([0xfb, 0xf4, 0xc8])) == "-_TI";
    GroupThenRest([0xfb, 0xf4, 0xc8], rest);
  }
  lemma DigestGroup4(rest: seq<Byte>)
    ensures UrlChars(EncodeSextets([0x99, 0x6f, 0xb9] + rest)) == "mW-5" + UrlChars(EncodeSextets(rest))
  {
    assert UrlChars(EncodeSextets([0x99, 0x6f, 0xb9])) == "mW-5";
    GroupThenRest([0x99, 0x6f, 0xb9], rest);
  }
  lemma DigestGroup5(rest: seq<Byte>)
    ensures UrlChars(EncodeSextets([0x24, 0x27, 0xae] + rest)) == "JCeu" + UrlChars(EncodeSextets(rest))
  {
    assert UrlChars(EncodeSextets([0x24, 0x27, 0xae])) == "JCeu";
    GroupThenRest([0x24, 0x27, 0xae], rest);
  }
  lemma DigestGroup6(rest: seq<Byte>)
    ensures UrlChars(EncodeSextets([0x41, 0xe4, 0x64] + rest)) == "QeRk" + UrlChars(EncodeSextets(rest))
  {
    assert UrlChars(EncodeSextets([0x41, 0xe4, 0x64])) == "QeRk";
    GroupThenRest([0x41, 0xe4, 0x64], rest);
  }
  lemma DigestGroup7(rest: seq<Byte>)
    ensures UrlChars(EncodeSextets([0x9b, 0x93, 0x4c] + rest)) == "m5NM" + UrlChars(EncodeSextets(rest))
  {
    assert UrlChars(EncodeSextets([0x9b, 0x93, 0x4c])) == "m5NM";
    GroupThenRest([0x9b, 0x93, 0x4c], rest);
  }
  lemma DigestGroup8(rest: seq<Byte>)
    ensures UrlChars(EncodeSextets([0xa4, 0x95, 0x99] + rest)) == "pJWZ" + UrlChars(EncodeSextets(rest))
  {
    assert UrlChars(EncodeSextets([0xa4, 0x95, 0x99])) == "pJWZ";
    GroupThenRest([0xa4, 0x95, 0x99], rest);
  }
  lemma DigestGroup9(rest: seq<Byte>)
    ensures UrlChars(EncodeSextets([0x1b, 0x78, 0x52] + rest)) == "G3hS" + UrlChars(EncodeSextets(rest))
  {
    assert UrlChars(EncodeSextets([0x1b, 0x78, 0x52])) == "G3hS";
    GroupThenRest([0x1b, 0x78, 0x52], rest);
  }
  lemma DigestLastGroup()
    ensures UrlChars(EncodeSextets([0xb8, 0x55])) == "uFU"
  {
  }

  lemma DigestPieces()
    ensures "47DE" + (
            "Qpj8" + (
            "HBSa" + (
            "-_TI" + (
            "mW-5" + (
            "JCeu" + (
            "QeRk" + (
            "m5NM" + (
            "pJWZ" + (
            "G3hS" + (
            "uFU")))))))))) == EmptyBodyDigest
  {
  }

  /** `base64UrlEncode(hash('sha256', '', true))` is the constant the source
      checks it against, so that check never rejects a token. */
  lemma EmptyBodyDigestMatches()
    ensures Base64UrlEncode(Sha256OfEmpty) == EmptyBodyDigest
  {
    DigestLastGroup();
    DigestGroup9([0xb8, 0x55]);
    DigestGroup8([0x1b, 0x78, 0x52] + ([0xb8, 0x55]));
    DigestGroup7([0xa4, 0x95, 0x99] + ([0x1b, 0x78, 0x52] + ([0xb8, 0x55])));
    DigestGroup6([0x9b, 0x93, 0x4c] + ([0xa4, 0x95, 0x99] + ([0x1b, 0x78, 0x52] + ([0xb8, 0x55]))));
    DigestGroup5([0x41, 0xe4, 0x64] + ([0x9b, 0x93, 0x4c] + ([0xa4, 0x95, 0x99] + ([0x1b, 0x78, 0x52] + ([0xb8, 0x55])))));
    DigestGroup4([0x24, 0x27, 0xae] + ([0x41, 0xe4, 0x64] + ([0x9b, 0x93, 0x4c] + ([0xa4, 0x95, 0x99] + ([0x1b, 0x78, 0x52] + ([0xb8, 0x55]))))));
    DigestGroup3([0x99, 0x6f, 0xb9] + ([0x24, 0x27, 0xae] + ([0x41, 0xe4, 0x64] + ([0x9b, 0x93, 0x4c] + ([0xa4, 0x95, 0x99] + ([0x1b, 0x78, 0x52] + ([0xb8, 0x55])))))));
    DigestGroup2([0xfb, 0xf4, 0xc8] + ([0x99, 0x6f, 0xb9] + ([0x24, 0x27, 0xae] + ([0x41, 0xe4, 0x64] + ([0x9b, 0x93, 0x4c] + ([0xa4, 0x95, 0x99] + ([0x1b, 0x78, 0x52] + ([0xb8, 0x55]))))))));
    DigestGroup1([0x1c, 0x14, 0x9a] + ([0xfb, 0xf4, 0xc8] + ([0x99, 0x6f, 0xb9] + ([0x24, 0x27, 0xae] + ([0x41, 0xe4, 0x64] + ([0x9b, 0x93, 0x4c] + ([0xa4, 0x95, 0x99] + ([0x1b, 0x78, 0x52] + ([0xb8, 0x55])))))))));
    DigestGroup0([0x42, 0x98, 0xfc] + ([0x1c, 0x14, 0x9a] + ([0xfb, 0xf4, 0xc8] + ([0x99, 0x6f, 0xb9] + ([0x24, 0x27, 0xae] + ([0x41, 0xe4, 0x64] + ([0x9b, 0x93, 0x4c] + ([0xa4, 0x95, 0x99] + ([0x1b, 0x78, 0x52] + ([0xb8, 0x55]))))))))));
    DigestPieces();
  }

  // ---------------------------------------------------------------------
  // The verdict

  /** The primitives the gate relies on: `json_decode($text, true)` (a value
      that is falsy when decoding fails), `openssl_pkey_get_public` (whether a
      PEM is accepted) and `openssl_verify` with SHA-256 (1 valid, 0 invalid,
      -1 error). */
  datatype Crypto = Crypto(
    parseJson: seq<Byte> -> JsonValue,
    importPem: string -> bool,
    verify: (string, seq<Byte>, KeyHandle) -> int)

  /** Why a token was turned away, one reason per `return false`. */
  datatype Rejection =
    | MalformedToken(partCount: nat)
    | UndecodableHeader
    | UnsupportedAlgorithm
    | KeyUnavailable(reason: KeyError)
    | DigestMismatch
    | SignatureInvalid(result: int)
    | ClaimsRejected(outcome: ClaimsOutcome)

  datatype Verdict = Accepted | Rejected(reason: Rejection)

  const SupportedAlgorithm: JsonValue := JStr("RS256")

  /** The decoded protected header of a header segment. */
  function Header(headerB64: string, env: Crypto): JsonValue
  {
    env.parseJson(Base64UrlDecode(headerB64))
  }

  /** Whether the gate gets as far as asking for a key (and so may fill the
      key cache): three segments, a truthy header, algorithm RS256. */
  predicate ReachesKeyLookup(token: string, env: Crypto)
  {
    var parts := Explode(token);
    |parts| == 3 && Truthy(Header(parts[0], env)) && Lookup(Header(parts[0], env), "alg") == SupportedAlgorithm
  }

  /** includes/functions.php `validateJwsSignature`, every check in source
      order; `cached` is the key cache before the call, `fetched` what the
      key-set download would return, `now` the value of time(). */
  function JwsVerdict(token: string, cached: Option<JsonValue>, fetched: Option<JsonValue>,
                      env: Crypto, now: int): (v: Verdict)
    ensures v.Rejected? && v.reason.MalformedToken? <==> |Explode(token)| != 3
  {
    var parts := Explode(token);
    if |parts| != 3 then Rejected(MalformedToken(|parts|))
    else SegmentsVerdict(parts[0], parts[2], cached, fetched, env, now)
  }

  /** The checks after the split, which read only the header and signature
      segments. */
  function SegmentsVerdict(headerB64: string, signatureB64: string, cached: Option<JsonValue>,
                           fetched: Option<JsonValue>, env: Crypto, now: int): (v: Verdict)
    ensures !(v.Rejected? && v.reason.MalformedToken?)
    ensures v != Rejected(DigestMismatch)
  {
    EmptyBodyDigestMatches();
    var header := Header(headerB64, env);
    if !Truthy(header) then Rejected(UndecodableHeader)
    else if Lookup(header, "alg") != SupportedAlgorithm then Rejected(UnsupportedAlgorithm)
    else match PublicKeyFor(cached, fetched, Lookup(header, "kid"), env.importPem)
      case Err(e) => Rejected(KeyUnavailable(e))
      case Ok(key) =>
        var payloadHash := Base64UrlEncode(Sha256OfEmpty);
        if payloadHash != EmptyBodyDigest then Rejected(DigestMismatch)
        else
          var result := env.verify(headerB64 + "." + payloadHash, Base64UrlDecode(signatureB64), key);
          if result != 1 then Rejected(SignatureInvalid(result))
          else
            var claims := ValidateJwsClaims(header, now);
            if claims != ClaimsValid then Rejected(ClaimsRejected(claims)) else Accepted
  }

  /** The key cache after one validation: consulted, and possibly filled,
      only by a token that reaches the key lookup. */
  function CacheAfterValidation(token: string, cached: Option<JsonValue>, fetched: Option<JsonValue>,
                                env: Crypto): (c: Option<JsonValue>)
    ensures cached.Some? ==> c == cached
    ensures !ReachesKeyLookup(token, env) ==> c == cached
    ensures ReachesKeyLookup(token, env) ==> c == CacheAfter(cached, fetched)
  {
    if ReachesKeyLookup(token, env) then CacheAfter(cached, fetched) else cached
  }

  /** A token is accepted exactly when it has three segments, its header
      decodes and names RS256, a key is found for its `kid`, OpenSSL returns
      1 for the header segment joined to the digest of the empty body, and the
      claims hold. */
  lemma AcceptIff(token: string, cached: Option<JsonValue>, fetched: Option<JsonValue>, env: Crypto, now: int)
    ensures JwsVerdict(token, cached, fetched, env, now) == Accepted <==>
              var parts := Explode(token);
              && |parts| == 3
              && var header := Header(parts[0], env);
                 && Truthy(header)
                 && Lookup(header, "alg") == SupportedAlgorithm
                 && PublicKeyFor(cached, fetched, Lookup(header, "kid"), env.importPem).Ok?
                 && env.verify(parts[0] + "." + EmptyBodyDigest, Base64UrlDecode(parts[2]),
                               PublicKeyFor(cached, fetched, Lookup(header, "kid"), env.importPem).value) == 1
                 && ValidateJwsClaims(header, now) == ClaimsValid
  {
    EmptyBodyDigestMatches();
  }

  /** The digest comparison is always satisfied: no token is ever rejected
      for it. */
  lemma DigestNeverRejects(token: string, cached: Option<JsonValue>, fetched: Option<JsonValue>, env: Crypto, now: int)
    ensures JwsVerdict(token, cached, fetched, env, now) != Rejected(DigestMismatch)
  {
    EmptyBodyDigestMatches();
  }

  /** The middle (payload) segment is never looked at: two tokens that differ
      only there get the same verdict. */
  lemma PayloadSegmentIgnored(h: string, p1: string, p2: string, sig: string, cached: Option<JsonValue>,
                              fetched: Option<JsonValue>, env: Crypto, now: int)
    requires '.' !in h && '.' !in p1 && '.' !in p2 && '.' !in sig
    ensures JwsVerdict(h + "." + p1 + "." + sig, cached, fetched, env, now)
         == JwsVerdict(h + "." + p2 + "." + sig, cached, fetched, env, now)
  {
    ThreeSegments(h, p1, sig);
    ThreeSegments(h, p2, sig);
  }

  /** A string that explodes into three pieces is those pieces joined by
      two dots. */
  lemma ThreePiecesShape(s: string)
    requires |Explode(s)| == 3
    ensures var parts := Explode(s);
            s == parts[0] + "." + parts[1] + "." + parts[2]
            && '.' !in parts[0] && '.' !in parts[1] && '.' !in parts[2]
  {
    var parts := Explode(s);
    var tail := parts[1..];
    assert tail[0] == parts[1] && tail[1..] == [parts[2]];
    assert Implode(tail[1..]) == parts[2];
    assert Implode(tail) == parts[1] + "." + parts[2];
    assert s == parts[0] + "." + (parts[1] + "." + parts[2]);
    assert parts[0] + "." + (parts[1] + "." + parts[2]) == parts[0] + "." + parts[1] + "." + parts[2];
    assert parts[0] in parts && parts[1] in parts && parts[2] in parts;
  }

  /** An accepted token is three dot-free segments joined by dots. */
  lemma AcceptedTokenShape(token: string, cached: Option<JsonValue>, fetched: Option<JsonValue>, env: Crypto, now: int)
    requires JwsVerdict(token, cached, fetched, env, now) == Accepted
    ensures var parts := Explode(token);
            |parts| == 3 && token == parts[0] + "." + parts[1] + "." + parts[2]
            && '.' !in parts[0] && '.' !in parts[1] && '.' !in parts[2]
  {
    ThreePiecesShape(token);
  }

  /** A header that does not name RS256 is refused before any key is
      fetched: neither the cache nor the key set matters, and the cache is
      left as it was. */
  lemma AlgorithmCheckedFirst(token: string, cached1: Option<JsonValue>, cached2: Option<JsonValue>,
                              fetched1: Option<JsonValue>, fetched2: Option<JsonValue>, env: Crypto, now: int)
    requires |Explode(token)| == 3 && Truthy(Header(Explode(token)[0], env))
    requires Lookup(Header(Explode(token)[0], env), "alg") != SupportedAlgorithm
    ensures JwsVerdict(token, cached1, fetched1, env, now) == Rejected(UnsupportedAlgorithm)
    ensures JwsVerdict(token, cached1, fetched1, env, now) == JwsVerdict(token, cached2, fetched2, env, now)
    ensures CacheAfterValidation(token, cached1, fetched1, env) == cached1
  {
  }

  /** includes/functions.php `validateJwsSignature`.  `requestBody` is
      accepted and ignored, as in the source; the key cache is the one
      `getTradosPublicKey` keeps between calls. */
  method ValidateJwsSignature(cache: KeyCache, jwsToken: string, requestBody: string,
                              fetched: Option<JsonValue>, env: Crypto, now: int)
    returns (valid: bool)
    modifies cache
    ensures valid <==> JwsVerdict(jwsToken, old(cache.keys), fetched, env, now) == Accepted
    ensures cache.keys == CacheAfterValidation(jwsToken, old(cache.keys), fetched, env)
  {
    var parts := Explode(jwsToken);
    if |parts| != 3 {
      return false;
    }
    var header := Header(parts[0], env);
    if !Truthy(header) {
      return false;
    }
    var algorithm := Lookup(header, "alg");
    var keyId := Lookup(header, "kid");
    if algorithm != SupportedAlgorithm {
      return false;
    }
    var publicKey := cache.GetTradosPublicKey(keyId, fetched, env.importPem);
    if publicKey.Err? {
      return false;
    }
    var payloadHash := Base64UrlEncode(Sha256OfEmpty);
    if payloadHash != EmptyBodyDigest {
      return false;
    }
    var signatureInput := parts[0] + "." + payloadHash;
    var signature := Base64UrlDecode(parts[2]);
    var isValid := env.verify(signatureInput, signature, publicKey.value);
    if isValid == 1 {
      return ValidateJwsClaims(header, now) == ClaimsValid;
    } else {
      return false;
    }
  }
}
