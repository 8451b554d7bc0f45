/**
  includes/functions.php `createWorkingRsaPem`: a JWK's raw modulus and
  exponent become an RSAPublicKey (appendix A.1.1 of RFC 8017) inside a
  SubjectPublicKeyInfo (section 4.1 of RFC 5280), DER-encoded by hand with the
  length octets of section 8.1.3 of ITU-T X.690, then wrapped in the PEM
  envelope of section 13 of RFC 7468.

  The second half of the module is an independent reader of that format
  (PEM, then DER), against which the builder is proved.
*/
module RsaPem {
  import opened Bytes
  import opened Wrappers
  import Base64Url

  // ---------------------------------------------------------------------
  // The builder

  /** Prepends one zero octet when the first octet has its high bit set, so
      that the INTEGER reads as non-negative.  An empty string is left alone
      (PHP reads `$x[0]` of "" as "" and `ord("")` as 0). */
  function PositiveInteger(x: seq<Byte>): (r: seq<Byte>)
    ensures |r| == |x| + 1 <==> (x != [] && x[0] >= 0x80)
    ensures |r| == |x| || |r| == |x| + 1
    ensures r[|r| - |x|..] == x
    ensures |r| == |x| + 1 ==> r[0] == 0
    ensures r != [] ==> r[0] < 0x80
    ensures BigEndian(r) == BigEndian(x)
  {
    if x != [] && x[0] >= 0x80 then
      BigEndianLeadingZero(x);
      [0] + x
    else x
  }

  /** The three length tiers the source writes for every structure but the
      exponent: one octet below 0x80, `0x81` and one octet below 0x100,
      otherwise `0x82` and two big-endian octets (each passed through `chr`). */
  function LengthOctets(len: nat): (r: seq<Byte>)
    ensures 1 <= |r| <= 3
    ensures |r| == 1 <==> len < 0x80
    ensures |r| == 2 <==> 0x80 <= len < 0x100
    ensures |r| == 1 ==> r[0] == len
    ensures |r| > 1 ==> r[0] == 0x80 + |r| - 1
    ensures |r| > 1 && len < 0x10000 ==> BigEndian(r[1..]) == len
    ensures |r| == 3 && len < 0x10000 ==> r[1] != 0
  {
    if len < 0x80 then [Chr(len)]
    else if len < 0x100 then
      assert BigEndian([Chr(len)]) == BigEndian([]) * 256 + len;
      [0x81, Chr(len)]
    else
      var r := [0x82, Chr(len / 256), Chr(len % 256)];
      assert r[1..][..1] == [Chr(len / 256)];
      assert BigEndian(r[1..][..1]) == BigEndian([]) * 256 + Chr(len / 256);
      r
  }

  /** A DER element: tag, length octets, contents. */
  function Tlv(tag: Byte, content: seq<Byte>): seq<Byte>
  {
    [tag] + LengthOctets(|content|) + content
  }

  /** The rsaEncryption AlgorithmIdentifier with NULL parameters, 15 octets. */
  const RsaAlgorithmIdentifier: seq<Byte> :=
    [0x30, 0x0d, 0x06, 0x09, 0x2a, 0x86, 0x48, 0x86, 0xf7, 0x0d, 0x01, 0x01, 0x01, 0x05, 0x00]

  /** The modulus INTEGER, with the three length tiers. */
  function ModulusInteger(n: seq<Byte>): seq<Byte>
  {
    Tlv(0x02, PositiveInteger(n))
  }

  /** The exponent INTEGER: a single length octet `chr(len)`, whatever the length. */
  function ExponentInteger(e: seq<Byte>): seq<Byte>
  {
    var v := PositiveInteger(e);
    [0x02, Chr(|v|)] + v
  }

  /** The RSAPublicKey SEQUENCE. */
  function RsaPublicKey(n: seq<Byte>, e: seq<Byte>): seq<Byte>
  {
    Tlv(0x30, ModulusInteger(n) + ExponentInteger(e))
  }

  /** The SubjectPublicKeyInfo SEQUENCE: the algorithm identifier and a BIT
      STRING with no unused bits holding the RSAPublicKey. */
  function SubjectPublicKeyInfo(n: seq<Byte>, e: seq<Byte>): seq<Byte>
  {
    Tlv(0x30, RsaAlgorithmIdentifier + Tlv(0x03, [0x00] + RsaPublicKey(n, e)))
  }

  const PemBegin: string := "-----BEGIN PUBLIC KEY-----\n"
  const PemEnd: string := "-----END PUBLIC KEY-----\n"

  /** PHP `chunk_split($s, 64, "\n")`: every chunk of at most 64 characters
      followed by a newline (an empty string gives a single newline). */
  function ChunkSplit(s: string): (r: string)
    ensures |r| > 0 && r[|r| - 1] == '\n'
    decreases |s|
  {
    if |s| <= 64 then s + "\n" else s[..64] + "\n" + ChunkSplit(s[64..])
  }

  /** includes/functions.php `createWorkingRsaPem`: a PEM public key whose
      lines are at most 64 characters long and whose body a PEM reader
      decodes back to the DER SubjectPublicKeyInfo of n and e. */
  function CreateWorkingRsaPem(n: seq<Byte>, e: seq<Byte>): (pem: string)
    ensures |pem| > |PemBegin| + |PemEnd|
    ensures pem[..|PemBegin|] == PemBegin
    ensures pem[|pem| - |PemEnd|..] == PemEnd
    ensures forall i :: 0 <= i && i + 65 <= |pem| ==> NewlineWithin(pem, i)
    ensures ReadPem(pem) == Some(SubjectPublicKeyInfo(n, e))
  {
    var der := SubjectPublicKeyInfo(n, e);
    var body := ChunkSplit(Base64Url.Base64Encode(der));
    ChunkSplitLineLength(Base64Url.Base64Encode(der));
    EnvelopeLineLength(body);
    EnvelopeDecodes(der);
    PemBegin + body + PemEnd
  }

  // ---------------------------------------------------------------------
  // An independent reader

  /** X.690 definite length octets, short form or long form with one or two
      octets: the length and how many octets encode it. */
  function ParseLength(s: seq<Byte>): Option<(nat, nat)>
  {
    if s == [] then None
    else if s[0] < 0x80 then Some((s[0], 1))
    else if s[0] == 0x81 && |s| >= 2 then Some((s[1], 2))
    else if s[0] == 0x82 && |s| >= 3 then
      var len: nat := s[1] as int * 256 + s[2] as int;
      Some((len, 3))
    else None
  }

  /** Reads one element with the given tag: its contents and what follows. */
  function ParseTlv(tag: Byte, s: seq<Byte>): (r: Option<(seq<Byte>, seq<Byte>)>)
    ensures r.Some? ==> |r.value.1| < |s|
  {
    if s == [] || s[0] != tag then None
    else match ParseLength(s[1..])
      case None => None
      case Some((len, k)) =>
        if 1 + k + len <= |s| then Some((s[1 + k..1 + k + len], s[1 + k + len..])) else None
  }

  /** Reads a SubjectPublicKeyInfo for rsaEncryption: the contents of the
      modulus and exponent INTEGERs. */
  function ParseSpki(der: seq<Byte>): Option<(seq<Byte>, seq<Byte>)>
  {
    var outer := ParseTlv(0x30, der);
    if outer.None? || outer.value.1 != [] then None
    else
      var info := outer.value.0;
      if |info| < 15 || info[..15] != RsaAlgorithmIdentifier then None
      else
        var bits := ParseTlv(0x03, info[15..]);
        if bits.None? || bits.value.1 != [] || bits.value.0 == [] || bits.value.0[0] != 0 then None
        else
          var rsa := ParseTlv(0x30, bits.value.0[1..]);
          if rsa.None? || rsa.value.1 != [] then None
          else
            var m := ParseTlv(0x02, rsa.value.0);
            if m.None? then None
            else
              var x := ParseTlv(0x02, m.value.1);
              if x.None? || x.value.1 != [] then None
              else Some((m.value.0, x.value.0))
  }

  /** The value of a DER INTEGER that must be non-negative: non-empty
      contents whose first octet has the high bit clear. */
  function ReadUnsigned(c: seq<Byte>): Option<nat>
  {
    if c == [] || c[0] >= 0x80 then None else Some(BigEndian(c))
  }

  /** Strips the PEM delimiters and base64-decodes the body (newlines are
      skipped by the decoder). */
  function ReadPem(pem: string): Option<seq<Byte>>
  {
    if |pem| >= |PemBegin| + |PemEnd| && pem[..|PemBegin|] == PemBegin && pem[|pem| - |PemEnd|..] == PemEnd
    then Some(Base64Url.Base64Decode(pem[|PemBegin|..|pem| - |PemEnd|]))
    else None
  }

  /** What a standards-following reader recovers from a PEM public key:
      the modulus and the public exponent. */
  function ReadRsaPublicKey(pem: string): Option<(nat, nat)>
  {
    match ReadPem(pem)
    case None => None
    case Some(der) =>
      match ParseSpki(der)
      case None => None
      case Some((m, x)) =>
        match (ReadUnsigned(m), ReadUnsigned(x))
        case (Some(mv), Some(xv)) => Some((mv, xv))
        case _ => None
  }

  // ---------------------------------------------------------------------
  // Properties

  /** The length octets read back as the length they encode, in every tier. */
  lemma LengthRoundTrip(len: nat, rest: seq<Byte>)
    requires len < 0x10000
    ensures ParseLength(LengthOctets(len) + rest) == Some((len, |LengthOctets(len)|))
  {
    var l := LengthOctets(len);
    if |l| == 3 {
      assert l[1..][..1] == [l[1]];
      assert BigEndian(l[1..][..1]) == BigEndian([]) * 256 + l[1];
    } else if |l| == 2 {
      assert l[1..][..0] == [];
    }
  }

  /** Every element the builder writes reads back as its contents. */
  lemma TlvRoundTrip(tag: Byte, c: seq<Byte>, rest: seq<Byte>)
    requires |c| < 0x10000
    ensures ParseTlv(tag, Tlv(tag, c) + rest) == Some((c, rest))
  {
    var s := Tlv(tag, c) + rest;
    var l := LengthOctets(|c|);
    assert s[1..] == l + (c + rest);
    LengthRoundTrip(|c|, c + rest);
    assert s[1 + |l|..1 + |l| + |c|] == c;
    assert s[1 + |l| + |c|..] == rest;
  }

  /** With a padded exponent shorter than 128 octets, the source's one-octet
      exponent length is the short form of the three-tier rule. */
  lemma ExponentShortForm(e: seq<Byte>)
    requires |PositiveInteger(e)| < 0x80
    ensures ExponentInteger(e) == Tlv(0x02, PositiveInteger(e))
  {
  }

  /** The DER the builder writes parses back into the padded modulus and
      exponent, provided the exponent's length fits the single length octet
      and the whole key fits the two-octet long form. */
  lemma SpkiRoundTrip(n: seq<Byte>, e: seq<Byte>)
    requires |e| < 0x7f
    requires |n| + |e| <= 65000
    ensures ParseSpki(SubjectPublicKeyInfo(n, e)) == Some((PositiveInteger(n), PositiveInteger(e)))
  {
    var pn, pe := PositiveInteger(n), PositiveInteger(e);
    var modInt := ModulusInteger(n);
    var expInt := ExponentInteger(e);
    ExponentShortForm(e);
    var rsa := RsaPublicKey(n, e);
    var bitStr := Tlv(0x03, [0x00] + rsa);
    var info := RsaAlgorithmIdentifier + bitStr;
    TlvRoundTrip(0x30, info, []);
    assert Tlv(0x30, info) + [] == SubjectPublicKeyInfo(n, e);
    assert info[..15] == RsaAlgorithmIdentifier && info[15..] == bitStr;
    TlvRoundTrip(0x03, [0x00] + rsa, []);
    assert bitStr + [] == bitStr;
    assert ([0x00] + rsa)[1..] == rsa;
    TlvRoundTrip(0x30, modInt + expInt, []);
    assert rsa + [] == rsa;
    TlvRoundTrip(0x02, pn, expInt);
    TlvRoundTrip(0x02, pe, []);
    assert expInt + [] == expInt;
  }

  /** The 65 characters of `r` from position `i` include a line break. */
  predicate NewlineWithin(r: string, i: int)
    requires 0 <= i && i + 65 <= |r|
  {
    '\n' in r[i..i + 65]
  }

  /** chunk_split leaves no line longer than 64 characters: any 65
      consecutive characters of its output include a newline. */
  lemma {:induction false} ChunkSplitLineLength(s: string)
    ensures forall i :: 0 <= i && i + 65 <= |ChunkSplit(s)| ==> NewlineWithin(ChunkSplit(s), i)
    decreases |s|
  {
    var r := ChunkSplit(s);
    if |s| <= 64 {
      forall i | 0 <= i && i + 65 <= |r| ensures NewlineWithin(r, i) {
        assert r[i..i + 65][64] == r[|r| - 1];
      }
    } else {
      var rest := ChunkSplit(s[64..]);
      assert r == s[..64] + "\n" + rest;
      ChunkSplitLineLength(s[64..]);
      forall i | 0 <= i && i + 65 <= |r| ensures NewlineWithin(r, i) {
        if i <= 64 {
          assert r[i..i + 65][64 - i] == r[64] == '\n';
        } else {
          assert NewlineWithin(rest, i - 65);
          assert r[i..i + 65] == rest[i - 65..i - 65 + 65];
        }
      }
    }
  }

  /** The newlines chunk_split inserts are invisible to base64_decode. */
  lemma {:induction false} ChunkSplitSextets(s: string)
    ensures Base64Url.Sextets(ChunkSplit(s)) == Base64Url.Sextets(s)
    decreases |s|
  {
    if |s| <= 64 {
      Base64Url.SextetsAppend(s, "\n");
    } else {
      Base64Url.SextetsAppend(s[..64] + "\n", ChunkSplit(s[64..]));
      Base64Url.SextetsAppend(s[..64], "\n");
      ChunkSplitSextets(s[64..]);
      Base64Url.SextetsAppend(s[..64], s[64..]);
      assert s[..64] + s[64..] == s;
    }
  }

  /** The PEM body decodes back to the DER it was made from. */
  lemma EnvelopeDecodes(der: seq<Byte>)
    ensures ReadPem(PemBegin + ChunkSplit(Base64Url.Base64Encode(der)) + PemEnd) == Some(der)
  {
    var b64 := Base64Url.Base64Encode(der);
    var body := ChunkSplit(b64);
    var pem := PemBegin + body + PemEnd;
    assert pem[|PemBegin|..|pem| - |PemEnd|] == body;
    assert pem[..|PemBegin|] == PemBegin;
    assert pem[|pem| - |PemEnd|..] == PemEnd;
    ChunkSplitSextets(b64);
    Base64Url.Base64RoundTrip(der);
  }

  /** The BEGIN and END lines are shorter than 64 characters and end in a
      newline, so wrapping a body whose lines are short keeps every line
      short. */
  lemma EnvelopeLineLength(body: string)
    requires |body| > 0 && body[|body| - 1] == '\n'
    requires forall i :: 0 <= i && i + 65 <= |body| ==> NewlineWithin(body, i)
    ensures forall i :: 0 <= i && i + 65 <= |PemBegin + body + PemEnd| ==> NewlineWithin(PemBegin + body + PemEnd, i)
  {
    var pem := PemBegin + body + PemEnd;
    var b := |PemBegin|;
    forall i | 0 <= i && i + 65 <= |pem|
      ensures NewlineWithin(pem, i)
    {
      if i < b {
        assert pem[i..i + 65][b - 1 - i] == pem[b - 1] == '\n';
      } else if i + 65 <= b + |body| {
        assert NewlineWithin(body, i - b);
        assert pem[i..i + 65] == body[i - b..i - b + 65];
      } else {
        assert pem[i..i + 65][b + |body| - 1 - i] == pem[b + |body| - 1] == '\n';
      }
    }
  }

  /** A standards-following reader recovers the JWK's modulus and exponent
      from the PEM, when both are non-empty and of the sizes the encoding
      supports: the key-material round trip. */
  lemma PemRoundTrip(n: seq<Byte>, e: seq<Byte>)
    requires n != [] && e != []
    requires |e| < 0x7f
    requires |n| + |e| <= 65000
    ensures ReadRsaPublicKey(CreateWorkingRsaPem(n, e)) == Some((BigEndian(n), BigEndian(e)))
  {
    var der := SubjectPublicKeyInfo(n, e);
    SpkiRoundTrip(n, e);
    assert ReadUnsigned(PositiveInteger(n)) == Some(BigEndian(n));
    assert ReadUnsigned(PositiveInteger(e)) == Some(BigEndian(e));
  }
}
