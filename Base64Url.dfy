/**
  The URL-safe base64 codec of includes/functions.php (section 5 of RFC 4648),
  built, as the source builds it, on top of PHP's standard `base64_encode` /
  `base64_decode` (section 4 of RFC 4648) and `strtr` / `rtrim` / `str_pad`.
*/
module Base64Url {
  import opened Bytes
  import opened Wrappers

  type Sextet = x: int | 0 <= x < 64

  // ---------------------------------------------------------------------
  // Alphabets

  /** The character of the standard alphabet for a sextet. */
  function StdChar(x: Sextet): char
  {
    if x < 26 then (65 + x) as char
    else if x < 52 then (97 + x - 26) as char
    else if x < 62 then (48 + x - 52) as char
    else if x == 62 then '+'
    else '/'
  }

  /** The character of the URL-safe alphabet for a sextet. */
  function UrlChar(x: Sextet): char
  {
    if x == 62 then '-' else if x == 63 then '_' else StdChar(x)
  }

  /** Membership in the URL-safe alphabet. */
  predicate IsUrlChar(c: char)
  {
    'A' <= c <= 'Z' || 'a' <= c <= 'z' || '0' <= c <= '9' || c == '-' || c == '_'
  }

  /** base64_decode's reverse table: the sextet a standard character stands
      for; `=` and every other character have none. */
  function StdValue(c: char): Option<Sextet>
  {
    if 'A' <= c <= 'Z' then Some(c as int - 65)
    else if 'a' <= c <= 'z' then Some(c as int - 97 + 26)
    else if '0' <= c <= '9' then Some(c as int - 48 + 52)
    else if c == '+' then Some(62)
    else if c == '/' then Some(63)
    else None
  }

  function StdChars(v: seq<Sextet>): (r: string)
    ensures |r| == |v|
    ensures forall i :: 0 <= i < |v| ==> r[i] == StdChar(v[i])
  {
    seq(|v|, i requires 0 <= i < |v| => StdChar(v[i]))
  }

  function UrlChars(v: seq<Sextet>): (r: string)
    ensures |r| == |v|
    ensures forall i :: 0 <= i < |v| ==> r[i] == UrlChar(v[i])
  {
    seq(|v|, i requires 0 <= i < |v| => UrlChar(v[i]))
  }

  function Repeat(c: char, n: nat): (r: string)
    ensures |r| == n
    ensures forall i :: 0 <= i < n ==> r[i] == c
  {
    seq(n, _ => c)
  }

  // ---------------------------------------------------------------------
  // PHP's standard base64

  /** Each group of three octets as four sextets; a final group of one or two
      octets gives two or three sextets, its missing low bits zero. */
  function EncodeSextets(b: seq<Byte>): (r: seq<Sextet>)
    ensures |r| == (4 * |b| + 2) / 3
  {
    if |b| == 0 then []
    else if |b| == 1 then [b[0] / 4, (b[0] % 4) * 16]
    else if |b| == 2 then [b[0] / 4, (b[0] % 4) * 16 + b[1] / 16, (b[1] % 16) * 4]
    else [b[0] / 4, (b[0] % 4) * 16 + b[1] / 16, (b[1] % 16) * 4 + b[2] / 64, b[2] % 64]
         + EncodeSextets(b[3..])
  }

  /** PHP `base64_encode`: standard alphabet, `=` padding to a multiple of four. */
  function Base64Encode(b: seq<Byte>): string
  {
    StdChars(EncodeSextets(b)) + Repeat('=', (3 - |b| % 3) % 3)
  }

  /** The sextets base64_decode reads from a string: in its default
      (non-strict) mode it skips `=` and every character outside the alphabet. */
  function Sextets(s: string): (r: seq<Sextet>)
    ensures |r| <= |s|
  {
    if s == [] then []
    else (match StdValue(s[0]) case Some(x) => [x] case None => []) + Sextets(s[1..])
  }

  /** Reassembles octets from sextets, four sextets to three octets; a final
      group of two or three sextets yields one or two octets and a lone final
      sextet yields nothing (base64_decode drops the incomplete octet). */
  function DecodeSextets(v: seq<Sextet>): (r: seq<Byte>)
    ensures |r| == 3 * |v| / 4
  {
    if |v| < 2 then []
    else if |v| == 2 then [High(v[0], v[1])]
    else if |v| == 3 then [High(v[0], v[1]), Middle(v[1], v[2])]
    else [High(v[0], v[1]), Middle(v[1], v[2]), Low(v[2], v[3])] + DecodeSextets(v[4..])
  }

  /** The first octet of a group: six bits of `x`, the top two of `y`. */
  function High(x: Sextet, y: Sextet): Byte { x as int * 4 + y as int / 16 }

  /** The second octet of a group: four low bits of `y`, four top bits of `z`. */
  function Middle(y: Sextet, z: Sextet): Byte { (y as int % 16) * 16 + z as int / 4 }

  /** The third octet of a group: two low bits of `z`, six bits of `w`. */
  function Low(z: Sextet, w: Sextet): Byte { (z as int % 4) * 64 + w as int }

  /** PHP `base64_decode($s)` in non-strict mode; it never fails. */
  function Base64Decode(s: string): seq<Byte>
  {
    DecodeSextets(Sextets(s))
  }

  // ---------------------------------------------------------------------
  // The string functions the source composes

  /** `strtr($s, "<a1><a2>", "<b1><b2>")`: character-wise replacement. */
  function Strtr(s: string, a1: char, b1: char, a2: char, b2: char): (r: string)
    ensures |r| == |s|
    ensures forall i :: 0 <= i < |s| ==>
              r[i] == (if s[i] == a1 then b1 else if s[i] == a2 then b2 else s[i])
  {
    seq(|s|, i requires 0 <= i < |s| => if s[i] == a1 then b1 else if s[i] == a2 then b2 else s[i])
  }

  /** `rtrim($s, $c)` for a single character: drops every trailing `c`. */
  function RTrim(s: string, c: char): (r: string)
    ensures |r| <= |s| && r == s[..|r|]
    ensures r == [] || r[|r| - 1] != c
  {
    if s != [] && s[|s| - 1] == c then RTrim(s[..|s| - 1], c) else s
  }

  /** `str_pad($s, $n, $c, STR_PAD_RIGHT)`: pads with `c` up to length `n`,
      and leaves a string that is already that long unchanged. */
  function StrPadRight(s: string, n: nat, c: char): (r: string)
    ensures |r| == if n <= |s| then |s| else n
    ensures r[..|s|] == s
  {
    if n <= |s| then s else s + Repeat(c, n - |s|)
  }

  // ---------------------------------------------------------------------
  // base64UrlEncode / base64UrlDecode

  /** includes/functions.php `base64UrlEncode`. */
  function Base64UrlEncode(b: seq<Byte>): (r: string)
    ensures r == UrlChars(EncodeSextets(b))
    ensures |r| == (4 * |b| + 2) / 3
    ensures forall c :: c in r ==> IsUrlChar(c) && c != '+' && c != '/' && c != '='
  {
    UrlEncodeIsUnpadded(b);
    RTrim(Strtr(Base64Encode(b), '+', '-', '/', '_'), '=')
  }

  /** includes/functions.php `base64UrlDecode`. */
  function Base64UrlDecode(s: string): (r: seq<Byte>)
    ensures |r| <= 3 * |s| / 4
  {
    Base64Decode(StrPadRight(Strtr(s, '-', '+', '_', '/'), |s| % 4, '='))
  }

  // ---------------------------------------------------------------------
  // Properties

  lemma UrlCharIsUrl(x: Sextet)
    ensures IsUrlChar(UrlChar(x))
  {
  }

  /** Translating the padded standard encoding and trimming `=` leaves exactly
      the URL-alphabet characters of the sextets. */
  lemma UrlEncodeIsUnpadded(b: seq<Byte>)
    ensures RTrim(Strtr(Base64Encode(b), '+', '-', '/', '_'), '=') == UrlChars(EncodeSextets(b))
    ensures forall c :: c in UrlChars(EncodeSextets(b)) ==> IsUrlChar(c) && c != '+' && c != '/' && c != '='
  {
    var v := EncodeSextets(b);
    var k := (3 - |b| % 3) % 3;
    assert Strtr(Base64Encode(b), '+', '-', '/', '_') == UrlChars(v) + Repeat('=', k);
    forall c | c in UrlChars(v) ensures IsUrlChar(c) && c != '+' && c != '/' && c != '=' {
      var i :| 0 <= i < |v| && UrlChars(v)[i] == c;
      UrlCharIsUrl(v[i]);
    }
    TrimPadding(UrlChars(v), k);
  }

  /** rtrim removes exactly a run of `=` appended to a string that does not
      itself end in `=`. */
  lemma {:induction false} TrimPadding(s: string, k: nat)
    requires s == [] || s[|s| - 1] != '='
    ensures RTrim(s + Repeat('=', k), '=') == s
  {
    if k > 0 {
      assert (s + Repeat('=', k))[..|s| + k - 1] == s + Repeat('=', k - 1);
      TrimPadding(s, k - 1);
    } else {
      assert s + Repeat('=', 0) == s;
    }
  }

  /** base64UrlDecode pads to length `strlen % 4`, which never exceeds the
      length, so it never adds `=`: decoding relies on base64_decode
      tolerating missing padding. */
  lemma PadNeverApplies(s: string)
    ensures StrPadRight(Strtr(s, '-', '+', '_', '/'), |s| % 4, '=') == Strtr(s, '-', '+', '_', '/')
    ensures Base64UrlDecode(s) == Base64Decode(Strtr(s, '-', '+', '_', '/'))
  {
  }

  /** Sextets reads back every sextet written in the standard alphabet. */
  lemma {:induction false} SextetsOfStdChars(v: seq<Sextet>)
    ensures Sextets(StdChars(v)) == v
  {
    if v != [] {
      assert StdChars(v)[1..] == StdChars(v[1..]);
      SextetsOfStdChars(v[1..]);
    }
  }

  /** Sextets skips the characters outside the alphabet, wherever they are. */
  lemma {:induction false} SextetsAppend(a: string, b: string)
    ensures Sextets(a + b) == Sextets(a) + Sextets(b)
  {
    if a != [] {
      assert (a + b)[1..] == a[1..] + b;
      SextetsAppend(a[1..], b);
    } else {
      assert a + b == b;
    }
  }

  lemma {:induction false} SextetsOfPadding(k: nat)
    ensures Sextets(Repeat('=', k)) == []
  {
    if k > 0 {
      assert Repeat('=', k)[1..] == Repeat('=', k - 1);
      SextetsOfPadding(k - 1);
    }
  }

  /** One group of three octets survives the trip through four sextets. */
  lemma GroupRoundTrip(b0: Byte, b1: Byte, b2: Byte)
    ensures High(b0 / 4, (b0 % 4) * 16 + b1 / 16) == b0
    ensures Middle((b0 % 4) * 16 + b1 / 16, (b1 % 16) * 4 + b2 / 64) == b1
    ensures Low((b1 % 16) * 4 + b2 / 64, b2 % 64) == b2
  {
    assert ((b0 % 4) * 16 + b1 / 16) / 16 == b0 % 4;
    assert ((b0 % 4) * 16 + b1 / 16) % 16 == b1 / 16;
    assert ((b1 % 16) * 4 + b2 / 64) / 4 == b1 % 16;
    assert ((b1 % 16) * 4 + b2 / 64) % 4 == b2 / 64;
  }

  /** Octets to sextets and back is the identity. */
  lemma {:induction false} DecodeEncodeSextets(b: seq<Byte>)
    ensures DecodeSextets(EncodeSextets(b)) == b
  {
    if |b| >= 3 {
      var v := EncodeSextets(b);
      assert v[4..] == EncodeSextets(b[3..]);
      DecodeEncodeSextets(b[3..]);
      GroupRoundTrip(b[0], b[1], b[2]);
      assert b == [b[0], b[1], b[2]] + b[3..];
    } else if |b| == 2 {
      GroupRoundTrip(b[0], b[1], 0);
    } else if |b| == 1 {
      GroupRoundTrip(b[0], 0, 0);
    }
  }

  /** The round trip PHP's standard base64 promises. */
  lemma Base64RoundTrip(b: seq<Byte>)
    ensures Base64Decode(Base64Encode(b)) == b
  {
    var v := EncodeSextets(b);
    SextetsAppend(StdChars(v), Repeat('=', (3 - |b| % 3) % 3));
    SextetsOfStdChars(v);
    SextetsOfPadding((3 - |b| % 3) % 3);
    assert Sextets(Base64Encode(b)) == v;
    DecodeEncodeSextets(b);
  }

  /** base64UrlDecode(base64UrlEncode(x)) == x for every octet string,
      including the empty one and lengths not divisible by three. */
  lemma Base64UrlRoundTrip(b: seq<Byte>)
    ensures Base64UrlDecode(Base64UrlEncode(b)) == b
  {
    var v := EncodeSextets(b);
    var s := Base64UrlEncode(b);
    PadNeverApplies(s);
    assert Strtr(s, '-', '+', '_', '/') == StdChars(v);
    SextetsOfStdChars(v);
    DecodeEncodeSextets(b);
  }
}
