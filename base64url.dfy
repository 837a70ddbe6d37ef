/** `Base64Url`: the URL-safe base64 alphabet of section 5 of RFC 4648 over the browser's
    `btoa`/`atob`, with the padding stripped on encode and put back on decode. */
module Base64Url {
  import opened Wrappers

  /** An element of a `Uint8Array`. */
  type Byte = x: int | 0 <= x < 256

  // ---------------------------------------------------------------- sextets

  /** A 6-bit value: one character of base64. */
  type Sextet = x: int | 0 <= x < 64

  /** The four sextets of three bytes `x`, `y`, `z`, high bits first (section 4 of
      RFC 4648): `Enc0(x)`, `Enc1(x, y)`, `Enc2(y, z)`, `Enc3(z)`. */
  function Enc0(x: Byte): Sextet { x / 4 }
  function Enc1(x: Byte, y: Byte): Sextet { x % 4 * 16 + y / 16 }
  function Enc2(y: Byte, z: Byte): Sextet { y % 16 * 4 + z / 64 }
  function Enc3(z: Byte): Sextet { z % 64 }

  /** The three bytes of four sextets `a`, `b`, `c`, `d`: `Dec0(a, b)`, `Dec1(b, c)`,
      `Dec2(c, d)`. */
  function Dec0(a: Sextet, b: Sextet): Byte { a * 4 + b / 16 }
  function Dec1(b: Sextet, c: Sextet): Byte { b % 16 * 16 + c / 4 }
  function Dec2(c: Sextet, d: Sextet): Byte { c % 4 * 64 + d }

  /** Base64's regrouping of bytes into sextets, three bytes to four sextets; a trailing
      one or two bytes give two or three sextets, the missing low bits taken as zero. */
  function EncodeSextets(b: seq<Byte>): (r: seq<Sextet>)
    ensures |r| % 4 != 1
    decreases |b|
  {
    if |b| == 0 then []
    else if |b| == 1 then [Enc0(b[0]), Enc1(b[0], 0)]
    else if |b| == 2 then [Enc0(b[0]), Enc1(b[0], b[1]), Enc2(b[1], 0)]
    else [Enc0(b[0]), Enc1(b[0], b[1]), Enc2(b[1], b[2]), Enc3(b[2])] + EncodeSextets(b[3..])
  }

  /** Four sextets per three bytes, two or three for a trailing group. */
  lemma {:induction false} EncodeLength(b: seq<Byte>)
    ensures |EncodeSextets(b)| == |b| / 3 * 4 + (if |b| % 3 == 0 then 0 else |b| % 3 + 1)
    decreases |b|
  {
    if |b| >= 3 {
      EncodeLength(b[3..]);
      assert |b| / 3 == |b[3..]| / 3 + 1 && |b| % 3 == |b[3..]| % 3;
    }
  }

  /** Sextets back to bytes; leftover low bits of a final group of two or three sextets
      are discarded, as the forgiving decoder does. */
  function DecodeSextets(v: seq<Sextet>): seq<Byte>
    requires |v| % 4 != 1
    decreases |v|
  {
    if |v| == 0 then []
    else if |v| == 2 then [Dec0(v[0], v[1])]
    else if |v| == 3 then [Dec0(v[0], v[1]), Dec1(v[1], v[2])]
    else [Dec0(v[0], v[1]), Dec1(v[1], v[2]), Dec2(v[2], v[3])] + DecodeSextets(v[4..])
  }

  /** Each byte comes back from the two sextets that hold its bits. */
  lemma GroupRoundTrip(x: Byte, y: Byte, z: Byte)
    ensures Dec0(Enc0(x), Enc1(x, y)) == x
    ensures Dec1(Enc1(x, y), Enc2(y, z)) == y
    ensures Dec2(Enc2(y, z), Enc3(z)) == z
  {
  }

  /** Regrouping loses nothing. */
  lemma {:induction false} SextetsRoundTrip(b: seq<Byte>)
    ensures DecodeSextets(EncodeSextets(b)) == b
    decreases |b|
  {
    if |b| >= 3 {
      var g := [Enc0(b[0]), Enc1(b[0], b[1]), Enc2(b[1], b[2]), Enc3(b[2])];
      var rest := EncodeSextets(b[3..]);
      SextetsRoundTrip(b[3..]);
      calc {
        DecodeSextets(EncodeSextets(b));
        DecodeSextets(g + rest);
        { DecodeGroup(g, rest); }
        [Dec0(g[0], g[1]), Dec1(g[1], g[2]), Dec2(g[2], g[3])] + DecodeSextets(rest);
        { GroupRoundTrip(b[0], b[1], b[2]); }
        [b[0], b[1], b[2]] + b[3..];
        b;
      }
    } else if |b| == 2 {
      TwoBytesRoundTrip(b[0], b[1]);
      assert b == [b[0], b[1]];
    } else if |b| == 1 {
      OneByteRoundTrip(b[0]);
      assert b == [b[0]];
    }
  }

  /** A full group of four sextets decodes on its own, ahead of the rest. */
  lemma DecodeGroup(g: seq<Sextet>, rest: seq<Sextet>)
    requires |g| == 4 && |rest| % 4 != 1
    ensures DecodeSextets(g + rest) == [Dec0(g[0], g[1]), Dec1(g[1], g[2]), Dec2(g[2], g[3])] + DecodeSextets(rest)
  {
    assert (g + rest)[4..] == rest;
  }

  /** A lone trailing byte survives its two sextets. */
  lemma OneByteRoundTrip(x: Byte)
    ensures DecodeSextets(EncodeSextets([x])) == [x]
  {
    assert EncodeSextets([x]) == [Enc0(x), Enc1(x, 0)];
    assert Dec0(Enc0(x), Enc1(x, 0)) == x;
  }

  /** Two trailing bytes survive their three sextets. */
  lemma TwoBytesRoundTrip(x: Byte, y: Byte)
    ensures DecodeSextets(EncodeSextets([x, y])) == [x, y]
  {
    GroupRoundTrip(x, y, 0);
  }

  // ---------------------------------------------------------------- alphabets

  /** The standard alphabet: A-Z, a-z, 0-9, '+', '/'. */
  function StdChar(v: Sextet): char {
    if v < 26 then ('A' as int + v) as char
    else if v < 52 then ('a' as int + v - 26) as char
    else if v < 62 then ('0' as int + v - 52) as char
    else if v == 62 then '+'
    else '/'
  }

  /** The value of a standard-alphabet character, -1 for any other character. */
  function StdValue(c: char): (r: int)
    ensures -1 <= r < 64
    ensures r >= 0 ==> StdChar(r) == c
  {
    if 'A' <= c <= 'Z' then c as int - 'A' as int
    else if 'a' <= c <= 'z' then c as int - 'a' as int + 26
    else if '0' <= c <= '9' then c as int - '0' as int + 52
    else if c == '+' then 62
    else if c == '/' then 63
    else -1
  }

  lemma StdValueOfChar(v: Sextet)
    ensures StdValue(StdChar(v)) == v
  {
  }

  /** The URL-safe alphabet: '-' and '_' in place of '+' and '/'. */
  function UrlChar(v: Sextet): char {
    if v == 62 then '-' else if v == 63 then '_' else StdChar(v)
  }

  /** `[A-Za-z0-9\-_]`. */
  predicate IsUrlChar(c: char) {
    'A' <= c <= 'Z' || 'a' <= c <= 'z' || '0' <= c <= '9' || c == '-' || c == '_'
  }

  /** The value of a URL-safe character. */
  function UrlValue(c: char): (r: Sextet)
    requires IsUrlChar(c)
    ensures UrlChar(r) == c
  {
    if c == '-' then 62 else if c == '_' then 63 else StdValue(c)
  }

  /** The URL-safe alphabet spells each value with its own character. */
  lemma UrlValueOfChar(v: Sextet)
    ensures UrlValue(UrlChar(v)) == v
  {
  }

  function StdString(v: seq<Sextet>): (s: string)
    ensures |s| == |v|
  {
    seq(|v|, i requires 0 <= i < |v| => StdChar(v[i]))
  }

  function UrlString(v: seq<Sextet>): (s: string)
    ensures |s| == |v|
    ensures forall i :: 0 <= i < |s| ==> IsUrlChar(s[i])
  {
    seq(|v|, i requires 0 <= i < |v| => UrlChar(v[i]))
  }

  // ---------------------------------------------------------------- string helpers

  /** `s.replace(/a/g, b)` for a one-character pattern. */
  function ReplaceChar(s: string, a: char, b: char): (r: string)
    ensures |r| == |s|
  {
    seq(|s|, i requires 0 <= i < |s| => if s[i] == a then b else s[i])
  }

  /** `s.replace(/c+$/g, "")`. */
  function StripTrailing(s: string, c: char): (r: string)
    ensures |r| <= |s| && r == s[..|r|]
    ensures |r| > 0 ==> r[|r| - 1] != c
    decreases |s|
  {
    if |s| > 0 && s[|s| - 1] == c then StripTrailing(s[..|s| - 1], c) else s
  }

  /** `s.padEnd(n, c)`. */
  function PadEnd(s: string, n: int, c: char): (r: string)
    ensures |s| >= n ==> r == s
    ensures |s| < n ==> |r| == n && r[..|s|] == s && forall i :: |s| <= i < n ==> r[i] == c
  {
    if |s| >= n then s else s + seq(n - |s|, _ => c)
  }

  /** The chars of a binary string (`String.fromCharCode(b)` for each byte). */
  function BinaryString(b: seq<Byte>): (s: string)
    ensures |s| == |b|
    ensures forall i :: 0 <= i < |b| ==> s[i] as int == b[i]
  {
    seq(|b|, i requires 0 <= i < |b| => b[i] as char)
  }

  // ---------------------------------------------------------------- btoa / atob

  /** The '=' padding `btoa` appends for `n` input bytes. */
  function Padding(n: nat): string {
    if n % 3 == 1 then "==" else if n % 3 == 2 then "=" else ""
  }

  /** `btoa(s)`: standard base64 of the char codes, padded; it throws (None) on a char code
      above 255. */
  function Btoa(s: string): (r: Option<string>)
    ensures r.Some? <==> forall i :: 0 <= i < |s| ==> s[i] as int < 256
  {
    if exists i :: 0 <= i < |s| && s[i] as int >= 256 then None
    else
      var codes: seq<Byte> := seq(|s|, i requires 0 <= i < |s| => s[i] as int);
      Some(StdString(EncodeSextets(codes)) + Padding(|s|))
  }

  /** ASCII whitespace as the forgiving-base64 decoder of the HTML standard skips it. */
  predicate IsAsciiWhitespace(c: char) {
    c == '\t' || c == '\n' || c == '\U{000C}' || c == '\r' || c == ' '
  }

  function RemoveAsciiWhitespace(s: string): (r: string)
    ensures |r| <= |s|
    ensures (forall i :: 0 <= i < |s| ==> !IsAsciiWhitespace(s[i])) ==> r == s
  {
    if s == [] then []
    else (if IsAsciiWhitespace(s[0]) then [] else [s[0]]) + RemoveAsciiWhitespace(s[1..])
  }

  /** When the length is a multiple of four, one or two trailing '=' are dropped. */
  function StripPadding(d: string): string {
    if |d| % 4 == 0 && |d| >= 2 && d[|d| - 1] == '=' && d[|d| - 2] == '=' then d[..|d| - 2]
    else if |d| % 4 == 0 && |d| >= 1 && d[|d| - 1] == '=' then d[..|d| - 1]
    else d
  }

  /** Every character is in the standard alphabet. */
  predicate AllStd(d: string) {
    forall i :: 0 <= i < |d| ==> StdValue(d[i]) >= 0
  }

  function StdValues(d: string): (v: seq<Sextet>)
    requires AllStd(d)
    ensures |v| == |d| && forall i :: 0 <= i < |v| ==> StdChar(v[i]) == d[i]
  {
    seq(|d|, i requires 0 <= i < |d| => StdValue(d[i]))
  }

  /** `atob(s)`, the forgiving-base64 decode: None where it throws (a length of 1 modulo 4
      once padding is dropped, or a character outside the standard alphabet). */
  function Atob(s: string): (r: Option<string>)
    ensures r.Some? ==> forall i :: 0 <= i < |r.value| ==> r.value[i] as int < 256
  {
    var d := StripPadding(RemoveAsciiWhitespace(s));
    if |d| % 4 == 1 || !AllStd(d) then None
    else Some(BinaryString(DecodeSextets(StdValues(d))))
  }

  // ---------------------------------------------------------------- Base64Url

  /** `Base64Url.encode(bytes)`. */
  function Base64UrlEncode(b: seq<Byte>): string {
    var b64 := Btoa(BinaryString(b)).value;
    StripTrailing(ReplaceChar(ReplaceChar(b64, '+', '-'), '/', '_'), '=')
  }

  /** `Base64Url.decode(s)`: None where `atob` throws; each char code stored into the
      `Uint8Array` modulo 256. */
  function Base64UrlDecode(s: string): Option<seq<Byte>> {
    match Atob(ToStdPadded(s))
    case None => None
    case Some(str) => Some(CharCodes(str))
  }

  /** `s.replace(/-/g, "+").replace(/_/g, "/").padEnd(Math.ceil(s.length / 4) * 4, "=")`. */
  function ToStdPadded(s: string): string {
    PadEnd(ReplaceChar(ReplaceChar(s, '-', '+'), '_', '/'), (|s| + 3) / 4 * 4, '=')
  }

  /** Each char code as a `Uint8Array` stores it (modulo 256). */
  function CharCodes(str: string): (b: seq<Byte>)
    ensures |b| == |str| && forall i :: 0 <= i < |str| ==> b[i] == str[i] as int % 256
  {
    seq(|str|, i requires 0 <= i < |str| => str[i] as int % 256)
  }

  /** `encode` as written: a loop building the binary string, then `btoa` and the
      alphabet rewrite. */
  method Encode(bytes: array<Byte>) returns (s: string)
    ensures s == Base64UrlEncode(bytes[..])
  {
    var str := "";
    for i := 0 to bytes.Length
      invariant str == BinaryString(bytes[..i])
    {
      str := str + [bytes[i] as char];
    }
    assert bytes[..bytes.Length] == bytes[..];
    var b64 := Btoa(str).value;
    s := StripTrailing(ReplaceChar(ReplaceChar(b64, '+', '-'), '/', '_'), '=');
  }

  /** `decode` as written: `atob`, then a loop filling a new `Uint8Array`; None where
      `atob` throws. */
  method Decode(b64url: string) returns (bytes: Option<array<Byte>>)
    ensures bytes.None? <==> Base64UrlDecode(b64url).None?
    ensures bytes.Some? ==> fresh(bytes.value) && bytes.value[..] == Base64UrlDecode(b64url).value
  {
    var decoded := Atob(ToStdPadded(b64url));
    if decoded.None? {
      return None;
    }
    var str := decoded.value;
    var a := new Byte[|str|];
    for i := 0 to |str|
      invariant forall k :: 0 <= k < i ==> a[k] == str[k] as int % 256
    {
      a[i] := str[i] as int % 256;
    }
    assert a[..] == CharCodes(str);
    bytes := Some(a);
  }

  // ---------------------------------------------------------------- properties

  /** The encoding is the URL-safe spelling of the sextets, with no padding. */
  lemma EncodeForm(b: seq<Byte>)
    ensures Base64UrlEncode(b) == UrlString(EncodeSextets(b))
  {
    var v := EncodeSextets(b);
    var str := BinaryString(b);
    var codes: seq<Byte> := seq(|str|, i requires 0 <= i < |str| => str[i] as int);
    assert codes == b;
    var b64 := Btoa(str).value;
    assert b64 == StdString(v) + Padding(|b|);
    var swapped := ReplaceChar(ReplaceChar(b64, '+', '-'), '/', '_');
    var pad := Padding(|b|);
    assert swapped == UrlString(v) + pad;
    StripPaddingOff(UrlString(v), pad);
  }

  /** Stripping trailing '=' from url-safe text followed by '=' only recovers the text. */
  lemma {:induction false} StripPaddingOff(u: string, pad: string)
    requires forall i :: 0 <= i < |u| ==> IsUrlChar(u[i])
    requires forall i :: 0 <= i < |pad| ==> pad[i] == '='
    ensures StripTrailing(u + pad, '=') == u
    decreases |pad|
  {
    if pad == [] {
      assert u + pad == u;
      if |u| > 0 { assert IsUrlChar(u[|u| - 1]); }
    } else {
      assert (u + pad)[..|u + pad| - 1] == u + pad[..|pad| - 1];
      StripPaddingOff(u, pad[..|pad| - 1]);
    }
  }

  /** Encoded output uses only `[A-Za-z0-9-_]`, so in particular no '='. */
  lemma EncodeUrlSafe(b: seq<Byte>)
    ensures forall i :: 0 <= i < |Base64UrlEncode(b)| ==> IsUrlChar(Base64UrlEncode(b)[i])
    ensures '=' !in Base64UrlEncode(b)
  {
    EncodeForm(b);
  }

  /** The sextet values a URL-safe string spells. */
  function UrlValues(s: string): (v: seq<Sextet>)
    requires forall i :: 0 <= i < |s| ==> IsUrlChar(s[i])
    ensures |v| == |s| && forall i :: 0 <= i < |v| ==> UrlChar(v[i]) == s[i]
  {
    seq(|s|, i requires 0 <= i < |s| => UrlValue(s[i]))
  }

  /** `-` and `_` rewritten back give standard-alphabet text spelling the same values. */
  lemma UrlToStd(s: string)
    requires forall i :: 0 <= i < |s| ==> IsUrlChar(s[i])
    ensures AllStd(ReplaceChar(ReplaceChar(s, '-', '+'), '_', '/'))
    ensures StdValues(ReplaceChar(ReplaceChar(s, '-', '+'), '_', '/')) == UrlValues(s)
  {
    var std := ReplaceChar(ReplaceChar(s, '-', '+'), '_', '/');
    assert forall i :: 0 <= i < |s| ==> StdValue(std[i]) == UrlValue(s[i]);
  }

  /** `Math.ceil(n / 4) * 4` for each remainder. */
  lemma PadLength(n: nat)
    ensures n % 4 == 0 ==> (n + 3) / 4 * 4 == n
    ensures n % 4 == 1 ==> (n + 3) / 4 * 4 == n + 3
    ensures n % 4 == 2 ==> (n + 3) / 4 * 4 == n + 2
    ensures n % 4 == 3 ==> (n + 3) / 4 * 4 == n + 1
  {
  }

  /** `n` copies of '='. */
  function Eqs(n: nat): (r: string)
    ensures |r| == n && forall i :: 0 <= i < n ==> r[i] == '='
  {
    seq(n, _ => '=')
  }

  /** `atob` skips no character of standard text followed by '='. */
  lemma PaddedHasNoWhitespace(std: string, k: nat)
    requires AllStd(std)
    ensures RemoveAsciiWhitespace(std + Eqs(k)) == std + Eqs(k)
  {
    var d := std + Eqs(k);
    forall i | 0 <= i < |d| ensures !IsAsciiWhitespace(d[i]) {
      if i < |std| {
        assert d[i] == std[i] && StdValue(std[i]) >= 0;
      } else {
        assert d[i] == Eqs(k)[i - |std|];
      }
    }
  }

  /** `atob` drops nothing from unpadded text whose length is a multiple of four. */
  lemma StripNoEq(std: string)
    requires AllStd(std) && |std| % 4 == 0
    ensures StripPadding(std + Eqs(0)) == std
  {
    assert std + Eqs(0) == std;
    if |std| > 0 { assert StdValue(std[|std| - 1]) >= 0; }
  }

  /** `atob` drops the one '=' that fills the last group, and nothing else. */
  lemma StripOneEq(std: string)
    requires AllStd(std) && |std| % 4 == 3
    ensures StripPadding(std + Eqs(1)) == std
  {
    var d := std + Eqs(1);
    assert d[..|d| - 1] == std;
    assert d[|d| - 2] == std[|std| - 1];
    assert StdValue(std[|std| - 1]) >= 0;
  }

  /** `atob` drops the two '=' that fill the last group. */
  lemma StripTwoEqs(std: string)
    requires |std| % 4 == 2
    ensures StripPadding(std + Eqs(2)) == std
  {
    var d := std + Eqs(2);
    assert d[..|d| - 2] == std;
  }

  /** Three '=' are one too many: `atob` drops two and leaves the third. */
  lemma StripThreeEqs(std: string)
    requires |std| % 4 == 1
    ensures StripPadding(std + Eqs(3)) == std + "="
  {
    var d := std + Eqs(3);
    assert d[..|d| - 2] == std + "=";
  }

  /** Padding standard text to a multiple of four and letting `atob` drop the padding
      again leaves the text, with one '=' left over when its length is 1 modulo 4. */
  lemma PadThenStrip(std: string)
    requires AllStd(std)
    ensures var d := StripPadding(RemoveAsciiWhitespace(PadEnd(std, (|std| + 3) / 4 * 4, '=')));
            if |std| % 4 == 1 then d == std + "=" else d == std
  {
    var n := (|std| + 3) / 4 * 4;
    PadLength(|std|);
    if |std| % 4 == 0 {
      PaddedStrip(std, n, 0);
      StripNoEq(std);
    } else if |std| % 4 == 1 {
      PaddedStrip(std, n, 3);
      StripThreeEqs(std);
    } else if |std| % 4 == 2 {
      PaddedStrip(std, n, 2);
      StripTwoEqs(std);
    } else {
      PaddedStrip(std, n, 1);
      StripOneEq(std);
    }
  }

  /** Padding to `n` appends `k` '=' that `atob`'s whitespace removal leaves alone. */
  lemma PaddedStrip(std: string, n: nat, k: nat)
    requires AllStd(std) && n == |std| + k
    ensures RemoveAsciiWhitespace(PadEnd(std, n, '=')) == std + Eqs(k)
  {
    assert PadEnd(std, n, '=') == std + Eqs(k);
    PaddedHasNoWhitespace(std, k);
  }

  /** Storing the char codes of a binary string gives back its bytes. */
  lemma CharCodesOfBinary(b: seq<Byte>)
    ensures CharCodes(BinaryString(b)) == b
  {
    var r := CharCodes(BinaryString(b));
    forall i | 0 <= i < |b| ensures r[i] == b[i] {
      assert BinaryString(b)[i] as int == b[i];
    }
  }

  /** Padded to a length of 1 modulo 4, URL-safe text keeps a stray '=' that `atob` rejects. */
  lemma AtobRejectsOneMod4(s: string)
    requires forall i :: 0 <= i < |s| ==> IsUrlChar(s[i])
    requires |s| % 4 == 1
    ensures Atob(ToStdPadded(s)) == None
  {
    var std := ReplaceChar(ReplaceChar(s, '-', '+'), '_', '/');
    UrlToStd(s);
    PadThenStrip(std);
    var d := StripPadding(RemoveAsciiWhitespace(ToStdPadded(s)));
    assert d == std + "=";
    assert StdValue(d[|s|]) < 0;
  }

  /** Otherwise `atob` sees exactly the standard spelling of the same values. */
  lemma AtobOfUrlSafe(s: string)
    requires forall i :: 0 <= i < |s| ==> IsUrlChar(s[i])
    requires |s| % 4 != 1
    ensures Atob(ToStdPadded(s)) == Some(BinaryString(DecodeSextets(UrlValues(s))))
  {
    var std := ReplaceChar(ReplaceChar(s, '-', '+'), '_', '/');
    UrlToStd(s);
    PadThenStrip(std);
    var d := StripPadding(RemoveAsciiWhitespace(ToStdPadded(s)));
    assert d == std;
  }

  /** On URL-safe text, decoding fails exactly when the length is 1 modulo 4; otherwise it
      yields the bytes of the sextets the characters spell. */
  lemma DecodeUrlSafe(s: string)
    requires forall i :: 0 <= i < |s| ==> IsUrlChar(s[i])
    ensures Base64UrlDecode(s).None? <==> |s| % 4 == 1
    ensures |s| % 4 != 1 ==> Base64UrlDecode(s) == Some(DecodeSextets(UrlValues(s)))
  {
    if |s| % 4 == 1 {
      AtobRejectsOneMod4(s);
    } else {
      AtobOfUrlSafe(s);
      CharCodesOfBinary(DecodeSextets(UrlValues(s)));
    }
  }

  /** Decoding the URL-safe spelling of sextets gives their bytes. */
  lemma DecodeUrlString(v: seq<Sextet>)
    requires |v| % 4 != 1
    ensures Base64UrlDecode(UrlString(v)) == Some(DecodeSextets(v))
  {
    var u := UrlString(v);
    DecodeUrlSafe(u);
    forall i | 0 <= i < |v| ensures UrlValues(u)[i] == v[i] {
      UrlValueOfChar(v[i]);
    }
    assert UrlValues(u) == v;
  }

  /** `decode(encode(b)) == b` for every byte sequence. */
  lemma DecodeEncode(b: seq<Byte>)
    ensures Base64UrlDecode(Base64UrlEncode(b)) == Some(b)
  {
    EncodeForm(b);
    SextetsRoundTrip(b);
    DecodeUrlString(EncodeSextets(b));
  }
}
