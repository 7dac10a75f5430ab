/** Mount paths as file names: percent-encoding without slashes, and its decoder. */
module PathCodec {
  import opened Options

  function TrimStart(s: string): string {
    if s != "" && s[0] == '/' then TrimStart(s[1..]) else s
  }

  function TrimEnd(s: string): string {
    if s != "" && s[|s| - 1] == '/' then TrimEnd(s[..|s| - 1]) else s
  }

  /** Without the slashes at either end. */
  function Trim(s: string): string {
    TrimEnd(TrimStart(s))
  }

  function Replace(s: string, c: char, with: string): string {
    if s == "" then "" else (if s[0] == c then with else [s[0]]) + Replace(s[1..], c, with)
  }

  function EncodePath(path: string): string {
    Replace(Replace(Trim(path), '%', "%25"), '/', "%2F")
  }

  /** The same code, one character at a time. */
  function EncodeChars(s: string): string {
    if s == "" then ""
    else (if s[0] == '%' then "%25" else if s[0] == '/' then "%2F" else [s[0]]) + EncodeChars(s[1..])
  }

  function HexDigit(c: char): Option<nat> {
    if '0' <= c <= '9' then Some(c as nat - '0' as nat)
    else if 'a' <= c <= 'f' then Some(c as nat - 'a' as nat + 10)
    else if 'A' <= c <= 'F' then Some(c as nat - 'A' as nat + 10)
    else None
  }

  /** Two characters as a hexadecimal byte; the number parser also takes a plus sign and one digit. */
  function HexByte(hi: char, lo: char): (r: Option<nat>)
    ensures r.Some? ==> r.value < 256
  {
    if HexDigit(lo).None? then None
    else if hi == '+' then HexDigit(lo)
    else if HexDigit(hi).None? then None
    else Some(16 * HexDigit(hi).value + HexDigit(lo).value)
  }

  /** The hexadecimal digit of a number, with the letters from `ten` on. */
  function DigitChar(n: nat, ten: char): char
    requires n < 16 && (ten == 'a' || ten == 'A')
  {
    (if n < 10 then '0' as nat + n else ten as nat + (n - 10)) as char
  }

  lemma HexDigitIff(c: char, n: nat)
    ensures HexDigit(c) == Some(n) <==> n < 16 && (c == DigitChar(n, 'a') || c == DigitChar(n, 'A'))
  {
  }

  function Decode(s: string): string
    decreases |s|
  {
    if s == "" then ""
    else if s[0] != '%' then [s[0]] + Decode(s[1..])
    else if |s| >= 3 && HexByte(s[1], s[2]).Some? then [HexByte(s[1], s[2]).value as char] + Decode(s[3..])
    else ['%'] + Decode(if |s| >= 3 then s[3..] else "")
  }

  /** Every byte is read back from its hexadecimal digits, in either case, wherever they stand. */
  lemma DecodesEveryByte(b: nat, ten: char, rest: string)
    requires b < 256 && (ten == 'a' || ten == 'A')
    ensures Decode("%" + [DigitChar(b / 16, ten), DigitChar(b % 16, ten)] + rest) == [b as char] + Decode(rest)
  {
    HexDigitIff(DigitChar(b / 16, ten), b / 16);
    HexDigitIff(DigitChar(b % 16, ten), b % 16);
    DecodesOne(DigitChar(b / 16, ten), DigitChar(b % 16, ten), rest);
    hide Decode, HexDigit;
  }

  lemma DecodesOne(hi: char, lo: char, rest: string)
    requires HexByte(hi, lo).Some?
    ensures Decode("%" + [hi, lo] + rest) == [HexByte(hi, lo).value as char] + Decode(rest)
  {
    hide HexByte;
    var s := "%" + [hi, lo] + rest;
    assert s[0] == '%' && s[1] == hi && s[2] == lo && s[3..] == rest;
  }

  /** The decoder: a percent sign takes the two characters after it along, valid or not. */
  method DecodePath(encoded: string) returns (path: string)
    ensures path == "/" + Decode(encoded)
  {
    hide Decode, HexByte;
    var result := "";
    var k: nat := 0;
    assert encoded[0..] == encoded;
    while k < |encoded|
      invariant k <= |encoded|
      invariant result + Decode(encoded[k..]) == Decode(encoded)
      decreases |encoded| - k
    {
      DecodeFrom(encoded, k);
      var c := encoded[k];
      k := k + 1;
      if c != '%' {
        Append(result, [c], Decode(encoded[k..]));
        result := result + [c];
        continue;
      }
      var byte := None;
      if k + 1 < |encoded| {
        byte := HexByte(encoded[k], encoded[k + 1]);
        k := k + 2;
      } else {
        k := |encoded|;
      }
      var decoded := if byte.Some? then [byte.value as char] else "%";
      Append(result, decoded, Decode(encoded[k..]));
      result := result + decoded;
    }
    DecodeEnd(encoded);
    path := "/" + result;
  }

  lemma Append(a: string, b: string, c: string)
    ensures a + (b + c) == (a + b) + c
  {
  }

  lemma DecodeEnd(s: string)
    ensures Decode(s[|s|..]) == ""
    ensures forall r: string :: r + Decode(s[|s|..]) == r
  {
  }

  lemma DecodeFrom(s: string, k: nat)
    requires k < |s|
    ensures s[k] != '%' ==> Decode(s[k..]) == [s[k]] + Decode(s[k + 1..])
    ensures s[k] == '%' && k + 2 < |s| ==>
      var byte := HexByte(s[k + 1], s[k + 2]);
      Decode(s[k..]) == (if byte.Some? then [byte.value as char] else "%") + Decode(s[k + 3..])
    ensures s[k] == '%' && k + 2 >= |s| ==> Decode(s[k..]) == "%" + Decode(s[|s|..])
  {
    hide HexByte;
    var rest := s[k..];
    assert rest[0] == s[k] && rest[1..] == s[k + 1..];
    if k + 2 < |s| { assert rest[1] == s[k + 1] && rest[2] == s[k + 2] && rest[3..] == s[k + 3..]; }
  }

  lemma {:induction false} ReplaceAppend(a: string, b: string, c: char, with: string)
    ensures Replace(a + b, c, with) == Replace(a, c, with) + Replace(b, c, with)
  {
    if a == "" {
      assert a + b == b;
    } else {
      assert (a + b)[1..] == a[1..] + b;
      ReplaceAppend(a[1..], b, c, with);
    }
  }

  /** Replacing percent signs first and slashes second is one substitution per character. */
  lemma {:induction false} TwoReplacesAreOne(s: string)
    ensures Replace(Replace(s, '%', "%25"), '/', "%2F") == EncodeChars(s)
  {
    if s != "" {
      var first := if s[0] == '%' then "%25" else [s[0]];
      ReplaceAppend(first, Replace(s[1..], '%', "%25"), '/', "%2F");
      TwoReplacesAreOne(s[1..]);
      assert Replace(first, '/', "%2F") == (if s[0] == '%' then "%25" else if s[0] == '/' then "%2F" else [s[0]]) by {
        OneReplaced(first);
      }
    }
  }

  lemma OneReplaced(s: string)
    requires s == "%25" || |s| == 1
    ensures Replace(s, '/', "%2F") == if s == "%25" then s else if s == "/" then "%2F" else s
  {
    if s == "%25" {
      assert s[1..] == "25" && s[1..][1..] == "5" && s[1..][1..][1..] == "";
    } else {
      assert s[1..] == "" && s == [s[0]];
    }
  }

  lemma {:induction false} DecodeEncodeChars(s: string)
    ensures Decode(EncodeChars(s)) == s
    ensures '/' !in EncodeChars(s)
  {
    if s != "" {
      DecodeEncodeChars(s[1..]);
      var rest := EncodeChars(s[1..]);
      if s[0] == '%' {
        assert ("%25" + rest)[3..] == rest && ("%25" + rest)[1] == '2' && ("%25" + rest)[2] == '5';
        assert HexByte('2', '5') == Some(37) && 37 as char == '%';
      } else if s[0] == '/' {
        assert ("%2F" + rest)[3..] == rest && ("%2F" + rest)[1] == '2' && ("%2F" + rest)[2] == 'F';
        assert HexByte('2', 'F') == Some(47) && 47 as char == '/';
      } else {
        assert ([s[0]] + rest)[1..] == rest;
      }
    }
  }

  /** Decoding an encoded path gives the path back with one slash in front and none behind. */
  lemma DecodeEncode(path: string)
    ensures "/" + Decode(EncodePath(path)) == "/" + Trim(path)
    ensures '/' !in EncodePath(path)
  {
    TwoReplacesAreOne(Trim(path));
    DecodeEncodeChars(Trim(path));
  }

  /** A path in the form that mount points have: one slash in front, none at the end. */
  predicate IsCanonical(path: string) {
    path != "" && path[0] == '/' && (|path| > 1 ==> path[1] != '/' && path[|path| - 1] != '/')
  }

  lemma {:induction false} TrimStartFacts(s: string)
    ensures TrimStart(s) == "" || TrimStart(s)[0] != '/'
    ensures s == "" || s[0] != '/' ==> TrimStart(s) == s
  {
    if s != "" && s[0] == '/' { TrimStartFacts(s[1..]); }
  }

  lemma {:induction false} TrimEndFacts(s: string)
    ensures TrimEnd(s) == "" || TrimEnd(s)[|TrimEnd(s)| - 1] != '/'
    ensures s == "" || s[|s| - 1] != '/' ==> TrimEnd(s) == s
    ensures TrimEnd(s) <= s
  {
    if s != "" && s[|s| - 1] == '/' { TrimEndFacts(s[..|s| - 1]); }
  }

  /** The round trip is exact for canonical paths and for no others. */
  lemma RoundTripIff(path: string)
    ensures "/" + Decode(EncodePath(path)) == path <==> IsCanonical(path)
  {
    DecodeEncode(path);
    TrimStartFacts(path);
    TrimEndFacts(TrimStart(path));
    if IsCanonical(path) {
      TrimStartFacts(path[1..]);
      TrimEndFacts(path[1..]);
      assert path == "/" + path[1..];
    }
  }

  /** Two paths share a file name exactly when they differ only in slashes at the ends. */
  lemma EncodingCollidesIff(p: string, q: string)
    ensures EncodePath(p) == EncodePath(q) <==> Trim(p) == Trim(q)
  {
    TwoReplacesAreOne(Trim(p));
    TwoReplacesAreOne(Trim(q));
    DecodeEncodeChars(Trim(p));
    DecodeEncodeChars(Trim(q));
  }

  lemma CanonicalPathsDoNotCollide(p: string, q: string)
    requires IsCanonical(p) && IsCanonical(q) && EncodePath(p) == EncodePath(q)
    ensures p == q
  {
    RoundTripIff(p);
    RoundTripIff(q);
  }

  /** An invalid sequence loses the two characters after its percent sign. */
  lemma InvalidSequenceLosesTwo(hi: char, lo: char, rest: string)
    requires HexByte(hi, lo).None?
    ensures Decode(['%', hi, lo] + rest) == "%" + Decode(rest)
  {
    assert (['%', hi, lo] + rest)[3..] == rest;
  }
}
