/**
 Base64 as the standard library of Python encodes and decodes it (sections 4 and 5 of RFC 4648), and the
 strict reader for unpadded base64url.
 */
module Base64 {
  import opened Common

  type Sextet = v: int | 0 <= v < 64

  // Characters by code point: the standard alphabet, and `-` and `_` for `+` and `/` in base64url.

  function Digit(v: Sextet): char {
    if v < 26 then (65 + v) as char
    else if v < 52 then (97 + (v - 26)) as char
    else if v < 62 then (48 + (v - 52)) as char
    else if v == 62 then '+' else '/'
  }

  function Value(c: char): Option<Sextet> {
    if 'A' <= c <= 'Z' then Some(c as int - 65)
    else if 'a' <= c <= 'z' then Some(c as int - 97 + 26)
    else if '0' <= c <= '9' then Some(c as int - 48 + 52)
    else if c == '+' then Some(62)
    else if c == '/' then Some(63)
    else None
  }

  function ToUrl(c: char): char {
    if c == '+' then '-' else if c == '/' then '_' else c
  }

  function FromUrl(c: char): char {
    if c == '-' then '+' else if c == '_' then '/' else c
  }

  function Map(f: char -> char, s: string): (t: string)
    ensures |t| == |s| && forall i :: 0 <= i < |s| ==> t[i] == f(s[i])
  {
    seq(|s|, i requires 0 <= i < |s| => f(s[i]))
  }

  /** Three bytes become four digits; one or two bytes left over become two or three. */
  function Digits(data: Bytes): (s: string)
    ensures |s| == |data| / 3 * 4 + (if |data| % 3 == 0 then 0 else |data| % 3 + 1)
  {
    match |data|
    case 0 => ""
    case 1 => [Digit(S1(data[0])), Digit(S2(data[0], 0))]
    case 2 => [Digit(S1(data[0])), Digit(S2(data[0], data[1])), Digit(S3(data[1], 0))]
    case _ => Group(data[0], data[1], data[2]) + Digits(data[3..])
  }

  // The four sextets of three bytes, and the three bytes of four sextets.

  function S1(a: Byte): Sextet { a / 4 }

  function S2(a: Byte, b: Byte): Sextet { a % 4 * 16 + b / 16 }

  function S3(b: Byte, c: Byte): Sextet { b % 16 * 4 + c / 64 }

  function S4(c: Byte): Sextet { c % 64 }

  function B1(v1: Sextet, v2: Sextet): Byte { v1 * 4 + v2 / 16 }

  function B2(v2: Sextet, v3: Sextet): Byte { v2 % 16 * 16 + v3 / 4 }

  function B3(v3: Sextet, v4: Sextet): Byte { v3 % 4 * 64 + v4 }

  lemma Regroup(a: Byte, b: Byte, c: Byte)
    ensures B1(S1(a), S2(a, b)) == a
    ensures B2(S2(a, b), S3(b, c)) == b
    ensures B3(S3(b, c), S4(c)) == c
  {
    assert S2(a, b) / 16 == a % 4 && S2(a, b) % 16 == b / 16;
    assert S3(b, c) / 4 == b % 16 && S3(b, c) % 4 == c / 64;
  }

  function Group(a: Byte, b: Byte, c: Byte): string {
    [Digit(S1(a)), Digit(S2(a, b)), Digit(S3(b, c)), Digit(S4(c))]
  }

  function Padded(digits: string): string {
    digits + Pads((4 - |digits| % 4) % 4)
  }

  function Pads(n: nat): string {
    seq(n, _ => '=')
  }

  /** `base64.b64encode`: digits padded to a multiple of four. */
  function Encode(data: Bytes): string {
    Padded(Digits(data))
  }

  /**
   The decoder's scan: `quad` digits of the current group read, `left` their bits not yet emitted, `pads`
   padding characters since the last digit. Characters outside the alphabet are passed over, a completed
   padding ends the scan, and text that ends inside a group is an error.
   */
  function Scan(s: string, quad: nat, left: nat, pads: nat): Option<Bytes>
    requires quad < 4
    requires quad == 0 ==> left == 0
    requires quad == 1 ==> left < 64
    requires quad == 2 ==> left < 16
    requires quad == 3 ==> left < 4
    decreases |s|
  {
    if s == [] then (if quad == 0 then Some([]) else None)
    else if s[0] == '=' then
      if quad >= 2 && quad + pads + 1 >= 4 then Some([])
      else Scan(s[1..], quad, left, if quad >= 2 then pads + 1 else pads)
    else match Value(s[0])
      case None => Scan(s[1..], quad, left, pads)
      case Some(v) =>
        if quad == 0 then Scan(s[1..], 1, v, 0)
        else if quad == 1 then Prefix(left * 4 + v / 16, Scan(s[1..], 2, v % 16, 0))
        else if quad == 2 then Prefix(left * 16 + v / 4, Scan(s[1..], 3, v % 4, 0))
        else Prefix(left * 64 + v, Scan(s[1..], 0, 0, 0))
  }

  function Prefix(b: Byte, rest: Option<Bytes>): Option<Bytes>
  {
    match rest
    case None => None
    case Some(bytes) => Some([b] + bytes)
  }

  lemma PrefixOnto(b: Byte, bytes: Bytes)
    ensures Prefix(b, Some(bytes)) == Some([b] + bytes)
    ensures bytes == [] ==> Prefix(b, Some(bytes)) == Some([b])
  {
    assert [b] + [] == [b];
  }

  /** `base64.b64decode` of text; a character outside ASCII is an error. */
  function Decode(s: string): Option<Bytes> {
    if exists i :: 0 <= i < |s| && s[i] as int >= 128 then None else Scan(s, 0, 0, 0)
  }

  // ------------------------------------------------------------------ the decoder undoes the encoder

  lemma DigitValue(v: Sextet)
    ensures Value(Digit(v)) == Some(v) && Digit(v) != '=' && Digit(v) as int < 128
    ensures FromUrl(ToUrl(Digit(v))) == Digit(v)
  {
  }

  lemma ScanDigit(v: Sextet, rest: string, quad: nat, left: nat)
    requires quad < 4
    requires quad == 0 ==> left == 0
    requires quad == 1 ==> left < 64
    requires quad == 2 ==> left < 16
    requires quad == 3 ==> left < 4
    ensures Scan([Digit(v)] + rest, quad, left, 0) ==
            if quad == 0 then Scan(rest, 1, v, 0)
            else if quad == 1 then Prefix(left * 4 + v / 16, Scan(rest, 2, v % 16, 0))
            else if quad == 2 then Prefix(left * 16 + v / 4, Scan(rest, 3, v % 4, 0))
            else Prefix(left * 64 + v, Scan(rest, 0, 0, 0))
  {
    DigitValue(v);
    assert ([Digit(v)] + rest)[1..] == rest;
  }

  lemma ScanFirstHalf(v1: Sextet, v2: Sextet, rest: string)
    ensures Scan([Digit(v1)] + ([Digit(v2)] + rest), 0, 0, 0) == Prefix(B1(v1, v2), Scan(rest, 2, v2 % 16, 0))
  {
    ScanDigit(v1, [Digit(v2)] + rest, 0, 0);
    ScanDigit(v2, rest, 1, v1);
  }

  lemma ScanSecondHalf(v2: Sextet, v3: Sextet, v4: Sextet, rest: string)
    ensures Scan([Digit(v3)] + ([Digit(v4)] + rest), 2, v2 % 16, 0)
            == Prefix(B2(v2, v3), Prefix(B3(v3, v4), Scan(rest, 0, 0, 0)))
  {
    ScanDigit(v3, [Digit(v4)] + rest, 2, v2 % 16);
    ScanDigit(v4, rest, 3, v3 % 4);
  }

  lemma FourThenRest(a: char, b: char, c: char, d: char, rest: string)
    ensures [a, b, c, d] + rest == [a] + ([b] + ([c] + ([d] + rest)))
  {
  }

  lemma ScanFourDigits(v1: Sextet, v2: Sextet, v3: Sextet, v4: Sextet, rest: string)
    ensures Scan([Digit(v1), Digit(v2), Digit(v3), Digit(v4)] + rest, 0, 0, 0)
            == Prefix(B1(v1, v2), Prefix(B2(v2, v3), Prefix(B3(v3, v4), Scan(rest, 0, 0, 0))))
  {
    FourThenRest(Digit(v1), Digit(v2), Digit(v3), Digit(v4), rest);
    ScanFirstHalf(v1, v2, [Digit(v3)] + ([Digit(v4)] + rest));
    ScanSecondHalf(v2, v3, v4, rest);
  }

  /** A whole group of four digits yields its three bytes. */
  lemma ScanGroup(a: Byte, b: Byte, c: Byte, rest: string)
    ensures Scan(Group(a, b, c) + rest, 0, 0, 0) == Prefix(a, Prefix(b, Prefix(c, Scan(rest, 0, 0, 0))))
  {
    Regroup(a, b, c);
    ScanFourDigits(S1(a), S2(a, b), S3(b, c), S4(c), rest);
  }

  lemma ScanPadding(left: nat)
    ensures left < 16 ==> Scan("==", 2, left, 0) == Some([])
    ensures left < 4 ==> Scan("=", 3, left, 0) == Some([])
  {
    if left < 16 {
      assert "=="[1..] == "=";
      assert Scan("==", 2, left, 0) == Scan("=", 2, left, 1);
    }
  }

  lemma ScanTwoDigits(v1: Sextet, v2: Sextet)
    ensures Scan([Digit(v1), Digit(v2)] + "==", 0, 0, 0) == Some([B1(v1, v2)])
  {
    assert [Digit(v1), Digit(v2)] + "==" == [Digit(v1)] + ([Digit(v2)] + "==");
    ScanFirstHalf(v1, v2, "==");
    ScanPadding(v2 % 16);
    PrefixOnto(B1(v1, v2), []);
  }

  lemma TwoPrefixes(a: Byte, b: Byte)
    ensures Prefix(a, Prefix(b, Some([]))) == Some([a, b])
  {
    PrefixOnto(b, []);
    PrefixOnto(a, [b]);
    assert [a] + [b] == [a, b];
  }

  lemma ScanThreeDigits(v1: Sextet, v2: Sextet, v3: Sextet)
    ensures Scan([Digit(v1), Digit(v2), Digit(v3)] + "=", 0, 0, 0) == Some([B1(v1, v2), B2(v2, v3)])
  {
    var last := [Digit(v3)] + "=";
    assert [Digit(v1), Digit(v2), Digit(v3)] + "=" == [Digit(v1)] + ([Digit(v2)] + last);
    ScanFirstHalf(v1, v2, last);
    ScanDigit(v3, "=", 2, v2 % 16);
    ScanPadding(v3 % 4);
    TwoPrefixes(B1(v1, v2), B2(v2, v3));
  }

  lemma PadTwo(x: char, y: char)
    ensures Padded([x, y]) == [x, y] + "=="
  {
    assert Pads(2) == "==";
  }

  lemma PadOne(x: char, y: char, z: char)
    ensures Padded([x, y, z]) == [x, y, z] + "="
  {
    assert Pads(1) == "=";
  }

  lemma ScanOneByte(a: Byte)
    ensures Scan(Encode([a]), 0, 0, 0) == Some([a])
  {
    var v1, v2 := S1(a), S2(a, 0);
    assert B1(v1, v2) == a by { Regroup(a, 0, 0); }
    PadTwo(Digit(v1), Digit(v2));
    ScanTwoDigits(v1, v2);
  }

  lemma ScanTwoBytes(a: Byte, b: Byte)
    ensures Scan(Encode([a, b]), 0, 0, 0) == Some([a, b])
  {
    var v1, v2, v3 := S1(a), S2(a, b), S3(b, 0);
    assert B1(v1, v2) == a && B2(v2, v3) == b by { Regroup(a, b, 0); }
    PadOne(Digit(v1), Digit(v2), Digit(v3));
    ScanThreeDigits(v1, v2, v3);
  }

  lemma PaddedGroup(four: string, rest: string)
    requires |four| == 4
    ensures Padded(four + rest) == four + Padded(rest)
  {
    assert |four + rest| % 4 == |rest| % 4;
  }

  lemma {:induction false} ScanEncoded(data: Bytes)
    ensures Scan(Encode(data), 0, 0, 0) == Some(data)
  {
    if |data| == 1 {
      assert data == [data[0]];
      ScanOneByte(data[0]);
    } else if |data| == 2 {
      assert data == [data[0], data[1]];
      ScanTwoBytes(data[0], data[1]);
    } else if |data| > 2 {
      var rest := data[3..];
      ScanEncoded(rest);
      ScanGroup(data[0], data[1], data[2], Encode(rest));
      PaddedGroup(Group(data[0], data[1], data[2]), Digits(rest));
      assert data == [data[0]] + ([data[1]] + ([data[2]] + rest));
    }
  }

  predicate IsDigit(c: char) {
    Value(c).Some?
  }

  predicate AllDigits(s: string) {
    forall i :: 0 <= i < |s| ==> IsDigit(s[i])
  }

  lemma {:induction false} DigitsAreDigits(data: Bytes)
    ensures AllDigits(Digits(data))
  {
    if |data| > 2 {
      DigitsAreDigits(data[3..]);
      assert AllDigits(Group(data[0], data[1], data[2]));
    }
  }

  /** Decoding undoes encoding, for data of any length. */
  lemma RoundTrip(data: Bytes)
    ensures Decode(Encode(data)) == Some(data)
  {
    ScanEncoded(data);
    DigitsAreDigits(data);
  }

  const UPPER := "ABCDEFGHIJKLMNOPQRSTUVWXYZ"
  const LOWER := "abcdefghijklmnopqrstuvwxyz"
  const OTHERS := "0123456789+/"

  /** Table 1 of RFC 4648. */
  function Alphabet(): (s: string)
    ensures |s| == 64
  {
    UPPER + LOWER + OTHERS
  }

  lemma UpperDigits(v: Sextet)
    requires v < 26
    ensures Digit(v) == UPPER[v]
  {
  }

  lemma LowerDigits(v: Sextet)
    requires 26 <= v < 52
    ensures Digit(v) == LOWER[v - 26]
  {
  }

  lemma OtherDigits(v: Sextet)
    requires 52 <= v
    ensures Digit(v) == OTHERS[v - 52]
  {
  }

  /** The digits are the table's, in order, and a digit's value is its place there. */
  lemma DigitsAreTheTable(v: Sextet, c: char)
    ensures Digit(v) == Alphabet()[v]
    ensures Value(c) == Some(v) <==> c == Digit(v)
  {
    if v < 26 {
      UpperDigits(v);
    } else if v < 52 {
      LowerDigits(v);
    } else {
      OtherDigits(v);
    }
  }

  /** base64url has the same table but for its last two characters. */
  lemma UrlDigitsAreTheTable(v: Sextet)
    ensures ToUrl(Digit(v)) == (UPPER + LOWER + "0123456789-_")[v]
  {
    DigitsAreTheTable(v, Digit(v));
    assert (UPPER + LOWER + OTHERS)[..62] == (UPPER + LOWER + "0123456789-_")[..62] by {
      assert OTHERS[..10] == "0123456789-_"[..10];
    }
    assert v < 62 ==> Digit(v) == (UPPER + LOWER + OTHERS)[..62][v];
  }

  /** Four digits are the 24-bit number of their three bytes, high digit first; one or two bytes left over are
      filled up with zero bits. */
  lemma DigitsSpellTheNumber(a: Byte, b: Byte, c: Byte)
    ensures Digits([a, b, c]) == [Digit(S1(a)), Digit(S2(a, b)), Digit(S3(b, c)), Digit(S4(c))]
    ensures S1(a) * 262144 + S2(a, b) * 4096 + S3(b, c) * 64 + S4(c) == a * 65536 + b * 256 + c
    ensures Digits([a, b]) == Digits([a, b, 0])[..3] && Digits([a]) == Digits([a, 0, 0])[..2]
  {
    assert [a, b, c][3..] == [] && [a, b, 0][3..] == [] && [a, 0, 0][3..] == [];
    assert Group(a, b, c) + "" == Group(a, b, c);
    assert Group(a, b, 0) + "" == Group(a, b, 0) && Group(a, 0, 0) + "" == Group(a, 0, 0);
  }

  /** A character outside the alphabet is passed over wherever it stands. */
  lemma {:induction false} StrayIsPassedOver(a: string, c: char, b: string, quad: nat, left: nat, pads: nat)
    requires quad < 4
    requires quad == 0 ==> left == 0
    requires quad == 1 ==> left < 64
    requires quad == 2 ==> left < 16
    requires quad == 3 ==> left < 4
    requires Value(c).None? && c != '='
    ensures Scan(a + [c] + b, quad, left, pads) == Scan(a + b, quad, left, pads)
    decreases |a|
  {
    if a == "" {
      assert (a + [c] + b)[1..] == b && a + b == b;
    } else {
      assert (a + [c] + b)[1..] == a[1..] + [c] + b && (a + b)[1..] == a[1..] + b;
      if a[0] == '=' {
        StrayIsPassedOver(a[1..], c, b, quad, left, if quad >= 2 then pads + 1 else pads);
      } else {
        match Value(a[0])
        case None => StrayIsPassedOver(a[1..], c, b, quad, left, pads);
        case Some(v) =>
          if quad == 0 {
            StrayIsPassedOver(a[1..], c, b, 1, v, 0);
          } else if quad == 1 {
            StrayIsPassedOver(a[1..], c, b, 2, v % 16, 0);
          } else if quad == 2 {
            StrayIsPassedOver(a[1..], c, b, 3, v % 4, 0);
          } else {
            StrayIsPassedOver(a[1..], c, b, 0, 0, 0);
          }
      }
    }
  }

  /** So line breaks and blanks may stand anywhere in encoded text; a character outside ASCII may not. */
  lemma BreaksDoNotMatter(a: string, c: char, b: string)
    requires Value(c).None? && c != '='
    ensures c as int < 128 ==> Decode(a + [c] + b) == Decode(a + b)
    ensures c as int >= 128 ==> Decode(a + [c] + b) == None
  {
    StrayIsPassedOver(a, c, b, 0, 0, 0);
    var s, t := a + [c] + b, a + b;
    assert s[|a|] == c;
    assert forall i :: 0 <= i < |a| ==> s[i] == t[i];
    assert forall i :: |a| <= i < |t| ==> s[i + 1] == t[i];
    assert forall i :: |a| < i < |s| ==> s[i] == t[i - 1];
  }

  /** What the scan makes of digits alone: all of them, and an error inside a group. */
  lemma {:induction false} DigitsAreRead(s: string, quad: nat, left: nat)
    requires quad < 4 && AllDigits(s)
    requires quad == 0 ==> left == 0
    requires quad == 1 ==> left < 64
    requires quad == 2 ==> left < 16
    requires quad == 3 ==> left < 4
    ensures Scan(s, quad, left, 0).Some? <==> (quad + |s|) % 4 == 0
  {
    if s != "" {
      assert IsDigit(s[0]);
      assert forall i :: 0 <= i < |s[1..]| ==> s[1..][i] == s[i + 1];
      var v := Value(s[0]).value;
      if quad == 0 {
        DigitsAreRead(s[1..], 1, v);
      } else if quad == 1 {
        DigitsAreRead(s[1..], 2, v % 16);
      } else if quad == 2 {
        DigitsAreRead(s[1..], 3, v % 4);
      } else {
        DigitsAreRead(s[1..], 0, 0);
      }
    }
  }

  /** What it makes of padding: enough of it completes a group of at least two digits, and between groups it is
      passed over. */
  lemma {:induction false} PaddingIsRead(n: nat, quad: nat, left: nat, pads: nat)
    requires quad < 4
    requires quad == 0 ==> left == 0
    requires quad == 1 ==> left < 64
    requires quad == 2 ==> left < 16
    requires quad == 3 ==> left < 4
    ensures Scan(Pads(n), quad, left, pads) ==
            if quad == 0 || (quad >= 2 && n >= 1 && quad + pads + n >= 4) then Some([]) else None
  {
    if n > 0 {
      assert Pads(n)[0] == '=' && Pads(n)[1..] == Pads(n - 1);
      if !(quad >= 2 && quad + pads + 1 >= 4) {
        PaddingIsRead(n - 1, quad, left, if quad >= 2 then pads + 1 else pads);
      }
    }
  }

  /** Text of digits alone is decoded exactly when they are whole groups of four. */
  lemma UnpaddedTextDecodesExactlyWhen(s: string)
    requires AllDigits(s)
    ensures Decode(s).Some? <==> |s| % 4 == 0
  {
    DigitsAreRead(s, 0, 0);
    assert forall i :: 0 <= i < |s| ==> IsDigit(s[i]);
  }

  // ------------------------------------------------------------------ base64url

  function StripPads(s: string): string {
    if s != [] && s[|s| - 1] == '=' then StripPads(s[..|s| - 1]) else s
  }

  /** `_b64url_encode`. */
  function UrlEncode(data: Bytes): string {
    StripPads(Map(ToUrl, Encode(data)))
  }

  /** `_b64url_decode`: restores the padding, then decodes leniently. */
  function UrlDecode(s: string): Option<Bytes> {
    Decode(Map(FromUrl, Padded(s)))
  }

  predicate IsUrlChar(c: char) {
    'A' <= c <= 'Z' || 'a' <= c <= 'z' || '0' <= c <= '9' || c == '-' || c == '_'
  }

  /** `_b64url_decode_strict`; None is its ValueError. */
  function UrlDecodeStrict(s: string): Option<Bytes> {
    if s == "" || exists i :: 0 <= i < |s| && !IsUrlChar(s[i]) then None
    else match UrlDecode(s)
      case None => None
      case Some(raw) => if UrlEncode(raw) != s then None else Some(raw)
  }

  lemma {:induction false} StripPadsOff(s: string, n: nat)
    requires s != "" ==> s[|s| - 1] != '='
    ensures StripPads(s + Pads(n)) == s
  {
    if n == 0 {
      assert s + Pads(0) == s;
    } else {
      assert (s + Pads(n))[..|s| + n - 1] == s + Pads(n - 1);
      StripPadsOff(s, n - 1);
    }
  }

  /** Unpadded base64url is the digits alone, in the other alphabet. */
  lemma UrlEncodeIsDigits(data: Bytes)
    ensures UrlEncode(data) == Map(ToUrl, Digits(data))
  {
    var digits := Digits(data);
    var n := (4 - |digits| % 4) % 4;
    DigitsAreDigits(data);
    assert Map(ToUrl, Encode(data)) == Map(ToUrl, digits) + Pads(n);
    StripPadsOff(Map(ToUrl, digits), n);
  }

  lemma UrlRoundTrip(data: Bytes)
    ensures UrlDecode(UrlEncode(data)) == Some(data)
  {
    UrlEncodeIsDigits(data);
    DigitsAreDigits(data);
    RoundTrip(data);
    var s := UrlEncode(data);
    assert Map(FromUrl, Padded(s)) == Encode(data);
  }

  /** The strict reader accepts a string exactly when it is the encoding of the non-empty bytes it returns
      (section 3.5 of RFC 4648). */
  lemma StrictReadsOnlyEncodings(s: string, raw: Bytes)
    ensures UrlDecodeStrict(s) == Some(raw) <==> raw != [] && UrlEncode(raw) == s
  {
    UrlEncodeIsDigits(raw);
    DigitsAreDigits(raw);
    UrlRoundTrip(raw);
    if raw != [] && UrlEncode(raw) == s {
      forall i | 0 <= i < |s|
        ensures IsUrlChar(s[i])
      {
        assert IsDigit(Digits(raw)[i]);
      }
    }
  }

  /** So no two strings read as the same bytes, and no string as two. */
  lemma StrictIsInjective(s1: string, s2: string)
    requires UrlDecodeStrict(s1).Some? && UrlDecodeStrict(s1) == UrlDecodeStrict(s2)
    ensures s1 == s2
  {
    StrictReadsOnlyEncodings(s1, UrlDecodeStrict(s1).value);
    StrictReadsOnlyEncodings(s2, UrlDecodeStrict(s1).value);
  }

  /** Without the comparison there are second spellings: stray bits in the last digit are dropped. */
  lemma LenientReaderHasSecondSpellings()
    ensures UrlDecode("QQ") == UrlDecode("QR") == Some([65])
    ensures UrlDecodeStrict("QR") == None
  {
    SpellingOf65(16);
    SpellingOf65(17);
    UrlEncodeIsDigits([65]);
    assert Map(ToUrl, Digits([65])) == "QQ";
  }

  lemma SpellingOf65(v: Sextet)
    requires v == 16 || v == 17
    ensures UrlDecode(['Q', Digit(v)]) == Some([65])
  {
    assert Pads(2) == "==";
    assert Map(FromUrl, ['Q', Digit(v)] + "==") == [Digit(16), Digit(v)] + "==";
    ScanTwoDigits(16, v);
  }
}
