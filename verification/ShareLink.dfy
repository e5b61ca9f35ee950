/**
 Share links of client-shared.js: base64url (section 5 of RFC 4648) without padding, the link
 built from an id and a key, and the parser that takes the fragment apart again. `btoa` and
 `atob` are the browser's standard base64 (section 4 of RFC 4648).
 */
module ShareLink {
  import opened Words
  import opened Types

  const ID_SIZE: nat := 16
  const KEY_SIZE: nat := 32

  // ---------- the alphabet ----------

  /** The standard digit for a 6-bit value. */
  function Digit(v: nat): (c: char)
    requires v < 64
    ensures IsStd(c)
  {
    if v < 26 then (65 + v) as char
    else if v < 52 then (97 + v - 26) as char
    else if v < 62 then (48 + v - 52) as char
    else if v == 62 then '+' else '/'
  }

  predicate IsStd(c: char) {
    'A' <= c <= 'Z' || 'a' <= c <= 'z' || '0' <= c <= '9' || c == '+' || c == '/'
  }

  function ValueOf(c: char): (v: nat)
    requires IsStd(c)
    ensures v < 64
  {
    if 'A' <= c <= 'Z' then c as int - 65
    else if 'a' <= c <= 'z' then c as int - 97 + 26
    else if '0' <= c <= '9' then c as int - 48 + 52
    else if c == '+' then 62 else 63
  }

  lemma DigitRoundTrip(v: nat)
    requires v < 64
    ensures ValueOf(Digit(v)) == v
  {
  }

  function ToUrl(c: char): char {
    if c == '+' then '-' else if c == '/' then '_' else c
  }

  function FromUrl(c: char): char {
    if c == '-' then '+' else if c == '_' then '/' else c
  }

  predicate IsUrlSafe(c: char) {
    'A' <= c <= 'Z' || 'a' <= c <= 'z' || '0' <= c <= '9' || c == '-' || c == '_'
  }

  /** The alphabet of section 5 of RFC 4648: capitals, small letters, digits, and '-' for 62, '_' for 63. */
  function UrlLetter(v: nat): char
    requires v < 64
  {
    if v < 26 then 'A' + v as char
    else if v < 52 then 'a' + (v - 26) as char
    else if v < 62 then '0' + (v - 52) as char
    else if v == 62 then '-' else '_'
  }

  lemma UrlDigit(v: nat)
    requires v < 64
    ensures ToUrl(Digit(v)) == UrlLetter(v)
  {
  }

  function Map(f: char -> char, s: string): (r: string)
    ensures |r| == |s| && forall i :: 0 <= i < |s| ==> r[i] == f(s[i])
  {
    seq(|s|, i requires 0 <= i < |s| => f(s[i]))
  }

  // ---------- btoa and atob ----------

  /** The four sixes of three bytes. */
  function Six0(a: byte): (v: nat)
    ensures v < 64
  {
    a / 4
  }

  function Six1(a: byte, b: byte): (v: nat)
    ensures v < 64
  {
    a % 4 * 16 + b / 16
  }

  function Six2(b: byte, c: byte): (v: nat)
    ensures v < 64
  {
    b % 16 * 4 + c / 64
  }

  function Six3(c: byte): (v: nat)
    ensures v < 64
  {
    c % 64
  }

  /** The three bytes of four sixes. */
  function Byte0(v0: nat, v1: nat): byte
    requires v0 < 64 && v1 < 64
  {
    v0 * 4 + v1 / 16
  }

  function Byte1(v1: nat, v2: nat): byte
    requires v1 < 64 && v2 < 64
  {
    v1 % 16 * 16 + v2 / 4
  }

  function Byte2(v2: nat, v3: nat): byte
    requires v2 < 64 && v3 < 64
  {
    v2 % 4 * 64 + v3
  }

  /** Splitting 24 bits into four sixes and joining them again. */
  lemma Bits(a: byte, b: byte, c: byte)
    ensures Byte0(Six0(a), Six1(a, b)) == a && Byte1(Six1(a, b), Six2(b, c)) == b && Byte2(Six2(b, c), Six3(c)) == c
  {
    var a1, a0, b1, b0, c1, c0 := a / 4, a % 4, b / 16, b % 16, c / 64, c % 64;
    assert a == 4 * a1 + a0 && b == 16 * b1 + b0 && c == 64 * c1 + c0;
    ModUnique(16 * a0 + b1, 16, a0, b1);
    ModUnique(4 * b0 + c1, 4, b0, c1);
  }

  /** Standard base64 digits without padding. */
  function Digits(bytes: seq<byte>): (s: string)
    ensures forall i :: 0 <= i < |s| ==> IsStd(s[i])
    ensures |s| == 4 * (|bytes| / 3) + (if |bytes| % 3 == 0 then 0 else |bytes| % 3 + 1)
  {
    if bytes == [] then []
    else if |bytes| == 1 then [Digit(Six0(bytes[0])), Digit(Six1(bytes[0], 0))]
    else if |bytes| == 2 then
      [Digit(Six0(bytes[0])), Digit(Six1(bytes[0], bytes[1])), Digit(Six2(bytes[1], 0))]
    else
      [Digit(Six0(bytes[0])), Digit(Six1(bytes[0], bytes[1])),
       Digit(Six2(bytes[1], bytes[2])), Digit(Six3(bytes[2]))] + Digits(bytes[3..])
  }

  /** `n` padding characters. */
  function Pads(n: nat): (s: string)
    ensures |s| == n && forall i :: 0 <= i < n ==> s[i] == '='
  {
    seq(n, _ => '=')
  }

  function Btoa(bytes: seq<byte>): string {
    Digits(bytes) + Pads(if |bytes| % 3 == 0 then 0 else 3 - |bytes| % 3)
  }

  /** Decodes digits in groups of four; a lone digit or a foreign character is an error. */
  function Undigits(s: string): Option<seq<byte>> {
    if exists i :: 0 <= i < |s| && !IsStd(s[i]) then None
    else if |s| % 4 == 1 then None
    else Some(Groups(s))
  }

  function Groups(s: string): seq<byte>
    requires forall i :: 0 <= i < |s| ==> IsStd(s[i])
  {
    if |s| < 2 then []
    else
      var v0, v1 := ValueOf(s[0]), ValueOf(s[1]);
      if |s| == 2 then [Byte0(v0, v1)]
      else
        var v2 := ValueOf(s[2]);
        if |s| == 3 then [Byte0(v0, v1), Byte1(v1, v2)]
        else
          var v3 := ValueOf(s[3]);
          [Byte0(v0, v1), Byte1(v1, v2), Byte2(v2, v3)] + Groups(s[4..])
  }

  /** Drops one trailing padding character. */
  function DropPad(s: string): string {
    if s != [] && s[|s| - 1] == '=' then s[..|s| - 1] else s
  }

  predicate IsAsciiSpace(c: char) {
    c as int in {0x09, 0x0A, 0x0C, 0x0D, 0x20}
  }

  /** `atob` skips white space wherever it stands. */
  function NoSpace(s: string): string {
    if s == [] then [] else (if IsAsciiSpace(s[0]) then [] else [s[0]]) + NoSpace(s[1..])
  }

  function Atob(s: string): Option<seq<byte>> {
    var t := NoSpace(s);
    Undigits(if |t| % 4 == 0 then DropPad(DropPad(t)) else t)
  }

  /** Digits decode to the bytes they came from. */
  lemma {:induction false} GroupsOfDigits(bytes: seq<byte>)
    ensures Groups(Digits(bytes)) == bytes
  {
    if |bytes| >= 3 {
      hide *;
      GroupsOfDigits(bytes[3..]);
      GroupOfMany(bytes);
      assert bytes == bytes[..3] + bytes[3..];
    } else if |bytes| == 2 {
      hide *;
      GroupOfTwo(bytes);
    } else if |bytes| == 1 {
      hide *;
      GroupOfOne(bytes);
    }
  }

  lemma {:induction false} GroupOfMany(bytes: seq<byte>)
    requires |bytes| >= 3
    ensures Groups(Digits(bytes)) == bytes[..3] + Groups(Digits(bytes[3..]))
  {
    hide Digit, ValueOf, IsStd, Groups, Digits, Six0, Six1, Six2, Six3, Byte0, Byte1, Byte2;
    var a, b, c := bytes[0], bytes[1], bytes[2];
    Bits(a, b, c);
    DigitsOfMany(bytes);
    GroupOfFour(Six0(a), Six1(a, b), Six2(b, c), Six3(c), Digits(bytes[3..]));
    assert bytes[..3] == [a, b, c];
  }

  lemma {:induction false} DigitsOfMany(bytes: seq<byte>)
    requires |bytes| >= 3
    ensures Digits(bytes) == [Digit(Six0(bytes[0])), Digit(Six1(bytes[0], bytes[1])),
                              Digit(Six2(bytes[1], bytes[2])), Digit(Six3(bytes[2]))] + Digits(bytes[3..])
  {
    hide Digit, Six0, Six1, Six2, Six3, IsStd;
  }

  lemma {:induction false} GroupOfFour(v0: nat, v1: nat, v2: nat, v3: nat, t: string)
    requires v0 < 64 && v1 < 64 && v2 < 64 && v3 < 64 && forall i :: 0 <= i < |t| ==> IsStd(t[i])
    ensures Groups([Digit(v0), Digit(v1), Digit(v2), Digit(v3)] + t)
         == [Byte0(v0, v1), Byte1(v1, v2), Byte2(v2, v3)] + Groups(t)
  {
    hide Digit, ValueOf, IsStd, Byte0, Byte1, Byte2;
    DigitRoundTrip(v0);
    DigitRoundTrip(v1);
    DigitRoundTrip(v2);
    DigitRoundTrip(v3);
    var s := [Digit(v0), Digit(v1), Digit(v2), Digit(v3)] + t;
    assert s[4..] == t;
  }

  lemma {:induction false} GroupOfTwo(bytes: seq<byte>)
    requires |bytes| == 2
    ensures Groups(Digits(bytes)) == bytes
  {
    hide Digit, ValueOf, IsStd, Six0, Six1, Six2, Six3, Byte0, Byte1, Byte2;
    DigitRoundTrip(Six0(bytes[0]));
    DigitRoundTrip(Six1(bytes[0], bytes[1]));
    DigitRoundTrip(Six2(bytes[1], 0));
    Bits(bytes[0], bytes[1], 0);
    assert bytes == [bytes[0], bytes[1]];
  }

  lemma {:induction false} GroupOfOne(bytes: seq<byte>)
    requires |bytes| == 1
    ensures Groups(Digits(bytes)) == bytes
  {
    hide Digit, ValueOf, IsStd, Six0, Six1, Six2, Six3, Byte0, Byte1, Byte2;
    DigitRoundTrip(Six0(bytes[0]));
    DigitRoundTrip(Six1(bytes[0], 0));
    Bits(bytes[0], 0, 0);
    assert bytes == [bytes[0]];
  }

  // ---------- base64url ----------

  /** `replace(/=+$/, '')`. */
  function StripPads(s: string): string {
    if s != [] && s[|s| - 1] == '=' then StripPads(s[..|s| - 1]) else s
  }

  function Encode(bytes: seq<byte>): string {
    StripPads(Map(ToUrl, Btoa(bytes)))
  }

  function Decode(s: string): Option<seq<byte>> {
    var normalized := Map(FromUrl, s);
    var pad := |normalized| % 4;
    Atob(normalized + Pads(if pad != 0 then 4 - pad else 0))
  }

  lemma {:induction false} StripsPads(d: string, n: nat)
    requires d == [] || d[|d| - 1] != '='
    ensures StripPads(d + Pads(n)) == d
  {
    var s := d + Pads(n);
    if n > 0 {
      assert s[..|s| - 1] == d + Pads(n - 1);
      StripsPads(d, n - 1);
    } else {
      assert s == d;
    }
  }

  lemma MapKeepsPads(f: char -> char, d: string, p: string)
    requires forall i :: 0 <= i < |p| ==> f(p[i]) == p[i]
    ensures Map(f, d + p) == Map(f, d) + p
  {
  }

  /** The encoding is the standard digits with the two special ones exchanged, and no padding. */
  lemma EncodeIs(bytes: seq<byte>)
    ensures Encode(bytes) == Map(ToUrl, Digits(bytes))
    ensures forall i :: 0 <= i < |Encode(bytes)| ==> IsUrlSafe(Encode(bytes)[i])
  {
    hide Digits, StripPads, Map, Pads;
    var d, n := Digits(bytes), if |bytes| % 3 == 0 then 0 else 3 - |bytes| % 3;
    MapKeepsPads(ToUrl, d, Pads(n));
    StripsPads(Map(ToUrl, d), n);
  }

  /** Byte `i`, zero behind the end. */
  function ByteAt(bytes: seq<byte>, i: nat): byte {
    if i < |bytes| then bytes[i] else 0
  }

  /** The 24 bits of group `k`. */
  function GroupBits(bytes: seq<byte>, k: nat): nat {
    65536 * ByteAt(bytes, 3 * k) + 256 * ByteAt(bytes, 3 * k + 1) + ByteAt(bytes, 3 * k + 2)
  }

  /** The `j`-th six of 24 bits, highest first. */
  function Six(n: nat, j: nat): nat {
    match j
    case 0 => n / 262144 % 64
    case 1 => n / 4096 % 64
    case 2 => n / 64 % 64
    case _ => n % 64
  }

  lemma Sixes(a: byte, b: byte, c: byte)
    ensures var n := 65536 * a + 256 * b + c;
            Six(n, 0) == Six0(a) && Six(n, 1) == Six1(a, b) && Six(n, 2) == Six2(b, c) && Six(n, 3) == Six3(c)
  {
    hide Six;
    var n := 65536 * a + 256 * b + c;
    var a1, a0, b1, b0, c1, c0 := a / 4, a % 4, b / 16, b % 16, c / 64, c % 64;
    assert a == 4 * a1 + a0 && b == 16 * b1 + b0 && c == 64 * c1 + c0;
    ModUnique(n, 262144, a1, 65536 * a0 + 256 * b + c);
    ModUnique(a1, 64, 0, a1);
    ModUnique(n, 4096, 64 * a1 + (16 * a0 + b1), 256 * b0 + c);
    ModUnique(64 * a1 + (16 * a0 + b1), 64, a1, 16 * a0 + b1);
    ModUnique(n, 64, 64 * (16 * a + b1) + (4 * b0 + c1), c0);
    ModUnique(64 * (16 * a + b1) + (4 * b0 + c1), 64, 16 * a + b1, 4 * b0 + c1);
    SixIs(n);
  }

  lemma SixIs(n: nat)
    ensures Six(n, 0) == n / 262144 % 64 && Six(n, 1) == n / 4096 % 64
    ensures Six(n, 2) == n / 64 % 64 && Six(n, 3) == n % 64
  {
  }

  /** The encoding, digit by digit: the bytes are read as one row of bits, and every six of them, zeros added
      at the end, name a letter of the alphabet. */
  lemma EncodedDigit(bytes: seq<byte>, k: nat, j: nat)
    requires j < 4 && 4 * k + j < |Encode(bytes)|
    ensures Six(GroupBits(bytes, k), j) < 64
    ensures Encode(bytes)[4 * k + j] == UrlLetter(Six(GroupBits(bytes, k), j))
  {
    hide Encode, Digits, Map, Digit, ToUrl, UrlLetter, Six;
    EncodeIs(bytes);
    DigitsFrom(bytes, k);
    var rest := bytes[3 * k..];
    assert Digits(bytes)[4 * k + j] == Digits(rest)[j];
    FirstDigits(rest, j);
    assert GroupBits(bytes, k) == GroupBits(rest, 0);
    UrlDigit(Six(GroupBits(rest, 0), j));
  }

  lemma {:induction false} DigitsFrom(bytes: seq<byte>, k: nat)
    requires 4 * k < |Digits(bytes)|
    ensures 3 * k < |bytes| && Digits(bytes)[4 * k..] == Digits(bytes[3 * k..])
  {
    hide Digit;
    if k > 0 {
      assert |bytes| >= 3;
      var d, rest := Digits(bytes), bytes[3..];
      assert d[4..] == Digits(rest);
      DigitsFrom(rest, k - 1);
      assert d[4..][4 * k - 4..] == d[4 * k..] && rest[3 * k - 3..] == bytes[3 * k..];
    } else {
      assert bytes[0..] == bytes;
    }
  }

  lemma FirstDigits(bytes: seq<byte>, j: nat)
    requires j < 4 && j < |Digits(bytes)|
    ensures Six(GroupBits(bytes, 0), j) < 64 && Digits(bytes)[j] == Digit(Six(GroupBits(bytes, 0), j))
  {
    hide Digit, Six, Digits, Six0, Six1, Six2, Six3;
    var a, b, c := ByteAt(bytes, 0), ByteAt(bytes, 1), ByteAt(bytes, 2);
    Sixes(a, b, c);
    DigitsStart(bytes);
  }

  lemma {:induction false} DigitsStart(bytes: seq<byte>)
    ensures var a, b, c := ByteAt(bytes, 0), ByteAt(bytes, 1), ByteAt(bytes, 2);
            && (|Digits(bytes)| > 0 ==> Digits(bytes)[0] == Digit(Six0(a)))
            && (|Digits(bytes)| > 1 ==> Digits(bytes)[1] == Digit(Six1(a, b)))
            && (|Digits(bytes)| > 2 ==> Digits(bytes)[2] == Digit(Six2(b, c)))
            && (|Digits(bytes)| > 3 ==> Digits(bytes)[3] == Digit(Six3(c)))
  {
    hide Digit, Six0, Six1, Six2, Six3;
  }

  lemma DropsPad(d: string, n: nat)
    requires n > 0
    ensures DropPad(d + Pads(n)) == d + Pads(n - 1)
  {
    var s := d + Pads(n);
    assert s[..|s| - 1] == d + Pads(n - 1);
  }

  lemma DropsNothing(d: string)
    requires d == [] || d[|d| - 1] != '='
    ensures DropPad(d + Pads(0)) == d && DropPad(d) == d
  {
    assert d + Pads(0) == d;
  }

  lemma {:induction false} NothingToSkip(s: string)
    requires forall i :: 0 <= i < |s| ==> !IsAsciiSpace(s[i])
    ensures NoSpace(s) == s
  {
    hide IsAsciiSpace;
    if s != [] {
      NothingToSkip(s[1..]);
    }
  }

  /** White space anywhere in the text does not change what `atob` yields. */
  lemma SpaceIsSkipped(a: string, w: string, b: string)
    requires forall i :: 0 <= i < |w| ==> IsAsciiSpace(w[i])
    ensures Atob(a + w + b) == Atob(a + b)
  {
    hide IsAsciiSpace, Undigits, NoSpace;
    NoSpaceAdds(a + w, b);
    NoSpaceAdds(a, w);
    NoSpaceAdds(a, b);
    AllSkipped(w);
    assert NoSpace(a + w + b) == NoSpace(a + b);
  }

  lemma {:induction false} NoSpaceAdds(a: string, b: string)
    ensures NoSpace(a + b) == NoSpace(a) + NoSpace(b)
  {
    hide IsAsciiSpace;
    if a == [] {
      assert a + b == b;
    } else {
      NoSpaceAdds(a[1..], b);
      assert (a + b)[1..] == a[1..] + b;
      var head := if IsAsciiSpace(a[0]) then [] else [a[0]];
      assert head + (NoSpace(a[1..]) + NoSpace(b)) == head + NoSpace(a[1..]) + NoSpace(b);
    }
  }

  lemma {:induction false} AllSkipped(w: string)
    requires forall i :: 0 <= i < |w| ==> IsAsciiSpace(w[i])
    ensures NoSpace(w) == []
  {
    hide IsAsciiSpace;
    if w != [] {
      AllSkipped(w[1..]);
    }
  }

  lemma AtobOfPadded(d: string)
    requires (forall i :: 0 <= i < |d| ==> IsStd(d[i])) && |d| % 4 != 1
    ensures Atob(d + Pads(if |d| % 4 != 0 then 4 - |d| % 4 else 0)) == Some(Groups(d))
  {
    hide Groups, DropPad, Pads, Undigits, NoSpace;
    NothingToSkip(d + Pads(if |d| % 4 != 0 then 4 - |d| % 4 else 0));
    var n := if |d| % 4 != 0 then 4 - |d| % 4 else 0;
    PaddedLength(|d|);
    UndigitsOk(d);
    DropsNothing(d);
    assert n <= 2;
    if n == 2 {
      DropsPad(d, 2);
      DropsPad(d, 1);
      assert d + Pads(0) == d;
    } else if n == 1 {
      DropsPad(d, 1);
      assert d + Pads(0) == d;
    }
  }

  lemma PaddedLength(n: nat)
    ensures (n + if n % 4 != 0 then 4 - n % 4 else 0) % 4 == 0
  {
  }

  lemma UndigitsOk(d: string)
    requires (forall i :: 0 <= i < |d| ==> IsStd(d[i])) && |d| % 4 != 1
    ensures Undigits(d) == Some(Groups(d))
  {
  }

  lemma UrlRoundTrip(d: string)
    requires forall i :: 0 <= i < |d| ==> IsStd(d[i])
    ensures Map(FromUrl, Map(ToUrl, d)) == d
  {
  }

  /** Decoding an encoding gives back the bytes, for every byte sequence. */
  lemma DecodeEncode(bytes: seq<byte>)
    ensures Decode(Encode(bytes)) == Some(bytes)
  {
    hide Digits, Groups, Encode, Atob, Map;
    EncodeIs(bytes);
    UrlRoundTrip(Digits(bytes));
    AtobOfPadded(Digits(bytes));
    GroupsOfDigits(bytes);
  }

  /** A digit of either alphabet. */
  predicate IsDigit(c: char) {
    IsStd(c) || IsUrlSafe(c)
  }

  /** Text without white space and padding decodes exactly when it has only digits and no lone one is left
      over. */
  lemma DecodeIff(s: string)
    requires forall i :: 0 <= i < |s| ==> s[i] != '=' && !IsAsciiSpace(s[i])
    ensures Decode(s).Some? <==> (forall i :: 0 <= i < |s| ==> IsDigit(s[i])) && |s| % 4 != 1
  {
    hide Atob, IsStd, IsDigit, IsAsciiSpace, FromUrl;
    var d := Map(FromUrl, s);
    forall i | 0 <= i < |s|
      ensures (IsStd(d[i]) <==> IsDigit(s[i])) && d[i] != '=' && !IsAsciiSpace(d[i])
    {
      StandardDigit(s[i]);
    }
    AtobIff(d);
  }

  lemma StandardDigit(c: char)
    requires c != '=' && !IsAsciiSpace(c)
    ensures (IsStd(FromUrl(c)) <==> IsDigit(c)) && FromUrl(c) != '=' && !IsAsciiSpace(FromUrl(c))
  {
  }

  lemma AtobIff(d: string)
    requires forall i :: 0 <= i < |d| ==> d[i] != '=' && !IsAsciiSpace(d[i])
    ensures Atob(d + Pads(if |d| % 4 != 0 then 4 - |d| % 4 else 0)).Some?
       <==> (forall i :: 0 <= i < |d| ==> IsStd(d[i])) && |d| % 4 != 1
  {
    hide DropPad, Pads, NoSpace, Groups, IsStd, IsAsciiSpace;
    var n := if |d| % 4 != 0 then 4 - |d| % 4 else 0;
    PadIsNoSpace();
    NothingToSkip(d + Pads(n));
    PaddedLength(|d|);
    DropsNothing(d);
    if n >= 2 {
      DropsPad(d, n);
      DropsPad(d, n - 1);
    } else if n == 1 {
      DropsPad(d, 1);
    }
    assert d + Pads(0) == d;
    if n == 3 {
      PadIsNoDigit();
      assert (d + Pads(1))[|d|] == '=';
    }
  }

  lemma PadIsNoSpace()
    ensures !IsAsciiSpace('=')
  {
  }

  lemma PadIsNoDigit()
    ensures !IsStd('=')
  {
  }

  lemma SixesOfBytes(v0: nat, v1: nat, v2: nat, v3: nat)
    requires v0 < 64 && v1 < 64 && v2 < 64 && v3 < 64
    ensures var a, b, c := Byte0(v0, v1), Byte1(v1, v2), Byte2(v2, v3);
            Six0(a) == v0 && Six1(a, b) == v1 && Six2(b, c) == v2 && Six3(c) == v3
  {
    var h1, l1, h2, l2 := v1 / 16, v1 % 16, v2 / 4, v2 % 4;
    assert v1 == 16 * h1 + l1 && v2 == 4 * h2 + l2;
    ModUnique(4 * v0 + h1, 4, v0, h1);
    ModUnique(16 * l1 + h2, 16, l1, h2);
    ModUnique(64 * l2 + v3, 64, l2, v3);
  }

  lemma ValueRoundTrip(c: char)
    requires IsStd(c)
    ensures Digit(ValueOf(c)) == c
  {
  }

  lemma {:induction false} DigitsOfGroups(d: string)
    requires (forall i :: 0 <= i < |d| ==> IsStd(d[i])) && |d| % 4 == 0
    ensures Digits(Groups(d)) == d && 4 * |Groups(d)| == 3 * |d|
  {
    if d != [] {
      DigitsOfGroups(d[4..]);
      FourDigits(d);
    }
  }

  lemma {:induction false} FourDigits(d: string)
    requires (forall i :: 0 <= i < |d| ==> IsStd(d[i])) && |d| >= 4
    ensures Digits(Groups(d)) == d[..4] + Digits(Groups(d[4..])) && |Groups(d)| == 3 + |Groups(d[4..])|
  {
    hide Digit, ValueOf, IsStd, Digits, Six0, Six1, Six2, Six3, Byte0, Byte1, Byte2;
    var v0, v1, v2, v3 := ValueOf(d[0]), ValueOf(d[1]), ValueOf(d[2]), ValueOf(d[3]);
    var g, rest := Groups(d), Groups(d[4..]);
    assert g == [Byte0(v0, v1), Byte1(v1, v2), Byte2(v2, v3)] + rest;
    assert g[3..] == rest;
    hide Groups;
    SixesOfBytes(v0, v1, v2, v3);
    DigitsOfMany(g);
    ValueRoundTrip(d[0]);
    ValueRoundTrip(d[1]);
    ValueRoundTrip(d[2]);
    ValueRoundTrip(d[3]);
    assert d[..4] == [d[0], d[1], d[2], d[3]];
  }

  /** Text of whole groups is the encoding of what it decodes to. */
  lemma EncodeDecode(s: string)
    requires AllSafe(s) && |s| % 4 == 0
    ensures Decode(s).Some? && Encode(Decode(s).value) == s && 4 * |Decode(s).value| == 3 * |s|
  {
    hide Digits, Groups, Encode, Atob;
    var d := Map(FromUrl, s);
    assert d + Pads(0) == d && Map(ToUrl, d) == s;
    AtobOfPadded(d);
    DigitsOfGroups(d);
    EncodeIs(Groups(d));
  }

  /** The character codes of a binary string. */
  predicate IsBinary(bin: string) {
    forall i :: 0 <= i < |bin| ==> bin[i] as int < 256
  }

  function Codes(bin: string): (bytes: seq<byte>)
    requires IsBinary(bin)
    ensures |bytes| == |bin| && forall i :: 0 <= i < |bin| ==> bytes[i] == bin[i] as int
  {
    seq(|bin|, i requires 0 <= i < |bin| => bin[i] as int)
  }

  function Chars(bytes: seq<byte>): (bin: string)
    ensures IsBinary(bin) && Codes(bin) == bytes
  {
    seq(|bytes|, i requires 0 <= i < |bytes| => bytes[i] as char)
  }

  /** `base64UrlEncode`: the bytes become a binary string, character by character. */
  method Base64UrlEncode(bytes: seq<byte>) returns (s: string)
    ensures s == Encode(bytes)
  {
    hide Btoa, StripPads;
    var bin := "";
    while |bin| < |bytes|
      invariant |bin| <= |bytes| && IsBinary(bin) && Codes(bin) == bytes[..|bin|]
    {
      bin := bin + [bytes[|bin|] as char];
    }
    assert Codes(bin) == bytes;
    s := StripPads(Map(ToUrl, Btoa(Codes(bin))));
  }

  /** `base64UrlDecode`: the binary string `atob` yields is copied into a byte array. */
  method Base64UrlDecode(str: string) returns (r: Option<seq<byte>>)
    ensures r == Decode(str)
  {
    hide Atob, Map, Pads;
    var normalized := Map(FromUrl, str);
    var pad := |normalized| % 4;
    var decoded := Atob(normalized + Pads(if pad != 0 then 4 - pad else 0));
    if decoded.None? {
      return None;
    }
    var bin := Chars(decoded.value);
    var out := new byte[|bin|](_ => 0);
    var i := 0;
    while i < |bin|
      invariant 0 <= i <= |bin| && out[..i] == Codes(bin)[..i]
    {
      out[i] := bin[i] as int;
      i := i + 1;
    }
    assert out[..] == out[..i] == decoded.value;
    r := Some(out[..]);
  }

  // ---------- links ----------

  /** `replace(/\/+$/, '')`. */
  function NormalizeOrigin(origin: string): string {
    if origin != [] && origin[|origin| - 1] == '/' then NormalizeOrigin(origin[..|origin| - 1]) else origin
  }

  function MakeLink(origin: string, id: seq<byte>, key: seq<byte>): string {
    NormalizeOrigin(origin) + "/receive#" + Encode(id) + "/" + Encode(key)
  }

  /** What the send page shows: a link only for an id and a key of the right lengths. */
  function LinkFor(origin: string, id: string, bK: string): Option<string> {
    if origin == "" || id == "" || bK == "" then None
    else
      match (Decode(bK), Decode(id))
      case (Some(keyBytes), Some(idBytes)) =>
        if |keyBytes| == KEY_SIZE && |idBytes| == ID_SIZE then Some(MakeLink(origin, idBytes, keyBytes)) else None
      case _ => None
  }

  /** The part of the page state `setLink` writes. */
  class LinkState {
    var id: Option<string>
    var bK: Option<string>
    var link: Option<string>

    constructor ()
      ensures id == bK == link == None
    {
      id, bK, link := None, None, None;
    }

    /** Either all three fields belong to the link that was built, or all three are cleared. */
    method SetLink(origin: string, id: string, bK: string)
      modifies this
      ensures link == LinkFor(origin, id, bK)
      ensures link.Some? ==> Decode(id).Some? && this.id == Some(Encode(Decode(id).value))
      ensures link.Some? ==> Decode(bK).Some? && this.bK == Some(Encode(Decode(bK).value))
      ensures link.None? ==> this.id == None && this.bK == None
    {
      hide Decode, Encode, NormalizeOrigin;
      if origin == "" || id == "" || bK == "" {
        Reset();
        return;
      }
      var keyBytes := Base64UrlDecode(bK);
      if keyBytes.None? || |keyBytes.value| != KEY_SIZE {
        Reset();
        return;
      }
      var idBytes := Base64UrlDecode(id);
      if idBytes.None? || |idBytes.value| != ID_SIZE {
        Reset();
        return;
      }
      var keyText := Base64UrlEncode(keyBytes.value);
      var idText := Base64UrlEncode(idBytes.value);
      link := Some(NormalizeOrigin(origin) + "/receive#" + idText + "/" + keyText);
      this.id := Some(idText);
      this.bK := Some(keyText);
    }

    method Reset()
      modifies this
      ensures id == bK == link == None
    {
      id, bK, link := None, None, None;
    }
  }

  /** White space and line ends as `trim` knows them. */
  predicate IsSpace(c: char) {
    var n := c as int;
    || 0x09 <= n <= 0x0D || n in {0x20, 0xA0, 0x1680, 0x2028, 0x2029, 0x202F, 0x205F, 0x3000, 0xFEFF}
    || 0x2000 <= n <= 0x200A
  }

  function TrimEnd(s: string): string {
    if s != [] && IsSpace(s[|s| - 1]) then TrimEnd(s[..|s| - 1]) else s
  }

  function TrimStart(s: string): string {
    if s != [] && IsSpace(s[0]) then TrimStart(s[1..]) else s
  }

  function Trim(s: string): string {
    TrimEnd(TrimStart(s))
  }

  ghost predicate Blank(s: string) {
    forall i :: 0 <= i < |s| ==> IsSpace(s[i])
  }

  /** Trimming takes away the white space at both ends and nothing else. */
  lemma TrimIs(s: string) returns (i: nat, j: nat)
    ensures i <= j <= |s| && Trim(s) == s[i..j] && Blank(s[..i]) && Blank(s[j..])
    ensures i < j ==> !IsSpace(s[i]) && !IsSpace(s[j - 1])
  {
    hide IsSpace;
    i := TrimStartIs(s);
    var n := TrimEndIs(s[i..]);
    j := i + n;
    assert s[i..][..n] == s[i..j] && s[i..][n..] == s[j..];
    if i < j {
      assert s[i..][0] == s[i] && s[i..][n - 1] == s[j - 1];
    }
  }

  lemma {:induction false} TrimStartIs(s: string) returns (k: nat)
    ensures k <= |s| && TrimStart(s) == s[k..] && Blank(s[..k]) && (k < |s| ==> !IsSpace(s[k]))
  {
    hide IsSpace;
    k := 0;
    if s != [] && IsSpace(s[0]) {
      k := TrimStartIs(s[1..]);
      assert s[1..][k..] == s[k + 1..] && s[..k + 1] == [s[0]] + s[1..][..k];
      k := k + 1;
    }
  }

  lemma {:induction false} TrimEndIs(s: string) returns (n: nat)
    ensures n <= |s| && TrimEnd(s) == s[..n] && Blank(s[n..]) && (n > 0 ==> !IsSpace(s[n - 1]))
  {
    hide IsSpace;
    n := |s|;
    if s != [] && IsSpace(s[|s| - 1]) {
      var t := s[..|s| - 1];
      n := TrimEndIs(t);
      assert t[..n] == s[..n] && s[n..] == t[n..] + [s[|s| - 1]];
    }
  }

  /** The text behind the first `c`, or all of it when there is none. */
  function After(s: string, c: char): string {
    if c !in s then s else if s[0] == c then s[1..] else After(s[1..], c)
  }

  function DropSlashes(s: string): string {
    if s != [] && s[0] == '/' then DropSlashes(s[1..]) else s
  }

  function Split(s: string, c: char): (parts: seq<string>)
    ensures parts != []
  {
    if s == [] then [""]
    else if s[0] == c then [""] + Split(s[1..], c)
    else var rest := Split(s[1..], c); [[s[0]] + rest[0]] + rest[1..]
  }

  datatype LinkInfo = LinkInfo(id: string, bK: string)

  /** `parseLocationHash`; `urlHash` is the hash part when the browser can parse the text as a URL. */
  function ParseLocationHash(input: string, urlHash: Option<string>): Option<LinkInfo> {
    if input == "" then None
    else
      var raw := if urlHash.Some? then urlHash.value else Trim(input);
      var noHash := if raw != [] && raw[0] == '#' then raw[1..] else raw;
      var parts := Split(DropSlashes(After(noHash, '#')), '/');
      if |parts| != 2 then None
      else
        var idPart, keyPart := Trim(parts[0]), Trim(parts[1]);
        if idPart == "" || keyPart == "" || |idPart| < 16 || !AllSafe(idPart) then None
        else Some(LinkInfo(idPart, keyPart))
  }

  predicate AllSafe(s: string) {
    forall i :: 0 <= i < |s| ==> IsUrlSafe(s[i])
  }

  lemma TrimSafe(s: string)
    requires AllSafe(s)
    ensures Trim(s) == s
  {
  }

  lemma {:induction false} SplitPlain(s: string)
    requires '/' !in s
    ensures Split(s, '/') == [s]
  {
    if s != [] {
      assert '/' !in s[1..] && s[0] in s;
      SplitPlain(s[1..]);
      assert [s[0]] + s[1..] == s;
    }
  }

  /** Two texts with a slash between them, and no other, split into just these two. */
  lemma {:induction false} SplitPair(a: string, b: string)
    requires '/' !in a && '/' !in b
    ensures Split(a + "/" + b, '/') == [a, b]
  {
    var s := a + "/" + b;
    if a == [] {
      assert s[1..] == b;
      SplitPlain(b);
    } else {
      assert '/' !in a[1..] && a[0] in a;
      SplitPair(a[1..], b);
      assert s[1..] == a[1..] + "/" + b;
      assert [a[0]] + a[1..] == a;
    }
  }

  /** The parts put together again. */
  function Joined(parts: seq<string>): string
    requires parts != []
  {
    if |parts| == 1 then parts[0] else parts[0] + "/" + Joined(parts[1..])
  }

  lemma {:induction false} SplitJoins(s: string)
    ensures Joined(Split(s, '/')) == s
    ensures forall i :: 0 <= i < |Split(s, '/')| ==> '/' !in Split(s, '/')[i]
  {
    if s != [] {
      SplitJoins(s[1..]);
      var rest := Split(s[1..], '/');
      assert s == [s[0]] + s[1..];
      if s[0] == '/' {
        assert Split(s, '/')[1..] == rest;
      } else {
        var parts := [[s[0]] + rest[0]] + rest[1..];
        assert parts[1..] == rest[1..];
        if |rest| > 1 {
          assert [s[0]] + (rest[0] + "/" + Joined(rest[1..])) == ([s[0]] + rest[0]) + "/" + Joined(rest[1..]);
        }
      }
    }
  }

  /** Leading slashes are dropped, nothing else. */
  lemma {:induction false} DropSlashesIs(s: string) returns (k: nat)
    ensures k <= |s| && DropSlashes(s) == s[k..] && forall i :: 0 <= i < k ==> s[i] == '/'
    ensures k == |s| || s[k] != '/'
  {
    if s != [] && s[0] == '/' {
      k := DropSlashesIs(s[1..]);
      assert s[1..][k..] == s[k + 1..];
      assert forall i :: 1 <= i < k + 1 ==> s[i] == s[1..][i - 1];
      k := k + 1;
    } else {
      k := 0;
    }
  }

  /** The two parts of a fragment, the id of at least 16 characters of the alphabet. */
  ghost predicate TwoParts(text: string, p: string, q: string) {
    && text == p + "/" + q && '/' !in p && '/' !in q
    && Trim(q) != "" && |Trim(p)| >= 16 && AllSafe(Trim(p))
  }

  /** Exactly what the parser accepts: behind the hash sign and leading slashes, two parts and no third, with an
      id of the right form; it returns them trimmed. */
  lemma ParseIff(input: string, urlHash: Option<string>, a: string, b: string)
    ensures ParseLocationHash(input, urlHash) == Some(LinkInfo(a, b)) <==>
              && input != ""
              && exists p, q :: TwoParts(DropSlashes(After(RawOf(input, urlHash), '#')), p, q) && a == Trim(p) &&
                   b == Trim(q)
  {
    hide Trim, DropSlashes, After, Split;
    var text := DropSlashes(After(RawOf(input, urlHash), '#'));
    var parts := Split(text, '/');
    SplitJoins(text);
    if p, q :| TwoParts(text, p, q) && a == Trim(p) && b == Trim(q) {
      SplitPair(p, q);
    }
    if |parts| == 2 {
      assert Joined(parts) == parts[0] + "/" + parts[1];
      if ParseLocationHash(input, urlHash) == Some(LinkInfo(a, b)) {
        assert TwoParts(text, parts[0], parts[1]);
      }
    }
  }

  /** A fragment made of two safe parts parses into them, however it reaches the parser: as the hash of
      a parsed URL, with its `#`, or as bare text. */
  lemma ParseFragment(input: string, urlHash: Option<string>, a: string, b: string)
    requires AllSafe(a) && AllSafe(b) && |a| >= 16 && b != "" && input != ""
    requires After(RawOf(input, urlHash), '#') == a + "/" + b
    ensures ParseLocationHash(input, urlHash) == Some(LinkInfo(a, b))
  {
    NoSlash(a);
    NoSlash(b);
    SplitPair(a, b);
    TrimSafe(a);
    TrimSafe(b);
    assert (a + "/" + b)[0] == a[0];
    assert DropSlashes(a + "/" + b) == a + "/" + b;
  }

  lemma NoSlash(s: string)
    requires AllSafe(s)
    ensures '/' !in s
  {
  }

  /** The text the parser searches for a hash sign. */
  function RawOf(input: string, urlHash: Option<string>): string {
    var raw := if urlHash.Some? then urlHash.value else Trim(input);
    if raw != [] && raw[0] == '#' then raw[1..] else raw
  }

  lemma {:induction false} AfterPrefix(p: string, s: string)
    requires '#' !in p
    ensures After(p + "#" + s, '#') == s
  {
    var t := p + "#" + s;
    assert t[|p|] == '#';
    if p == [] {
      assert t[1..] == s;
    } else {
      assert t[1..] == p[1..] + "#" + s;
      AfterPrefix(p[1..], s);
    }
  }

  function Fragment(id: seq<byte>, key: seq<byte>): string {
    Encode(id) + "/" + Encode(key)
  }

  /** The link, or just its hash part, possibly with white space around it. */
  ghost predicate Pasted(input: string, before: string, origin: string, fragment: string, after: string) {
    && Blank(before) && Blank(after)
    && (|| input == before + "#" + fragment + after
        || input == before + NormalizeOrigin(origin) + "/receive#" + fragment + after)
  }

  /** How a link reaches the parser: as `location.hash`, as a URL the browser parses, or as text it cannot
      parse as a URL; pasted text may have white space around it. */
  ghost predicate Arrives(input: string, urlHash: Option<string>, origin: string, fragment: string) {
    && (urlHash == None || urlHash == Some("#" + fragment))
    && exists before, after :: Pasted(input, before, origin, fragment, after)
  }

  /** The origin without the slashes at its end, and nothing else taken away. */
  lemma {:induction false} OriginIs(origin: string)
    ensures NormalizeOrigin(origin) <= origin
    ensures forall i :: |NormalizeOrigin(origin)| <= i < |origin| ==> origin[i] == '/'
    ensures NormalizeOrigin(origin) == "" || NormalizeOrigin(origin)[|NormalizeOrigin(origin)| - 1] != '/'
    ensures origin == "" || origin[|origin| - 1] != '/' ==> NormalizeOrigin(origin) == origin
  {
    if origin != [] && origin[|origin| - 1] == '/' {
      OriginIs(origin[..|origin| - 1]);
    }
  }

  /** A link is shown exactly for an origin, an id of 16 bytes and a key of 32; it starts with the origin. */
  lemma LinkForIff(origin: string, id: string, bK: string)
    ensures LinkFor(origin, id, bK).Some? <==>
              && origin != "" && id != "" && bK != ""
              && Decode(id).Some? && |Decode(id).value| == 16 && Decode(bK).Some? && |Decode(bK).value| == 32
    ensures LinkFor(origin, id, bK).Some? && origin[|origin| - 1] != '/' ==>
              LinkFor(origin, id, bK).value
              == origin + "/receive#" + Encode(Decode(id).value) + "/" + Encode(Decode(bK).value)
  {
    hide Decode, Encode;
    OriginIs(origin);
  }

  lemma {:induction false} TrimEndDrops(s: string, after: string)
    requires Blank(after) && s != [] && !IsSpace(s[|s| - 1])
    ensures TrimEnd(s + after) == s
  {
    hide IsSpace;
    var t := s + after;
    if after == [] {
      assert t == s;
    } else {
      var shorter := after[..|after| - 1];
      assert t[..|t| - 1] == s + shorter && t[|t| - 1] == after[|after| - 1];
      TrimEndDrops(s, shorter);
    }
  }

  /** Trimming the front stops, at the latest, where the white space ends. */
  lemma {:induction false} TrimStartKeeps(w: string, t: string) returns (k: nat)
    requires t != [] && !IsSpace(t[0])
    ensures k <= |w| && TrimStart(w + t) == w[k..] + t
  {
    hide IsSpace;
    var s := w + t;
    if w == [] {
      assert s == t;
      k := 0;
    } else if IsSpace(w[0]) {
      assert s[1..] == w[1..] + t;
      k := TrimStartKeeps(w[1..], t);
      assert w[1..][k..] == w[k + 1..];
      k := k + 1;
    } else {
      k := 0;
    }
  }

  /** Whatever stands before the hash sign, trimming and dropping it leaves the fragment. */
  lemma TextHoldsFragment(w: string, fragment: string, after: string)
    requires '#' !in w && '#' !in fragment && Blank(after)
    requires fragment != [] && !IsSpace(fragment[|fragment| - 1])
    ensures After(RawOf(w + "#" + fragment + after, None), '#') == fragment
  {
    var hash := "#" + fragment;
    assert !IsSpace(hash[0]);
    hide IsSpace, Blank;
    var k := TrimStartKeeps(w, hash + after);
    var p := w[k..];
    assert w + "#" + fragment + after == w + (hash + after) && p + (hash + after) == (p + hash) + after;
    TrimEndDrops(p + hash, after);
    assert p + hash == p + "#" + fragment;
    HashIsDropped(p, fragment);
  }

  lemma HashIsDropped(p: string, fragment: string)
    requires '#' !in p && '#' !in fragment
    ensures var raw := p + "#" + fragment; After(if raw[0] == '#' then raw[1..] else raw, '#') == fragment
  {
    var raw := p + "#" + fragment;
    if p == [] {
      assert raw[1..] == fragment;
    } else {
      assert raw[0] == p[0];
      AfterPrefix(p, fragment);
    }
  }

  /** However it arrives, the text behind the hash sign is the fragment. */
  lemma RawHoldsFragment(input: string, urlHash: Option<string>, origin: string, fragment: string)
    requires Arrives(input, urlHash, origin, fragment) && '#' !in origin && '#' !in fragment
    requires fragment != [] && !IsSpace(fragment[|fragment| - 1])
    ensures input != "" && After(RawOf(input, urlHash), '#') == fragment
  {
    var before, after :| Pasted(input, before, origin, fragment, after);
    OriginIs(origin);
    assert !IsSpace('#');
    hide IsSpace, TrimEnd, TrimStart;
    if urlHash == None {
      var w := if input == before + "#" + fragment + after then before
          else before + NormalizeOrigin(origin) + "/receive";
      assert '#' !in w;
      assert before + NormalizeOrigin(origin) + "/receive#" + fragment + after
          == before + NormalizeOrigin(origin) + "/receive" + "#" + fragment + after;
      TextHoldsFragment(w, fragment, after);
    } else {
      HashIsDropped([], fragment);
      assert [] + "#" + fragment == "#" + fragment;
    }
  }

  /** For every 16-byte id and 32-byte key, parsing the link built from them and decoding both parts
      gives back the same bytes. */
  lemma LinkRoundTrip(origin: string, id: seq<byte>, key: seq<byte>, input: string, urlHash: Option<string>)
    requires |id| == ID_SIZE && |key| == KEY_SIZE && '#' !in origin
    requires Arrives(input, urlHash, origin, Fragment(id, key))
    ensures ParseLocationHash(input, urlHash) == Some(LinkInfo(Encode(id), Encode(key)))
    ensures Decode(Encode(id)) == Some(id) && Decode(Encode(key)) == Some(key)
  {
    hide Encode, Decode, Arrives, After, RawOf, ParseLocationHash, Digits;
    DecodeEncode(id);
    DecodeEncode(key);
    EncodeIs(id);
    EncodeIs(key);
    var a, b := Encode(id), Encode(key);
    var f := Fragment(id, key);
    assert f[|f| - 1] == b[|b| - 1];
    RawHoldsFragment(input, urlHash, origin, f);
    ParseFragment(input, urlHash, a, b);
  }

  /** A link is shown exactly for an id and a key that decode to the right lengths, and the receiver
      decodes the same bytes from it. */
  lemma SetLinkRoundTrip(origin: string, id: string, bK: string, input: string, urlHash: Option<string>)
    requires '#' !in origin && LinkFor(origin, id, bK).Some?
    requires Arrives(input, urlHash, origin, Fragment(Decode(id).value, Decode(bK).value))
    ensures LinkFor(origin, id, bK).value ==
            NormalizeOrigin(origin) + "/receive#" + Fragment(Decode(id).value, Decode(bK).value)
    ensures ParseLocationHash(input, urlHash).Some?
    ensures Decode(ParseLocationHash(input, urlHash).value.id) == Decode(id)
    ensures Decode(ParseLocationHash(input, urlHash).value.bK) == Decode(bK)
  {
    hide Encode, Decode, Arrives, ParseLocationHash;
    LinkRoundTrip(origin, Decode(id).value, Decode(bK).value, input, urlHash);
  }
}
