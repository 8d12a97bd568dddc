/** Text as bytes: UTF-8 (RFC 3629) and the hexadecimal spelling of keys and signatures. */
module Text {
  import opened Bits
  import opened Json
  import opened Wrappers

  // ---- UTF-8 --------------------------------------------------------------------------

  function Utf8Char(c: char): (r: seq<Byte>)
    ensures r != []
  {
    var n := c as int;
    if n < 0x80 then [n]
    else if n < 0x800 then [0xC0 + n / 64, 0x80 + n % 64]
    else if n < 0x10000 then [0xE0 + n / 4096, 0x80 + n / 64 % 64, 0x80 + n % 64]
    else [0xF0 + n / 262144, 0x80 + n / 4096 % 64, 0x80 + n / 64 % 64, 0x80 + n % 64]
  }

  /** `s.encode("utf-8")`. */
  function Utf8(s: string): seq<Byte> {
    if s == "" then [] else Utf8Char(s[0]) + Utf8(s[1..])
  }

  /** The six bits of a byte that continues a character, or None where it does not. */
  function Tail(b: Byte): (r: Option<nat>)
    ensures r.Some? ==> r.value < 64 && b == 0x80 + r.value
  {
    if 0x80 <= b < 0xC0 then Some(b - 0x80) else None
  }

  /** The character with this number, unless it is a surrogate or the number could have been
      written in fewer bytes. */
  function Scalar(n: int, least: int): Option<char> {
    if n >= least && (0 <= n < 0xD800 || 0xE000 <= n < 0x11_0000) then Some(n as char) else None
  }

  /** The first character of a byte string and the number of its bytes, by the table of
      RFC 3629, section 3; None where there is none. */
  function FirstChar(b: seq<Byte>): (r: Option<(char, nat)>)
    requires b != []
    ensures r.Some? ==> 0 < r.value.1 <= |b|
  {
    var lead: int := b[0];
    if lead < 0x80 then Some((lead as char, 1))
    else if 0xC0 <= lead < 0xE0 && |b| >= 2 then
      match Tail(b[1])
      case Some(x) => Sized(Scalar(64 * (lead - 0xC0) + x, 0x80), 2)
      case None => None
    else if 0xE0 <= lead < 0xF0 && |b| >= 3 then
      match (Tail(b[1]), Tail(b[2]))
      case (Some(x), Some(y)) => Sized(Scalar(4096 * (lead - 0xE0) + 64 * x + y, 0x800), 3)
      case _ => None
    else if 0xF0 <= lead < 0xF8 && |b| >= 4 then
      match (Tail(b[1]), Tail(b[2]), Tail(b[3]))
      case (Some(x), Some(y), Some(z)) =>
        Sized(Scalar(262144 * (lead - 0xF0) + 4096 * x + 64 * y + z, 0x10000), 4)
      case _ => None
    else None
  }

  function Sized(c: Option<char>, n: nat): Option<(char, nat)> {
    match c
    case Some(value) => Some((value, n))
    case None => None
  }

  /** `b.decode("utf-8")`; None where it raises. */
  function FromUtf8(b: seq<Byte>): Option<string> {
    if b == [] then Some("")
    else
      match FirstChar(b)
      case None => None
      case Some((c, n)) =>
        match FromUtf8(b[n..])
        case None => None
        case Some(rest) => Some([c] + rest)
  }

  lemma Nested(n: nat)
    ensures n / 64 / 64 == n / 4096
  {
  }

  lemma NestedTwice(n: nat)
    ensures n / 4096 / 64 == n / 262144
  {
  }

  lemma Last(q: nat, x: nat, n: nat)
    requires x < 64
    ensures n == 64 * q + x <==> n / 64 == q && n % 64 == x
  {
  }

  /** A number by its sextets. */
  lemma Sextets(n: nat)
    ensures n == 64 * (n / 64) + n % 64
    ensures n == 4096 * (n / 4096) + 64 * (n / 64 % 64) + n % 64
    ensures n == 262144 * (n / 262144) + 4096 * (n / 4096 % 64) + 64 * (n / 64 % 64) + n % 64
  {
    Nested(n);
    NestedTwice(n);
    Last(n / 64, n % 64, n);
    Last(n / 64 / 64, n / 64 % 64, n / 64);
    Last(n / 4096 / 64, n / 4096 % 64, n / 4096);
  }

  lemma TwoBytes(lead: Byte, x: nat, c: char)
    requires x < 64 && c as int == 64 * (lead as int - 0xC0) + x && 0x80 <= c as int < 0x800
    ensures Utf8Char(c) == [lead, 0x80 + x]
  {
    Last(lead as int - 0xC0, x, c as int);
  }

  lemma ThreeBytes(lead: Byte, x: nat, y: nat, c: char)
    requires x < 64 && y < 64 && c as int == 4096 * (lead as int - 0xE0) + 64 * x + y
    requires lead >= 0xE0 && 0x800 <= c as int < 0x10000
    ensures Utf8Char(c) == [lead, 0x80 + x, 0x80 + y]
  {
    var n := c as int;
    Last(64 * (lead as int - 0xE0) + x, y, n);
    Last(lead as int - 0xE0, x, n / 64);
    Nested(n);
  }

  lemma FourBytes(lead: Byte, x: nat, y: nat, z: nat, c: char)
    requires x < 64 && y < 64 && z < 64
    requires c as int == 262144 * (lead as int - 0xF0) + 4096 * x + 64 * y + z
    requires lead >= 0xF0 && 0x10000 <= c as int
    ensures Utf8Char(c) == [lead, 0x80 + x, 0x80 + y, 0x80 + z]
  {
    var n := c as int;
    Last(4096 * (lead as int - 0xF0) + 64 * x + y, z, n);
    Last(64 * (lead as int - 0xF0) + x, y, n / 64);
    Last(lead as int - 0xF0, x, n / 64 / 64);
    Nested(n);
    NestedTwice(n);
  }

  lemma Utf8CharReads(c: char, x: seq<Byte>)
    ensures FirstChar(Utf8Char(c) + x) == Some((c, |Utf8Char(c)|))
  {
    var n, u := c as int, Utf8Char(c);
    Sextets(n);
    assert forall i :: 0 <= i < |u| ==> (u + x)[i] == u[i];
    if 0x80 <= n < 0x800 {
      assert Tail(u[1]) == Some(n % 64);
    } else if 0x800 <= n < 0x10000 {
      assert Tail(u[1]) == Some(n / 64 % 64) && Tail(u[2]) == Some(n % 64);
    } else if n >= 0x10000 {
      assert Tail(u[1]) == Some(n / 4096 % 64) && Tail(u[2]) == Some(n / 64 % 64) && Tail(u[3]) == Some(n % 64);
    }
  }

  /** Decoding what was encoded gives the text back. */
  lemma {:induction false} Utf8RoundTrip(s: string)
    ensures FromUtf8(Utf8(s)) == Some(s)
  {
    if s != "" {
      var first, rest := Utf8Char(s[0]), Utf8(s[1..]);
      Utf8CharReads(s[0], rest);
      Utf8RoundTrip(s[1..]);
      assert (first + rest)[|first|..] == rest;
      hide Utf8Char, FirstChar;
      assert s == [s[0]] + s[1..];
    }
  }

  lemma FirstCharWritten(b: seq<Byte>)
    requires b != [] && FirstChar(b).Some?
    ensures Utf8Char(FirstChar(b).value.0) == b[..FirstChar(b).value.1]
  {
    var (c, size) := FirstChar(b).value;
    if size == 1 {
      assert c as int == b[0] < 0x80;
    } else {
      hide Utf8Char;
      if size == 2 {
        TwoBytes(b[0], Tail(b[1]).value, c);
      } else if size == 3 {
        ThreeBytes(b[0], Tail(b[1]).value, Tail(b[2]).value, c);
      } else {
        FourBytes(b[0], Tail(b[1]).value, Tail(b[2]).value, Tail(b[3]).value, c);
      }
    }
  }

  lemma Utf8Step(c: char, rest: string)
    ensures Utf8([c] + rest) == Utf8Char(c) + Utf8(rest)
  {
    hide Utf8Char;
    assert ([c] + rest)[1..] == rest;
  }

  lemma FromUtf8Step(b: seq<Byte>) returns (c: char, n: nat, rest: string)
    requires b != [] && FromUtf8(b).Some?
    ensures 0 < n <= |b| && FirstChar(b) == Some((c, n)) && FromUtf8(b[n..]) == Some(rest)
    ensures FromUtf8(b).value == [c] + rest
  {
    hide FirstChar;
    c, n := FirstChar(b).value.0, FirstChar(b).value.1;
    rest := FromUtf8(b[n..]).value;
  }

  lemma Nothing()
    ensures FromUtf8([]) == Some("") && Utf8("") == []
    ensures Hex([]) == "" && FromHex("") == Some([])
  {
  }

  /** And only the encoding of a text decodes to it. */
  lemma {:induction false} Utf8OneSpelling(b: seq<Byte>)
    requires FromUtf8(b).Some?
    ensures Utf8(FromUtf8(b).value) == b
    decreases |b|
  {
    hide FromUtf8, Utf8, FirstChar, Utf8Char;
    Nothing();
    if b != [] {
      var c, n, rest := FromUtf8Step(b);
      FirstCharWritten(b);
      Utf8OneSpelling(b[n..]);
      Utf8Step(c, rest);
      assert b == b[..n] + b[n..];
    }
  }

  /** The bytes determine the text. */
  lemma Utf8Injective(s: string, t: string)
    requires Utf8(s) == Utf8(t)
    ensures s == t
  {
    Utf8RoundTrip(s);
    Utf8RoundTrip(t);
  }

  // ---- hexadecimal --------------------------------------------------------------------

  /** `bytes.hex()`. */
  function Hex(b: seq<Byte>): (r: string)
    ensures |r| == 2 * |b|
  {
    if b == [] then "" else [HexDigit(b[0] / 16), HexDigit(b[0] % 16)] + Hex(b[1..])
  }

  function HexValue(c: char): (r: Option<nat>)
    ensures r.Some? ==> r.value < 16
  {
    if '0' <= c <= '9' then Some(c as int - '0' as int)
    else if 'a' <= c <= 'f' then Some(c as int - 'a' as int + 10)
    else if 'A' <= c <= 'F' then Some(c as int - 'A' as int + 10)
    else None
  }

  predicate IsSpace(c: char) {
    c == ' ' || 9 <= c as int <= 13
  }

  /** `bytes.fromhex(s)`: pairs of digits, blanks allowed between pairs; None where it raises. */
  function FromHex(s: string): Option<seq<Byte>> {
    if s == "" then Some([])
    else if IsSpace(s[0]) then FromHex(s[1..])
    else if |s| < 2 then None
    else
      match (HexValue(s[0]), HexValue(s[1]))
      case (Some(h), Some(l)) =>
        (match FromHex(s[2..])
         case Some(rest) => Some([16 * h + l] + rest)
         case None => None)
      case _ => None
  }

  lemma HexDigitValue(n: nat)
    requires n < 16
    ensures HexValue(HexDigit(n)) == Some(n) && !IsSpace(HexDigit(n))
  {
  }

  lemma {:induction false} HexRoundTrip(b: seq<Byte>)
    ensures FromHex(Hex(b)) == Some(b)
  {
    hide HexDigit, HexValue, IsSpace, Hex, FromHex;
    Nothing();
    if b != [] {
      HexRoundTrip(b[1..]);
      HexDigitValue(b[0] / 16);
      HexDigitValue(b[0] % 16);
      HexStep(b);
      FromHexStep(Hex(b));
      TwoDigits(b[0]);
      assert b == [b[0]] + b[1..];
    }
  }

  lemma TwoDigits(n: nat)
    ensures 16 * (n / 16) + n % 16 == n
  {
  }

  lemma HexStep(b: seq<Byte>)
    requires b != []
    ensures var s := Hex(b);
            s[0] == HexDigit(b[0] / 16) && s[1] == HexDigit(b[0] % 16) && s[2..] == Hex(b[1..])
  {
    hide HexDigit;
  }

  lemma FromHexStep(s: string)
    requires |s| >= 2 && !IsSpace(s[0]) && HexValue(s[0]).Some? && HexValue(s[1]).Some?
    ensures FromHex(s) == match FromHex(s[2..])
                          case Some(rest) => Some([16 * HexValue(s[0]).value + HexValue(s[1]).value] + rest)
                          case None => None
  {
    hide HexValue, IsSpace;
  }

  // ---- what hexadecimal text says --------------------------------------------------------

  /** The character is the digit of this value, in either case. */
  predicate Spells(c: char, v: nat) {
    v < 16 && (c == "0123456789abcdef"[v] || c == "0123456789ABCDEF"[v])
  }

  lemma HexValueMeaning(c: char, v: nat)
    ensures HexValue(c) == Some(v) <==> Spells(c, v)
  {
  }

  /** A blank, tab, line feed, vertical tab, form feed or carriage return in front of a pair is
      passed over; anything else there that is no digit is refused. */
  lemma BlanksPassed(c: char, s: string)
    ensures c in " \t\n\r" || c as int == 11 || c as int == 12 ==> FromHex([c] + s) == FromHex(s)
    ensures c !in " \t\n\r" && c as int != 11 && c as int != 12 && HexValue(c).None? ==> FromHex([c] + s).None?
  {
    assert ([c] + s)[0] == c && ([c] + s)[1..] == s;
    hide HexValue;
  }

  ghost predicate Pairs(s: string, b: seq<Byte>) {
    && |s| == 2 * |b|
    && forall i :: 0 <= i < |b| ==> Spells(s[2 * i], b[i] / 16) && Spells(s[2 * i + 1], b[i] % 16)
  }

  lemma PairsStep(s: string, b: seq<Byte>)
    requires |s| >= 2 && b != []
    ensures Pairs(s, b) <==> Spells(s[0], b[0] / 16) && Spells(s[1], b[0] % 16) && Pairs(s[2..], b[1..])
  {
    hide Spells;
    var t, c := s[2..], b[1..];
    if Pairs(s, b) {
      forall i | 0 <= i < |c|
        ensures Spells(t[2 * i], c[i] / 16) && Spells(t[2 * i + 1], c[i] % 16)
      {
        assert t[2 * i] == s[2 * (i + 1)] && t[2 * i + 1] == s[2 * (i + 1) + 1] && c[i] == b[i + 1];
      }
    }
    if Pairs(t, c) && Spells(s[0], b[0] / 16) && Spells(s[1], b[0] % 16) {
      forall i | 0 <= i < |b|
        ensures Spells(s[2 * i], b[i] / 16) && Spells(s[2 * i + 1], b[i] % 16)
      {
        if i > 0 {
          assert t[2 * (i - 1)] == s[2 * i] && t[2 * (i - 1) + 1] == s[2 * i + 1] && c[i - 1] == b[i];
        }
      }
    }
  }

  /** Text without blanks is read exactly when it is pairs of digits; each byte is sixteen
      times its first digit and its second. */
  lemma {:induction false} FromHexMeaning(s: string, b: seq<Byte>)
    requires forall i :: 0 <= i < |s| ==> !IsSpace(s[i])
    ensures FromHex(s) == Some(b) <==> Pairs(s, b)
    decreases |s|
  {
    if |s| >= 2 && b != [] {
      FromHexMeaning(s[2..], b[1..]);
      HexValueMeaning(s[0], b[0] / 16);
      HexValueMeaning(s[1], b[0] % 16);
      PairsStep(s, b);
      FromHexFirst(s, b);
    }
  }

  lemma FromHexFirst(s: string, b: seq<Byte>)
    requires |s| >= 2 && !IsSpace(s[0]) && b != []
    ensures FromHex(s) == Some(b)
       <==> HexValue(s[0]) == Some(b[0] / 16) && HexValue(s[1]) == Some(b[0] % 16) && FromHex(s[2..]) == Some(b[1..])
  {
    hide HexValue, IsSpace;
    assert b == [b[0]] + b[1..];
    if HexValue(s[0]).Some? && HexValue(s[1]).Some? {
      FromHexStep(s);
      OneByte(HexValue(s[0]).value, HexValue(s[1]).value, b[0]);
    }
  }

  lemma OneByte(h: nat, l: nat, n: Byte)
    requires h < 16 && l < 16
    ensures 16 * h + l == n <==> h == n / 16 && l == n % 16
  {
  }
}
