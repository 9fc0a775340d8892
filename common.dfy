/** Values and text helpers shared by the client and the server
    (common/src/lib.rs), together with the parts of Rust's standard
    library they lean on: `str::parse` for `i32` and `usize`, `i32::to_string`,
    `str::trim` and `str::split`. */
module Common {

  datatype Option<T> = None | Some(value: T) {
    function GetOr(default: T): T {
      match this
      case Some(v) => v
      case None => default
    }
  }

  /** An unsigned byte, as read from or written to a socket. */
  type Byte = b: int | 0 <= b < 256

  const I32Min: int := -0x8000_0000
  const I32Max: int := 0x7FFF_FFFF
  const UsizeMax: int := 0xFFFF_FFFF_FFFF_FFFF

  predicate IsI32(n: int) {
    I32Min <= n <= I32Max
  }

  /** `n as i32` for an unsigned `n`: the low 32 bits read in two's
      complement. */
  function WrapI32(n: nat): (w: int)
    ensures IsI32(w)
    ensures n <= I32Max ==> w == n
    ensures (n - w) % 0x1_0000_0000 == 0
  {
    var low := n % 0x1_0000_0000;
    if low <= I32Max then low else low - 0x1_0000_0000
  }

  /** A board coordinate: `x` is the row, `y` the column (both `usize`). */
  datatype Position = Position(x: nat, y: nat)

  function NewPosition(x: nat, y: nat): (p: Position)
    ensures p.x == x && p.y == y
  {
    Position(x, y)
  }

  /** A copy of `pos` that shares nothing with it. */
  function NewFromPos(pos: Position): (p: Position)
    ensures p == pos
  {
    Position(pos.x, pos.y)
  }

  // ---------------------------------------------------------------------
  // Bytes and text

  /** Bytes read as text, one character per byte (exact for ASCII). */
  function Text(b: seq<Byte>): (s: string)
    ensures |s| == |b|
    ensures forall i | 0 <= i < |b| :: s[i] as int == b[i]
  {
    seq(|b|, i requires 0 <= i < |b| => b[i] as char)
  }

  predicate IsNarrow(s: string) {
    forall i | 0 <= i < |s| :: s[i] as int < 256
  }

  /** The bytes of a text whose characters all fit in one byte. */
  function Bytes(s: string): (b: seq<Byte>)
    requires IsNarrow(s)
    ensures |b| == |s| && Text(b) == s
  {
    seq(|s|, i requires 0 <= i < |s| => s[i] as int)
  }

  // ---------------------------------------------------------------------
  // Decimal numerals

  predicate IsDigit(ch: char) {
    '0' <= ch <= '9'
  }

  predicate AllDigits(s: string) {
    forall i | 0 <= i < |s| :: IsDigit(s[i])
  }

  function DigitValue(ch: char): (d: nat)
    requires IsDigit(ch)
    ensures d < 10
  {
    ch as int - '0' as int
  }

  function DigitChar(d: nat): (ch: char)
    requires d < 10
    ensures IsDigit(ch) && DigitValue(ch) == d
  {
    ('0' as int + d) as char
  }

  /** The value of a string of decimal digits, read left to right. */
  function DigitsValue(s: string): nat
    requires AllDigits(s)
  {
    if s == [] then 0 else DigitsValue(s[..|s| - 1]) * 10 + DigitValue(s[|s| - 1])
  }

  /** `from_str_radix(s, 10)` before its range check: `s` must be non-empty; a
      leading `+` (or, for a signed target, `-`) is allowed when digits follow;
      every other character must be an ASCII digit. The range check that the
      standard library does with checked arithmetic while accumulating is done
      by the callers on the exact value: the partial values only grow in
      magnitude, so an intermediate overflow happens exactly when the final
      value is out of range. */
  function ParseDecimal(s: string, signed: bool): (r: Option<int>)
    ensures r.Some? ==> s != [] && s != "+" && s != "-"
    ensures r.Some? && r.value < 0 ==> signed && s[0] == '-'
  {
    if s == [] || s == "+" || s == "-" then None
    else if s[0] == '+' then
      if AllDigits(s[1..]) then Some(DigitsValue(s[1..])) else None
    else if s[0] == '-' && signed then
      if AllDigits(s[1..]) then Some(-(DigitsValue(s[1..]) as int)) else None
    else if AllDigits(s) then Some(DigitsValue(s))
    else None
  }

  /** `s.parse::<i32>()`, with `None` for every `Err`. */
  function ParseI32(s: string): (r: Option<int>)
    ensures r.Some? ==> IsI32(r.value)
  {
    match ParseDecimal(s, true)
    case Some(v) => if IsI32(v) then Some(v) else None
    case None => None
  }

  /** `s.parse::<usize>()` on a 64-bit target, with `None` for every `Err`. */
  function ParseUsize(s: string): (r: Option<nat>)
    ensures r.Some? ==> r.value <= UsizeMax
  {
    match ParseDecimal(s, false)
    case Some(v) => if 0 <= v <= UsizeMax then Some(v) else None
    case None => None
  }

  /** The value an optional sign and a digit string denote. */
  function SignedValue(sign: string, d: string): int
    requires AllDigits(d)
  {
    if sign == "-" then -(DigitsValue(d) as int) else DigitsValue(d)
  }

  /** An optional sign followed by ASCII digits parses as an `i32` exactly
      when the value it denotes is an `i32`, and then to that value. */
  lemma ParseSignedDigits(sign: string, d: string)
    requires sign == "" || sign == "+" || sign == "-"
    requires d != [] && AllDigits(d)
    ensures ParseI32(sign + d) == if IsI32(SignedValue(sign, d)) then Some(SignedValue(sign, d)) else None
    ensures ConvertToI32(sign + d) == if IsI32(SignedValue(sign, d)) then SignedValue(sign, d) else -1
  {
    if sign == "" {
      assert sign + d == d;
      assert IsDigit(d[0]);
    } else {
      assert (sign + d)[0] == sign[0];
      assert (sign + d)[1..] == d;
    }
  }

  /** An optional plus sign followed by ASCII digits, leading zeros allowed,
      parses as a `usize` exactly when the value it denotes is at most
      `usize::MAX`; a minus sign never parses. */
  lemma ParseUnsignedDigits(sign: string, d: string)
    requires sign == "" || sign == "+" || sign == "-"
    requires d != [] && AllDigits(d)
    ensures sign != "-" ==> ParseUsize(sign + d) == if DigitsValue(d) <= UsizeMax then Some(DigitsValue(d)) else None
    ensures sign == "-" ==> ParseUsize(sign + d) == None
  {
    if sign == "" {
      assert sign + d == d;
      assert IsDigit(d[0]);
    } else {
      assert (sign + d)[0] == sign[0];
      assert (sign + d)[1..] == d;
      assert !IsDigit('-');
    }
  }

  /** Only an optional sign followed by ASCII digits parses, and it parses to
      the value it denotes: whitespace, a second sign or any other character
      makes the parse fail. */
  lemma ParsedIsSignedDigits(s: string, signed: bool)
    requires ParseDecimal(s, signed).Some?
    ensures exists sign, d | (sign == "" || sign == "+" || (signed && sign == "-")) && d != [] && AllDigits(d) ::
              s == sign + d && ParseDecimal(s, signed).value == SignedValue(sign, d)
  {
    if s[0] == '+' || (s[0] == '-' && signed) {
      var sign, d := s[..1], s[1..];
      assert s == sign + d;
      assert sign == "+" || sign == "-";
      assert ParseDecimal(s, signed).value == SignedValue(sign, d);
    } else {
      assert s == "" + s;
      assert ParseDecimal(s, signed).value == SignedValue("", s);
    }
  }

  /** A numeral followed by whitespace, as typed into the room field, is not
      trimmed either: it does not parse and converts to -1. */
  lemma TrailingWhitespaceIsRejected(s: string)
    requires s != [] && IsWhitespace(s[|s| - 1])
    ensures ParseI32(s) == None
    ensures ConvertToI32(s) == -1
  {
    if ParseDecimal(s, true).Some? {
      ParsedIsSignedDigits(s, true);
    }
  }

  /** `convert_to_i32`: the parsed value, or -1 when parsing fails. */
  function ConvertToI32(s: string): (n: int)
    ensures IsI32(n)
    ensures ParseI32(s).Some? ==> n == ParseI32(s).value
    ensures ParseI32(s) == None ==> n == -1
    ensures n != -1 ==> ParseI32(s) == Some(n)
  {
    match ParseI32(s)
    case Some(num) => num
    case None => -1
  }

  /** The shortest decimal digits of `n` (no leading zero unless `n` is 0). */
  function NatText(n: nat): (s: string)
    ensures |s| >= 1 && AllDigits(s)
    ensures s[0] == '0' ==> n == 0 && s == "0"
  {
    if n < 10 then [DigitChar(n)] else NatText(n / 10) + [DigitChar(n % 10)]
  }

  /** `n.to_string()` for an integer `n`: a minus sign exactly when `n` is
      negative, then decimal digits. */
  function DecimalText(n: int): (s: string)
    ensures |s| >= 1
    ensures s[0] == '-' <==> n < 0
    ensures forall i | (if n < 0 then 1 else 0) <= i < |s| :: IsDigit(s[i])
  {
    if n < 0 then "-" + NatText(-n) else NatText(n)
  }

  lemma {:induction false} NatTextValue(n: nat)
    ensures DigitsValue(NatText(n)) == n
  {
    if n >= 10 {
      var s := NatText(n);
      NatTextValue(n / 10);
      assert s[..|s| - 1] == NatText(n / 10);
    }
  }

  lemma DecimalTextIsNarrow(n: int)
    ensures IsNarrow(DecimalText(n))
    ensures forall i | 0 <= i < |DecimalText(n)| :: IsDigit(DecimalText(n)[i]) || DecimalText(n)[i] == '-'
  {
    var s := DecimalText(n);
    if n < 0 {
      assert forall i | 1 <= i < |s| :: s[i] == NatText(-n)[i - 1];
    }
  }

  function Pow10(k: nat): (p: nat)
    ensures p >= 1
  {
    if k == 0 then 1 else 10 * Pow10(k - 1)
  }

  /** A number below `10^k` has at most `k` digits. */
  lemma {:induction false} NatTextFits(n: nat, k: nat)
    requires k >= 1 && n < Pow10(k)
    ensures |NatText(n)| <= k
  {
    if n >= 10 {
      NatTextFits(n / 10, k - 1);
    }
  }

  /** An `i32` is written in at most eleven characters. */
  lemma I32TextIsShort(n: int)
    requires IsI32(n)
    ensures |DecimalText(n)| <= 11
  {
    assert Pow10(10) == 10_000_000_000;
    if n < 0 {
      NatTextFits(-n, 10);
    } else {
      NatTextFits(n, 10);
    }
  }

  /** Round trip: the text the client sends as `room_id.to_string()` parses
      back to the same `i32`. */
  lemma ConvertRoundTrip(n: int)
    requires IsI32(n)
    ensures ParseI32(DecimalText(n)) == Some(n)
    ensures ConvertToI32(DecimalText(n)) == n
  {
    var s := DecimalText(n);
    if n < 0 {
      NatTextValue(-n);
      assert s[1..] == NatText(-n);
    } else {
      NatTextValue(n);
      assert s[0] != '+' && s[0] != '-';
    }
  }

  /** Digit strings whose value exceeds `i32::MAX` (the overflow error of
      `parse`) fall back to -1. */
  lemma OverflowFallsBack(n: nat)
    requires n > I32Max
    ensures ParseI32(NatText(n)) == None
    ensures ConvertToI32(NatText(n)) == -1
  {
    NatTextValue(n);
  }

  /** The result of `convert_to_i32` cannot tell the text "-1" from a string
      that does not parse at all. */
  lemma MinusOneIsAmbiguous()
    ensures ParseI32("-1") == Some(-1) && ParseI32("") == None
    ensures ConvertToI32("-1") == ConvertToI32("") == -1
  {
    assert "-1"[1..] == "1";
    assert DigitsValue("1") == DigitsValue("1"[..0]) * 10 + 1;
  }

  /** `convert_to_i32` does not trim: a numeral with whitespace in front
      falls back to -1. */
  lemma PaddedNumeralIsRejected(pad: string, s: string)
    requires pad != [] && forall i | 0 <= i < |pad| :: IsWhitespace(pad[i])
    ensures ParseI32(pad + s) == None
    ensures ConvertToI32(pad + s) == -1
  {
    assert (pad + s)[0] == pad[0];
  }

  // ---------------------------------------------------------------------
  // Whitespace and trimming

  /** `char::is_whitespace`: the Unicode White_Space property. */
  predicate IsWhitespace(ch: char) {
    ('\t' <= ch <= '\r') || ch == ' ' || ch == '\U{85}' || ch == '\U{A0}' || ch == '\U{1680}'
    || ('\U{2000}' <= ch <= '\U{200A}') || ch == '\U{2028}' || ch == '\U{2029}'
    || ch == '\U{202F}' || ch == '\U{205F}' || ch == '\U{3000}'
  }

  lemma NumeralHasNoWhitespace(s: string)
    requires ParseDecimal(s, true).Some?
    ensures forall i | 0 <= i < |s| :: !IsWhitespace(s[i])
  {
  }

  /** `str::trim_start`: drops the leading whitespace. */
  function TrimStart(s: string): (r: string)
    ensures |r| <= |s| && r == s[|s| - |r|..]
    ensures forall i | 0 <= i < |s| - |r| :: IsWhitespace(s[i])
    ensures r != [] ==> !IsWhitespace(r[0])
  {
    if s != [] && IsWhitespace(s[0]) then
      var r := TrimStart(s[1..]);
      assert s[1..][|s| - 1 - |r|..] == s[|s| - |r|..];
      assert forall i | 1 <= i < |s| - |r| :: s[i] == s[1..][i - 1];
      r
    else s
  }

  /** `str::trim_end`: drops the trailing whitespace. */
  function TrimEnd(s: string): (r: string)
    ensures |r| <= |s| && r == s[..|r|]
    ensures forall i | |r| <= i < |s| :: IsWhitespace(s[i])
    ensures r != [] ==> !IsWhitespace(r[|r| - 1])
  {
    if s != [] && IsWhitespace(s[|s| - 1]) then TrimEnd(s[..|s| - 1]) else s
  }

  /** `s` is `r` at offset `i` with only whitespace before and after it. */
  predicate PaddedAt(s: string, r: string, i: int) {
    0 <= i <= |s| - |r| && r == s[i..i + |r|] &&
    (forall k | 0 <= k < i :: IsWhitespace(s[k])) &&
    (forall k | i + |r| <= k < |s| :: IsWhitespace(s[k]))
  }

  /** `str::trim`: the text between the leading and the trailing whitespace. */
  function Trim(s: string): (r: string)
    ensures r == [] || (!IsWhitespace(r[0]) && !IsWhitespace(r[|r| - 1]))
    ensures exists i | 0 <= i <= |s| - |r| :: PaddedAt(s, r, i)
  {
    TrimBothEnds(s);
    TrimEnd(TrimStart(s))
  }

  lemma TrimBothEnds(s: string)
    ensures TrimEnd(TrimStart(s)) == [] ||
            (!IsWhitespace(TrimEnd(TrimStart(s))[0]) && !IsWhitespace(TrimEnd(TrimStart(s))[|TrimEnd(TrimStart(s))| - 1]))
    ensures PaddedAt(s, TrimEnd(TrimStart(s)), |s| - |TrimStart(s)|)
  {
    var t := TrimStart(s);
    var r := TrimEnd(t);
    if r != [] {
      assert r[0] == t[0];
    }
    PrefixOfSuffix(s, t, r);
  }

  /** A prefix `r` of a suffix `t` of `s`, where what `t` and `r` leave out
      is whitespace, sits in `s` with only whitespace around it. */
  lemma PrefixOfSuffix(s: string, t: string, r: string)
    requires |t| <= |s| && t == s[|s| - |t|..]
    requires forall k | 0 <= k < |s| - |t| :: IsWhitespace(s[k])
    requires |r| <= |t| && r == t[..|r|]
    requires forall k | |r| <= k < |t| :: IsWhitespace(t[k])
    ensures PaddedAt(s, r, |s| - |t|)
  {
    var i := |s| - |t|;
    assert r == s[i..i + |r|];
    forall k | i + |r| <= k < |s|
      ensures IsWhitespace(s[k])
    {
      assert s[k] == t[k - i];
    }
  }

  /** Trimming a text without whitespace at either end changes nothing. */
  lemma TrimUnpadded(s: string)
    requires s != [] ==> !IsWhitespace(s[0]) && !IsWhitespace(s[|s| - 1])
    ensures Trim(s) == s
  {
  }

  /** Trimming then parsing accepts the same numbers as parsing alone, plus
      their whitespace-padded forms. */
  lemma TrimThenParse(pad1: string, s: string, pad2: string)
    requires forall i | 0 <= i < |pad1| :: IsWhitespace(pad1[i])
    requires forall i | 0 <= i < |pad2| :: IsWhitespace(pad2[i])
    requires ParseDecimal(s, true).Some?
    ensures Trim(pad1 + s + pad2) == s
  {
    NumeralHasNoWhitespace(s);
    TrimStartPadded(pad1, s + pad2);
    assert pad1 + s + pad2 == pad1 + (s + pad2);
    TrimEndPadded(s, pad2);
  }

  lemma {:induction false} TrimStartPadded(pad: string, s: string)
    requires forall i | 0 <= i < |pad| :: IsWhitespace(pad[i])
    requires s != [] && !IsWhitespace(s[0])
    ensures TrimStart(pad + s) == s
  {
    if pad != [] {
      assert (pad + s)[1..] == pad[1..] + s;
      TrimStartPadded(pad[1..], s);
    }
  }

  lemma {:induction false} TrimEndPadded(s: string, pad: string)
    requires forall i | 0 <= i < |pad| :: IsWhitespace(pad[i])
    requires s != [] && !IsWhitespace(s[|s| - 1])
    ensures TrimEnd(s + pad) == s
  {
    if pad != [] {
      assert (s + pad)[..|s + pad| - 1] == s + pad[..|pad| - 1];
      TrimEndPadded(s, pad[..|pad| - 1]);
    }
  }

  // ---------------------------------------------------------------------
  // Splitting

  /** The pieces put back together with the separator between neighbours. */
  function Join(parts: seq<string>, sep: char): string
    requires |parts| >= 1
  {
    if |parts| == 1 then parts[0] else parts[0] + [sep] + Join(parts[1..], sep)
  }

  /** `str::split(sep)` collected into a vector: the pieces between the
      separators, empty pieces included. */
  function Split(s: string, sep: char): (parts: seq<string>)
    ensures |parts| >= 1
    ensures |parts| >= 2 <==> sep in s
    ensures forall k | 0 <= k < |parts| :: sep !in parts[k]
    ensures Join(parts, sep) == s
  {
    if s == [] then [[]]
    else
      var rest := Split(s[1..], sep);
      if s[0] == sep then [[]] + rest
      else [[s[0]] + rest[0]] + rest[1..]
  }

  /** Splitting two separator-free texts joined by the separator gives them back. */
  lemma {:induction false} SplitPair(a: string, sep: char, b: string)
    requires sep !in a && sep !in b
    ensures Split(a + [sep] + b, sep) == [a, b]
  {
    if a == [] {
      assert a + [sep] + b == [sep] + b;
      assert ([sep] + b)[1..] == b;
      SplitNone(b, sep);
    } else {
      assert (a + [sep] + b)[1..] == a[1..] + [sep] + b;
      SplitPair(a[1..], sep, b);
      assert [a[0]] + a[1..] == a;
    }
  }

  lemma {:induction false} SplitNone(s: string, sep: char)
    requires sep !in s
    ensures Split(s, sep) == [s]
  {
    if s != [] {
      SplitNone(s[1..], sep);
      assert [s[0]] + s[1..] == s;
    }
  }
}
