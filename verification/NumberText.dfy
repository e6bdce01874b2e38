/** Printing and parsing of unsigned 64-bit numbers (utoa and strtoul of src/lib/string.c).
    Strings end with a zero character, which no digit is. */
module NumberText {

  const U64: nat := 0x1_0000_0000_0000_0000

  const DIGITS: seq<char> := "0123456789ABCDEFGHIJKLMNOPQRSTUVWXYZ"

  predicate IsBase(base: int) { 2 <= base <= 36 }

  /** The value of a digit character in any base, -1 for other characters. */
  function DigitOf(c: char): int {
    if '0' <= c <= '9' then c as int - '0' as int
    else if 'A' <= c <= 'Z' then c as int - 'A' as int + 10
    else if 'a' <= c <= 'z' then c as int - 'a' as int + 10
    else -1
  }

  predicate IsDigit(c: char, base: int) { 0 <= DigitOf(c) < base }

  lemma DigitChar(d: nat)
    requires d < 36
    ensures |DIGITS| == 36 && DigitOf(DIGITS[d]) == d && DIGITS[d] != ' ' && DIGITS[d] != '\t' && DIGITS[d] != '+'
    ensures DIGITS[d] == '0' <==> d == 0
    ensures d < 16 ==> DIGITS[d] != 'x' && DIGITS[d] != 'X'
  {
  }

  // ---- digits of a number -------------------------------------------------------------------------

  lemma DivLess(v: nat, base: int)
    requires base >= 2
    ensures v == v / base * base + v % base && 0 <= v % base < base && 0 <= 2 * (v / base) <= v
  {
    assert v / base * 2 <= v / base * base;
  }

  /** The numeral of v, most significant digit first, without leading zeros. */
  function Numeral(v: nat, base: int): (r: seq<char>)
    requires IsBase(base)
    ensures r != []
    decreases v
  {
    DivLess(v, base);
    if v < base then [DIGITS[v]] else Numeral(v / base, base) + [DIGITS[v % base]]
  }

  predicate AllDigits(s: seq<char>, base: int) {
    forall i :: 0 <= i < |s| ==> IsDigit(s[i], base)
  }

  /** The number a digit string stands for, without any bound. */
  function ValueOf(s: seq<char>, base: int): int
    requires AllDigits(s, base)
  {
    if s == [] then 0 else ValueOf(s[..|s| - 1], base) * base + DigitOf(s[|s| - 1])
  }

  lemma {:induction false} NumeralValue(v: nat, base: int)
    requires IsBase(base)
    ensures AllDigits(Numeral(v, base), base) && ValueOf(Numeral(v, base), base) == v
    decreases v
  {
    DivLess(v, base);
    var r := Numeral(v, base);
    if v < base {
      DigitChar(v);
    } else {
      DigitChar(v % base);
      NumeralValue(v / base, base);
      assert r[..|r| - 1] == Numeral(v / base, base);
    }
  }

  /** Printed numbers have no leading zero, so they are the shortest way to write the value. */
  lemma {:induction false} NoLeadingZero(v: nat, base: int)
    requires IsBase(base)
    ensures Numeral(v, base)[0] == '0' <==> v == 0
    ensures v == 0 ==> Numeral(v, base) == ['0']
    decreases v
  {
    DivLess(v, base);
    if v < base {
      DigitChar(v);
    } else {
      NoLeadingZero(v / base, base);
    }
  }

  /** At most k digits below 2^k: 64 for a 64-bit value. */
  lemma {:induction false} NumeralLength(v: nat, base: int, k: nat)
    requires IsBase(base) && k > 0 && v < Power(k)
    ensures |Numeral(v, base)| <= k
    decreases v
  {
    DivLess(v, base);
    if v >= base {
      NumeralLength(v / base, base, k - 1);
    }
  }

  function Power(k: nat): nat { if k == 0 then 1 else 2 * Power(k - 1) }

  lemma Power64()
    ensures Power(64) == U64
  {
    assert Power(1) == 2;
    PowerSum(1, 1);
    PowerSum(2, 2);
    PowerSum(4, 4);
    PowerSum(8, 8);
    PowerSum(16, 16);
    PowerSum(32, 32);
  }

  lemma {:induction false} PowerSum(a: nat, b: nat)
    ensures Power(a + b) == Power(a) * Power(b)
  {
    if a > 0 {
      PowerSum(a - 1, b);
    }
  }

  /** A digit string as utoa writes it: upper-case and without leading zeros. */
  predicate Canonical(s: seq<char>, base: int) {
    && s != [] && AllDigits(s, base)
    && (forall i :: 0 <= i < |s| ==> !('a' <= s[i] <= 'z'))
    && (s[0] == '0' ==> |s| == 1)
  }

  /** Parsing and printing again gives back every canonical string. */
  lemma {:induction false} NumeralUnique(s: seq<char>, base: int)
    requires IsBase(base) && Canonical(s, base)
    ensures ValueOf(s, base) >= 0 && Numeral(ValueOf(s, base), base) == s
    ensures ValueOf(s, base) == 0 <==> s == ['0']
  {
    var n := |s| - 1;
    var d := DigitOf(s[n]);
    DigitText(s[n], base);
    if n == 0 {
      OneDigit(s, base);
    } else {
      CanonicalInit(s, base);
      NumeralUnique(s[..n], base);
      NumeralStep(s, base);
    }
  }

  lemma OneDigit(s: seq<char>, base: int)
    requires IsBase(base) && |s| == 1 && IsDigit(s[0], base) && DIGITS[DigitOf(s[0])] == s[0]
    ensures ValueOf(s, base) == DigitOf(s[0]) && Numeral(ValueOf(s, base), base) == s
    ensures ValueOf(s, base) == 0 <==> s == ['0']
  {
    assert ValueOf(s[..0], base) == 0;
    DigitChar(DigitOf(s[0]));
  }

  lemma CanonicalInit(s: seq<char>, base: int)
    requires Canonical(s, base) && |s| > 1
    ensures Canonical(s[..|s| - 1], base) && s[..|s| - 1] != ['0']
  {
    hide ValueOf;
    assert s[..|s| - 1][0] == s[0];
  }

  lemma NumeralStep(s: seq<char>, base: int)
    requires IsBase(base) && Canonical(s, base) && |s| > 1 && DIGITS[DigitOf(s[|s| - 1])] == s[|s| - 1]
    requires var q := ValueOf(s[..|s| - 1], base); q > 0 && Numeral(q, base) == s[..|s| - 1]
    ensures ValueOf(s, base) > 0 && Numeral(ValueOf(s, base), base) == s && s != ['0']
  {
    hide DigitOf, Numeral, ValueOf;
    var n := |s| - 1;
    var q, d := ValueOf(s[..n], base), DigitOf(s[n]);
    assert s == s[..n] + [s[n]];
    ValueLast(s[..n], s[n], base);
    NumeralLast(q, d, base);
  }

  lemma NumeralLast(q: nat, d: nat, base: int)
    requires IsBase(base) && d < base && q > 0 && |DIGITS| == 36
    ensures q * base + d > 0 && Numeral(q * base + d, base) == Numeral(q, base) + [DIGITS[d]]
  {
    Recompose(q, d, base);
  }

  lemma DigitText(c: char, base: int)
    requires IsBase(base) && IsDigit(c, base) && !('a' <= c <= 'z')
    ensures DIGITS[DigitOf(c)] == c
  {
  }

  lemma Recompose(q: nat, d: nat, base: int)
    requires base >= 2 && d < base && q > 0
    ensures q * base + d >= base && (q * base + d) / base == q && (q * base + d) % base == d
  {
    var v := q * base + d;
    assert q * base >= base;
    DivLess(v, base);
    var e := v / base - q;
    assert e * base == d - v % base;
    MultipleFar(e, base);
  }

  lemma MultipleFar(e: int, base: int)
    requires base >= 2
    ensures e * base >= base || e * base <= -base || e == 0
  {
  }

  // ---- utoa -----------------------------------------------------------------------------------------

  function Reversed(s: seq<char>): (r: seq<char>)
    ensures |r| == |s| && forall k :: 0 <= k < |s| ==> r[k] == s[|s| - 1 - k]
  {
    seq(|s|, (k: int) requires 0 <= k < |s| => s[|s| - 1 - k])
  }

  /** utoa: the buffer holds the numeral and the terminator; for a base outside 2..36 the empty
      string. What follows the terminator is unchanged. */
  method Utoa(value: nat, buf: array<char>, base: int)
    requires value < U64 && buf.Length >= 65
    modifies buf
    ensures var text := if IsBase(base) then Numeral(value, base) else [];
            |text| <= 64 && buf[..] == text + ['\0'] + old(buf[..])[|text| + 1..]
  {
    hide Numeral, Reversed, Power, DigitOf;
    if base < 2 || base > 36 {
      buf[0] := '\0';
      return;
    }
    Power64();
    NumeralLength(value, base, 64);
    ghost var start := buf[..];
    var n := PutDigits(value, buf, base);
    ghost var digits := buf[..n];
    buf[n] := '\0';
    assert buf[..n] == digits;
    assert buf[n..] == ['\0'] + start[n + 1..];
    ReverseInPlace(buf, n);
    assert buf[..] == buf[..n] + buf[n..];
  }

  /** The loop that writes the digits, last one first. */
  method PutDigits(value: nat, buf: array<char>, base: int) returns (n: nat)
    requires IsBase(base) && |Numeral(value, base)| < buf.Length
    modifies buf
    ensures n == |Numeral(value, base)| && Reversed(buf[..n]) == Numeral(value, base) && buf[n..] == old(buf[n..])
  {
    hide Numeral, DigitOf;
    n := 0;
    var v: nat, more := value, true;
    ghost var all := Numeral(value, base);
    while more
      invariant n <= |all| && buf[n..] == old(buf[n..])
      invariant if more then n < |all| && all == Numeral(v, base) + Reversed(buf[..n]) else n == |all| && all == Reversed(buf[..n])
      decreases more, v
    {
      DivLess(v, base);
      DigitChar(v % base);
      NumeralTurn(v, base);
      ghost var was := buf[..n];
      buf[n] := DIGITS[v % base];
      assert buf[..n + 1] == was + [DIGITS[v % base]];
      assert Reversed(buf[..n + 1]) == [DIGITS[v % base]] + Reversed(was);
      n := n + 1;
      v := v / base;
      more := v != 0;
    }
  }

  /** One digit of a numeral, taken off the end. */
  lemma NumeralTurn(v: nat, base: int)
    requires IsBase(base) && v / base >= 0 && 0 <= v % base < 36 && |DIGITS| == 36
    ensures Numeral(v, base) == (if v / base == 0 then [] else Numeral(v / base, base)) + [DIGITS[v % base]]
  {
    DivCases(v, base);
  }

  lemma DivCases(v: nat, base: int)
    requires 2 <= base
    ensures if v < base then v / base == 0 && v % base == v else v / base != 0
  {
    DivLess(v, base);
  }

  /** The loop that turns the first n characters round. */
  method ReverseInPlace(buf: array<char>, n: nat)
    requires 0 < n <= buf.Length
    modifies buf
    ensures buf[..n] == Reversed(old(buf[..n])) && buf[n..] == old(buf[n..])
  {
    var i, j := 0, n - 1;
    while i < j
      invariant i + j == n - 1 && i <= j + 1
      invariant forall k :: 0 <= k < i ==> buf[k] == old(buf[n - 1 - k])
      invariant forall k :: j < k < n ==> buf[k] == old(buf[n - 1 - k])
      invariant forall k :: i <= k <= j ==> buf[k] == old(buf[k])
      invariant forall k :: n <= k < buf.Length ==> buf[k] == old(buf[k])
    {
      var c := buf[i];
      buf[i] := buf[j];
      buf[j] := c;
      i, j := i + 1, j - 1;
    }
  }

  // ---- strtoul ---------------------------------------------------------------------------------------

  predicate Blank(c: char) { c == ' ' || c == '\t' }

  /** The first position from p on that holds no blank. */
  function BlanksEnd(s: seq<char>, p: nat): (r: nat)
    requires p <= |s|
    ensures p <= r <= |s| && (r < |s| ==> !Blank(s[r])) && forall i :: p <= i < r ==> Blank(s[i])
    decreases |s| - p
  {
    if p < |s| && Blank(s[p]) then BlanksEnd(s, p + 1) else p
  }

  /** The first position from p on that holds no digit of the base. */
  function DigitsEnd(s: seq<char>, p: nat, base: int): (r: nat)
    requires p <= |s|
    ensures p <= r <= |s| && (r < |s| ==> !IsDigit(s[r], base)) && AllDigits(s[p..r], base)
    decreases |s| - p
  {
    if p < |s| && IsDigit(s[p], base) then
      var r := DigitsEnd(s, p + 1, base);
      assert s[p..r] == [s[p]] + s[p + 1..r];
      r
    else p
  }

  predicate Cross(c: char) { c == 'x' || c == 'X' }

  function CharAt(s: seq<char>, p: nat): char { if p < |s| then s[p] else '\0' }

  /** Where the digits begin, and in which base: after blanks, an optional plus sign, and the
      prefix "0x" for base 16; base 0 asks for the base to be read off the prefix. */
  function Prefix(s: seq<char>, base: int): (r: (nat, int))
    ensures r.0 <= |s| + 2
  {
    var p := BlanksEnd(s, 0);
    var q := if CharAt(s, p) == '+' then p + 1 else p;
    var hex := CharAt(s, q) == '0' && Cross(CharAt(s, q + 1));
    if base == 0 then
      if hex then (q + 2, 16) else if CharAt(s, q) == '0' then (q + 1, 8) else (q, 10)
    else if base == 16 && hex then (q + 2, 16)
    else (q, base)
  }

  ghost predicate Terminated(s: seq<char>) { exists i :: 0 <= i < |s| && s[i] == '\0' }

  /** strtoul: the value of the longest run of digits after the prefix, modulo 2^64, and the
      position where that run ends. */
  method Strtoul(s: seq<char>, base: int) returns (result: nat, end: nat)
    requires Terminated(s)
    ensures var (p, b) := Prefix(s, base);
            p < |s| && end == DigitsEnd(s, p, b) < |s| && result == ValueOf(s[p..end], b) % U64
  {
    hide ValueOf, DigitsEnd, BlanksEnd;
    ghost var z :| 0 <= z < |s| && s[z] == '\0';
    var p := SkipBlanks(s, z);
    if s[p] == '+' {
      p := p + 1;
    }
    var b := base;
    if base == 0 {
      if s[p] == '0' {
        if s[p + 1] == 'x' || s[p + 1] == 'X' {
          b, p := 16, p + 2;
        } else {
          b, p := 8, p + 1;
        }
      } else {
        b := 10;
      }
    } else if base == 16 {
      if s[p] == '0' && (s[p + 1] == 'x' || s[p + 1] == 'X') {
        p := p + 2;
      }
    }
    result, end := Convert(s, p, b, z);
  }

  /** The loop over blanks. */
  method SkipBlanks(s: seq<char>, ghost z: nat) returns (p: nat)
    requires z < |s| && s[z] == '\0'
    ensures p == BlanksEnd(s, 0) <= z
  {
    p := 0;
    while s[p] == ' ' || s[p] == '\t'
      invariant p <= z && BlanksEnd(s, p) == BlanksEnd(s, 0)
      decreases z - p
    {
      p := p + 1;
    }
  }

  /** The conversion loop. */
  method Convert(s: seq<char>, p: nat, base: int, ghost z: nat) returns (result: nat, end: nat)
    requires p <= z < |s| && s[z] == '\0'
    ensures p <= end <= z && end == DigitsEnd(s, p, base) && result == ValueOf(s[p..end], base) % U64
  {
    hide DigitOf, ValueOf, DigitsEnd, AllDigits;
    NoDigits(s[p..p], base);
    result, end := 0, p;
    while s[end] != '\0'
      invariant p <= end <= z && DigitsEnd(s, p, base) == DigitsEnd(s, end, base)
      invariant AllDigits(s[p..end], base) && result == ValueOf(s[p..end], base) % U64
      decreases z - end
    {
      var digit := DigitOf(s[end]);
      RunTurn(s, p, end, base);
      if digit < 0 || digit >= base {
        break;
      }
      Wraps(ValueOf(s[p..end], base), base, digit);
      result := (result * base + digit) % U64;
      end := end + 1;
    }
    RunTurn(s, p, end, base);
  }

  lemma NoDigits(s: seq<char>, base: int)
    requires s == []
    ensures AllDigits(s, base) && ValueOf(s, base) == 0
  {
  }

  /** One more character of a run of digits, or its end. */
  lemma RunTurn(s: seq<char>, p: nat, end: nat, base: int)
    requires p <= end < |s| && AllDigits(s[p..end], base)
    ensures !IsDigit(s[end], base) ==> DigitsEnd(s, end, base) == end
    ensures s[end] == '\0' ==> !IsDigit(s[end], base)
    ensures IsDigit(s[end], base) ==>
              && DigitsEnd(s, end, base) == DigitsEnd(s, end + 1, base) && AllDigits(s[p..end + 1], base)
              && ValueOf(s[p..end + 1], base) == ValueOf(s[p..end], base) * base + DigitOf(s[end])
  {
    assert s[p..end + 1] == s[p..end] + [s[end]];
    if IsDigit(s[end], base) {
      ValueLast(s[p..end], s[end], base);
    }
  }

  lemma ValueLast(s: seq<char>, c: char, base: int)
    requires AllDigits(s, base) && IsDigit(c, base)
    ensures AllDigits(s + [c], base) && ValueOf(s + [c], base) == ValueOf(s, base) * base + DigitOf(c)
  {
    hide DigitOf;
    assert (s + [c])[..|s|] == s;
  }

  lemma Wraps(x: int, base: int, digit: int)
    ensures (x % U64 * base + digit) % U64 == (x * base + digit) % U64
  {
    var k := x / U64;
    var y := x % U64 * base + digit;
    assert x * base + digit == k * base * U64 + y;
    WrapsOff(k * base, y);
  }

  lemma WrapsOff(k: int, y: int)
    ensures (k * U64 + y) % U64 == y % U64
  {
  }

  // ---- round trip ------------------------------------------------------------------------------------

  /** What strtoul returns for s. */
  function Parsed(s: seq<char>, base: int): (r: (nat, nat))
    requires Prefix(s, base).0 <= |s|
  {
    var (p, b) := Prefix(s, base);
    var end := DigitsEnd(s, p, b);
    (ValueOf(s[p..end], b) % U64, end)
  }

  lemma {:induction false} RunEnds(s: seq<char>, p: nat, n: nat, base: int)
    requires p <= n < |s| && AllDigits(s[p..n], base) && !IsDigit(s[n], base)
    ensures DigitsEnd(s, p, base) == n
    decreases n - p
  {
    if p < n {
      assert s[p..n][0] == s[p] && s[p + 1..n] == s[p..n][1..];
      RunEnds(s, p + 1, n, base);
    }
  }

  /** A run of digits after the prefix is what is parsed. */
  lemma RunParsed(s: seq<char>, base: int, p: nat, b: int, n: nat)
    requires Prefix(s, base) == (p, b) && p <= n < |s| && AllDigits(s[p..n], b) && !IsDigit(s[n], b)
    ensures Parsed(s, base) == (ValueOf(s[p..n], b) % U64, n)
  {
    RunEnds(s, p, n, b);
  }

  /** strtoul in the same base applied to utoa's output returns the value and stops at the
      terminator, whatever follows it. */
  lemma RoundTrip(value: nat, base: int, tail: seq<char>)
    requires value < U64 && IsBase(base)
    ensures var text := Numeral(value, base);
            var s := text + ['\0'] + tail;
            Prefix(s, base) == (0, base) && Parsed(s, base) == (value, |text|)
  {
    hide Numeral, Prefix, Parsed, ValueOf;
    var text := Numeral(value, base);
    var s := text + ['\0'] + tail;
    NumeralValue(value, base);
    NoLeadingZero(value, base);
    assert s[0] == text[0] && IsDigit(text[0], base);
    PlainPrefix(s, base);
    assert s[0..|text|] == text;
    RunParsed(s, base, 0, base, |text|);
  }

  /** A string that begins with a digit has no prefix to skip, except "0x" in base 16. */
  lemma PlainPrefix(s: seq<char>, base: int)
    requires IsBase(base) && |s| > 1 && IsDigit(s[0], base) && (base == 16 ==> !Cross(s[1]))
    ensures Prefix(s, base) == (0, base)
  {
  }

  /** Decimal output also survives the automatic choice of the base. */
  lemma DecimalDetected(value: nat, tail: seq<char>)
    requires value < U64
    ensures var text := Numeral(value, 10);
            var s := text + ['\0'] + tail;
            Prefix(s, 0).0 <= |s| && Parsed(s, 0) == (value, |text|)
  {
    hide Numeral, Prefix, Parsed, ValueOf, IsDigit, AllDigits;
    NumeralValue(value, 10);
    NoLeadingZero(value, 10);
    if value == 0 {
      ZeroDetected(tail);
    } else {
      RunDetected(Numeral(value, 10), tail);
    }
  }

  lemma ZeroDetected(tail: seq<char>)
    ensures var s := ['0'] + ['\0'] + tail; Prefix(s, 0).0 <= |s| && Parsed(s, 0) == (0, 1)
  {
    hide Prefix, Parsed, ValueOf;
    var s := ['0'] + ['\0'] + tail;
    assert s[0] == '0' && s[1] == '\0';
    DecimalPrefix(s);
    assert s[1..1] == [];
    EmptyValue(8);
    RunParsed(s, 0, 1, 8, 1);
  }

  lemma RunDetected(text: seq<char>, tail: seq<char>)
    requires text != [] && AllDigits(text, 10) && text[0] != '0'
    ensures var s := text + ['\0'] + tail; Prefix(s, 0).0 <= |s| && Parsed(s, 0) == (ValueOf(text, 10) % U64, |text|)
  {
    hide Prefix, Parsed, ValueOf;
    var s := text + ['\0'] + tail;
    assert s[0] == text[0] && IsDigit(text[0], 10) && s[|text|] == '\0';
    assert |text| > 1 ==> s[1] == text[1] && IsDigit(text[1], 10);
    DecimalPrefix(s);
    assert s[0..|text|] == text;
    RunParsed(s, 0, 0, 10, |text|);
  }

  lemma EmptyValue(base: int)
    ensures ValueOf([], base) == 0
  {
  }

  lemma DecimalPrefix(s: seq<char>)
    requires |s| > 1 && IsDigit(s[0], 10) && !Cross(s[1])
    ensures Prefix(s, 0) == if s[0] == '0' then (1, 8) else (0, 10)
  {
  }

  // ---- prefixes and lower case ------------------------------------------------------------------------

  predicate AllBlank(s: seq<char>) { forall i :: 0 <= i < |s| ==> s[i] == ' ' || s[i] == '\t' }

  lemma {:induction false} BlanksSkipped(blanks: seq<char>, rest: seq<char>, p: nat)
    requires AllBlank(blanks) && rest != [] && rest[0] != ' ' && rest[0] != '\t' && p <= |blanks|
    ensures BlanksEnd(blanks + rest, p) == |blanks|
    decreases |blanks| - p
  {
    var s := blanks + rest;
    if p < |blanks| {
      assert s[p] == blanks[p];
      BlanksSkipped(blanks, rest, p + 1);
    } else {
      assert s[p] == rest[0];
    }
  }

  /** The prefixes strtoul knows, and the base each leads to. */
  datatype Mark = Plain | Hex(upper: bool)

  function MarkText(m: Mark): seq<char> {
    match m
    case Plain => []
    case Hex(upper) => ['0', if upper then 'X' else 'x']
  }

  /** What may stand before a printed number: blanks, a plus sign, and "0x" or "0X" where the base
      is 16 or is to be found out. */
  lemma PrefixRule(blanks: seq<char>, plus: bool, mark: Mark, text: seq<char>, tail: seq<char>, base: int)
    requires AllBlank(blanks) && text != [] && IsDigit(text[0], 36) && (base == 16 && |text| > 1 ==> !Cross(text[1]))
    requires mark == Plain ==> base != 0
    requires mark.Hex? ==> base == 16 || base == 0
    ensures var start := blanks + (if plus then ['+'] else []) + MarkText(mark);
            Prefix(start + (text + ['\0'] + tail), base) == (|start|, if mark.Hex? then 16 else base)
  {
    var sign := if plus then ['+'] else [];
    var rest := sign + MarkText(mark) + (text + ['\0'] + tail);
    var s := blanks + rest;
    assert blanks + sign + MarkText(mark) + (text + ['\0'] + tail) == s;
    assert rest[0] == if plus then '+' else if mark.Hex? then '0' else text[0];
    BlanksSkipped(blanks, rest, 0);
    var q := |blanks| + |sign|;
    assert CharAt(s, q) == if mark.Hex? then '0' else text[0];
    assert CharAt(s, q + 1) == if mark.Hex? then MarkText(mark)[1] else (text + ['\0'] + tail)[1];
  }

  /** Round trip with any such prefix. */
  lemma PrefixedRoundTrip(value: nat, base: int, blanks: seq<char>, plus: bool, mark: Mark, tail: seq<char>)
    requires value < U64 && AllBlank(blanks)
    requires if mark.Hex? then base == 16 || base == 0 else IsBase(base)
    ensures var b := if mark.Hex? then 16 else base;
            var start := blanks + (if plus then ['+'] else []) + MarkText(mark);
            var s := start + (Numeral(value, b) + ['\0'] + tail);
            Prefix(s, base) == (|start|, b) && Parsed(s, base) == (value, |start| + |Numeral(value, b)|)
  {
    hide Prefix, Parsed, ValueOf, Numeral;
    var b := if mark.Hex? then 16 else base;
    var text := Numeral(value, b);
    var start := blanks + (if plus then ['+'] else []) + MarkText(mark);
    var s := start + (text + ['\0'] + tail);
    NumeralValue(value, b);
    assert IsDigit(text[0], b) && (|text| > 1 ==> IsDigit(text[1], b));
    PrefixRule(blanks, plus, mark, text, tail, base);
    assert s[|start|..|start| + |text|] == text && s[|start| + |text|] == '\0';
    RunParsed(s, base, |start|, b, |start| + |text|);
  }

  /** A leading 0 alone asks for octal where the base is to be found out. */
  lemma OctalDetected(value: nat, tail: seq<char>)
    requires value < U64
    ensures var s := ['0'] + (Numeral(value, 8) + ['\0'] + tail);
            Prefix(s, 0) == (1, 8) && Parsed(s, 0) == (value, 1 + |Numeral(value, 8)|)
  {
    hide Prefix, Parsed, ValueOf, Numeral;
    var text := Numeral(value, 8);
    var s := ['0'] + (text + ['\0'] + tail);
    NumeralValue(value, 8);
    assert s[0] == '0' && s[1] == text[0] && IsDigit(text[0], 8);
    OctalPrefix(s);
    assert s[1..1 + |text|] == text && s[1 + |text|] == '\0';
    RunParsed(s, 0, 1, 8, 1 + |text|);
  }

  lemma OctalPrefix(s: seq<char>)
    requires |s| > 1 && s[0] == '0' && !Cross(s[1])
    ensures Prefix(s, 0) == (1, 8)
  {
  }

  function Lower(c: char): char {
    if 'A' <= c <= 'Z' then (c as int + 32) as char else c
  }

  function LowerText(s: seq<char>): (r: seq<char>)
    ensures |r| == |s| && forall i :: 0 <= i < |s| ==> r[i] == Lower(s[i])
  {
    seq(|s|, (i: int) requires 0 <= i < |s| => Lower(s[i]))
  }

  /** Letters count the same in lower case. */
  lemma {:induction false} LowerCase(s: seq<char>, base: int)
    requires AllDigits(s, base)
    ensures AllDigits(LowerText(s), base) && ValueOf(LowerText(s), base) == ValueOf(s, base)
  {
    var t := LowerText(s);
    forall i | 0 <= i < |s| ensures IsDigit(t[i], base) && DigitOf(t[i]) == DigitOf(s[i]) {
      assert IsDigit(s[i], base) && t[i] == Lower(s[i]);
      LowerDigit(s[i]);
    }
    if s != [] {
      var n := |s| - 1;
      LowerCase(s[..n], base);
      assert t[..n] == LowerText(s[..n]);
    }
  }

  lemma LowerDigit(c: char)
    ensures DigitOf(Lower(c)) == DigitOf(c)
  {
  }
}
