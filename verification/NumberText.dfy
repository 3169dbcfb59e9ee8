/** Number printing: digits filled in least significant first, then reversed in place. */
module NumberText {
  import opened Words

  // ---- The digit tables ----

  const DIGITS: string := "0123456789abcdefghijklmnopqrstuvwxyz"
  const NEGATIVE_DIGITS: string := "zyxwvutsrqponmlkjihgfedcba987654321"

  /** The table of the signed conversion, indexed from -35 to 35. */
  const SIGNED_DIGITS: string := NEGATIVE_DIGITS + DIGITS

  function DigitChar(d: nat): char
    requires d < 36
  {
    if d < 10 then ('0' as int + d) as char else ('a' as int + (d - 10)) as char
  }

  function DigitValue(c: char): nat {
    if '0' <= c <= '9' then c as int - '0' as int
    else if 'a' <= c <= 'z' then c as int - 'a' as int + 10
    else 0
  }

  lemma DigitTable(d: nat)
    requires d < 36
    ensures |DIGITS| == 36 && DIGITS[d] == DigitChar(d)
  {
  }

  lemma NegativeTable(d: nat)
    requires 0 < d < 36
    ensures |NEGATIVE_DIGITS| == 35 && NEGATIVE_DIGITS[35 - d] == DigitChar(d)
  {
  }

  function Abs(x: int): nat { if x < 0 then -x else x }

  /** A remainder of either sign reads the digit of its magnitude. */
  lemma SignedTable(r: int)
    requires -36 < r < 36
    ensures |SIGNED_DIGITS| == 71 && SIGNED_DIGITS[35 + r] == DigitChar(Abs(r))
  {
    assert |NEGATIVE_DIGITS| == 35 by { NegativeTable(1); }
    if r < 0 { NegativeTable(-r); } else { DigitTable(r); }
  }

  // ---- The digits of a number ----

  predicate Base(b: int) { 2 <= b <= 36 }

  /** Quotient and remainder by repeated subtraction. */
  function Div(v: nat, b: nat): (q: nat)
    requires Base(b)
    ensures v > 0 ==> q < v
  {
    if v < b then 0 else 1 + Div(v - b, b)
  }

  function Mod(v: nat, b: nat): (r: nat)
    requires Base(b)
    ensures r < b
  {
    if v < b then v else Mod(v - b, b)
  }

  lemma {:induction false} Split(v: nat, b: nat)
    requires Base(b)
    ensures v == Div(v, b) * b + Mod(v, b)
    decreases v
  {
    if v >= b { Split(v - b, b); }
  }

  lemma QuotientUnique(v: nat, b: nat, q: nat, r: nat)
    requires b > 0 && v == q * b + r && r < b
    ensures q == v / b && r == v % b
  {
    var k := v / b;
    assert q < k ==> (q + 1) * b <= k * b;
    assert k < q ==> (k + 1) * b <= q * b;
  }

  /** They are the machine's. */
  lemma DivIs(v: nat, b: nat)
    requires Base(b)
    ensures Div(v, b) == v / b && Mod(v, b) == v % b
  {
    Split(v, b);
    QuotientUnique(v, b, Div(v, b), Mod(v, b));
  }

  /** Least significant digit first, as the fill loop produces them. */
  function LowFirst(v: nat, b: nat): (s: string)
    requires Base(b)
    ensures |s| >= 1
    decreases v
  {
    [DigitChar(Mod(v, b))] + if Div(v, b) == 0 then [] else LowFirst(Div(v, b), b)
  }

  function Reverse<T>(s: seq<T>): (r: seq<T>)
    ensures |r| == |s|
    ensures forall i :: 0 <= i < |s| ==> r[i] == s[|s| - 1 - i]
  {
    seq(|s|, i requires 0 <= i < |s| => s[|s| - 1 - i])
  }

  /** Most significant digit first, as printed. */
  function Numeral(v: nat, b: nat): (s: string)
    requires Base(b)
    ensures |s| >= 1
    decreases v
  {
    (if Div(v, b) == 0 then [] else Numeral(Div(v, b), b)) + [DigitChar(Mod(v, b))]
  }

  lemma ReverseAppend<T>(s: seq<T>, x: T)
    ensures Reverse([x] + s) == Reverse(s) + [x]
  {
  }

  lemma {:induction false} NumeralIsReversed(v: nat, b: nat)
    requires Base(b)
    ensures Numeral(v, b) == Reverse(LowFirst(v, b))
    decreases v
  {
    if Div(v, b) == 0 {
      ReverseAppend([], DigitChar(Mod(v, b)));
    } else {
      NumeralIsReversed(Div(v, b), b);
      ReverseAppend(LowFirst(Div(v, b), b), DigitChar(Mod(v, b)));
    }
  }

  // ---- Reading it back ----

  function Parse(s: string, b: nat): nat {
    if s == [] then 0 else Parse(s[..|s| - 1], b) * b + DigitValue(s[|s| - 1])
  }

  lemma ParseLast(s: string, b: nat, q: nat, r: nat)
    requires Parse(s, b) == q && r < 36
    ensures Parse(s + [DigitChar(r)], b) == q * b + r
  {
    assert (s + [DigitChar(r)])[..|s|] == s;
  }

  /** Reading a printed number gives it back. */
  lemma {:induction false} RoundTrip(v: nat, b: nat)
    requires Base(b)
    ensures Parse(Numeral(v, b), b) == v
    decreases v
  {
    Split(v, b);
    if Div(v, b) == 0 {
      ParseLast([], b, 0, Mod(v, b));
    } else {
      RoundTrip(Div(v, b), b);
      ParseLast(Numeral(Div(v, b), b), b, Div(v, b), Mod(v, b));
    }
  }

  /** There is no leading zero. */
  lemma {:induction false} NoLeadingZero(v: nat, b: nat)
    requires Base(b)
    ensures Numeral(v, b)[0] == '0' <==> v == 0
    decreases v
  {
    if Div(v, b) == 0 { Split(v, b); } else { NoLeadingZero(Div(v, b), b); }
  }

  function Power(b: nat, n: nat): nat { if n == 0 then 1 else b * Power(b, n - 1) }

  lemma MulMono(p: nat, q: nat, b: nat)
    requires p <= q
    ensures b * p <= q * b
  {
  }

  /** A number below `b^n` has at most `n` digits. */
  lemma {:induction false} NumeralLength(v: nat, b: nat, n: nat)
    requires Base(b) && n > 0 && v < Power(b, n)
    ensures |Numeral(v, b)| <= n
    decreases n
  {
    if Div(v, b) != 0 {
      FewerDigits(v, b, n);
      NumeralLength(Div(v, b), b, n - 1);
    }
  }

  lemma FewerDigits(v: nat, b: nat, n: nat)
    requires Base(b) && n > 0 && v < Power(b, n) && Div(v, b) != 0
    ensures n > 1 && Div(v, b) < Power(b, n - 1)
  {
    var q, p := Div(v, b), Power(b, n - 1);
    Split(v, b);
    if p <= q {
      MulMono(p, q, b);
      assert false;
    }
  }

  // ---- The conversions ----

  /** C division: the quotient is truncated toward zero. */
  function Quotient(a: int, b: nat): int
    requires b > 0
  {
    if a >= 0 then a / b else -((-a) / b)
  }

  lemma ReverseUnique<T>(s: seq<T>, t: seq<T>)
    requires |t| == |s| && forall k :: 0 <= k < |s| ==> t[k] == s[|s| - 1 - k]
    ensures t == Reverse(s)
  {
  }

  /** Reverses `buf[off..end]` in place with two moving pointers. */
  method ReverseRange(buf: array<char>, off: nat, end: nat)
    requires off <= end <= buf.Length
    modifies buf
    ensures forall k :: off <= k < end ==> buf[k] == old(buf[off + end - 1 - k])
    ensures forall k :: 0 <= k < buf.Length && !(off <= k < end) ==> buf[k] == old(buf[k])
  {
    var i, j: int := off, end - 1;
    while i < j
      invariant off <= i <= j + 2 && i + j == off + end - 1
      invariant forall k :: 0 <= k < buf.Length && (i <= k <= j || !(off <= k < end)) ==> buf[k] == old(buf[k])
      invariant forall k :: off <= k < end && !(i <= k <= j) ==> buf[k] == old(buf[off + end - 1 - k])
    {
      buf[i], buf[j] := buf[j], buf[i];
      i, j := i + 1, j - 1;
    }
  }

  /** The buffer from `off` on holds the string `s` and its terminator. */
  ghost predicate Holds(buf: array<char>, off: nat, s: string)
    reads buf
  {
    off + |s| < buf.Length && buf[off..off + |s|] == s && buf[off + |s|] == '\0'
  }

  /** The common tail of the conversions: terminate, then reverse. */
  method Finish(buf: array<char>, off: nat, len: nat)
    requires off + len < buf.Length
    modifies buf
    ensures Holds(buf, off, Reverse(old(buf[off..off + len])))
    ensures forall k :: 0 <= k < off ==> buf[k] == old(buf[k])
  {
    ghost var s := buf[off..off + len];
    buf[off + len] := '\0';
    ReverseRange(buf, off, off + len);
    ReverseUnique(s, buf[off..off + len]);
  }

  /** One digit: the remainder looked up in the table, and the quotient. */
  method NextDigit(t: nat, base: nat) returns (c: char, v: nat)
    requires Base(base)
    ensures v == Div(t, base) && c == DigitChar(Mod(t, base))
  {
    DivIs(t, base);
    Split(t, base);
    v := t / base;
    DigitTable(Mod(t, base));
    c := DIGITS[t - v * base];
  }

  lemma LowFirstStep(v: nat, base: nat)
    requires Base(base)
    ensures LowFirst(v, base) ==
      [DigitChar(Mod(v, base))] + if Div(v, base) == 0 then [] else LowFirst(Div(v, base), base)
  {
  }

  /** The fill loop: the digits of `value`, least significant first, from `off` on. */
  method Fill(value: nat, buf: array<char>, off: nat, base: nat) returns (len: nat)
    requires Base(base) && off + |LowFirst(value, base)| < buf.Length
    modifies buf
    ensures len == |LowFirst(value, base)| && buf[off..off + len] == LowFirst(value, base)
    ensures forall k :: 0 <= k < off ==> buf[k] == old(buf[k])
  {
    ghost var all := LowFirst(value, base);
    var v: nat := value;
    len := 0;
    while true
      invariant len < |all| && all[len..] == LowFirst(v, base)
      invariant buf[off..off + len] == all[..len]
      invariant forall k :: 0 <= k < off ==> buf[k] == old(buf[k])
      decreases v
    {
      LowFirstStep(v, base);
      var c;
      c, v := NextDigit(v, base);
      assert all[len] == all[len..][0] == c && all[len + 1..] == all[len..][1..];
      buf[off + len] := c;
      len := len + 1;
      assert buf[off..off + len] == all[..len];
      if v == 0 {
        return;
      }
    }
  }

  /** The conversion without its special cases: fill, terminate, reverse. */
  method Convert(value: nat, buf: array<char>, off: nat, base: nat) returns (len: nat)
    requires Base(base) && off + |Numeral(value, base)| < buf.Length
    modifies buf
    ensures len == |Numeral(value, base)| && Holds(buf, off, Numeral(value, base))
    ensures forall k :: 0 <= k < off ==> buf[k] == old(buf[k])
  {
    NumeralIsReversed(value, base);
    len := Fill(value, buf, off, base);
    Finish(buf, off, len);
  }

  /** What the unsigned conversions print: nothing for a bad base. */
  function Printed(value: nat, base: int): string {
    if Base(base) then Numeral(value, base) else ""
  }

  /** `utoa`. */
  method Utoa(value: U32, buf: array<char>, base: int) returns (len: nat)
    requires |Printed(value, base)| < buf.Length
    modifies buf
    ensures len == |Printed(value, base)| && Holds(buf, 0, Printed(value, base))
  {
    if base < 2 || base > 36 {
      buf[0] := '\0';
      return 0;
    }
    len := Convert(value, buf, 0, base);
  }

  /** `utoa64`, writing from `off` on. */
  method Utoa64(value: U64, buf: array<char>, off: nat, base: int) returns (len: nat)
    requires off + |Printed(value, base)| < buf.Length
    modifies buf
    ensures len == |Printed(value, base)| && Holds(buf, off, Printed(value, base))
    ensures forall k :: 0 <= k < off ==> buf[k] == old(buf[k])
  {
    if base < 2 || base > 36 {
      buf[off] := '\0';
      return 0;
    }
    if value == 0 {
      PrintZero(buf, off, base);
      return 1;
    }
    len := Convert(value, buf, off, base);
  }

  method PrintZero(buf: array<char>, off: nat, base: nat)
    requires Base(base) && off + |Numeral(0, base)| < buf.Length
    modifies buf
    ensures |Numeral(0, base)| == 1 && Holds(buf, off, Numeral(0, base))
    ensures forall k :: 0 <= k < off ==> buf[k] == old(buf[k])
  {
    ZeroNumeral(base);
    buf[off] := '0';
    buf[off + 1] := '\0';
  }

  lemma ZeroNumeral(base: nat)
    requires Base(base)
    ensures Numeral(0, base) == "0"
  {
  }

  /** What `itoa64` prints: a sign for a negative number in any base. */
  function Printed64(value: int, base: int): string {
    if value < 0 then "-" + Printed(-value, base) else Printed(value, base)
  }

  /** `itoa64`; the most negative value is excluded, since its negation overflows. */
  method Itoa64(value: int, buf: array<char>, base: int) returns (len: nat)
    requires -0x8000_0000_0000_0000 < value < 0x8000_0000_0000_0000
    requires |Printed64(value, base)| < buf.Length
    modifies buf
    ensures len == |Printed64(value, base)| && Holds(buf, 0, Printed64(value, base))
  {
    if value < 0 {
      len := Utoa64(-value, buf, 1, base);
      buf[0] := '-';
      buf[len + 1] := '\0';
      Prepend(buf[..], Printed(-value, base));
      return len + 1;
    }
    len := Utoa64(value, buf, 0, base);
  }

  lemma Prepend(s: string, p: string)
    requires |p| + 1 <= |s| && s[0] == '-' && s[1..1 + |p|] == p
    ensures s[0..|p| + 1] == "-" + p
  {
  }

  // ---- The signed 32-bit conversion, which never negates its argument ----

  /** The quotient the code computes has the magnitude of the quotient of the magnitudes, ... */
  lemma SignedQuotient(t: int, b: nat)
    requires Base(b)
    ensures Quotient(t, b) == if t >= 0 then Div(Abs(t), b) else 0 - Div(Abs(t), b)
  {
    DivIs(Abs(t), b);
  }

  /** ... and the remainder is the digit of the magnitude, with the sign of `t`. */
  lemma SignedRemainder(t: int, b: nat)
    requires Base(b)
    ensures Abs(t - Quotient(t, b) * b) == Mod(Abs(t), b)
  {
    Split(Abs(t), b);
    SignedQuotient(t, b);
    var q := Div(Abs(t), b);
    assert (0 - q) * b == 0 - q * b;
  }

  method NextSignedDigit(t: int, base: nat) returns (c: char, v: int)
    requires Base(base)
    ensures Abs(v) == Div(Abs(t), base) && c == DigitChar(Mod(Abs(t), base))
    ensures v != 0 ==> (v < 0 <==> t < 0)
  {
    SignedQuotient(t, base);
    SignedRemainder(t, base);
    v := Quotient(t, base);
    var r := t - v * base;
    SignedTable(r);
    c := SIGNED_DIGITS[35 + r];
  }

  /** The fill loop of `itoa`; `last` is the value the last digit was taken from. */
  method FillSigned(value: int, buf: array<char>, base: nat) returns (len: nat, last: int)
    requires Base(base) && |LowFirst(Abs(value), base)| < buf.Length
    modifies buf
    ensures len == |LowFirst(Abs(value), base)| && buf[..len] == LowFirst(Abs(value), base)
    ensures last < 0 <==> value < 0
  {
    ghost var all := LowFirst(Abs(value), base);
    var v := value;
    len, last := 0, value;
    while true
      invariant len < |all| && all[len..] == LowFirst(Abs(v), base)
      invariant buf[..len] == all[..len]
      invariant v < 0 <==> value < 0
      decreases Abs(v)
    {
      LowFirstStep(Abs(v), base);
      last := v;
      var c;
      c, v := NextSignedDigit(v, base);
      assert all[len] == all[len..][0] == c && all[len + 1..] == all[len..][1..];
      buf[len] := c;
      len := len + 1;
      assert buf[..len] == all[..len];
      if v == 0 {
        return;
      }
    }
  }

  /** What `itoa` prints: a sign in base 10 only. */
  function PrintedSigned(value: int, base: int): string {
    if value < 0 && base == 10 then "-" + Printed(-value, base) else Printed(Abs(value), base)
  }

  lemma SignedText(value: int, base: nat)
    requires Base(base)
    ensures PrintedSigned(value, base) ==
      (if value < 0 && base == 10 then "-" else "") + Reverse(LowFirst(Abs(value), base))
  {
    NumeralIsReversed(Abs(value), base);
  }

  /** `itoa`, for every 32-bit value including the most negative one. */
  method Itoa(value: int, buf: array<char>, base: int) returns (len: nat)
    requires -0x8000_0000 <= value < 0x8000_0000
    requires |PrintedSigned(value, base)| < buf.Length
    modifies buf
    ensures len == |PrintedSigned(value, base)| && Holds(buf, 0, PrintedSigned(value, base))
  {
    if base < 2 || base > 36 {
      buf[0] := '\0';
      return 0;
    }
    len := PrintDigits(value, buf, base);
  }

  method PrintDigits(value: int, buf: array<char>, base: nat) returns (len: nat)
    requires Base(base) && |PrintedSigned(value, base)| < buf.Length
    modifies buf
    ensures len == |PrintedSigned(value, base)| && Holds(buf, 0, PrintedSigned(value, base))
  {
    SignedText(value, base);
    var last;
    len, last := FillSigned(value, buf, base);
    len := SignAndFinish(buf, len, last < 0 && base == 10);
  }

  /** Appends the sign if there is one, then terminates and reverses. */
  method SignAndFinish(buf: array<char>, n: nat, sign: bool) returns (len: nat)
    requires n + (if sign then 1 else 0) < buf.Length
    modifies buf
    ensures len == n + (if sign then 1 else 0)
    ensures Holds(buf, 0, (if sign then "-" else "") + Reverse(old(buf[..n])))
  {
    ghost var low := buf[..n];
    len := n;
    if sign {
      buf[n] := '-';
      len := len + 1;
    }
    ghost var all := low + if sign then ['-'] else [];
    assert buf[0..len] == all;
    Finish(buf, 0, len);
    SignReversed(low, sign);
  }

  lemma SignReversed(low: string, sign: bool)
    ensures Reverse(low + if sign then ['-'] else []) == (if sign then "-" else "") + Reverse(low)
  {
    if !sign { assert low + [] == low && "" + Reverse(low) == Reverse(low); }
  }

  // ---- What the printed strings say ----

  function ParseSigned(s: string): int {
    if s != [] && s[0] == '-' then 0 - Parse(s[1..], 10) else Parse(s, 10)
  }

  lemma {:induction false} FirstIsDigit(v: nat, b: nat)
    requires Base(b)
    ensures Numeral(v, b)[0] != '-'
    decreases v
  {
    if Div(v, b) != 0 { FirstIsDigit(Div(v, b), b); }
  }

  /** Base 10: what `itoa` and `itoa64` print reads back as the value, whatever its sign. */
  lemma SignedRoundTrip(value: int)
    ensures ParseSigned(PrintedSigned(value, 10)) == value
    ensures ParseSigned(Printed64(value, 10)) == value
  {
    RoundTrip(Abs(value), 10);
    FirstIsDigit(Abs(value), 10);
    assert ("-" + Numeral(Abs(value), 10))[1..] == Numeral(Abs(value), 10);
  }

  lemma TenToTwenty()
    ensures Power(10, 20) == 100_000_000_000_000_000_000
  {
    assert Power(10, 5) == 100_000;
    assert Power(10, 10) == 10_000_000_000;
    assert Power(10, 15) == 1_000_000_000_000_000;
  }

  lemma SixteenToSixteen()
    ensures Power(16, 16) == 0x1_0000_0000_0000_0000
  {
    assert Power(16, 4) == 0x1_0000;
    assert Power(16, 8) == 0x1_0000_0000;
    assert Power(16, 12) == 0x1_0000_0000_0000;
  }

  /** The 32-byte buffer of `kprintf` is large enough for every conversion it asks for. */
  lemma BufferSuffices(value: int)
    requires -0x1_0000_0000_0000_0000 < value < 0x1_0000_0000_0000_0000
    ensures |PrintedSigned(value, 10)| < 32 && |Printed64(value, 10)| < 32
    ensures |Printed(Abs(value), 10)| < 32 && |Printed(Abs(value), 16)| < 32
  {
    TenToTwenty();
    SixteenToSixteen();
    NumeralLength(Abs(value), 10, 20);
    NumeralLength(Abs(value), 16, 16);
  }

  /** Digits are 0 to 9 and then the small letters; in base 10 and 16 numbers read as usual. */
  lemma DigitsAre(d: nat)
    requires d < 36
    ensures DigitChar(d) == "0123456789abcdefghijklmnopqrstuvwxyz"[d]
    ensures d < 10 ==> Numeral(d, 10) == [DigitChar(d)]
    ensures 10 <= d < 16 ==> Numeral(d, 16) == [DigitChar(d)]
  {
    DigitTable(d);
  }

  /** Exactly for the bases from 2 to 36 something is printed. */
  lemma BasesAre(v: nat, base: int)
    ensures Printed(v, base) != "" <==> 2 <= base <= 36
  {
  }

  /** In other bases `itoa` prints the magnitude alone, while `itoa64` puts the sign in front. */
  lemma SignsInBases(value: int, base: nat)
    requires 2 <= base <= 36
    ensures base != 10 ==> Parse(PrintedSigned(value, base), base) == Abs(value)
    ensures base != 10 ==> PrintedSigned(value, base)[0] != '-'
    ensures value >= 0 ==> Printed64(value, base)[0] != '-' && Parse(Printed64(value, base), base) == value
    ensures value < 0 ==> Printed64(value, base)[0] == '-' && Parse(Printed64(value, base)[1..], base) == -value
  {
    RoundTrip(Abs(value), base);
    FirstIsDigit(Abs(value), base);
    assert ("-" + Numeral(Abs(value), base))[1..] == Numeral(Abs(value), base);
  }
}
