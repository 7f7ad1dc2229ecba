// Integer to text: positional numerals, and the in-place conversion that writes
// the digits backwards through a table and then reverses them.

/** Numerals in any base up to sixteen. */
module Numerals {
  import opened Basics

  const DIGITS: string := "0123456789ABCDEF"

  type Base = b: nat | 2 <= b <= 16 witness 10

  /** The numeral of n: the specification of the conversions. */
  function Numeral(n: nat, base: Base): string
    decreases n
  {
    if n < base then [DIGITS[n]] else Numeral(n / base, base) + [DIGITS[n % base]]
  }

  function DigitValue(c: char): nat {
    if '0' <= c <= '9' then c as int - '0' as int
    else if 'A' <= c <= 'F' then c as int - 'A' as int + 10
    else 0
  }

  /** Reading a numeral. */
  function ValueOf(s: string, base: Base): nat {
    if s == "" then 0 else ValueOf(s[..|s| - 1], base) * base + DigitValue(s[|s| - 1])
  }

  lemma DigitRoundTrip(d: nat)
    requires d < 16
    ensures DigitValue(DIGITS[d]) == d
  {
  }

  lemma DivMod(n: nat, base: Base)
    ensures n / base * base + n % base == n && 0 <= n % base < base
    ensures n >= base ==> 0 < n / base < n
  {
  }

  lemma {:induction false} NumeralReadsBack(n: nat, base: Base)
    ensures ValueOf(Numeral(n, base), base) == n
    decreases n
  {
    if n < base {
      DigitRoundTrip(n);
      assert [DIGITS[n]][..0] == "";
    } else {
      DivMod(n, base);
      var front := Numeral(n / base, base);
      var s := front + [DIGITS[n % base]];
      assert s[..|s| - 1] == front;
      NumeralReadsBack(n / base, base);
      DigitRoundTrip(n % base);
    }
  }

  /** No leading zero, except for zero itself. */
  lemma {:induction false} NoLeadingZero(n: nat, base: Base)
    ensures Numeral(n, base) != ""
    ensures n > 0 ==> Numeral(n, base)[0] != '0'
    decreases n
  {
    if n >= base {
      DivMod(n, base);
      NoLeadingZero(n / base, base);
    }
  }

  function Power(base: nat, k: nat): nat {
    if k == 0 then 1 else base * Power(base, k - 1)
  }

  /** k digits are enough for every number below base^k. */
  lemma {:induction false} NumeralLength(n: nat, base: Base, k: nat)
    requires k >= 1 && n < Power(base, k)
    ensures |Numeral(n, base)| <= k
    decreases k
  {
    if n >= base {
      DivMod(n, base);
      assert Power(base, 1) == base * Power(base, 0);
      if n / base >= Power(base, k - 1) {
        MulLe(Power(base, k - 1), n / base, base);
      }
      NumeralLength(n / base, base, k - 1);
    }
  }

  lemma MulLe(a: nat, b: nat, c: nat)
    requires a <= b
    ensures c * a <= b * c
  {
  }

  lemma MulGap(a: nat, b: nat, c: nat)
    requires a < b
    ensures a * c + c <= b * c
  {
    MulLe(a + 1, b, c);
  }

  predicate IsNumeral(s: string, base: Base) {
    && s != ""
    && (forall i :: 0 <= i < |s| ==> exists d :: 0 <= d < base && s[i] == DIGITS[d])
    && (|s| > 1 ==> s[0] != '0')
  }

  /** The numeral is the only text of digits without leading zero that reads as n. */
  lemma {:induction false} NumeralUnique(s: string, base: Base)
    requires IsNumeral(s, base)
    ensures s == Numeral(ValueOf(s, base), base)
    decreases |s|
  {
    var front, last := s[..|s| - 1], s[|s| - 1];
    var d :| 0 <= d < base && last == DIGITS[d];
    assert s == front + [last];
    if front == "" {
      DigitRoundTrip(d);
      assert ValueOf(s, base) == d;
    } else {
      assert IsNumeral(front, base) by {
        assert forall i :: 0 <= i < |front| ==> front[i] == s[i];
      }
      NumeralUnique(front, base);
      PositiveValue(front, base);
      NumeralOf(front, d, base);
    }
  }

  /** One more digit. */
  lemma NumeralOf(front: string, d: nat, base: Base)
    requires front == Numeral(ValueOf(front, base), base) && ValueOf(front, base) > 0 && d < base
    ensures front + [DIGITS[d]] == Numeral(ValueOf(front + [DIGITS[d]], base), base)
  {
    var s := front + [DIGITS[d]];
    assert s[..|s| - 1] == front;
    DigitRoundTrip(d);
    DivModOf(ValueOf(front, base), d, base);
  }

  lemma PositiveValue(s: string, base: Base)
    requires IsNumeral(s, base) && s[0] != '0' && s == Numeral(ValueOf(s, base), base)
    ensures ValueOf(s, base) > 0
  {
    assert Numeral(0, base) == [DIGITS[0]] && DIGITS[0] == '0';
  }

  lemma DivModOf(v: nat, d: nat, base: Base)
    requires d < base
    ensures (v * base + d) / base == v && (v * base + d) % base == d
    ensures v > 0 ==> v * base + d >= base
  {
    var n := v * base + d;
    var q, r := n / base, n % base;
    DivMod(n, base);
    if q < v {
      MulGap(q, v, base);
    } else if q > v {
      MulGap(v, q, base);
    }
    if v > 0 { MulGap(0, v, base); }
  }

  // ----- signed decimal -----

  function Abs(i: int): nat {
    if i < 0 then -i else i
  }

  /** What `convert` writes: optional sign and decimal digits. */
  function Decimal(v: int): string {
    if v < 0 then "-" + Numeral(-v, 10) else Numeral(v, 10)
  }

  function ParseDecimal(s: string): int {
    if s != "" && s[0] == '-' then 0 - ValueOf(s[1..], 10) else ValueOf(s, 10)
  }

  lemma {:induction false} NoSignInside(n: nat, base: Base)
    ensures Numeral(n, base) != "" && Numeral(n, base)[0] != '-'
    decreases n
  {
    if n >= base {
      DivMod(n, base);
      NoSignInside(n / base, base);
    }
  }

  lemma DecimalRoundTrip(v: int)
    ensures ParseDecimal(Decimal(v)) == v
  {
    NumeralReadsBack(if v < 0 then -v else v, 10);
    NoSignInside(if v < 0 then -v else v, 10);
    if v < 0 {
      assert Decimal(v)[1..] == Numeral(-v, 10);
    }
  }

  // every value of a signed or unsigned 64-bit type
  const INT64_MIN: int := -0x8000_0000_0000_0000
  const UINT64_MAX: int := 0xFFFF_FFFF_FFFF_FFFF
  type Integer = v: int | INT64_MIN <= v <= UINT64_MAX
  type Address = v: int | 0 <= v <= UINT64_MAX

  lemma Powers()
    ensures Power(10, 20) == 100_000_000_000_000_000_000
    ensures Power(10, 19) == 10_000_000_000_000_000_000
    ensures Power(16, 16) == UINT64_MAX + 1
  {
    assert Power(10, 5) == 100000;
    assert Power(10, 10) == 10000000000;
    assert Power(10, 15) == 1000000000000000;
    assert Power(10, 19) == 10_000_000_000_000_000_000;
    assert Power(16, 4) == 0x1_0000;
    assert Power(16, 8) == 0x1_0000_0000;
    assert Power(16, 12) == 0x1_0000_0000_0000;
  }

  /** At most 20 characters for any 64-bit integer. */
  lemma DecimalFits(v: Integer)
    ensures 1 <= |Decimal(v)| <= 20
  {
    Powers();
    NoLeadingZero(Abs(v), 10);
    if v < 0 { NumeralLength(-v, 10, 19); } else { NumeralLength(v, 10, 20); }
  }

  /** At most 16 hexadecimal digits for any address. */
  lemma HexFits(p: Address)
    ensures 1 <= |Numeral(p, 16)| <= 16
  {
    Powers();
    NoLeadingZero(p, 16);
    NumeralLength(p, 16, 16);
  }

  // ----- the conversions -----

  function Reversed(s: string): (r: string)
    ensures |r| == |s|
    ensures forall i :: 0 <= i < |s| ==> r[i] == s[|s| - 1 - i]
  {
    seq(|s|, i requires 0 <= i < |s| => s[|s| - 1 - i])
  }

  /** `std::reverse` on a range of the buffer. */
  method Reverse(buf: array<char>, lo: nat, hi: nat)
    requires lo <= hi <= buf.Length
    modifies buf
    ensures buf[lo..hi] == Reversed(old(buf[lo..hi]))
    ensures forall k :: 0 <= k < buf.Length && !(lo <= k < hi) ==> buf[k] == old(buf[k])
  {
    ghost var was := buf[lo..hi];
    var i, j := lo, hi;
    while i + 1 < j
      invariant lo <= i <= j <= hi && i - lo == hi - j
      invariant forall k :: lo <= k < i ==> buf[k] == old(buf[lo + hi - 1 - k])
      invariant forall k :: j <= k < hi ==> buf[k] == old(buf[lo + hi - 1 - k])
      invariant forall k :: 0 <= k < buf.Length && !(lo <= k < i || j <= k < hi) ==> buf[k] == old(buf[k])
    {
      j := j - 1;
      buf[i], buf[j] := buf[j], buf[i];
      i := i + 1;
    }
    forall k | 0 <= k < hi - lo ensures buf[lo..hi][k] == Reversed(was)[k] {
      assert buf[lo + k] == old(buf[hi - 1 - k]) == was[hi - lo - 1 - k];
    }
  }

  // the table of `convert`; its middle, index 9, stands for 0
  const MIRRORED: string := "9876543210123456789"

  /** The table covers the negative remainders of C++, and truncated division
      runs through the digits of the absolute value. */
  lemma MirroredDigit(i: int)
    ensures -9 <= TruncMod(i, 10) <= 9
    ensures MIRRORED[9 + TruncMod(i, 10)] == DIGITS[Abs(i) % 10]
    ensures Abs(TruncDiv(i, 10)) == Abs(i) / 10
  {
  }

  /** The digits a conversion still has to produce. */
  function ToDo(n: nat, more: bool, base: Base): string {
    if more then Numeral(n, base) else ""
  }

  lemma ReversedAppend(s: string, c: char)
    ensures Reversed(s + [c]) == [c] + Reversed(s)
  {
  }

  /** One round of a conversion loop: the last digit moves from what is to do to
      what is done, which is held backwards. */
  lemma OneDigit(n: nat, done: string, base: Base)
    ensures
      var rest := ToDo(n / base, n / base != 0, base);
      && Numeral(n, base) + Reversed(done) == rest + Reversed(done + [DIGITS[n % base]])
      && |rest| == |Numeral(n, base)| - 1
  {
    DivMod(n, base);
    if n < base { DivModOf(0, n, base); }
    var rest, c := ToDo(n / base, n / base != 0, base), DIGITS[n % base];
    assert Numeral(n, base) == rest + [c];
    ReversedAppend(done, c);
    assert rest + [c] + Reversed(done) == rest + ([c] + Reversed(done));
  }

  /** The do-while loop of `convert`: digits from the lowest up.  Those of a
      negative value come out negative and find their character left of the
      middle of the table, so the least value needs no negation. */
  method DigitsUp(buf: array<char>, start: nat, value: Integer) returns (p: nat)
    requires start + |Numeral(Abs(value), 10)| <= buf.Length
    modifies buf
    ensures p == start + |Numeral(Abs(value), 10)|
    ensures Reversed(buf[start..p]) == Numeral(Abs(value), 10)
    ensures forall k :: 0 <= k < buf.Length && !(start <= k < p) ==> buf[k] == old(buf[k])
  {
    ghost var goal := Numeral(Abs(value), 10);
    var i: int := value;
    p := start;
    var more := true;
    while more
      invariant start <= p && p + |ToDo(Abs(i), more, 10)| == start + |goal|
      invariant ToDo(Abs(i), more, 10) + Reversed(buf[start..p]) == goal
      invariant forall k :: 0 <= k < buf.Length && !(start <= k < p) ==> buf[k] == old(buf[k])
      decreases more, Abs(i)
    {
      ghost var done := buf[start..p];
      NoLeadingZero(Abs(i), 10);
      MirroredDigit(i);
      OneDigit(Abs(i), done, 10);
      var lsd := TruncMod(i, 10);
      i := TruncDiv(i, 10);
      buf[p] := MIRRORED[9 + lsd];
      p := p + 1;
      more := i != 0;
      assert buf[start..p] == done + [MIRRORED[9 + lsd]];
    }
  }

  /** Digits and sign, still backwards. */
  method WriteBackwards(buf: array<char>, start: nat, value: Integer) returns (p: nat)
    requires start + |Decimal(value)| <= buf.Length
    modifies buf
    ensures p == start + |Decimal(value)|
    ensures Reversed(buf[start..p]) == Decimal(value)
    ensures forall k :: 0 <= k < buf.Length && !(start <= k < p) ==> buf[k] == old(buf[k])
  {
    p := DigitsUp(buf, start, value);
    if value < 0 {
      ghost var digits := buf[start..p];
      buf[p] := '-';
      p := p + 1;
      assert buf[start..p] == digits + ['-'];
      ReversedAppend(digits, '-');
    }
  }

  /** `convert`: digits and sign, the terminator, and the text turned round. */
  method Convert(buf: array<char>, start: nat, value: Integer) returns (len: nat)
    requires start + 21 <= buf.Length
    modifies buf
    ensures len == |Decimal(value)| <= 20
    ensures buf[start..start + len] == Decimal(value)
    ensures buf[start + len] == '\0'
    ensures forall k :: 0 <= k < buf.Length && !(start <= k <= start + len) ==> buf[k] == old(buf[k])
  {
    DecimalFits(value);
    ghost var text := Decimal(value);
    var p := WriteBackwards(buf, start, value);
    len := p - start;
    Finish(buf, start, p);
    assert buf[start..p] == text;
  }

  /** Terminates the text and turns it round. */
  method Finish(buf: array<char>, start: nat, p: nat)
    requires start <= p < buf.Length
    modifies buf
    ensures buf[start..p] == Reversed(old(buf[start..p])) && buf[p] == '\0'
    ensures forall k :: 0 <= k < buf.Length && !(start <= k <= p) ==> buf[k] == old(buf[k])
  {
    ghost var text := buf[start..p];
    buf[p] := '\0';
    assert buf[start..p] == text;
    Reverse(buf, start, p);
  }

  /** The do-while loop of `convertHex`. */
  method HexDigitsUp(buf: array<char>, start: nat, value: Address) returns (p: nat)
    requires start + |Numeral(value, 16)| <= buf.Length
    modifies buf
    ensures p == start + |Numeral(value, 16)|
    ensures Reversed(buf[start..p]) == Numeral(value, 16)
    ensures forall k :: 0 <= k < buf.Length && !(start <= k < p) ==> buf[k] == old(buf[k])
  {
    ghost var goal := Numeral(value, 16);
    var i: nat := value;
    p := start;
    var more := true;
    while more
      invariant start <= p && p + |ToDo(i, more, 16)| == start + |goal|
      invariant ToDo(i, more, 16) + Reversed(buf[start..p]) == goal
      invariant forall k :: 0 <= k < buf.Length && !(start <= k < p) ==> buf[k] == old(buf[k])
      decreases more, i
    {
      ghost var done := buf[start..p];
      NoLeadingZero(i, 16);
      OneDigit(i, done, 16);
      var lsd := i % 16;
      i := i / 16;
      buf[p] := DIGITS[lsd];
      p := p + 1;
      more := i != 0;
      assert buf[start..p] == done + [DIGITS[lsd]];
    }
  }

  /** `convertHex` */
  method ConvertHex(buf: array<char>, start: nat, value: Address) returns (len: nat)
    requires start + 17 <= buf.Length
    modifies buf
    ensures len == |Numeral(value, 16)| <= 16
    ensures buf[start..start + len] == Numeral(value, 16)
    ensures buf[start + len] == '\0'
    ensures forall k :: 0 <= k < buf.Length && !(start <= k <= start + len) ==> buf[k] == old(buf[k])
  {
    HexFits(value);
    var p := HexDigitsUp(buf, start, value);
    Finish(buf, start, p);
    len := p - start;
  }

  /** What `operator<<(const void *)` writes: the prefix and the digits. */
  method ConvertAddress(buf: array<char>, start: nat, value: Address) returns (len: nat)
    requires start + 19 <= buf.Length
    modifies buf
    ensures len == |"0x" + Numeral(value, 16)| <= 18
    ensures buf[start..start + len] == "0x" + Numeral(value, 16)
    ensures forall k :: 0 <= k < start ==> buf[k] == old(buf[k])
  {
    buf[start] := '0';
    buf[start + 1] := 'x';
    len := ConvertHex(buf, start + 2, value);
    assert buf[start..start + 2] == "0x";
    assert buf[start..start + 2 + len] == buf[start..start + 2] + buf[start + 2..start + 2 + len];
    len := len + 2;
  }
}
