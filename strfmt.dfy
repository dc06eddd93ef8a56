/**
 * The integer-to-string conversions of src/strfmt.c. A `char*` argument is a
 * buffer together with an index into it; the printers write the decimal digits
 * of their argument there, NUL-terminated, and return the index of that NUL
 * (print*) or the number of characters written (sprint*). The fixed-point
 * helpers work on 4.60 numbers: 4 integral and 60 fractional bits.
 */
module StrFmt {
  import opened Arith

  // ---------------------------------------------------------------------
  // Widths and buffer sizes
  // ---------------------------------------------------------------------

  const U16Limit: nat := 0x1_0000
  const U32Limit: nat := 0x1_0000_0000
  const U64Limit: nat := 0x1_0000_0000_0000_0000

  /** MAX_UINT16_BYTES and friends: the digits, a sign and the NUL. */
  const MaxUint16Bytes: nat := 6
  const MaxSint16Bytes: nat := 7
  const MaxUint32Bytes: nat := 11
  const MaxSint32Bytes: nat := 12
  const MaxUint64Bytes: nat := 21
  const MaxSint64Bytes: nat := 22

  /** A two's-complement integer of the width whose modulus is m. */
  predicate InSigned(v: int, m: nat) {
    -(m / 2) <= v < m / 2
  }

  /** Conversion of v to the signed type whose modulus is m (wrap-around). */
  function ToSigned(v: int, m: nat): (r: int)
    requires m >= 2 && m % 2 == 0
    ensures InSigned(r, m)
    ensures InSigned(v, m) ==> r == v
  {
    (v + m / 2) % m - m / 2
  }

  /** Conversion of v to the unsigned type whose modulus is m. */
  function ToUnsigned(v: int, m: nat): (r: nat)
    requires m >= 1
    ensures r < m
    ensures 0 <= v < m ==> r == v
  {
    v % m
  }

  /** `n = -n` on a signed n followed by the cast to the unsigned type gives
      |n|, the most negative value included (its negation wraps to itself). */
  lemma NegateThenCast(n: int, m: nat)
    requires m == U16Limit || m == U32Limit || m == U64Limit
    requires InSigned(n, m) && n < 0
    ensures ToUnsigned(ToSigned(-n, m), m) == -n
  {
  }

  // ---------------------------------------------------------------------
  // Decimal text: the reference that sprintf's %u and %d produce
  // ---------------------------------------------------------------------

  predicate IsDigit(c: char) {
    '0' <= c <= '9'
  }

  predicate AllDigits(s: string) {
    forall i :: 0 <= i < |s| ==> IsDigit(s[i])
  }

  function DigitValue(c: char): (d: nat)
    requires IsDigit(c)
    ensures d < 10
  {
    c as int - '0' as int
  }

  /** `'0' + d`. */
  function Digit(d: nat): (c: char)
    requires d < 10
    ensures IsDigit(c) && DigitValue(c) == d
  {
    ('0' as int + d) as char
  }

  /** The decimal form of n without leading zeros; "0" for zero. */
  function Decimal(n: nat): (s: string)
    ensures 1 <= |s| && AllDigits(s)
    ensures s[0] == '0' <==> n == 0
    decreases n
  {
    if n < 10 then [Digit(n)] else Decimal(n / 10) + [Digit(n % 10)]
  }

  /** The digits above the last one: empty when there are none. */
  function Leading(k: nat): string {
    if k == 0 then [] else Decimal(k)
  }

  lemma DecimalStep(k: nat)
    ensures Decimal(k) == Leading(k / 10) + [Digit(k % 10)]
  {
  }

  /** The value of a string of digits, most significant first. */
  function DecimalValue(s: string): (v: nat)
    requires AllDigits(s)
  {
    if |s| == 0 then 0 else DecimalValue(s[..|s| - 1]) * 10 + DigitValue(s[|s| - 1])
  }

  /** A decimal numeral as written by the printers. */
  predicate Canonical(s: string) {
    1 <= |s| && AllDigits(s) && (s[0] == '0' ==> |s| == 1)
  }

  /** Reading back the printed digits gives the number. */
  lemma {:induction false} DecimalValueOf(n: nat)
    ensures DecimalValue(Decimal(n)) == n
    decreases n
  {
    var s := Decimal(n);
    if n < 10 {
      assert s[..0] == [];
    } else {
      assert s[..|s| - 1] == Decimal(n / 10);
      DecimalValueOf(n / 10);
    }
  }

  /** Every canonical numeral is the printed form of its value. */
  lemma {:induction false} DecimalOfValue(s: string)
    requires Canonical(s)
    ensures Decimal(DecimalValue(s)) == s
    decreases |s|
  {
    var t := s[..|s| - 1];
    if |s| == 1 {
      assert t == [];
      assert Digit(DigitValue(s[0])) == s[0];
    } else {
      assert t[0] == s[0];
      DecimalOfValue(t);
      var v := DecimalValue(s);
      assert v / 10 == DecimalValue(t) && v % 10 == DigitValue(s[|s| - 1]);
      assert Digit(DigitValue(s[|s| - 1])) == s[|s| - 1];
      assert s == t + [s[|s| - 1]];
    }
  }

  function Pow10(k: nat): (r: nat)
    ensures r >= 1
  {
    if k == 0 then 1 else 10 * Pow10(k - 1)
  }

  /** At most k digits exactly when n < 10^k. */
  lemma {:induction false} DecimalLength(n: nat, k: nat)
    requires k >= 1
    ensures |Decimal(n)| <= k <==> n < Pow10(k)
    decreases n
  {
    assert Pow10(k) == 10 * Pow10(k - 1);
    if n >= 10 && k >= 2 {
      DecimalLength(n / 10, k - 1);
    } else if n >= 10 {
      assert Pow10(0) == 1;
    }
  }

  /** sprintf's %d: a minus sign exactly for negative n, then the digits of |n|. */
  function SignedDecimal(n: int): (s: string)
    ensures 2 <= |s| ==> (s[0] == '-' <==> n < 0)
  {
    if n < 0 then "-" + Decimal(-n) else Decimal(n)
  }

  lemma SignedDecimalHead(n: int)
    ensures SignedDecimal(n)[0] == '-' <==> n < 0
    ensures SignedDecimal(n)[if n < 0 then 1 else 0..] == Decimal(if n < 0 then -n else n)
  {
  }

  lemma Pow10Values()
    ensures Pow10(5) == 100000 && Pow10(10) == 10000000000
    ensures Pow10(20) == 100000000000000000000
  {
    assert Pow10(5) == 100000;
    assert Pow10(10) == 10000000000;
    assert Pow10(15) == 1000000000000000;
  }

  /** The MAX_*_BYTES constants hold every output and its NUL. */
  lemma BufferSizes(n: int)
    ensures 0 <= n < U16Limit ==> |Decimal(n)| + 1 <= MaxUint16Bytes
    ensures InSigned(n, U16Limit) ==> |SignedDecimal(n)| + 1 <= MaxSint16Bytes
    ensures 0 <= n < U32Limit ==> |Decimal(n)| + 1 <= MaxUint32Bytes
    ensures InSigned(n, U32Limit) ==> |SignedDecimal(n)| + 1 <= MaxSint32Bytes
    ensures 0 <= n < U64Limit ==> |Decimal(n)| + 1 <= MaxUint64Bytes
    ensures InSigned(n, U64Limit) ==> |SignedDecimal(n)| + 1 <= MaxSint64Bytes
  {
    Pow10Values();
    var a := if n < 0 then -n else n;
    DecimalLength(a, 5);
    DecimalLength(a, 10);
    DecimalLength(a, 20);
  }

  // ---------------------------------------------------------------------
  // Writing into a caller's buffer
  // ---------------------------------------------------------------------

  /** after is before with text and a NUL stored from index at, and nothing
      else changed. */
  ghost predicate Written(before: seq<char>, after: seq<char>, at: nat, text: string) {
    |after| == |before| && at + |text| < |after| &&
    after[at..at + |text|] == text && after[at + |text|] == '\0' &&
    forall j :: 0 <= j < |after| && (j < at || at + |text| < j) ==> after[j] == before[j]
  }

  lemma WrittenAfterSign(b0: seq<char>, b1: seq<char>, b2: seq<char>, at: nat, text: string)
    requires at < |b0| && b1 == b0[at := '-'] && Written(b1, b2, at + 1, text)
    ensures Written(b0, b2, at, "-" + text)
  {
    assert b2[at..at + 1 + |text|] == [b2[at]] + b2[at + 1..at + 1 + |text|];
  }

  // ---------------------------------------------------------------------
  // 16- and 32-bit printers: unrolled digit chains
  // ---------------------------------------------------------------------

  /** s backwards. */
  function Reverse(s: string): (r: string)
    ensures |r| == |s|
  {
    if |s| == 0 then [] else [s[|s| - 1]] + Reverse(s[..|s| - 1])
  }

  lemma ReverseSnoc(s: string, c: char)
    ensures Reverse(s + [c]) == [c] + Reverse(s)
  {
    assert (s + [c])[..|s|] == s;
  }

  /**
   * The chain of `*buf++ = *(--p)` copies that ends __printu16 and
   * __printu32: entered at the label that matches the number of digits in m,
   * it stores m at b, highest digit first.
   */
  method CopyBack(buf: array<char>, b: nat, m: string) returns (end: nat)
    requires 1 <= |m| <= 5 && b + |m| <= buf.Length
    modifies buf
    ensures end == b + |m| && Stored(old(buf[..]), buf[..], b, Reverse(m), |m|)
  {
    ghost var s0 := buf[..];
    var p := |m|;
    end := b;
    assert Reverse(m)[..0] == [];
    if p == 5 {
      p, end := CopyOne(buf, m, p, end, b, s0);
    }
    if p == 4 {
      p, end := CopyOne(buf, m, p, end, b, s0);
    }
    end := CopyBackLow(buf, m, p, end, b, s0);
  }

  /** The last three labels of the chain (end2, end1, end0 of __printu16). */
  method CopyBackLow(buf: array<char>, m: string, p: nat, end: nat, ghost b: nat, ghost s0: seq<char>)
    returns (end': nat)
    requires 1 <= p <= 3 && p <= |m| && end == b + |m| - p && b + |m| <= buf.Length
    requires Stored(s0, buf[..], b, Reverse(m)[..|m| - p], |m|)
    modifies buf
    ensures end' == b + |m| && Stored(s0, buf[..], b, Reverse(m), |m|)
  {
    var q := p;
    end' := end;
    if q == 3 {
      q, end' := CopyOne(buf, m, q, end', b, s0);
    }
    if q == 2 {
      q, end' := CopyOne(buf, m, q, end', b, s0);
    }
    q, end' := CopyOne(buf, m, q, end', b, s0);
    assert Reverse(m)[..|m|] == Reverse(m);
  }

  /** The chain of copies and the NUL stored after it. */
  method CopyBackTerminated(buf: array<char>, b: nat, m: string) returns (end: nat)
    requires 1 <= |m| <= 5 && b + |m| < buf.Length
    modifies buf
    ensures end == b + |m| && Written(old(buf[..]), buf[..], b, Reverse(m))
  {
    end := CopyBack(buf, b, m);
    buf[end] := '\0';
  }

  /** One `*buf++ = *(--p)`: the next digit of m, from the top, goes to end. */
  method CopyOne(buf: array<char>, m: string, p: nat, end: nat, ghost b: nat, ghost s0: seq<char>)
    returns (p': nat, end': nat)
    requires 1 <= p <= |m| && end == b + |m| - p && b + |m| <= buf.Length
    requires Stored(s0, buf[..], b, Reverse(m)[..|m| - p], |m|)
    modifies buf
    ensures p' == p - 1 && end' == end + 1
    ensures Stored(s0, buf[..], b, Reverse(m)[..|m| - p'], |m|)
  {
    ReverseIndex(m);
    p' := p - 1;
    buf[end] := m[p'];
    end' := end + 1;
    assert Reverse(m)[..|m| - p'] == Reverse(m)[..|m| - p] + [m[p']];
  }

  lemma {:induction false} ReverseIndex(s: string)
    ensures forall i :: 0 <= i < |s| ==> Reverse(s)[i] == s[|s| - 1 - i]
    decreases |s|
  {
    if |s| > 0 {
      ReverseIndex(s[..|s| - 1]);
    }
  }

  /** Taking the lowest digit of k into m keeps the digits of n split between
      the quotient and m. */
  lemma CollectStep(n: nat, k: nat, m: string)
    requires (k == n && m == []) || (k != 0 && Decimal(n) == Leading(k) + Reverse(m))
    ensures Decimal(n) == Leading(k / 10) + Reverse(m + [Digit(k % 10)])
  {
    if k == n && m == [] {
      CollectFirst(k);
    } else {
      CollectNext(k, m);
    }
  }

  /** The first digit taken: m is that digit alone. */
  lemma CollectFirst(k: nat)
    ensures Decimal(k) == Leading(k / 10) + Reverse([Digit(k % 10)])
  {
    DecimalStep(k);
    assert Reverse([Digit(k % 10)]) == [Digit(k % 10)];
  }

  /** A later digit: it moves from the end of Leading(k) to the front of the
      reversed digits. */
  lemma CollectNext(k: nat, m: string)
    requires k != 0
    ensures Leading(k) + Reverse(m) == Leading(k / 10) + Reverse(m + [Digit(k % 10)])
  {
    var c := Digit(k % 10);
    var l := Leading(k / 10);
    var r := Reverse(m);
    DecimalStep(k);
    ReverseSnoc(m, c);
    assert Leading(k) == l + [c];
    SnocConcat(l, c, r);
  }

  lemma SnocConcat(l: string, c: char, r: string)
    ensures (l + [c]) + r == l + ([c] + r)
  {
  }

  /** after is before with text stored from index at, and nothing changed
      outside the width cells from there. */
  ghost predicate Stored(before: seq<char>, after: seq<char>, at: nat, text: string, width: nat) {
    |after| == |before| && |text| <= width && at + width <= |after| &&
    after[at..at + |text|] == text &&
    forall j :: 0 <= j < |after| && (j < at || at + width <= j) ==> after[j] == before[j]
  }

  /** The leading digits, then the copies and their NUL right behind them
      (over the NUL the leading part may have left): the whole text is
      written. */
  lemma Assemble(s0: seq<char>, s1: seq<char>, s2: seq<char>, at: nat, top: string, r: string)
    requires Stored(s0, s1, at, top, |top| + 1)
    requires Written(s1, s2, at + |top|, r) && 1 <= |r|
    ensures Written(s0, s2, at, top + r)
  {
    assert s2[at..at + |top|] == s1[at..at + |top|];
    assert s2[at..at + |top| + |r|] == s2[at..at + |top|] + s2[at + |top|..at + |top| + |r|];
  }

  /**
   * __printu16 and printu16: up to four low digits are taken into m, lowest
   * first, until the quotient is zero; what is left of n after four, at most
   * 6, is the top digit and is written directly; the chain of copies then
   * writes m back, highest digit first.
   */
  method PrintU16(buf: array<char>, at: nat, n: nat) returns (end: nat)
    requires n < U16Limit && at + |Decimal(n)| < buf.Length
    modifies buf
    ensures end == at + |Decimal(n)|
    ensures Written(old(buf[..]), buf[..], at, Decimal(n))
  {
    var m, k := TakeDigit(n, n, []);
    if k != 0 {
      m, k := TakeDigit(n, k, m);
      if k != 0 {
        m, k := TakeDigit(n, k, m);
        if k != 0 {
          m, k := TakeDigit(n, k, m);
        }
      }
    }
    end := PrintRest(buf, at, n, k, m);
  }

  /**
   * The reference loops of the disabled branches of __printu16 and
   * __printu32: every digit into m, lowest first, until the quotient is zero,
   * then all of m copied back. They write what the unrolled chains write
   * (see WrittenUnique).
   */
  method PrintDigitsLoop(buf: array<char>, at: nat, n: nat) returns (end: nat)
    requires n < U32Limit && at + |Decimal(n)| < buf.Length
    modifies buf
    ensures end == at + |Decimal(n)|
    ensures Written(old(buf[..]), buf[..], at, Decimal(n))
  {
    var m := DigitsLowFirst(n);
    end := CopyReversed(buf, at, m);
  }

  /** `do { *p++ = '0' + n % 10; n /= 10; } while (n != 0);` */
  method DigitsLowFirst(n: nat) returns (m: string)
    requires n < U32Limit
    ensures 1 <= |m| <= 10 && Decimal(n) == Reverse(m)
  {
    BufferSizes(n);
    m := [];
    var k := n;
    while true
      invariant (k == n && m == []) || (k != 0 && Decimal(n) == Leading(k) + Reverse(m))
      decreases k
    {
      m, k := TakeDigit(n, k, m);
      if k == 0 {
        break;
      }
    }
  }

  /** `do { *buf++ = *(--p); } while (p > m); *buf = '\0';` */
  method CopyReversed(buf: array<char>, at: nat, m: string) returns (end: nat)
    requires 1 <= |m| && at + |m| < buf.Length
    modifies buf
    ensures end == at + |m| && Written(old(buf[..]), buf[..], at, Reverse(m))
  {
    ghost var s0 := buf[..];
    var p := |m|;
    end := at;
    assert Reverse(m)[..0] == [];
    while true
      invariant 1 <= p <= |m| && end == at + |m| - p
      invariant Stored(s0, buf[..], at, Reverse(m)[..|m| - p], |m|)
      decreases p
    {
      p, end := CopyOne(buf, m, p, end, at, s0);
      if p == 0 {
        break;
      }
    }
    assert Reverse(m)[..|m|] == Reverse(m);
    buf[end] := '\0';
  }

  /** Written fixes the whole buffer: two ways of writing the same text from
      the same buffer leave the same contents. */
  lemma WrittenUnique(before: seq<char>, a1: seq<char>, a2: seq<char>, at: nat, text: string)
    requires Written(before, a1, at, text) && Written(before, a2, at, text)
    ensures a1 == a2
  {
    forall j | 0 <= j < |a1|
      ensures a1[j] == a2[j]
    {
      if at <= j < at + |text| {
        assert a1[j] == a1[at..at + |text|][j - at];
        assert a2[j] == a2[at..at + |text|][j - at];
      }
    }
  }

  /** `*p++ = '0' + n % 10; n /= 10;`: one low digit of k into m. */
  method TakeDigit(ghost n: nat, k: nat, m: string) returns (m': string, k': nat)
    requires (k == n && m == []) || (k != 0 && Decimal(n) == Leading(k) + Reverse(m))
    ensures m' == m + [Digit(k % 10)] && k' == k / 10
    ensures Decimal(n) == Leading(k') + Reverse(m')
  {
    CollectStep(n, k, m);
    m' := m + [Digit(k % 10)];
    k' := k / 10;
  }

  /** The rest of __printu16 once the low digits are in m: the top digit k,
      when there is one, then the copies and the NUL. */
  method PrintRest(buf: array<char>, at: nat, ghost n: nat, k: nat, m: string) returns (end: nat)
    requires 1 <= |m| <= 5 && k < 10 && (k != 0 ==> |m| >= 4)
    requires Decimal(n) == Leading(k) + Reverse(m) && at + |Decimal(n)| < buf.Length
    modifies buf
    ensures end == at + |Decimal(n)|
    ensures Written(old(buf[..]), buf[..], at, Decimal(n))
  {
    var b := TopDigit(buf, at, k);
    end := FinishDigits(buf, b, m, at, Leading(k), old(buf[..]));
  }

  /** After the leading digits top at at: the chain of copies and the NUL
      complete the text. */
  method FinishDigits(buf: array<char>, b: nat, m: string, ghost at: nat, ghost top: string,
                      ghost s0: seq<char>) returns (end: nat)
    requires 1 <= |m| <= 5 && b == at + |top| && b + |m| < buf.Length
    requires Stored(s0, buf[..], at, top, |top| + 1)
    modifies buf
    ensures end == b + |m| && Written(s0, buf[..], at, top + Reverse(m))
  {
    ghost var s1 := buf[..];
    end := CopyBackTerminated(buf, b, m);
    Assemble(s0, s1, buf[..], at, top, Reverse(m));
  }

  /**
   * __printu32 and printu32: as __printu16 with five low digits; what is left
   * of n after five, below 42950, is printed by __printu16, whose NUL the
   * first copy overwrites.
   */
  method PrintU32(buf: array<char>, at: nat, n: nat) returns (end: nat)
    requires n < U32Limit && at + |Decimal(n)| < buf.Length
    modifies buf
    ensures end == at + |Decimal(n)|
    ensures Written(old(buf[..]), buf[..], at, Decimal(n))
  {
    var m, k := TakeDigit(n, n, []);
    if k != 0 {
      m, k := TakeDigit(n, k, m);
      if k != 0 {
        m, k := TakeDigit(n, k, m);
        if k != 0 {
          m, k := TakeDigit(n, k, m);
          if k != 0 {
            m, k := TakeDigit(n, k, m);
          }
        }
      }
    }
    end := PrintU32Rest(buf, at, n, k, m);
  }

  /** The rest of __printu32 once the low digits are in m. */
  method PrintU32Rest(buf: array<char>, at: nat, ghost n: nat, k: nat, m: string) returns (end: nat)
    requires 1 <= |m| <= 5 && k < U16Limit && (k != 0 ==> |m| == 5)
    requires Decimal(n) == Leading(k) + Reverse(m) && at + |Decimal(n)| < buf.Length
    modifies buf
    ensures end == at + |Decimal(n)|
    ensures Written(old(buf[..]), buf[..], at, Decimal(n))
  {
    var b := TopDigits(buf, at, k);
    end := FinishDigits(buf, b, m, at, Leading(k), old(buf[..]));
  }

  /** `*buf++ = '0' + n;` of __printu16, done only when four digits left a
      quotient. */
  method TopDigit(buf: array<char>, at: nat, k: nat) returns (b: nat)
    requires k < 10 && at + |Leading(k)| < buf.Length
    modifies buf
    ensures b == at + |Leading(k)| && Stored(old(buf[..]), buf[..], at, Leading(k), |Leading(k)| + 1)
  {
    b := at;
    if k != 0 {
      buf[b] := Digit(k);
      b := b + 1;
    }
  }

  /** `buf = __printu16(buf, n);` of __printu32, done only when five digits
      left a quotient. */
  method TopDigits(buf: array<char>, at: nat, k: nat) returns (b: nat)
    requires k < U16Limit && at + |Leading(k)| < buf.Length
    modifies buf
    ensures b == at + |Leading(k)| && Stored(old(buf[..]), buf[..], at, Leading(k), |Leading(k)| + 1)
  {
    b := at;
    if k != 0 {
      b := PrintU16(buf, at, k);
    }
  }

  // ---------------------------------------------------------------------
  // 64-bit printer
  // ---------------------------------------------------------------------

  /**
   * printu64: the digits go into the local m[MAX_UINT64_BYTES - 1] from its
   * end backwards, lowest first, until the quotient is zero; memcpy then
   * moves the n digits used to buf, and a NUL follows them.
   */
  method PrintU64(buf: array<char>, at: nat, x0: nat) returns (end: nat)
    requires x0 < U64Limit && at + |Decimal(x0)| < buf.Length
    modifies buf
    ensures end == at + |Decimal(x0)|
    ensures Written(old(buf[..]), buf[..], at, Decimal(x0))
  {
    var m := new char[MaxUint64Bytes - 1];
    var p := DigitsBackwards(m, x0);
    var n := MaxUint64Bytes - 2 - p;
    assert m[p + 1..p + 1 + n] == Decimal(x0);
    end := MemcpyTerminated(buf, at, m, p + 1, n);
  }

  /** The do/while of printu64: with p starting at the last cell of m, each
      step stores the lowest digit at p and moves p back. */
  method DigitsBackwards(m: array<char>, x0: nat) returns (p: int)
    requires x0 < U64Limit && m.Length == MaxUint64Bytes - 1
    modifies m
    ensures -1 <= p < m.Length - 1 && Decimal(x0) == m[p + 1..]
  {
    Pow10Values();
    DecimalLength(x0, 20);
    p := MaxUint64Bytes - 2;
    var x := x0;
    while true
      invariant 0 <= p < m.Length
      invariant Decimal(x0) == Decimal(x) + m[p + 1..]
      decreases x
    {
      p, x := StoreDigit(m, p, x, x0);
      if x == 0 {
        break;
      }
    }
  }

  /** `*p-- = '0' + (x % 10); x /= 10;`: the lowest digit of x moves from its
      decimal form to the front of the digits already stored. */
  method StoreDigit(m: array<char>, p: nat, x: nat, ghost x0: nat) returns (p': int, x': nat)
    requires p < m.Length && Decimal(x0) == Decimal(x) + m[p + 1..]
    modifies m
    ensures p' == p - 1 && x' == x / 10 && m[..p] == old(m[..p])
    ensures x' == 0 ==> Decimal(x0) == m[p..]
    ensures x' != 0 ==> Decimal(x0) == Decimal(x') + m[p..]
  {
    ghost var rest := m[p + 1..];
    StoreDigitText(x0, x, rest);
    m[p] := Digit(x % 10);
    assert m[p..] == [Digit(x % 10)] + rest;
    p' := p - 1;
    x' := x / 10;
  }

  lemma StoreDigitText(x0: nat, x: nat, rest: string)
    requires Decimal(x0) == Decimal(x) + rest
    ensures x / 10 == 0 ==> Decimal(x0) == [Digit(x % 10)] + rest
    ensures x / 10 != 0 ==> Decimal(x0) == Decimal(x / 10) + ([Digit(x % 10)] + rest)
  {
    DecimalStep(x);
    SnocConcat(Leading(x / 10), Digit(x % 10), rest);
  }

  /** `memcpy(buf, src + from, n); buf += n; *buf = '\0';` */
  method MemcpyTerminated(buf: array<char>, at: nat, src: array<char>, from: nat, n: nat) returns (end: nat)
    requires src != buf && from + n <= src.Length && at + n < buf.Length
    modifies buf
    ensures end == at + n && Written(old(buf[..]), buf[..], at, src[from..from + n])
  {
    forall i | 0 <= i < n {
      buf[at + i] := src[from + i];
    }
    end := at + n;
    buf[end] := '\0';
  }

  // ---------------------------------------------------------------------
  // Signed printers and the sprint* variants
  // ---------------------------------------------------------------------

  /** printi16: for negative n, `n = -n` (wrapping for the minimum) and a
      '-'; then __printu16 of n cast to uint16_t. */
  method PrintI16(buf: array<char>, at: nat, n: int) returns (end: nat)
    requires InSigned(n, U16Limit) && at + |SignedDecimal(n)| < buf.Length
    modifies buf
    ensures end == at + |SignedDecimal(n)|
    ensures Written(old(buf[..]), buf[..], at, SignedDecimal(n))
  {
    var b, v := PutSign(buf, at, n, U16Limit);
    ghost var s1 := buf[..];
    end := PrintU16(buf, b, ToUnsigned(v, U16Limit));
    SignedWritten(old(buf[..]), s1, buf[..], at, n);
  }

  /** printi32: as printi16 over int32_t, with __printu32. */
  method PrintI32(buf: array<char>, at: nat, n: int) returns (end: nat)
    requires InSigned(n, U32Limit) && at + |SignedDecimal(n)| < buf.Length
    modifies buf
    ensures end == at + |SignedDecimal(n)|
    ensures Written(old(buf[..]), buf[..], at, SignedDecimal(n))
  {
    var b, v := PutSign(buf, at, n, U32Limit);
    ghost var s1 := buf[..];
    end := PrintU32(buf, b, ToUnsigned(v, U32Limit));
    SignedWritten(old(buf[..]), s1, buf[..], at, n);
  }

  /** __printi64 and printi64: as printi16 over int64_t, with printu64. */
  method PrintI64(buf: array<char>, at: nat, n: int) returns (end: nat)
    requires InSigned(n, U64Limit) && at + |SignedDecimal(n)| < buf.Length
    modifies buf
    ensures end == at + |SignedDecimal(n)|
    ensures Written(old(buf[..]), buf[..], at, SignedDecimal(n))
  {
    var b, v := PutSign(buf, at, n, U64Limit);
    ghost var s1 := buf[..];
    end := PrintU64(buf, b, ToUnsigned(v, U64Limit));
    SignedWritten(old(buf[..]), s1, buf[..], at, n);
  }

  /** `if (n < 0) { n = -n; *buf++ = '-'; }` on the signed type of modulus
      m: the value left, cast to the unsigned type, is |n|. */
  method PutSign(buf: array<char>, at: nat, n: int, m: nat) returns (b: nat, v: int)
    requires m == U16Limit || m == U32Limit || m == U64Limit
    requires InSigned(n, m) && at < buf.Length
    modifies buf
    ensures InSigned(v, m) && ToUnsigned(v, m) == Abs(n)
    ensures b == at + (if n < 0 then 1 else 0)
    ensures buf[..] == if n < 0 then old(buf[..])[at := '-'] else old(buf[..])
  {
    b := at;
    v := n;
    if v < 0 {
      v := ToSigned(-v, m);
      buf[b] := '-';
      b := b + 1;
      NegateThenCast(n, m);
    }
  }

  function Abs(n: int): nat {
    if n < 0 then -n else n
  }

  lemma SignedWritten(s0: seq<char>, s1: seq<char>, s2: seq<char>, at: nat, n: int)
    requires at < |s0| && s1 == if n < 0 then s0[at := '-'] else s0
    requires Written(s1, s2, at + (if n < 0 then 1 else 0), Decimal(Abs(n)))
    ensures Written(s0, s2, at, SignedDecimal(n))
  {
    if n < 0 {
      WrittenAfterSign(s0, s1, s2, at, Decimal(-n));
    }
  }

  /** sprintu16: printu16, returning the number of characters before the NUL. */
  method SprintU16(buf: array<char>, at: nat, n: nat) returns (len: int)
    requires n < U16Limit && at + |Decimal(n)| < buf.Length
    modifies buf
    ensures len == |Decimal(n)| && Written(old(buf[..]), buf[..], at, Decimal(n))
  {
    var end := PrintU16(buf, at, n);
    len := end - at;
  }

  /** sprinti16: the sign, then __printu16, returning the count written. */
  method SprintI16(buf: array<char>, at: nat, n: int) returns (len: int)
    requires InSigned(n, U16Limit) && at + |SignedDecimal(n)| < buf.Length
    modifies buf
    ensures len == |SignedDecimal(n)| && Written(old(buf[..]), buf[..], at, SignedDecimal(n))
  {
    var end := PrintI16(buf, at, n);
    len := end - at;
  }

  method SprintU32(buf: array<char>, at: nat, n: nat) returns (len: int)
    requires n < U32Limit && at + |Decimal(n)| < buf.Length
    modifies buf
    ensures len == |Decimal(n)| && Written(old(buf[..]), buf[..], at, Decimal(n))
  {
    var end := PrintU32(buf, at, n);
    len := end - at;
  }

  method SprintI32(buf: array<char>, at: nat, n: int) returns (len: int)
    requires InSigned(n, U32Limit) && at + |SignedDecimal(n)| < buf.Length
    modifies buf
    ensures len == |SignedDecimal(n)| && Written(old(buf[..]), buf[..], at, SignedDecimal(n))
  {
    var end := PrintI32(buf, at, n);
    len := end - at;
  }

  method SprintU64(buf: array<char>, at: nat, n: nat) returns (len: int)
    requires n < U64Limit && at + |Decimal(n)| < buf.Length
    modifies buf
    ensures len == |Decimal(n)| && Written(old(buf[..]), buf[..], at, Decimal(n))
  {
    var end := PrintU64(buf, at, n);
    len := end - at;
  }

  method SprintI64(buf: array<char>, at: nat, n: int) returns (len: int)
    requires InSigned(n, U64Limit) && at + |SignedDecimal(n)| < buf.Length
    modifies buf
    ensures len == |SignedDecimal(n)| && Written(old(buf[..]), buf[..], at, SignedDecimal(n))
  {
    var end := PrintI64(buf, at, n);
    len := end - at;
  }

  // ---------------------------------------------------------------------
  // 4.60 fixed-point fractions
  // ---------------------------------------------------------------------

  /** `1ul << 60`: the unit of a 4.60 number. The masks of the source are
      arithmetic here: `& ((1 << 60) - 1)` is `% Frac60`, `>> 60` is
      `/ Frac60` and a single-bit test is a quotient's parity. */
  const Frac60: nat := 0x1000_0000_0000_0000
  const Half60: nat := 0x0800_0000_0000_0000

  /** What frac_to_str emits: each step masks the integral bits off, multiplies
      by 10 and emits the integral part, for as long as the unmasked product
      is nonzero and fewer than limit digits are out. */
  function FracAsWritten(frac: nat, limit: int): (s: string)
    decreases if limit > 0 then limit else 0
  {
    if frac == 0 || limit <= 0 then []
    else
      var p := (frac % Frac60) * 10;
      [Digit(p / Frac60)] + FracAsWritten(p, limit - 1)
  }

  /** The first decimal digits of the fraction f / 2^60, stopping when the
      rest of the fraction is zero or limit digits are out. */
  function FracDigits(f: nat, limit: int): (s: string)
    requires f < Frac60
    ensures AllDigits(s) && |s| <= if limit > 0 then limit else 0
    decreases if limit > 0 then limit else 0
  {
    if f == 0 || limit <= 0 then []
    else
      var p := f * 10;
      [Digit(p / Frac60)] + FracDigits(p % Frac60, limit - 1)
  }

  /** The fraction left after FracDigits(f, limit). */
  function FracRest(f: nat, limit: int): (r: nat)
    requires f < Frac60
    ensures r < Frac60
    decreases if limit > 0 then limit else 0
  {
    if f == 0 || limit <= 0 then f else FracRest((f * 10) % Frac60, limit - 1)
  }

  /** frac_to_str as written emits the digits of its fraction and then one
      more '0' whenever the fraction ran out before limit digits: the test
      sees the product before its integral part is masked off. */
  lemma {:induction false} FracAsWrittenPadded(frac: nat, limit: int)
    ensures FracAsWritten(frac, limit) ==
      FracDigits(frac % Frac60, limit) +
      (if frac != 0 && |FracDigits(frac % Frac60, limit)| < limit then "0" else "")
    decreases if limit > 0 then limit else 0
  {
    if frac != 0 && limit > 0 {
      var f := frac % Frac60;
      var p := f * 10;
      if f == 0 {
        assert FracAsWritten(frac, limit) == [Digit(0)] + FracAsWritten(0, limit - 1);
      } else {
        FracAsWrittenPadded(p, limit - 1);
        assert p % Frac60 == (p % Frac60) % Frac60;
      }
    }
  }

  /** The input that shows it: one half, with room for two digits, comes out
      as "50" where the digits of the fraction are "5". */
  lemma FracHalf()
    ensures FracAsWritten(Half60, 2) == "50"
    ensures FracDigits(Half60, 2) == "5"
  {
    assert FracAsWritten(5 * Frac60, 1) == "0";
    assert FracDigits(0, 1) == "";
  }

  lemma {:induction false} DecimalValuePrepend(c: char, s: string)
    requires IsDigit(c) && AllDigits(s)
    ensures DecimalValue([c] + s) == DigitValue(c) * Pow10(|s|) + DecimalValue(s)
    decreases |s|
  {
    var t := [c] + s;
    if |s| > 0 {
      assert t[..|t| - 1] == [c] + s[..|s| - 1];
      DecimalValuePrepend(c, s[..|s| - 1]);
      assert DigitValue(c) * Pow10(|s|) == DigitValue(c) * Pow10(|s| - 1) * 10;
    } else {
      assert t[..0] == [];
    }
  }

  /** Output stops short of limit only when the fraction has run out. */
  lemma {:induction false} FracDigitsStop(f: nat, limit: int)
    requires f < Frac60
    ensures |FracDigits(f, limit)| < limit ==> FracRest(f, limit) == 0
    decreases if limit > 0 then limit else 0
  {
    if f != 0 && limit > 0 {
      FracDigitsStop((f * 10) % Frac60, limit - 1);
    }
  }

  /** The digits of FracDigits are exact: with the rest of the fraction they
      make up f * 10^k / 2^60, k the number of digits, so they are the first
      k decimals of f / 2^60. */
  lemma {:induction false} FracDigitsValue(f: nat, limit: int)
    requires f < Frac60
    ensures DecimalValue(FracDigits(f, limit)) * Frac60 + FracRest(f, limit) ==
            f * Pow10(|FracDigits(f, limit)|)
    decreases if limit > 0 then limit else 0
  {
    if f != 0 && limit > 0 {
      var p := f * 10;
      var d := Digit(p / Frac60);
      var r' := FracDigits(p % Frac60, limit - 1);
      FracDigitsValue(p % Frac60, limit - 1);
      assert FracDigits(f, limit) == [d] + r';
      DecimalValuePrepend(d, r');
      FracValueStep(f, DecimalValue(r'), FracRest(p % Frac60, limit - 1), Pow10(|r'|));
    }
  }

  lemma FracValueStep(f: nat, v: nat, rest: nat, t: nat)
    requires v * Frac60 + rest == ((f * 10) % Frac60) * t
    ensures ((f * 10) / Frac60 * t + v) * Frac60 + rest == f * (10 * t)
  {
    var p := f * 10;
    var q := p / Frac60;
    calc {
      (q * t + v) * Frac60 + rest;
      q * Frac60 * t + (v * Frac60 + rest);
      q * Frac60 * t + (p % Frac60) * t;
      (q * Frac60 + p % Frac60) * t;
      p * t;
    }
  }

  /** The body of frac_to_str's loop: mask, multiply by 10 (no overflow: the
      product stays below 10 * 2^60) and store the integral part as a digit. */
  method FracDigitOut(buf: array<char>, i: nat, frac: nat) returns (f: nat)
    requires i < buf.Length && frac < U64Limit
    modifies buf
    ensures f == (frac % Frac60) * 10 && f < U64Limit
    ensures buf[..] == old(buf[..])[i := Digit(f / Frac60)]
  {
    f := frac % Frac60;
    f := f * 10;
    buf[i] := Digit(f / Frac60);
  }

  lemma FracAsWrittenStep(frac: nat, limit: int)
    requires frac != 0 && limit > 0
    ensures FracAsWritten(frac, limit) ==
      [Digit((frac % Frac60) * 10 / Frac60)] + FracAsWritten((frac % Frac60) * 10, limit - 1)
  {
  }

  /** frac_to_str after len digits: they are the first len characters of the
      full output, f still produces the rest, and nothing else has changed. */
  ghost predicate FracLoop(s0: seq<char>, s: seq<char>, at: nat, len: int, f: nat, frac: nat, limit: int) {
    0 <= len && f < U64Limit && |s| == |s0| &&
    len + |FracAsWritten(f, limit - len)| == |FracAsWritten(frac, limit)| &&
    at + |FracAsWritten(frac, limit)| < |s| &&
    s[at..at + len] + FracAsWritten(f, limit - len) == FracAsWritten(frac, limit) &&
    forall j :: 0 <= j < |s| && (j < at || at + len <= j) ==> s[j] == s0[j]
  }

  /** One turn of frac_to_str's loop: the digit stored at at + len is the
      next character of the output. */
  lemma FracLoopStep(s0: seq<char>, before: seq<char>, s: seq<char>, at: nat, len: nat,
                     fOld: nat, f: nat, frac: nat, limit: int)
    requires FracLoop(s0, before, at, len, fOld, frac, limit) && fOld != 0 && len < limit
    requires f == (fOld % Frac60) * 10 && f < U64Limit
    requires at + len < |before| && s == before[at + len := Digit(f / Frac60)]
    ensures FracLoop(s0, s, at, len + 1, f, frac, limit)
  {
    FracAsWrittenStep(fOld, limit - len);
    assert s[at..at + len + 1] == before[at..at + len] + [s[at + len]];
  }

  /**
   * frac_to_str: at most limit digits of the fraction into buf, NUL-terminated,
   * returning their number.
   */
  method FracToStr(buf: array<char>, at: nat, frac: nat, limit: int) returns (len: int)
    requires frac < U64Limit && at + |FracAsWritten(frac, limit)| < buf.Length
    modifies buf
    ensures len == |FracAsWritten(frac, limit)|
    ensures Written(old(buf[..]), buf[..], at, FracAsWritten(frac, limit))
  {
    len := 0;
    var f: nat := frac;
    while f != 0 && len < limit
      invariant FracLoop(old(buf[..]), buf[..], at, len, f, frac, limit)
      decreases limit - len
    {
      ghost var before := buf[..];
      ghost var f0 := f;
      FracAsWrittenStep(f, limit - len);
      f := FracDigitOut(buf, at + len, f);
      FracLoopStep(old(buf[..]), before, buf[..], at, len, f0, f, frac, limit);
      len := len + 1;
    }
    buf[at + len] := '\0';
  }

  /** The corrected loop's state after len digits: they are the first len
      digits of the fraction, f < 2^60 is the fraction left, and nothing
      else has changed. */
  ghost predicate FracDigitsLoop(s0: seq<char>, s: seq<char>, at: nat, len: int, f: nat, f0: nat, limit: int) {
    0 <= len && f < Frac60 && f0 < Frac60 && |s| == |s0| &&
    len + |FracDigits(f, limit - len)| == |FracDigits(f0, limit)| &&
    at + |FracDigits(f0, limit)| < |s| &&
    s[at..at + len] + FracDigits(f, limit - len) == FracDigits(f0, limit) &&
    forall j :: 0 <= j < |s| && (j < at || at + len <= j) ==> s[j] == s0[j]
  }

  lemma FracDigitsLoopStep(s0: seq<char>, before: seq<char>, s: seq<char>, at: nat, len: nat,
                           fOld: nat, f: nat, f0: nat, limit: int)
    requires FracDigitsLoop(s0, before, at, len, fOld, f0, limit) && fOld != 0 && len < limit
    requires f == (fOld * 10) % Frac60
    requires at + len < |before| && s == before[at + len := Digit(fOld * 10 / Frac60)]
    ensures FracDigitsLoop(s0, s, at, len + 1, f, f0, limit)
  {
    assert FracDigits(fOld, limit - len) == [Digit(fOld * 10 / Frac60)] + FracDigits(f, limit - len - 1);
    assert s[at..at + len + 1] == before[at..at + len] + [s[at + len]];
  }

  /** frac_to_str with the integral bits masked off before the loop test:
      exactly the digits of the fraction, at most limit of them. */
  method FracToStrCorrected(buf: array<char>, at: nat, frac: nat, limit: int) returns (len: int)
    requires frac < U64Limit && at + |FracDigits(frac % Frac60, limit)| < buf.Length
    modifies buf
    ensures len == |FracDigits(frac % Frac60, limit)|
    ensures Written(old(buf[..]), buf[..], at, FracDigits(frac % Frac60, limit))
  {
    len := 0;
    var f: nat := frac % Frac60;
    while f != 0 && len < limit
      invariant FracDigitsLoop(old(buf[..]), buf[..], at, len, f, frac % Frac60, limit)
      decreases limit - len
    {
      ghost var before := buf[..];
      ghost var fOld := f;
      buf[at + len] := Digit(f * 10 / Frac60);
      f := (f * 10) % Frac60;
      FracDigitsLoopStep(old(buf[..]), before, buf[..], at, len, fOld, f, frac % Frac60, limit);
      len := len + 1;
    }
    buf[at + len] := '\0';
  }

  /** num / 2^60 rounded to the nearest integer, ties to the even one. */
  function RoundToEven(num: nat): nat {
    var q := num / Frac60;
    var r := num % Frac60;
    if 2 * r > Frac60 || (2 * r == Frac60 && q % 2 == 1) then q + 1 else q
  }

  /** RoundToEven(num) is a nearest integer to num / 2^60, and the even one
      of the two on a tie. */
  lemma RoundToEvenNearest(num: nat)
    ensures var x := RoundToEven(num);
      var e := if x * Frac60 >= num then x * Frac60 - num else num - x * Frac60;
      2 * e <= Frac60 && (2 * e == Frac60 ==> x % 2 == 0)
  {
  }

  /** The rounding decision of bankers64 on the product p = 10 * frac: bit 60
      (the last digit is odd), bit 59 (the round bit) and bits 0 to 58 (the
      sticky bits). */
  predicate RoundsUp(p: nat) {
    var oddlsb := (p / Frac60) % 2 != 0;
    var roundy := (p / Half60) % 2 != 0;
    var sticky := p % Half60 != 0;
    roundy && (oddlsb || sticky)
  }

  /** The bit tests are the round-half-even decision on p's fractional part. */
  lemma RoundsUpIsHalfEven(p: nat)
    ensures RoundsUp(p) <==>
      (2 * (p % Frac60) > Frac60 || (2 * (p % Frac60) == Frac60 && (p / Frac60) % 2 == 1))
  {
    var a := p / Frac60;
    var r := p % Frac60;
    var b := r / Half60;
    var c := r % Half60;
    DivModUnique(p, Half60, 2 * a + b, c);
    DivModUnique(2 * a + b, 2, a, b);
  }

  /** One digit of bankers64 keeps x * 2^60 + frac equal to f0 * 10^j. */
  lemma ExactStep(ex: nat, f: nat, f0: nat, t: nat)
    requires f < Frac60 && ex * Frac60 + f == f0 * t
    ensures (10 * ex + (10 * f) / Frac60) * Frac60 + (10 * f) % Frac60 == f0 * (10 * t)
  {
    assert f0 * (10 * t) == 10 * (f0 * t);
  }

  /** The rounded last digit of bankers64 completes RoundToEven. */
  lemma RoundStep(ex: nat, f: nat, f0: nat, t: nat)
    requires f < Frac60 && ex * Frac60 + f == f0 * t
    ensures 10 * ex + (10 * f + (if RoundsUp(10 * f) then Frac60 else 0)) / Frac60 ==
            RoundToEven(f0 * (10 * t))
  {
    ExactStep(ex, f, f0, t);
    var p := 10 * f;
    var q := p / Frac60;
    RoundsUpIsHalfEven(p);
    DivModUnique(f0 * (10 * t), Frac60, 10 * ex + q, p % Frac60);
    DivModUnique(10 * ex + q, 2, 5 * ex + q / 2, q % 2);
    DivModUnique(p + Frac60, Frac60, q + 1, p % Frac60);
  }

  /** x * 10 + d in uint64_t. */
  lemma WrapStep(a: nat, d: nat)
    ensures ((a % U64Limit) * 10 + d) % U64Limit == (a * 10 + d) % U64Limit
  {
    var q := a / U64Limit;
    assert a * 10 + d == (a % U64Limit) * 10 + d + (10 * q) * U64Limit;
  }

  /** With f0 < 2^60 the rounded value is at most 10^k, so for k <= 19 it
      fits 64 bits and the wrap-around never happens. */
  lemma BankersBound(f0: nat, k: nat)
    requires f0 < Frac60
    ensures RoundToEven(f0 * Pow10(k)) <= Pow10(k)
    ensures k <= 19 ==> RoundToEven(f0 * Pow10(k)) < U64Limit
  {
    var t := Pow10(k);
    assert f0 * t < Frac60 * t;
    assert (f0 * t) / Frac60 < t;
    if k <= 19 {
      Pow10Monotone(k, 19);
      Pow10Values();
      assert Pow10(19) == 10000000000000000000;
    }
  }

  lemma {:induction false} Pow10Monotone(i: nat, j: nat)
    requires i <= j
    ensures Pow10(i) <= Pow10(j)
    decreases j
  {
    if i < j {
      Pow10Monotone(i, j - 1);
    }
  }

  /** What one digit of bankers64 does to the exact value ex of the digits so
      far: it appends the next digit, and on the last digit the rounded one. */
  lemma BankersStep(ex: nat, f: nat, f0: nat, j: nat, x: nat, last: bool) returns (ex': nat)
    requires f < Frac60 && ex * Frac60 + f == f0 * Pow10(j) && x == ex % U64Limit
    ensures var p := 10 * f + (if last && RoundsUp(10 * f) then Frac60 else 0);
      ex' == 10 * ex + p / Frac60 && (x * 10 + p / Frac60) % U64Limit == ex' % U64Limit
    ensures !last ==> ex' * Frac60 + (10 * f) % Frac60 == f0 * Pow10(j + 1)
    ensures last ==> ex' == RoundToEven(f0 * Pow10(j + 1))
  {
    var p := 10 * f + (if last && RoundsUp(10 * f) then Frac60 else 0);
    if last {
      RoundStep(ex, f, f0, Pow10(j));
    } else {
      ExactStep(ex, f, f0, Pow10(j));
    }
    WrapStep(ex, p / Frac60);
    ex' := 10 * ex + p / Frac60;
  }

  /** The body of bankers64's loop: `frac *= 10`, on the last digit the
      rounding increment, `x = x*10 + (frac >> 60)` and `frac &= mask`. The
      uint64_t frac never overflows: the product and the increment stay
      below 16 * 2^60, which is 2^64. */
  method BankersDigit(frac: nat, x: nat, last: bool) returns (f: nat, x': nat)
    requires frac < Frac60
    ensures var p := 10 * frac + (if last && RoundsUp(10 * frac) then Frac60 else 0);
      p < 16 * Frac60 && 16 * Frac60 == U64Limit &&
      f == p % Frac60 && x' == (x * 10 + p / Frac60) % U64Limit
  {
    f := frac * 10;
    if last {
      var oddlsb := (f / Frac60) % 2 != 0;
      var roundy := (f / Half60) % 2 != 0;
      var sticky := f % Half60 != 0;
      if roundy && (oddlsb || sticky) {
        f := f + Frac60;
      }
    }
    x' := (x * 10 + f / Frac60) % U64Limit;
    f := f % Frac60;
  }

  /** The state of bankers64 after j digits: ex is their exact value (the
      rounded one once all limit digits are taken) and x is ex in uint64_t. */
  ghost predicate BankersLoop(limit: int, f0: nat, j: nat, f: nat, ex: nat, x: nat) {
    f < Frac60 && x == ex % U64Limit &&
    (limit <= 0 ==> j == 0 && ex == 0) &&
    (limit > 0 ==> j <= limit) &&
    ((limit <= 0 || j < limit) ==> ex * Frac60 + f == f0 * Pow10(j)) &&
    (0 < limit == j ==> ex == RoundToEven(f0 * Pow10(j)))
  }

  /** Either way bankers64's loop stops (the fraction ran out, or the digit
      count did, with n one below zero), the result is the rounded value of the
      digits taken. */
  lemma BankersExit(limit: int, f0: nat, n: int, j: nat, f: nat, ex: nat, x: nat)
    requires BankersLoop(limit, f0, j, f, ex, x)
    requires (f == 0 && n == limit - j) || (n == limit - j - 1 && n < 0)
    ensures var newLimit := if n > 0 then limit - n else limit;
      (limit <= 0 ==> x == 0 && newLimit == limit) &&
      (limit > 0 ==> 0 <= newLimit <= limit) &&
      (limit > 0 ==> x == RoundToEven(f0 * Pow10(newLimit)) % U64Limit) &&
      (0 <= newLimit < limit ==> (f0 * Pow10(newLimit)) % Frac60 == 0) &&
      (0 < limit <= 19 && f0 < Frac60 ==> x <= Pow10(newLimit))
  {
    var newLimit := if n > 0 then limit - n else limit;
    if 0 < limit <= 19 && f0 < Frac60 {
      BankersBound(f0, newLimit);
    }
    if n > 0 {
      DivModUnique(f0 * Pow10(j), Frac60, ex, 0);
    }
  }

  /**
   * bankers64: the first digits of the fraction of a 4.60 number as one
   * integer, the last of them rounded half to even. At most limit digits are
   * taken, fewer only when the fraction runs out exactly; the count taken is
   * the new limit (kept as it was when limit is not positive).
   */
  method Bankers64(frac: nat, limit: int) returns (x: nat, newLimit: int)
    requires frac < U64Limit
    ensures limit <= 0 ==> x == 0 && newLimit == limit
    ensures limit > 0 ==> 0 <= newLimit <= limit
    ensures limit > 0 ==> x == RoundToEven((frac % Frac60) * Pow10(newLimit)) % U64Limit
    ensures 0 <= newLimit < limit ==> ((frac % Frac60) * Pow10(newLimit)) % Frac60 == 0
    ensures 0 < limit <= 19 ==> x <= Pow10(newLimit)
  {
    var n := limit;
    var f: nat := frac % Frac60;
    ghost var f0 := f;
    ghost var ex: nat := 0;
    ghost var j: nat := 0;
    x := 0;
    while true
      invariant n == limit - j && BankersLoop(limit, f0, j, f, ex, x)
      decreases if limit > 0 then limit - j else 0
    {
      if f == 0 {
        break;
      }
      var more := n > 0;
      n := n - 1;
      if !more {
        break;
      }
      var last := n == 0;
      ex := BankersStep(ex, f, f0, j, x, last);
      f, x := BankersDigit(f, x, last);
      j := j + 1;
    }
    BankersExit(limit, f0, n, j, f, ex, x);
    if n > 0 {
      newLimit := limit - n;
    } else {
      newLimit := limit;
    }
  }

  /**
   * strapp: copy the NUL-terminated string at src[s..] including its NUL to
   * dst[d..], and return its length.
   */
  method StrApp(dst: array<char>, d: nat, src: array<char>, s: nat) returns (n: int)
    requires src != dst && s <= src.Length && '\0' in src[s..]
    requires d + |CString(src[s..])| < dst.Length
    modifies dst
    ensures n == |CString(src[s..])|
    ensures Written(old(dst[..]), dst[..], d, CString(src[s..]))
  {
    ghost var t := src[s..];
    ghost var s0 := dst[..];
    var p := s;
    var q := d;
    while true
      invariant s <= p <= src.Length && q == d + (p - s)
      invariant src[s..] == t && CopyLoop(s0, dst[..], t, d, p - s)
      decreases src.Length - p
    {
      var c := CopyChar(dst, q, src, p, s0, t, d, s);
      p := p + 1;
      q := q + 1;
      if c == '\0' {
        break;
      }
    }
    n := p - s - 1;
  }

  /** `*dst++ = *src++` in strapp's loop: the copied prefix grows by the
      character read, and when that is the NUL the whole string is written. */
  method CopyChar(dst: array<char>, q: nat, src: array<char>, p: nat,
                  ghost s0: seq<char>, ghost t: seq<char>, ghost d: nat, ghost s: nat)
    returns (c: char)
    requires src != dst && s <= p <= src.Length && q == d + (p - s) && src[s..] == t
    requires CopyLoop(s0, dst[..], t, d, p - s)
    modifies dst
    ensures p < src.Length && c == src[p]
    ensures c != '\0' ==> CopyLoop(s0, dst[..], t, d, p - s + 1)
    ensures c == '\0' ==> p - s == |CString(t)| && Written(s0, dst[..], d, CString(t))
  {
    ghost var before := dst[..];
    CopyInside(s0, before, t, d, p - s);
    c := src[p];
    assert c == t[p - s];
    dst[q] := c;
    if c == '\0' {
      CopyExit(s0, before, dst[..], t, d, p - s);
    } else {
      CopyStep(s0, before, dst[..], t, d, p - s);
    }
  }

  /** strapp after k characters: they are the first k of the string, stored
      at d, and nothing else in dst has changed. */
  ghost predicate CopyLoop(s0: seq<char>, s: seq<char>, t: seq<char>, d: nat, k: nat) {
    '\0' in t && k <= |CString(t)| && |s| == |s0| && d + |CString(t)| < |s| &&
    s[d..d + k] == CString(t)[..k] &&
    forall j :: 0 <= j < |s| && (j < d || d + k <= j) ==> s[j] == s0[j]
  }

  /** The next character strapp reads is inside the source string. */
  lemma CopyInside(s0: seq<char>, s: seq<char>, t: seq<char>, d: nat, k: nat)
    requires CopyLoop(s0, s, t, d, k)
    ensures k < |t| && d + k < |s|
  {
  }

  /** Copying a character that is not the NUL extends the copied prefix. */
  lemma CopyStep(s0: seq<char>, before: seq<char>, after: seq<char>, t: seq<char>, d: nat, k: nat)
    requires CopyLoop(s0, before, t, d, k) && k < |t| && t[k] != '\0'
    requires d + k < |before| && after == before[d + k := t[k]]
    ensures CopyLoop(s0, after, t, d, k + 1)
  {
    CStringSplit(t);
    var r := CString(t);
    assert k < |r|;
    assert after[d..d + k + 1] == before[d..d + k] + [t[k]];
    assert r[..k + 1] == r[..k] + [r[k]];
  }

  /** Copying the NUL completes the string and its terminator. */
  lemma CopyExit(s0: seq<char>, before: seq<char>, after: seq<char>, t: seq<char>, d: nat, k: nat)
    requires CopyLoop(s0, before, t, d, k) && k < |t| && t[k] == '\0'
    requires d + k < |before| && after == before[d + k := '\0']
    ensures k == |CString(t)| && Written(s0, after, d, CString(t))
  {
    CStringSplit(t);
    var r := CString(t);
    assert r[..k] == r;
    assert after[d..d + k] == before[d..d + k];
  }

  function CString(t: seq<char>): (r: seq<char>)
    requires '\0' in t
    ensures '\0' !in r && |r| < |t| && t[..|r|] == r && t[|r|] == '\0'
  {
    if t[0] == '\0' then [] else [t[0]] + CString(t[1..])
  }

  lemma CStringSplit(t: seq<char>)
    requires '\0' in t
    ensures t[..|CString(t)| + 1] == CString(t) + ['\0']
    ensures forall i :: 0 <= i < |CString(t)| ==> t[i] != '\0'
  {
    var r := CString(t);
    assert forall i :: 0 <= i < |r| ==> t[i] == r[i];
  }

  /** What strapp leaves in dst is a string of the same length as src: strlen
      of the destination is the returned count. */
  lemma {:induction false} CStringOfWritten(text: string, rest: seq<char>)
    requires '\0' !in text
    ensures CString(text + ['\0'] + rest) == text
    decreases |text|
  {
    var t := text + ['\0'] + rest;
    if |text| > 0 {
      assert t[0] == text[0];
      assert t[1..] == text[1..] + ['\0'] + rest;
      CStringOfWritten(text[1..], rest);
    }
  }
}
