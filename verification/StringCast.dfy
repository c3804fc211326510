/** The integer printer of string_cast.h: digits are looked up in a symmetric
    table, written backwards and reversed in place. */
module StringCast {
  import opened Integers

  const NUL: char := '\0'
  const CACHE_SIZE: nat := 65
  const DIGITS := "0123456789"
  const DIGITS_DOWN := "987654321"
  const UPPER := "ABCDEFGHIJKLMNOPQRSTUVWXYZ"
  const UPPER_DOWN := "ZYXWVUTSRQPONMLKJIHGFEDCBA"
  const LOWER := "abcdefghijklmnopqrstuvwxyz"
  const LOWER_DOWN := "zyxwvutsrqponmlkjihgfedcba"
  const UPPER_TABLE := UPPER_DOWN + DIGITS_DOWN + DIGITS + UPPER
  const LOWER_TABLE := LOWER_DOWN + DIGITS_DOWN + DIGITS + LOWER
  const BASE_ERROR := "itoa err"

  predicate ValidBase(b: int) {
    2 <= b <= 36
  }

  // ---------------------------------------------------------------- digits

  function DigitChar(d: nat, upper: bool): char
    requires d < 36
  {
    if d < 10 then '0' + d as char
    else if upper then 'A' + (d - 10) as char
    else 'a' + (d - 10) as char
  }

  /** The value of a digit in either case; 36 for a character that is no digit. */
  function DigitValue(c: char): nat {
    if '0' <= c <= '9' then c as int - '0' as int
    else if 'A' <= c <= 'Z' then c as int - 'A' as int + 10
    else if 'a' <= c <= 'z' then c as int - 'a' as int + 10
    else 36
  }

  predicate IsDigitIn(c: char, b: nat) {
    DigitValue(c) < b
  }

  lemma DigitTables(i: nat)
    ensures i < 10 ==> DIGITS[i] == '0' + i as char
    ensures i < 9 ==> DIGITS_DOWN[i] == '0' + (9 - i) as char
  {
  }

  lemma UpperTables(i: nat)
    requires i < 26
    ensures UPPER[i] == 'A' + i as char
    ensures UPPER_DOWN[i] == 'A' + (25 - i) as char
  {
  }

  lemma LowerTables(i: nat)
    requires i < 26
    ensures LOWER[i] == 'a' + i as char
    ensures LOWER_DOWN[i] == 'a' + (25 - i) as char
  {
  }

  /** The table gives the same digit at 35 + d and 35 - d, which is what lets the
      loop use remainders of negative numbers. */
  lemma TableLookup(d: int, upper: bool)
    requires -36 < d < 36
    ensures |UPPER_TABLE| == |LOWER_TABLE| == 71
    ensures (if upper then UPPER_TABLE else LOWER_TABLE)[35 + d] == DigitChar(Abs(d), upper)
  {
    if -10 < d < 10 {
      DigitTables(if d < 0 then 9 + d else d);
    } else {
      UpperTables(if d < 0 then 35 + d else d - 10);
      LowerTables(if d < 0 then 35 + d else d - 10);
    }
  }

  // -------------------------------------------------- numerals and their value

  /** The digits of n in base b, most significant first. */
  function Numeral(n: nat, b: nat, upper: bool): string
    requires ValidBase(b)
  {
    if n < b then [DigitChar(n, upper)]
    else
      DivMod(n, b);
      Numeral(n / b, b, upper) + [DigitChar(n % b, upper)]
  }

  /** What string_cast_itoa prints. */
  function Text(v: int, b: nat, upper: bool): string {
    if !ValidBase(b) then BASE_ERROR
    else if v < 0 then "-" + Numeral(-v, b, upper)
    else Numeral(v, b, upper)
  }

  /** The number that a string of digits denotes in base b. */
  function Eval(s: string, b: nat): nat {
    if s == "" then 0
    else Eval(s[..|s| - 1], b) * b + DigitValue(s[|s| - 1])
  }

  /** s is a numeral of n: digits of the base in the chosen case, the right value,
      and no leading zero unless it is the numeral of zero. */
  ghost predicate IsNumeral(s: string, n: nat, b: nat, upper: bool) {
    && s != ""
    && (forall i :: 0 <= i < |s| ==> DigitValue(s[i]) < b <= 36 && s[i] == DigitChar(DigitValue(s[i]), upper))
    && (s[0] == '0' ==> |s| == 1)
    && Eval(s, b) == n
  }

  lemma DigitCharValue(d: nat, upper: bool)
    requires d < 36
    ensures DigitValue(DigitChar(d, upper)) == d
    ensures DigitChar(d, upper) == '0' <==> d == 0
  {
  }

  lemma EvalAppend(s: string, c: char, b: nat)
    ensures Eval(s + [c], b) == Eval(s, b) * b + DigitValue(c)
  {
    assert (s + [c])[..|s + [c]| - 1] == s;
  }

  /** Appending a digit to the numeral of a positive number. */
  lemma NumeralAppend(s: string, q: nat, d: nat, b: nat, upper: bool)
    requires ValidBase(b) && d < b && 0 < q && IsNumeral(s, q, b, upper)
    ensures IsNumeral(s + [DigitChar(d, upper)], q * b + d, b, upper)
  {
    DigitCharValue(d, upper);
    EvalAppend(s, DigitChar(d, upper), b);
    if s[0] == '0' {
      EvalZero(s, b);
    }
  }

  lemma {:induction false} NumeralIsNumeral(n: nat, b: nat, upper: bool)
    requires ValidBase(b)
    ensures IsNumeral(Numeral(n, b, upper), n, b, upper)
  {
    DivMod(n, b);
    if b <= n {
      NumeralIsNumeral(n / b, b, upper);
      NumeralAppend(Numeral(n / b, b, upper), n / b, n % b, b, upper);
    } else {
      DigitCharValue(n, upper);
      EvalAppend("", DigitChar(n, upper), b);
    }
  }

  lemma EvalZero(s: string, b: nat)
    requires |s| == 1 && s[0] == '0'
    ensures Eval(s, b) == 0
  {
    EvalAppend("", '0', b);
    assert s == "" + ['0'];
  }

  lemma {:induction false} EvalPositive(s: string, b: nat)
    requires ValidBase(b) && s != "" && s[0] != '0'
    requires forall i :: 0 <= i < |s| ==> DigitValue(s[i]) < b
    ensures 0 < Eval(s, b)
  {
    if 1 < |s| {
      EvalPositive(s[..|s| - 1], b);
      MulAtLeast(Eval(s[..|s| - 1], b), b);
    }
  }

  /** A number has exactly one numeral. */
  lemma {:induction false} NumeralUnique(s: string, n: nat, b: nat, upper: bool)
    requires ValidBase(b) && IsNumeral(s, n, b, upper)
    ensures s == Numeral(n, b, upper)
  {
    var init, d := s[..|s| - 1], DigitValue(s[|s| - 1]);
    var q := Eval(init, b);
    assert s == init + [DigitChar(d, upper)];
    NumeralStep(q, d, b, upper);
    if init != "" {
      EvalPositive(init, b);
      NumeralUnique(init, q, b, upper);
    }
  }

  lemma NumeralStep(q: nat, d: nat, b: nat, upper: bool)
    requires ValidBase(b) && d < b
    ensures Numeral(q * b + d, b, upper) == (if q == 0 then "" else Numeral(q, b, upper)) + [DigitChar(d, upper)]
  {
    ModUnique(q, b, d);
    if 0 < q {
      MulAtLeast(q, b);
    }
  }

  /** A text is what the printer leaves for v exactly when it is a sign, present
      just for negative v, followed by a numeral of the magnitude. */
  lemma TextMeaning(s: string, v: int, b: nat, upper: bool)
    requires ValidBase(b)
    ensures s == Text(v, b, upper) <==>
            var sign := if v < 0 then "-" else "";
            sign <= s && IsNumeral(s[|sign|..], Abs(v), b, upper)
  {
    NumeralIsNumeral(Abs(v), b, upper);
    var sign := if v < 0 then "-" else "";
    if sign <= s {
      assert s == sign + s[|sign|..];
      if IsNumeral(s[|sign|..], Abs(v), b, upper) {
        NumeralUnique(s[|sign|..], Abs(v), b, upper);
      }
    }
  }

  /** Four texts. */
  lemma TextSamples()
    ensures Text(-10, 2, true) == "-1010" && Text(-431, 16, true) == "-1AF"
    ensures Text(1259, 36, false) == "yz" && Text(7, 37, true) == "itoa err"
  {
  }

  /** The text determines the value, the most negative one included. */
  lemma TextInjective(v: int, w: int, b: nat, upper: bool)
    requires ValidBase(b) && Text(v, b, upper) == Text(w, b, upper)
    ensures v == w
  {
    NumeralIsNumeral(Abs(v), b, upper);
    NumeralIsNumeral(Abs(w), b, upper);
    var s, r := Text(v, b, upper), Text(w, b, upper);
    assert DigitValue('-') == 36;
    assert s[0] == '-' <==> v < 0;
    assert r[0] == '-' <==> w < 0;
    assert v < 0 ==> s[1..] == Numeral(-v, b, upper) && r[1..] == Numeral(-w, b, upper);
  }

  lemma TextHasNoNul(v: int, b: nat, upper: bool)
    ensures NUL !in Text(v, b, upper) && Text(v, b, upper) != ""
  {
    if ValidBase(b) {
      NumeralIsNumeral(Abs(v), b, upper);
    }
  }

  // ------------------------------------------------------------ buffer bound

  function Pow2(k: nat): nat {
    if k == 0 then 1 else 2 * Pow2(k - 1)
  }

  lemma {:induction false} Pow2Sum(j: nat, k: nat)
    ensures Pow2(j + k) == Pow2(j) * Pow2(k)
  {
    if 0 < k {
      Pow2Sum(j, k - 1);
    }
  }

  lemma Pow2Values()
    ensures Pow2(61) == 0x2000_0000_0000_0000
    ensures Pow2(62) == 0x4000_0000_0000_0000
    ensures Pow2(63) == 0x8000_0000_0000_0000
    ensures Pow2(64) == 0x1_0000_0000_0000_0000
  {
    assert Pow2(15) == 0x8000;
    Pow2Sum(15, 15);
    Pow2Sum(30, 30);
  }

  lemma MulMonotone(p: nat, q: nat, b: nat)
    requires p <= q
    ensures p * b <= q * b
  {
  }

  lemma QuotientBelow(n: nat, b: nat, p: nat, c: nat)
    requires 1 < c <= b && n < p * c
    ensures n / b < p
  {
    MulMonotone(c, b, p);
    DivMod(n, b);
    if p <= n / b {
      MulMonotone(p, n / b, b);
    }
  }

  lemma {:induction false} NumeralAtMost(n: nat, b: nat, upper: bool, k: nat)
    requires ValidBase(b) && n < Pow2(k) && 0 < k
    ensures |Numeral(n, b, upper)| <= k
  {
    if b <= n {
      QuotientBelow(n, b, Pow2(k - 1), 2);
      assert 1 < k;
      NumeralAtMost(n / b, b, upper, k - 1);
    }
  }

  lemma {:induction false} BinaryNumeralAtLeast(n: nat, upper: bool, k: nat)
    requires Pow2(k) <= n
    ensures k < |Numeral(n, 2, upper)|
  {
    if 0 < k {
      BinaryNumeralAtLeast(n / 2, upper, k - 1);
    }
  }

  /** The magnitude of the most negative value has 64 digits in base 2 and fewer in
      every other base. */
  lemma MostNegative(b: nat, upper: bool)
    requires ValidBase(b)
    ensures |Numeral(0x8000_0000_0000_0000, b, upper)| <= 64
    ensures |Numeral(0x8000_0000_0000_0000, b, upper)| == 64 <==> b == 2
  {
    Pow2Values();
    NumeralAtMost(Pow2(63), b, upper, 64);
    if b == 2 {
      BinaryNumeralAtLeast(Pow2(63), upper, 63);
    } else {
      QuotientBelow(Pow2(63), b, Pow2(62), 3);
      NumeralAtMost(Pow2(63) / b, b, upper, 62);
    }
  }

  /** Every 64-bit value in every base fits the 65-byte cache, terminator
      included, with one exception: the most negative value in base 2 takes 66. */
  lemma CacheBound(t: IntType, v: int, b: nat, upper: bool)
    requires t.Holds(v) && ValidBase(b)
    ensures |Text(v, b, upper)| + 1 <= CACHE_SIZE <==> !(v == -0x8000_0000_0000_0000 && b == 2)
    ensures |Text(v, b, upper)| + 1 <= CACHE_SIZE + 1
  {
    Pow2Values();
    if v == -0x8000_0000_0000_0000 {
      MostNegative(b, upper);
    } else {
      NumeralAtMost(Abs(v), b, upper, if v < 0 then 63 else 64);
    }
  }

  // ------------------------------------------------------------- the printer

  /** Position `at` of the buffer starts the C string s. */
  predicate HoldsCString(buf: seq<char>, at: nat, s: string) {
    && at + |s| < |buf|
    && NUL !in s
    && buf[at..at + |s|] == s
    && buf[at + |s|] == NUL
  }

  /** A position starts at most one C string. */
  lemma CStringUnique(buf: seq<char>, at: nat, s: string, r: string)
    requires HoldsCString(buf, at, s) && HoldsCString(buf, at, r)
    ensures s == r
  {
    assert forall i :: 0 <= i < |s| ==> buf[at + i] == s[i] && s[i] in s;
    assert forall i :: 0 <= i < |r| ==> buf[at + i] == r[i] && r[i] in r;
  }

  function Reversed(s: string): string {
    seq(|s|, i requires 0 <= i < |s| => s[|s| - 1 - i])
  }

  /** Both intermediate results of 35 + tmp - quotient * base may leave the type;
      the second wrap cancels the first. */
  lemma IndexWrapCancels(t: IntType, tmp: int, product: int)
    requires -36 < tmp - product < 36
    ensures t.Wrap(t.Wrap(35 + tmp) - t.Wrap(product)) == 35 + tmp - product
  {
    var j := WrapCongruent(t, 35 + tmp);
    var k := WrapCongruent(t, product);
    var m := t.width.Modulus();
    assert t.Wrap(35 + tmp) - t.Wrap(product) == 35 + tmp - product + (j - k) * m;
    WrapUnique(t, t.Wrap(35 + tmp) - t.Wrap(product), 35 + tmp - product, j - k);
  }

  /** Prints `value` at position `at` of the caller's buffer. */
  method StringCastItoa(t: IntType, value: int, result: array<char>, at: nat, base: nat, upper: bool)
    requires t.Holds(value)
    requires at + |Text(value, base, upper)| < result.Length
    modifies result
    ensures HoldsCString(result[..], at, Text(value, base, upper))
    ensures forall k :: 0 <= k < result.Length && !(at <= k <= at + |Text(value, base, upper)|)
                        ==> result[k] == old(result[k])
  {
    if !(2 <= base && base <= 36) {
      StrCpy(result, at, BASE_ERROR);
      return;
    }
    PrintNumber(t, value, result, at, base, upper, TextInBase(value, base, upper));
  }

  method PrintNumber(t: IntType, value: int, result: array<char>, at: nat, base: nat, upper: bool, ghost digits: string)
    requires t.Holds(value) && ValidBase(base) && digits == Numeral(Abs(value), base, upper) && NUL !in digits
    requires at + |digits| + (if value < 0 then 1 else 0) < result.Length
    modifies result
    ensures HoldsCString(result[..], at, (if value < 0 then "-" else "") + digits)
    ensures forall k :: 0 <= k < result.Length && !(at <= k <= at + |digits| + (if value < 0 then 1 else 0))
                        ==> result[k] == old(result[k])
  {
    var right := EmitDigits(t, value, result, at, base, upper);
    Finish(result, at, right, value < 0, digits);
  }

  ghost function TextInBase(v: int, b: nat, upper: bool): (digits: string)
    requires ValidBase(b)
    ensures digits == Numeral(Abs(v), b, upper) && digits != "" && NUL !in digits
    ensures Text(v, b, upper) == (if v < 0 then "-" else "") + digits
  {
    TextHasNoNul(v, b, upper);
    Numeral(Abs(v), b, upper)
  }

  /** The end of the printer: the sign, the terminator and the reversal. */
  method Finish(result: array<char>, at: nat, end: nat, negative: bool, ghost digits: string)
    requires at < end && end + (if negative then 1 else 0) < result.Length
    requires Reversed(result[at..end]) == digits && NUL !in digits
    modifies result
    ensures HoldsCString(result[..], at, (if negative then "-" else "") + digits)
    ensures forall k :: 0 <= k < result.Length && !(at <= k <= end + (if negative then 1 else 0))
                        ==> result[k] == old(result[k])
  {
    ghost var written := result[at..end];
    var right := end;
    if negative {
      result[right] := '-';
      right := right + 1;
      assert result[at..right] == written + "-";
      assert Reversed(written + "-") == "-" + Reversed(written);
    }
    result[right] := NUL;
    ReverseInPlace(result, at, right);
  }

  method StrCpy(result: array<char>, at: nat, s: string)
    requires at + |s| < result.Length && NUL !in s
    modifies result
    ensures HoldsCString(result[..], at, s)
    ensures forall k :: 0 <= k < result.Length && !(at <= k <= at + |s|) ==> result[k] == old(result[k])
  {
    forall k | at <= k <= at + |s| {
      result[k] := if k == at + |s| then NUL else s[k - at];
    }
    assert result[..][at..at + |s|] == s;
  }

  /** The do/while loop: writes the digits of the magnitude, least significant
      first, and returns the position after the last one. */
  method EmitDigits(t: IntType, value: int, result: array<char>, at: nat, base: nat, upper: bool) returns (right: nat)
    requires t.Holds(value) && ValidBase(base)
    requires at + |Numeral(Abs(value), base, upper)| <= result.Length
    modifies result
    ensures right == at + |Numeral(Abs(value), base, upper)|
    ensures Reversed(result[at..right]) == Numeral(Abs(value), base, upper)
    ensures forall k :: 0 <= k < result.Length && !(at <= k < right) ==> result[k] == old(result[k])
  {
    right := at;
    var tmp := value;
    var table := if upper then UPPER_TABLE else LOWER_TABLE;
    ghost var goal := Numeral(Abs(value), base, upper);
    var more := true;
    while more
      invariant at <= right <= at + |goal|
      invariant more ==> Numeral(Abs(tmp), base, upper) + Reversed(result[at..right]) == goal
      invariant !more ==> Reversed(result[at..right]) == goal
      invariant forall k :: 0 <= k < result.Length && !(at <= k < right) ==> result[k] == old(result[k])
      decreases more, Abs(tmp)
    {
      var quotient := TruncDiv(tmp, base);
      QuotientStep(tmp, base, quotient);
      var index := t.Wrap(t.Wrap(35 + tmp) - t.Wrap(quotient * base));
      IndexWrapCancels(t, tmp, quotient * base);
      TableLookup(tmp - quotient * base, upper);
      ghost var emitted := result[at..right];
      ghost var c := DigitChar(Abs(tmp) % base, upper);
      EmitStep(Abs(tmp), base, upper, emitted, goal);
      result[right] := table[index];
      right := right + 1;
      assert result[at..right] == emitted + [c];
      tmp := quotient;
      more := tmp != 0;
    }
  }

  /** One digit moves from the numeral still to print to the text already written. */
  lemma EmitStep(n: nat, b: nat, upper: bool, emitted: string, goal: string)
    requires ValidBase(b) && Numeral(n, b, upper) + Reversed(emitted) == goal
    ensures n % b < b && |emitted| < |goal|
    ensures var next := Reversed(emitted + [DigitChar(n % b, upper)]);
            if n / b == 0 then next == goal else Numeral(n / b, b, upper) + next == goal
  {
    DivMod(n, b);
    var c := DigitChar(n % b, upper);
    assert |Numeral(n, b, upper)| + |emitted| == |goal|;
    assert Reversed(emitted + [c]) == [c] + Reversed(emitted);
    if b <= n {
      assert Numeral(n / b, b, upper) + ([c] + Reversed(emitted))
          == (Numeral(n / b, b, upper) + [c]) + Reversed(emitted);
    }
  }

  /** The quotient and the table index in terms of the magnitude. */
  lemma QuotientStep(tmp: int, b: nat, quotient: int)
    requires ValidBase(b) && quotient == TruncDiv(tmp, b)
    ensures Abs(quotient) == Abs(tmp) / b && Abs(tmp - quotient * b) == Abs(tmp) % b
    ensures quotient == 0 || Abs(quotient) < Abs(tmp)
  {
    DivMod(Abs(tmp), b);
    assert tmp < 0 ==> quotient * b == -((Abs(tmp) / b) * b);
  }

  /** The closing two-pointer loop of the printer, over result[lo..end]. */
  method ReverseInPlace(result: array<char>, lo: nat, end: nat)
    requires lo < end <= result.Length
    modifies result
    ensures result[lo..end] == Reversed(old(result[lo..end]))
    ensures forall k :: 0 <= k < result.Length && !(lo <= k < end) ==> result[k] == old(result[k])
  {
    var left, right := lo, end - 1;
    ghost var was := result[lo..end];
    while left < right
      invariant lo <= left <= right + 1 <= end
      invariant left - lo == end - 1 - right
      invariant forall k :: lo <= k < left || right < k < end ==> result[k] == was[end - 1 - k]
      invariant forall k :: left <= k <= right ==> result[k] == was[k - lo]
      invariant forall k :: 0 <= k < result.Length && !(lo <= k < end) ==> result[k] == old(result[k])
    {
      result[left], result[right] := result[right], result[left];
      left, right := left + 1, right - 1;
    }
    assert forall k :: lo <= k < end ==> result[k] == was[end - 1 - k];
    assert result[lo..end] == Reversed(was);
  }

  /** The class string_cast: it owns the 65-byte cache that the text is printed in. */
  class StringCast {
    const valueCache: array<char>

    constructor OfInt(t: IntType, value: int, base: nat)
      requires t.Holds(value) && !(value == -0x8000_0000_0000_0000 && base == 2)
      ensures fresh(valueCache) && valueCache.Length == CACHE_SIZE
      ensures HoldsCString(valueCache[..], 0, Text(value, base, true))
    {
      valueCache := new char[CACHE_SIZE];
      new;
      if ValidBase(base) {
        CacheBound(t, value, base, true);
      }
      StringCastItoa(t, value, valueCache, 0, base, true);
    }

    constructor OfPointer(address: nat)
      requires UINTMAX.Holds(address)
      ensures fresh(valueCache) && valueCache.Length == CACHE_SIZE
      ensures HoldsCString(valueCache[..], 0, "0x" + Text(address, 16, true))
    {
      valueCache := new char[CACHE_SIZE];
      new;
      valueCache[0] := '0';
      valueCache[1] := 'x';
      assert |Text(address, 16, true)| <= 62 by {
        Base16Short(address);
      }
      StringCastItoa(UINTMAX, address, valueCache, 2, 16, true);
      var len := |Text(address, 16, true)|;
      assert valueCache[..][0..2 + len] == valueCache[..][0..2] + valueCache[..][2..2 + len];
    }
  }

  lemma Base16Short(n: nat)
    requires UINTMAX.Holds(n)
    ensures |Numeral(n, 16, true)| <= 62
  {
    Pow2Values();
    if 16 <= n {
      NumeralAtMost(n / 16, 16, true, 61);
    }
  }
}
