/** The integer parser of string_cast.h: strtoimax and strtoumax (sections 7.8.2.3
    and 7.20.1.4 of ISO/IEC 9899:1999) followed by a range check, and its round
    trip with the printer. */
module NumberCast {
  import opened Wrappers
  import opened Integers
  import opened StringCast

  // ---------------------------------------------------------- strtoimax/strtoumax

  /** The subject sequence found in a text, if there is one. */
  datatype Subject = NoConversion | Subject(negative: bool, magnitude: nat)

  /** White space of the "C" locale. */
  predicate IsSpace(c: char) {
    c == ' ' || '\t' <= c <= '\r'
  }

  function SkipSpaces(s: string): string {
    if s != "" && IsSpace(s[0]) then SkipSpaces(s[1..]) else s
  }

  /** The longest prefix of digits of base b. */
  function DigitRun(s: string, b: nat): (r: string)
    ensures r <= s
    ensures forall i :: 0 <= i < |r| ==> IsDigitIn(r[i], b)
    ensures |r| < |s| ==> !IsDigitIn(s[|r|], b)
  {
    if s != "" && IsDigitIn(s[0], b) then [s[0]] + DigitRun(s[1..], b) else ""
  }

  predicate HasHexPrefix(s: string) {
    3 <= |s| && s[0] == '0' && (s[1] == 'x' || s[1] == 'X') && IsDigitIn(s[2], 16)
  }

  /** Base 0 lets the prefix choose between hexadecimal, octal and decimal. */
  function EffectiveBase(s: string, base: nat): nat {
    if base != 0 then base
    else if HasHexPrefix(s) then 16
    else if s != "" && s[0] == '0' then 8
    else 10
  }

  /** The number at the start of a text without sign, if there is one. */
  function FindMagnitude(s: string, base: nat): Option<nat> {
    var b := EffectiveBase(s, base);
    var run := DigitRun(if b == 16 && HasHexPrefix(s) then s[2..] else s, b);
    if run == "" then None else Some(Eval(run, b))
  }

  predicate HasSign(s: string) {
    s != "" && (s[0] == '-' || s[0] == '+')
  }

  function Unsigned(s: string): string {
    if HasSign(s) then s[1..] else s
  }

  function FindSubject(text: string, base: nat): Subject {
    var s := SkipSpaces(text);
    match FindMagnitude(Unsigned(s), base)
    case None => NoConversion
    case Some(m) => Subject(HasSign(s) && s[0] == '-', m)
  }

  /** strtoimax saturates at the ends of intmax_t. */
  function StrToIMax(s: Subject): int {
    match s
    case NoConversion => 0
    case Subject(neg, m) => INTMAX.Clamp(if neg then -(m as int) else m)
  }

  /** strtoumax saturates a too large magnitude and otherwise negates it in
      uintmax_t when there is a minus sign. */
  function StrToUMax(s: Subject): int {
    match s
    case NoConversion => 0
    case Subject(neg, m) =>
      if !UINTMAX.Holds(m) then UINTMAX.Max()
      else UINTMAX.Wrap(if neg then -(m as int) else m)
  }

  // -------------------------------------------------------------- number_cast

  /** What strtoimax or strtoumax hands to number_cast<t>; None for a null pointer
      or a text without a number. */
  function Converted(t: IntType, str: Option<string>, base: nat): Option<int> {
    match str
    case None => None
    case Some(text) =>
      var s := FindSubject(text, base);
      if s.NoConversion? then None
      else if t.signed then Some(StrToIMax(s))
      else Some(StrToUMax(s))
  }

  /** The outcome of number_cast<t>: the nearest representable value, flagged valid
      when a number was found and the type holds it. */
  ghost predicate Casts(t: IntType, str: Option<string>, base: nat, value: int, valid: bool) {
    var c := Converted(t, str, base);
    && value == (if c.None? then 0 else t.Clamp(c.value))
    && (valid <==> c.Some? && t.Holds(c.value))
  }

  /** __signed_number_cast<T> and __unsigned_number_cast<T>. */
  class NumberCast {
    var value: int
    var valid: bool

    constructor (t: IntType, str: Option<string>, base: nat)
      ensures Casts(t, str, base, value, valid)
      ensures t.Holds(value)
    {
      value, valid := 0, false;
      new;
      if str.None? {
        return;
      }
      valid := true;
      var subject := FindSubject(str.value, base);
      value := if t.signed then StrToIMax(subject) else StrToUMax(subject);
      if subject.NoConversion? {
        valid := false;
        return;
      }
      if value < t.Min() {
        value := t.Min();
        valid := false;
        return;
      }
      if t.Max() < value {
        value := t.Max();
        valid := false;
        return;
      }
    }
  }

  // ------------------------------------------------------------ what is parsed

  /** The base in which the digits after an optional prefix are read. */
  ghost predicate Selects(base: nat, prefix: string, rest: string, b: nat) {
    || (prefix in {"0x", "0X"} && base in {0, 16} && b == 16)
    || (prefix == "" && ValidBase(base) && base == b && (b == 16 ==> !HasHexPrefix(rest)))
    || (prefix == "" && base == 0 && b == 8 && rest != "" && rest[0] == '0' && !HasHexPrefix(rest))
    || (prefix == "" && base == 0 && b == 10 && rest != "" && rest[0] != '0')
  }

  lemma {:induction false} SpacesSkipped(spaces: string, rest: string)
    requires forall c :: c in spaces ==> IsSpace(c)
    requires rest != "" ==> !IsSpace(rest[0])
    ensures SkipSpaces(spaces + rest) == rest
  {
    if spaces == "" {
      assert spaces + rest == rest;
    } else {
      assert spaces[0] in spaces && (spaces + rest)[1..] == spaces[1..] + rest;
      SpacesSkipped(spaces[1..], rest);
    }
  }

  lemma {:induction false} RunEnds(digits: string, tail: string, b: nat)
    requires forall i :: 0 <= i < |digits| ==> IsDigitIn(digits[i], b)
    requires tail == "" || !IsDigitIn(tail[0], b)
    ensures DigitRun(digits + tail, b) == digits
  {
    if digits == "" {
      assert digits + tail == tail;
    } else {
      assert (digits + tail)[1..] == digits[1..] + tail;
      RunEnds(digits[1..], tail, b);
    }
  }

  lemma MagnitudeFound(prefix: string, digits: string, tail: string, base: nat, b: nat)
    requires digits != "" && 2 <= b <= 36 && Selects(base, prefix, digits + tail, b)
    requires forall i :: 0 <= i < |digits| ==> IsDigitIn(digits[i], b)
    requires tail == "" || !IsDigitIn(tail[0], b)
    ensures FindMagnitude(prefix + (digits + tail), base) == Some(Eval(digits, b))
  {
    RunEnds(digits, tail, b);
    var s, rest := prefix + (digits + tail), digits + tail;
    if prefix == "" {
      assert s == rest;
    } else {
      assert s[2..] == rest && s[2] == digits[0] && HasHexPrefix(s);
    }
    assert DigitRun(rest, b) == digits;
  }

  /** A number is found behind any white space, with or without a sign and a prefix, and
      whatever follows its digits; base 0 reads digits that start with 0 in octal. */
  lemma NumberFound(spaces: string, sign: string, prefix: string, digits: string, tail: string, base: nat, b: nat)
    requires forall c :: c in spaces ==> c in " \t\n\U{000B}\U{000C}\r"
    requires sign in {"", "+", "-"} && digits != "" && 2 <= b <= 36
    requires Selects(base, prefix, digits + tail, b)
    requires forall i :: 0 <= i < |digits| ==> IsDigitIn(digits[i], b)
    requires tail == "" || !IsDigitIn(tail[0], b)
    ensures FindSubject(spaces + (sign + (prefix + (digits + tail))), base) == Subject(sign == "-", Eval(digits, b))
  {
    var number := prefix + (digits + tail);
    var signed := sign + number;
    assert DigitValue(number[0]) < 36 by {
      assert number[0] == if prefix == "" then digits[0] else '0';
    }
    SignFound(sign, number);
    SpacesSkipped(spaces, signed);
    MagnitudeFound(prefix, digits, tail, base, b);
  }

  lemma SignFound(sign: string, number: string)
    requires sign in {"", "+", "-"} && number != "" && DigitValue(number[0]) < 36
    ensures var s := sign + number;
            !IsSpace(s[0]) && Unsigned(s) == number && (HasSign(s) && s[0] == '-' <==> sign == "-")
  {
    var s := sign + number;
    if sign == "" {
      assert s == number;
    } else {
      assert s[1..] == number && s[0] == sign[0];
    }
  }

  /** The number that the conversion aims at: strtoumax takes a number with a minus sign
      as 2^64 minus its magnitude. */
  ghost function Meant(t: IntType, negative: bool, m: nat): (n: int)
    ensures !t.signed ==> 0 <= n
  {
    var i: int := m;
    if !negative then i
    else if t.signed || m == 0 then -i
    else if i < 0x1_0000_0000_0000_0000 then 0x1_0000_0000_0000_0000 - i
    else 0xFFFF_FFFF_FFFF_FFFF
  }

  /** What the casts make of a number in a text: the nearest value that the target holds
      to the number meant. The flag is set when the target holds that number, and for
      every number when it has 64 bits. */
  lemma NumberCastTo(t: IntType, text: string, base: nat, negative: bool, m: nat, value: int, valid: bool)
    requires FindSubject(text, base) == Subject(negative, m) && Casts(t, Some(text), base, value, valid)
    ensures var n := Meant(t, negative, m);
            && t.Holds(value) && (forall w :: t.Holds(w) ==> Abs(value - n) <= Abs(w - n))
            && (valid <==> t.Holds(n) || t.width == W64)
  {
    var n, i: int := Meant(t, negative, m), m;
    if !t.signed && UINTMAX.Holds(m) {
      WrapUnique(UINTMAX, if negative then -i else i, n, if negative && m > 0 then -1 else 0);
    }
    ClampOfClamp(t, n);
    ClampNearest(t, n);
  }

  lemma ClampOfClamp(t: IntType, n: int)
    requires t.signed || 0 <= n
    ensures var wide := if t.signed then INTMAX else UINTMAX;
            && t.Clamp(wide.Clamp(n)) == t.Clamp(n)
            && (t.Holds(wide.Clamp(n)) <==> t.Holds(n) || t.width == W64)
  {
    match t.width case W8 => case W16 => case W32 => case W64 =>
  }

  /** A text without a digit behind white space and sign is no number: the result is 0
      and not valid. */
  lemma NoNumber(t: IntType, spaces: string, sign: string, rest: string, base: nat, value: int, valid: bool)
    requires forall c :: c in spaces ==> c in " \t\n\U{000B}\U{000C}\r"
    requires sign in {"", "+", "-"} && base <= 36 && (rest == "" || DigitValue(rest[0]) == 36)
    requires sign == "" && rest != "" ==> !IsSpace(rest[0]) && rest[0] != '+' && rest[0] != '-'
    requires Casts(t, Some(spaces + (sign + rest)), base, value, valid)
    ensures value == 0 && !valid
  {
    var s := sign + rest;
    if sign == "" {
      assert s == rest;
    } else {
      assert s[1..] == rest;
    }
    SpacesSkipped(spaces, s);
    assert Unsigned(s) == rest && FindMagnitude(rest, base) == None;
  }

  lemma EvalTwo(c: char, d: char, b: nat)
    ensures Eval([c, d], b) == DigitValue(c) * b + DigitValue(d)
  {
    assert [c, d][..1] == [c] && [c][..0] == "";
    assert Eval([c], b) == DigitValue(c);
  }

  lemma EvalThree(c: char, d: char, e: char, b: nat)
    ensures Eval([c, d, e], b) == (DigitValue(c) * b + DigitValue(d)) * b + DigitValue(e)
  {
    assert [c, d, e][..2] == [c, d];
    EvalTwo(c, d, b);
  }

  // Three inputs.

  lemma TooSmall(value: int, valid: bool)
    requires Casts(IntType(true, W8), Some("-300"), 0, value, valid)
    ensures value == -128 && !valid
  {
    NumberAt("-300", "", "-", "", "300", "", 0, 10, 300);
  }

  lemma OctalBehindSpace(value: int, valid: bool)
    requires Casts(IntType(true, W8), Some("\t +017"), 0, value, valid)
    ensures value == 15 && valid
  {
    NumberAt("\t +017", "\t ", "+", "", "017", "", 0, 8, 15);
  }

  lemma HexBeforeText(value: int, valid: bool)
    requires Casts(IntType(false, W8), Some("0x1Fg"), 16, value, valid)
    ensures value == 31 && valid
  {
    NumberAt("0x1Fg", "", "", "0x", "1F", "g", 16, 16, 31);
    SmallNumber(IntType(false, W8), "0x1Fg", 16, 31, value, valid);
  }

  lemma SmallNumber(t: IntType, text: string, base: nat, m: nat, value: int, valid: bool)
    requires FindSubject(text, base) == Subject(false, m) && t.Holds(m) && Casts(t, Some(text), base, value, valid)
    ensures value == m && valid
  {
    NumberCastTo(t, text, base, false, m, value, valid);
    assert Abs(value - m) <= Abs(m - m);
  }

  lemma NumberAt(text: string, spaces: string, sign: string, prefix: string, digits: string, tail: string,
                 base: nat, b: nat, m: nat)
    requires text == spaces + sign + prefix + digits + tail
    requires forall c :: c in spaces ==> c in " \t\n\U{000B}\U{000C}\r"
    requires sign in {"", "+", "-"} && 2 <= b <= 36 && 2 <= |digits| <= 3
    requires Selects(base, prefix, digits + tail, b)
    requires forall i :: 0 <= i < |digits| ==> IsDigitIn(digits[i], b)
    requires tail == "" || !IsDigitIn(tail[0], b)
    requires m == ShortValue(digits, b)
    ensures FindSubject(text, base) == Subject(sign == "-", m)
  {
    NumberFound(spaces, sign, prefix, digits, tail, base, b);
    Regrouped(spaces, sign, prefix, digits, tail);
    ShortEval(digits, b);
  }

  lemma Regrouped(s: string, t: string, u: string, v: string, w: string)
    ensures s + t + u + v + w == s + (t + (u + (v + w)))
  {
  }

  lemma ShortEval(digits: string, b: nat)
    requires 2 <= |digits| <= 3
    ensures Eval(digits, b) == ShortValue(digits, b)
  {
    if |digits| == 2 {
      EvalTwo(digits[0], digits[1], b);
      assert digits == [digits[0], digits[1]];
    } else {
      EvalThree(digits[0], digits[1], digits[2], b);
      assert digits == [digits[0], digits[1], digits[2]];
    }
  }

  function ShortValue(digits: string, b: nat): nat
    requires 2 <= |digits| <= 3
  {
    var high := DigitValue(digits[0]) * b + DigitValue(digits[1]);
    if |digits| == 2 then high else high * b + DigitValue(digits[2])
  }

  // --------------------------------------------------------------- round trips

  lemma {:induction false} DigitRunAll(s: string, b: nat)
    requires forall i :: 0 <= i < |s| ==> IsDigitIn(s[i], b)
    ensures DigitRun(s, b) == s
  {
    if s != "" {
      DigitRunAll(s[1..], b);
      assert s == [s[0]] + s[1..];
    }
  }

  /** The parser reads a numeral back; in base 0 no prefix is ever seen in decimal
      output, whose only numeral with a leading zero is "0" itself. */
  lemma NumeralMagnitude(n: nat, b: nat, upper: bool, parseBase: nat)
    requires ValidBase(b)
    requires parseBase == b || (parseBase == 0 && b == 10)
    ensures FindMagnitude(Numeral(n, b, upper), parseBase) == Some(n)
  {
    var digits := Numeral(n, b, upper);
    NumeralIsNumeral(n, b, upper);
    assert !HasHexPrefix(digits);
    DigitRunAll(digits, b);
    if digits[0] == '0' {
      EvalZero(digits, b);
      EvalZero(digits, 8);
      DigitRunAll(digits, 8);
    }
  }

  lemma PrintedSubject(v: int, b: nat, upper: bool, parseBase: nat)
    requires ValidBase(b)
    requires parseBase == b || (parseBase == 0 && b == 10)
    ensures FindSubject(Text(v, b, upper), parseBase) == Subject(v < 0, Abs(v))
  {
    var digits := TextInBase(v, b, upper);
    NumeralIsNumeral(Abs(v), b, upper);
    NumeralMagnitude(Abs(v), b, upper, parseBase);
    SplitSign(v < 0, digits);
  }

  /** White space and sign in front of a text that starts with a digit. */
  lemma SplitSign(negative: bool, digits: string)
    requires digits != "" && DigitValue(digits[0]) < 36
    ensures var text := (if negative then "-" else "") + digits;
            && SkipSpaces(text) == text && Unsigned(text) == digits
            && (HasSign(text) && text[0] == '-' <==> negative)
  {
    var text := (if negative then "-" else "") + digits;
    assert text[0] == if negative then '-' else digits[0];
    assert negative ==> text[1..] == digits;
  }

  /** Printing and parsing, for any printed value and any target type: what
      number_cast computes before its range check. */
  lemma PrintedConverted(v: int, b: nat, upper: bool, t: IntType, parseBase: nat)
    requires (INTMAX.Holds(v) || UINTMAX.Holds(v)) && ValidBase(b)
    requires parseBase == b || (parseBase == 0 && b == 10)
    ensures Converted(t, Some(Text(v, b, upper)), parseBase)
         == Some(if t.signed then INTMAX.Clamp(v) else if 0 <= v then v else v + W64.Modulus())
  {
    PrintedSubject(v, b, upper, parseBase);
    SubjectConverted(v, t);
  }

  lemma SubjectConverted(v: int, t: IntType)
    requires INTMAX.Holds(v) || UINTMAX.Holds(v)
    ensures var s := Subject(v < 0, Abs(v));
            (if t.signed then StrToIMax(s) else StrToUMax(s))
            == if t.signed then INTMAX.Clamp(v) else if 0 <= v then v else v + W64.Modulus()
  {
    if v < 0 {
      WrapUnique(UINTMAX, v, v + W64.Modulus(), -1);
    } else if v <= UINTMAX.Max() {
      WrapUnique(UINTMAX, v, v, 0);
    }
  }

  /** Round trip: a value that string_cast has printed to its cache and whose text is
      read from there is recovered, and reported valid, exactly when the target type
      can hold it. The flag alone does not tell: for a 64-bit target it is set for
      every printed value. */
  lemma RoundTrip(p: IntType, v: int, b: nat, upper: bool, cache: seq<char>, str: string,
                  t: IntType, parseBase: nat, value: int, valid: bool)
    requires p.Holds(v) && ValidBase(b)
    requires parseBase == b || (parseBase == 0 && b == 10)
    requires HoldsCString(cache, 0, Text(v, b, upper)) && HoldsCString(cache, 0, str)
    requires Casts(t, Some(str), parseBase, value, valid)
    ensures valid && value == v <==> t.Holds(v)
    ensures valid <==> t.Holds(v) || t.width == W64
  {
    CStringUnique(cache, 0, Text(v, b, upper), str);
    assert INTMAX.Holds(v) || UINTMAX.Holds(v) by {
      match p.width case W8 => case W16 => case W32 => case W64 =>
    }
    PrintedConverted(v, b, upper, t, parseBase);
    match t.width case W8 => case W16 => case W32 => case W64 =>
  }

  /** The flag can be set on a wrong value: a negative number read as an unsigned
      64-bit one, and a large unsigned number read as a signed one. */
  lemma ValidButWrong()
    ensures Casts(IntType(false, W64), Some(Text(-5, 10, true)), 0, 0x1_0000_0000_0000_0000 - 5, true)
    ensures Casts(IntType(true, W64), Some(Text(0xFFFF_FFFF_FFFF_FFFF, 10, true)), 0, 0x7FFF_FFFF_FFFF_FFFF, true)
  {
    PrintedConverted(-5, 10, true, IntType(false, W64), 0);
    PrintedConverted(0xFFFF_FFFF_FFFF_FFFF, 10, true, IntType(true, W64), 0);
  }

  /** The 0x form that string_cast gives a pointer reads back as the address. */
  lemma PointerRoundTrip(address: nat, cache: seq<char>, str: string, value: int, valid: bool)
    requires UINTMAX.Holds(address)
    requires HoldsCString(cache, 0, "0x" + Text(address, 16, true)) && HoldsCString(cache, 0, str)
    requires Casts(UINTMAX, Some(str), 0, value, valid)
    ensures valid && value == address
  {
    CStringUnique(cache, 0, "0x" + Text(address, 16, true), str);
    var digits := Numeral(address, 16, true);
    NumeralIsNumeral(address, 16, true);
    DigitRunAll(digits, 16);
    var text := "0x" + digits;
    assert HasHexPrefix(text) && text[2..] == digits && !IsSpace(text[0]);
    assert FindMagnitude(text, 0) == Some(address);
    assert FindSubject(text, 0) == Subject(false, address);
    WrapUnique(UINTMAX, address, address, 0);
  }
}
