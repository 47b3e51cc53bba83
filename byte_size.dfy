/**
 * Human-readable byte sizes: `to_bytes` parses a size such as "1.50KB" or
 * "82GiB" into a 64-bit byte count, and `from_bytes` formats a byte count
 * with the largest decimal unit up to PB.
 *
 * All arithmetic is exact: a parsed fraction is scaled by the unit and then
 * truncated, a formatted fraction is rounded to two digits.
 */
module ByteSize {
  import opened Wrappers
  import CaseConversion

  /** The largest value of `std::uint64_t`. */
  const MAX_BYTES: nat := 0xFFFF_FFFF_FFFF_FFFF

  /** A byte count, held in a `std::uint64_t`. */
  type ByteCount = n: nat | n <= MAX_BYTES

  /** The ways `to_bytes` rejects its input (all are `std::invalid_argument`). */
  datatype SizeError =
    | EmptyInput       // ""
    | MissingUnit      // the text does not end in a letter, e.g. "100"
    | MissingNumber    // the text is all letters, e.g. "MB"
    | MalformedNumber  // the text before the unit is not digits[.digits]
    | UnknownUnit      // the letters are not a unit, e.g. "G"
    | Overflow         // the value does not fit in 64 bits

  function Pow(b: nat, e: nat): (r: nat)
    requires b >= 1
    ensures r >= 1
  {
    if e == 0 then 1 else b * Pow(b, e - 1)
  }

  lemma {:induction false} PowAdd(b: nat, m: nat, n: nat)
    requires b >= 1
    ensures Pow(b, m + n) == Pow(b, m) * Pow(b, n)
    decreases m
  {
    if m > 0 {
      PowAdd(b, m - 1, n);
      var x, y := Pow(b, m - 1), Pow(b, n);
      assert Pow(b, m + n) == b * (x * y);
      MulAssoc(b, x, y);
    }
  }

  /** A solver hint, kept as its own lemma so the proofs that use it stay small and stable. */
  lemma MulAssoc(a: int, b: int, c: int)
    ensures a * (b * c) == (a * b) * c
  {
  }

  // ---------------------------------------------------------------------------
  // Decimal digits

  predicate IsDigit(c: char) { '0' <= c <= '9' }

  predicate AllDigits(s: string) { forall i :: 0 <= i < |s| ==> IsDigit(s[i]) }

  /** The character of one decimal digit. */
  function DigitChar(d: nat): (c: char)
    requires d < 10
    ensures IsDigit(c) && c as int - '0' as int == d
  {
    ('0' as int + d) as char
  }

  /** The number a string of decimal digits denotes (most significant first). */
  function DigitsValue(s: string): (n: nat)
    requires AllDigits(s)
    ensures n < Pow(10, |s|)
  {
    if s == [] then 0
    else 10 * DigitsValue(s[..|s| - 1]) + (s[|s| - 1] as int - '0' as int)
  }

  /** The digits of `a + b` read as `a` shifted left by |b| places, plus `b`. */
  lemma {:induction false} DigitsValueConcat(a: string, b: string)
    requires AllDigits(a) && AllDigits(b)
    ensures AllDigits(a + b)
    ensures DigitsValue(a + b) == DigitsValue(a) * Pow(10, |b|) + DigitsValue(b)
    decreases |b|
  {
    if b == [] {
      assert a + b == a;
    } else {
      var b' := b[..|b| - 1];
      var d := b[|b| - 1] as int - '0' as int;
      assert (a + b)[..|a + b| - 1] == a + b';
      assert (a + b)[|a + b| - 1] == b[|b| - 1];
      DigitsValueConcat(a, b');
      var x, p := DigitsValue(a), Pow(10, |b'|);
      calc {
        DigitsValue(a + b);
        10 * DigitsValue(a + b') + d;
        10 * (x * p + DigitsValue(b')) + d;
        { ShiftDigit(x, p, DigitsValue(b'), d); }
        x * (10 * p) + (10 * DigitsValue(b') + d);
        x * Pow(10, |b|) + DigitsValue(b);
      }
    }
  }

  /** A solver hint for `DigitsValueConcat`, kept apart for proof stability. */
  lemma ShiftDigit(x: int, p: int, y: int, d: int)
    ensures 10 * (x * p + y) + d == x * (10 * p) + (10 * y + d)
  {
  }

  /** The shortest decimal numeral of `n`. */
  function NatToDigits(n: nat): (s: string)
    ensures s != [] && AllDigits(s)
    ensures DigitsValue(s) == n
    ensures |s| > 1 ==> s[0] != '0'
  {
    if n < 10 then [DigitChar(n)]
    else
      var init := NatToDigits(n / 10);
      var s := init + [DigitChar(n % 10)];
      assert s[..|s| - 1] == init;
      s
  }

  /** A numeral with no leading zero, the form `NatToDigits` prints. */
  predicate Canonical(s: string)
  {
    s != [] && AllDigits(s) && (|s| > 1 ==> s[0] != '0')
  }

  /** A numeral starting with a non-zero digit denotes a positive number. */
  lemma {:induction false} LeadingNonZeroPositive(s: string)
    requires s != [] && AllDigits(s) && s[0] != '0'
    ensures DigitsValue(s) >= 1
    decreases |s|
  {
    if |s| > 1 {
      LeadingNonZeroPositive(s[..|s| - 1]);
    }
  }

  /** Printing the value of a canonical numeral gives the numeral back. */
  lemma {:induction false} NatToDigitsCanonical(s: string)
    requires Canonical(s)
    ensures NatToDigits(DigitsValue(s)) == s
    decreases |s|
  {
    var init, d := s[..|s| - 1], s[|s| - 1] as int - '0' as int;
    var n := DigitsValue(s);
    if |s| == 1 {
      assert init == [];
      assert [DigitChar(d)] == s;
    } else {
      LeadingNonZeroPositive(init);
      DivModUnique(n, 10, DigitsValue(init), d);
      NatToDigitsCanonical(init);
      assert init + [s[|s| - 1]] == s;
    }
  }

  // ---------------------------------------------------------------------------
  // Units

  /** `B`, a decimal unit `KB`..`PB` (`Si`) or a binary unit `KiB`..`PiB` (`Iec`). */
  datatype Unit = Bytes | Si(level: nat) | Iec(level: nat)

  /** The prefix letters of the units of level 1 to 5. */
  const PREFIXES: string := "KMGTP"

  predicate ValidUnit(u: Unit) { u.Bytes? || 1 <= u.level <= |PREFIXES| }

  /** The upper-case spelling of a unit. */
  function Spelling(u: Unit): (t: string)
    requires ValidUnit(u)
  {
    match u
    case Bytes => "B"
    case Si(l) => [PREFIXES[l - 1], 'B']
    case Iec(l) => [PREFIXES[l - 1], 'I', 'B']
  }

  /** The number of bytes one unit stands for. */
  function Scale(u: Unit): (r: nat)
    ensures r >= 1
  {
    match u
    case Bytes => 1
    case Si(l) => Pow(1000, l)
    case Iec(l) => Pow(1024, l)
  }

  /** The level (1 to 5) of a prefix letter. */
  function PrefixLevel(c: char): (l: nat)
    requires c in PREFIXES
    ensures 1 <= l <= |PREFIXES| && PREFIXES[l - 1] == c
  {
    if c == 'K' then 1 else if c == 'M' then 2 else if c == 'G' then 3
    else if c == 'T' then 4 else 5
  }

  /** The unit named by `t`, matched case-insensitively. */
  function ParseUnit(t: string): (r: Option<Unit>)
    ensures r.Some? ==> ValidUnit(r.value) && CaseConversion.Uppered(t) == Spelling(r.value)
  {
    var up := CaseConversion.Uppered(t);
    if up == "B" then Some(Bytes)
    else if |up| == 2 && up[0] in PREFIXES && up[1] == 'B' then
      Some(Si(PrefixLevel(up[0])))
    else if |up| == 3 && up[0] in PREFIXES && up[1] == 'I' && up[2] == 'B' then
      Some(Iec(PrefixLevel(up[0])))
    else None
  }

  /** A unit is recognised exactly when the text, upper-cased, is its spelling. */
  lemma ParseUnitSpelling(t: string, u: Unit)
    requires ValidUnit(u)
    ensures ParseUnit(t) == Some(u) <==> CaseConversion.Uppered(t) == Spelling(u)
  {
    var up := CaseConversion.Uppered(t);
    if up == Spelling(u) {
      match u
      case Bytes =>
      case Si(l) => assert up[0] == PREFIXES[l - 1];
      case Iec(l) => assert up[0] == PREFIXES[l - 1];
    }
  }

  /** Decimal units scale by powers of 1000, binary units by powers of 1024. */
  lemma ScaleOfEveryUnit()
    ensures Scale(Bytes) == 1
    ensures Scale(Si(1)) == 1000 && Scale(Iec(1)) == 1024
    ensures Scale(Si(2)) == 1000 * 1000 && Scale(Iec(2)) == 1024 * 1024
    ensures Scale(Si(3)) == 1000 * 1000 * 1000 && Scale(Iec(3)) == 1024 * 1024 * 1024
    ensures Scale(Si(4)) == 1000 * 1000 * 1000 * 1000
    ensures Scale(Iec(4)) == 1024 * 1024 * 1024 * 1024
    ensures Scale(Si(5)) == 1000 * 1000 * 1000 * 1000 * 1000
    ensures Scale(Iec(5)) == 1024 * 1024 * 1024 * 1024 * 1024
  {
  }

  // ---------------------------------------------------------------------------
  // to_bytes

  /** Where the unit starts: the longest all-letter suffix of `s` begins at `k`. */
  function UnitStart(s: string): (k: nat)
    ensures k <= |s|
    ensures forall i :: k <= i < |s| ==> CaseConversion.IsLetter(s[i])
    ensures k == 0 || !CaseConversion.IsLetter(s[k - 1])
  {
    if s == [] || !CaseConversion.IsLetter(s[|s| - 1]) then |s| else UnitStart(s[..|s| - 1])
  }

  /** A number `whole.frac` written with `fracDigits` digits after the point. */
  datatype Number = Number(whole: nat, frac: nat, fracDigits: nat)

  /** The index of the first '.' in `t`, or |t| when there is none. */
  function DotIndex(t: string): (k: nat)
    ensures k <= |t|
    ensures k < |t| ==> t[k] == '.'
    ensures forall i :: 0 <= i < k ==> t[i] != '.'
  {
    if t == [] || t[0] == '.' then 0 else 1 + DotIndex(t[1..])
  }

  /** Parses `digits` or `digits.digits`; no sign, exponent or spaces. */
  function ParseNumber(t: string): (r: Option<Number>)
  {
    var k := DotIndex(t);
    var whole := t[..k];
    var frac := if k < |t| then t[k + 1..] else "";
    if whole != [] && AllDigits(whole) && (k == |t| || (frac != [] && AllDigits(frac))) then
      Some(Number(DigitsValue(whole), DigitsValue(frac), |frac|))
    else None
  }

  /** The whole number of bytes in `n` units of `scale` bytes, the fraction truncated. */
  function Scaled(n: Number, scale: nat): nat
  {
    Mantissa(n) * scale / Pow(10, n.fracDigits)
  }

  /**
   * Scaling truncates: the result is the largest count whose `10^fracDigits`
   * multiple does not exceed the number's digits times the scale.
   */
  lemma ScaledTruncates(n: Number, scale: nat)
    ensures var r, p := Scaled(n, scale), Pow(10, n.fracDigits);
      r * p <= Mantissa(n) * scale < (r + 1) * p
  {
    var x, p := Mantissa(n) * scale, Pow(10, n.fracDigits);
    assert x == x / p * p + x % p;
  }

  /** The digits of `n` read without the point: `n` times 10^fracDigits. */
  function Mantissa(n: Number): nat
  {
    n.whole * Pow(10, n.fracDigits) + n.frac
  }

  /**
   * `to_bytes`: the number of bytes a size such as "1.50KB" denotes. The
   * text is empty, lacks a unit (does not end in a letter) or lacks a number
   * (is all letters) exactly when the matching error is returned.
   */
  function ToBytes(s: string): (r: Result<ByteCount, SizeError>)
    ensures r == Failure(EmptyInput) <==> s == []
    ensures r == Failure(MissingUnit) <==> s != [] && !CaseConversion.IsLetter(s[|s| - 1])
    ensures r == Failure(MissingNumber)
        <==> s != [] && forall i :: 0 <= i < |s| ==> CaseConversion.IsLetter(s[i])
  {
    if s == [] then Failure(EmptyInput)
    else
      var k := UnitStart(s);
      if k == |s| then Failure(MissingUnit)
      else if k == 0 then Failure(MissingNumber)
      else ToBytesSplit(s, k)
  }

  /** `to_bytes` once the text is cut into a number `s[..k]` and a unit `s[k..]`. */
  function ToBytesSplit(s: string, k: nat): (r: Result<ByteCount, SizeError>)
    requires 0 < k < |s|
    ensures r != Failure(EmptyInput) && r != Failure(MissingUnit) && r != Failure(MissingNumber)
  {
    match ParseNumber(s[..k])
    case None => Failure(MalformedNumber)
    case Some(n) =>
      match ParseUnit(s[k..])
      case None => Failure(UnknownUnit)
      case Some(u) =>
        Checked(Scaled(n, Scale(u)))
  }

  /** A count as a 64-bit result: larger counts are an error, never wrapped. */
  function Checked(v: nat): (r: Result<ByteCount, SizeError>)
    ensures r.Success? <==> v <= MAX_BYTES
    ensures r.Success? ==> r.value == v
    ensures r.Failure? ==> r.error == Overflow
  {
    if v <= MAX_BYTES then Success(v) else Failure(Overflow)
  }

  /** The text `whole[.frac]unit`, with no point when `frac` is empty. */
  function SizeText(whole: string, frac: string, unitText: string): string
  {
    whole + (if frac == [] then "" else "." + frac) + unitText
  }

  lemma UpperedSpellingIsLetters(t: string, u: Unit)
    requires ValidUnit(u) && CaseConversion.Uppered(t) == Spelling(u)
    ensures t != [] && forall i :: 0 <= i < |t| ==> CaseConversion.IsLetter(t[i])
  {
    forall i | 0 <= i < |t| ensures CaseConversion.IsLetter(t[i]) {
      assert CaseConversion.UpperChar(t[i]) == Spelling(u)[i];
    }
  }

  lemma ParseNumberOfParts(whole: string, frac: string)
    requires whole != [] && AllDigits(whole) && AllDigits(frac)
    ensures ParseNumber(whole + (if frac == [] then "" else "." + frac))
         == Some(Number(DigitsValue(whole), DigitsValue(frac), |frac|))
  {
    var t := whole + (if frac == [] then "" else "." + frac);
    DotIndexOfParts(whole, t);
    assert t[..|whole|] == whole;
    if frac != [] {
      assert t[|whole| + 1..] == frac;
    }
  }

  lemma DotIndexOfParts(whole: string, t: string)
    requires AllDigits(whole) && |whole| <= |t| && t[..|whole|] == whole
    requires |whole| < |t| ==> t[|whole|] == '.'
    ensures DotIndex(t) == |whole|
    decreases whole
  {
    if whole != [] {
      assert t[0] == whole[0];
      DotIndexOfParts(whole[1..], t[1..]);
    }
  }

  lemma UnitStartOfParts(num: string, unitText: string)
    requires num != [] && !CaseConversion.IsLetter(num[|num| - 1])
    requires forall i :: 0 <= i < |unitText| ==> CaseConversion.IsLetter(unitText[i])
    ensures UnitStart(num + unitText) == |num|
    decreases |unitText|
  {
    var s := num + unitText;
    if unitText != [] {
      assert s[..|s| - 1] == num + unitText[..|unitText| - 1];
      UnitStartOfParts(num, unitText[..|unitText| - 1]);
    } else {
      assert s == num;
    }
  }

  /** A number `digits` or `digits.digits` is made of exactly those parts. */
  lemma ParseNumberForm(t: string) returns (whole: string, frac: string)
    requires ParseNumber(t).Some?
    ensures whole != [] && AllDigits(whole) && AllDigits(frac)
    ensures t == whole + (if frac == [] then "" else "." + frac)
    ensures ParseNumber(t) == Some(Number(DigitsValue(whole), DigitsValue(frac), |frac|))
  {
    var k := DotIndex(t);
    whole := t[..k];
    frac := if k < |t| then t[k + 1..] else "";
    if k < |t| {
      assert t == t[..k] + "." + t[k + 1..];
    } else {
      assert t == t[..k];
    }
  }

  /**
   * The converse of `ToBytesOfParts`: a text `to_bytes` accepts is a number
   * `whole[.frac]` followed by a unit spelled in any case, and its value is
   * that number scaled by the unit and truncated.
   */
  lemma ToBytesSuccessForm(s: string) returns (whole: string, frac: string, unitText: string, u: Unit)
    requires ToBytes(s).Success?
    ensures whole != [] && AllDigits(whole) && AllDigits(frac)
    ensures ValidUnit(u) && CaseConversion.Uppered(unitText) == Spelling(u)
    ensures s == SizeText(whole, frac, unitText)
    ensures ToBytes(s) == Checked(Scaled(Number(DigitsValue(whole), DigitsValue(frac), |frac|), Scale(u)))
  {
    var k := UnitStart(s);
    whole, frac := ParseNumberForm(s[..k]);
    unitText := s[k..];
    u := ParseUnit(unitText).value;
    assert s == s[..k] + s[k..];
  }

  /** A well-formed number followed by letters that name no unit is an unknown unit. */
  lemma ToBytesRejectsUnknownUnit(num: string, t: string)
    requires num != [] && !CaseConversion.IsLetter(num[|num| - 1]) && ParseNumber(num).Some?
    requires t != [] && forall i :: 0 <= i < |t| ==> CaseConversion.IsLetter(t[i])
    requires ParseUnit(t).None?
    ensures ToBytes(num + t) == Failure(UnknownUnit)
  {
    UnitStartOfParts(num, t);
    assert (num + t)[..|num|] == num && (num + t)[|num|..] == t;
  }

  /** Text before the unit that is not `digits[.digits]` is a malformed number. */
  lemma ToBytesRejectsMalformedNumber(num: string, t: string)
    requires num != [] && !CaseConversion.IsLetter(num[|num| - 1]) && ParseNumber(num).None?
    requires t != [] && forall i :: 0 <= i < |t| ==> CaseConversion.IsLetter(t[i])
    ensures ToBytes(num + t) == Failure(MalformedNumber)
  {
    UnitStartOfParts(num, t);
    assert (num + t)[..|num|] == num;
  }

  /**
   * What `to_bytes` accepts and returns: `whole[.frac]unit` with a unit
   * spelled in any case denotes `whole.frac` times the unit's scale,
   * truncated, and is rejected when that exceeds 2^64 - 1.
   */
  lemma {:induction false} ToBytesOfParts(whole: string, frac: string, unitText: string, u: Unit)
    requires whole != [] && AllDigits(whole) && AllDigits(frac)
    requires ValidUnit(u) && CaseConversion.Uppered(unitText) == Spelling(u)
    ensures ToBytes(SizeText(whole, frac, unitText))
         == Checked(Scaled(Number(DigitsValue(whole), DigitsValue(frac), |frac|), Scale(u)))
  {
    var num := whole + (if frac == [] then "" else "." + frac);
    var s := SizeText(whole, frac, unitText);
    assert s == num + unitText;
    UpperedSpellingIsLetters(unitText, u);
    assert num[|num| - 1] == if frac == [] then whole[|whole| - 1] else frac[|frac| - 1];
    UnitStartOfParts(num, unitText);
    assert ToBytes(s) == ToBytesSplit(s, |num|);
    assert s[..|num|] == num && s[|num|..] == unitText;
    ParseNumberOfParts(whole, frac);
    ParseUnitSpelling(unitText, u);
    assert ParseNumber(s[..|num|]) == Some(Number(DigitsValue(whole), DigitsValue(frac), |frac|));
    assert ParseUnit(s[|num|..]) == Some(u);
  }

  /** A whole number followed by a unit denotes the number times the unit's scale. */
  lemma {:induction false} ToBytesWhole(whole: string, unitText: string, u: Unit)
    requires whole != [] && AllDigits(whole)
    requires ValidUnit(u) && CaseConversion.Uppered(unitText) == Spelling(u)
    ensures ToBytes(whole + unitText) == Checked(DigitsValue(whole) * Scale(u))
  {
    assert SizeText(whole, "", unitText) == whole + unitText;
    ScaledWhole(DigitsValue(whole), Scale(u));
    ToBytesOfParts(whole, "", unitText, u);
  }

  lemma ScaledWhole(n: nat, scale: nat)
    ensures Scaled(Number(n, 0, 0), scale) == n * scale
  {
    assert Pow(10, 0) == 1;
  }

  /** When 10^fracDigits divides the scale, scaling loses nothing to truncation. */
  lemma ScaledDivisible(n: Number, scale: nat, p: nat, q: nat)
    requires p == Pow(10, n.fracDigits) && scale == p * q
    ensures Scaled(n, scale) == n.whole * scale + n.frac * q
  {
    assert (n.whole * p + n.frac) * scale == (n.whole * q * p + n.frac * q) * p;
    MultipleDivMod(n.whole * q * p + n.frac * q, p);
    assert n.whole * q * p == n.whole * scale;
  }

  /** The unit is matched case-insensitively: "123kb" means the same as "123KB". */
  lemma {:induction false} ToBytesCaseInsensitive(num: string, t1: string, t2: string)
    requires num != [] && !CaseConversion.IsLetter(num[|num| - 1])
    requires forall i :: 0 <= i < |t1| ==> CaseConversion.IsLetter(t1[i])
    requires forall i :: 0 <= i < |t2| ==> CaseConversion.IsLetter(t2[i])
    requires CaseConversion.Uppered(t1) == CaseConversion.Uppered(t2)
    ensures ToBytes(num + t1) == ToBytes(num + t2)
  {
    UnitStartOfParts(num, t1);
    UnitStartOfParts(num, t2);
    assert (num + t1)[..|num|] == num == (num + t2)[..|num|];
    assert (num + t1)[|num|..] == t1;
    assert (num + t2)[|num|..] == t2;
    assert ParseUnit(t1) == ParseUnit(t2);
    if |t1| == 0 {
      assert t2 == [];
    } else {
      assert ToBytes(num + t1) == ToBytesSplit(num + t1, |num|);
      assert ToBytes(num + t2) == ToBytesSplit(num + t2, |num|);
    }
  }

  // ---------------------------------------------------------------------------
  // from_bytes

  /** How many times `n` is divided by 1000 before it drops below 1000, at most `max` times. */
  function Level(n: nat, max: nat): (u: nat)
    ensures u <= max
    ensures u == 0 || Pow(1000, u) <= n
    ensures u == max || n < Pow(1000, u + 1)
  {
    if n < 1000 || max == 0 then 0
    else
      var u := 1 + Level(n / 1000, max - 1);
      assert Pow(1000, u) == 1000 * Pow(1000, u - 1);
      assert Pow(1000, u + 1) == 1000 * Pow(1000, u);
      u
  }

  /** The decimal unit `from_bytes` prints `n` in: B, KB, MB, GB, TB or PB. */
  function FormatUnit(n: nat): (u: Unit)
    ensures ValidUnit(u) && !u.Iec?
    ensures u.Bytes? <==> n < 1000
  {
    var l := Level(n, |PREFIXES|);
    if l == 0 then Bytes else Si(l)
  }

  /** The hundredths of a unit of `scale` bytes in `n`, rounded half up. */
  function RoundedHundredths(n: nat, scale: nat): nat
    requires scale >= 1
  {
    (200 * n + scale) / (2 * scale)
  }

  /**
   * `from_bytes`: `n` in its unit, whole when exact, else with two rounded
   * fractional digits. The text ends in the unit's spelling, and holds a
   * decimal point exactly when `n` is not a whole number of that unit.
   */
  function FromBytes(n: ByteCount): (s: string)
    ensures var t := Spelling(FormatUnit(n)); |t| < |s| && s[|s| - |t|..] == t
    ensures '.' in s <==> n % Scale(FormatUnit(n)) != 0
  {
    var u := FormatUnit(n);
    var scale := Scale(u);
    if n % scale == 0 then
      var q := NatToDigits(n / scale);
      NoPoint(q, Spelling(u));
      q + Spelling(u)
    else
      var h := RoundedHundredths(n, scale);
      var s := NatToDigits(h / 100) + "." + [DigitChar(h % 100 / 10), DigitChar(h % 10)] + Spelling(u);
      assert s[|NatToDigits(h / 100)|] == '.';
      s
  }

  /** A numeral followed by a unit's spelling holds no decimal point. */
  lemma NoPoint(q: string, t: string)
    requires AllDigits(q) && forall i :: 0 <= i < |t| ==> t[i] != '.'
    ensures '.' !in q + t
  {
    forall i | 0 <= i < |q + t| ensures (q + t)[i] != '.' {
      if i < |q| {
        assert IsDigit(q[i]);
      }
    }
  }

  /** Below 1000 the count is printed in bytes, with no fractional part. */
  lemma FromBytesSmall(n: ByteCount)
    requires n < 1000
    ensures FromBytes(n) == NatToDigits(n) + "B"
  {
  }

  /** A count that is a whole number `q` of its unit prints as `q` and the unit, with no fraction. */
  lemma FromBytesExact(n: ByteCount, q: nat)
    requires n == q * Scale(FormatUnit(n))
    ensures FromBytes(n) == NatToDigits(q) + Spelling(FormatUnit(n))
  {
    var scale := Scale(FormatUnit(n));
    assert n % scale == 0 && n / scale == q by {
      MultipleDivMod(q, scale);
    }
  }

  /** A count that is a whole number of its unit prints as the canonical numeral `s`. */
  lemma FromBytesWholeUnits(n: ByteCount, u: Unit, s: string)
    requires FormatUnit(n) == u && Canonical(s) && n == DigitsValue(s) * Scale(u)
    ensures FromBytes(n) == s + Spelling(u)
  {
    FromBytesExact(n, DigitsValue(s));
    NatToDigitsCanonical(s);
  }

  /**
   * Any other count prints as `h / 100`, a point and exactly two digits
   * `h % 100`, where `h` is the number of hundredths of the unit nearest to
   * the count, halves rounded up: h / 100 - 1/200 <= n / scale < h / 100 + 1/200.
   */
  lemma FromBytesFraction(n: ByteCount, h: nat)
    requires n % Scale(FormatUnit(n)) != 0
    requires var scale := Scale(FormatUnit(n));
      2 * scale * h <= 200 * n + scale < 2 * scale * h + 2 * scale
    ensures FromBytes(n)
         == NatToDigits(h / 100) + "." + [DigitChar(h % 100 / 10), DigitChar(h % 10)]
            + Spelling(FormatUnit(n))
  {
    RoundedHundredthsUnique(n, Scale(FormatUnit(n)), h);
  }

  /** The rounding inequality has one solution, the one `RoundedHundredths` computes. */
  lemma RoundedHundredthsUnique(n: nat, scale: nat, h: nat)
    requires scale >= 1
    requires 2 * scale * h <= 200 * n + scale < 2 * scale * h + 2 * scale
    ensures RoundedHundredths(n, scale) == h
  {
    var x := 200 * n + scale;
    DivModUnique(x, 2 * scale, h, x - 2 * scale * h);
  }

  /** The fractional form spelled out digit by digit: `w`, a point, `d1`, `d2`. */
  lemma FromBytesFractionDigits(n: ByteCount, u: Unit, w: nat, d1: nat, d2: nat)
    requires FormatUnit(n) == u && n % Scale(u) != 0
    requires d1 < 10 && d2 < 10
    requires RoundedHundredths(n, Scale(u)) == 100 * w + 10 * d1 + d2
    ensures FromBytes(n) == NatToDigits(w) + "." + [DigitChar(d1), DigitChar(d2)] + Spelling(u)
  {
    var h := 100 * w + 10 * d1 + d2;
    DivModUnique(h, 100, w, 10 * d1 + d2);
    DivModUnique(10 * d1 + d2, 10, d1, d2);
    DivModUnique(h, 10, 10 * w + d1, d2);
    RoundingBounds(n, Scale(u), h);
    FromBytesFraction(n, h);
  }

  lemma {:induction false} MulAtLeast(x: int, d: int)
    requires x >= 1 && d >= 0
    ensures x * d >= d
    decreases x
  {
    if x > 1 {
      MulAtLeast(x - 1, d);
      assert x * d == (x - 1) * d + d;
    }
  }

  /** Euclidean division has one quotient and one remainder. */
  lemma DivModUnique(a: int, d: int, q: int, r: int)
    requires d >= 1 && 0 <= r < d && a == q * d + r
    ensures a / d == q && a % d == r
  {
    var q', r' := a / d, a % d;
    assert a == q' * d + r';
    assert (q' - q) * d == r - r';
    if q' > q {
      MulAtLeast(q' - q, d);
    } else if q' < q {
      MulAtLeast(q - q', d);
    }
  }

  lemma MultipleDivMod(q: nat, d: nat)
    requires d >= 1
    ensures (q * d) % d == 0 && (q * d) / d == q
  {
    DivModUnique(q * d, d, q, 0);
  }

  /**
   * The unit is the largest decimal one up to PB whose scale fits in `n`,
   * so the printed integer part is below 1000 except in PB.
   */
  lemma FromBytesUnitChoice(n: ByteCount)
    ensures Scale(FormatUnit(n)) <= n || n < 1000
    ensures FormatUnit(n) == Si(5) || n < 1000 * Scale(FormatUnit(n))
  {
    var l := Level(n, |PREFIXES|);
    assert Pow(1000, l + 1) == 1000 * Pow(1000, l);
  }

  lemma TwoDigits(h: nat)
    ensures AllDigits([DigitChar(h % 100 / 10), DigitChar(h % 10)])
    ensures DigitsValue([DigitChar(h % 100 / 10), DigitChar(h % 10)]) == h % 100
  {
    var m := h % 100;
    assert m == 10 * (m / 10) + m % 10;
    DivModUnique(h, 10, 10 * (h / 100) + m / 10, m % 10);
    DigitPairValue(m / 10, h % 10);
  }

  /** The value of a numeral of two digits. */
  lemma DigitPairValue(a: nat, b: nat)
    requires a < 10 && b < 10
    ensures AllDigits([DigitChar(a), DigitChar(b)])
    ensures DigitsValue([DigitChar(a), DigitChar(b)]) == 10 * a + b
  {
    var f := [DigitChar(a), DigitChar(b)];
    assert f[..1] == [f[0]];
    assert [f[0]][..0] == [];
  }

  /**
   * Formatting then parsing gives back `n` when `n` is a whole number of its
   * unit, and otherwise a count within half a hundredth of the unit of `n`.
   */
  lemma {:induction false} FromBytesRoundTrip(n: ByteCount)
    ensures ToBytes(FromBytes(n)).Success?
    ensures var r := ToBytes(FromBytes(n)).value;
            var scale := Scale(FormatUnit(n));
            (n % scale == 0 ==> r == n)
            && 200 * (r - n) <= scale && 200 * (n - r) < scale
  {
    if n % Scale(FormatUnit(n)) == 0 {
      ExactRoundTrip(n);
    } else {
      RoundedRoundTrip(n);
    }
  }

  lemma {:induction false} ExactRoundTrip(n: ByteCount)
    requires n % Scale(FormatUnit(n)) == 0
    ensures ToBytes(FromBytes(n)) == Success(n)
  {
    var u := FormatUnit(n);
    var q := n / Scale(u);
    DivExact(n, Scale(u));
    FromBytesExact(n, q);
    UpperedSpelling(u);
    ToBytesWhole(NatToDigits(q), Spelling(u), u);
  }

  lemma {:induction false} RoundedRoundTrip(n: ByteCount)
    requires n % Scale(FormatUnit(n)) != 0
    ensures ToBytes(FromBytes(n)).Success?
    ensures var r := ToBytes(FromBytes(n)).value;
            var scale := Scale(FormatUnit(n));
            200 * (r - n) <= scale && 200 * (n - r) < scale
  {
    var u := FormatUnit(n);
    var scale := Scale(u);
    var h := RoundedHundredths(n, scale);
    var f := [DigitChar(h % 100 / 10), DigitChar(h % 10)];
    TwoDigits(h);
    UpperedSpelling(u);
    assert FromBytes(n) == SizeText(NatToDigits(h / 100), f, Spelling(u));
    ToBytesOfParts(NatToDigits(h / 100), f, Spelling(u), u);
    FromBytesUnitChoice(n);
    ScaledHundredths(h, u.level);
    var t := scale / 100;
    RoundingBounds(n, scale, h);
    RoundedFits(n, u.level, h);
    WithinHalfHundredth(n, scale, h, t);
  }

  /** A solver hint for `ExactRoundTrip`, kept apart for proof stability. */
  lemma DivExact(n: nat, d: nat)
    requires d >= 1 && n % d == 0
    ensures n / d * d == n
  {
  }

  /** Rounding to hundredths of `scale` = 100 * t leaves h * t within half a hundredth of `n`. */
  lemma WithinHalfHundredth(n: nat, scale: nat, h: nat, t: nat)
    requires scale == 100 * t
    requires 2 * scale * h <= 200 * n + scale < 2 * scale * h + 2 * scale
    ensures 200 * (h * t - n) <= scale && 200 * (n - h * t) < scale
  {
    assert scale * h == 100 * (h * t);
  }

  /** Two fractional digits `h % 100` of `h / 100` units of 1000^l bytes make h * 1000^l / 100 bytes. */
  lemma ScaledHundredths(h: nat, l: nat)
    requires 1 <= l
    ensures Pow(1000, l) % 100 == 0
    ensures Scaled(Number(h / 100, h % 100, 2), Pow(1000, l)) == h * (Pow(1000, l) / 100)
  {
    var t := 10 * Pow(1000, l - 1);
    assert Pow(1000, l) == 100 * t;
    assert Pow(10, 2) == 100;
    assert h / 100 * 100 + h % 100 == h;
    assert h * (100 * t) == (h * t) * 100;
  }

  lemma UpperedSpelling(u: Unit)
    requires ValidUnit(u)
    ensures CaseConversion.Uppered(Spelling(u)) == Spelling(u)
  {
  }

  /** Rounding half up moves `n` by at most half a hundredth of `scale`. */
  lemma RoundingBounds(n: nat, scale: nat, h: nat)
    requires scale >= 1 && h == RoundedHundredths(n, scale)
    ensures 2 * scale * h <= 200 * n + scale < 2 * scale * h + 2 * scale
  {
  }

  /** The rounded count of a 64-bit count still fits in 64 bits. */
  lemma RoundedFits(n: ByteCount, l: nat, h: nat)
    requires 1 <= l <= 5
    requires l < 5 ==> n < 1000 * Pow(1000, l)
    requires 2 * Pow(1000, l) * h <= 200 * n + Pow(1000, l)
    ensures h * (Pow(1000, l) / 100) <= MAX_BYTES
  {
    assert Pow(1000, 1) == 1000;
    assert Pow(1000, 2) == 1000_000;
    assert Pow(1000, 3) == 1000_000_000;
    assert Pow(1000, 4) == 1000_000_000_000;
    assert Pow(1000, 5) == 1000_000_000_000_000;
  }

  // ---------------------------------------------------------------------------
  // The cases checked by the tests

  /** "100B" is 100 bytes. */
  lemma ToBytesPlainBytes()
    ensures ToBytes("100B") == Success(100)
  {
    assert CaseConversion.Uppered("B") == Spelling(Bytes) by {
      assert Spelling(Bytes) == "B";
    }
    assert DigitsValue("100") * Scale(Bytes) == 100 * 1 by {
      assert NatToDigits(100) == "100";
      assert Scale(Bytes) == 1;
    }
    assert "100" + "B" == "100B";
    ToBytesWhole("100", "B", Bytes);
  }

  /** A lower-case unit: "123kb" is 123 kilobytes. */
  lemma ToBytesLowerCaseUnit()
    ensures ToBytes("123kb") == Success(123 * 1000)
  {
    assert CaseConversion.Uppered("kb") == Spelling(Si(1)) by {
      assert Spelling(Si(1)) == "KB";
    }
    assert DigitsValue("123") * Scale(Si(1)) == 123 * 1000 by {
      assert NatToDigits(123) == "123";
      assert Scale(Si(1)) == 1000;
    }
    assert "123" + "kb" == "123kb";
    ToBytesWhole("123", "kb", Si(1));
  }

  /** "100MB" is 100 * 1000^2 bytes. */
  lemma ToBytesMegabytes()
    ensures ToBytes("100MB") == Success(100 * 1000 * 1000)
  {
    assert CaseConversion.Uppered("MB") == Spelling(Si(2)) by {
      assert Spelling(Si(2)) == "MB";
    }
    assert DigitsValue("100") * Scale(Si(2)) == 100 * 1000 * 1000 by {
      assert NatToDigits(100) == "100";
      assert Scale(Si(2)) == 1000 * 1000;
    }
    assert "100" + "MB" == "100MB";
    ToBytesWhole("100", "MB", Si(2));
  }

  /** A binary unit: "82GiB" is 82 * 1024^3 bytes. */
  lemma ToBytesGibibytes()
    ensures ToBytes("82GiB") == Success(82 * 1024 * 1024 * 1024)
  {
    assert CaseConversion.Uppered("GiB") == Spelling(Iec(3)) by {
      assert Spelling(Iec(3)) == "GIB";
    }
    assert DigitsValue("82") * Scale(Iec(3)) == 82 * 1024 * 1024 * 1024 by {
      assert NatToDigits(82) == "82";
      assert Scale(Iec(3)) == 1024 * 1024 * 1024;
    }
    assert "82" + "GiB" == "82GiB";
    ToBytesWhole("82", "GiB", Iec(3));
  }

  /** "742TB" is 742 * 1000^4 bytes. */
  lemma ToBytesTerabytes()
    ensures ToBytes("742TB") == Success(742 * 1000 * 1000 * 1000 * 1000)
  {
    assert CaseConversion.Uppered("TB") == Spelling(Si(4)) by {
      assert Spelling(Si(4)) == "TB";
    }
    assert DigitsValue("742") * Scale(Si(4)) == 742 * 1000 * 1000 * 1000 * 1000 by {
      assert NatToDigits(742) == "742";
      assert Scale(Si(4)) == 1000 * 1000 * 1000 * 1000;
    }
    assert "742" + "TB" == "742TB";
    ToBytesWhole("742", "TB", Si(4));
  }

  /** A lower-case binary unit: "51pib" is 51 * 1024^5 bytes. */
  lemma ToBytesPebibytes()
    ensures ToBytes("51pib") == Success(51 * 1024 * 1024 * 1024 * 1024 * 1024)
  {
    assert CaseConversion.Uppered("pib") == Spelling(Iec(5)) by {
      assert Spelling(Iec(5)) == "PIB";
    }
    assert DigitsValue("51") * Scale(Iec(5)) == 51 * 1024 * 1024 * 1024 * 1024 * 1024 by {
      assert NatToDigits(51) == "51";
      assert Scale(Iec(5)) == 1024 * 1024 * 1024 * 1024 * 1024;
    }
    assert "51" + "pib" == "51pib";
    ToBytesWhole("51", "pib", Iec(5));
  }

  /** A fraction: "1.50KB" is 1500 bytes. */
  lemma ToBytesShortFraction()
    ensures ToBytes("1.50KB") == Success(1 * 1000 + 500)
  {
    assert CaseConversion.Uppered("KB") == Spelling(Si(1)) by {
      assert Spelling(Si(1)) == "KB";
    }
    assert Scaled(Number(DigitsValue("1"), DigitsValue("50"), |"50"|), Scale(Si(1))) == 1500 by {
      assert DigitsValue("1") == 1 && DigitsValue("50") == 50;
      assert Scale(Si(1)) == 1000 && Pow(10, 2) == 100;
      ScaledDivisible(Number(1, 50, 2), 1000, 100, 10);
    }
    assert SizeText("1", "50", "KB") == "1.50KB";
    ToBytesOfParts("1", "50", "KB", Si(1));
  }

  /** A longer fraction, kept exactly: "23.9999GB" is 23999900000 bytes. */
  lemma ToBytesLongFraction()
    ensures ToBytes("23.9999GB") == Success(((23 * 1000 + 999) * 1000 + 900) * 1000)
  {
    assert CaseConversion.Uppered("GB") == Spelling(Si(3)) by {
      assert Spelling(Si(3)) == "GB";
    }
    assert DigitsValue("9999") == 9999 by {
      DigitsValueConcat("99", "99");
      assert "99" + "99" == "9999";
      assert DigitsValue("99") == 99 && Pow(10, 2) == 100;
    }
    assert Scaled(Number(DigitsValue("23"), DigitsValue("9999"), |"9999"|), Scale(Si(3)))
        == 23_999_900_000 by {
      assert DigitsValue("23") == 23;
      assert Scale(Si(3)) == 1000_000_000 && Pow(10, 4) == 10000;
      ScaledDivisible(Number(23, 9999, 4), 1000_000_000, 10000, 100000);
    }
    assert SizeText("23", "9999", "GB") == "23.9999GB";
    ToBytesOfParts("23", "9999", "GB", Si(3));
  }

  /** The rejected inputs "", "100" and "MB": no input, no unit, no number. */
  lemma ToBytesRejectsMissingParts()
    ensures ToBytes("") == Failure(EmptyInput)
    ensures ToBytes("100") == Failure(MissingUnit)
    ensures ToBytes("MB") == Failure(MissingNumber)
  {
    assert "100"[2] == '0';
    assert CaseConversion.IsLetter("MB"[0]) && CaseConversion.IsLetter("MB"[1]);
  }

  /** "100G" is rejected: "G" alone is not a unit. */
  lemma ToBytesRejectsBarePrefix()
    ensures ToBytes("100G") == Failure(UnknownUnit)
  {
    UnitStartOfParts("100", "G");
    assert "100G"[..3] == "100" && "100G"[3..] == "G";
    ParseNumberOfParts("100", "");
    assert CaseConversion.Uppered("G") == "G";
    assert ToBytes("100G") == ToBytesSplit("100G", 3);
  }

  /** "100XB" names no unit, and "1..5KB" holds no well-formed number. */
  lemma ToBytesRejectsOtherText()
    ensures ToBytes("100XB") == Failure(UnknownUnit)
    ensures ToBytes("1..5KB") == Failure(MalformedNumber)
  {
    ParseNumberOfParts("100", "");
    assert CaseConversion.Uppered("XB") == "XB";
    assert "100" + "XB" == "100XB";
    ToBytesRejectsUnknownUnit("100", "XB");
    assert DotIndex("1..5") == 1;
    assert "1..5"[..1] == "1" && "1..5"[2..] == ".5";
    assert !AllDigits(".5") by {
      assert !IsDigit(".5"[0]);
    }
    assert "1..5" + "KB" == "1..5KB";
    ToBytesRejectsMalformedNumber("1..5", "KB");
  }

  /** 2^64 PiB does not fit in 64 bits and is rejected, not wrapped. */
  lemma ToBytesRejectsOverflow()
    ensures ToBytes("18446744073709551616PiB") == Failure(Overflow)
  {
    assert CaseConversion.Uppered("PiB") == Spelling(Iec(5)) by {
      assert Spelling(Iec(5)) == "PIB";
    }
    OverflowNumeralValue();
    assert "18446744073709551616" + "PiB" == "18446744073709551616PiB";
    ToBytesPebibyteRange("18446744073709551616", "PiB");
  }

  /**
   * A whole number of pebibytes fits in 64 bits exactly when it is below
   * 2^64 / 2^50 = 16384; from 16384 PiB up the text is rejected as an overflow.
   */
  lemma ToBytesPebibyteRange(whole: string, unitText: string)
    requires whole != [] && AllDigits(whole)
    requires CaseConversion.Uppered(unitText) == Spelling(Iec(5))
    ensures ToBytes(whole + unitText).Success? <==> DigitsValue(whole) < 16384
    ensures DigitsValue(whole) >= 16384 ==> ToBytes(whole + unitText) == Failure(Overflow)
  {
    ToBytesWhole(whole, unitText, Iec(5));
    assert Scale(Iec(5)) == 1125_899_906_842_624 by {
      assert Pow(1024, 5) == 1125_899_906_842_624;
    }
    PebibytesFit(DigitsValue(whole));
  }

  /** 2^50 bytes times `v` fits in 64 bits exactly when `v` is below 2^14. */
  lemma PebibytesFit(v: nat)
    ensures v * 1125_899_906_842_624 <= MAX_BYTES <==> v < 16384
  {
    if v >= 16384 {
      assert v * 1125_899_906_842_624 >= 16384 * 1125_899_906_842_624;
    } else {
      assert v * 1125_899_906_842_624 <= 16383 * 1125_899_906_842_624;
    }
  }

  /** The numeral 2^64 is at least 18 * 10^18. */
  lemma OverflowNumeralValue()
    ensures AllDigits("18446744073709551616")
    ensures DigitsValue("18446744073709551616") >= 18 * 1000_000_000_000_000_000
  {
    assert "18" + "446744073709551616" == "18446744073709551616";
    assert DigitsValue("18") == 18;
    PowTenEighteen();
    LeadingDigitsBound("18", "446744073709551616");
  }

  lemma PowTenEighteen()
    ensures Pow(10, 18) == 1000_000_000_000_000_000
  {
    assert Pow(10, 6) == 1000_000;
    PowAdd(10, 6, 6);
    PowAdd(10, 6, 12);
  }

  /** A numeral is at least its leading digits shifted left by the length of the rest. */
  lemma LeadingDigitsBound(a: string, b: string)
    requires AllDigits(a) && AllDigits(b)
    ensures AllDigits(a + b)
    ensures DigitsValue(a + b) >= DigitsValue(a) * Pow(10, |b|)
  {
    DigitsValueConcat(a, b);
  }

  /** 555559 bytes print as "555.56KB", rounded to two digits. */
  lemma FromBytesKilobytes()
    ensures FromBytes(555 * 1000 + 559) == "555.56KB"
  {
    assert FormatUnit(555559) == Si(1) && Scale(Si(1)) == 1000;
    assert RoundedHundredths(555559, 1000) == 100 * 555 + 10 * 5 + 6;
    FromBytesFractionDigits(555559, Si(1), 555, 5, 6);
    assert NatToDigits(555) == "555" && Spelling(Si(1)) == "KB";
  }

  /** 100104000 bytes print as "100.10MB", the trailing zero kept. */
  lemma FromBytesMegabytes()
    ensures FromBytes((100 * 1000 + 104) * 1000) == "100.10MB"
  {
    assert FormatUnit(100104000) == Si(2) && Scale(Si(2)) == 1000_000;
    assert RoundedHundredths(100104000, 1000_000) == 100 * 100 + 10 * 1 + 0;
    FromBytesFractionDigits(100104000, Si(2), 100, 1, 0);
    assert NatToDigits(100) == "100" && Spelling(Si(2)) == "MB";
  }

  /** A whole number of gigabytes prints with no fraction: "82GB". */
  lemma FromBytesGigabytes()
    ensures FromBytes(82 * 1000 * 1000 * 1000) == "82GB"
  {
    assert FormatUnit(82_000_000_000) == Si(3) && Scale(Si(3)) == 1000_000_000;
    FromBytesExact(82_000_000_000, 82);
    assert NatToDigits(82) == "82";
  }

  /** A whole number of terabytes prints with no fraction: "742TB". */
  lemma FromBytesTerabytes()
    ensures FromBytes(742 * 1000 * 1000 * 1000 * 1000) == "742TB"
  {
    assert FormatUnit(742_000_000_000_000) == Si(4) && Scale(Si(4)) == 1000_000_000_000;
    FromBytesExact(742_000_000_000_000, 742);
    assert NatToDigits(742) == "742";
  }

  /** PB is the largest unit, so 12345 of them stay in PB: "12345PB". */
  lemma FromBytesPetabytes()
    ensures FromBytes(12345 * 1000 * 1000 * 1000 * 1000 * 1000) == "12345PB"
  {
    PetabyteUnit(12345_000_000_000_000_000);
    NumeralOf12345();
    FromBytesWholeUnits(12345_000_000_000_000_000, Si(5), "12345");
    assert "12345" + Spelling(Si(5)) == "12345PB";
  }

  /** From 10^15 bytes up the unit stays PB. */
  lemma PetabyteUnit(n: ByteCount)
    requires n >= 1000_000_000_000_000
    ensures FormatUnit(n) == Si(5) && Scale(Si(5)) == 1000_000_000_000_000
  {
    assert Pow(1000, 5) == 1000_000_000_000_000;
  }

  lemma NumeralOf12345()
    ensures AllDigits("12345") && DigitsValue("12345") == 12345
  {
    DigitsValueConcat("12", "345");
    assert "12" + "345" == "12345";
    assert DigitsValue("12") == 12 && DigitsValue("345") == 345 && Pow(10, 3) == 1000;
  }

  /** Counts below 1000 print in bytes: "0B" and "100B". */
  lemma FromBytesBytes()
    ensures FromBytes(0) == "0B"
    ensures FromBytes(100) == "100B"
  {
    FromBytesSmall(0);
    FromBytesSmall(100);
  }
}
