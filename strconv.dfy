/** Go's strconv.Atoi on a 64-bit platform, as env.PluginKillTimeout calls it,
    and strconv.Itoa, its printing counterpart.

    The implementation functions follow the control flow of the Go library:
    a fast path for texts shorter than 19 characters, and otherwise
    ParseInt over ParseUint, whose digit loop checks for uint64 overflow
    before each step. The specification functions say what a decimal
    integer text is and what it denotes; the lemmas connect the two. */
module Strconv {

  const MaxInt64: int := 0x7fff_ffff_ffff_ffff
  const MinInt64: int := -0x8000_0000_0000_0000
  const MaxUint64: int := 0xffff_ffff_ffff_ffff

  /** The two error values a NumError can wrap. */
  datatype NumError = ErrSyntax | ErrRange

  /** What Atoi returns: a value, or an error (Go also returns a clamped
      value beside ErrRange, which env.go never looks at). */
  datatype Parsed = Ok(value: int) | Err(error: NumError)

  predicate InInt64(n: int) {
    MinInt64 <= n <= MaxInt64
  }

  // ---------------------------------------------------------------------
  // Specification: decimal integer texts and the number they denote

  predicate IsDigit(c: char) {
    '0' <= c <= '9'
  }

  function DigitValue(c: char): (d: nat)
    requires IsDigit(c)
    ensures d <= 9
  {
    c as int - '0' as int
  }

  predicate AllDigits(s: string) {
    forall i :: 0 <= i < |s| ==> IsDigit(s[i])
  }

  predicate IsSign(c: char) {
    c == '+' || c == '-'
  }

  /** The number a string of decimal digits denotes, most significant first. */
  function DigitsValue(s: string): nat
    requires AllDigits(s)
  {
    if s == [] then 0 else DigitsValue(s[..|s| - 1]) * 10 + DigitValue(s[|s| - 1])
  }

  /** The digits after an optional leading sign. */
  function Magnitude(s: string): string {
    if |s| > 0 && IsSign(s[0]) then s[1..] else s
  }

  /** An optional '+' or '-' followed by one or more decimal digits, and nothing else. */
  predicate IsIntegerText(s: string) {
    |Magnitude(s)| > 0 && AllDigits(Magnitude(s))
  }

  /** The signed number an integer text denotes. */
  function TextValue(s: string): int
    requires IsIntegerText(s)
  {
    var m: int := DigitsValue(Magnitude(s));
    if s[0] == '-' then -m else m
  }

  function Pow10(k: nat): (p: nat)
    ensures p >= 1
  {
    if k == 0 then 1 else 10 * Pow10(k - 1)
  }

  // ---------------------------------------------------------------------
  // Implementation, after Go's strconv

  /** The fast path's digit loop: n accumulates the digits seen so far and
      the first byte outside '0'..'9' is a syntax error. */
  function FastDigits(s: string, n: int): Parsed {
    if s == [] then Ok(n)
    else if !IsDigit(s[0]) then Err(ErrSyntax)
    else FastDigits(s[1..], n * 10 + DigitValue(s[0]))
  }

  /** Atoi's fast path, taken when 0 < len(s) < 19, where no digit string
      can overflow an int64. */
  function AtoiFast(s: string): Parsed
    requires 0 < |s| < 19
  {
    var digits := if IsSign(s[0]) then s[1..] else s;
    if |digits| < 1 then Err(ErrSyntax)
    else match FastDigits(digits, 0)
      case Err(e) => Err(e)
      case Ok(n) => Ok(if s[0] == '-' then -n else n)
  }

  /** ParseUint's cutoff: n >= Cutoff means n * 10 overflows a uint64. */
  const Cutoff: int := MaxUint64 / 10 + 1

  /** ParseUint's digit loop in base 10 for 64 bits. A non-digit is a syntax
      error; a step that would leave the uint64 range is a range error,
      reported at once, before any later byte is looked at. */
  function ParseUintDigits(s: string, n: nat): Parsed
    requires n <= MaxUint64
  {
    if s == [] then Ok(n)
    else if !IsDigit(s[0]) then Err(ErrSyntax)
    else if n >= Cutoff then Err(ErrRange)
    else
      var n1 := n * 10 + DigitValue(s[0]);
      // Go detects this as wrap-around of the uint64 sum (n1 < n)
      if n1 > MaxUint64 then Err(ErrRange) else ParseUintDigits(s[1..], n1)
  }

  function ParseUint(s: string): Parsed {
    if s == [] then Err(ErrSyntax) else ParseUintDigits(s, 0)
  }

  /** ParseInt(s, 10, 64): strip a sign, parse the magnitude as a uint64,
      and check it against the int64 range. */
  function ParseInt(s: string): Parsed {
    if s == [] then Err(ErrSyntax)
    else
      var neg := s[0] == '-';
      match ParseUint(if IsSign(s[0]) then s[1..] else s)
      case Err(ErrSyntax) => Err(ErrSyntax)
      // Go carries on with the magnitude clamped to MaxUint64, which is
      // out of the int64 range either way
      case Err(ErrRange) => Err(ErrRange)
      case Ok(un) =>
        if !neg && un >= MaxInt64 + 1 then Err(ErrRange)
        else if neg && un > MaxInt64 + 1 then Err(ErrRange)
        else Ok(if neg then -un else un)
  }

  function Atoi(s: string): Parsed {
    if 0 < |s| < 19 then AtoiFast(s) else ParseInt(s)
  }

  /** strconv.Itoa's digits for a natural number. */
  function FormatNat(n: nat): (s: string)
    ensures |s| > 0
  {
    if n < 10 then [('0' as int + n) as char]
    else FormatNat(n / 10) + [('0' as int + n % 10) as char]
  }

  function Itoa(n: int): string {
    if n < 0 then "-" + FormatNat(-n) else FormatNat(n)
  }

  // ---------------------------------------------------------------------
  // Properties of the digit strings

  lemma {:induction false} DigitsValueBelowPow10(s: string)
    requires AllDigits(s)
    ensures DigitsValue(s) < Pow10(|s|)
  {
    if s != [] {
      DigitsValueBelowPow10(s[..|s| - 1]);
    }
  }

  /** Appending digits never makes a value smaller. */
  lemma {:induction false} DigitsValueMonotone(p: string, q: string)
    requires AllDigits(p) && AllDigits(q)
    ensures AllDigits(p + q) && DigitsValue(p + q) >= DigitsValue(p)
  {
    if q != [] {
      var q' := q[..|q| - 1];
      assert (p + q)[..|p + q| - 1] == p + q';
      assert (p + q)[|p + q| - 1] == q[|q| - 1];
      DigitsValueMonotone(p, q');
      assert DigitsValue(p + q) == DigitsValue(p + q') * 10 + DigitValue(q[|q| - 1]);
    } else {
      assert p + q == p;
    }
  }

  /** A digit string that does not start with '0' denotes at least 1. */
  lemma LeadingNonZeroPositive(s: string)
    requires |s| > 0 && AllDigits(s) && s[0] != '0'
    ensures DigitsValue(s) >= 1
  {
    DigitsValueMonotone([s[0]], s[1..]);
    assert [s[0]] + s[1..] == s;
  }

  /** The fast path's loop computes DigitsValue when it accepts, and accepts
      exactly the all-digit strings. */
  lemma {:induction false} FastDigitsValue(p: string, s: string)
    requires AllDigits(p)
    decreases |s|
    ensures AllDigits(s) ==> AllDigits(p + s) && FastDigits(s, DigitsValue(p)) == Ok(DigitsValue(p + s))
    ensures !AllDigits(s) ==> FastDigits(s, DigitsValue(p)) == Err(ErrSyntax)
  {
    if s == [] {
      assert p + s == p;
    } else if IsDigit(s[0]) {
      var p' := p + [s[0]];
      assert p'[..|p'| - 1] == p;
      assert DigitsValue(p') == DigitsValue(p) * 10 + DigitValue(s[0]);
      FastDigitsValue(p', s[1..]);
      assert p' + s[1..] == p + s;
      assert AllDigits(s) <==> AllDigits(s[1..]);
    }
  }

  /** ParseUint's loop accepts exactly the all-digit strings whose value
      fits in a uint64, and reports an overflowing digit string as a range
      error. */
  lemma {:induction false} ParseUintDigitsValue(p: string, s: string)
    requires AllDigits(p) && DigitsValue(p) <= MaxUint64
    decreases |s|
    ensures AllDigits(s) ==> AllDigits(p + s)
    ensures AllDigits(s) && DigitsValue(p + s) <= MaxUint64 ==>
      ParseUintDigits(s, DigitsValue(p)) == Ok(DigitsValue(p + s))
    ensures AllDigits(s) && DigitsValue(p + s) > MaxUint64 ==>
      ParseUintDigits(s, DigitsValue(p)) == Err(ErrRange)
    ensures !AllDigits(s) ==> ParseUintDigits(s, DigitsValue(p)).Err?
  {
    if s == [] {
      assert p + s == p;
    } else if IsDigit(s[0]) {
      var p' := p + [s[0]];
      assert p'[..|p'| - 1] == p;
      assert DigitsValue(p') == DigitsValue(p) * 10 + DigitValue(s[0]);
      assert p' + s[1..] == p + s;
      assert AllDigits(s) <==> AllDigits(s[1..]);
      if DigitsValue(p') <= MaxUint64 {
        ParseUintDigitsValue(p', s[1..]);
      } else if AllDigits(s) {
        DigitsValueMonotone(p', s[1..]);
      }
    }
  }

  lemma ParseUintValue(s: string)
    ensures AllDigits(s) && s != [] && DigitsValue(s) <= MaxUint64 ==> ParseUint(s) == Ok(DigitsValue(s))
    ensures AllDigits(s) && DigitsValue(s) > MaxUint64 ==> ParseUint(s) == Err(ErrRange)
    ensures !(AllDigits(s) && s != []) ==> ParseUint(s).Err?
  {
    if s != [] {
      assert DigitsValue([]) == 0;
      ParseUintDigitsValue([], s);
      assert [] + s == s;
    }
  }

  // ---------------------------------------------------------------------
  // Atoi against its specification

  /** The fast path never overflows and agrees with the specification. */
  lemma AtoiFastMeetsSpec(s: string)
    requires 0 < |s| < 19
    ensures AtoiFast(s).Ok? <==> IsIntegerText(s)
    ensures AtoiFast(s).Ok? ==> InInt64(TextValue(s)) && AtoiFast(s).value == TextValue(s)
    ensures AtoiFast(s).Err? ==> AtoiFast(s).error == ErrSyntax
  {
    var digits := Magnitude(s);
    if |digits| >= 1 {
      assert DigitsValue([]) == 0;
      FastDigitsValue([], digits);
      assert [] + digits == digits;
      if AllDigits(digits) {
        DigitsValueBelowPow10(digits);
        Pow10Monotone(|digits|, 18);
        Pow10Of18();
      }
    }
  }

  lemma Pow10Of18()
    ensures Pow10(18) == 1_000_000_000_000_000_000
  {
    assert Pow10(4) == 10_000;
    assert Pow10(8) == 100_000_000;
    assert Pow10(12) == 1_000_000_000_000;
    assert Pow10(16) == 10_000_000_000_000_000;
  }

  lemma {:induction false} Pow10Monotone(j: nat, k: nat)
    requires j <= k
    ensures Pow10(j) <= Pow10(k)
  {
    if j < k {
      Pow10Monotone(j, k - 1);
    }
  }

  /** The slow path agrees with the specification: ParseInt accepts exactly
      the integer texts inside the int64 range, and rejects an integer text
      outside it with ErrRange. */
  lemma ParseIntMeetsSpec(s: string)
    ensures ParseInt(s).Ok? <==> IsIntegerText(s) && InInt64(TextValue(s))
    ensures ParseInt(s).Ok? ==> ParseInt(s).value == TextValue(s)
    ensures IsIntegerText(s) && !InInt64(TextValue(s)) ==> ParseInt(s) == Err(ErrRange)
  {
    if s != [] {
      ParseUintValue(Magnitude(s));
    }
  }

  /** Atoi accepts exactly the decimal integer texts whose value fits in an
      int64, returns that value, and reports an integer text outside the
      range as ErrRange. */
  lemma AtoiMeetsSpec(s: string)
    ensures Atoi(s).Ok? <==> IsIntegerText(s) && InInt64(TextValue(s))
    ensures Atoi(s).Ok? ==> Atoi(s).value == TextValue(s)
    ensures IsIntegerText(s) && !InInt64(TextValue(s)) ==> Atoi(s) == Err(ErrRange)
    ensures |s| < 19 && !IsIntegerText(s) ==> Atoi(s) == Err(ErrSyntax)
  {
    if 0 < |s| < 19 {
      AtoiFastMeetsSpec(s);
    } else {
      ParseIntMeetsSpec(s);
    }
  }

  // ---------------------------------------------------------------------
  // Round trips between Itoa and Atoi

  lemma {:induction false} FormatNatDigits(n: nat)
    ensures AllDigits(FormatNat(n)) && DigitsValue(FormatNat(n)) == n
    ensures FormatNat(n)[0] != '0' || n == 0
  {
    var s := FormatNat(n);
    if n >= 10 {
      FormatNatDigits(n / 10);
      assert s[..|s| - 1] == FormatNat(n / 10);
    }
  }

  /** Printing any int64 and parsing the text gives the number back. */
  lemma AtoiItoa(n: int)
    requires InInt64(n)
    ensures Atoi(Itoa(n)) == Ok(n)
  {
    var s := Itoa(n);
    if n < 0 {
      FormatNatDigits(-n);
      assert Magnitude(s) == FormatNat(-n);
    } else {
      FormatNatDigits(n);
      assert Magnitude(s) == FormatNat(n);
    }
    AtoiMeetsSpec(s);
  }

  /** A digit string without a superfluous leading zero is printed back
      exactly as it was written. */
  lemma {:induction false} FormatNatDigitsValue(s: string)
    requires |s| > 0 && AllDigits(s) && (s[0] != '0' || |s| == 1)
    ensures FormatNat(DigitsValue(s)) == s
  {
    var init := s[..|s| - 1];
    if init == [] {
      assert s == [s[0]];
    } else {
      LeadingNonZeroPositive(init);
      FormatNatDigitsValue(init);
      assert s == init + [s[|s| - 1]];
    }
  }

  /** The other round trip: a canonical integer text (no '+', no leading
      zero, no "-0") that Atoi accepts prints back as the same text. */
  lemma ItoaAtoi(s: string)
    requires |s| > 0 && Atoi(s).Ok?
    requires s[0] != '+'
    requires |Magnitude(s)| == 1 || Magnitude(s)[0] != '0'
    requires s[0] == '-' ==> Magnitude(s) != "0"
    ensures Itoa(Atoi(s).value) == s
  {
    AtoiMeetsSpec(s);
    var m := Magnitude(s);
    FormatNatDigitsValue(m);
    if s[0] == '-' {
      LeadingNonZeroPositive(m);
      assert s == "-" + m;
    }
  }
}
