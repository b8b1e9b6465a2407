/**
 Numbers as they are written for strtoul (internal/goip/cparse.go): spaces, a
 sign, a prefix and digits taken from written-out alphabets. What is written reads
 back, whatever comes after it.
 */
module Numerals {
  import opened CParse

  const OCTAL := "01234567"
  const HEX_LOWER := "0123456789abcdef"
  const HEX_UPPER := "0123456789ABCDEF"

  /** `n` written with the given digits, the most significant first. */
  function Numeral(n: nat, digits: string): (t: string)
    requires |digits| == 8 || |digits| == 16
    ensures |t| > 0
    ensures forall i :: 0 <= i < |t| ==> t[i] in digits
    decreases n
  {
    if n < |digits| then [digits[n]]
    else
      QuotientIsSmaller(n, |digits|);
      Numeral(n / |digits|, digits) + [digits[n % |digits|]]
  }

  lemma QuotientIsSmaller(n: nat, radix: nat)
    requires (radix == 8 || radix == 16) && radix <= n
    ensures n / radix < n
    ensures n == n / radix * radix + n % radix
  {
  }

  /** The digits of a radix, each at its value. */
  ghost predicate Lists(digits: string) {
    && (|digits| == 8 || |digits| == 16)
    && (forall d :: 0 <= d < |digits| ==> DigitVal(digits[d]) == d)
  }

  lemma OctalLists()
    ensures Lists(OCTAL) && |OCTAL| == 8
  {
  }

  lemma HexLowerLists()
    ensures Lists(HEX_LOWER) && |HEX_LOWER| == 16
  {
  }

  lemma HexUpperLists()
    ensures Lists(HEX_UPPER) && |HEX_UPPER| == 16
  {
  }

  /** And no other byte is a digit. */
  lemma OctalListsAll(c: char)
    ensures DigitVal(c) < 8 ==> c in OCTAL
  {
    OctalLists();
    if DigitVal(c) < 8 {
      assert OCTAL[DigitVal(c)] == c;
    }
  }

  lemma HexListsAll(c: char)
    ensures DigitVal(c) < 16 ==> c in HEX_LOWER || c in HEX_UPPER
  {
    HexLowerLists();
    HexUpperLists();
    if DigitVal(c) < 16 {
      assert HEX_LOWER[DigitVal(c)] == c || HEX_UPPER[DigitVal(c)] == c;
    }
  }

  lemma {:induction false} NumeralValue(before: string, n: nat, digits: string, rest: string)
    requires Lists(digits)
    ensures DigitsValue(before + Numeral(n, digits) + rest, |before|, |before| + |Numeral(n, digits)|, |digits|) == n
    decreases n
  {
    var t := before + Numeral(n, digits) + rest;
    if n < |digits| {
      assert t[|before|] == digits[n];
      assert DigitsValue(t, |before|, |before|, |digits|) == 0;
    } else {
      QuotientIsSmaller(n, |digits|);
      var front, last := Numeral(n / |digits|, digits), digits[n % |digits|];
      NumeralValue(before, n / |digits|, digits, [last] + rest);
      assert t == before + front + ([last] + rest);
      assert t[|before| + |front|] == last;
    }
  }

  // -------------------------------------------------------------- what may come before

  const SPACES: seq<nat> := [32, 9, 10, 11, 12, 13]

  /** White space, then a sign or none. */
  ghost predicate Leads(spaces: string, sign: string) {
    && (forall i :: 0 <= i < |spaces| ==> spaces[i] as nat in SPACES)
    && (sign == "" || sign == "+" || sign == "-")
  }

  /** Where the sign of `spaces + sign + more` ends, when `more` starts with a digit. */
  lemma LeadEnds(spaces: string, sign: string, more: string)
    requires Leads(spaces, sign) && more != "" && '0' <= more[0] <= '9'
    ensures var t := spaces + sign + more;
            SkipSpaces(t, 0) == |spaces| && SignEnd(t) == |spaces| + |sign| && (t[|spaces|] == '-' <==> sign == "-")
  {
    var t := spaces + sign + more;
    assert forall i :: 0 <= i < |spaces| ==> t[i] == spaces[i] && spaces[i] as nat in SPACES;
    if sign == "" {
      assert t[|spaces|] == more[0];
    } else {
      assert t[|spaces|] == sign[0];
      assert t[|spaces| + 1] == more[0];
    }
    SpacesEndAt(t, 0, |spaces|);
  }

  // ------------------------------------------------------------------ what is read back

  /** What strtoul gives for a number of that sign that fits 64 bits. */
  function Given(n: nat, end: nat, sign: string): Strtoul
    requires n <= MAX_U64
  {
    if sign == "-" then Strtoul((TWO_64 - n) % TWO_64, end, false, true) else Strtoul(n, end, false, false)
  }

  lemma NumeralEnds(before: string, n: nat, digits: string, rest: string)
    requires Lists(digits) && (rest == "" || DigitVal(rest[0]) >= |digits|)
    ensures DigitsEnd(before + Numeral(n, digits) + rest, |before|, |digits|) == |before| + |Numeral(n, digits)|
  {
    var num := Numeral(n, digits);
    var t, end := before + num + rest, |before| + |num|;
    forall j | |before| <= j < end ensures DigitVal(t[j]) < |digits| {
      assert t[j] == num[j - |before|];
      var d :| 0 <= d < |digits| && digits[d] == t[j];
    }
    assert end < |t| ==> t[end] == rest[0];
    EndAt(t, |before|, end, |digits|);
  }

  lemma PartsRead(t: string, base: nat, radix: nat, start: nat, end: nat, n: nat, sign: string)
    requires PartsOf(t, base) == Parts(sign == "-", radix, start, end) && start < end <= |t|
    requires DigitsValue(t, start, end, radix) == n <= MAX_U64
    ensures StrtoulOf(t, base) == Given(n, end, sign)
  {
  }

  lemma Regroup(t: string, lead: string, prefix: string, num: string, rest: string)
    requires t == lead + prefix + num + rest
    ensures t == lead + (prefix + (num + rest))
  {
  }

  lemma HexParts(t: string, spaces: string, sign: string, x: char, more: string, base: nat, i: nat)
    requires Leads(spaces, sign) && (x == 'x' || x == 'X') && more != "" && DigitVal(more[0]) < 16
    requires t == spaces + sign + (['0', x] + more) && i == |spaces| + |sign| && (base == 0 || base == 16)
    ensures PartsOf(t, base) == Parts(sign == "-", 16, i + 2, DigitsEnd(t, i + 2, 16))
  {
    LeadEnds(spaces, sign, ['0', x] + more);
    assert t[i] == '0' && t[i + 1] == x && t[i + 2] == more[0];
    assert HexPrefixAt(t, i);
  }

  lemma NumeralStarts(n: nat, digits: string)
    requires Lists(digits)
    ensures DigitVal(Numeral(n, digits)[0]) < |digits|
  {
    var d :| 0 <= d < |digits| && digits[d] == Numeral(n, digits)[0];
  }

  lemma HexDigits(digits: string, rest: string)
    requires digits == HEX_LOWER || digits == HEX_UPPER
    requires rest == "" || (rest[0] !in HEX_LOWER && rest[0] !in HEX_UPPER)
    ensures Lists(digits) && |digits| == 16 && (rest == "" || DigitVal(rest[0]) >= 16)
  {
    HexLowerLists();
    HexUpperLists();
    if rest != "" {
      HexListsAll(rest[0]);
    }
  }

  /** A numeral behind `before`, in a text that goes on with `rest`. */
  ghost predicate Writes(t: string, before: string, n: nat, digits: string, end: nat, rest: string) {
    && Lists(digits) && (rest == "" || DigitVal(rest[0]) >= |digits|)
    && t == before + Numeral(n, digits) + rest && end == |before| + |Numeral(n, digits)|
  }

  lemma WrittenReads(t: string, before: string, n: nat, digits: string, end: nat, rest: string)
    requires Writes(t, before, n, digits, end, rest)
    ensures |before| < end <= |t| && DigitVal(t[|before|]) < |digits|
    ensures DigitsEnd(t, |before|, |digits|) == end && DigitsValue(t, |before|, end, |digits|) == n
  {
    NumeralStarts(n, digits);
    NumeralEnds(before, n, digits, rest);
    NumeralValue(before, n, digits, rest);
  }

  lemma HexRead(t: string, spaces: string, sign: string, x: char, n: nat, digits: string, rest: string, base: nat,
                before: string, end: nat)
    requires Leads(spaces, sign) && (x == 'x' || x == 'X') && n <= MAX_U64 && (base == 0 || base == 16)
    requires |digits| == 16 && before == spaces + sign + ['0', x] && Writes(t, before, n, digits, end, rest)
    ensures StrtoulOf(t, base) == Given(n, end, sign)
  {
    assert PartsOf(t, base) == Parts(sign == "-", 16, |before|, DigitsEnd(t, |before|, 16)) by {
      NumeralStarts(n, digits);
      Regroup(t, spaces + sign, ['0', x], Numeral(n, digits), rest);
      HexParts(t, spaces, sign, x, Numeral(n, digits) + rest, base, |before| - 2);
    }
    WrittenReads(t, before, n, digits, end, rest);
    PartsRead(t, base, 16, |before|, end, n, sign);
  }

  /** Hexadecimal in either case, behind `0x` or `0X`. */
  lemma HexadecimalReads(t: string, spaces: string, sign: string, x: char, n: nat, digits: string, rest: string,
                         base: nat)
    requires Leads(spaces, sign) && (x == 'x' || x == 'X') && n <= MAX_U64
    requires digits == HEX_LOWER || digits == HEX_UPPER
    requires rest == "" || (rest[0] !in HEX_LOWER && rest[0] !in HEX_UPPER)
    requires base == 0 || base == 16
    requires t == spaces + sign + ['0', x] + Numeral(n, digits) + rest
    ensures StrtoulOf(t, base) == Given(n, |t| - |rest|, sign)
  {
    HexDigits(digits, rest);
    HexRead(t, spaces, sign, x, n, digits, rest, base, spaces + sign + ['0', x], |t| - |rest|);
  }

  lemma {:induction false} ZeroInFront(t: string, i: nat, j: nat, radix: nat)
    requires i < j <= |t| && t[i] == '0'
    ensures DigitsValue(t, i, j, radix) == DigitsValue(t, i + 1, j, radix)
    decreases j
  {
    if i + 1 < j {
      ZeroInFront(t, i, j - 1, radix);
    }
  }

  lemma OctalParts(t: string, spaces: string, sign: string, more: string, i: nat)
    requires Leads(spaces, sign) && more != "" && DigitVal(more[0]) < 8
    requires t == spaces + sign + ("0" + more) && i == |spaces| + |sign|
    ensures PartsOf(t, 0) == Parts(sign == "-", 8, i, DigitsEnd(t, i + 1, 8)) && t[i] == '0'
  {
    LeadEnds(spaces, sign, "0" + more);
    assert t[i] == '0' && t[i + 1] == more[0];
    assert !HexPrefixAt(t, i);
    assert DigitsEnd(t, i, 8) == DigitsEnd(t, i + 1, 8);
  }

  lemma OctalRead(t: string, spaces: string, sign: string, n: nat, digits: string, rest: string, before: string,
                  end: nat)
    requires Leads(spaces, sign) && n <= MAX_U64
    requires |digits| == 8 && before == spaces + sign + "0" && Writes(t, before, n, digits, end, rest)
    ensures StrtoulOf(t, 0) == Given(n, end, sign)
  {
    var i := |spaces| + |sign|;
    assert PartsOf(t, 0) == Parts(sign == "-", 8, i, DigitsEnd(t, |before|, 8)) && t[i] == '0' by {
      NumeralStarts(n, digits);
      Regroup(t, spaces + sign, "0", Numeral(n, digits), rest);
      OctalParts(t, spaces, sign, Numeral(n, digits) + rest, i);
    }
    WrittenReads(t, before, n, digits, end, rest);
    ZeroInFront(t, i, end, 8);
    PartsRead(t, 0, 8, i, end, n, sign);
  }

  /** Octal behind a `0`. */
  lemma OctalReads(t: string, spaces: string, sign: string, n: nat, rest: string)
    requires Leads(spaces, sign) && n <= MAX_U64
    requires rest == "" || rest[0] !in OCTAL
    requires t == spaces + sign + "0" + Numeral(n, OCTAL) + rest
    ensures StrtoulOf(t, 0) == Given(n, |t| - |rest|, sign)
  {
    OctalLists();
    if rest != "" {
      OctalListsAll(rest[0]);
    }
    OctalRead(t, spaces, sign, n, OCTAL, rest, spaces + sign + "0", |t| - |rest|);
  }
}
