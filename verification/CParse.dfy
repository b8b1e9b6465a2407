/**
 The C number readers (internal/goip/cparse.go): strtoul of section 7.22.1.4 of
 ISO C11 on a 64-bit long, and get_u8/u16/u32/u64, get_long, get_s32 and atoi
 on top of it.

 The loop works on wrapped 64-bit words. Its specification does not: the value
 is the mathematical value of the digits, however many, and overflow is that
 value passing 2^64 - 1. What is consumed is shown to be the longest prefix of
 the form the standard describes.
 */
module CParse {
  import opened Shared

  const MAX_U64: int := 0xffff_ffff_ffff_ffff
  const TWO_64: int := 0x1_0000_0000_0000_0000
  const TWO_63: int := 0x8000_0000_0000_0000
  const TWO_32: int := 0x1_0000_0000
  const TWO_31: int := 0x8000_0000

  /** What cDigitVal gives for a byte that is no digit in any base. */
  const NO_DIGIT: nat := 0x7fff_ffff_ffff_ffff

  predicate IsSpace(c: char) {
    c == ' ' || '\t' <= c <= '\r'
  }

  predicate IsSign(c: char) {
    c == '+' || c == '-'
  }

  function DigitVal(c: char): (d: nat)
    ensures d < 36 || d == NO_DIGIT
    ensures IsSpace(c) || IsSign(c) ==> d == NO_DIGIT
  {
    if '0' <= c <= '9' then c as nat - '0' as nat
    else if 'a' <= c <= 'z' then c as nat - 'a' as nat + 10
    else if 'A' <= c <= 'Z' then c as nat - 'A' as nat + 10
    else NO_DIGIT
  }

  // ------------------------------------------------------------- what the text says

  function SkipSpaces(s: string, i: nat): (k: nat)
    requires i <= |s|
    ensures i <= k <= |s|
    ensures forall j :: i <= j < k ==> IsSpace(s[j])
    ensures k < |s| ==> !IsSpace(s[k])
    decreases |s| - i
  {
    if i < |s| && IsSpace(s[i]) then SkipSpaces(s, i + 1) else i
  }

  /** The index after the run of digits of `radix` from `i`. */
  function DigitsEnd(s: string, i: nat, radix: nat): (k: nat)
    requires i <= |s|
    ensures i <= k <= |s|
    ensures forall j :: i <= j < k ==> DigitVal(s[j]) < radix
    ensures k < |s| ==> DigitVal(s[k]) >= radix
    decreases |s| - i
  {
    if i < |s| && DigitVal(s[i]) < radix then DigitsEnd(s, i + 1, radix) else i
  }

  /** The number the digits from `i` to `j` write. */
  function DigitsValue(s: string, i: nat, j: nat, radix: nat): nat
    requires i <= j <= |s|
    decreases j - i
  {
    if i == j then 0 else DigitsValue(s, i, j - 1, radix) * radix + DigitVal(s[j - 1])
  }

  predicate HexPrefixAt(s: string, i: nat) {
    && i + 2 < |s| && s[i] == '0' && (s[i + 1] == 'x' || s[i + 1] == 'X')
    && DigitVal(s[i + 2]) < 16
  }

  /** The parts of a number: its sign, its radix and where its digits are. */
  datatype Parts = Parts(neg: bool, radix: nat, start: nat, end: nat) {
    predicate Any() {
      start < end
    }
  }

  function SignEnd(s: string): (i: nat)
    ensures SkipSpaces(s, 0) <= i <= |s|
  {
    var k := SkipSpaces(s, 0);
    if k < |s| && IsSign(s[k]) then k + 1 else k
  }

  function RadixAt(s: string, i: nat, base: nat): nat {
    if (base == 0 || base == 16) && HexPrefixAt(s, i) then 16
    else if base != 0 then base
    else if i < |s| && s[i] == '0' then 8
    else 10
  }

  function DigitsStart(s: string, base: nat): (i: nat)
    ensures SignEnd(s) <= i <= |s|
  {
    if (base == 0 || base == 16) && HexPrefixAt(s, SignEnd(s)) then SignEnd(s) + 2 else SignEnd(s)
  }

  function PartsOf(s: string, base: nat): (p: Parts)
    ensures p.start <= p.end <= |s|
  {
    var k := SkipSpaces(s, 0);
    var radix := RadixAt(s, SignEnd(s), base);
    var start := DigitsStart(s, base);
    Parts(k < |s| && s[k] == '-', radix, start, DigitsEnd(s, start, radix))
  }

  /** The magnitude and the signed number the text writes, without limit. */
  function Magnitude(s: string, base: nat): nat {
    var p := PartsOf(s, base);
    DigitsValue(s, p.start, p.end, p.radix)
  }

  function Signed(s: string, base: nat): int {
    if PartsOf(s, base).neg then 0 - Magnitude(s, base) else Magnitude(s, base)
  }

  /** The whole argument is a number. */
  predicate IsWhole(s: string, base: nat) {
    PartsOf(s, base).Any() && PartsOf(s, base).end == |s|
  }

  // ----------------------------------------------------------------------- strtoul

  /** The value, how much was consumed (zero when no digits were), overflow and sign. */
  datatype Strtoul = Strtoul(val: nat, end: nat, overflow: bool, neg: bool)

  /** strtoul in terms of the unlimited number. */
  function StrtoulOf(s: string, base: nat): (u: Strtoul)
    ensures u.val < TWO_64
    ensures u.end == 0 ==> u.val == 0 && !u.overflow && !u.neg
  {
    var p := PartsOf(s, base);
    var v := Magnitude(s, base);
    if !p.Any() then Strtoul(0, 0, false, false)
    else if v > MAX_U64 then Strtoul(MAX_U64, p.end, true, p.neg)
    else Strtoul(if p.neg then (TWO_64 - v) % TWO_64 else v, p.end, false, p.neg)
  }

  /** The overflow guard: dividing before multiplying decides the unlimited test. */
  lemma GuardDecidesOverflow(val: nat, d: nat, radix: nat)
    requires radix > 0 && d <= MAX_U64
    ensures val > (MAX_U64 - d) / radix <==> val * radix + d > MAX_U64
  {
    var q := (MAX_U64 - d) / radix;
    assert q * radix <= MAX_U64 - d < (q + 1) * radix;
    if val > q {
      assert val * radix >= (q + 1) * radix;
    } else {
      assert val * radix <= q * radix;
    }
  }

  /** Once past the limit, always past the limit. */
  lemma MoreDigitsMoreValue(v: nat, d: nat, radix: nat)
    requires radix > 0
    ensures v * radix + d >= v
  {
    assert v * radix >= v * 1;
  }

  lemma {:induction false} EndStepsOver(s: string, i: nat, j: nat, radix: nat)
    requires i <= j <= |s|
    requires forall k :: i <= k < j ==> DigitVal(s[k]) < radix
    ensures DigitsEnd(s, i, radix) == DigitsEnd(s, j, radix)
    decreases j - i
  {
    if i < j {
      EndStepsOver(s, i + 1, j, radix);
    }
  }

  lemma {:induction false} SpacesStepOver(s: string, i: nat, j: nat)
    requires i <= j <= |s|
    requires forall k :: i <= k < j ==> IsSpace(s[k])
    ensures SkipSpaces(s, i) == SkipSpaces(s, j)
    decreases j - i
  {
    if i < j {
      SpacesStepOver(s, i + 1, j);
    }
  }

  /** The leading loop of cStrtoul and cAtoi. */
  method PassSpaces(s: string) returns (i: nat)
    ensures i == SkipSpaces(s, 0)
  {
    i := 0;
    while i < |s| && IsSpace(s[i])
      invariant 0 <= i <= |s|
      invariant forall k :: 0 <= k < i ==> IsSpace(s[k])
    {
      i := i + 1;
    }
    SpacesStepOver(s, 0, i);
  }

  /** The digits loop of cStrtoul: the value is kept to 64 bits throughout. */
  method ReadDigits(s: string, start: nat, radix: nat) returns (end: nat, val: nat, overflow: bool)
    requires start <= |s| && 0 < radix <= 16
    ensures end == DigitsEnd(s, start, radix)
    ensures overflow <==> DigitsValue(s, start, end, radix) > MAX_U64
    ensures !overflow ==> val == DigitsValue(s, start, end, radix)
  {
    var i := start;
    val, overflow := 0, false;
    while i < |s| && DigitVal(s[i]) < radix
      invariant start <= i <= |s|
      invariant forall k :: start <= k < i ==> DigitVal(s[k]) < radix
      invariant overflow <==> DigitsValue(s, start, i, radix) > MAX_U64
      invariant !overflow ==> val == DigitsValue(s, start, i, radix)
    {
      var d := DigitVal(s[i]);
      GuardDecidesOverflow(val, d, radix);
      MoreDigitsMoreValue(DigitsValue(s, start, i, radix), d, radix);
      if !overflow {
        if val > (MAX_U64 - d) / radix {
          overflow := true;
        } else {
          val := val * radix + d;
        }
      }
      i := i + 1;
    }
    EndStepsOver(s, start, i, radix);
    end := i;
  }

  /** The sign and the radix: the part of cStrtoul before its digits. */
  method ReadHead(s: string, base: nat) returns (neg: bool, radix: nat, start: nat)
    requires base == 0 || base == 10 || base == 16
    ensures start == DigitsStart(s, base) && radix == RadixAt(s, SignEnd(s), base)
    ensures neg <==> SkipSpaces(s, 0) < |s| && s[SkipSpaces(s, 0)] == '-'
  {
    var i := PassSpaces(s);
    neg := false;
    if i < |s| && (s[i] == '+' || s[i] == '-') {
      neg := s[i] == '-';
      i := i + 1;
    }
    assert i == SignEnd(s);
    var hex := i + 1 < |s| && s[i] == '0' && (s[i + 1] == 'x' || s[i + 1] == 'X')
               && i + 2 < |s| && DigitVal(s[i + 2]) < 16;
    radix := base;
    if (base == 0 || base == 16) && hex {
      radix := 16;
      i := i + 2;
    } else if base == 0 && i < |s| && s[i] == '0' {
      radix := 8;
    } else if base == 0 {
      radix := 10;
    }
    start := i;
  }

  /** cStrtoul. `base` is 0, 10 or 16. */
  method CStrtoul(s: string, base: nat) returns (r: Strtoul)
    requires base == 0 || base == 10 || base == 16
    ensures r == StrtoulOf(s, base)
  {
    var neg, radix, start := ReadHead(s, base);
    var end, val, overflow := ReadDigits(s, start, radix);
    assert PartsOf(s, base) == Parts(neg, radix, start, end);
    if end == start {
      return Strtoul(0, 0, false, false);
    }
    if overflow {
      val := MAX_U64;
    } else if neg {
      val := (TWO_64 - val) % TWO_64;
    }
    r := Strtoul(val, end, overflow, neg);
  }

  // ------------------------------------------------------------------- longest form

  predicate AllDigits(b: string, radix: nat) {
    b != "" && forall i :: 0 <= i < |b| ==> DigitVal(b[i]) < radix
  }

  predicate HexBody(b: string) {
    |b| > 2 && b[0] == '0' && (b[1] == 'x' || b[1] == 'X') && AllDigits(b[2..], 16)
  }

  /** The digits part of the expected form, for each base. */
  predicate Body(b: string, base: nat) {
    if base == 0 then
      HexBody(b) || (b != "" && AllDigits(b, if b[0] == '0' then 8 else 10))
    else
      (base == 16 && HexBody(b)) || AllDigits(b, base)
  }

  /** White space, an optional sign, and a body. */
  predicate IsForm(t: string, base: nat, spaces: nat, signs: nat) {
    && spaces + signs <= |t| && signs <= 1
    && (forall i :: 0 <= i < spaces ==> IsSpace(t[i]))
    && (signs == 1 ==> IsSign(t[spaces]))
    && Body(t[spaces + signs..], base)
  }

  ghost predicate HasForm(t: string, base: nat) {
    exists spaces: nat, signs: nat :: IsForm(t, base, spaces, signs)
  }

  lemma BodyStartsWithDigit(b: string, base: nat)
    requires base <= 16 && Body(b, base)
    ensures b != "" && DigitVal(b[0]) < 36
  {
  }

  lemma PlainBody(s: string, i: nat, end: nat, base: nat)
    requires base == 0 || base == 10 || base == 16
    requires i < end <= |s|
    requires forall j :: i <= j < end ==> DigitVal(s[j]) < if base != 0 then base else if s[i] == '0' then 8 else 10
    ensures Body(s[i..end], base)
  {
    var b := s[i..end];
    assert forall j :: 0 <= j < |b| ==> b[j] == s[i + j];
  }

  lemma PrefixedBody(s: string, i: nat, end: nat)
    requires HexPrefixAt(s, i) && i + 2 < end <= |s|
    requires forall j :: i + 2 <= j < end ==> DigitVal(s[j]) < 16
    ensures HexBody(s[i..end])
  {
    var b := s[i..end];
    assert b[0] == s[i] && b[1] == s[i + 1];
    assert forall j :: 0 <= j < |b[2..]| ==> b[2..][j] == s[i + 2 + j];
  }

  /** What is consumed has the form. */
  lemma ConsumedHasForm(s: string, base: nat)
    requires base == 0 || base == 10 || base == 16
    requires PartsOf(s, base).Any()
    ensures HasForm(s[..PartsOf(s, base).end], base)
  {
    var p := PartsOf(s, base);
    var k, i := SkipSpaces(s, 0), SignEnd(s);
    if p.start == i {
      PlainBody(s, i, p.end, base);
    } else {
      PrefixedBody(s, i, p.end);
    }
    assert s[..p.end][i..] == s[i..p.end];
    assert IsForm(s[..p.end], base, k, i - k);
  }

  lemma {:induction false} SpacesEndAt(s: string, i: nat, k: nat)
    requires i <= k < |s| && !IsSpace(s[k])
    requires forall j :: i <= j < k ==> IsSpace(s[j])
    ensures SkipSpaces(s, i) == k
    decreases k - i
  {
    if i < k {
      SpacesEndAt(s, i + 1, k);
    }
  }

  /** A form's spaces and sign are the reader's. */
  lemma FormStartsWhereReaderDoes(s: string, n: nat, base: nat, spaces: nat, signs: nat)
    requires base <= 16 && n <= |s| && IsForm(s[..n], base, spaces, signs)
    ensures SignEnd(s) == spaces + signs < n
  {
    var b := s[..n][spaces + signs..];
    BodyStartsWithDigit(b, base);
    assert b[0] == s[spaces + signs];
    SpacesEndAt(s, 0, spaces);
  }

  lemma {:induction false} EndReaches(s: string, i: nat, n: nat, radix: nat)
    requires i <= n <= |s| && forall j :: i <= j < n ==> DigitVal(s[j]) < radix
    ensures DigitsEnd(s, i, radix) >= n
    decreases n - i
  {
    if i < n {
      EndReaches(s, i + 1, n, radix);
    }
  }

  lemma DigitsOfSlice(s: string, i: nat, n: nat, radix: nat)
    requires i < n <= |s| && AllDigits(s[i..n], radix)
    ensures DigitsEnd(s, i, radix) >= n
  {
    assert forall j :: i <= j < n ==> s[i..n][j - i] == s[j];
    EndReaches(s, i, n, radix);
  }

  /** No longer prefix has it. */
  lemma NoLongerForm(s: string, n: nat, base: nat)
    requires base == 0 || base == 10 || base == 16
    requires n <= |s| && HasForm(s[..n], base)
    ensures PartsOf(s, base).Any() && n <= PartsOf(s, base).end
  {
    var spaces: nat, signs: nat :| IsForm(s[..n], base, spaces, signs);
    FormStartsWhereReaderDoes(s, n, base, spaces, signs);
    var i := SignEnd(s);
    var b := s[i..n];
    assert s[..n][spaces + signs..] == b;
    assert b[0] == s[i];
    var p := PartsOf(s, base);
    if HexBody(b) && (base == 0 || base == 16) {
      assert b[1] == s[i + 1] && b[2] == s[i + 2] && b[2] == b[2..][0];
      assert HexPrefixAt(s, i);
      assert b[2..] == s[i + 2..n];
      DigitsOfSlice(s, i + 2, n, 16);
    } else {
      PlainBodyReaches(s, i, n, base);
    }
  }

  lemma PlainBodyReaches(s: string, i: nat, n: nat, base: nat)
    requires base == 0 || base == 10 || base == 16
    requires i == SignEnd(s) < n <= |s|
    requires AllDigits(s[i..n], if base != 0 then base else if s[i] == '0' then 8 else 10)
    ensures PartsOf(s, base).Any() && n <= PartsOf(s, base).end
  {
    var radix := if base != 0 then base else if s[i] == '0' then 8 else 10;
    DigitsOfSlice(s, i, n, radix);
    assert s[i..n][0] == s[i];
    if (base == 0 || base == 16) && HexPrefixAt(s, i) {
      XStopsDigits(s, i, n, radix);
    }
  }

  /** With an `0x` ahead, plain digits stop at the `x`, which the reader passes. */
  lemma XStopsDigits(s: string, i: nat, n: nat, radix: nat)
    requires HexPrefixAt(s, i) && i < n <= |s| && radix <= 16
    requires AllDigits(s[i..n], radix)
    ensures n == i + 1
    ensures DigitsEnd(s, i + 2, 16) > i + 2
  {
    assert DigitVal(s[i + 1]) >= radix;
    assert forall j :: i <= j < n ==> s[i..n][j - i] == s[j];
  }

  /** What strtoul consumes is the longest prefix of the expected form, or nothing if none has it. */
  lemma ConsumesLongestForm(s: string, base: nat, n: nat)
    requires base == 0 || base == 10 || base == 16
    requires n <= |s|
    ensures var end := StrtoulOf(s, base).end;
            && end <= |s|
            && (end > 0 ==> HasForm(s[..end], base))
            && (HasForm(s[..n], base) ==> n <= end && end > 0)
  {
    if PartsOf(s, base).Any() {
      ConsumedHasForm(s, base);
    }
    if HasForm(s[..n], base) {
      NoLongerForm(s, n, base);
    }
  }

  // --------------------------------------------------------------- readers on top of it

  /** cGetUnsigned. */
  method CGetUnsigned(arg: string, base: nat, max: nat) returns (r: Option<nat>)
    requires base == 0 || base == 10 || base == 16
    requires max <= MAX_U64
    ensures r == UnsignedOf(arg, base, max)
  {
    if arg == "" {
      return None;
    }
    var u := CStrtoul(arg, base);
    if u.end == 0 || u.end != |arg| || u.overflow || u.val > max {
      return None;
    }
    r := Some(u.val);
  }

  function UnsignedOf(arg: string, base: nat, max: nat): Option<nat> {
    UnsignedFrom(StrtoulOf(arg, base), IsWhole(arg, base), max)
  }

  function UnsignedFrom(u: Strtoul, whole: bool, max: nat): Option<nat> {
    if whole && !u.overflow && u.val <= max then Some(u.val) else None
  }

  /** A reading in terms of the sign and the magnitude of the text. */
  ghost predicate Reads(u: Strtoul, neg: bool, m: nat) {
    && u.neg == neg && (u.overflow <==> m > MAX_U64)
    && u.val == if m > MAX_U64 then MAX_U64 else if neg then (TWO_64 - m) % TWO_64 else m
  }

  function WithSign(neg: bool, m: nat): int {
    if neg then 0 - m else m
  }

  lemma StrtoulReads(arg: string, base: nat)
    requires IsWhole(arg, base)
    ensures Reads(StrtoulOf(arg, base), PartsOf(arg, base).neg, Magnitude(arg, base))
    ensures Signed(arg, base) == WithSign(PartsOf(arg, base).neg, Magnitude(arg, base))
  {
  }

  lemma UnsignedFromAccepts(u: Strtoul, neg: bool, m: nat, max: nat, v: nat)
    requires Reads(u, neg, m) && max <= MAX_U64
    ensures UnsignedFrom(u, true, max) == Some(v) <==> m <= MAX_U64 && v <= max && v == WithSign(neg, m) % TWO_64
  {
  }

  /**
   get_u8 and its kin: a whole argument whose magnitude fits 64 bits reads as
   its value modulo 2^64, so "-0" is zero and "-1" is all ones, and that has to
   be within the maximum.
   */
  lemma UnsignedAccepts(arg: string, base: nat, max: nat, v: nat)
    requires max <= MAX_U64
    ensures UnsignedOf(arg, base, max) == Some(v)
       <==> && IsWhole(arg, base) && Magnitude(arg, base) <= MAX_U64
            && v <= max && v == Signed(arg, base) % TWO_64
  {
    if IsWhole(arg, base) {
      StrtoulReads(arg, base);
      UnsignedFromAccepts(StrtoulOf(arg, base), PartsOf(arg, base).neg, Magnitude(arg, base), max, v);
    }
  }

  function ToInt64(u: nat): (r: int)
    requires u < TWO_64
    ensures -TWO_63 <= r < TWO_63 && (r == u || r == u - TWO_64)
  {
    if u >= TWO_63 then u - TWO_64 else u
  }

  /** getLong: the magnitude before the sign, tested against each end of the range. */
  function GetLong(arg: string, base: nat): Option<int> {
    var u := StrtoulOf(arg, base);
    if arg == "" || u.end == 0 || u.end != |arg| then None else LongFrom(u)
  }

  function LongFrom(u: Strtoul): Option<int> {
    var mag := if u.neg && !u.overflow then (TWO_64 - u.val) % TWO_64 else u.val;
    if u.overflow then None
    else if !u.neg && mag > TWO_63 - 1 then None
    else if u.neg && mag > TWO_63 then None
    else if u.neg then Some(-ToInt64((mag + TWO_64 - 1) % TWO_64) - 1)
    else Some(ToInt64(mag))
  }

  lemma EndIsWhole(arg: string, base: nat)
    ensures IsWhole(arg, base) <==> arg != "" && StrtoulOf(arg, base).end != 0 && StrtoulOf(arg, base).end == |arg|
  {
  }

  lemma LongFromAccepts(u: Strtoul, neg: bool, m: nat, v: int)
    requires Reads(u, neg, m)
    ensures LongFrom(u) == Some(v) <==> v == WithSign(neg, m) && -TWO_63 <= v < TWO_63
  {
    if neg && m <= MAX_U64 {
      assert (TWO_64 - (TWO_64 - m) % TWO_64) % TWO_64 == m;
    }
  }

  /** getLong accepts exactly the whole numbers in the int64 range, as themselves. */
  lemma GetLongAccepts(arg: string, base: nat, v: int)
    ensures GetLong(arg, base) == Some(v)
       <==> IsWhole(arg, base) && v == Signed(arg, base) && -TWO_63 <= v < TWO_63
  {
    EndIsWhole(arg, base);
    if IsWhole(arg, base) {
      StrtoulReads(arg, base);
      LongFromAccepts(StrtoulOf(arg, base), PartsOf(arg, base).neg, Magnitude(arg, base), v);
    }
  }

  /** getS32 and getInteger: get_long's reading, then the int range. */
  function GetInt(arg: string, base: nat): Option<int> {
    var r := GetLong(arg, base);
    if r.None? || r.value < -TWO_31 || r.value > TWO_31 - 1 then None else r
  }

  lemma GetIntAccepts(arg: string, base: nat, v: int)
    ensures GetInt(arg, base) == Some(v)
       <==> IsWhole(arg, base) && v == Signed(arg, base) && -TWO_31 <= v < TWO_31
  {
    GetLongAccepts(arg, base, v);
    if GetLong(arg, base).Some? {
      GetLongAccepts(arg, base, GetLong(arg, base).value);
    }
  }

  /** strtol's clamp. */
  function Clamp64(v: int): int {
    if v < -TWO_63 then -TWO_63 else if v >= TWO_63 then TWO_63 - 1 else v
  }

  /** C's long-to-int conversion: the one int that differs by a multiple of 2^32. */
  function SignedLow32(v: int): (r: int)
    ensures -TWO_31 <= r < TWO_31 && (v - r) % TWO_32 == 0
  {
    if v % TWO_32 >= TWO_31 then v % TWO_32 - TWO_32 else v % TWO_32
  }

  /** groupA2N: rtnl_group_a2n with only the `default` entry. */
  function GroupA2N(arg: string): Option<int> {
    if arg == "default" then Some(0)
    else
      var u := StrtoulOf(arg, 0);
      if arg == "" || u.end == 0 || u.end != |arg| then None
      else
        var g := SignedLow32(ClampedFrom(u));
        if g < 0 then None else Some(g)
  }

  function ClampedFrom(u: Strtoul): int
    requires u.val < TWO_64
  {
    var mag := (TWO_64 - u.val) % TWO_64;
    if u.neg && (u.overflow || mag > TWO_63) then -TWO_63
    else if u.neg then -ToInt64((mag + TWO_64 - 1) % TWO_64) - 1
    else if u.overflow || u.val > TWO_63 - 1 then TWO_63 - 1
    else ToInt64(u.val)
  }

  lemma ClampedFromIsClamp(u: Strtoul, neg: bool, m: nat)
    requires Reads(u, neg, m)
    ensures u.val < TWO_64 && ClampedFrom(u) == Clamp64(WithSign(neg, m))
  {
    if neg && m <= MAX_U64 {
      assert (TWO_64 - (TWO_64 - m) % TWO_64) % TWO_64 == m;
    }
  }

  /** A group is the number clamped to a long and cut to an int, refused when negative. */
  lemma GroupIsClampedAndCut(arg: string)
    ensures arg == "default" ==> GroupA2N(arg) == Some(0)
    ensures arg != "default" ==>
              GroupA2N(arg) ==
                var g := SignedLow32(Clamp64(Signed(arg, 0)));
                if IsWhole(arg, 0) && g >= 0 then Some(g) else None
  {
    EndIsWhole(arg, 0);
    if IsWhole(arg, 0) {
      StrtoulReads(arg, 0);
      ClampedFromIsClamp(StrtoulOf(arg, 0), PartsOf(arg, 0).neg, Magnitude(arg, 0));
    }
  }

  /**
   cAtoi: space, a sign and decimal digits, the rest ignored; the library
   parser clamps to the int64 range, and the low 32 bits are kept.
   */
  method CAtoi(s: string) returns (v: int)
    ensures v == SignedLow32(Clamp64(Signed(s, 10)))
  {
    var i := PassSpaces(s);
    var neg := false;
    if i < |s| && (s[i] == '+' || s[i] == '-') {
      neg := s[i] == '-';
      i := i + 1;
    }
    var digits := i;
    i := PassDecimals(s, digits);
    assert PartsOf(s, 10) == Parts(neg, 10, digits, i);
    if i == digits {
      return 0;
    }
    v := ParseInt(s, neg, digits, i);
    v := v % TWO_32;
    if v > TWO_31 - 1 {
      v := v - TWO_32;
    }
  }

  method PassDecimals(s: string, start: nat) returns (i: nat)
    requires start <= |s|
    ensures i == DigitsEnd(s, start, 10)
  {
    i := start;
    while i < |s| && '0' <= s[i] <= '9'
      invariant start <= i <= |s|
      invariant forall k :: start <= k < i ==> DigitVal(s[k]) < 10
    {
      i := i + 1;
    }
    EndStepsOver(s, start, i, 10);
  }

  /** The library's decimal parser on an optional sign and digits, clamped to int64. */
  function ParseInt(s: string, neg: bool, i: nat, j: nat): int
    requires i <= j <= |s|
  {
    var m := DigitsValue(s, i, j, 10);
    Clamp64(if neg then 0 - m else m)
  }

  // -------------------------------------------------------------------- printed numbers

  function Digit(d: nat): (c: char)
    requires d < 10
    ensures DigitVal(c) == d && '0' <= c <= '9' && (c == '0' <==> d == 0)
  {
    ('0' as nat + d) as char
  }

  function Decimal(n: nat): (t: string)
    ensures |t| > 0
    ensures forall i :: 0 <= i < |t| ==> '0' <= t[i] <= '9'
    ensures t[0] == '0' <==> n == 0
  {
    if n < 10 then [Digit(n)] else Decimal(n / 10) + [Digit(n % 10)]
  }

  lemma {:induction false} DecimalValue(n: nat, rest: string)
    ensures DigitsValue(Decimal(n) + rest, 0, |Decimal(n)|, 10) == n
    ensures n == 0 ==> Decimal(n) == "0"
    decreases n
  {
    var t := Decimal(n) + rest;
    if n >= 10 {
      var front, last := Decimal(n / 10), Digit(n % 10);
      DecimalValue(n / 10, [last] + rest);
      assert t == front + ([last] + rest);
      assert t[|front|] == last;
    }
  }

  lemma DecimalParts(n: nat, rest: string)
    requires rest == "" || DigitVal(rest[0]) == NO_DIGIT
    ensures PartsOf(Decimal(n) + rest, 0) == Parts(false, if n == 0 then 8 else 10, 0, |Decimal(n)|)
  {
    var t, w := Decimal(n) + rest, |Decimal(n)|;
    assert forall i :: 0 <= i < w ==> t[i] == Decimal(n)[i];
    assert w < |t| ==> t[w] == rest[0];
    SpacesEndAt(t, 0, 0);
    assert SignEnd(t) == 0 && !HexPrefixAt(t, 0);
    if n == 0 {
      DecimalValue(0, rest);
      EndAt(t, 0, 1, 8);
    } else {
      EndAt(t, 0, w, 10);
    }
  }

  /** A printed number followed by no letter or digit reads back, base 0 included. */
  lemma DecimalReads(n: nat, rest: string)
    requires n <= MAX_U64
    requires rest == "" || DigitVal(rest[0]) == NO_DIGIT
    ensures StrtoulOf(Decimal(n) + rest, 0) == Strtoul(n, |Decimal(n)|, false, false)
  {
    DecimalParts(n, rest);
    DecimalValue(n, rest);
    if n == 0 {
      var t := Decimal(0) + rest;
      assert t[0] == '0' && DigitsValue(t, 0, 1, 8) == DigitsValue(t, 0, 0, 8) * 8 + DigitVal(t[0]);
    }
  }

  lemma {:induction false} EndAt(s: string, i: nat, k: nat, radix: nat)
    requires i <= k <= |s| && (k < |s| ==> DigitVal(s[k]) >= radix)
    requires forall j :: i <= j < k ==> DigitVal(s[j]) < radix
    ensures DigitsEnd(s, i, radix) == k
    decreases k - i
  {
    if i < k {
      EndAt(s, i + 1, k, radix);
    }
  }
}
