/**
 The matching half of the glob matcher (internal/goip/fnmatch.go): compiled
 tokens against a string, with one backtrack point.

 `Matches` is what the tokens mean: some way of cutting the string into one
 piece per token fits every token. `MatchTokens` is the source's loop. The
 theorem is that the loop, which remembers only the most recent star, decides
 `Matches`, within `|s| * (|toks| + 1) + |toks|` iterations.

 A `char` stands for one byte; only equality and order of bytes are used.
 */
module GlobMatch {

  datatype Token =
    | Literal(lit: char)
    | AnyByte
    | Star
    | Class(neg: bool, ranges: seq<(char, char)>)
    | Never

  predicate Covers(range: (char, char), c: char) {
    range.0 <= c <= range.1
  }

  predicate InRanges(ranges: seq<(char, char)>, c: char) {
    exists r | r in ranges :: Covers(r, c)
  }

  /** Whether a token other than a star takes the byte `c`. */
  predicate TakesByte(t: Token, c: char) {
    match t
    case Literal(lit) => c == lit
    case AnyByte => true
    case Class(neg, ranges) => InRanges(ranges, c) != neg
    case Star => false
    case Never => false
  }

  // ---------------------------------------------------------------- meaning

  function Join(pieces: seq<string>): string {
    if pieces == [] then "" else pieces[0] + Join(pieces[1..])
  }

  predicate PieceFits(t: Token, piece: string) {
    t.Star? || (|piece| == 1 && TakesByte(t, piece[0]))
  }

  /** `pieces` cuts `s` into one piece per token, each fitting its token. */
  ghost predicate IsCut(toks: seq<Token>, s: string, pieces: seq<string>) {
    && |pieces| == |toks|
    && Join(pieces) == s
    && forall i :: 0 <= i < |toks| ==> PieceFits(toks[i], pieces[i])
  }

  /** The declarative semantics: an assignment of substrings to the tokens. */
  ghost predicate Matches(toks: seq<Token>, s: string) {
    exists pieces: seq<string> :: IsCut(toks, s, pieces)
  }

  // ------------------------------------------------- the search it stands for

  /** Exhaustive search: may the tokens from `ti` match the string from `si`? */
  ghost predicate Accepts(toks: seq<Token>, s: string, ti: nat, si: nat)
    requires ti <= |toks| && si <= |s|
    decreases |toks| - ti, |s| - si
  {
    if ti == |toks| then si == |s|
    else if toks[ti].Star? then
      Accepts(toks, s, ti + 1, si) || (si < |s| && Accepts(toks, s, ti, si + 1))
    else
      si < |s| && TakesByte(toks[ti], s[si]) && Accepts(toks, s, ti + 1, si + 1)
  }

  lemma {:induction false} AcceptsGivesCut(toks: seq<Token>, s: string, ti: nat, si: nat)
    returns (pieces: seq<string>)
    requires ti <= |toks| && si <= |s|
    requires Accepts(toks, s, ti, si)
    ensures IsCut(toks[ti..], s[si..], pieces)
    decreases |toks| - ti, |s| - si
  {
    if ti == |toks| {
      pieces := [];
    } else if toks[ti].Star? && Accepts(toks, s, ti + 1, si) {
      var rest := AcceptsGivesCut(toks, s, ti + 1, si);
      pieces := [""] + rest;
      assert pieces[1..] == rest;
    } else if toks[ti].Star? {
      var longer := AcceptsGivesCut(toks, s, ti, si + 1);
      pieces := [[s[si]] + longer[0]] + longer[1..];
      assert pieces[1..] == longer[1..];
      assert s[si..] == [s[si]] + s[si + 1..];
    } else {
      var rest := AcceptsGivesCut(toks, s, ti + 1, si + 1);
      pieces := [[s[si]]] + rest;
      assert pieces[1..] == rest;
      assert s[si..] == [s[si]] + s[si + 1..];
    }
  }

  lemma {:induction false} CutGivesAccepts(toks: seq<Token>, s: string, ti: nat, si: nat, pieces: seq<string>)
    requires ti <= |toks| && si <= |s|
    requires IsCut(toks[ti..], s[si..], pieces)
    ensures Accepts(toks, s, ti, si)
    decreases |toks| - ti, |s| - si
  {
    if ti < |toks| {
      var first, rest := pieces[0], pieces[1..];
      assert toks[ti..][0] == toks[ti] && PieceFits(toks[ti], first);
      assert s[si..] == first + Join(rest);
      if first == "" {
        assert s[si..] == Join(rest);
        assert IsCut(toks[ti + 1..], s[si..], rest);
        CutGivesAccepts(toks, s, ti + 1, si, rest);
      } else {
        assert s[si + 1..] == first[1..] + Join(rest);
        if toks[ti].Star? {
          var shorter := [first[1..]] + rest;
          assert shorter[1..] == rest;
          assert IsCut(toks[ti..], s[si + 1..], shorter);
          CutGivesAccepts(toks, s, ti, si + 1, shorter);
        } else {
          assert s[si + 1..] == Join(rest);
          assert IsCut(toks[ti + 1..], s[si + 1..], rest);
          CutGivesAccepts(toks, s, ti + 1, si + 1, rest);
        }
      }
    }
  }

  /** The exhaustive search decides the declarative meaning. */
  lemma SearchDecidesMatches(toks: seq<Token>, s: string)
    ensures Accepts(toks, s, 0, 0) <==> Matches(toks, s)
  {
    assert toks[0..] == toks && s[0..] == s;
    if Accepts(toks, s, 0, 0) {
      var pieces := AcceptsGivesCut(toks, s, 0, 0);
    }
    if Matches(toks, s) {
      var pieces :| IsCut(toks, s, pieces);
      CutGivesAccepts(toks, s, 0, 0, pieces);
    }
  }

  // -------------------------------------------- why one backtrack point is enough

  /** The `len` tokens from `ti` are no stars and take the bytes from `si` one by one. */
  ghost predicate Segment(toks: seq<Token>, s: string, ti: nat, si: nat, len: nat) {
    && ti + len <= |toks|
    && si + len <= |s|
    && forall j :: ti <= j < ti + len ==> !toks[j].Star? && TakesByte(toks[j], s[si + (j - ti)])
  }

  ghost predicate NoStars(toks: seq<Token>, ti: nat, len: nat) {
    && ti + len <= |toks|
    && forall j :: ti <= j < ti + len ==> !toks[j].Star?
  }

  /** A matched segment neither gains nor loses an answer. */
  lemma {:induction false} SegmentSteps(toks: seq<Token>, s: string, ti: nat, si: nat, len: nat)
    requires Segment(toks, s, ti, si, len)
    ensures Accepts(toks, s, ti, si) <==> Accepts(toks, s, ti + len, si + len)
    decreases len
  {
    if len > 0 {
      SegmentSteps(toks, s, ti + 1, si + 1, len - 1);
    }
  }

  /** Star-free tokens consume exactly their own length. */
  lemma {:induction false} StarFreeConsumes(toks: seq<Token>, s: string, ti: nat, si: nat, len: nat)
    requires NoStars(toks, ti, len) && si <= |s|
    requires Accepts(toks, s, ti, si)
    ensures si + len <= |s| && Accepts(toks, s, ti + len, si + len)
    decreases len
  {
    if len > 0 {
      StarFreeConsumes(toks, s, ti + 1, si + 1, len - 1);
    }
  }

  /** A star may give back what lies between `si` and a later `sj`. */
  lemma {:induction false} StarAbsorbs(toks: seq<Token>, s: string, ti: nat, si: nat, sj: nat)
    requires ti < |toks| && toks[ti].Star?
    requires si <= sj <= |s|
    requires Accepts(toks, s, ti, sj)
    ensures Accepts(toks, s, ti, si)
    decreases sj - si
  {
    if si < sj {
      StarAbsorbs(toks, s, ti, si + 1, sj);
    }
  }

  /** An accepting star stops somewhere. */
  lemma {:induction false} StarStops(toks: seq<Token>, s: string, ti: nat, si: nat) returns (sj: nat)
    requires ti < |toks| && toks[ti].Star?
    requires si <= |s|
    requires Accepts(toks, s, ti, si)
    ensures si <= sj <= |s| && Accepts(toks, s, ti + 1, sj)
    decreases |s| - si
  {
    if Accepts(toks, s, ti + 1, si) {
      sj := si;
    } else {
      sj := StarStops(toks, s, ti, si + 1);
    }
  }

  /** A later star subsumes the earlier one: the answer no longer depends on
      where the earlier one stopped. */
  lemma LaterStarSubsumes(toks: seq<Token>, s: string, star: nat, starSi: nat, len: nat)
    requires star < |toks| && toks[star].Star?
    requires Segment(toks, s, star + 1, starSi, len)
    requires star + 1 + len < |toks| && toks[star + 1 + len].Star?
    ensures Accepts(toks, s, star, starSi) <==> Accepts(toks, s, star + 1 + len, starSi + len)
  {
    SegmentSteps(toks, s, star + 1, starSi, len);
    if Accepts(toks, s, star, starSi) {
      var sj := StarStops(toks, s, star, starSi);
      StarFreeConsumes(toks, s, star + 1, sj, len);
      StarAbsorbs(toks, s, star + 1 + len, starSi + len, sj + len);
    }
  }

  /** A mismatch after a matched segment rules out the star stopping here. */
  lemma MismatchMovesStar(toks: seq<Token>, s: string, star: nat, starSi: nat, len: nat)
    requires star < |toks| && toks[star].Star?
    requires Segment(toks, s, star + 1, starSi, len)
    requires starSi + len < |s|
    requires star + 1 + len == |toks|
          || (!toks[star + 1 + len].Star? && !TakesByte(toks[star + 1 + len], s[starSi + len]))
    ensures Accepts(toks, s, star, starSi) <==> Accepts(toks, s, star, starSi + 1)
  {
    SegmentSteps(toks, s, star + 1, starSi, len);
  }

  /** At the end of the string the star can stop nowhere but where it did. */
  lemma EndFixesStar(toks: seq<Token>, s: string, star: nat, starSi: nat, len: nat)
    requires star < |toks| && toks[star].Star?
    requires Segment(toks, s, star + 1, starSi, len)
    requires starSi + len == |s|
    ensures Accepts(toks, s, star, starSi) <==> Accepts(toks, s, star + 1 + len, |s|)
  {
    SegmentSteps(toks, s, star + 1, starSi, len);
    if Accepts(toks, s, star, starSi) {
      var sj := StarStops(toks, s, star, starSi);
      StarFreeConsumes(toks, s, star + 1, sj, len);
      assert sj == starSi;
    }
  }

  // ---------------------------------------------------------------- the loops

  /** matchByte: the class arm scans its ranges and stops at the first hit. */
  method MatchByte(t: Token, c: char) returns (hit: bool)
    ensures hit <==> TakesByte(t, c)
  {
    match t
    case Literal(lit) => hit := c == lit;
    case AnyByte => hit := true;
    case Class(neg, ranges) =>
      var within := false;
      var k := 0;
      while k < |ranges|
        invariant 0 <= k <= |ranges|
        invariant within <==> InRanges(ranges[..k], c)
      {
        assert ranges[..k + 1] == ranges[..k] + [ranges[k]];
        if ranges[k].0 <= c && c <= ranges[k].1 {
          within := true;
          assert Covers(ranges[k], c) && ranges[k] in ranges;
          break;
        }
        k := k + 1;
      }
      assert k == |ranges| ==> ranges[..k] == ranges;
      hit := within != neg;
    case Star => hit := false;
    case Never => hit := false;
  }

  /** The steps of `passes` passes over `n` tokens, one step a token and one over. */
  function Budget(passes: nat, n: nat): nat {
    if passes == 0 then 0 else Budget(passes - 1, n) + n + 1
  }

  lemma {:induction false} BudgetIsProduct(passes: nat, n: nat)
    ensures Budget(passes, n) == passes * (n + 1)
  {
    if passes > 0 {
      BudgetIsProduct(passes - 1, n);
    }
  }

  lemma {:induction false} BudgetGrows(a: nat, b: nat, n: nat)
    requires a <= b
    ensures Budget(a, n) <= Budget(b, n)
    decreases b
  {
    if a < b {
      BudgetGrows(a, b - 1, n);
    }
  }

  /** Where the loop stands: the answer is what is left to search, from the
      last star if there is one. */
  ghost predicate Standing(toks: seq<Token>, s: string, answer: bool, ti: int, si: int, starTi: int, starSi: int) {
    && 0 <= ti <= |toks| && 0 <= starSi <= si <= |s| && -1 <= starTi < ti
    && (starTi < 0 ==> starSi == 0 && answer == Accepts(toks, s, ti, si))
    && (starTi >= 0 ==>
          && toks[starTi].Star?
          && ti - starTi - 1 == si - starSi
          && Segment(toks, s, starTi + 1, starSi, si - starSi)
          && answer == Accepts(toks, s, starTi, starSi))
  }

  lemma StarStep(toks: seq<Token>, s: string, answer: bool, ti: nat, si: nat, starTi: int, starSi: int)
    requires Standing(toks, s, answer, ti, si, starTi, starSi)
    requires ti < |toks| && toks[ti].Star?
    ensures Standing(toks, s, answer, ti + 1, si, ti, si)
  {
    if starTi >= 0 {
      LaterStarSubsumes(toks, s, starTi, starSi, si - starSi);
    }
  }

  lemma HitStep(toks: seq<Token>, s: string, answer: bool, ti: nat, si: nat, starTi: int, starSi: int)
    requires Standing(toks, s, answer, ti, si, starTi, starSi)
    requires ti < |toks| && si < |s| && !toks[ti].Star? && TakesByte(toks[ti], s[si])
    ensures Standing(toks, s, answer, ti + 1, si + 1, starTi, starSi)
  {
  }

  lemma MissStep(toks: seq<Token>, s: string, answer: bool, ti: nat, si: nat, starTi: int, starSi: int)
    requires Standing(toks, s, answer, ti, si, starTi, starSi)
    requires si < |s| && (ti == |toks| || (!toks[ti].Star? && !TakesByte(toks[ti], s[si])))
    ensures starTi >= 0 ==> Standing(toks, s, answer, starTi + 1, starSi + 1, starTi, starSi + 1)
    ensures starTi < 0 ==> !answer
  {
    if starTi >= 0 {
      MismatchMovesStar(toks, s, starTi, starSi, si - starSi);
    }
  }

  lemma AtEnd(toks: seq<Token>, s: string, answer: bool, ti: nat, starTi: int, starSi: int)
    requires Standing(toks, s, answer, ti, |s|, starTi, starSi)
    ensures answer == Accepts(toks, s, ti, |s|)
  {
    if starTi >= 0 {
      EndFixesStar(toks, s, starTi, starSi, |s| - starSi);
    }
  }

  /**
   fnmatchToks. `matched` is the declarative meaning, and `steps`, the number
   of loop iterations, is bounded by a pass over the tokens for each byte and one
   more: by `BudgetIsProduct`, |s| * (|toks| + 1) + |toks|.
   */
  method MatchTokens(toks: seq<Token>, s: string) returns (matched: bool, steps: nat)
    ensures matched <==> Matches(toks, s)
    ensures steps <= Budget(|s|, |toks|) + |toks|
  {
    ghost var answer := Accepts(toks, s, 0, 0);
    SearchDecidesMatches(toks, s);
    var ti, si := 0, 0;
    var starTi, starSi := -1, 0;
    steps := 0;
    while si < |s|
      invariant Standing(toks, s, answer, ti, si, starTi, starSi)
      invariant steps <= Budget(starSi, |toks|) + ti
      decreases |s| - starSi, |toks| - ti
    {
      var hit := false;
      if ti < |toks| {
        hit := MatchByte(toks[ti], s[si]);
      }
      if ti < |toks| && toks[ti].Star? {
        StarStep(toks, s, answer, ti, si, starTi, starSi);
        BudgetGrows(starSi, si, |toks|);
        starTi, starSi := ti, si;
        ti := ti + 1;
      } else if ti < |toks| && hit {
        HitStep(toks, s, answer, ti, si, starTi, starSi);
        ti := ti + 1;
        si := si + 1;
      } else {
        MissStep(toks, s, answer, ti, si, starTi, starSi);
        if starTi < 0 {
          BudgetGrows(starSi, |s|, |toks|);
          return false, steps + 1;
        }
        starSi := starSi + 1;
        si := starSi;
        ti := starTi + 1;
      }
      steps := steps + 1;
    }
    AtEnd(toks, s, answer, ti, starTi, starSi);
    BudgetGrows(starSi, |s|, |toks|);
    while ti < |toks| && toks[ti].Star?
      invariant 0 <= ti <= |toks|
      invariant answer == Accepts(toks, s, ti, |s|)
      invariant steps <= Budget(|s|, |toks|) + ti
    {
      ti := ti + 1;
      steps := steps + 1;
    }
    matched := ti == |toks|;
  }

  // ---------------------------------------------------------- two language facts

  /** A trailing-backslash token anywhere makes the pattern match nothing. */
  lemma NeverLoses(toks: seq<Token>, s: string)
    requires Never in toks
    ensures !Matches(toks, s)
  {
    var i :| 0 <= i < |toks| && toks[i] == Never;
    forall pieces: seq<string> ensures !IsCut(toks, s, pieces) {
      if |pieces| == |toks| {
        assert !PieceFits(toks[i], pieces[i]);
      }
    }
  }

  /** A list of literals matches its own text alone. */
  lemma {:induction false} LiteralsMatchThemselves(t: string, s: string)
    ensures Matches(Literals(t), s) <==> s == t
  {
    SearchDecidesMatches(Literals(t), s);
    LiteralSearch(t, s, 0);
    assert t[0..] == t && s[0..] == s;
  }

  function Literals(t: string): (toks: seq<Token>)
    ensures |toks| == |t|
  {
    seq(|t|, i requires 0 <= i < |t| => Literal(t[i]))
  }

  lemma {:induction false} LiteralSearch(t: string, s: string, k: nat)
    requires k <= |t| && k <= |s|
    ensures Accepts(Literals(t), s, k, k) <==> t[k..] == s[k..]
    decreases |t| - k
  {
    if k < |t| && k < |s| {
      LiteralSearch(t, s, k + 1);
      assert t[k..] == [t[k]] + t[k + 1..] && s[k..] == [s[k]] + s[k + 1..];
    }
  }
}
