/**
 The compiling half of the glob matcher (internal/goip/fnmatch.go): a pattern
 to tokens, and `fnmatch0`, which compiles and then matches.

 Two independent partners pin the compiler down. `Reference` reads the pattern
 string directly, with no tokens and no backtrack point, the way the fuzz
 test's reference does; the compiled matcher agrees with it on every pattern
 that is not refused. GlobPrint writes a token list back as a pattern, and
 compiling what it writes gives the same tokens.
 */
module GlobCompile {
  import opened Shared
  import opened GlobMatch

  /** What follows a `[`: a whole bracket expression and the index after its
      `]`, no closing `]` at all, or a POSIX class, which is refused. */
  datatype Bracket = Closed(tok: Token, next: nat) | Unclosed | PosixClass

  // ---------------------------------------------------------- reading a bracket

  /** fnmatchBracketChar: one possibly escaped character and the index after it. */
  function BracketChar(p: string, j: nat): (r: Option<(char, nat)>)
    requires j < |p|
    ensures r.Some? ==> j < r.value.1 <= |p| && r.value.0 == p[r.value.1 - 1]
  {
    if p[j] != '\\' then Some((p[j], j + 1))
    else if j + 1 < |p| then Some((p[j + 1], j + 2))
    else None
  }

  predicate OpensPosixClass(p: string, j: nat) {
    j + 1 < |p| && p[j] == '[' && (p[j + 1] == ':' || p[j + 1] == '=' || p[j + 1] == '.')
  }

  /** The members of a bracket expression from `j` on. */
  function Members(p: string, j: nat, first: bool, neg: bool, ranges: seq<(char, char)>): (b: Bracket)
    requires j <= |p|
    ensures b.Closed? ==> j < b.next <= |p| && p[b.next - 1] == ']' && b.tok.Class?
    ensures b.PosixClass? ==> exists k :: j <= k < |p| && OpensPosixClass(p, k)
    decreases |p| - j
  {
    if j == |p| then Unclosed
    else if p[j] == ']' && !first then Closed(Class(neg, ranges), j + 1)
    else if OpensPosixClass(p, j) then PosixClass
    else
      match BracketChar(p, j)
      case None => Unclosed
      case Some((lo, nj)) =>
        if nj + 1 < |p| && p[nj] == '-' && p[nj + 1] != ']' then
          match BracketChar(p, nj + 1)
          case None => Unclosed
          case Some((hi, nh)) => Members(p, nh, false, neg, ranges + [(lo, hi)])
        else
          Members(p, nj, false, neg, ranges + [(lo, lo)])
  }

  predicate Negates(p: string, j: nat) {
    j < |p| && (p[j] == '!' || p[j] == '^')
  }

  /** The bracket expression after the `[` that ends at `j`. */
  function ReadBracket(p: string, j: nat): (b: Bracket)
    requires j <= |p|
    ensures b.Closed? ==> j < b.next <= |p| && p[b.next - 1] == ']' && b.tok.Class?
    ensures b.PosixClass? ==> exists k :: j <= k < |p| && OpensPosixClass(p, k)
  {
    var neg := Negates(p, j);
    Members(p, if neg then j + 1 else j, true, neg, [])
  }

  /** fnmatchBracket: the loop over the members. */
  method ParseBracket(p: string, start: nat) returns (b: Bracket)
    requires start <= |p|
    ensures b == ReadBracket(p, start)
  {
    var j := start;
    var neg := false;
    var ranges: seq<(char, char)> := [];
    if j < |p| && (p[j] == '!' || p[j] == '^') {
      neg := true;
      j := j + 1;
    }
    var first := true;
    while j < |p|
      invariant start <= j <= |p|
      invariant ReadBracket(p, start) == Members(p, j, first, neg, ranges)
    {
      var c := p[j];
      if c == ']' && !first {
        return Closed(Class(neg, ranges), j + 1);
      }
      if c == '[' && j + 1 < |p| && (p[j + 1] == ':' || p[j + 1] == '=' || p[j + 1] == '.') {
        return PosixClass;
      }
      var read := BracketChar(p, j);
      if read.None? {
        return Unclosed;
      }
      var lo := read.value.0;
      var next := read.value.1;
      var hi := lo;
      if next + 1 < |p| && p[next] == '-' && p[next + 1] != ']' {
        read := BracketChar(p, next + 1);
        if read.None? {
          return Unclosed;
        }
        hi := read.value.0;
        next := read.value.1;
      }
      j := next;
      ranges := ranges + [(lo, hi)];
      first := false;
    }
    b := Unclosed;
  }

  // ---------------------------------------------------------- reading a pattern

  /** The token at `i` and the index after it; none when the pattern is refused. */
  function ReadToken(p: string, i: nat): (r: Option<(Token, nat)>)
    requires i < |p|
    ensures r.Some? ==> i < r.value.1 <= |p|
    ensures r.None? ==> exists k :: i < k < |p| && OpensPosixClass(p, k)
  {
    if p[i] == '\\' then
      if i + 1 == |p| then Some((Never, i + 1)) else Some((Literal(p[i + 1]), i + 2))
    else if p[i] == '*' then Some((Star, i + 1))
    else if p[i] == '?' then Some((AnyByte, i + 1))
    else if p[i] == '[' then
      match ReadBracket(p, i + 1)
      case Closed(tok, next) => Some((tok, next))
      case Unclosed => Some((Literal('['), i + 1))
      case PosixClass => None
    else Some((Literal(p[i]), i + 1))
  }

  /** Every token from `i` on, stars not yet collapsed. */
  function Tokens(p: string, i: nat): (r: Option<seq<Token>>)
    requires i <= |p|
    ensures r.None? ==> exists k :: i <= k < |p| && OpensPosixClass(p, k)
    decreases |p| - i
  {
    if i == |p| then Some([])
    else
      match ReadToken(p, i)
      case None => None
      case Some((tok, next)) =>
        match Tokens(p, next)
        case None => None
        case Some(rest) => Some([tok] + rest)
  }

  predicate EndsInStar(toks: seq<Token>) {
    |toks| > 0 && toks[|toks| - 1].Star?
  }

  /** Append a token, unless it is a star after a star. */
  function Push(toks: seq<Token>, tok: Token): seq<Token> {
    if tok.Star? && EndsInStar(toks) then toks else toks + [tok]
  }

  /** Drop every star that follows a star. */
  function Collapse(toks: seq<Token>): seq<Token> {
    if toks == [] then [] else Push(Collapse(toks[..|toks| - 1]), toks[|toks| - 1])
  }

  lemma CollapseSnoc(toks: seq<Token>, tok: Token)
    ensures Collapse(toks + [tok]) == Push(Collapse(toks), tok)
  {
    assert (toks + [tok])[..|toks|] == toks;
  }

  /** The switch of fnmatchCompile: the token at `i`, none for a POSIX class. */
  method NextToken(p: string, i: nat) returns (r: Option<(Token, nat)>)
    requires i < |p|
    ensures r == ReadToken(p, i)
  {
    var c := p[i];
    if c == '\\' {
      if i + 1 < |p| {
        return Some((Literal(p[i + 1]), i + 2));
      }
      return Some((Never, i + 1));
    } else if c == '*' {
      return Some((Star, i + 1));
    } else if c == '?' {
      return Some((AnyByte, i + 1));
    } else if c == '[' {
      var b := ParseBracket(p, i + 1);
      match b
      case PosixClass => return None;
      case Unclosed => return Some((Literal('['), i + 1));
      case Closed(read, after) => return Some((read, after));
    }
    r := Some((Literal(c), i + 1));
  }

  /** `raw` has been read before `i`. */
  ghost predicate HasRead(p: string, raw: seq<Token>, i: nat)
    requires i <= |p|
  {
    && (Tokens(p, i).None? <==> Tokens(p, 0).None?)
    && (Tokens(p, i).Some? ==> Tokens(p, 0).value == raw + Tokens(p, i).value)
  }

  lemma ReadsOn(p: string, raw: seq<Token>, i: nat, tok: Token, next: nat)
    requires i < next <= |p| && HasRead(p, raw, i) && ReadToken(p, i) == Some((tok, next))
    ensures HasRead(p, raw + [tok], next)
  {
    if Tokens(p, next).Some? {
      assert raw + ([tok] + Tokens(p, next).value) == raw + [tok] + Tokens(p, next).value;
    }
  }

  /** fnmatchCompile: none is a refused POSIX class. */
  method Compile(p: string) returns (r: Option<seq<Token>>)
    ensures r.None? <==> Tokens(p, 0).None?
    ensures r.Some? ==> r.value == Collapse(Tokens(p, 0).value)
  {
    var toks: seq<Token> := [];
    ghost var raw: seq<Token> := [];
    var i := 0;
    while i < |p|
      invariant 0 <= i <= |p|
      invariant toks == Collapse(raw) && HasRead(p, raw, i)
    {
      var read := NextToken(p, i);
      if read.None? {
        return None;
      }
      var (tok, next) := read.value;
      ReadsOn(p, raw, i, tok, next);
      CollapseSnoc(raw, tok);
      raw := raw + [tok];
      if !(tok.Star? && |toks| > 0 && toks[|toks| - 1].Star?) {
        toks := toks + [tok];
      }
      i := next;
    }
    assert raw + [] == raw;
    r := Some(toks);
  }

  // ----------------------------------------------- collapsing keeps the language

  /** The last token takes a suffix. */
  lemma MatchesSnoc(toks: seq<Token>, tok: Token, s: string)
    ensures Matches(toks + [tok], s)
       <==> exists k :: 0 <= k <= |s| && Matches(toks, s[..k]) && PieceFits(tok, s[k..])
  {
    if Matches(toks + [tok], s) {
      var pieces :| IsCut(toks + [tok], s, pieces);
      var front, last := pieces[..|toks|], pieces[|toks|];
      assert pieces == front + [last];
      JoinSnoc(front, last);
      var k := |Join(front)|;
      assert s[..k] == Join(front) && s[k..] == last;
      assert forall i :: 0 <= i < |toks| ==> (toks + [tok])[i] == toks[i];
      assert IsCut(toks, s[..k], front);
      assert PieceFits((toks + [tok])[|toks|], pieces[|toks|]);
    }
    if k :| 0 <= k <= |s| && Matches(toks, s[..k]) && PieceFits(tok, s[k..]) {
      var front :| IsCut(toks, s[..k], front);
      JoinSnoc(front, s[k..]);
      assert s[..k] + s[k..] == s;
      assert IsCut(toks + [tok], s, front + [s[k..]]);
    }
  }

  lemma {:induction false} JoinSnoc(pieces: seq<string>, last: string)
    ensures Join(pieces + [last]) == Join(pieces) + last
  {
    if pieces == [] {
      assert pieces + [last] == [last] && [last][1..] == [];
    } else {
      JoinSnoc(pieces[1..], last);
      assert (pieces + [last])[1..] == pieces[1..] + [last];
    }
  }

  /** A star after a star adds nothing to the language. */
  lemma SecondStarIsIdle(toks: seq<Token>, s: string)
    requires EndsInStar(toks)
    ensures Matches(toks + [Star], s) <==> Matches(toks, s)
  {
    var front := toks[..|toks| - 1];
    assert toks == front + [Star];
    MatchesSnoc(toks, Star, s);
    if Matches(toks, s) {
      assert s[..|s|] == s && PieceFits(Star, s[|s|..]);
    }
    if k :| 0 <= k <= |s| && Matches(toks, s[..k]) {
      MatchesSnoc(front, Star, s[..k]);
      var m :| 0 <= m <= |s[..k]| && Matches(front, s[..k][..m]);
      assert s[..k][..m] == s[..m] && PieceFits(Star, s[m..]);
      MatchesSnoc(front, Star, s);
    }
  }

  /** Collapsing adjacent stars never changes the matched language. */
  lemma {:induction false} CollapseKeepsLanguage(toks: seq<Token>, s: string)
    ensures Matches(Collapse(toks), s) <==> Matches(toks, s)
    decreases |toks|
  {
    if toks != [] {
      var front, tok := toks[..|toks| - 1], toks[|toks| - 1];
      assert toks == front + [tok];
      var c := Collapse(front);
      forall k | 0 <= k <= |s| ensures Matches(c, s[..k]) <==> Matches(front, s[..k]) {
        CollapseKeepsLanguage(front, s[..k]);
      }
      MatchesSnoc(front, tok, s);
      MatchesSnoc(c, tok, s);
      if tok.Star? && EndsInStar(c) {
        SecondStarIsIdle(c, s);
      }
    }
  }

  /** And it leaves no two stars side by side. */
  lemma {:induction false} CollapseSeparatesStars(toks: seq<Token>)
    ensures StarsApart(Collapse(toks))
    ensures StarsApart(toks) ==> Collapse(toks) == toks
    decreases |toks|
  {
    if toks != [] {
      var front := toks[..|toks| - 1];
      CollapseSeparatesStars(front);
      assert toks == front + [toks[|toks| - 1]];
    }
  }

  ghost predicate StarsApart(toks: seq<Token>) {
    forall i, j :: 0 <= i && j == i + 1 && j < |toks| ==> !(toks[i].Star? && toks[j].Star?)
  }

  // ----------------------------------------------------- the reference on strings

  /**
   Does the pattern from `i` match the string from `j`? Plain recursion over
   the pattern text; only the bracket reader is shared with the compiler.
   */
  ghost predicate Reference(p: string, i: nat, s: string, j: nat)
    requires i <= |p| && j <= |s|
    decreases |p| - i, |s| - j
  {
    if i == |p| then j == |s|
    else if p[i] == '*' then
      Reference(p, i + 1, s, j) || (j < |s| && Reference(p, i, s, j + 1))
    else if j == |s| then false
    else if p[i] == '?' then Reference(p, i + 1, s, j + 1)
    else if p[i] == '\\' then
      i + 1 < |p| && s[j] == p[i + 1] && Reference(p, i + 2, s, j + 1)
    else if p[i] == '[' && ReadBracket(p, i + 1).Closed? then
      var b := ReadBracket(p, i + 1);
      TakesByte(b.tok, s[j]) && Reference(p, b.next, s, j + 1)
    else s[j] == p[i] && Reference(p, i + 1, s, j + 1)
  }

  /** The search over a suffix of the tokens is the search from there. */
  lemma {:induction false} AcceptsSuffix(first: Token, rest: seq<Token>, s: string, ti: nat, si: nat)
    requires ti <= |rest| && si <= |s|
    ensures Accepts([first] + rest, s, ti + 1, si) <==> Accepts(rest, s, ti, si)
    decreases |rest| - ti, |s| - si
  {
    if ti < |rest| {
      assert ([first] + rest)[ti + 1] == rest[ti];
      AcceptsSuffix(first, rest, s, ti + 1, si);
      if si < |s| {
        AcceptsSuffix(first, rest, s, ti, si + 1);
        AcceptsSuffix(first, rest, s, ti + 1, si + 1);
      }
    }
  }

  lemma {:induction false} TokensMeanReference(p: string, i: nat, s: string, j: nat)
    requires i <= |p| && j <= |s|
    requires Tokens(p, i).Some?
    ensures Accepts(Tokens(p, i).value, s, 0, j) <==> Reference(p, i, s, j)
    decreases |p| - i, |s| - j
  {
    if i < |p| {
      var (tok, next) := ReadToken(p, i).value;
      var rest := Tokens(p, next).value;
      AcceptsSuffix(tok, rest, s, 0, j);
      TokensMeanReference(p, next, s, j);
      if j < |s| {
        AcceptsSuffix(tok, rest, s, 0, j + 1);
        TokensMeanReference(p, next, s, j + 1);
        TokensMeanReference(p, i, s, j + 1);
      }
    }
  }

  /** A compiled pattern means what the pattern text means. */
  lemma CompiledMeansReference(p: string, s: string)
    requires Tokens(p, 0).Some?
    ensures Matches(Collapse(Tokens(p, 0).value), s) <==> Reference(p, 0, s, 0)
  {
    CollapseKeepsLanguage(Tokens(p, 0).value, s);
    SearchDecidesMatches(Tokens(p, 0).value, s);
    TokensMeanReference(p, 0, s, 0);
  }

  /**
   fnmatch0: compile, then match. Refused only for a POSIX class in the
   pattern, whatever the string; otherwise the reference's answer.
   */
  method Fnmatch(p: string, s: string) returns (r: Option<bool>)
    ensures r.None? <==> Tokens(p, 0).None?
    ensures r.None? ==> exists k :: 0 <= k < |p| && OpensPosixClass(p, k)
    ensures r.Some? ==> (r.value <==> Reference(p, 0, s, 0))
  {
    var compiled := Compile(p);
    match compiled
    case None => r := None;
    case Some(toks) =>
      CompiledMeansReference(p, s);
      var matched, _ := MatchTokens(toks, s);
      r := Some(matched);
  }

  /** A pattern whose last token is a lone backslash matches nothing. */
  lemma TrailingBackslashLoses(p: string, s: string)
    requires Tokens(p, 0).Some? && Never in Tokens(p, 0).value
    ensures !Reference(p, 0, s, 0)
  {
    var toks := Tokens(p, 0).value;
    NeverLoses(toks, s);
    CollapseKeepsLanguage(toks, s);
    CompiledMeansReference(p, s);
  }
}
