/**
 Token lists written back as patterns, the partner of the compiler
 (internal/goip/fnmatch.go): compiling what `PrintAll` writes gives the same
 tokens, so every list without adjacent stars is some pattern's.
 */
module GlobPrint {
  import opened Shared
  import opened GlobMatch
  import opened GlobCompile

  function PrintRanges(ranges: seq<(char, char)>): string {
    if ranges == [] then ""
    else ['\\', ranges[0].0, '-', '\\', ranges[0].1] + PrintRanges(ranges[1..])
  }

  function Print(t: Token): (p: string)
    ensures |p| > 0
  {
    match t
    case Literal(lit) => ['\\', lit]
    case AnyByte => "?"
    case Star => "*"
    case Class(neg, ranges) => Opening(neg) + (PrintRanges(ranges) + "]")
    case Never => "\\"
  }

  function PrintAll(toks: seq<Token>): string {
    if toks == [] then "" else Print(toks[0]) + PrintAll(toks[1..])
  }

  /** A class has a member, and only the last token is a trailing backslash. */
  ghost predicate Printable(toks: seq<Token>) {
    forall i :: 0 <= i < |toks| ==>
      && (toks[i].Class? ==> toks[i].ranges != [])
      && (toks[i].Never? ==> i == |toks| - 1)
  }

  /** The text `w` stands in `p` at `i`. */
  ghost predicate HasAt(p: string, i: nat, w: string) {
    i + |w| <= |p| && p[i..i + |w|] == w
  }

  lemma HasByte(p: string, i: nat, w: string, k: nat)
    requires HasAt(p, i, w) && k < |w|
    ensures p[i + k] == w[k]
  {
    assert p[i..i + |w|][k] == p[i + k];
  }

  lemma HasBoth(p: string, i: nat, a: string, b: string, w: string)
    requires w == a + b && HasAt(p, i, w)
    ensures HasAt(p, i, a) && HasAt(p, i + |a|, b)
  {
    assert p[i..i + |a|] == p[i..i + |w|][..|a|] == a;
    assert p[i + |a|..i + |w|] == p[i..i + |w|][|a|..] == b;
  }

  /** One printed range is read as that range. */
  lemma MemberReads(p: string, i: nat, lo: char, hi: char, first: bool, neg: bool, done: seq<(char, char)>)
    requires HasAt(p, i, ['\\', lo, '-', '\\', hi]) && i + 5 < |p|
    ensures Members(p, i, first, neg, done) == Members(p, i + 5, false, neg, done + [(lo, hi)])
  {
    var w := ['\\', lo, '-', '\\', hi];
    HasByte(p, i, w, 0);
    HasByte(p, i, w, 1);
    HasByte(p, i, w, 2);
    HasByte(p, i, w, 3);
    HasByte(p, i, w, 4);
  }

  lemma {:induction false} PrintedMembersRead(
      p: string, i: nat, ranges: seq<(char, char)>, first: bool, neg: bool, done: seq<(char, char)>)
    requires HasAt(p, i, PrintRanges(ranges) + "]") && (ranges != [] || !first)
    ensures Members(p, i, first, neg, done) == Closed(Class(neg, done + ranges), i + |PrintRanges(ranges)| + 1)
    decreases |ranges|
  {
    var w := PrintRanges(ranges) + "]";
    if ranges == [] {
      HasByte(p, i, w, 0);
      assert done + ranges == done;
    } else {
      var (lo, hi) := ranges[0];
      var rest := ranges[1..];
      var one, more := ['\\', lo, '-', '\\', hi], PrintRanges(rest) + "]";
      assert w == one + more;
      HasBoth(p, i, one, more, w);
      MemberReads(p, i, lo, hi, first, neg, done);
      PrintedMembersRead(p, i + 5, rest, false, neg, done + [(lo, hi)]);
      assert done + [(lo, hi)] + rest == done + ranges;
    }
  }

  function Opening(neg: bool): string {
    if neg then ['[', '!'] else ['[']
  }

  /** The token at `i` is `t`, and the next starts at `next`. */
  predicate ReadsAs(p: string, i: nat, t: Token, next: nat) {
    i < next <= |p| && ReadToken(p, i) == Some((t, next))
  }

  predicate OpensAt(p: string, i: nat) {
    i < |p| && p[i] == '['
  }

  lemma ClassReads(p: string, i: nat, neg: bool, ranges: seq<(char, char)>, j: nat)
    requires ranges != [] && j == i + |Opening(neg)|
    requires HasAt(p, i, Opening(neg)) && HasAt(p, j, PrintRanges(ranges) + "]")
    ensures OpensAt(p, i)
    ensures ReadBracket(p, i + 1) == Closed(Class(neg, ranges), j + |PrintRanges(ranges)| + 1)
  {
    var w := PrintRanges(ranges) + "]";
    HasByte(p, i, Opening(neg), 0);
    if neg {
      HasByte(p, i, Opening(neg), 1);
    } else {
      HasByte(p, j, w, 0);
    }
    PrintedMembersRead(p, j, ranges, true, neg, []);
    assert [] + ranges == ranges;
  }

  lemma PrintedTokenReads(p: string, i: nat, t: Token, next: nat)
    requires HasAt(p, i, Print(t)) && next == i + |Print(t)|
    requires (t.Class? ==> t.ranges != []) && (t.Never? ==> next == |p|)
    ensures ReadsAs(p, i, t, next)
  {
    if t.Class? {
      HasBoth(p, i, Opening(t.neg), PrintRanges(t.ranges) + "]", Print(t));
      ClassReads(p, i, t.neg, t.ranges, i + |Opening(t.neg)|);
    }
  }

  lemma TokensStep(p: string, i: nat, t: Token, next: nat, rest: seq<Token>)
    requires ReadsAs(p, i, t, next) && Tokens(p, next) == Some(rest)
    ensures Tokens(p, i) == Some([t] + rest)
  {
  }

  lemma TailIsPrintable(toks: seq<Token>)
    requires Printable(toks) && toks != []
    ensures Printable(toks[1..])
  {
    var rest := toks[1..];
    forall i | 0 <= i < |rest|
      ensures (rest[i].Class? ==> rest[i].ranges != []) && (rest[i].Never? ==> i == |rest| - 1)
    {
      assert rest[i] == toks[i + 1];
    }
  }

  lemma FirstTokenStands(p: string, i: nat, toks: seq<Token>, t: Token, rest: seq<Token>, next: nat)
    requires toks != [] && t == toks[0] && rest == toks[1..] && next == i + |Print(t)|
    requires Printable(toks) && HasAt(p, i, PrintAll(toks)) && i + |PrintAll(toks)| == |p|
    ensures HasAt(p, i, Print(t)) && HasAt(p, next, PrintAll(rest)) && next + |PrintAll(rest)| == |p|
    ensures t.Never? ==> next == |p|
    ensures t.Class? ==> t.ranges != []
  {
    HasBoth(p, i, Print(t), PrintAll(rest), PrintAll(toks));
    assert t.Never? ==> rest == [];
  }

  /** The rest of `p` from `i` on is a printed list. */
  ghost predicate IsPrinted(p: string, i: nat, toks: seq<Token>) {
    Printable(toks) && HasAt(p, i, PrintAll(toks)) && i + |PrintAll(toks)| == |p|
  }

  lemma PrintedRest(p: string, i: nat, toks: seq<Token>, t: Token, rest: seq<Token>, next: nat)
    requires toks != [] && t == toks[0] && rest == toks[1..] && next == i + |Print(t)| && IsPrinted(p, i, toks)
    ensures next <= |p| && IsPrinted(p, next, rest)
  {
    FirstTokenStands(p, i, toks, t, rest, next);
    TailIsPrintable(toks);
  }

  lemma PrintedFirst(p: string, i: nat, toks: seq<Token>, t: Token, next: nat)
    requires toks != [] && t == toks[0] && next == i + |Print(t)| && IsPrinted(p, i, toks)
    ensures ReadsAs(p, i, t, next)
  {
    FirstTokenStands(p, i, toks, t, toks[1..], next);
    PrintedTokenReads(p, i, t, next);
  }

  lemma {:induction false} PrintedTokensRead(p: string, i: nat, toks: seq<Token>)
    requires i <= |p| && IsPrinted(p, i, toks)
    ensures Tokens(p, i) == Some(toks)
    decreases |toks|
  {
    if toks != [] {
      var t, rest := toks[0], toks[1..];
      var next := i + |Print(t)|;
      PrintedFirst(p, i, toks, t, next);
      PrintedRest(p, i, toks, t, rest, next);
      PrintedTokensRead(p, next, rest);
      TokensStep(p, i, t, next, rest);
      assert [t] + rest == toks;
    }
  }

  /** Compiling a printed token list gives the list back. */
  lemma PrintCompileRoundTrip(toks: seq<Token>)
    requires Printable(toks) && StarsApart(toks)
    ensures Tokens(PrintAll(toks), 0).Some?
    ensures Collapse(Tokens(PrintAll(toks), 0).value) == toks
  {
    PrintedTokensRead(PrintAll(toks), 0, toks);
    CollapseSeparatesStars(toks);
  }

  function EscapeAll(t: string): string {
    if t == "" then "" else ['\\', t[0]] + EscapeAll(t[1..])
  }

  /** Escaping every byte gives a pattern that matches the text alone. */
  lemma EscapedMatchesItself(t: string, s: string)
    ensures Tokens(EscapeAll(t), 0).Some?
    ensures Reference(EscapeAll(t), 0, s, 0) <==> s == t
  {
    EscapeIsPrint(t);
    PrintCompileRoundTrip(Literals(t));
    CompiledMeansReference(EscapeAll(t), s);
    LiteralsMatchThemselves(t, s);
  }

  lemma {:induction false} EscapeIsPrint(t: string)
    ensures EscapeAll(t) == PrintAll(Literals(t))
  {
    if t != "" {
      EscapeIsPrint(t[1..]);
      assert Literals(t)[1..] == Literals(t[1..]);
    }
  }
}
