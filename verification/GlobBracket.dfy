/**
 Bracket expressions as they are written (internal/goip/fnmatch.go): single bytes
 and ranges, escaped or not, after `[`, `[!` or `[^`. What is written reads back as
 exactly those members, and a pattern that is one bracket expression matches
 exactly the one-byte strings they say.
 */
module GlobBracket {
  import opened Shared
  import opened GlobMatch
  import opened GlobCompile

  /** One byte as it is written, with a backslash before it or not. */
  datatype Mark = Mark(c: char, escaped: bool)

  datatype Piece = Single(m: Mark) | Range(lo: Mark, hi: Mark)

  function MarkText(m: Mark): string {
    if m.escaped then ['\\', m.c] else [m.c]
  }

  function PieceText(piece: Piece): string {
    match piece
    case Single(m) => MarkText(m)
    case Range(lo, hi) => MarkText(lo) + "-" + MarkText(hi)
  }

  function Text(pieces: seq<Piece>): string {
    if pieces == [] then "" else PieceText(pieces[0]) + Text(pieces[1..])
  }

  /** The bytes a piece stands for. */
  predicate Has(piece: Piece, c: char) {
    match piece
    case Single(m) => c == m.c
    case Range(lo, hi) => lo.c <= c <= hi.c
  }

  function Bounds(piece: Piece): (char, char) {
    match piece
    case Single(m) => (m.c, m.c)
    case Range(lo, hi) => (lo.c, hi.c)
  }

  function AllBounds(pieces: seq<Piece>): (rs: seq<(char, char)>)
    ensures |rs| == |pieces|
    ensures forall k :: 0 <= k < |pieces| ==> rs[k] == Bounds(pieces[k])
  {
    seq(|pieces|, k requires 0 <= k < |pieces| => Bounds(pieces[k]))
  }

  /** `after` starts a POSIX class when a `[` stands before it. */
  predicate NamesClass(after: string) {
    after != "" && (after[0] == ':' || after[0] == '=' || after[0] == '.')
  }

  /** `after` makes a range of the byte before it. */
  predicate ExtendsToRange(after: string) {
    |after| > 1 && after[0] == '-' && after[1] != ']'
  }

  /** A byte that may start a piece unescaped: not a backslash, a `]` only in front,
      and a `[` only where it opens no class. */
  predicate StandsPlain(c: char, first: bool, after: string) {
    c != '\\' && (c == ']' ==> first) && (c == '[' ==> !NamesClass(after))
  }

  /** The piece reads as itself in front of `after`. */
  predicate Stands(piece: Piece, first: bool, after: string) {
    match piece
    case Single(m) => (m.escaped || StandsPlain(m.c, first, after)) && !ExtendsToRange(after)
    case Range(lo, hi) => (lo.escaped || StandsPlain(lo.c, first, "-")) && (hi.escaped || (hi.c != '\\' && hi.c != ']'))
  }

  predicate AllStand(pieces: seq<Piece>, first: bool, tail: string) {
    pieces != [] ==>
      Stands(pieces[0], first, Text(pieces[1..]) + tail) && AllStand(pieces[1..], false, tail)
  }

  // -------------------------------------------------------------- reading a piece

  /** The pattern from `i` on is `w`. */
  ghost predicate From(p: string, i: nat, w: string) {
    i <= |p| && p[i..] == w
  }

  lemma FromByte(p: string, i: nat, w: string, k: nat)
    requires From(p, i, w) && k < |w|
    ensures i + k < |p| && p[i + k] == w[k]
  {
    assert p[i..][k] == p[i + k];
  }

  lemma FromRest(p: string, i: nat, a: string, b: string, w: string)
    requires From(p, i, w) && w == a + b
    ensures From(p, i + |a|, b)
  {
    assert p[i + |a|..] == p[i..][|a|..];
  }

  lemma MarkReads(p: string, i: nat, m: Mark, after: string)
    requires From(p, i, MarkText(m) + after) && (m.escaped || m.c != '\\')
    ensures i < |p| && BracketChar(p, i) == Some((m.c, i + |MarkText(m)|))
    ensures From(p, i + |MarkText(m)|, after)
  {
    var w := MarkText(m) + after;
    FromByte(p, i, w, 0);
    FromByte(p, i, w, |MarkText(m)| - 1);
    FromRest(p, i, MarkText(m), after, w);
  }

  /** Neither the end of the members nor a class starts at a piece. */
  lemma PieceStarts(p: string, i: nat, m: Mark, first: bool, after: string)
    requires From(p, i, MarkText(m) + after) && (m.escaped || StandsPlain(m.c, first, after))
    ensures i < |p| && (p[i] == ']' ==> first) && !OpensPosixClass(p, i)
  {
    var w := MarkText(m) + after;
    FromByte(p, i, w, 0);
    if !m.escaped && after != "" {
      FromByte(p, i, w, 1);
    } else if !m.escaped {
      assert |p| == i + 1;
    }
  }

  predicate RangeAt(p: string, j: nat) {
    j + 1 < |p| && p[j] == '-' && p[j + 1] != ']'
  }

  lemma RangeAtIff(p: string, j: nat, after: string)
    requires From(p, j, after)
    ensures RangeAt(p, j) <==> ExtendsToRange(after)
  {
    assert |p| == j + |after|;
    if |after| > 1 {
      FromByte(p, j, after, 0);
      FromByte(p, j, after, 1);
    }
  }

  /** What the reader does with a byte that no range follows, */
  lemma SingleStep(p: string, i: nat, c: char, j: nat, first: bool, neg: bool, done: seq<(char, char)>)
    requires i < |p| && (p[i] == ']' ==> first) && !OpensPosixClass(p, i)
    requires BracketChar(p, i) == Some((c, j)) && !RangeAt(p, j)
    ensures j <= |p| && Members(p, i, first, neg, done) == Members(p, j, false, neg, done + [(c, c)])
  {
  }

  /** and with one that a range follows. */
  lemma RangeStep(p: string, i: nat, lo: char, j: nat, hi: char, k: nat, first: bool, neg: bool,
                  done: seq<(char, char)>)
    requires i < |p| && (p[i] == ']' ==> first) && !OpensPosixClass(p, i)
    requires BracketChar(p, i) == Some((lo, j)) && RangeAt(p, j) && BracketChar(p, j + 1) == Some((hi, k))
    ensures k <= |p| && Members(p, i, first, neg, done) == Members(p, k, false, neg, done + [(lo, hi)])
  {
  }

  lemma SingleReads(p: string, i: nat, m: Mark, after: string, first: bool, neg: bool, done: seq<(char, char)>, j: nat)
    requires From(p, i, MarkText(m) + after) && Stands(Single(m), first, after) && j == i + |MarkText(m)|
    ensures From(p, j, after)
    ensures Members(p, i, first, neg, done) == Members(p, j, false, neg, done + [(m.c, m.c)])
  {
    PieceStarts(p, i, m, first, after);
    MarkReads(p, i, m, after);
    RangeAtIff(p, j, after);
    SingleStep(p, i, m.c, j, first, neg, done);
  }

  lemma RangeText(p: string, i: nat, lo: Mark, hi: Mark, after: string, first: bool, j: nat)
    requires From(p, i, MarkText(lo) + ("-" + (MarkText(hi) + after))) && Stands(Range(lo, hi), first, after)
    requires j == i + |MarkText(lo)|
    ensures i < |p| && (p[i] == ']' ==> first) && !OpensPosixClass(p, i)
    ensures BracketChar(p, i) == Some((lo.c, j)) && RangeAt(p, j) && From(p, j + 1, MarkText(hi) + after)
  {
    var more := MarkText(hi) + after;
    PieceStarts(p, i, lo, first, "-" + more);
    MarkReads(p, i, lo, "-" + more);
    RangeAtIff(p, j, "-" + more);
    FromRest(p, j, "-", more, "-" + more);
  }

  lemma RangeReads(p: string, i: nat, lo: Mark, hi: Mark, after: string, first: bool, neg: bool,
                   done: seq<(char, char)>, j: nat, k: nat)
    requires From(p, i, MarkText(lo) + ("-" + (MarkText(hi) + after))) && Stands(Range(lo, hi), first, after)
    requires j == i + |MarkText(lo)| && k == j + 1 + |MarkText(hi)|
    ensures From(p, k, after)
    ensures Members(p, i, first, neg, done) == Members(p, k, false, neg, done + [(lo.c, hi.c)])
  {
    RangeText(p, i, lo, hi, after, first, j);
    MarkReads(p, j + 1, hi, after);
    RangeStep(p, i, lo.c, j, hi.c, k, first, neg, done);
  }

  /** Reading members from `i` on comes to the same as reading them from `j` on. */
  ghost predicate ReadsOnTo(p: string, i: nat, first: bool, neg: bool, done: seq<(char, char)>, j: nat, then': bool,
                            more: seq<(char, char)>) {
    i <= |p| && j <= |p| && Members(p, i, first, neg, done) == Members(p, j, then', neg, more)
  }

  lemma PieceReads(p: string, i: nat, piece: Piece, after: string, first: bool, neg: bool, done: seq<(char, char)>,
                   j: nat)
    requires From(p, i, PieceText(piece) + after) && Stands(piece, first, after) && j == i + |PieceText(piece)|
    ensures From(p, j, after)
    ensures ReadsOnTo(p, i, first, neg, done, j, false, done + [Bounds(piece)])
  {
    match piece
    case Single(m) => SingleReads(p, i, m, after, first, neg, done, j);
    case Range(lo, hi) =>
      assert PieceText(piece) + after == MarkText(lo) + ("-" + (MarkText(hi) + after));
      RangeReads(p, i, lo, hi, after, first, neg, done, i + |MarkText(lo)|, j);
  }

  lemma ReadsThrough(p: string, i: nat, first: bool, neg: bool, done: seq<(char, char)>, j: nat,
                     mid: seq<(char, char)>, k: nat, more: seq<(char, char)>)
    requires ReadsOnTo(p, i, first, neg, done, j, false, mid) && ReadsOnTo(p, j, false, neg, mid, k, false, more)
    ensures ReadsOnTo(p, i, first, neg, done, k, false, more)
  {
  }

  lemma TextOfFirst(pieces: seq<Piece>, one: Piece, rest: seq<Piece>)
    requires pieces == [one] + rest
    ensures Text(pieces) == PieceText(one) + Text(rest)
  {
    assert pieces[1..] == rest;
  }

  lemma BoundsOfFirst(pieces: seq<Piece>, one: Piece, rest: seq<Piece>)
    requires pieces == [one] + rest
    ensures AllBounds(pieces) == [Bounds(one)] + AllBounds(rest)
  {
  }

  lemma FirstPiece(pieces: seq<Piece>, one: Piece, rest: seq<Piece>, tail: string, done: seq<(char, char)>)
    requires pieces == [one] + rest
    ensures Text(pieces) + tail == PieceText(one) + (Text(rest) + tail)
    ensures |Text(pieces)| == |PieceText(one)| + |Text(rest)|
    ensures done + [Bounds(one)] + AllBounds(rest) == done + AllBounds(pieces)
  {
    TextOfFirst(pieces, one, rest);
    JoinAssociates(PieceText(one), Text(rest), tail);
    BoundsOfFirst(pieces, one, rest);
    JoinAssociates(done, [Bounds(one)], AllBounds(rest));
  }

  /** Written pieces are read as their bounds, and reading goes on after them. */
  lemma {:induction false} PiecesRead(p: string, i: nat, pieces: seq<Piece>, tail: string, first: bool, neg: bool,
                                      done: seq<(char, char)>, k: nat, then': bool, all: seq<(char, char)>)
    requires From(p, i, Text(pieces) + tail) && AllStand(pieces, first, tail)
    requires k == i + |Text(pieces)| && then' == (first && pieces == []) && all == done + AllBounds(pieces)
    ensures From(p, k, tail)
    ensures ReadsOnTo(p, i, first, neg, done, k, then', all)
    decreases |pieces|
  {
    if pieces == [] {
      assert all == done && "" + tail == tail;
    } else {
      var one, rest := pieces[0], pieces[1..];
      var j, mid := i + |PieceText(one)|, done + [Bounds(one)];
      FirstPiece(pieces, one, rest, tail, done);
      PieceReads(p, i, one, Text(rest) + tail, first, neg, done, j);
      PiecesRead(p, j, rest, tail, false, neg, mid, k, false, all);
      ReadsThrough(p, i, first, neg, done, j, mid, k, all);
    }
  }

  // ------------------------------------------------------------- the whole expression

  /** What negates: nothing, `!` or `^`. */
  predicate IsMark(mark: string) {
    mark == "" || mark == "!" || mark == "^"
  }

  predicate StartsNegated(w: string) {
    w != "" && (w[0] == '!' || w[0] == '^')
  }

  /** Written members after `[` and `mark`, in front of `tail`. */
  predicate Written(mark: string, pieces: seq<Piece>, tail: string) {
    && IsMark(mark) && AllStand(pieces, true, tail)
    && (mark == "" ==> !StartsNegated(Text(pieces) + tail))
  }

  lemma MarkIsRead(p: string, i: nat, mark: string, more: string)
    requires From(p, i, mark + more) && IsMark(mark) && (mark == "" ==> !StartsNegated(more))
    ensures Negates(p, i) <==> mark != ""
    ensures From(p, i + |mark|, more)
  {
    if mark + more != "" {
      FromByte(p, i, mark + more, 0);
    }
    FromRest(p, i, mark, more, mark + more);
  }

  lemma MembersStart(p: string, i: nat, mark: string, start: nat, neg: bool)
    requires start == i + |mark| <= |p| && IsMark(mark) && neg == (mark != "") == Negates(p, i)
    ensures ReadBracket(p, i) == Members(p, start, true, neg, [])
  {
  }

  lemma SameReading(p: string, i: nat, neg: bool, j: nat, then': bool, more: seq<(char, char)>, b: Bracket)
    requires ReadsOnTo(p, i, true, neg, [], j, then', more) && b == Members(p, i, true, neg, [])
    ensures b == Members(p, j, then', neg, more)
  {
  }

  lemma MembersFrom(p: string, i: nat, pieces: seq<Piece>, tail: string, neg: bool, j: nat, b: Bracket)
    requires From(p, i, Text(pieces) + tail) && AllStand(pieces, true, tail) && j == i + |Text(pieces)|
    requires b == Members(p, i, true, neg, [])
    ensures From(p, j, tail) && b == Members(p, j, pieces == [], neg, AllBounds(pieces))
  {
    assert [] + AllBounds(pieces) == AllBounds(pieces);
    PiecesRead(p, i, pieces, tail, true, neg, [], j, pieces == [], AllBounds(pieces));
    SameReading(p, i, neg, j, pieces == [], AllBounds(pieces), b);
  }

  lemma MembersRead(p: string, i: nat, mark: string, pieces: seq<Piece>, tail: string, j: nat, b: Bracket)
    requires From(p, i, mark + (Text(pieces) + tail)) && Written(mark, pieces, tail) && b == ReadBracket(p, i)
    requires j == i + |mark| + |Text(pieces)|
    ensures From(p, j, tail) && b == Members(p, j, pieces == [], mark != "", AllBounds(pieces))
  {
    var start, neg := i + |mark|, mark != "";
    MarkIsRead(p, i, mark, Text(pieces) + tail);
    MembersStart(p, i, mark, start, neg);
    MembersFrom(p, start, pieces, tail, neg, j, b);
  }

  /** A `]` after a member closes it, */
  lemma ClosedReads(p: string, i: nat, mark: string, pieces: seq<Piece>, tail: string, j: nat)
    requires From(p, i, mark + (Text(pieces) + tail)) && Written(mark, pieces, tail)
    requires pieces != [] && tail != "" && tail[0] == ']' && j == i + |mark| + |Text(pieces)|
    ensures ReadBracket(p, i) == Closed(Class(mark != "", AllBounds(pieces)), j + 1)
  {
    MembersRead(p, i, mark, pieces, tail, j, ReadBracket(p, i));
    FromByte(p, j, tail, 0);
  }

  /** the end of the pattern leaves it open, */
  lemma OpenReads(p: string, i: nat, mark: string, pieces: seq<Piece>)
    requires From(p, i, mark + (Text(pieces) + "")) && Written(mark, pieces, "")
    ensures ReadBracket(p, i) == Unclosed
  {
    MembersRead(p, i, mark, pieces, "", i + |mark| + |Text(pieces)|, ReadBracket(p, i));
  }

  /** and `[:`, `[=` and `[.` refuse it. */
  lemma ClassRefused(p: string, i: nat, mark: string, pieces: seq<Piece>, tail: string, j: nat)
    requires From(p, i, mark + (Text(pieces) + tail)) && Written(mark, pieces, tail)
    requires tail != "" && tail[0] == '[' && NamesClass(tail[1..]) && j == i + |mark| + |Text(pieces)|
    ensures ReadBracket(p, i) == PosixClass
  {
    MembersRead(p, i, mark, pieces, tail, j, ReadBracket(p, i));
    FromByte(p, j, tail, 0);
    FromByte(p, j, tail, 1);
  }

  // ------------------------------------------------------ every bracket was so written

  lemma MarkWas(p: string, i: nat, c: char, j: nat) returns (m: Mark)
    requires i < |p| && BracketChar(p, i) == Some((c, j))
    ensures m.c == c && (!m.escaped ==> c == p[i] != '\\') && j == i + |MarkText(m)| <= |p|
    ensures From(p, i, MarkText(m) + p[j..])
  {
    m := Mark(c, p[i] == '\\');
    assert p[i..] == MarkText(m) + p[j..];
  }

  lemma PlainMarkStands(p: string, i: nat, m: Mark, first: bool, j: nat)
    requires i < |p| && (p[i] == ']' ==> first) && !OpensPosixClass(p, i) && j == i + |MarkText(m)| <= |p|
    requires !m.escaped ==> m.c == p[i] != '\\'
    ensures m.escaped || StandsPlain(m.c, first, p[j..])
  {
    if !m.escaped && p[j..] != "" {
      assert p[j..][0] == p[i + 1];
    }
  }

  lemma SingleWas(p: string, i: nat, c: char, j: nat, first: bool) returns (m: Mark)
    requires i < |p| && (p[i] == ']' ==> first) && !OpensPosixClass(p, i)
    requires BracketChar(p, i) == Some((c, j)) && !RangeAt(p, j)
    ensures From(p, i, PieceText(Single(m)) + p[j..]) && Stands(Single(m), first, p[j..])
  {
    m := MarkWas(p, i, c, j);
    PlainMarkStands(p, i, m, first, j);
    RangeAtIff(p, j, p[j..]);
  }

  lemma RangeWas(p: string, i: nat, lo: char, j: nat, hi: char, k: nat, first: bool) returns (a: Mark, b: Mark)
    requires i < |p| && (p[i] == ']' ==> first) && !OpensPosixClass(p, i)
    requires BracketChar(p, i) == Some((lo, j)) && RangeAt(p, j) && BracketChar(p, j + 1) == Some((hi, k))
    ensures From(p, i, PieceText(Range(a, b)) + p[k..]) && Stands(Range(a, b), first, p[k..])
  {
    a := MarkWas(p, i, lo, j);
    PlainMarkStands(p, i, a, first, j);
    b := MarkWas(p, j + 1, hi, k);
    assert p[j..] == "-" + p[j + 1..];
    assert p[i..] == PieceText(Range(a, b)) + p[k..];
  }

  lemma {:induction false} MembersWere(p: string, i: nat, first: bool, neg: bool, done: seq<(char, char)>)
    returns (pieces: seq<Piece>, tail: string)
    requires i <= |p| && Members(p, i, first, neg, done).Closed?
    ensures From(p, i, Text(pieces) + tail) && AllStand(pieces, first, tail)
    ensures tail != "" && tail[0] == ']' && (first ==> pieces != [])
    decreases |p| - i
  {
    if p[i] == ']' && !first {
      pieces, tail := [], p[i..];
      assert "" + tail == tail;
    } else {
      var (lo, j) := BracketChar(p, i).value;
      var one, next := Single(Mark(lo, false)), j;
      if RangeAt(p, j) {
        var (hi, k) := BracketChar(p, j + 1).value;
        var a, b := RangeWas(p, i, lo, j, hi, k, first);
        RangeStep(p, i, lo, j, hi, k, first, neg, done);
        one, next := Range(a, b), k;
      } else {
        var m := SingleWas(p, i, lo, j, first);
        SingleStep(p, i, lo, j, first, neg, done);
        one := Single(m);
      }
      var rest;
      rest, tail := MembersWere(p, next, false, neg, done + [(lo, if RangeAt(p, j) then BracketChar(p, j + 1).value.0 else lo)]);
      pieces := [one] + rest;
      assert pieces[1..] == rest;
      FirstPiece(pieces, one, rest, tail, []);
    }
  }

  lemma MarkWasRead(p: string, i: nat, mark: string, w: string)
    requires mark == (if Negates(p, i) then [p[i]] else "") && i + |mark| <= |p| && p[i + |mark|..] == w
    ensures IsMark(mark) && From(p, i, mark + w) && (mark == "" ==> !StartsNegated(w))
  {
    assert p[i..] == mark + w;
    if mark == "" && w != "" {
      assert w[0] == p[i];
    }
  }

  /** A bracket expression that closes was written as some members and a `]`, in
      front of which they stand; by `ClosedReads` those members are what it means. */
  lemma ClosedWasWritten(p: string, i: nat) returns (mark: string, pieces: seq<Piece>, tail: string)
    requires i <= |p| && ReadBracket(p, i).Closed?
    ensures Written(mark, pieces, tail) && pieces != [] && tail != "" && tail[0] == ']'
    ensures From(p, i, mark + (Text(pieces) + tail))
  {
    mark := if Negates(p, i) then [p[i]] else "";
    pieces, tail := MembersWere(p, i + |mark|, true, mark != "", []);
    MarkWasRead(p, i, mark, Text(pieces) + tail);
  }

  // -------------------------------------------------------- patterns that are brackets

  lemma OpensHere(p: string, w: string)
    requires p == "[" + w
    ensures From(p, 1, w) && p[0] == '['
  {
    assert p[1..] == w;
  }

  lemma BoundsCover(pieces: seq<Piece>, c: char)
    ensures InRanges(AllBounds(pieces), c) <==> exists k :: 0 <= k < |pieces| && Has(pieces[k], c)
  {
    var rs := AllBounds(pieces);
    if InRanges(rs, c) {
      var r :| r in rs && Covers(r, c);
      var k :| 0 <= k < |rs| && rs[k] == r;
      assert Has(pieces[k], c);
    }
    if k :| 0 <= k < |pieces| && Has(pieces[k], c) {
      assert rs[k] in rs && Covers(rs[k], c);
    }
  }

  /** A pattern of one bracket expression, as the matcher takes it. */
  lemma OneClassMatches(p: string, tok: Token, s: string)
    requires p != "" && p[0] == '[' && ReadBracket(p, 1) == Closed(tok, |p|)
    ensures Tokens(p, 0) == Some([tok])
    ensures Reference(p, 0, s, 0) <==> |s| == 1 && TakesByte(tok, s[0])
  {
    assert ReadToken(p, 0) == Some((tok, |p|)) && Tokens(p, |p|) == Some([]);
    assert [tok] + [] == [tok];
    if s != "" {
      assert Reference(p, |p|, s, 1) <==> |s| == 1;
    }
  }

  /**
   `[` or `[!` or `[^`, written members and `]`: never refused, and it matches
   exactly the one-byte strings that some member has, or that none has.
   */
  lemma BracketMatches(p: string, mark: string, pieces: seq<Piece>, s: string)
    requires Written(mark, pieces, "]") && pieces != [] && p == "[" + (mark + (Text(pieces) + "]"))
    ensures Tokens(p, 0).Some?
    ensures Reference(p, 0, s, 0)
       <==> |s| == 1 && (mark == "" <==> exists k :: 0 <= k < |pieces| && Has(pieces[k], s[0]))
  {
    OpensHere(p, mark + (Text(pieces) + "]"));
    ClosedReads(p, 1, mark, pieces, "]", |p| - 1);
    OneClassMatches(p, Class(mark != "", AllBounds(pieces)), s);
    if |s| == 1 {
      BoundsCover(pieces, s[0]);
    }
  }

  lemma OpenFirst(p: string)
    requires p != "" && p[0] == '[' && ReadBracket(p, 1).Unclosed?
    ensures ReadToken(p, 0) == Some((Literal('['), 1))
  {
  }

  /** Without the `]` the `[` stands for itself. */
  lemma OpenBracketIsLiteral(p: string, mark: string, pieces: seq<Piece>)
    requires Written(mark, pieces, "") && p == "[" + (mark + (Text(pieces) + ""))
    ensures ReadToken(p, 0) == Some((Literal('['), 1))
  {
    OpensHere(p, mark + (Text(pieces) + ""));
    OpenReads(p, 1, mark, pieces);
    OpenFirst(p);
  }

  lemma RefusedFirst(p: string)
    requires p != "" && p[0] == '[' && ReadBracket(p, 1).PosixClass?
    ensures Tokens(p, 0).None?
  {
    assert ReadToken(p, 0).None?;
  }

  /** A POSIX class among the members refuses the pattern, whatever follows. */
  lemma PosixClassIsRefused(p: string, mark: string, pieces: seq<Piece>, tail: string)
    requires Written(mark, pieces, tail) && p == "[" + (mark + (Text(pieces) + tail))
    requires tail != "" && tail[0] == '[' && NamesClass(tail[1..])
    ensures Tokens(p, 0).None?
  {
    OpensHere(p, mark + (Text(pieces) + tail));
    ClassRefused(p, 1, mark, pieces, tail, 1 + |mark| + |Text(pieces)|);
    RefusedFirst(p);
  }

  // ----------------------------------------------------------------- plain brackets

  function Singles(t: string): (pieces: seq<Piece>)
    ensures |pieces| == |t|
    ensures forall k :: 0 <= k < |t| ==> pieces[k] == Single(Mark(t[k], false))
  {
    seq(|t|, k requires 0 <= k < |t| => Single(Mark(t[k], false)))
  }

  /** A byte that means nothing but itself wherever it stands among members. */
  predicate IsPlain(c: char) {
    c != '\\' && c != ']' && c != '[' && c != '-'
  }

  ghost predicate AllPlain(t: string) {
    forall k :: 0 <= k < |t| ==> IsPlain(t[k])
  }

  lemma OneInFront(c: char, rest: seq<Piece>, pieces: seq<Piece>, first: bool, tail: string)
    requires pieces == [Single(Mark(c, false))] + rest
    requires IsPlain(c) && AllStand(rest, false, tail) && !ExtendsToRange(Text(rest) + tail)
    ensures AllStand(pieces, first, tail) && Text(pieces) == [c] + Text(rest)
  {
    assert pieces[1..] == rest;
  }

  lemma PlainStartsNoRange(t: string, more: string, tail: string)
    requires AllPlain(t) && t != ""
    ensures !ExtendsToRange(t + more + tail)
  {
    assert (t + more + tail)[0] == t[0];
  }

  lemma {:induction false} SinglesStand(t: string, more: seq<Piece>, first: bool, tail: string)
    requires AllPlain(t) && AllStand(more, first && t == "", tail) && !ExtendsToRange(Text(more) + tail)
    ensures Text(Singles(t) + more) == t + Text(more) && AllStand(Singles(t) + more, first, tail)
    decreases |t|
  {
    if t == "" {
      assert Singles(t) + more == more && t + Text(more) == Text(more);
    } else {
      var rest := t[1..];
      SinglesStand(rest, more, false, tail);
      if rest != "" {
        PlainStartsNoRange(rest, Text(more), tail);
      } else {
        assert rest + Text(more) == Text(more);
      }
      assert Singles(t) + more == [Single(Mark(t[0], false))] + (Singles(rest) + more);
      OneInFront(t[0], Singles(rest) + more, Singles(t) + more, first, tail);
      assert t == [t[0]] + rest;
      JoinAssociates([t[0]], rest, Text(more));
    }
  }

  /** `[abc]` matches one of those bytes, `[!abc]` and `[^abc]` one other byte. */
  lemma PlainBracketMatches(p: string, mark: string, t: string, s: string)
    requires IsMark(mark) && t != "" && AllPlain(t) && (mark == "" ==> !StartsNegated(t))
    requires p == "[" + (mark + (t + "]"))
    ensures Tokens(p, 0).Some?
    ensures Reference(p, 0, s, 0) <==> |s| == 1 && (mark == "" <==> s[0] in t)
  {
    var pieces := Singles(t);
    SinglesStand(t, [], true, "]");
    assert pieces + [] == pieces && t + "" == t;
    BracketMatches(p, mark, pieces, s);
    if |s| == 1 {
      SomeSingleHas(t, s[0]);
    }
  }

  lemma SomeSingleHas(t: string, c: char)
    ensures c in t <==> exists k :: 0 <= k < |t| && Has(Singles(t)[k], c)
  {
    if c in t {
      var k :| 0 <= k < |t| && t[k] == c;
      assert Has(Singles(t)[k], c);
    }
  }

  /** `[a-z]` matches one byte between the two, `[!a-z]` and `[^a-z]` one outside. */
  lemma PlainRangeMatches(p: string, mark: string, lo: char, hi: char, s: string)
    requires IsMark(mark) && lo != '\\' && lo != ']' && hi != '\\' && hi != ']'
    requires mark == "" ==> lo != '!' && lo != '^'
    requires p == "[" + (mark + ([lo, '-', hi] + "]"))
    ensures Tokens(p, 0).Some?
    ensures Reference(p, 0, s, 0) <==> |s| == 1 && (mark == "" <==> lo <= s[0] <= hi)
  {
    var pieces := [Range(Mark(lo, false), Mark(hi, false))];
    assert pieces[1..] == [] && Text(pieces) == [lo, '-', hi];
    BracketMatches(p, mark, pieces, s);
    if |s| == 1 {
      assert Has(pieces[0], s[0]) <==> lo <= s[0] <= hi;
    }
  }

  /** A `]` in front and a `-` at the end are members like any other. */
  lemma EdgesAreMembers(p: string, mark: string, t: string, s: string)
    requires IsMark(mark) && AllPlain(t) && p == "[" + (mark + ("]" + t + "-" + "]"))
    ensures Tokens(p, 0).Some?
    ensures Reference(p, 0, s, 0) <==> |s| == 1 && (mark == "" <==> s[0] == ']' || s[0] in t || s[0] == '-')
  {
    var front, last := Single(Mark(']', false)), Single(Mark('-', false));
    var inner := Singles(t) + [last];
    var pieces := [front] + inner;
    assert [last][1..] == [] && Text([last]) == "-";
    SinglesStand(t, [last], false, "]");
    assert pieces[1..] == inner && Text(pieces) == "]" + (t + "-");
    assert "]" + t + "-" == "]" + (t + "-");
    BracketMatches(p, mark, pieces, s);
    if |s| == 1 {
      EdgesHave(pieces, front, t, last, s[0]);
    }
  }

  lemma EdgesHave(pieces: seq<Piece>, front: Piece, t: string, last: Piece, c: char)
    requires pieces == [front] + (Singles(t) + [last])
    ensures (exists k :: 0 <= k < |pieces| && Has(pieces[k], c)) <==> Has(front, c) || c in t || Has(last, c)
  {
    assert pieces[0] == front && pieces[|t| + 1] == last;
    assert forall k :: 0 <= k < |t| ==> pieces[k + 1] == Singles(t)[k];
    SomeSingleHas(t, c);
    if c in t {
      var k :| 0 <= k < |t| && Has(Singles(t)[k], c);
      assert Has(pieces[k + 1], c);
    }
  }
}
