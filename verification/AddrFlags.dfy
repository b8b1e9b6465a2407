/**
 The flag words of the address selectors (get_filter in
 internal/goip/addr_filter.go): `permanent`, `-tentative`, `dynamic` and so on,
 folded into a word of wanted values and a mask of the bits that matter.

 Any number of words may be given, in any order. `Named` says what the last
 word naming a bit asked of it; the folded words and the xor-and-mask test are
 shown to mean exactly that, bit by bit.
 */
module AddrFlags {
  import opened Shared
  import opened AddrPrefix
  import opened AddrFilter
  import GlobCompile

  /** A flag table: a partial map from name to mask. */
  type Table = string -> Option<Bits>

  /** A word naming a flag: its mask, and whether the bits are wanted set. */
  datatype Ask = Ask(mask: Bits, wanted: bool)

  /** What a word asks for: one leading `-` inverts, and so do `dynamic` and `primary`. */
  function ReadWord(word: string, table: Table): Option<Ask> {
    var inv := |word| > 0 && word[0] == '-';
    var name := if inv then word[1..] else word;
    var opposite := name == "dynamic" || name == "primary";
    var row := if name == "dynamic" then "permanent" else if name == "primary" then "secondary" else name;
    match table(row)
    case None => None
    case Some(mask) => Some(Ask(mask, inv == opposite))
  }

  datatype Flags = Flags(flags: Bits, flagmask: Bits)

  function Folded(start: Flags, asks: seq<Ask>): Flags {
    if asks == [] then start
    else
      var before, last := Folded(start, asks[..|asks| - 1]), asks[|asks| - 1];
      Flags(if last.wanted then before.flags + last.mask else before.flags - last.mask,
            before.flagmask + last.mask)
  }

  const NOTHING := Flags({}, {})

  /** The two words of addrFilter that get_filter writes. */
  class FlagFilter {
    var flags: Bits
    var flagmask: Bits
    /** What the flag words read so far asked for. */
    ghost var asks: seq<Ask>

    ghost predicate Valid()
      reads this
    {
      Flags(flags, flagmask) == Folded(NOTHING, asks)
    }

    constructor ()
      ensures Valid() && asks == []
    {
      flags, flagmask, asks := {}, {}, [];
    }

    /** getFilter: a word that names no flag changes nothing. */
    method GetFilter(word: string, table: Table) returns (isFlag: bool)
      requires Valid()
      modifies this
      ensures Valid()
      ensures isFlag <==> ReadWord(word, table).Some?
      ensures asks == if isFlag then old(asks) + [ReadWord(word, table).value] else old(asks)
    {
      var inv := false;
      var name := word;
      if |word| > 0 && word[0] == '-' {
        inv := true;
        name := word[1..];
      }
      if name == "dynamic" {
        inv := !inv;
        name := "permanent";
      } else if name == "primary" {
        inv := !inv;
        name := "secondary";
      }
      var mask := table(name);
      if mask.None? {
        return false;
      }
      ghost var ask := Ask(mask.value, !inv);
      assert ReadWord(word, table) == Some(ask);
      assert (asks + [ask])[..|asks|] == asks;
      asks := asks + [ask];
      if inv {
        flags := flags - mask.value;
      } else {
        flags := flags + mask.value;
      }
      flagmask := flagmask + mask.value;
      isFlag := true;
    }
  }

  // ------------------------------------------------------------------------- meaning

  /** The bits of a row, wanted set or clear. */
  function Want(row: Option<Bits>, wanted: bool): Option<Ask> {
    if row.Some? then Some(Ask(row.value, wanted)) else None
  }

  /** A name asks for its bits and `-` before it for their opposite; `dynamic` is
      the opposite of `permanent`, and `primary` that of `secondary`. */
  lemma WordsMean(name: string, table: Table)
    ensures name != "dynamic" && name != "primary" ==> ReadWord("-" + name, table) == Want(table(name), false)
    ensures name != "dynamic" && name != "primary" && !("-" <= name) ==> ReadWord(name, table) == Want(table(name), true)
    ensures ReadWord("dynamic", table) == Want(table("permanent"), false)
    ensures ReadWord("-dynamic", table) == Want(table("permanent"), true)
    ensures ReadWord("primary", table) == Want(table("secondary"), false)
    ensures ReadWord("-primary", table) == Want(table("secondary"), true)
  {
    assert ("-" + name)[1..] == name;
    assert "-dynamic"[1..] == "dynamic" && "-primary"[1..] == "primary";
    if name != "" && name[0] == '-' {
      assert "-" <= name;
    }
  }

  /** The value the last ask that names bit `b` wants of it. */
  function Named(asks: seq<Ask>, b: nat): Option<bool> {
    if asks == [] then None
    else
      var last := asks[|asks| - 1];
      if b in last.mask then Some(last.wanted) else Named(asks[..|asks| - 1], b)
  }

  /** Each bit has the polarity of the last word naming it, and only named bits count. */
  lemma {:induction false} LastWordWins(asks: seq<Ask>, b: nat)
    ensures b in Folded(NOTHING, asks).flagmask <==> Named(asks, b).Some?
    ensures b in Folded(NOTHING, asks).flags <==> Named(asks, b) == Some(true)
    decreases |asks|
  {
    if asks != [] {
      LastWordWins(asks[..|asks| - 1], b);
    }
  }

  /** Flags outside the mask are never set. */
  lemma FlagsStayInMask(asks: seq<Ask>)
    ensures Folded(NOTHING, asks).flags <= Folded(NOTHING, asks).flagmask
  {
    forall b | b in Folded(NOTHING, asks).flags ensures b in Folded(NOTHING, asks).flagmask {
      LastWordWins(asks, b);
    }
  }

  /** The address flags agree with every bit a word named. */
  ghost predicate Satisfies(asks: seq<Ask>, word: Bits) {
    forall b: nat :: Named(asks, b).Some? ==> (b in word <==> Named(asks, b).value)
  }

  /** The xor-and-mask test accepts exactly the addresses that agree with every named bit. */
  lemma FlagTestMeansNamed(asks: seq<Ask>, word: Bits)
    ensures FlagsPass(Folded(NOTHING, asks).flags, Folded(NOTHING, asks).flagmask, word)
       <==> Satisfies(asks, word)
  {
    var f := Folded(NOTHING, asks);
    forall b: nat
      ensures (b in f.flagmask <==> Named(asks, b).Some?) && (b in f.flags <==> Named(asks, b) == Some(true))
    {
      LastWordWins(asks, b);
    }
    if FlagsPass(f.flags, f.flagmask, word) {
      forall b: nat | Named(asks, b).Some? ensures b in word <==> Named(asks, b).value {
        assert b !in Xor(f.flags, word) * f.flagmask;
      }
    } else {
      var b :| b in Xor(f.flags, word) * f.flagmask;
      assert Named(asks, b).Some?;
    }
  }

  // ------------------------------------------------------- which addresses are selected

  /** The words of a scope selector: `scope X` tests every bit and `scope all` none. */
  predicate Scoped(f: Filter, scope: Option<bv8>) {
    if scope.Some? then f.scope == scope.value && f.scopemask == 0xffff_ffff else f.scopemask == 0
  }

  /** The address a reply is about: the local one where there is one. */
  ghost predicate AddressPasses(f: Filter, ai: AddrInfo) {
    (ai.local.Some? && InPrefix(f.pfx, ai.local)) || (ai.local.None? && InPrefix(f.pfx, ai.address))
  }

  /** An address has what the selectors ask of it, selector by selector. */
  ghost predicate Meets(f: Filter, ai: AddrInfo, names: Names, asks: seq<Ask>, scope: Option<bv8>) {
    && f.family in {0, ai.family}
    && (scope == None || scope == Some(ai.scope))
    && Satisfies(asks, ai.flags)
    && (f.pattern.Some? ==>
          && GlobCompile.Tokens(f.pattern.value, 0).Some?
          && GlobCompile.Reference(f.pattern.value, 0, if ai.labelText != "" then ai.labelText else names(CInt(ai.index)), 0))
    && (f.proto == None || !ai.hasProto || f.proto == Some(ai.proto))
    && AddressPasses(f, ai)
  }

  lemma ScopeMeans(f: Filter, ai: AddrInfo, scope: Option<bv8>)
    requires Scoped(f, scope)
    ensures ScopePasses(f, ai) <==> scope == None || scope == Some(ai.scope)
  {
    var x := f.scope ^ ai.scope;
    assert (x as bv32) & 0xffff_ffff == x as bv32;
    assert x == 0 <==> f.scope == ai.scope;
    assert x as bv32 == 0 <==> x == 0;
  }

  /** Which address a flush deletes, and which is shown under a link. */
  lemma SelectedIff(f: Filter, ai: AddrInfo, li: Link, names: Names, asks: seq<Ask>, scope: Option<bv8>)
    requires Flags(f.flags, f.flagmask) == Folded(NOTHING, asks) && Scoped(f, scope)
    ensures AddrFlushed(f, ai, names) <==> f.ifindex in {0, ai.index} && Meets(f, ai, names, asks, scope)
    ensures AddrShown(f, ai, li, names)
       <==> li.index == CInt(ai.index) && f.ifindex in {0, CInt(ai.index)} && Meets(f, ai, names, asks, scope)
  {
    FlagTestMeansNamed(asks, ai.flags);
    ScopeMeans(f, ai, scope);
  }
}
