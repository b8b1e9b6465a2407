/**
 The selectors of `ip address show` and `ip address flush`
 (internal/goip/addr_filter.go), and the grouping loop of `show`
 (internal/goip/obj_addr.go).

 The grouping runs in two passes: `KeepLinks` throws whole links away, then the
 loop tests every address of those left. The theorem is that the first pass
 never costs an address: the grouped pairs are those of a single loop that has
 no first pass.
 */
module AddrFilter {
  import opened Shared
  import opened AddrPrefix
  import GlobCompile

  const AF_PACKET: nat := 17
  /** The bit numbers set in a 32-bit word. */
  type Bits = set<nat>

  const IFF_UP: nat := 0

  function Xor(a: Bits, b: Bits): Bits {
    (a - b) + (b - a)
  }

  datatype AddrInfo = AddrInfo(
    family: nat, prefixlen: nat, index: nat, scope: bv8, flags: Bits, labelText: string,
    local: Option<Octets>, address: Option<Octets>, hasProto: bool, proto: nat)

  datatype Link = Link(
    index: int, name: string, flags: Bits, hasGroup: bool, group: nat, master: int,
    hasLinkInfo: bool, kind: string, slaveKind: string)

  /** What the keyword loop leaves. An absent selector is None; `group` is -1 for none. */
  datatype Filter = Filter(
    family: nat, ifindex: int, pfx: InetPrefix, scope: bv8, scopemask: bv32,
    flags: Bits, flagmask: Bits, up: bool, down: bool, pattern: Option<string>,
    group: int, master: int, kind: Option<string>, slaveKind: Option<string>, proto: Option<nat>)

  /** ll_index_to_name as it answers at one moment. */
  type Names = int -> string

  /** A uint32 read as a C int. */
  function CInt(n: nat): (i: int)
    ensures -0x8000_0000 <= i < 0x8000_0000 && (n - i) % 0x1_0000_0000 == 0
  {
    if n % 0x1_0000_0000 >= 0x8000_0000 then n % 0x1_0000_0000 - 0x1_0000_0000 else n % 0x1_0000_0000
  }

  // ------------------------------------------------------------------ address tests

  function AddrLocal(ai: AddrInfo): Option<Octets> {
    if ai.local.Some? then ai.local else ai.address
  }

  ghost predicate LabelPasses(f: Filter, ai: AddrInfo, names: Names) {
    f.pattern.Some? ==>
      var text := if ai.labelText == "" then names(CInt(ai.index)) else ai.labelText;
      && GlobCompile.Tokens(f.pattern.value, 0).Some?
      && GlobCompile.Reference(f.pattern.value, 0, text, 0)
  }

  predicate ScopePasses(f: Filter, ai: AddrInfo) {
    ((f.scope ^ ai.scope) as bv32) & f.scopemask == 0
  }

  predicate FlagsPass(flags: Bits, flagmask: Bits, word: Bits) {
    Xor(flags, word) * flagmask == {}
  }

  /** The test the link pass and the address pass share. */
  ghost predicate Common(f: Filter, ai: AddrInfo, names: Names) {
    && (f.family == AF_UNSPEC || f.family == ai.family)
    && ScopePasses(f, ai)
    && FlagsPass(f.flags, f.flagmask, ai.flags)
    && LabelPasses(f, ai, names)
    && InPrefix(f.pfx, AddrLocal(ai))
  }

  predicate ProtoPasses(f: Filter, ai: AddrInfo) {
    f.proto.Some? && ai.hasProto ==> ai.proto == f.proto.value
  }

  /** An address is shown under a link. */
  ghost predicate AddrShown(f: Filter, ai: AddrInfo, li: Link, names: Names) {
    && CInt(ai.index) == li.index
    && (f.ifindex != 0 ==> CInt(ai.index) == f.ifindex)
    && Common(f, ai, names)
    && ProtoPasses(f, ai)
  }

  /** An address is flushed. */
  ghost predicate AddrFlushed(f: Filter, ai: AddrInfo, names: Names) {
    && (f.ifindex != 0 ==> ai.index as int == f.ifindex)
    && Common(f, ai, names)
    && ProtoPasses(f, ai)
  }

  /** The label test of matchCommon. A pattern the matcher refuses passes nothing. */
  method MatchLabel(f: Filter, ai: AddrInfo, names: Names) returns (pass: bool)
    ensures pass <==> LabelPasses(f, ai, names)
  {
    if f.pattern.None? {
      return true;
    }
    var text := ai.labelText;
    if text == "" {
      text := names(CInt(ai.index));
    }
    var ok := GlobCompile.Fnmatch(f.pattern.value, text);
    pass := ok.Some? && ok.value;
  }

  /** matchCommon. */
  method MatchCommon(f: Filter, ai: AddrInfo, names: Names) returns (pass: bool)
    ensures pass <==> Common(f, ai, names)
  {
    if (f.family != AF_UNSPEC && f.family != ai.family)
       || !ScopePasses(f, ai)
       || !FlagsPass(f.flags, f.flagmask, ai.flags) {
      return false;
    }
    var labelled := MatchLabel(f, ai, names);
    if !labelled {
      return false;
    }
    pass := PrefixMatch(f.pfx, AddrLocal(ai));
  }

  method MatchAddr(f: Filter, ai: AddrInfo, li: Link, names: Names) returns (pass: bool)
    ensures pass <==> AddrShown(f, ai, li, names)
  {
    if CInt(ai.index) != li.index || (f.ifindex != 0 && CInt(ai.index) != f.ifindex) {
      return false;
    }
    var common := MatchCommon(f, ai, names);
    pass := common && (f.proto.None? || !ai.hasProto || ai.proto == f.proto.value);
  }

  method MatchFlush(f: Filter, ai: AddrInfo, names: Names) returns (pass: bool)
    ensures pass <==> AddrFlushed(f, ai, names)
  {
    if f.ifindex != 0 && ai.index as int != f.ifindex {
      return false;
    }
    var common := MatchCommon(f, ai, names);
    pass := common && (f.proto.None? || !ai.hasProto || ai.proto == f.proto.value);
  }

  // --------------------------------------------------------------------- link tests

  datatype LinkMode = Skip | Headerless | Printed

  function KindMatches(li: Link, kind: string, slave: bool): bool {
    li.hasLinkInfo && (if slave then li.slaveKind == kind else li.kind == kind)
  }

  predicate GroupPasses(f: Filter, li: Link) {
    li.hasGroup && f.group != -1 ==> CInt(li.group) == f.group
  }

  /** linkMode: print_linkinfo's filter in its order; a label ends it early. */
  function Mode(f: Filter, li: Link): LinkMode {
    if || (f.ifindex != 0 && li.index != f.ifindex)
       || (f.up && IFF_UP !in li.flags)
       || (f.down && IFF_UP in li.flags)
       || li.name == "" then Skip
    else if f.pattern.Some? then Headerless
    else if || !GroupPasses(f, li)
            || (f.master > 0 && li.master != f.master)
            || (f.kind.Some? && !KindMatches(li, f.kind.value, false))
            || (f.slaveKind.Some? && !KindMatches(li, f.slaveKind.value, true)) then Skip
    else Printed
  }

  /** A link passes a selector: `dev`, `up`, `down`, `group`, `master`, `type` and
      the type of a slave, each in turn. */
  datatype Selector = ByIndex | ByUp | ByDown | ByGroup | ByMaster | ByKind | BySlaveKind

  predicate Passes(s: Selector, f: Filter, li: Link) {
    match s
    case ByIndex => f.ifindex in {0, li.index}
    case ByUp => f.up ==> 0 in li.flags
    case ByDown => f.down ==> 0 !in li.flags
    case ByGroup => f.group == -1 || !li.hasGroup || f.group == CInt(li.group)
    case ByMaster => f.master <= 0 || f.master == li.master
    case ByKind => f.kind.None? || (li.hasLinkInfo && f.kind.value == li.kind)
    case BySlaveKind => f.slaveKind.None? || (li.hasLinkInfo && f.slaveKind.value == li.slaveKind)
  }

  /** With a label only the device and its state are looked at; without one every
      selector is. A link without a name is never shown. */
  predicate LooksAt(s: Selector, f: Filter) {
    f.pattern.Some? ==> s.ByIndex? || s.ByUp? || s.ByDown?
  }

  /** What becomes of a link, from the selectors one by one. */
  lemma ModeIff(f: Filter, li: Link)
    ensures Mode(f, li).Skip? <==> li.name == "" || exists s :: LooksAt(s, f) && !Passes(s, f, li)
    ensures Mode(f, li).Headerless? ==> f.pattern.Some?
    ensures Mode(f, li).Printed? ==> f.pattern.None?
  {
    assert Passes(ByIndex, f, li) <==> f.ifindex == 0 || f.ifindex == li.index;
    assert LooksAt(ByIndex, f) && LooksAt(ByUp, f) && LooksAt(ByDown, f);
    if f.pattern.None? {
      assert LooksAt(ByGroup, f) && LooksAt(ByMaster, f) && LooksAt(ByKind, f) && LooksAt(BySlaveKind, f);
    }
    if s :| LooksAt(s, f) && !Passes(s, f, li) {
      match s
      case ByIndex =>
      case ByUp =>
      case ByDown =>
      case ByGroup =>
      case ByMaster =>
      case ByKind =>
      case BySlaveKind =>
    }
  }

  // ------------------------------------------------------------------ the first pass

  ghost predicate OwnsPassing(f: Filter, li: Link, addrs: seq<AddrInfo>, names: Names) {
    exists j :: 0 <= j < |addrs| && CInt(addrs[j].index) == li.index && Common(f, addrs[j], names)
  }

  ghost predicate OwnsNone(li: Link, addrs: seq<AddrInfo>) {
    forall j :: 0 <= j < |addrs| ==> CInt(addrs[j].index) != li.index
  }

  /** A link survives ipaddr_filter: an address of its own passes, or it has
      none at all and the family is not a network one. */
  ghost predicate Survives(f: Filter, li: Link, addrs: seq<AddrInfo>, names: Names) {
    || OwnsPassing(f, li, addrs, names)
    || (OwnsNone(li, addrs) && (f.family == AF_UNSPEC || f.family == AF_PACKET))
  }

  ghost predicate Owns(li: Link, ai: AddrInfo) {
    li.index == CInt(ai.index)
  }

  /** A link with addresses survives by one that passes; one with none survives under
      no family (0) and AF_PACKET (17). */
  lemma SurvivesIff(f: Filter, li: Link, addrs: seq<AddrInfo>, names: Names)
    ensures (exists ai :: ai in addrs && Owns(li, ai)) ==>
              (Survives(f, li, addrs, names) <==> exists ai :: ai in addrs && Owns(li, ai) && Common(f, ai, names))
    ensures (forall ai :: ai in addrs ==> !Owns(li, ai)) ==>
              (Survives(f, li, addrs, names) <==> f.family == 0 || f.family == 17)
  {
    if ai :| ai in addrs && Owns(li, ai) {
      var j :| 0 <= j < |addrs| && addrs[j] == ai;
      assert !OwnsNone(li, addrs);
    }
    if OwnsPassing(f, li, addrs, names) {
      var j :| 0 <= j < |addrs| && CInt(addrs[j].index) == li.index && Common(f, addrs[j], names);
      assert addrs[j] in addrs && Owns(li, addrs[j]);
    }
    if ai :| ai in addrs && Owns(li, ai) && Common(f, ai, names) {
      var j :| 0 <= j < |addrs| && addrs[j] == ai;
      assert OwnsPassing(f, li, addrs, names);
    }
    if forall ai :: ai in addrs ==> !Owns(li, ai) {
      forall j | 0 <= j < |addrs| ensures CInt(addrs[j].index) != li.index {
        assert addrs[j] in addrs && !Owns(li, addrs[j]);
      }
    }
  }

  method LinkHasAddr(f: Filter, li: Link, addrs: seq<AddrInfo>, names: Names) returns (keep: bool)
    ensures keep <==> Survives(f, li, addrs, names)
  {
    var missing := true;
    var j := 0;
    while j < |addrs|
      invariant 0 <= j <= |addrs|
      invariant missing <==> OwnsNone(li, addrs[..j])
      invariant forall k :: 0 <= k < j && CInt(addrs[k].index) == li.index ==> !Common(f, addrs[k], names)
    {
      assert addrs[..j + 1] == addrs[..j] + [addrs[j]];
      if CInt(addrs[j].index) == li.index {
        assert addrs[..j + 1][j] == addrs[j];
        missing := false;
        var pass := MatchCommon(f, addrs[j], names);
        if pass {
          return true;
        }
      }
      j := j + 1;
    }
    assert addrs[..j] == addrs;
    keep := missing && (f.family == AF_UNSPEC || f.family == AF_PACKET);
  }

  ghost predicate Kept(f: Filter, li: Link, addrs: seq<AddrInfo>, names: Names, filterAddrs: bool) {
    (filterAddrs ==> Survives(f, li, addrs, names)) && GroupPasses(f, li)
  }

  /** The first `n` elements a test keeps, and what the first `n` contribute. */
  ghost function Filtered<X>(xs: seq<X>, keep: X -> bool, n: nat): seq<X>
    requires n <= |xs|
  {
    if n == 0 then [] else Filtered(xs, keep, n - 1) + (if keep(xs[n - 1]) then [xs[n - 1]] else [])
  }

  ghost function Concat<X, Y>(xs: seq<X>, part: X -> seq<Y>, n: nat): seq<Y>
    requires n <= |xs|
  {
    if n == 0 then [] else Concat(xs, part, n - 1) + part(xs[n - 1])
  }

  ghost function Keeps(f: Filter, addrs: seq<AddrInfo>, names: Names, filterAddrs: bool): Link -> bool {
    li => Kept(f, li, addrs, names, filterAddrs)
  }

  /** keepLinks: ipaddr_filter, then group_filter. */
  method KeepLinks(f: Filter, links: seq<Link>, addrs: seq<AddrInfo>, names: Names, filterAddrs: bool)
    returns (out: seq<Link>)
    ensures out == Filtered(links, Keeps(f, addrs, names, filterAddrs), |links|)
  {
    out := [];
    var i := 0;
    while i < |links|
      invariant 0 <= i <= |links|
      invariant out == Filtered(links, Keeps(f, addrs, names, filterAddrs), i)
    {
      var keep := true;
      if filterAddrs {
        keep := LinkHasAddr(f, links[i], addrs, names);
      }
      if keep && !(f.group != -1 && links[i].hasGroup && CInt(links[i].group) != f.group) {
        out := out + [links[i]];
      }
      i := i + 1;
    }
  }

  // ----------------------------------------------------------------- the second pass

  /** The addresses shown under a link, in dump order. */
  ghost function ShownAddrs(f: Filter, li: Link, addrs: seq<AddrInfo>, names: Names, m: nat): seq<AddrInfo>
    requires m <= |addrs|
  {
    if m == 0 then []
    else
      ShownAddrs(f, li, addrs, names, m - 1)
        + (if AddrShown(f, addrs[m - 1], li, names) then [addrs[m - 1]] else [])
  }

  function Tag(li: Link, addrs: seq<AddrInfo>): seq<(Link, AddrInfo)> {
    seq(|addrs|, i requires 0 <= i < |addrs| => (li, addrs[i]))
  }

  datatype Group = Group(link: Link, headerless: bool, addrs: seq<AddrInfo>)

  function Pairs(groups: seq<Group>): seq<(Link, AddrInfo)> {
    if groups == [] then []
    else
      var last := groups[|groups| - 1];
      Pairs(groups[..|groups| - 1]) + Tag(last.link, last.addrs)
  }

  /** What a link contributes to the second pass: the link test and the address test. */
  ghost function Shows(f: Filter, addrs: seq<AddrInfo>, names: Names): Link -> seq<(Link, AddrInfo)> {
    li => if Mode(f, li).Skip? then [] else Tag(li, ShownAddrs(f, li, addrs, names, |addrs|))
  }

  /** What it contributes to one pass with no pre-filter: the group test besides. */
  ghost function ShowsAlone(f: Filter, addrs: seq<AddrInfo>, names: Names): Link -> seq<(Link, AddrInfo)> {
    li => if GroupPasses(f, li) then Shows(f, addrs, names)(li) else []
  }

  ghost function OnePass(f: Filter, links: seq<Link>, addrs: seq<AddrInfo>, names: Names): seq<(Link, AddrInfo)> {
    Concat(links, ShowsAlone(f, addrs, names), |links|)
  }

  /** Without a label no test reads a name. */
  lemma {:induction false} NamesOnlyForLabels(f: Filter, li: Link, addrs: seq<AddrInfo>, a: Names, b: Names, m: nat)
    requires f.pattern.None? && m <= |addrs|
    ensures ShownAddrs(f, li, addrs, a, m) == ShownAddrs(f, li, addrs, b, m)
    decreases m
  {
    if m > 0 {
      NamesOnlyForLabels(f, li, addrs, a, b, m - 1);
    }
  }

  method AddrsUnder(f: Filter, li: Link, addrs: seq<AddrInfo>, names: Names) returns (out: seq<AddrInfo>)
    ensures out == ShownAddrs(f, li, addrs, names, |addrs|)
  {
    out := [];
    var j := 0;
    while j < |addrs|
      invariant 0 <= j <= |addrs|
      invariant out == ShownAddrs(f, li, addrs, names, j)
    {
      var pass := MatchAddr(f, addrs[j], li, names);
      if pass {
        out := out + [addrs[j]];
      }
      j := j + 1;
    }
  }

  /**
   The grouping loop of renderAddrGroups over the links the first pass kept.
   Printing a link may send gets that fill the name cache, so `resolve` gives
   the names known after it; a headerless link sends none.
   */
  method GroupKept(f: Filter, links: seq<Link>, addrs: seq<AddrInfo>, names: Names, resolve: (Names, Link) -> Names)
    returns (groups: seq<Group>)
    ensures Pairs(groups) == Concat(links, Shows(f, addrs, names), |links|)
    ensures LinksOf(groups) == Filtered(links, Lists(f), |links|)
    ensures HeadersMatch(f, groups)
  {
    ghost var part := Shows(f, addrs, names);
    groups := [];
    var cur := names;
    var i := 0;
    while i < |links|
      invariant 0 <= i <= |links|
      invariant f.pattern.Some? ==> cur == names
      invariant Grouped(f, links, part, groups, i)
    {
      var more;
      cur, more := GroupLink(f, links[i], addrs, cur, resolve, names);
      GroupedStep(f, links, part, groups, i, more);
      groups := groups + more;
      i := i + 1;
    }
  }

  /** The groups of the first `i` links, each link contributing `part` of it. */
  ghost predicate Grouped(f: Filter, links: seq<Link>, part: Link -> seq<(Link, AddrInfo)>, groups: seq<Group>, i: nat)
    requires i <= |links|
  {
    && Pairs(groups) == Concat(links, part, i)
    && LinksOf(groups) == Filtered(links, Lists(f), i)
    && HeadersMatch(f, groups)
  }

  lemma GroupedStep(f: Filter, links: seq<Link>, part: Link -> seq<(Link, AddrInfo)>, groups: seq<Group>, i: nat,
                    more: seq<Group>)
    requires i < |links| && Grouped(f, links, part, groups, i)
    requires Pairs(more) == part(links[i]) && HeadersMatch(f, more)
    requires LinksOf(more) == if Lists(f)(links[i]) then [links[i]] else []
    ensures Grouped(f, links, part, groups + more, i + 1)
  {
    PairsAppend(groups, more);
    HeadersAppend(f, groups, more);
  }

  /** The links that get a group, one each. */
  function LinksOf(groups: seq<Group>): seq<Link> {
    seq(|groups|, i requires 0 <= i < |groups| => groups[i].link)
  }

  ghost function Lists(f: Filter): Link -> bool {
    li => !Mode(f, li).Skip?
  }

  /** The links listed: kept by the first pass and not skipped by the second. */
  ghost function ListsKept(f: Filter, addrs: seq<AddrInfo>, names: Names, filterAddrs: bool): Link -> bool {
    li => Kept(f, li, addrs, names, filterAddrs) && !Mode(f, li).Skip?
  }

  /** A link is listed exactly when the first pass keeps it, it has a name, and every
      selector that is looked at passes it. */
  lemma ListedIff(f: Filter, li: Link, addrs: seq<AddrInfo>, names: Names, filterAddrs: bool)
    ensures ListsKept(f, addrs, names, filterAddrs)(li) <==>
              && (filterAddrs ==> Survives(f, li, addrs, names)) && Passes(ByGroup, f, li)
              && li.name != "" && forall s :: LooksAt(s, f) ==> Passes(s, f, li)
  {
    ModeIff(f, li);
  }

  lemma {:induction false} FilteredPrefix<X>(xs: seq<X>, x: X, keep: X -> bool, n: nat)
    requires n <= |xs|
    ensures Filtered(xs + [x], keep, n) == Filtered(xs, keep, n)
    decreases n
  {
    if n > 0 {
      FilteredPrefix(xs, x, keep, n - 1);
    }
  }

  /** Filtering twice is filtering by both. */
  lemma {:induction false} FilterTwice<X(!new)>(xs: seq<X>, p: X -> bool, q: X -> bool, both: X -> bool, n: nat)
    requires n <= |xs|
    requires forall x :: both(x) <==> p(x) && q(x)
    ensures Filtered(Filtered(xs, p, n), q, |Filtered(xs, p, n)|) == Filtered(xs, both, n)
    decreases n
  {
    if n > 0 {
      FilterTwice(xs, p, q, both, n - 1);
      var x, before := xs[n - 1], Filtered(xs, p, n - 1);
      assert both(x) <==> p(x) && q(x);
      if p(x) {
        FilteredPrefix(before, x, q, |before|);
      } else {
        assert Filtered(xs, p, n) == before;
      }
    }
  }

  /** Headers are left out under a label selector and under nothing else. */
  ghost predicate HeadersMatch(f: Filter, groups: seq<Group>) {
    forall k :: 0 <= k < |groups| ==> (groups[k].headerless <==> f.pattern.Some?)
  }

  lemma HeadersAppend(f: Filter, a: seq<Group>, b: seq<Group>)
    requires HeadersMatch(f, a) && HeadersMatch(f, b)
    ensures HeadersMatch(f, a + b)
  {
  }

  /** One turn of the grouping loop: no group for a skipped link, else one. */
  method GroupLink(f: Filter, li: Link, addrs: seq<AddrInfo>, known: Names, resolve: (Names, Link) -> Names,
                   ghost names: Names)
    returns (known': Names, groups: seq<Group>)
    requires f.pattern.Some? ==> known == names
    ensures f.pattern.Some? ==> known' == names
    ensures Pairs(groups) == Shows(f, addrs, names)(li)
    ensures LinksOf(groups) == if Lists(f)(li) then [li] else []
    ensures HeadersMatch(f, groups)
  {
    var mode := Mode(f, li);
    known' := known;
    if mode == Skip {
      SkippedLinkShowsNothing(f, li, addrs, names);
      return known', [];
    }
    if mode == Printed {
      known' := resolve(known, li);
    }
    var shown := AddrsUnder(f, li, addrs, known');
    GroupIsShown(f, li, addrs, known', names, shown);
    groups := [Group(li, mode == Headerless, shown)];
    PairsSnoc([], groups[0]);
    assert [] + [groups[0]] == groups;
  }

  lemma {:induction false} PairsAppend(a: seq<Group>, b: seq<Group>)
    ensures Pairs(a + b) == Pairs(a) + Pairs(b)
    decreases |b|
  {
    if b == [] {
      assert a + b == a;
    } else {
      PairsAppend(a, b[..|b| - 1]);
      assert (a + b)[..|a + b| - 1] == a + b[..|b| - 1];
    }
  }

  lemma PairsSnoc(groups: seq<Group>, g: Group)
    ensures Pairs(groups + [g]) == Pairs(groups) + Tag(g.link, g.addrs)
  {
    assert (groups + [g])[..|groups|] == groups;
  }

  lemma SkippedLinkShowsNothing(f: Filter, li: Link, addrs: seq<AddrInfo>, names: Names)
    requires Mode(f, li) == Skip
    ensures Shows(f, addrs, names)(li) == []
  {
  }

  lemma GroupIsShown(f: Filter, li: Link, addrs: seq<AddrInfo>, cur: Names, names: Names, shown: seq<AddrInfo>)
    requires Mode(f, li) != Skip
    requires f.pattern.Some? ==> cur == names
    requires shown == ShownAddrs(f, li, addrs, cur, |addrs|)
    ensures Shows(f, addrs, names)(li) == Tag(li, shown)
  {
    if f.pattern.None? {
      NamesOnlyForLabels(f, li, addrs, cur, names, |addrs|);
    }
  }

  /** A link the first pass drops has no address the second would show. */
  lemma {:induction false} DroppedLinkShowsNothing(f: Filter, li: Link, addrs: seq<AddrInfo>, names: Names, m: nat)
    requires m <= |addrs|
    requires !OwnsPassing(f, li, addrs, names)
    ensures ShownAddrs(f, li, addrs, names, m) == []
    decreases m
  {
    if m > 0 {
      DroppedLinkShowsNothing(f, li, addrs, names, m - 1);
    }
  }

  lemma {:induction false} ConcatPrefix<X, Y>(xs: seq<X>, x: X, part: X -> seq<Y>, n: nat)
    requires n <= |xs|
    ensures Concat(xs + [x], part, n) == Concat(xs, part, n)
    decreases n
  {
    if n > 0 {
      ConcatPrefix(xs, x, part, n - 1);
    }
  }

  /** Filtering first loses nothing when what is dropped contributes nothing. */
  lemma {:induction false} FilterFirst<X(!new), Y>(xs: seq<X>, keep: X -> bool, part: X -> seq<Y>, alone: X -> seq<Y>, n: nat)
    requires n <= |xs|
    requires forall x :: alone(x) == if keep(x) then part(x) else []
    ensures Concat(Filtered(xs, keep, n), part, |Filtered(xs, keep, n)|) == Concat(xs, alone, n)
    decreases n
  {
    if n > 0 {
      FilterFirst(xs, keep, part, alone, n - 1);
      var x, before := xs[n - 1], Filtered(xs, keep, n - 1);
      assert alone(x) == if keep(x) then part(x) else [];
      if keep(x) {
        ConcatPrefix(before, x, part, |before|);
      } else {
        assert Filtered(xs, keep, n) == before;
      }
    }
  }

  lemma DroppedLinkContributesNothing(f: Filter, li: Link, addrs: seq<AddrInfo>, names: Names)
    requires !OwnsPassing(f, li, addrs, names)
    ensures Shows(f, addrs, names)(li) == []
  {
    DroppedLinkShowsNothing(f, li, addrs, names, |addrs|);
    assert Tag(li, []) == [];
  }

  lemma LinkContribution(f: Filter, li: Link, addrs: seq<AddrInfo>, names: Names, filterAddrs: bool)
    ensures ShowsAlone(f, addrs, names)(li)
         == if Keeps(f, addrs, names, filterAddrs)(li) then Shows(f, addrs, names)(li) else []
  {
    if GroupPasses(f, li) && !Kept(f, li, addrs, names, filterAddrs) {
      DroppedLinkContributesNothing(f, li, addrs, names);
    }
  }

  /** The first pass never costs a pair. */
  lemma FirstPassLosesNothing(f: Filter, links: seq<Link>, addrs: seq<AddrInfo>, names: Names, filterAddrs: bool)
    ensures var kept := Filtered(links, Keeps(f, addrs, names, filterAddrs), |links|);
            Concat(kept, Shows(f, addrs, names), |kept|) == OnePass(f, links, addrs, names)
  {
    forall li: Link
      ensures ShowsAlone(f, addrs, names)(li)
           == if Keeps(f, addrs, names, filterAddrs)(li) then Shows(f, addrs, names)(li) else []
    {
      LinkContribution(f, li, addrs, names, filterAddrs);
    }
    FilterFirst(links, Keeps(f, addrs, names, filterAddrs), Shows(f, addrs, names),
                ShowsAlone(f, addrs, names), |links|);
  }

  /**
   renderAddrGroups up to the writing: the pairs are those of the one-pass
   loop, in its order, whatever names printing the links resolved on the way,
   and the links with a group are those both passes let through.
   */
  method GroupAddrs(f: Filter, links: seq<Link>, addrs: seq<AddrInfo>, names: Names, resolve: (Names, Link) -> Names)
    returns (groups: seq<Group>)
    ensures Pairs(groups) == OnePass(f, links, addrs, names)
    ensures LinksOf(groups) == Filtered(links, ListsKept(f, addrs, names, f.family != AF_PACKET), |links|)
    ensures HeadersMatch(f, groups)
  {
    var kept := KeepLinks(f, links, addrs, names, f.family != AF_PACKET);
    FirstPassLosesNothing(f, links, addrs, names, f.family != AF_PACKET);
    FilterTwice(links, Keeps(f, addrs, names, f.family != AF_PACKET), Lists(f),
                ListsKept(f, addrs, names, f.family != AF_PACKET), |links|);
    groups := GroupKept(f, kept, addrs, names, resolve);
  }
}
