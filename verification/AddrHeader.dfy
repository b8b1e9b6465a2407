/**
 What a request of `ip address add|change|replace|delete` says, from the words of
 the argv alone (internal/goip/addr_write.go): its family, prefix length, scope and
 flags, its attributes in order, and whether it is sent. The parser's state and the
 order it is filled in do not appear.
 */
module AddrHeader {
  import opened Shared
  import opened AddrPrefix
  import opened AddrWrite

  // ---------------------------------------------------------------- what one word says

  /** The prefix length a word writes: its mask's, none for `default`, `all` and
      `any`, and the full width without a slash. */
  function LengthOf(t: Texts, v: string): int {
    if SlashAt(v) < |v| then
      var m := t.mask(v[SlashAt(v) + 1..]);
      if m.Some? then m.value else 0
    else if Byteless(v) then 0
    else if ':' in v then 128
    else 32
  }

  /** The bytes a name stands for under a family: IPv4 is 2 and IPv6 is 10. */
  function BytesOf(t: Texts, name: string, family: nat): Octets {
    if name == "all" || name == "any" then []
    else if name == "default" then ZeroOctets(if family == 2 then 4 else if family == 10 then 16 else 0)
    else
      var bytes := if ':' in name then t.v6(name) else t.v4(name);
      if bytes.Some? then bytes.value else []
  }

  /** A local in 127/8. */
  predicate IsLoopback(t: Texts, v: string) {
    var name := NameOf(v);
    !Byteless(name) && ':' !in name && t.v4(name).Some? && |t.v4(name).value| == 4 && t.v4(name).value[0] == 127
  }

  /** A local in 224/4 or ff00::/8. */
  predicate IsGroup(t: Texts, v: string) {
    var name := NameOf(v);
    && !Byteless(name)
    && if ':' in name then t.v6(name).Some? && t.v6(name).value != [] && t.v6(name).value[0] == 255
       else t.v4(name).Some? && t.v4(name).value != [] && 224 <= t.v4(name).value[0] <= 239
  }

  lemma PrefixSays(t: Texts, v: string, family: nat, p: InetPrefix)
    requires WellRead(t) && GetPrefix(t, v, family) == Some(p)
    ensures p.bitlen == LengthOf(t, v) && 0 <= p.bitlen <= 128
    ensures p.data == BytesOf(t, NameOf(v), family)
  {
    if SlashAt(v) == |v| {
      assert v[..|v|] == v;
    }
  }

  lemma AddrSays(t: Texts, v: string, family: nat, p: InetPrefix)
    requires WellRead(t) && GetAddr(t, v, family) == Some(p)
    ensures p.data == BytesOf(t, v, family)
  {
  }

  lemma LocalSays(t: Texts, v: string, family: nat, p: InetPrefix)
    requires WellRead(t) && GetPrefix(t, v, family) == Some(p)
    ensures DefaultScope(p) == (if IsLoopback(t, v) then 254 else 0)
    ensures IsMulticast(p) <==> IsGroup(t, v)
  {
  }

  // ------------------------------------------------------------------ items and words

  /** How an item is written: a keyword and its value, a flag's name, or an address
      behind `local` or by itself. */
  ghost predicate Spells(w: Words, words: seq<string>, item: Item) {
    || (exists k, v :: words == [k, v] && w.keyword(k).Some? && w.keyword(k).value != FlagArm
                       && item == Keyed(w.keyword(k).value, v, 2))
    || (exists k :: words == [k] && w.keyword(k) == Some(FlagArm) && item == Keyed(FlagArm, k, 1))
    || (exists v :: words == [v] && w.keyword(v).None? && v != "local" && item == LocalItem(v, 1))
    || (exists v :: words == ["local", v] && w.keyword("local").None? && item == LocalItem(v, 2))
  }

  /** The argv is read as items exactly as they are written. */
  lemma ItemIffSpelled(w: Words, argv: seq<string>, i: nat, item: Item)
    requires i < |argv|
    ensures ItemAt(w, argv, i) == Some(item)
       <==> i + item.words <= |argv| && Spells(w, argv[i..i + item.words], item)
  {
    if i + 1 < |argv| {
      assert argv[i..i + 2] == [argv[i], argv[i + 1]];
    }
    assert argv[i..i + 1] == [argv[i]];
  }

  // ------------------------------------------------------------ the last word of a kind

  /** The value of the last item from `i` on that `pick` takes. */
  function LastOf(w: Words, argv: seq<string>, i: nat, pick: Item -> bool): Option<string>
    requires i <= |argv|
    decreases |argv| - i
  {
    if i == |argv| then None
    else
      match ItemAt(w, argv, i)
      case None => None
      case Some(item) =>
        var later := LastOf(w, argv, i + item.words, pick);
        if later.Some? then later else if pick(item) then Some(item.value) else None
  }

  /** A field that only the picked items set, each by its own value. */
  ghost predicate SetBy<T(!new)>(w: Words, pick: Item -> bool, get: ParseState -> T, val: string -> T) {
    forall st: ParseState, item :: ApplyItem(w, st, item).Some? ==>
      get(ApplyItem(w, st, item).value) == if pick(item) then val(item.value) else get(st)
  }

  lemma {:induction false} LastStands<T(!new)>(w: Words, st: ParseState, argv: seq<string>, i: nat, st': ParseState,
                                               pick: Item -> bool, get: ParseState -> T, val: string -> T)
    requires i <= |argv| && ReadFrom(w, st, argv, i) == Some(st') && SetBy(w, pick, get, val)
    ensures get(st') == (match LastOf(w, argv, i, pick) case None => get(st) case Some(v) => val(v))
    decreases |argv| - i
  {
    if i < |argv| {
      var item, next := ReadSteps(w, st, argv, i, st');
      LastStands(w, next, argv, i + item.words, st', pick, get, val);
    }
  }

  predicate IsLocal(item: Item) {
    item.LocalItem?
  }

  predicate IsArm(item: Item, arm: Arm) {
    item.Keyed? && item.arm == arm
  }

  lemma PeerSets(w: Words)
    requires WellRead(w.texts)
    ensures SetBy(w, (item: Item) => IsArm(item, PeerArm), (st: ParseState) => st.prefixlen,
                  (v: string) => LengthOf(w.texts, v))
  {
    forall st: ParseState, item | ApplyItem(w, st, item).Some?
      ensures ApplyItem(w, st, item).value.prefixlen
           == if IsArm(item, PeerArm) then LengthOf(w.texts, item.value) else st.prefixlen
    {
      if IsArm(item, PeerArm) {
        PrefixSays(w.texts, item.value, st.family, GetPrefix(w.texts, item.value, st.family).value);
      }
    }
  }

  /** What the local decides: its length, the default scope and autojoin. */
  datatype FromLocal = FromLocal(bitlen: int, inHeader: int, scope: nat, group: bool)

  function LocalFacts(lcl: InetPrefix): FromLocal {
    FromLocal(lcl.bitlen, BitlenU8(lcl.bitlen), DefaultScope(lcl), IsMulticast(lcl))
  }

  function LocalWord(t: Texts, v: string): FromLocal {
    FromLocal(LengthOf(t, v), LengthOf(t, v), if IsLoopback(t, v) then 254 else 0, IsGroup(t, v))
  }

  lemma LocalSets(w: Words)
    requires WellRead(w.texts)
    ensures SetBy(w, (item: Item) => IsLocal(item), (st: ParseState) => LocalFacts(st.lcl),
                  (v: string) => LocalWord(w.texts, v))
  {
    forall st: ParseState, item | ApplyItem(w, st, item).Some?
      ensures LocalFacts(ApplyItem(w, st, item).value.lcl)
           == if IsLocal(item) then LocalWord(w.texts, item.value) else LocalFacts(st.lcl)
    {
      if IsLocal(item) {
        var p := GetPrefix(w.texts, item.value, st.family).value;
        PrefixSays(w.texts, item.value, st.family, p);
        LocalSays(w.texts, item.value, st.family, p);
      }
    }
  }

  function ScopeWord(w: Words, v: string): nat {
    if w.scope(v).Some? then w.scope(v).value else 0
  }

  lemma ScopeSets(w: Words)
    ensures SetBy(w, (item: Item) => IsArm(item, ScopeArm), (st: ParseState) => (st.scope, st.scoped),
                  (v: string) => (ScopeWord(w, v), true))
  {
  }

  /** A lifetime's seconds; `forever` is 2^32 - 1. */
  function Seconds(w: Words, v: string): nat {
    if v == "forever" then 4294967295 else if w.u32(v).Some? then w.u32(v).value else 0
  }

  lemma ValidSets(w: Words)
    ensures SetBy(w, (item: Item) => IsArm(item, ValidArm), (st: ParseState) => st.valid,
                  (v: string) => Some(Seconds(w, v)))
  {
  }

  lemma PreferredSets(w: Words)
    ensures SetBy(w, (item: Item) => IsArm(item, PreferredArm), (st: ParseState) => st.preferred,
                  (v: string) => Some(Seconds(w, v)))
  {
  }

  // --------------------------------------------------- family, flags and attributes

  /** The family after an item: the first that gives one decides it. */
  function FamilyNext(family: nat, item: Item): nat {
    match item
    case LocalItem(v, _) => FamilyAfter(family, NameOf(v))
    case Keyed(PeerArm, v, _) => FamilyAfter(family, NameOf(v))
    case Keyed(BroadcastArm, v, _) => if v == "+" || v == "-" then family else FamilyAfter(family, v)
    case Keyed(AnycastArm, v, _) => FamilyAfter(family, v)
    case _ => family
  }

  function FamilyFrom(w: Words, family: nat, argv: seq<string>, i: nat): nat
    requires i <= |argv|
    decreases |argv| - i
  {
    if i == |argv| then family
    else
      match ItemAt(w, argv, i)
      case None => family
      case Some(item) => FamilyFrom(w, FamilyNext(family, item), argv, i + item.words)
  }

  /** A flag word sets the bit: a writable flag always, an IPv6-only one where the
      family is IPv6 (10) by then. */
  predicate SetsBit(w: Words, family: nat, item: Item, bit: nat) {
    && IsArm(item, FlagArm)
    && (w.flag(item.value) == Writable(bit) || (w.flag(item.value) == V6Only(bit) && family == 10))
  }

  predicate SomeSetsBit(w: Words, family: nat, argv: seq<string>, i: nat, bit: nat)
    requires i <= |argv|
    decreases |argv| - i
  {
    i < |argv| &&
    match ItemAt(w, argv, i)
    case None => false
    case Some(item) =>
      SetsBit(w, family, item, bit) || SomeSetsBit(w, FamilyNext(family, item), argv, i + item.words, bit)
  }

  /** The attribute an item puts in its place of the argv. */
  function AttrOf(w: Words, family: nat, item: Item): seq<Attr> {
    match item
    case LocalItem(v, _) => [Addr(Local, BytesOf(w.texts, NameOf(v), family))]
    case Keyed(PeerArm, v, _) => [Addr(Address, BytesOf(w.texts, NameOf(v), family))]
    case Keyed(BroadcastArm, v, _) => if v == "+" || v == "-" then [] else [Addr(Broadcast, BytesOf(w.texts, v, family))]
    case Keyed(AnycastArm, v, _) => [Addr(Anycast, BytesOf(w.texts, v, family))]
    case Keyed(LabelArm, v, _) => [Label(v)]
    case Keyed(MetricArm, v, _) => [Priority(if w.u32(v).Some? then w.u32(v).value else 0)]
    case Keyed(ProtoArm, v, _) => [Proto(if w.proto(v).Some? then w.proto(v).value else 0)]
    case _ => []
  }

  function AttrsFrom(w: Words, family: nat, argv: seq<string>, i: nat): seq<Attr>
    requires i <= |argv|
    decreases |argv| - i
  {
    if i == |argv| then []
    else
      match ItemAt(w, argv, i)
      case None => []
      case Some(item) => AttrOf(w, family, item) + AttrsFrom(w, FamilyNext(family, item), argv, i + item.words)
  }

  lemma LocalAdds(w: Words, st: ParseState, v: string, st': ParseState)
    requires WellRead(w.texts) && ApplyLocal(w, st, v) == Some(st')
    ensures st'.family == FamilyAfter(st.family, NameOf(v)) && st'.flags == st.flags
    ensures st'.attrs == st.attrs + [Addr(Local, BytesOf(w.texts, NameOf(v), st.family))]
  {
    PrefixSays(w.texts, v, st.family, st'.lcl);
    PrefixIsSummed(w.texts, v, st.family, st'.lcl);
  }

  lemma PeerAdds(w: Words, st: ParseState, v: string, st': ParseState)
    requires WellRead(w.texts) && ApplyPeer(w, st, v) == Some(st')
    ensures st'.family == FamilyAfter(st.family, NameOf(v)) && st'.flags == st.flags
    ensures st'.attrs == st.attrs + [Addr(Address, BytesOf(w.texts, NameOf(v), st.family))]
  {
    PrefixSays(w.texts, v, st.family, st'.peer.value);
    PrefixIsSummed(w.texts, v, st.family, st'.peer.value);
  }

  lemma AddrAdds(w: Words, st: ParseState, arm: Arm, v: string, st': ParseState)
    requires WellRead(w.texts) && (arm == AnycastArm || (arm == BroadcastArm && v != "+" && v != "-"))
    requires ApplyArm(w, st, arm, v) == Some(st')
    ensures st'.family == FamilyAfter(st.family, v) && st'.flags == st.flags
    ensures st'.attrs == st.attrs + AttrOf(w, st.family, Keyed(arm, v, 2))
  {
    AddrSays(w.texts, v, st.family, GetAddr(w.texts, v, st.family).value);
    AddrIsSummed(w.texts, v, st.family);
  }

  lemma PlainAdds(w: Words, st: ParseState, arm: Arm, v: string, st': ParseState)
    requires !arm.PeerArm? && !arm.AnycastArm? && (arm.BroadcastArm? ==> v == "+" || v == "-")
    requires ApplyArm(w, st, arm, v) == Some(st')
    ensures st'.family == st.family
    ensures arm != FlagArm ==> st'.flags == st.flags
    ensures st'.attrs == st.attrs + AttrOf(w, st.family, Keyed(arm, v, 2))
  {
  }

  /** What one item does to the family and the attributes. */
  lemma ItemAdds(w: Words, st: ParseState, item: Item, st': ParseState)
    requires WellRead(w.texts) && ApplyItem(w, st, item) == Some(st')
    ensures st'.family == FamilyNext(st.family, item)
    ensures !IsArm(item, FlagArm) ==> st'.flags == st.flags
    ensures st'.attrs == st.attrs + AttrOf(w, st.family, item)
  {
    match item
    case LocalItem(v, _) => LocalAdds(w, st, v, st');
    case Keyed(arm, v, _) =>
      if arm == PeerArm {
        PeerAdds(w, st, v, st');
      } else if arm == AnycastArm || (arm == BroadcastArm && v != "+" && v != "-") {
        AddrAdds(w, st, arm, v, st');
      } else {
        PlainAdds(w, st, arm, v, st');
      }
  }

  lemma ItemSetsBit(w: Words, st: ParseState, item: Item, st': ParseState, bit: nat)
    requires WellRead(w.texts) && ApplyItem(w, st, item) == Some(st')
    ensures bit in st'.flags <==> bit in st.flags || SetsBit(w, st.family, item, bit)
  {
    ItemAdds(w, st, item, st');
  }

  lemma FamilyStep(w: Words, family: nat, argv: seq<string>, i: nat, item: Item, next: nat)
    requires i < |argv| && ItemAt(w, argv, i) == Some(item) && next == FamilyNext(family, item)
    ensures FamilyFrom(w, family, argv, i) == FamilyFrom(w, next, argv, i + item.words)
    ensures AttrsFrom(w, family, argv, i) == AttrOf(w, family, item) + AttrsFrom(w, next, argv, i + item.words)
  {
  }

  /** What the first item of an argv that is read to the end leaves to the rest. */
  lemma StepAdds(w: Words, st: ParseState, argv: seq<string>, i: nat, st': ParseState)
    returns (j: nat, next: ParseState, one: seq<Attr>)
    requires WellRead(w.texts) && i < |argv| && ReadFrom(w, st, argv, i) == Some(st')
    ensures i < j <= |argv| && ReadFrom(w, next, argv, j) == Some(st') && next.attrs == st.attrs + one
    ensures FamilyFrom(w, st.family, argv, i) == FamilyFrom(w, next.family, argv, j)
    ensures AttrsFrom(w, st.family, argv, i) == one + AttrsFrom(w, next.family, argv, j)
  {
    var item;
    item, next := ReadSteps(w, st, argv, i, st');
    j, one := i + item.words, AttrOf(w, st.family, item);
    assert next.family == FamilyNext(st.family, item) && next.attrs == st.attrs + one by {
      ItemAdds(w, st, item, next);
    }
    FamilyStep(w, st.family, argv, i, item, next.family);
  }

  lemma {:induction false} ReadFamily(w: Words, st: ParseState, argv: seq<string>, i: nat, st': ParseState)
    requires WellRead(w.texts) && i <= |argv| && ReadFrom(w, st, argv, i) == Some(st')
    ensures st'.family == FamilyFrom(w, st.family, argv, i)
    decreases |argv| - i
  {
    if i < |argv| {
      var j, next, _ := StepAdds(w, st, argv, i, st');
      ReadFamily(w, next, argv, j, st');
    }
  }

  lemma {:induction false} ReadAdds(w: Words, st: ParseState, argv: seq<string>, i: nat, st': ParseState, all: seq<Attr>)
    requires WellRead(w.texts) && i <= |argv| && ReadFrom(w, st, argv, i) == Some(st')
    requires all == AttrsFrom(w, st.family, argv, i)
    ensures st'.attrs == st.attrs + all
    decreases |argv| - i
  {
    if i < |argv| {
      var j, next, one := StepAdds(w, st, argv, i, st');
      var rest := AttrsFrom(w, next.family, argv, j);
      ReadAdds(w, next, argv, j, st', rest);
      JoinAssociates(st.attrs, one, rest);
    }
  }

  lemma StepSetsBit(w: Words, st: ParseState, argv: seq<string>, i: nat, st': ParseState, bit: nat)
    returns (j: nat, next: ParseState, sets: bool)
    requires WellRead(w.texts) && i < |argv| && ReadFrom(w, st, argv, i) == Some(st')
    ensures i < j <= |argv| && ReadFrom(w, next, argv, j) == Some(st')
    ensures bit in next.flags <==> bit in st.flags || sets
    ensures SomeSetsBit(w, st.family, argv, i, bit) <==> sets || SomeSetsBit(w, next.family, argv, j, bit)
  {
    var item;
    item, next := ReadSteps(w, st, argv, i, st');
    j, sets := i + item.words, SetsBit(w, st.family, item, bit);
    assert next.family == FamilyNext(st.family, item) by { ItemAdds(w, st, item, next); }
    ItemSetsBit(w, st, item, next, bit);
  }

  lemma {:induction false} ReadSetsBit(w: Words, st: ParseState, argv: seq<string>, i: nat, st': ParseState, bit: nat)
    requires WellRead(w.texts) && i <= |argv| && ReadFrom(w, st, argv, i) == Some(st')
    ensures bit in st'.flags <==> bit in st.flags || SomeSetsBit(w, st.family, argv, i, bit)
    decreases |argv| - i
  {
    if i < |argv| {
      var j, next, _ := StepSetsBit(w, st, argv, i, st', bit);
      ReadSetsBit(w, next, argv, j, st', bit);
    }
  }

  // ------------------------------------------------------------------- the whole request

  function LastArm(w: Words, argv: seq<string>, arm: Arm): Option<string> {
    LastOf(w, argv, 0, (item: Item) => IsArm(item, arm))
  }

  function LastLocal(w: Words, argv: seq<string>): Option<string> {
    LastOf(w, argv, 0, (item: Item) => IsLocal(item))
  }

  /** The last peer's length when it is not zero, or else the last local's. */
  function PrefixlenOf(w: Words, argv: seq<string>): int {
    var peer, local := LastArm(w, argv, PeerArm), LastLocal(w, argv);
    if peer.Some? && LengthOf(w.texts, peer.value) != 0 then LengthOf(w.texts, peer.value)
    else if local.Some? then LengthOf(w.texts, local.value)
    else 0
  }

  /** The last `scope`, or on anything but a delete 254 for a local in 127/8. */
  function ScopeOf(w: Words, del: bool, argv: seq<string>): nat {
    var scope, local := LastArm(w, argv, ScopeArm), LastLocal(w, argv);
    if scope.Some? then ScopeWord(w, scope.value)
    else if !del && local.Some? && IsLoopback(w.texts, local.value) then 254
    else 0
  }

  lemma ReadPeer(w: Words, del: bool, family: nat, argv: seq<string>, st: ParseState)
    requires WellRead(w.texts) && ReadFrom(w, Init(del, family), argv, 0) == Some(st)
    ensures var peer := LastArm(w, argv, PeerArm);
            st.prefixlen == if peer.Some? then LengthOf(w.texts, peer.value) else 0
  {
    PeerSets(w);
    LastStands(w, Init(del, family), argv, 0, st, (item: Item) => IsArm(item, PeerArm),
               (st: ParseState) => st.prefixlen, (v: string) => LengthOf(w.texts, v));
  }

  lemma ReadLocal(w: Words, del: bool, family: nat, argv: seq<string>, st: ParseState)
    requires WellRead(w.texts) && ReadFrom(w, Init(del, family), argv, 0) == Some(st)
    ensures var local := LastLocal(w, argv);
            LocalFacts(st.lcl) == if local.Some? then LocalWord(w.texts, local.value) else FromLocal(0, 0, 0, false)
  {
    LocalSets(w);
    LastStands(w, Init(del, family), argv, 0, st, (item: Item) => IsLocal(item),
               (st: ParseState) => LocalFacts(st.lcl), (v: string) => LocalWord(w.texts, v));
  }

  lemma ReadScope(w: Words, del: bool, family: nat, argv: seq<string>, st: ParseState)
    requires ReadFrom(w, Init(del, family), argv, 0) == Some(st)
    ensures var scope := LastArm(w, argv, ScopeArm);
            (st.scope, st.scoped) == if scope.Some? then (ScopeWord(w, scope.value), true) else (0, false)
  {
    ScopeSets(w);
    LastStands(w, Init(del, family), argv, 0, st, (item: Item) => IsArm(item, ScopeArm),
               (st: ParseState) => (st.scope, st.scoped), (v: string) => (ScopeWord(w, v), true));
  }

  /** The header and the attributes in place, from the words. */
  lemma RequestFromWords(w: Words, del: bool, family: nat, argv: seq<string>, st: ParseState, idx: int, brd: Octets,
                         r: Request)
    requires WellRead(w.texts) && ReadFrom(w, Init(del, family), argv, 0) == Some(st) && r == RequestOf(st, idx, brd)
    ensures r.family == FamilyFrom(w, family, argv, 0) && r.index == idx
    ensures r.prefixlen == PrefixlenOf(w, argv)
    ensures r.scope == ScopeOf(w, del, argv)
    ensures forall bit: nat :: bit in r.flags <==> SomeSetsBit(w, family, argv, 0, bit)
    ensures r.attrs == AttrsFrom(w, family, argv, 0)
  {
    ReadPeer(w, del, family, argv, st);
    ReadLocal(w, del, family, argv, st);
    ReadScope(w, del, family, argv, st);
    ReadIsSummed(w, Init(del, family), argv, 0, st, StartSum(family), del);
    ReadFamily(w, Init(del, family), argv, 0, st);
    ReadAdds(w, Init(del, family), argv, 0, st, AttrsFrom(w, family, argv, 0));
    forall bit: nat ensures bit in r.flags <==> SomeSetsBit(w, family, argv, 0, bit) {
      ReadSetsBit(w, Init(del, family), argv, 0, st, bit);
    }
  }

  // ------------------------------------------------------------------- what is accepted

  /** A lifetime from the last word that gives it, for ever without one. */
  function SecondsOf(w: Words, argv: seq<string>, arm: Arm): nat {
    var last := LastArm(w, argv, arm);
    if last.Some? then Seconds(w, last.value) else 4294967295
  }

  lemma ReadLifetimes(w: Words, del: bool, family: nat, argv: seq<string>, st: ParseState)
    requires ReadFrom(w, Init(del, family), argv, 0) == Some(st)
    ensures st.valid.Some? <==> LastArm(w, argv, ValidArm).Some?
    ensures st.preferred.Some? <==> LastArm(w, argv, PreferredArm).Some?
    ensures Lifetime(st.valid) == SecondsOf(w, argv, ValidArm)
    ensures Lifetime(st.preferred) == SecondsOf(w, argv, PreferredArm)
  {
    ValidSets(w);
    LastStands(w, Init(del, family), argv, 0, st, (item: Item) => IsArm(item, ValidArm),
               (st: ParseState) => st.valid, (v: string) => Some(Seconds(w, v)));
    PreferredSets(w);
    LastStands(w, Init(del, family), argv, 0, st, (item: Item) => IsArm(item, PreferredArm),
               (st: ParseState) => st.preferred, (v: string) => Some(Seconds(w, v)));
  }

  /** The argv asks for a computed broadcast only where there is one: on IPv4 (2),
      and with a local to copy or a peer. */
  predicate BroadcastIsPossible(sum: Summary, del: bool) {
    sum.asks && !del ==> sum.family == 2 && (ArgvCopies(sum, del) || sum.lastPeer.Some?)
  }

  /** An argv that reads is sent exactly under these conditions on its words. */
  lemma SentIffWords(w: Words, del: bool, family: nat, argv: seq<string>, st: ParseState, idx: Option<int>, sum: Summary)
    requires WellRead(w.texts) && ReadFrom(w, Init(del, family), argv, 0) == Some(st)
    requires sum == SumFrom(w, StartSum(family), argv, 0)
    ensures Ready(st) <==> LastDev(w, argv, 0).Some? && BroadcastIsPossible(sum, del)
    ensures Accepted(st, idx) <==>
              && idx.Some? && idx.value > 0
              && 0 < SecondsOf(w, argv, ValidArm)
              && (LastArm(w, argv, ValidArm).Some? || LastArm(w, argv, PreferredArm).Some? ==>
                    SecondsOf(w, argv, PreferredArm) <= SecondsOf(w, argv, ValidArm))
              && (SomeSetsBit(w, family, argv, 0, 10) ==>
                    LastLocal(w, argv).Some? && IsGroup(w.texts, LastLocal(w, argv).value))
  {
    ReadDev(w, Init(del, family), argv, 0, st);
    ReadIsSummed(w, Init(del, family), argv, 0, st, StartSum(family), del);
    ReadKeepsInv(w, Init(del, family), argv, 0, st);
    ReadLifetimes(w, del, family, argv, st);
    ReadLocal(w, del, family, argv, st);
    ReadSetsBit(w, Init(del, family), argv, 0, st, 10);
  }

  /** What is added after the words: the one local that has bytes again as the
      address, the computed broadcast, and the lifetimes. */
  lemma AddedFromWords(w: Words, del: bool, family: nat, argv: seq<string>, st: ParseState, idx: int, brd: Octets,
                       r: Request, sum: Summary)
    returns (local: Octets)
    requires WellRead(w.texts) && ReadFrom(w, Init(del, family), argv, 0) == Some(st) && r == RequestOf(st, idx, brd)
    requires sum == SumFrom(w, StartSum(family), argv, 0)
    ensures ArgvCopies(sum, del) ==> local != [] && Addr(Local, local) in r.attrs
    ensures r.post
         == (if ArgvCopies(sum, del) then [Addr(Address, local)] else [])
          + (if ArgvComputes(w.texts, sum, del) then [Addr(Broadcast, brd)] else [])
          + (if LastArm(w, argv, ValidArm).Some? || LastArm(w, argv, PreferredArm).Some?
             then [CacheInfo(SecondsOf(w, argv, PreferredArm), SecondsOf(w, argv, ValidArm))] else [])
  {
    ArgvDecides(w, del, family, argv, st, sum);
    ReadKeepsInv(w, Init(del, family), argv, 0, st);
    ReadLifetimes(w, del, family, argv, st);
    local := st.lcl.data;
  }

  // ------------------------------------------------------------- the computed broadcast

  /** `brd +`, `brd -`, or an address. */
  datatype Asked = Ones | Zeros | Neither

  function AskedBy(brdLen: int): Asked {
    if brdLen >= 0 then Neither else if brdLen == -1 then Ones else Zeros
  }

  function AskedIn(v: string): Asked {
    if v == "+" then Ones else if v == "-" then Zeros else Neither
  }

  lemma BroadcastSets(w: Words)
    ensures SetBy(w, (item: Item) => IsArm(item, BroadcastArm), (st: ParseState) => AskedBy(st.brdLen),
                  (v: string) => AskedIn(v))
  {
  }

  function PeerLength(peer: Option<InetPrefix>): Option<int> {
    if peer.Some? then Some(peer.value.bitlen) else None
  }

  lemma PeerSetsLength(w: Words)
    requires WellRead(w.texts)
    ensures SetBy(w, (item: Item) => IsArm(item, PeerArm), (st: ParseState) => PeerLength(st.peer),
                  (v: string) => Some(LengthOf(w.texts, v)))
  {
    forall st: ParseState, item | ApplyItem(w, st, item).Some?
      ensures PeerLength(ApplyItem(w, st, item).value.peer)
           == if IsArm(item, PeerArm) then Some(LengthOf(w.texts, item.value)) else PeerLength(st.peer)
    {
      if IsArm(item, PeerArm) {
        PrefixSays(w.texts, item.value, st.family, GetPrefix(w.texts, item.value, st.family).value);
      }
    }
  }

  /** The peer is among the attributes. */
  ghost predicate PeerIsListed(st: ParseState) {
    st.peer.Some? ==> Addr(Address, st.peer.value.data) in st.attrs
  }

  lemma OthersLeavePeer(w: Words, st: ParseState, item: Item, st': ParseState)
    requires ApplyItem(w, st, item) == Some(st') && !IsArm(item, PeerArm)
    ensures st'.peer == st.peer
  {
  }

  lemma StillListed(before: seq<Attr>, more: seq<Attr>, after: seq<Attr>, a: Attr)
    requires after == before + more && (a in before || a in more)
    ensures a in after
  {
  }

  lemma ItemListsPeer(w: Words, st: ParseState, item: Item, st': ParseState)
    requires WellRead(w.texts) && ApplyItem(w, st, item) == Some(st') && PeerIsListed(st)
    ensures PeerIsListed(st')
  {
    if IsArm(item, PeerArm) {
      assert st'.attrs[|st.attrs|] == Addr(Address, st'.peer.value.data);
    } else if st.peer.Some? {
      OthersLeavePeer(w, st, item, st');
      assert st'.attrs == st.attrs + AttrOf(w, st.family, item) by { ItemAdds(w, st, item, st'); }
      StillListed(st.attrs, AttrOf(w, st.family, item), st'.attrs, Addr(Address, st.peer.value.data));
    } else {
      OthersLeavePeer(w, st, item, st');
    }
  }

  lemma {:induction false} ReadListsPeer(w: Words, st: ParseState, argv: seq<string>, i: nat, st': ParseState)
    requires WellRead(w.texts) && i <= |argv| && ReadFrom(w, st, argv, i) == Some(st') && PeerIsListed(st)
    ensures PeerIsListed(st')
    decreases |argv| - i
  {
    if i < |argv| {
      var item, next := ReadSteps(w, st, argv, i, st');
      ItemListsPeer(w, st, item, next);
      ReadListsPeer(w, next, argv, i + item.words, st');
    }
  }

  lemma ReadBroadcast(w: Words, del: bool, family: nat, argv: seq<string>, st: ParseState)
    requires WellRead(w.texts) && ReadFrom(w, Init(del, family), argv, 0) == Some(st)
    ensures var last := LastArm(w, argv, BroadcastArm);
            AskedBy(st.brdLen) == if last.Some? then AskedIn(last.value) else Neither
    ensures var peer := LastArm(w, argv, PeerArm);
            PeerLength(st.peer) == if peer.Some? then Some(LengthOf(w.texts, peer.value)) else None
  {
    BroadcastSets(w);
    LastStands(w, Init(del, family), argv, 0, st, (item: Item) => IsArm(item, BroadcastArm),
               (st: ParseState) => AskedBy(st.brdLen), (v: string) => AskedIn(v));
    PeerSetsLength(w);
    LastStands(w, Init(del, family), argv, 0, st, (item: Item) => IsArm(item, PeerArm),
               (st: ParseState) => PeerLength(st.peer), (v: string) => Some(LengthOf(w.texts, v)));
  }

  lemma OthersLeaveLocal(w: Words, st: ParseState, item: Item, st': ParseState)
    requires ApplyItem(w, st, item) == Some(st') && !IsLocal(item)
    ensures st'.lcl == st.lcl
  {
  }

  lemma NoLaterLocal(w: Words, argv: seq<string>, i: nat, item: Item, pick: Item -> bool)
    requires i < |argv| && ItemAt(w, argv, i) == Some(item) && LastOf(w, argv, i, pick).None?
    ensures !pick(item) && LastOf(w, argv, i + item.words, pick).None?
  {
  }

  lemma {:induction false} NoLocalNoChange(w: Words, st: ParseState, argv: seq<string>, i: nat, st': ParseState,
                                           pick: Item -> bool)
    requires i <= |argv| && ReadFrom(w, st, argv, i) == Some(st')
    requires (forall item :: pick(item) <==> IsLocal(item)) && LastOf(w, argv, i, pick).None?
    ensures st'.lcl == st.lcl
    decreases |argv| - i
  {
    if i < |argv| {
      var item, next := ReadSteps(w, st, argv, i, st');
      NoLaterLocal(w, argv, i, item, pick);
      OthersLeaveLocal(w, st, item, next);
      NoLocalNoChange(w, next, argv, i + item.words, st', pick);
    }
  }

  lemma LocalLength(w: Words, del: bool, family: nat, argv: seq<string>, st: ParseState)
    requires WellRead(w.texts) && ReadFrom(w, Init(del, family), argv, 0) == Some(st) && st.lcl.data != []
    ensures LastLocal(w, argv).Some? && st.lcl.bitlen == LengthOf(w.texts, LastLocal(w, argv).value)
  {
    ReadLocal(w, del, family, argv, st);
    if LastLocal(w, argv).None? {
      NoLocalNoChange(w, Init(del, family), argv, 0, st, (item: Item) => IsLocal(item));
    }
  }

  /**
   The broadcast that is computed: of the address that is sent, the copied local's
   or the last peer's, with every bit past that word's length one for `brd +` and
   zero for `brd -`.
   */
  lemma BroadcastFromWords(w: Words, del: bool, family: nat, argv: seq<string>, st: ParseState, idx: int, brd: Octets,
                           r: Request, sum: Summary)
    returns (bytes: Octets)
    requires WellRead(w.texts) && ReadFrom(w, Init(del, family), argv, 0) == Some(st) && r == RequestOf(st, idx, brd)
    requires sum == SumFrom(w, StartSum(family), argv, 0) && IsBroadcastOf(st, brd)
    requires ArgvComputes(w.texts, sum, del)
    ensures Addr(Address, bytes) in r.attrs + r.post && |brd| == |bytes|
    ensures var from := if ArgvCopies(sum, del) then LastLocal(w, argv) else LastArm(w, argv, PeerArm);
            && from.Some? && (LastArm(w, argv, BroadcastArm) == Some("+") || LastArm(w, argv, BroadcastArm) == Some("-"))
            && (bytes != [] ==>
                  && 0 <= LengthOf(w.texts, from.value)
                  && IsFilled(brd, bytes, LengthOf(w.texts, from.value), LastArm(w, argv, BroadcastArm) == Some("+")))
  {
    ArgvDecides(w, del, family, argv, st, sum);
    ReadKeepsInv(w, Init(del, family), argv, 0, st);
    ReadListsPeer(w, Init(del, family), argv, 0, st);
    ReadBroadcast(w, del, family, argv, st);
    bytes := FinalPeer(st).value.data;
    if CopiesLocal(st) {
      LocalLength(w, del, family, argv, st);
      assert r.post[0] == Addr(Address, bytes);
    }
  }

  // ---------------------------------------------------------------------- lifetimes once

  function TimesArm(w: Words, argv: seq<string>, i: nat, arm: Arm): nat
    requires i <= |argv|
    decreases |argv| - i
  {
    if i == |argv| then 0
    else
      match ItemAt(w, argv, i)
      case None => 0
      case Some(item) => (if IsArm(item, arm) then 1 else 0) + TimesArm(w, argv, i + item.words, arm)
  }

  lemma ItemGivesValid(w: Words, st: ParseState, item: Item, st': ParseState)
    requires ApplyItem(w, st, item) == Some(st')
    ensures if IsArm(item, ValidArm) then st.valid.None? && st'.valid.Some? else st'.valid == st.valid
  {
  }

  lemma ItemGivesPreferred(w: Words, st: ParseState, item: Item, st': ParseState)
    requires ApplyItem(w, st, item) == Some(st')
    ensures if IsArm(item, PreferredArm) then st.preferred.None? && st'.preferred.Some?
            else st'.preferred == st.preferred
  {
  }

  /** A second `valid_lft` or `preferred_lft` is refused. */
  lemma {:induction false} LifetimesOnce(w: Words, st: ParseState, argv: seq<string>, i: nat, st': ParseState)
    requires i <= |argv| && ReadFrom(w, st, argv, i) == Some(st')
    ensures TimesArm(w, argv, i, ValidArm) <= (if st.valid.None? then 1 else 0)
    ensures TimesArm(w, argv, i, PreferredArm) <= (if st.preferred.None? then 1 else 0)
    decreases |argv| - i
  {
    if i < |argv| {
      var item, next := ReadSteps(w, st, argv, i, st');
      ItemGivesValid(w, st, item, next);
      ItemGivesPreferred(w, st, item, next);
      LifetimesOnce(w, next, argv, i + item.words, st');
    }
  }

  // ----------------------------------------------------------------- which argv are read

  /** A name reads under a family: IPv6 (10) by its colon, else IPv4 (2), where the
      family allows it, and `default`, `all` and `any` under any. */
  predicate NameReads(t: Texts, name: string, family: nat) {
    || Byteless(name)
    || (':' in name && (family == 0 || family == 10) && t.v6(name).Some?)
    || (':' !in name && (family == 0 || family == 2) && t.v4(name).Some?)
  }

  /** No address reads under AF_PACKET (17) and AF_MPLS (28). */
  predicate AddrReads(t: Texts, v: string, family: nat) {
    family != 17 && family != 28 && NameReads(t, v, family)
  }

  /** A mask needs an address before it, and fits that address's width. */
  predicate PrefixReads(t: Texts, v: string, family: nat) {
    && AddrReads(t, NameOf(v), family)
    && ('/' in v ==>
          var m := t.mask(v[|NameOf(v)| + 1..]);
          !Byteless(NameOf(v)) && m.Some? && m.value <= if ':' in NameOf(v) then 128 else 32)
  }

  lemma AddrReadsIff(t: Texts, v: string, family: nat)
    ensures GetAddr(t, v, family).Some? <==> AddrReads(t, v, family)
  {
  }

  lemma PrefixReadsIff(t: Texts, v: string, family: nat)
    ensures GetPrefix(t, v, family).Some? <==> PrefixReads(t, v, family)
  {
    AddrReadsIff(t, NameOf(v), family);
    assert '/' in v <==> SlashAt(v) < |v|;
  }

  /** What earlier words bar later ones from: the family, and which values with bytes
      and which lifetimes were given. */
  datatype Seen = Seen(family: nat, local: bool, peer: bool, brd: bool, any: bool, valid: bool, preferred: bool)

  predicate IsTaken(w: Words, seen: Seen, item: Item) {
    match item
    case LocalItem(v, _) => !w.isHelp(v) && !seen.local && PrefixReads(w.texts, v, seen.family)
    case Keyed(PeerArm, v, _) => !seen.peer && PrefixReads(w.texts, v, seen.family)
    case Keyed(BroadcastArm, v, _) => !seen.brd && (v == "+" || v == "-" || AddrReads(w.texts, v, seen.family))
    case Keyed(AnycastArm, v, _) => !seen.any && AddrReads(w.texts, v, seen.family)
    case Keyed(ScopeArm, v, _) => w.scope(v).Some?
    case Keyed(MetricArm, v, _) => w.u32(v).Some?
    case Keyed(ProtoArm, v, _) => w.proto(v).Some?
    case Keyed(ValidArm, v, _) => !seen.valid && (v == "forever" || w.u32(v).Some?)
    case Keyed(PreferredArm, v, _) => !seen.preferred && (v == "forever" || w.u32(v).Some?)
    case _ => true
  }

  function SeenAfter(seen: Seen, item: Item): Seen {
    var s := seen.(family := FamilyNext(seen.family, item));
    match item
    case LocalItem(v, _) => s.(local := GivesBytes(NameOf(v), seen.family))
    case Keyed(PeerArm, v, _) => s.(peer := GivesBytes(NameOf(v), seen.family))
    case Keyed(BroadcastArm, v, _) => s.(brd := v == "+" || v == "-" || GivesBytes(v, seen.family))
    case Keyed(AnycastArm, v, _) => s.(any := GivesBytes(v, seen.family))
    case Keyed(ValidArm, v, _) => s.(valid := true)
    case Keyed(PreferredArm, v, _) => s.(preferred := true)
    case _ => s
  }

  /** Every item from `i` on is complete and taken. */
  predicate AllTaken(w: Words, seen: Seen, argv: seq<string>, i: nat)
    requires i <= |argv|
    decreases |argv| - i
  {
    i < |argv| ==>
      match ItemAt(w, argv, i)
      case None => false
      case Some(item) => IsTaken(w, seen, item) && AllTaken(w, SeenAfter(seen, item), argv, i + item.words)
  }

  function SeenIn(st: ParseState): Seen {
    Seen(st.family, st.localLen != 0, st.peerLen != 0, st.brdLen != 0, st.anyLen != 0, st.valid.Some?,
         st.preferred.Some?)
  }

  lemma LocalIsTaken(w: Words, st: ParseState, v: string)
    requires WellRead(w.texts)
    ensures var r := ApplyLocal(w, st, v);
            && (r.Some? <==> IsTaken(w, SeenIn(st), LocalItem(v, 1)))
            && (r.Some? ==> SeenIn(r.value) == SeenAfter(SeenIn(st), LocalItem(v, 1)))
  {
    PrefixReadsIff(w.texts, v, st.family);
    if GetPrefix(w.texts, v, st.family).Some? {
      PrefixIsSummed(w.texts, v, st.family, GetPrefix(w.texts, v, st.family).value);
    }
  }

  lemma PeerIsTaken(w: Words, st: ParseState, v: string)
    requires WellRead(w.texts)
    ensures var r := ApplyPeer(w, st, v);
            && (r.Some? <==> IsTaken(w, SeenIn(st), Keyed(PeerArm, v, 2)))
            && (r.Some? ==> SeenIn(r.value) == SeenAfter(SeenIn(st), Keyed(PeerArm, v, 2)))
  {
    PrefixReadsIff(w.texts, v, st.family);
    if GetPrefix(w.texts, v, st.family).Some? {
      PrefixIsSummed(w.texts, v, st.family, GetPrefix(w.texts, v, st.family).value);
    }
  }

  lemma SignIsTaken(w: Words, st: ParseState, v: string)
    requires v == "+" || v == "-"
    ensures var r := ApplyBroadcast(w, st, v);
            && (r.Some? <==> IsTaken(w, SeenIn(st), Keyed(BroadcastArm, v, 2)))
            && (r.Some? ==> SeenIn(r.value) == SeenAfter(SeenIn(st), Keyed(BroadcastArm, v, 2)))
  {
  }

  lemma BroadcastReads(w: Words, st: ParseState, v: string, a: Option<InetPrefix>, r: Option<ParseState>)
    requires v != "+" && v != "-" && a == GetAddr(w.texts, v, st.family) && r == ApplyBroadcast(w, st, v)
    ensures r.Some? <==> st.brdLen == 0 && a.Some?
    ensures r.Some? ==>
              SeenIn(r.value) == SeenIn(st).(family := Adopt(st.family, a.value.family), brd := a.value.data != [])
  {
  }

  lemma BroadcastIsTaken(w: Words, st: ParseState, v: string)
    requires WellRead(w.texts)
    ensures var r := ApplyBroadcast(w, st, v);
            && (r.Some? <==> IsTaken(w, SeenIn(st), Keyed(BroadcastArm, v, 2)))
            && (r.Some? ==> SeenIn(r.value) == SeenAfter(SeenIn(st), Keyed(BroadcastArm, v, 2)))
  {
    if v == "+" || v == "-" {
      SignIsTaken(w, st, v);
    } else {
      var a := GetAddr(w.texts, v, st.family);
      BroadcastReads(w, st, v, a, ApplyBroadcast(w, st, v));
      AddrReadsIff(w.texts, v, st.family);
      if a.Some? {
        AddrIsSummed(w.texts, v, st.family);
      }
    }
  }

  lemma AnycastIsTaken(w: Words, st: ParseState, v: string)
    requires WellRead(w.texts)
    ensures var r := ApplyAnycast(w, st, v);
            && (r.Some? <==> IsTaken(w, SeenIn(st), Keyed(AnycastArm, v, 2)))
            && (r.Some? ==> SeenIn(r.value) == SeenAfter(SeenIn(st), Keyed(AnycastArm, v, 2)))
  {
    AddrReadsIff(w.texts, v, st.family);
    if GetAddr(w.texts, v, st.family).Some? {
      AddrIsSummed(w.texts, v, st.family);
    }
  }

  lemma PlainIsTaken(w: Words, st: ParseState, arm: Arm, v: string, words: nat)
    requires !arm.PeerArm? && !arm.BroadcastArm? && !arm.AnycastArm?
    ensures var r := ApplyArm(w, st, arm, v);
            && (r.Some? <==> IsTaken(w, SeenIn(st), Keyed(arm, v, words)))
            && (r.Some? ==> SeenIn(r.value) == SeenAfter(SeenIn(st), Keyed(arm, v, words)))
  {
  }

  lemma ItemIsTaken(w: Words, st: ParseState, item: Item, seen: Seen)
    requires WellRead(w.texts) && seen == SeenIn(st)
    ensures ApplyItem(w, st, item).Some? <==> IsTaken(w, seen, item)
    ensures ApplyItem(w, st, item).Some? ==> SeenIn(ApplyItem(w, st, item).value) == SeenAfter(seen, item)
  {
    match item
    case LocalItem(v, _) => LocalIsTaken(w, st, v);
    case Keyed(PeerArm, v, _) => PeerIsTaken(w, st, v);
    case Keyed(BroadcastArm, v, _) => BroadcastIsTaken(w, st, v);
    case Keyed(AnycastArm, v, _) => AnycastIsTaken(w, st, v);
    case Keyed(arm, v, words) => PlainIsTaken(w, st, arm, v, words);
  }

  lemma {:induction false} ReadIffTaken(w: Words, st: ParseState, argv: seq<string>, i: nat, seen: Seen)
    requires WellRead(w.texts) && i <= |argv| && seen == SeenIn(st)
    ensures ReadFrom(w, st, argv, i).Some? <==> AllTaken(w, seen, argv, i)
    decreases |argv| - i
  {
    if i < |argv| && ItemAt(w, argv, i).Some? {
      var item := ItemAt(w, argv, i).value;
      ItemIsTaken(w, st, item, seen);
      if ApplyItem(w, st, item).Some? {
        ReadIffTaken(w, ApplyItem(w, st, item).value, argv, i + item.words, SeenAfter(seen, item));
      }
    }
  }

  /** Which argv are read to the end, from the words alone. */
  lemma ArgvReadsIff(w: Words, del: bool, family: nat, argv: seq<string>)
    requires WellRead(w.texts)
    ensures ReadFrom(w, Init(del, family), argv, 0).Some?
       <==> AllTaken(w, Seen(family, false, false, false, false, false, false), argv, 0)
  {
    ReadIffTaken(w, Init(del, family), argv, 0, SeenIn(Init(del, family)));
  }
}
