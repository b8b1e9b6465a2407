/**
 `ip address add|change|replace|delete` up to the request
 (internal/goip/addr_write.go), with the address readers it stands on
 (internal/goip/route_write.go).

 An argv is read word by word into a state, and the state is then finished into
 a request. What is proved is about every argv the parser accepts.
 */
module AddrWrite {
  import opened Shared
  import opened AddrPrefix

  const AF_PACKET: nat := 17
  const AF_MPLS: nat := 28
  const MAX_U32: nat := 0xffff_ffff
  /** The bit numbers of IFA_F_MCAUTOJOIN. */
  const MCAUTOJOIN: nat := 10

  // ------------------------------------------------------------------- reading addresses

  /** The text readers below the address ones: dotted quads, inet_pton and masks. */
  datatype Texts = Texts(v4: string -> Option<Octets>, v6: string -> Option<Octets>, mask: string -> Option<nat>)

  ghost predicate WellRead(t: Texts) {
    && (forall s :: t.v4(s).Some? ==> |t.v4(s).value| == 4)
    && (forall s :: t.v6(s).Some? ==> |t.v6(s).value| == 16)
  }

  function AfBitLen(family: nat): nat {
    if family == AF_INET6 then 128 else if family == AF_INET then 32 else if family == AF_MPLS then 20 else 0
  }

  function ZeroOctets(n: nat): (z: Octets)
    ensures |z| == n && forall i :: 0 <= i < n ==> z[i] == 0
  {
    seq(n, _ => 0)
  }

  /** getAddr1: bitlen -2 marks `default`, `all` and `any`, -1 an address. */
  function GetAddr1(t: Texts, name: string, family: nat): Option<InetPrefix> {
    if name == "default" then Some(InetPrefix(family, ZeroOctets(AfBitLen(family) / 8), -2))
    else if name == "all" || name == "any" then Some(InetPrefix(family, [], -2))
    else if ':' in name then
      if family != AF_UNSPEC && family != AF_INET6 then None
      else if t.v6(name).None? then None
      else Some(InetPrefix(AF_INET6, t.v6(name).value, -1))
    else if family != AF_UNSPEC && family != AF_INET then None
    else if t.v4(name).None? then None
    else Some(InetPrefix(AF_INET, t.v4(name).value, -1))
  }

  predicate Supported(family: nat) {
    family != AF_PACKET && family != AF_MPLS
  }

  /** routeGetAddr. */
  function GetAddr(t: Texts, arg: string, family: nat): Option<InetPrefix> {
    if !Supported(family) then None else GetAddr1(t, arg, family)
  }

  /** Where the first slash is, or the end without one. */
  function SlashAt(s: string): (i: nat)
    ensures i <= |s| && (i < |s| ==> s[i] == '/')
    ensures forall j :: 0 <= j < i ==> s[j] != '/'
  {
    if s == "" || s[0] == '/' then 0 else 1 + SlashAt(s[1..])
  }

  /** routeGetPrefix: the length is the mask's, the family's full width, or 0. */
  function GetPrefix(t: Texts, arg: string, family: nat): Option<InetPrefix> {
    if !Supported(family) then None
    else
      var i := SlashAt(arg);
      var r := GetAddr1(t, arg[..i], family);
      if r.None? then None
      else
        var p := r.value;
        var width := AfBitLen(p.family);
        if i < |arg| then
          var plen := t.mask(arg[i + 1..]);
          if p.bitlen == -2 || plen.None? || plen.value > width then None
          else Some(p.(bitlen := plen.value))
        else Some(p.(bitlen := if p.bitlen == -2 then 0 else width))
  }

  /** An address value under a family: of that family unless none was asked for,
      and no bytes or all of its own family's. */
  ghost predicate FitsFamily(p: InetPrefix, family: nat) {
    && (family != AF_UNSPEC ==> p.family == family)
    && (p.data != [] ==> |p.data| == AfBitLen(p.family) / 8 && (p.family == AF_INET || p.family == AF_INET6))
  }

  lemma AddrFits(t: Texts, arg: string, family: nat)
    requires WellRead(t) && GetAddr1(t, arg, family).Some? && Supported(family)
    ensures FitsFamily(GetAddr1(t, arg, family).value, family)
  {
  }

  lemma PrefixFits(t: Texts, arg: string, family: nat)
    requires WellRead(t) && GetPrefix(t, arg, family).Some?
    ensures FitsFamily(GetPrefix(t, arg, family).value, family)
    ensures 0 <= GetPrefix(t, arg, family).value.bitlen <= AfBitLen(GetPrefix(t, arg, family).value.family)
  {
    AddrFits(t, arg[..SlashAt(arg)], family);
  }

  // ------------------------------------------------------------------------- attributes

  datatype Kind = Local | Address | Broadcast | Anycast

  datatype Attr =
    | Addr(kind: Kind, data: Octets)
    | Label(text: string)
    | Priority(metric: nat)
    | Proto(proto: nat)
    | CacheInfo(preferred: nat, valid: nat)

  predicate IsKind(a: Attr, k: Kind) {
    a.Addr? && a.kind == k
  }

  /** How many attributes of a kind there are, and how many with bytes. */
  function Count(attrs: seq<Attr>, k: Kind): nat {
    if attrs == [] then 0
    else Count(attrs[..|attrs| - 1], k) + (if IsKind(attrs[|attrs| - 1], k) then 1 else 0)
  }

  function Filled(attrs: seq<Attr>, k: Kind): nat {
    if attrs == [] then 0
    else
      var a := attrs[|attrs| - 1];
      Filled(attrs[..|attrs| - 1], k) + (if IsKind(a, k) && a.data != [] then 1 else 0)
  }

  lemma CountSnoc(attrs: seq<Attr>, a: Attr, k: Kind)
    ensures Count(attrs + [a], k) == Count(attrs, k) + if IsKind(a, k) then 1 else 0
    ensures Filled(attrs + [a], k) == Filled(attrs, k) + if IsKind(a, k) && a.data != [] then 1 else 0
  {
    assert (attrs + [a])[..|attrs|] == attrs;
  }

  // ------------------------------------------------------------------------ the state

  /** ipaddr_modify's locals. `brdLen` is -1 for `brd +` and -2 for `brd -`. */
  datatype ParseState = ParseState(
    del: bool, family: nat, prefixlen: int, scope: nat, attrs: seq<Attr>, dev: Option<string>,
    lcl: InetPrefix, lclSpecified: bool, localLen: nat,
    peer: Option<InetPrefix>, peerLen: nat, brdLen: int, anyLen: nat, scoped: bool,
    valid: Option<nat>, preferred: Option<nat>, flags: set<nat>)

  function Init(del: bool, family: nat): ParseState {
    ParseState(del, family, 0, 0, [], None, InetPrefix(0, [], 0), false, 0, None, 0, 0, 0, false, None, None, {})
  }

  function BitlenU8(b: int): int {
    if b < 0 || b > 255 then 0 else b
  }

  function Adopt(family: nat, f: nat): nat {
    if family == AF_UNSPEC then f else family
  }

  datatype Arm = PeerArm | BroadcastArm | AnycastArm | ScopeArm | DevArm | LabelArm | MetricArm
               | ValidArm | PreferredArm | FlagArm | ProtoArm

  /** A flag name: read-only, writable for IPv6 only, or writable. */
  datatype FlagKind = ReadOnly | V6Only(v6bit: nat) | Writable(bit: nat)

  /** What the words mean: the keyword table, the flag table and the value readers. */
  datatype Words = Words(
    texts: Texts, keyword: string -> Option<Arm>, flag: string -> FlagKind, isHelp: string -> bool,
    scope: string -> Option<nat>, u32: string -> Option<nat>, proto: string -> Option<nat>)

  function ApplyPeer(w: Words, st: ParseState, v: string): Option<ParseState> {
    var p := GetPrefix(w.texts, v, st.family);
    if st.peerLen != 0 || p.None? then None
    else Some(st.(peer := p, peerLen := |p.value.data|, family := Adopt(st.family, p.value.family),
                  attrs := st.attrs + [Addr(Address, p.value.data)], prefixlen := BitlenU8(p.value.bitlen)))
  }

  function ApplyBroadcast(w: Words, st: ParseState, v: string): Option<ParseState> {
    if st.brdLen != 0 then None
    else if v == "+" then Some(st.(brdLen := -1))
    else if v == "-" then Some(st.(brdLen := -2))
    else
      var a := GetAddr(w.texts, v, st.family);
      if a.None? then None
      else Some(st.(family := Adopt(st.family, a.value.family), brdLen := |a.value.data|,
                    attrs := st.attrs + [Addr(Broadcast, a.value.data)]))
  }

  function ApplyAnycast(w: Words, st: ParseState, v: string): Option<ParseState> {
    var a := GetAddr(w.texts, v, st.family);
    if st.anyLen != 0 || a.None? then None
    else Some(st.(family := Adopt(st.family, a.value.family), anyLen := |a.value.data|,
                  attrs := st.attrs + [Addr(Anycast, a.value.data)]))
  }

  function ApplyLocal(w: Words, st: ParseState, v: string): Option<ParseState> {
    var p := GetPrefix(w.texts, v, st.family);
    if w.isHelp(v) || st.localLen != 0 || p.None? then None
    else Some(st.(lcl := p.value, lclSpecified := '/' in v || v == "default", localLen := |p.value.data|,
                  family := Adopt(st.family, p.value.family),
                  attrs := st.attrs + [Addr(Local, p.value.data)]))
  }

  function ReadLifetime(w: Words, v: string): Option<nat> {
    if v == "forever" then Some(MAX_U32) else w.u32(v)
  }

  /** The flag words after a flag name, under the family read so far. */
  function WithFlag(kind: FlagKind, family: nat, flags: set<nat>): set<nat> {
    match kind
    case ReadOnly => flags
    case V6Only(bit) => if family == AF_INET6 then flags + {bit} else flags
    case Writable(bit) => flags + {bit}
  }

  function ApplyFlag(w: Words, st: ParseState, name: string): ParseState {
    st.(flags := WithFlag(w.flag(name), st.family, st.flags))
  }

  /** A keyword arm with its value. */
  function ApplyArm(w: Words, st: ParseState, arm: Arm, v: string): Option<ParseState> {
    match arm
    case PeerArm => ApplyPeer(w, st, v)
    case BroadcastArm => ApplyBroadcast(w, st, v)
    case AnycastArm => ApplyAnycast(w, st, v)
    case ScopeArm => if w.scope(v).None? then None else Some(st.(scope := w.scope(v).value, scoped := true))
    case DevArm => Some(st.(dev := Some(v)))
    case LabelArm => Some(st.(attrs := st.attrs + [Label(v)]))
    case MetricArm => if w.u32(v).None? then None else Some(st.(attrs := st.attrs + [Priority(w.u32(v).value)]))
    case ProtoArm => if w.proto(v).None? then None else Some(st.(attrs := st.attrs + [Proto(w.proto(v).value)]))
    case ValidArm => if st.valid.Some? || ReadLifetime(w, v).None? then None else Some(st.(valid := ReadLifetime(w, v)))
    case PreferredArm =>
      if st.preferred.Some? || ReadLifetime(w, v).None? then None else Some(st.(preferred := ReadLifetime(w, v)))
    case FlagArm => Some(ApplyFlag(w, st, v))
  }

  // ------------------------------------------------------------------------- the argv

  /** One item of the argv: an arm or the local address, its value, and how many words it is. */
  datatype Item = Keyed(arm: Arm, value: string, words: nat) | LocalItem(value: string, words: nat)

  /** The item at `i`, decided by the words alone; none when a value is missing. */
  function ItemAt(w: Words, argv: seq<string>, i: nat): (r: Option<Item>)
    requires i < |argv|
    ensures r.Some? ==> 1 <= r.value.words <= |argv| - i
  {
    match w.keyword(argv[i])
    case Some(FlagArm) => Some(Keyed(FlagArm, argv[i], 1))
    case Some(arm) => if i + 1 < |argv| then Some(Keyed(arm, argv[i + 1], 2)) else None
    case None =>
      if argv[i] != "local" then Some(LocalItem(argv[i], 1))
      else if i + 1 < |argv| then Some(LocalItem(argv[i + 1], 2))
      else None
  }

  function ApplyItem(w: Words, st: ParseState, item: Item): Option<ParseState> {
    match item
    case Keyed(arm, v, _) => ApplyArm(w, st, arm, v)
    case LocalItem(v, _) => ApplyLocal(w, st, v)
  }

  /** The state the rest of the argv leads to. */
  function ReadFrom(w: Words, st: ParseState, argv: seq<string>, i: nat): Option<ParseState>
    requires i <= |argv|
    decreases |argv| - i
  {
    if i == |argv| then Some(st)
    else
      match ItemAt(w, argv, i)
      case None => None
      case Some(item) =>
        match ApplyItem(w, st, item)
        case None => None
        case Some(st') => ReadFrom(w, st', argv, i + item.words)
  }

  /** The first item of an argv that is read to the end. */
  lemma ReadSteps(w: Words, st: ParseState, argv: seq<string>, i: nat, st': ParseState)
    returns (item: Item, next: ParseState)
    requires i < |argv| && ReadFrom(w, st, argv, i) == Some(st')
    ensures ItemAt(w, argv, i) == Some(item) && ApplyItem(w, st, item) == Some(next)
    ensures ReadFrom(w, next, argv, i + item.words) == Some(st')
  {
    item := ItemAt(w, argv, i).value;
    next := ApplyItem(w, st, item).value;
  }

  // ------------------------------------------------------------------- the loop's invariant

  /** Every address attribute has no bytes or the family's number of them. */
  ghost predicate OneFamily(attrs: seq<Attr>, family: nat) {
    forall a :: a in attrs && a.Addr? && a.data != [] ==>
      |a.data| == AfBitLen(family) / 8 && (family == AF_INET || family == AF_INET6)
  }

  ghost predicate LoopInv(st: ParseState) {
    && OneFamily(st.attrs, st.family)
    && Filled(st.attrs, Local) == (if st.localLen != 0 then 1 else 0)
    && Filled(st.attrs, Address) == (if st.peerLen != 0 then 1 else 0)
    && Filled(st.attrs, Broadcast) == (if st.brdLen > 0 then 1 else 0)
    && Filled(st.attrs, Anycast) == (if st.anyLen != 0 then 1 else 0)
    && (forall a :: a in st.attrs ==> !a.CacheInfo?)
    && st.localLen == |st.lcl.data| && (st.lcl.data != [] ==> st.lcl.family == st.family)
    && 0 <= st.lcl.bitlen
    && (st.peer.Some? ==> |st.peer.value.data| == st.peerLen && 0 <= st.peer.value.bitlen)
    && (st.peerLen != 0 ==> st.peer.Some? && st.peer.value.family == st.family)
    && (st.lcl.data != [] ==> FitsFamily(st.lcl, st.family) && Addr(Local, st.lcl.data) in st.attrs)
    && (st.peer.Some? && st.peer.value.data != [] ==> FitsFamily(st.peer.value, st.family))
  }

  /** Taking the family of a value keeps what was read under the family before. */
  lemma AdoptKeepsFamily(attrs: seq<Attr>, family: nat, p: InetPrefix, k: Kind)
    requires OneFamily(attrs, family) && FitsFamily(p, family)
    ensures OneFamily(attrs + [Addr(k, p.data)], Adopt(family, p.family))
    ensures p.data != [] ==> FitsFamily(p, Adopt(family, p.family))
  {
    assert AfBitLen(AF_UNSPEC) == 0;
  }

  lemma CountsSnoc(attrs: seq<Attr>, a: Attr)
    ensures forall k :: Filled(attrs + [a], k) == Filled(attrs, k) + if IsKind(a, k) && a.data != [] then 1 else 0
  {
    forall k ensures Filled(attrs + [a], k) == Filled(attrs, k) + if IsKind(a, k) && a.data != [] then 1 else 0 {
      CountSnoc(attrs, a, k);
    }
  }

  lemma PeerKeepsInv(w: Words, st: ParseState, v: string, st': ParseState)
    requires WellRead(w.texts) && LoopInv(st) && ApplyPeer(w, st, v) == Some(st')
    ensures LoopInv(st')
  {
    var p := GetPrefix(w.texts, v, st.family).value;
    PrefixFits(w.texts, v, st.family);
    AdoptKeepsFamily(st.attrs, st.family, p, Address);
    CountsSnoc(st.attrs, Addr(Address, p.data));
  }

  lemma BroadcastKeepsInv(w: Words, st: ParseState, v: string, st': ParseState)
    requires WellRead(w.texts) && LoopInv(st) && ApplyBroadcast(w, st, v) == Some(st')
    ensures LoopInv(st')
  {
    if v != "+" && v != "-" {
      var a := GetAddr(w.texts, v, st.family).value;
      AddrFits(w.texts, v, st.family);
      AdoptKeepsFamily(st.attrs, st.family, a, Broadcast);
      CountsSnoc(st.attrs, Addr(Broadcast, a.data));
    }
  }

  lemma AnycastKeepsInv(w: Words, st: ParseState, v: string, st': ParseState)
    requires WellRead(w.texts) && LoopInv(st) && ApplyAnycast(w, st, v) == Some(st')
    ensures LoopInv(st')
  {
    var a := GetAddr(w.texts, v, st.family).value;
    AddrFits(w.texts, v, st.family);
    AdoptKeepsFamily(st.attrs, st.family, a, Anycast);
    CountsSnoc(st.attrs, Addr(Anycast, a.data));
  }

  lemma LocalKeepsInv(w: Words, st: ParseState, v: string, st': ParseState)
    requires WellRead(w.texts) && LoopInv(st) && ApplyLocal(w, st, v) == Some(st')
    ensures LoopInv(st')
  {
    var p := GetPrefix(w.texts, v, st.family).value;
    PrefixFits(w.texts, v, st.family);
    AdoptKeepsFamily(st.attrs, st.family, p, Local);
    CountsSnoc(st.attrs, Addr(Local, p.data));
  }

  lemma PlainAttrKeepsInv(st: ParseState, a: Attr, st': ParseState)
    requires LoopInv(st) && !a.Addr? && !a.CacheInfo? && st' == st.(attrs := st.attrs + [a])
    ensures LoopInv(st')
  {
    CountsSnoc(st.attrs, a);
  }

  /** The arms that touch no address. */
  lemma OtherFieldsKeepInv(st: ParseState, st': ParseState)
    requires LoopInv(st)
    requires st'.attrs == st.attrs && st'.family == st.family && st'.lcl == st.lcl && st'.localLen == st.localLen
    requires st'.peer == st.peer && st'.peerLen == st.peerLen && st'.brdLen == st.brdLen && st'.anyLen == st.anyLen
    ensures LoopInv(st')
  {
  }

  lemma AttrArmKeepsInv(w: Words, st: ParseState, arm: Arm, v: string, st': ParseState)
    requires arm.LabelArm? || arm.MetricArm? || arm.ProtoArm?
    requires LoopInv(st) && ApplyArm(w, st, arm, v) == Some(st')
    ensures LoopInv(st')
  {
    var a := st'.attrs[|st.attrs|];
    assert st'.attrs == st.attrs + [a];
    PlainAttrKeepsInv(st, a, st');
  }

  lemma FieldArmKeepsInv(w: Words, st: ParseState, arm: Arm, v: string, st': ParseState)
    requires arm.ScopeArm? || arm.DevArm? || arm.ValidArm? || arm.PreferredArm?
    requires LoopInv(st) && ApplyArm(w, st, arm, v) == Some(st')
    ensures LoopInv(st')
  {
    OtherFieldsKeepInv(st, st');
  }

  lemma FlagKeepsInv(w: Words, st: ParseState, v: string, st': ParseState)
    requires LoopInv(st) && ApplyFlag(w, st, v) == st'
    ensures LoopInv(st')
  {
    OtherFieldsKeepInv(st, st');
  }

  lemma ArmKeepsInv(w: Words, st: ParseState, arm: Arm, v: string, st': ParseState)
    requires WellRead(w.texts) && LoopInv(st) && ApplyArm(w, st, arm, v) == Some(st')
    ensures LoopInv(st')
  {
    match arm
    case PeerArm => PeerKeepsInv(w, st, v, st');
    case BroadcastArm => BroadcastKeepsInv(w, st, v, st');
    case AnycastArm => AnycastKeepsInv(w, st, v, st');
    case FlagArm => FlagKeepsInv(w, st, v, st');
    case _ =>
      if arm.LabelArm? || arm.MetricArm? || arm.ProtoArm? {
        AttrArmKeepsInv(w, st, arm, v, st');
      } else {
        FieldArmKeepsInv(w, st, arm, v, st');
      }
  }

  lemma ItemKeepsInv(w: Words, st: ParseState, item: Item, st': ParseState)
    requires WellRead(w.texts) && LoopInv(st) && ApplyItem(w, st, item) == Some(st')
    ensures LoopInv(st')
  {
    match item
    case LocalItem(v, _) => LocalKeepsInv(w, st, v, st');
    case Keyed(arm, v, _) => ArmKeepsInv(w, st, arm, v, st');
  }

  lemma {:induction false} ReadKeepsInv(w: Words, st: ParseState, argv: seq<string>, i: nat, st': ParseState)
    requires WellRead(w.texts) && LoopInv(st) && i <= |argv| && ReadFrom(w, st, argv, i) == Some(st')
    ensures LoopInv(st')
    decreases |argv| - i
  {
    if i < |argv| {
      var item, next := ReadSteps(w, st, argv, i, st');
      ItemKeepsInv(w, st, item, next);
      ReadKeepsInv(w, next, argv, i + item.words, st');
    }
  }

  // ------------------------------------------------------------------ what the argv gives

  /** Does an item append an attribute of a kind? */
  predicate Gives(item: Item, k: Kind) {
    match item
    case LocalItem(_, _) => k == Local
    case Keyed(arm, v, _) =>
      match arm
      case PeerArm => k == Address
      case BroadcastArm => k == Broadcast && v != "+" && v != "-"
      case AnycastArm => k == Anycast
      case _ => false
  }

  /** How often the words from `i` on give a kind. */
  function Given(w: Words, argv: seq<string>, i: nat, k: Kind): nat
    requires i <= |argv|
    decreases |argv| - i
  {
    if i == |argv| then 0
    else
      match ItemAt(w, argv, i)
      case None => 0
      case Some(item) => (if Gives(item, k) then 1 else 0) + Given(w, argv, i + item.words, k)
  }

  /** The device the words from `i` on name last. */
  function LastDev(w: Words, argv: seq<string>, i: nat): Option<string>
    requires i <= |argv|
    decreases |argv| - i
  {
    if i == |argv| then None
    else
      match ItemAt(w, argv, i)
      case None => None
      case Some(item) =>
        var later := LastDev(w, argv, i + item.words);
        if later.Some? then later
        else if item.Keyed? && item.arm == DevArm then Some(item.value)
        else None
  }

  /** An arm appends what it gives, and no more. */
  ghost predicate Appends(before: seq<Attr>, after: seq<Attr>, given: bool, k: Kind) {
    || (after == before && !given)
    || (|after| == |before| + 1 && after[..|before|] == before && (IsKind(after[|before|], k) <==> given))
  }

  lemma AppendCounts(before: seq<Attr>, after: seq<Attr>, given: bool, k: Kind)
    requires Appends(before, after, given, k)
    ensures Count(after, k) == Count(before, k) + if given then 1 else 0
  {
    if after != before {
      assert after == before + [after[|before|]];
      CountSnoc(before, after[|before|], k);
    }
  }

  lemma ArmAppends(w: Words, st: ParseState, arm: Arm, v: string, st': ParseState, k: Kind)
    requires ApplyArm(w, st, arm, v) == Some(st')
    ensures Appends(st.attrs, st'.attrs, Gives(Keyed(arm, v, 2), k), k)
    ensures st'.dev == if arm == DevArm then Some(v) else st.dev
  {
  }

  lemma ArmCounts(w: Words, st: ParseState, arm: Arm, v: string, st': ParseState, k: Kind)
    requires ApplyArm(w, st, arm, v) == Some(st')
    ensures Count(st'.attrs, k) == Count(st.attrs, k) + if Gives(Keyed(arm, v, 2), k) then 1 else 0
    ensures st'.dev == if arm == DevArm then Some(v) else st.dev
  {
    ArmAppends(w, st, arm, v, st', k);
    AppendCounts(st.attrs, st'.attrs, Gives(Keyed(arm, v, 2), k), k);
  }

  lemma ItemCounts(w: Words, st: ParseState, item: Item, st': ParseState, k: Kind)
    requires ApplyItem(w, st, item) == Some(st')
    ensures Count(st'.attrs, k) == Count(st.attrs, k) + if Gives(item, k) then 1 else 0
    ensures st'.dev == if item.Keyed? && item.arm == DevArm then Some(item.value) else st.dev
  {
    match item
    case Keyed(arm, v, _) => ArmCounts(w, st, arm, v, st', k);
    case LocalItem(v, _) => CountSnoc(st.attrs, st'.attrs[|st.attrs|], k);
  }

  lemma GivenStep(w: Words, argv: seq<string>, i: nat, item: Item, k: Kind)
    requires i < |argv| && ItemAt(w, argv, i) == Some(item)
    ensures Given(w, argv, i, k) == (if Gives(item, k) then 1 else 0) + Given(w, argv, i + item.words, k)
  {
  }

  /** Every value given is an attribute in place. */
  lemma {:induction false} ReadCounts(w: Words, st: ParseState, argv: seq<string>, i: nat, st': ParseState, k: Kind)
    requires i <= |argv| && ReadFrom(w, st, argv, i) == Some(st')
    ensures Count(st'.attrs, k) == Count(st.attrs, k) + Given(w, argv, i, k)
    decreases |argv| - i
  {
    if i < |argv| {
      var item, next := ReadSteps(w, st, argv, i, st');
      ItemCounts(w, st, item, next, k);
      GivenStep(w, argv, i, item, k);
      ReadCounts(w, next, argv, i + item.words, st', k);
    }
  }

  /** The last device named stands. */
  lemma {:induction false} ReadDev(w: Words, st: ParseState, argv: seq<string>, i: nat, st': ParseState)
    requires i <= |argv| && ReadFrom(w, st, argv, i) == Some(st')
    ensures st'.dev == if LastDev(w, argv, i).Some? then LastDev(w, argv, i) else st.dev
    decreases |argv| - i
  {
    if i < |argv| {
      var item, next := ReadSteps(w, st, argv, i, st');
      ItemCounts(w, st, item, next, Local);
      ReadDev(w, next, argv, i + item.words, st');
    }
  }

  // ------------------------------------------------------------------------ after the loop

  datatype Request = Request(
    family: nat, prefixlen: int, scope: nat, index: int, flags: set<nat>, attrs: seq<Attr>, post: seq<Attr>)

  /** Is the local address copied to IFA_ADDRESS? Not for a wildcard delete. */
  predicate CopiesLocal(st: ParseState) {
    st.peerLen == 0 && st.localLen != 0 && !(st.del && st.lcl.family == AF_INET && !st.lclSpecified)
  }

  function FinalPeer(st: ParseState): Option<InetPrefix> {
    if CopiesLocal(st) then Some(st.lcl) else st.peer
  }

  /** `brd +` or `brd -` on anything but a delete. */
  predicate AsksBroadcast(st: ParseState) {
    st.brdLen < 0 && !st.del
  }

  predicate CanBroadcast(st: ParseState) {
    AsksBroadcast(st) ==> st.family == AF_INET && FinalPeer(st).Some?
  }

  predicate ComputesBroadcast(st: ParseState) {
    AsksBroadcast(st) && FinalPeer(st).Some? && FinalPeer(st).value.bitlen <= 30
  }

  predicate GivesLifetime(st: ParseState) {
    st.valid.Some? || st.preferred.Some?
  }

  function Lifetime(l: Option<nat>): nat {
    if l.Some? then l.value else MAX_U32
  }

  predicate IsMulticast(a: InetPrefix) {
    a.data != [] &&
    ((a.family == AF_INET && a.data[0] & 0xf0 == 0xe0) || (a.family == AF_INET6 && a.data[0] == 0xff))
  }

  function DefaultScope(lcl: InetPrefix): nat {
    if lcl.family == AF_INET && lcl.data != [] && lcl.data[0] == 127 then 254 else 0
  }

  /** The checks before the device is looked up, and those after. */
  predicate Ready(st: ParseState) {
    st.dev.Some? && CanBroadcast(st)
  }

  predicate Accepted(st: ParseState, idx: Option<int>) {
    && idx.Some? && idx.value > 0
    && (GivesLifetime(st) ==> 0 < Lifetime(st.valid) && Lifetime(st.preferred) <= Lifetime(st.valid))
    && (MCAUTOJOIN in st.flags ==> IsMulticast(st.lcl))
  }

  function CopyPart(st: ParseState): seq<Attr> {
    if CopiesLocal(st) then [Addr(Address, st.lcl.data)] else []
  }

  function BroadcastPart(st: ParseState, brd: Octets): seq<Attr> {
    if ComputesBroadcast(st) then [Addr(Broadcast, brd)] else []
  }

  function CachePart(st: ParseState): seq<Attr> {
    if GivesLifetime(st) then [CacheInfo(Lifetime(st.preferred), Lifetime(st.valid))] else []
  }

  /** The broadcast the peer's prefix has: every host bit one, or every one zero. */
  ghost predicate IsBroadcastOf(st: ParseState, brd: Octets) {
    ComputesBroadcast(st) ==>
      var peer := FinalPeer(st).value;
      && |brd| == |peer.data|
      && (peer.data != [] ==> 0 <= peer.bitlen && IsFilled(brd, peer.data, peer.bitlen, st.brdLen == -1))
  }

  function RequestOf(st: ParseState, idx: int, brd: Octets): Request {
    Request(
      st.family, if st.prefixlen == 0 then BitlenU8(st.lcl.bitlen) else st.prefixlen,
      if !st.scoped && !st.del then DefaultScope(st.lcl) else st.scope, idx, st.flags, st.attrs,
      CopyPart(st) + BroadcastPart(st, brd) + CachePart(st))
  }

  // ---------------------------------------------------------------- what is accepted

  lemma {:induction false} FilledAppend(a: seq<Attr>, b: seq<Attr>, k: Kind)
    ensures Filled(a + b, k) == Filled(a, k) + Filled(b, k) && Count(a + b, k) == Count(a, k) + Count(b, k)
  {
    if b == [] {
      assert a + b == a;
    } else {
      var b', x := b[..|b| - 1], b[|b| - 1];
      FilledAppend(a, b', k);
      CountSnoc(a + b', x, k);
      CountSnoc(b', x, k);
      assert a + b == (a + b') + [x] && b == b' + [x];
    }
  }

  lemma CountOne(a: Attr, k: Kind)
    ensures Count([a], k) == (if IsKind(a, k) then 1 else 0)
    ensures Filled([a], k) == (if IsKind(a, k) && a.data != [] then 1 else 0)
  {
    assert [a] == [] + [a];
    CountSnoc([], a, k);
  }

  /** What the loop left out and the rest adds, kind by kind. */
  function Extra(st: ParseState, k: Kind): nat {
    match k
    case Address => if CopiesLocal(st) then 1 else 0
    case Broadcast => if ComputesBroadcast(st) then 1 else 0
    case _ => 0
  }

  lemma PostCounts(st: ParseState, brd: Octets, post: seq<Attr>, k: Kind)
    requires post == CopyPart(st) + BroadcastPart(st, brd) + CachePart(st)
    ensures Count(post, k) == Extra(st, k)
    ensures Filled(post, k) <= Extra(st, k)
  {
    FilledAppend(CopyPart(st) + BroadcastPart(st, brd), CachePart(st), k);
    FilledAppend(CopyPart(st), BroadcastPart(st, brd), k);
    CountOne(Addr(Address, st.lcl.data), k);
    CountOne(Addr(Broadcast, brd), k);
    CountOne(CacheInfo(Lifetime(st.preferred), Lifetime(st.valid)), k);
  }

  /** After the loop a kind with bytes is not added to. */
  lemma ExtraFillsAGap(st: ParseState, k: Kind)
    requires LoopInv(st)
    ensures Filled(st.attrs, k) + Extra(st, k) <= 1
  {
  }

  lemma PeerFits(st: ParseState)
    requires LoopInv(st) && FinalPeer(st).Some? && FinalPeer(st).value.data != []
    ensures |FinalPeer(st).value.data| == AfBitLen(st.family) / 8
    ensures st.family == AF_INET || st.family == AF_INET6
  {
  }

  /** One family, at most one payload of a kind, one IFA_CACHEINFO of a lifetime that runs. */
  lemma AcceptedRequest(w: Words, del: bool, family: nat, argv: seq<string>, st: ParseState, idx: int, brd: Octets,
                        r: Request)
    requires WellRead(w.texts) && ReadFrom(w, Init(del, family), argv, 0) == Some(st)
    requires Ready(st) && Accepted(st, Some(idx)) && IsBroadcastOf(st, brd) && r == RequestOf(st, idx, brd)
    ensures OneFamily(r.attrs + r.post, r.family)
    ensures forall k :: Filled(r.attrs + r.post, k) <= 1
    ensures forall a :: a in r.attrs ==> !a.CacheInfo?
    ensures forall i, j :: 0 <= i < j < |r.post| ==> !(r.post[i].CacheInfo? && r.post[j].CacheInfo?)
    ensures forall a :: a in r.post && a.CacheInfo? ==> 0 < a.valid && a.preferred <= a.valid
    ensures MCAUTOJOIN in r.flags ==>
              exists p: InetPrefix :: IsMulticast(p) && p.family == r.family && Addr(Local, p.data) in r.attrs
  {
    ReadKeepsInv(w, Init(del, family), argv, 0, st);
    forall k ensures Filled(r.attrs + r.post, k) <= 1 {
      FilledAppend(r.attrs, r.post, k);
      PostCounts(st, brd, r.post, k);
      ExtraFillsAGap(st, k);
    }
    if CopiesLocal(st) || ComputesBroadcast(st) {
      if FinalPeer(st).value.data != [] {
        PeerFits(st);
      }
    }
  }

  /** How many of a kind are sent: those the argv gives, and the one added after it. */
  lemma AttributesAreCounted(w: Words, del: bool, family: nat, argv: seq<string>, st: ParseState, idx: int,
                             brd: Octets, r: Request, k: Kind)
    requires ReadFrom(w, Init(del, family), argv, 0) == Some(st) && r == RequestOf(st, idx, brd)
    ensures Count(r.attrs + r.post, k) == Given(w, argv, 0, k) + Extra(st, k)
  {
    ReadCounts(w, Init(del, family), argv, 0, st, k);
    FilledAppend(r.attrs, r.post, k);
    PostCounts(st, brd, r.post, k);
  }

  // ------------------------------------------------------- the argv, summed up word by word

  /** What decides the additions, read off the words: the family so far, whether
      a local and a peer had bytes, the last of each, and `brd +` or `brd -`. */
  datatype Summary = Summary(
    family: nat, localBytes: bool, peerBytes: bool, lastLocal: Option<string>, lastPeer: Option<string>, asks: bool)

  function StartSum(family: nat): Summary {
    Summary(family, false, false, None, None, false)
  }

  predicate Byteless(v: string) {
    v == "default" || v == "all" || v == "any"
  }

  function NameOf(v: string): string {
    v[..SlashAt(v)]
  }

  function FamilyAfter(family: nat, name: string): nat {
    if family != AF_UNSPEC || Byteless(name) then family
    else if ':' in name then AF_INET6
    else AF_INET
  }

  /** `all` and `any` have no bytes, `default` those of the family, an address its own. */
  predicate GivesBytes(name: string, family: nat) {
    name != "all" && name != "any" && (name == "default" ==> AfBitLen(family) / 8 > 0)
  }

  predicate Specified(v: string) {
    '/' in v || v == "default"
  }

  /** A prefix of at most 30 bits: `default`, `all` and `any`, or a mask that says so. */
  predicate ShortPrefix(t: Texts, v: string) {
    || Byteless(NameOf(v))
    || (SlashAt(v) < |v| && t.mask(v[SlashAt(v) + 1..]).Some? && t.mask(v[SlashAt(v) + 1..]).value <= 30)
  }

  function SumItem(sum: Summary, item: Item): Summary {
    match item
    case LocalItem(v, _) =>
      sum.(family := FamilyAfter(sum.family, NameOf(v)), localBytes := GivesBytes(NameOf(v), sum.family),
           lastLocal := Some(v))
    case Keyed(PeerArm, v, _) =>
      sum.(family := FamilyAfter(sum.family, NameOf(v)), peerBytes := GivesBytes(NameOf(v), sum.family),
           lastPeer := Some(v))
    case Keyed(BroadcastArm, v, _) =>
      if v == "+" || v == "-" then sum.(asks := true) else sum.(family := FamilyAfter(sum.family, v))
    case Keyed(AnycastArm, v, _) => sum.(family := FamilyAfter(sum.family, v))
    case _ => sum
  }

  function SumFrom(w: Words, sum: Summary, argv: seq<string>, i: nat): Summary
    requires i <= |argv|
    decreases |argv| - i
  {
    if i == |argv| then sum
    else
      match ItemAt(w, argv, i)
      case None => sum
      case Some(item) => SumFrom(w, SumItem(sum, item), argv, i + item.words)
  }

  /** The words alone: is the local copied, is a broadcast computed? */
  predicate ArgvCopies(sum: Summary, del: bool) {
    && sum.localBytes && !sum.peerBytes
    && !(del && sum.family == AF_INET && sum.lastLocal.Some? && !Specified(sum.lastLocal.value))
  }

  predicate ArgvComputes(t: Texts, sum: Summary, del: bool) {
    && sum.asks && !del
    && var from := if ArgvCopies(sum, del) then sum.lastLocal else sum.lastPeer;
       from.Some? && ShortPrefix(t, from.value)
  }

  lemma AddrIsSummed(t: Texts, name: string, family: nat)
    requires WellRead(t) && GetAddr1(t, name, family).Some?
    ensures Adopt(family, GetAddr1(t, name, family).value.family) == FamilyAfter(family, name)
    ensures GetAddr1(t, name, family).value.data != [] <==> GivesBytes(name, family)
  {
  }

  lemma PrefixIsSummed(t: Texts, v: string, family: nat, p: InetPrefix)
    requires WellRead(t) && GetPrefix(t, v, family) == Some(p)
    ensures Adopt(family, p.family) == FamilyAfter(family, NameOf(v))
    ensures p.data != [] <==> GivesBytes(NameOf(v), family)
    ensures p.bitlen <= 30 <==> ShortPrefix(t, v)
  {
    AddrIsSummed(t, NameOf(v), family);
  }

  /** A state and the sum of the words it was read from. */
  ghost predicate Summed(t: Texts, st: ParseState, sum: Summary, del: bool) {
    && st.del == del && st.family == sum.family
    && (st.localLen != 0 <==> sum.localBytes) && (st.peerLen != 0 <==> sum.peerBytes)
    && (st.brdLen < 0 <==> sum.asks)
    && (sum.localBytes ==> sum.lastLocal.Some?)
    && (sum.lastLocal.Some? ==>
          && st.lclSpecified == Specified(sum.lastLocal.value)
          && (st.lcl.bitlen <= 30 <==> ShortPrefix(t, sum.lastLocal.value)))
    && (st.peer.Some? <==> sum.lastPeer.Some?)
    && (sum.lastPeer.Some? ==> (st.peer.value.bitlen <= 30 <==> ShortPrefix(t, sum.lastPeer.value)))
  }

  lemma LocalIsSummed(w: Words, st: ParseState, v: string, st': ParseState, sum: Summary, del: bool)
    requires WellRead(w.texts) && Summed(w.texts, st, sum, del) && ApplyLocal(w, st, v) == Some(st')
    ensures Summed(w.texts, st', SumItem(sum, LocalItem(v, 1)), del)
  {
    PrefixIsSummed(w.texts, v, st.family, st'.lcl);
  }

  lemma PeerIsSummed(w: Words, st: ParseState, v: string, st': ParseState, sum: Summary, del: bool)
    requires WellRead(w.texts) && Summed(w.texts, st, sum, del) && ApplyPeer(w, st, v) == Some(st')
    ensures Summed(w.texts, st', SumItem(sum, Keyed(PeerArm, v, 2)), del)
  {
    PrefixIsSummed(w.texts, v, st.family, st'.peer.value);
  }

  lemma BroadcastIsSummed(w: Words, st: ParseState, v: string, st': ParseState, sum: Summary, del: bool)
    requires WellRead(w.texts) && Summed(w.texts, st, sum, del) && ApplyBroadcast(w, st, v) == Some(st')
    ensures Summed(w.texts, st', SumItem(sum, Keyed(BroadcastArm, v, 2)), del)
  {
    if v != "+" && v != "-" {
      AddrIsSummed(w.texts, v, st.family);
    }
  }

  lemma AnycastIsSummed(w: Words, st: ParseState, v: string, st': ParseState, sum: Summary, del: bool)
    requires WellRead(w.texts) && Summed(w.texts, st, sum, del) && ApplyAnycast(w, st, v) == Some(st')
    ensures Summed(w.texts, st', SumItem(sum, Keyed(AnycastArm, v, 2)), del)
  {
    AddrIsSummed(w.texts, v, st.family);
  }

  /** The fields a sum speaks of, unchanged. */
  lemma OthersAreSummed(t: Texts, st: ParseState, st': ParseState, sum: Summary, del: bool)
    requires Summed(t, st, sum, del)
    requires st' == st.(scope := st'.scope, scoped := st'.scoped, dev := st'.dev, attrs := st'.attrs,
                        valid := st'.valid, preferred := st'.preferred, flags := st'.flags)
    ensures Summed(t, st', sum, del)
  {
  }

  lemma PlainIsSummed(w: Words, st: ParseState, arm: Arm, v: string, st': ParseState, sum: Summary, del: bool)
    requires !arm.PeerArm? && !arm.BroadcastArm? && !arm.AnycastArm?
    requires Summed(w.texts, st, sum, del) && ApplyArm(w, st, arm, v) == Some(st')
    ensures Summed(w.texts, st', sum, del)
  {
    OthersAreSummed(w.texts, st, st', sum, del);
  }

  lemma ItemIsSummed(w: Words, st: ParseState, item: Item, st': ParseState, sum: Summary, del: bool)
    requires WellRead(w.texts) && Summed(w.texts, st, sum, del) && ApplyItem(w, st, item) == Some(st')
    ensures Summed(w.texts, st', SumItem(sum, item), del)
  {
    match item
    case LocalItem(v, _) => LocalIsSummed(w, st, v, st', sum, del);
    case Keyed(PeerArm, v, _) => PeerIsSummed(w, st, v, st', sum, del);
    case Keyed(BroadcastArm, v, _) => BroadcastIsSummed(w, st, v, st', sum, del);
    case Keyed(AnycastArm, v, _) => AnycastIsSummed(w, st, v, st', sum, del);
    case Keyed(arm, v, _) => PlainIsSummed(w, st, arm, v, st', sum, del);
  }

  lemma SumStep(w: Words, sum: Summary, argv: seq<string>, i: nat, item: Item)
    requires i < |argv| && ItemAt(w, argv, i) == Some(item)
    ensures SumFrom(w, sum, argv, i) == SumFrom(w, SumItem(sum, item), argv, i + item.words)
  {
  }

  lemma {:induction false} ReadIsSummed(w: Words, st: ParseState, argv: seq<string>, i: nat, st': ParseState,
                                        sum: Summary, del: bool)
    requires WellRead(w.texts) && i <= |argv| && ReadFrom(w, st, argv, i) == Some(st') && Summed(w.texts, st, sum, del)
    ensures Summed(w.texts, st', SumFrom(w, sum, argv, i), del)
    decreases |argv| - i
  {
    if i < |argv| {
      var item, next := ReadSteps(w, st, argv, i, st');
      ItemIsSummed(w, st, item, next, sum, del);
      SumStep(w, sum, argv, i, item);
      ReadIsSummed(w, next, argv, i + item.words, st', SumItem(sum, item), del);
    }
  }

  /** The words decide what is added after them. */
  lemma ArgvDecides(w: Words, del: bool, family: nat, argv: seq<string>, st: ParseState, sum: Summary)
    requires WellRead(w.texts) && ReadFrom(w, Init(del, family), argv, 0) == Some(st)
    requires sum == SumFrom(w, StartSum(family), argv, 0)
    ensures CopiesLocal(st) <==> ArgvCopies(sum, del)
    ensures ComputesBroadcast(st) <==> ArgvComputes(w.texts, sum, del)
  {
    ReadIsSummed(w, Init(del, family), argv, 0, st, StartSum(family), del);
    ReadKeepsInv(w, Init(del, family), argv, 0, st);
  }

  /**
   At most one of a kind is sent exactly when the words name it at most once,
   what they make the parser add included.
   */
  lemma OnceIff(w: Words, del: bool, family: nat, argv: seq<string>, st: ParseState, idx: int, brd: Octets, r: Request,
                sum: Summary)
    requires WellRead(w.texts) && ReadFrom(w, Init(del, family), argv, 0) == Some(st) && r == RequestOf(st, idx, brd)
    requires sum == SumFrom(w, StartSum(family), argv, 0)
    ensures Count(r.attrs + r.post, Local) <= 1 <==> Given(w, argv, 0, Local) <= 1
    ensures Count(r.attrs + r.post, Anycast) <= 1 <==> Given(w, argv, 0, Anycast) <= 1
    ensures Count(r.attrs + r.post, Address) <= 1
       <==> Given(w, argv, 0, Address) <= (if ArgvCopies(sum, del) then 0 else 1)
    ensures Count(r.attrs + r.post, Broadcast) <= 1
       <==> Given(w, argv, 0, Broadcast) <= (if ArgvComputes(w.texts, sum, del) then 0 else 1)
  {
    ArgvDecides(w, del, family, argv, st, sum);
    AttributesAreCounted(w, del, family, argv, st, idx, brd, r, Local);
    AttributesAreCounted(w, del, family, argv, st, idx, brd, r, Anycast);
    AttributesAreCounted(w, del, family, argv, st, idx, brd, r, Address);
    AttributesAreCounted(w, del, family, argv, st, idx, brd, r, Broadcast);
  }

  // ------------------------------------------------------------- attributes sent twice

  lemma AnyIsTaken(w: Words, st: ParseState, st': ParseState)
    requires !w.isHelp("any") && st.family == AF_UNSPEC && st.localLen == 0
    requires st.lcl == InetPrefix(AF_UNSPEC, [], 0) && !st.lclSpecified
    requires st' == st.(attrs := st.attrs + [Addr(Local, [])])
    ensures ApplyLocal(w, st, "any") == Some(st')
  {
    AnyPrefix(w.texts);
    assert '/' !in "any";
  }

  /** Two locals: the duplicate test counts bytes, and `any` has none. */
  lemma AnyIsTakenTwice(w: Words, st: ParseState)
    requires w.keyword("any").None? && w.keyword("dev") == Some(DevArm) && !w.isHelp("any")
    requires st == Init(false, AF_UNSPEC).(attrs := [Addr(Local, []), Addr(Local, [])], dev := Some("d0"))
    ensures ReadFrom(w, Init(false, AF_UNSPEC), ["any", "any", "dev", "d0"], 0) == Some(st)
    ensures Ready(st) && Accepted(st, Some(1))
    ensures Count(RequestOf(st, 1, []).attrs, Local) == 2
  {
    var argv := ["any", "any", "dev", "d0"];
    var st0 := Init(false, AF_UNSPEC);
    var st1 := st0.(attrs := [Addr(Local, [])]);
    var st2 := st0.(attrs := [Addr(Local, []), Addr(Local, [])]);
    AnyIsTaken(w, st0, st1);
    AnyIsTaken(w, st1, st2);
    assert ReadFrom(w, st, argv, 4) == Some(st);
    assert ReadFrom(w, st2, argv, 2) == Some(st);
    assert ReadFrom(w, st1, argv, 1) == Some(st);
    CountSnoc([Addr(Local, [])], Addr(Local, []), Local);
    CountOne(Addr(Local, []), Local);
    assert st.attrs == [Addr(Local, [])] + [Addr(Local, [])];
  }

  lemma AnyPrefix(t: Texts)
    ensures GetPrefix(t, "any", AF_UNSPEC) == Some(InetPrefix(AF_UNSPEC, [], 0))
  {
    assert SlashAt("any") == 3 by { assert "any"[1..] == "ny" && "ny"[1..] == "y" && "y"[1..] == ""; }
    assert "any"[..3] == "any";
  }

  /** `10.0.0.1/24` as the two examples below read it. */
  const TEN := InetPrefix(AF_INET, [10, 0, 0, 1], 24)

  /** `ten` is a word that reads as that prefix and as nothing else. */
  ghost predicate ReadsTen(w: Words, ten: string) {
    && '/' in ten && ten != "local" && w.keyword(ten).None? && !w.isHelp(ten)
    && GetPrefix(w.texts, ten, AF_UNSPEC) == Some(TEN)
  }

  function WithTen(st: ParseState): ParseState {
    st.(lcl := TEN, lclSpecified := true, localLen := 4, family := AF_INET, attrs := st.attrs + [Addr(Local, TEN.data)])
  }

  lemma TenIsRead(w: Words, st: ParseState, ten: string)
    requires ReadsTen(w, ten) && st.family == AF_UNSPEC && st.localLen == 0
    ensures ApplyLocal(w, st, ten) == Some(WithTen(st))
  {
  }

  lemma ReadOne(w: Words, st: ParseState, argv: seq<string>, i: nat, item: Item, next: ParseState, end: ParseState)
    requires i < |argv| && ItemAt(w, argv, i) == Some(item) && ApplyItem(w, st, item) == Some(next)
    requires ReadFrom(w, next, argv, i + item.words) == Some(end)
    ensures ReadFrom(w, st, argv, i) == Some(end)
  {
  }

  /** Both examples end in `ten dev NAME`. */
  lemma EndsInTen(w: Words, st: ParseState, argv: seq<string>, i: nat, end: ParseState)
    requires |argv| == i + 3 && ReadsTen(w, argv[i]) && w.keyword(argv[i + 1]) == Some(DevArm)
    requires st.family == AF_UNSPEC && st.localLen == 0 && end == WithTen(st).(dev := Some(argv[i + 2]))
    ensures ReadFrom(w, st, argv, i) == Some(end)
  {
    TenIsRead(w, st, argv[i]);
    assert ReadFrom(w, end, argv, i + 3) == Some(end);
    ReadOne(w, WithTen(st), argv, i + 1, Keyed(DevArm, argv[i + 2], 2), end, end);
    ReadOne(w, st, argv, i, LocalItem(argv[i], 1), WithTen(st), end);
  }

  lemma CountOfTwo(kind: Kind, st: ParseState, brd: Octets, r: Request)
    requires kind != Local && st.attrs == [Addr(kind, []), Addr(Local, TEN.data)]
    requires Extra(st, kind) == 1 && r == RequestOf(st, 1, brd)
    ensures Count(r.attrs + r.post, kind) == 2
  {
    FilledAppend(r.attrs, r.post, kind);
    PostCounts(st, brd, r.post, kind);
    CountOne(Addr(kind, []), kind);
    CountSnoc([Addr(kind, [])], Addr(Local, TEN.data), kind);
    assert st.attrs == [Addr(kind, [])] + [Addr(Local, TEN.data)];
  }

  /** `peer any 10.0.0.1/24 dev d0` sends two IFA_ADDRESS: a peer without bytes
      does not keep the local from being copied. */
  lemma PeerAnyIsAddedTo(w: Words, argv: seq<string>, st: ParseState)
    requires |argv| == 5 && w.keyword(argv[0]) == Some(PeerArm) && argv[1] == "any"
    requires ReadsTen(w, argv[2]) && w.keyword(argv[3]) == Some(DevArm)
    requires st == WithTen(Init(false, AF_UNSPEC).(peer := Some(InetPrefix(AF_UNSPEC, [], 0)), attrs := [Addr(Address, [])]))
                   .(dev := Some(argv[4]))
    ensures ReadFrom(w, Init(false, AF_UNSPEC), argv, 0) == Some(st) && Ready(st) && Accepted(st, Some(1))
    ensures Count(RequestOf(st, 1, []).attrs + RequestOf(st, 1, []).post, Address) == 2
  {
    var st0 := Init(false, AF_UNSPEC);
    var st1 := st0.(peer := Some(InetPrefix(AF_UNSPEC, [], 0)), attrs := [Addr(Address, [])]);
    AnyPrefix(w.texts);
    assert st0.attrs + [Addr(Address, [])] == st1.attrs;
    EndsInTen(w, st1, argv, 2, st);
    ReadOne(w, st0, argv, 0, Keyed(PeerArm, "any", 2), st1, st);
    CountOfTwo(Address, st, [], RequestOf(st, 1, []));
  }

  /** `brd any brd + 10.0.0.1/24 dev d0` sends two IFA_BROADCAST: the first does
      not keep the second from being read. */
  lemma BrdAnyIsAddedTo(w: Words, argv: seq<string>, st: ParseState, brd: Octets)
    requires |argv| == 7 && w.keyword(argv[0]) == w.keyword(argv[2]) == Some(BroadcastArm)
    requires argv[1] == "any" && argv[3] == "+" && ReadsTen(w, argv[4]) && w.keyword(argv[5]) == Some(DevArm)
    requires st == WithTen(Init(false, AF_UNSPEC).(brdLen := -1, attrs := [Addr(Broadcast, [])])).(dev := Some(argv[6]))
    ensures ReadFrom(w, Init(false, AF_UNSPEC), argv, 0) == Some(st) && Ready(st) && Accepted(st, Some(1))
    ensures Count(RequestOf(st, 1, brd).attrs + RequestOf(st, 1, brd).post, Broadcast) == 2
  {
    var st0 := Init(false, AF_UNSPEC);
    var st1 := st0.(attrs := [Addr(Broadcast, [])]);
    var st2 := st1.(brdLen := -1);
    assert st0.attrs + [Addr(Broadcast, [])] == st1.attrs;
    EndsInTen(w, st2, argv, 4, st);
    ReadOne(w, st1, argv, 2, Keyed(BroadcastArm, "+", 2), st2, st);
    ReadOne(w, st0, argv, 0, Keyed(BroadcastArm, "any", 2), st1, st);
    CountOfTwo(Broadcast, st, brd, RequestOf(st, 1, brd));
  }

  // ------------------------------------------------------ argv whose addresses have bytes

  predicate HasBytes(item: Item) {
    (item.LocalItem? || item.arm in {PeerArm, BroadcastArm, AnycastArm}) ==> !Byteless(item.value)
  }

  predicate AllHaveBytes(w: Words, argv: seq<string>, i: nat)
    requires i <= |argv|
    decreases |argv| - i
  {
    i < |argv| && ItemAt(w, argv, i).Some? ==>
      var item := ItemAt(w, argv, i).value;
      HasBytes(item) && AllHaveBytes(w, argv, i + item.words)
  }

  ghost predicate BytesInv(attrs: seq<Attr>) {
    forall a :: a in attrs && a.Addr? ==> a.data != []
  }

  lemma PrefixHasBytes(t: Texts, v: string, family: nat)
    requires WellRead(t) && GetPrefix(t, v, family).Some? && !Byteless(v)
    ensures GetPrefix(t, v, family).value.data != []
  {
    if SlashAt(v) == |v| {
      assert v[..|v|] == v;
    }
  }

  lemma BytesSnoc(before: seq<Attr>, a: Attr, after: seq<Attr>)
    requires BytesInv(before) && (a.Addr? ==> a.data != []) && after == before + [a]
    ensures BytesInv(after)
  {
  }

  lemma PeerKeepsBytes(w: Words, st: ParseState, v: string, st': ParseState)
    requires WellRead(w.texts) && BytesInv(st.attrs) && ApplyPeer(w, st, v) == Some(st') && !Byteless(v)
    ensures BytesInv(st'.attrs)
  {
    PrefixHasBytes(w.texts, v, st.family);
    BytesSnoc(st.attrs, Addr(Address, st'.peer.value.data), st'.attrs);
  }

  lemma BroadcastKeepsBytes(w: Words, st: ParseState, v: string, st': ParseState)
    requires WellRead(w.texts) && BytesInv(st.attrs) && ApplyBroadcast(w, st, v) == Some(st') && !Byteless(v)
    ensures BytesInv(st'.attrs)
  {
    if v != "+" && v != "-" {
      BytesSnoc(st.attrs, Addr(Broadcast, GetAddr(w.texts, v, st.family).value.data), st'.attrs);
    }
  }

  lemma AnycastKeepsBytes(w: Words, st: ParseState, v: string, st': ParseState)
    requires WellRead(w.texts) && BytesInv(st.attrs) && ApplyAnycast(w, st, v) == Some(st') && !Byteless(v)
    ensures BytesInv(st'.attrs)
  {
    BytesSnoc(st.attrs, Addr(Anycast, GetAddr(w.texts, v, st.family).value.data), st'.attrs);
  }

  lemma ArmKeepsBytes(w: Words, st: ParseState, arm: Arm, v: string, st': ParseState)
    requires WellRead(w.texts) && BytesInv(st.attrs) && ApplyArm(w, st, arm, v) == Some(st')
    requires arm in {PeerArm, BroadcastArm, AnycastArm} ==> !Byteless(v)
    ensures BytesInv(st'.attrs)
  {
    match arm
    case PeerArm => PeerKeepsBytes(w, st, v, st');
    case BroadcastArm => BroadcastKeepsBytes(w, st, v, st');
    case AnycastArm => AnycastKeepsBytes(w, st, v, st');
    case LabelArm => BytesSnoc(st.attrs, Label(v), st'.attrs);
    case MetricArm => BytesSnoc(st.attrs, Priority(w.u32(v).value), st'.attrs);
    case ProtoArm => BytesSnoc(st.attrs, Proto(w.proto(v).value), st'.attrs);
    case _ =>
  }

  lemma ItemKeepsBytes(w: Words, st: ParseState, item: Item, st': ParseState)
    requires WellRead(w.texts) && BytesInv(st.attrs) && HasBytes(item) && ApplyItem(w, st, item) == Some(st')
    ensures BytesInv(st'.attrs)
  {
    match item
    case Keyed(arm, v, _) => ArmKeepsBytes(w, st, arm, v, st');
    case LocalItem(v, _) => PrefixHasBytes(w.texts, v, st.family);
  }

  lemma BytesAhead(w: Words, argv: seq<string>, i: nat, item: Item)
    requires i < |argv| && ItemAt(w, argv, i) == Some(item) && AllHaveBytes(w, argv, i)
    ensures HasBytes(item) && AllHaveBytes(w, argv, i + item.words)
  {
  }

  lemma {:induction false} ReadKeepsBytes(w: Words, st: ParseState, argv: seq<string>, i: nat, st': ParseState)
    requires i <= |argv| && ReadFrom(w, st, argv, i) == Some(st')
    requires WellRead(w.texts) && BytesInv(st.attrs) && AllHaveBytes(w, argv, i)
    ensures BytesInv(st'.attrs)
    decreases |argv| - i
  {
    if i < |argv| {
      var item, next := ReadSteps(w, st, argv, i, st');
      BytesAhead(w, argv, i, item);
      ItemKeepsBytes(w, st, item, next);
      ReadKeepsBytes(w, next, argv, i + item.words, st');
    }
  }

  lemma {:induction false} AllFilled(attrs: seq<Attr>, k: Kind)
    requires forall a :: a in attrs && a.Addr? ==> a.data != []
    ensures Count(attrs, k) == Filled(attrs, k)
  {
    if attrs != [] {
      AllFilled(attrs[..|attrs| - 1], k);
    }
  }

  /** With no `default`, `all` or `any` among its addresses an argv sends each kind at most once. */
  lemma BytesGiveOne(w: Words, del: bool, family: nat, argv: seq<string>, st: ParseState, idx: int, brd: Octets,
                     r: Request, k: Kind)
    requires WellRead(w.texts) && ReadFrom(w, Init(del, family), argv, 0) == Some(st)
    requires AllHaveBytes(w, argv, 0) && r == RequestOf(st, idx, brd)
    ensures Count(r.attrs + r.post, k) <= 1
  {
    ReadKeepsBytes(w, Init(del, family), argv, 0, st);
    ReadKeepsInv(w, Init(del, family), argv, 0, st);
    AllFilled(st.attrs, k);
    FilledAppend(r.attrs, r.post, k);
    PostCounts(st, brd, r.post, k);
    ExtraFillsAGap(st, k);
  }

  // ------------------------------------------------------------------------- the parser

  /** ll_name_to_index, with the names it was asked for. */
  class LinkResolver {
    const answers: string -> Option<int>
    var asked: seq<string>

    constructor (answers: string -> Option<int>)
      ensures this.answers == answers && asked == []
    {
      this.answers := answers;
      asked := [];
    }

    method Resolve(dev: string) returns (idx: Option<int>)
      modifies this
      ensures asked == old(asked) + [dev] && idx == answers(dev)
    {
      asked := asked + [dev];
      idx := answers(dev);
    }
  }

  class AddrParser {
    const w: Words
    const del: bool
    var family: nat
    var prefixlen: int
    var scope: nat
    var attrs: seq<Attr>
    var dev: Option<string>
    var lcl: InetPrefix
    var lclSpecified: bool
    var localLen: nat
    var peer: Option<InetPrefix>
    var peerLen: nat
    var brdLen: int
    var anyLen: nat
    var scoped: bool
    var valid: Option<nat>
    var preferred: Option<nat>
    var flags: set<nat>

    ghost function View(): ParseState
      reads this
    {
      ParseState(del, family, prefixlen, scope, attrs, dev, lcl, lclSpecified, localLen, peer, peerLen, brdLen,
                 anyLen, scoped, valid, preferred, flags)
    }

    constructor (w: Words, del: bool, family: nat)
      ensures this.w == w && View() == Init(del, family)
    {
      this.w, this.del, this.family := w, del, family;
      prefixlen, scope, attrs, dev := 0, 0, [], None;
      lcl, lclSpecified, localLen := InetPrefix(0, [], 0), false, 0;
      peer, peerLen, brdLen, anyLen := None, 0, 0, 0;
      scoped, valid, preferred, flags := false, None, None, {};
    }

    method PeerArg(v: string) returns (ok: bool)
      modifies this
      ensures ApplyPeer(w, old(View()), v) == if ok then Some(View()) else None
    {
      if peerLen != 0 {
        return false;
      }
      var p := GetPrefix(w.texts, v, family);
      if p.None? {
        return false;
      }
      peer, peerLen := p, |p.value.data|;
      family := Adopt(family, p.value.family);
      attrs := attrs + [Addr(Address, p.value.data)];
      prefixlen := BitlenU8(p.value.bitlen);
      ok := true;
    }

    method BroadcastArg(v: string) returns (ok: bool)
      modifies this
      ensures ApplyBroadcast(w, old(View()), v) == if ok then Some(View()) else None
    {
      if brdLen != 0 {
        return false;
      }
      if v == "+" {
        brdLen := -1;
      } else if v == "-" {
        brdLen := -2;
      } else {
        var a := GetAddr(w.texts, v, family);
        if a.None? {
          return false;
        }
        family := Adopt(family, a.value.family);
        attrs := attrs + [Addr(Broadcast, a.value.data)];
        brdLen := |a.value.data|;
      }
      ok := true;
    }

    method AnycastArg(v: string) returns (ok: bool)
      modifies this
      ensures ApplyAnycast(w, old(View()), v) == if ok then Some(View()) else None
    {
      if anyLen != 0 {
        return false;
      }
      var a := GetAddr(w.texts, v, family);
      if a.None? {
        return false;
      }
      family := Adopt(family, a.value.family);
      attrs := attrs + [Addr(Anycast, a.value.data)];
      anyLen := |a.value.data|;
      ok := true;
    }

    method LocalArg(v: string) returns (ok: bool)
      modifies this
      ensures ApplyLocal(w, old(View()), v) == if ok then Some(View()) else None
    {
      if w.isHelp(v) || localLen != 0 {
        return false;
      }
      var p := GetPrefix(w.texts, v, family);
      if p.None? {
        return false;
      }
      lcl, lclSpecified := p.value, '/' in v || v == "default";
      family := Adopt(family, p.value.family);
      attrs := attrs + [Addr(Local, p.value.data)];
      localLen := |p.value.data|;
      ok := true;
    }

    method LifetimeArg(arm: Arm, v: string) returns (ok: bool)
      requires arm == ValidArm || arm == PreferredArm
      modifies this
      ensures ApplyArm(w, old(View()), arm, v) == if ok then Some(View()) else None
    {
      var set_ := if arm == ValidArm then valid else preferred;
      var read := ReadLifetime(w, v);
      if set_.Some? || read.None? {
        return false;
      }
      if arm == ValidArm {
        valid := read;
      } else {
        preferred := read;
      }
      ok := true;
    }

    method Note(arm: Arm, v: string) returns (ok: bool)
      requires arm in {ScopeArm, DevArm, LabelArm, MetricArm, ProtoArm}
      modifies this
      ensures ApplyArm(w, old(View()), arm, v) == if ok then Some(View()) else None
    {
      ok := true;
      if arm == ScopeArm {
        var s := w.scope(v);
        if s.None? {
          return false;
        }
        scope, scoped := s.value, true;
      } else if arm == DevArm {
        dev := Some(v);
      } else if arm == LabelArm {
        attrs := attrs + [Label(v)];
      } else if arm == MetricArm {
        var m := w.u32(v);
        if m.None? {
          return false;
        }
        attrs := attrs + [Priority(m.value)];
      } else {
        var p := w.proto(v);
        if p.None? {
          return false;
        }
        attrs := attrs + [Proto(p.value)];
      }
    }

    method Keyword(arm: Arm, v: string) returns (ok: bool)
      modifies this
      ensures ApplyArm(w, old(View()), arm, v) == if ok then Some(View()) else None
    {
      match arm
      case FlagArm => flags := WithFlag(w.flag(v), family, flags); ok := true;
      case PeerArm => ok := PeerArg(v);
      case BroadcastArm => ok := BroadcastArg(v);
      case AnycastArm => ok := AnycastArg(v);
      case ValidArm => ok := LifetimeArg(arm, v);
      case PreferredArm => ok := LifetimeArg(arm, v);
      case _ => ok := Note(arm, v);
    }

    method TakeItem(item: Item) returns (ok: bool)
      modifies this
      ensures ApplyItem(w, old(View()), item) == if ok then Some(View()) else None
    {
      match item
      case Keyed(arm, v, _) => ok := Keyword(arm, v);
      case LocalItem(v, _) => ok := LocalArg(v);
    }

    /** The loop of parseAddrWriteArgs. */
    method ReadArgs(argv: seq<string>) returns (ok: bool)
      requires WellRead(w.texts) && LoopInv(View())
      modifies this
      ensures ReadFrom(w, old(View()), argv, 0) == if ok then Some(View()) else None
      ensures ok ==> LoopInv(View())
    {
      ghost var end := ReadFrom(w, View(), argv, 0);
      var i := 0;
      while i < |argv|
        invariant i <= |argv| && LoopInv(View())
        invariant end == ReadFrom(w, View(), argv, i)
      {
        var item := ItemAt(w, argv, i);
        if item.None? {
          return false;
        }
        ghost var before := View();
        ok := TakeItem(item.value);
        if !ok {
          return false;
        }
        ItemKeepsInv(w, before, item.value, View());
        i := i + item.value.words;
      }
      ok := true;
    }

    /** `brd +` and `brd -`, from the peer or the copied local. */
    method ComputedBroadcast(peer: Option<InetPrefix>) returns (ok: bool, part: seq<Attr>, ghost brd: Octets)
      requires LoopInv(View()) && peer == FinalPeer(View()) && AsksBroadcast(View())
      ensures ok <==> CanBroadcast(View())
      ensures ok ==> IsBroadcastOf(View(), brd) && part == BroadcastPart(View(), brd)
    {
      part, brd := [], [];
      if family != AF_INET || peer.None? {
        return false, part, brd;
      }
      ok := true;
      if peer.value.bitlen <= 30 {
        if peer.value.data != [] {
          PeerFits(View());
        }
        var b := FillHostBits(peer.value.data, peer.value.bitlen, brdLen == -1);
        part, brd := [Addr(Broadcast, b)], b;
      }
    }

    /** The attributes added before the lookup: the IFA_ADDRESS copy and the computed broadcast. */
    method AddedAddresses() returns (ok: bool, added: seq<Attr>, ghost brd: Octets)
      requires LoopInv(View())
      ensures ok <==> CanBroadcast(View())
      ensures ok ==> IsBroadcastOf(View(), brd) && added == CopyPart(View()) + BroadcastPart(View(), brd)
    {
      ok, brd := true, [];
      var finalPeer, part := peer, [];
      added := [];
      if peerLen == 0 && localLen != 0 && !(del && lcl.family == AF_INET && !lclSpecified) {
        finalPeer, added := Some(lcl), [Addr(Address, lcl.data)];
      }
      if brdLen < 0 && !del {
        ok, part, brd := ComputedBroadcast(finalPeer);
      }
      added := added + part;
    }

    /** The checks after the lookup, and IFA_CACHEINFO. */
    method Lifetimes() returns (ok: bool, cache: seq<Attr>)
      ensures ok <==> Accepted(View(), Some(1))
      ensures ok ==> cache == CachePart(View())
    {
      cache := [];
      if valid.Some? || preferred.Some? {
        if Lifetime(valid) == 0 || Lifetime(valid) < Lifetime(preferred) {
          return false, cache;
        }
        cache := [CacheInfo(Lifetime(preferred), Lifetime(valid))];
      }
      ok := MCAUTOJOIN !in flags || IsMulticast(lcl);
    }

    /** What follows the loop, in order. The device is looked up after the broadcast and before the rest. */
    method Finish(resolver: LinkResolver) returns (r: Option<Request>, ghost brd: Octets)
      requires LoopInv(View())
      modifies resolver
      ensures resolver.asked == if Ready(View()) then old(resolver.asked) + [dev.value] else old(resolver.asked)
      ensures r.Some? <==> Ready(View()) && Accepted(View(), resolver.answers(dev.value))
      ensures r.Some? ==> IsBroadcastOf(View(), brd)
      ensures r.Some? ==> r.value == RequestOf(View(), resolver.answers(dev.value).value, brd)
    {
      brd := [];
      if dev.None? {
        return None, brd;
      }
      var ok, added;
      ok, added, brd := AddedAddresses();
      if !ok {
        return None, brd;
      }
      var plen := if prefixlen == 0 then BitlenU8(lcl.bitlen) else prefixlen;
      var finalScope := if !scoped && !del then DefaultScope(lcl) else scope;
      var idx := resolver.Resolve(dev.value);
      if idx.None? || idx.value <= 0 {
        return None, brd;
      }
      var fits, cache := Lifetimes();
      if !fits {
        return None, brd;
      }
      r := Some(Request(family, plen, finalScope, idx.value, flags, attrs, added + cache));
    }
  }

  /** The request of an argv, and the one device lookup it makes. */
  method ParseAddrWriteArgs(w: Words, del: bool, family: nat, argv: seq<string>, resolver: LinkResolver)
    returns (r: Option<Request>, ghost st: Option<ParseState>, ghost brd: Octets)
    requires WellRead(w.texts)
    modifies resolver
    ensures st == ReadFrom(w, Init(del, family), argv, 0)
    ensures st.None? || !Ready(st.value) ==> r.None? && resolver.asked == old(resolver.asked)
    ensures st.Some? && Ready(st.value) ==>
              && LastDev(w, argv, 0) == st.value.dev
              && resolver.asked == old(resolver.asked) + [st.value.dev.value]
              && (r.Some? <==> Accepted(st.value, resolver.answers(st.value.dev.value)))
    ensures r.Some? ==>
              && st.Some? && Ready(st.value) && IsBroadcastOf(st.value, brd)
              && r.value == RequestOf(st.value, resolver.answers(st.value.dev.value).value, brd)
  {
    st, brd := ReadFrom(w, Init(del, family), argv, 0), [];
    var p := new AddrParser(w, del, family);
    var ok := p.ReadArgs(argv);
    if !ok {
      return None, st, brd;
    }
    ReadDev(w, Init(del, family), argv, 0, st.value);
    r, brd := p.Finish(resolver);
  }
}
