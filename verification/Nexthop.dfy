/**
 Nexthop writes (internal/goip/nexthop_write.go): the group codec and the
 two-phase flush, with the group decoder of pkg/xtcpnl/xtcpnl_nhmsg.go.
 */
module Nexthop {
  import opened Shared
  import opened Netlink
  import opened CParse

  const WEIGHT_MAX: nat := 65536
  const MAX_U32: nat := 0xffff_ffff
  const GRP_SIZE: nat := 8

  // ------------------------------------------------------------------ splitting text

  function IndexOf(s: string, c: char): (i: nat)
    ensures i <= |s|
    ensures forall j :: 0 <= j < i ==> s[j] != c
    ensures i < |s| ==> s[i] == c
  {
    if s == "" || s[0] == c then 0 else 1 + IndexOf(s[1..], c)
  }

  function Split(s: string, c: char): (parts: seq<string>)
    ensures |parts| > 0
    decreases |s|
  {
    var i := IndexOf(s, c);
    if i == |s| then [s] else [s[..i]] + Split(s[i + 1..], c)
  }

  function Join(parts: seq<string>, c: char): string
    requires |parts| > 0
  {
    if |parts| == 1 then parts[0] else parts[0] + ([c] + Join(parts[1..], c))
  }

  lemma FirstIndex(a: string, c: char, b: string)
    requires c !in a
    ensures IndexOf(a + ([c] + b), c) == |a|
    ensures IndexOf(a, c) == |a|
  {
    var s := a + ([c] + b);
    assert s[|a|] == c;
    assert forall j :: 0 <= j < |a| ==> s[j] == a[j];
  }

  lemma Halves(a: string, c: char, b: string, s: string)
    requires s == a + ([c] + b)
    ensures |a| < |s| && s[..|a|] == a && s[|a| + 1..] == b
  {
  }

  lemma SplitFirst(a: string, c: char, rest: string, s: string)
    requires c !in a && s == a + ([c] + rest)
    ensures Split(s, c) == [a] + Split(rest, c)
  {
    FirstIndex(a, c, rest);
    Halves(a, c, rest, s);
  }

  lemma SplitWhole(a: string, c: char)
    requires c !in a
    ensures Split(a, c) == [a]
  {
    FirstIndex(a, c, "");
  }

  predicate Lacks(p: string, c: char) {
    c !in p
  }

  lemma {:induction false} SplitUndoesJoin(parts: seq<string>, c: char, s: string)
    requires |parts| > 0 && (forall p :: p in parts ==> Lacks(p, c)) && s == Join(parts, c)
    ensures Split(s, c) == parts
    decreases |parts|
  {
    var first, rest := parts[0], parts[1..];
    assert Lacks(first, c);
    if |parts| == 1 {
      SplitWhole(first, c);
      assert parts == [first];
    } else {
      var later := Join(rest, c);
      SplitUndoesJoin(rest, c, later);
      SplitFirst(first, c, later, s);
      assert parts == [first] + rest;
    }
  }

  // ----------------------------------------------------------------------- the group

  /** One entry of a group: an id and a weight from 1 to 65536. */
  datatype Member = Member(id: nat, weight: nat)

  ghost predicate InRange(m: Member) {
    m.id <= MAX_U32 && 1 <= m.weight <= WEIGHT_MAX
  }

  /** `ID` or `ID,WEIGHT`; a missing weight is 1. */
  function ReadMember(p: string): (m: Option<Member>)
    ensures m.Some? ==> m.value.id <= MAX_U32 && 1 <= m.value.weight <= WEIGHT_MAX
  {
    var i := IndexOf(p, ',');
    var id := UnsignedOf(p[..i], 0, MAX_U32);
    if id.None? then None
    else if i == |p| then Some(Member(id.value, 1))
    else
      var w := UnsignedOf(p[i + 1..], 0, MAX_U32);
      if w.None? || w.value == 0 || w.value > WEIGHT_MAX then None else Some(Member(id.value, w.value))
  }

  /** struct nexthop_grp: the id, the weight less one in two bytes, two reserved. */
  function EncodeMember(m: Member): (b: Bytes)
    requires m.id <= MAX_U32 && 1 <= m.weight <= WEIGHT_MAX
    ensures |b| == GRP_SIZE
  {
    Le32(m.id) + Le16(m.weight - 1) + [0, 0]
  }

  ghost predicate AllInRange(ms: seq<Member>) {
    forall i :: 0 <= i < |ms| ==> InRange(ms[i])
  }

  function EncodeAll(ms: seq<Member>): (b: Bytes)
    requires forall i :: 0 <= i < |ms| ==> ms[i].id <= MAX_U32 && 1 <= ms[i].weight <= WEIGHT_MAX
    ensures |b| == GRP_SIZE * |ms|
  {
    if ms == [] then [] else EncodeAll(ms[..|ms| - 1]) + EncodeMember(ms[|ms| - 1])
  }

  /** Every part a member, or none at all. */
  ghost predicate ReadsAs(parts: seq<string>, ms: seq<Member>) {
    |parts| == |ms| && forall i :: 0 <= i < |parts| ==> ReadMember(parts[i]) == Some(ms[i])
  }

  /** What `group` makes of its argument: the bytes of its members, or a
      refusal of an empty argument or of one with a part that is no member. */
  ghost predicate IsGroupResult(arg: string, r: Option<Bytes>, ms: seq<Member>) {
    match r
    case Some(b) => arg != "" && ReadsAs(Split(arg, '/'), ms) && AllInRange(ms) && b == EncodeAll(ms)
    case None => arg == "" || exists p :: p in Split(arg, '/') && ReadMember(p).None?
  }

  /** group: the NHA_GROUP bytes of the argument, or a refusal. */
  method ParseGroup(arg: string) returns (r: Option<Bytes>, ghost ms: seq<Member>)
    ensures IsGroupResult(arg, r, ms)
    ensures r.None? <==> arg == "" || exists p :: p in Split(arg, '/') && ReadMember(p).None?
    ensures r.Some? ==> |r.value| == GRP_SIZE * |Split(arg, '/')|
  {
    ms := [];
    if arg == "" {
      return None, ms;
    }
    var parts := Split(arg, '/');
    var grps: Bytes := [];
    var i := 0;
    while i < |parts|
      invariant 0 <= i <= |parts| && |ms| == i
      invariant ReadsUpTo(parts, ms)
      invariant AllInRange(ms) && grps == EncodeAll(ms)
    {
      var m := ParseMember(parts[i]);
      if m.None? {
        assert parts[i] in parts;
        return None, ms;
      }
      EncodeSnoc(ms, m.value);
      ReadsOneMore(parts, ms, m.value);
      grps := AppendMember(grps, m.value);
      ms := ms + [m.value];
      i := i + 1;
    }
    r := Some(grps);
  }

  ghost predicate ReadsUpTo(parts: seq<string>, ms: seq<Member>) {
    |ms| <= |parts| && forall i :: 0 <= i < |ms| ==> ReadMember(parts[i]) == Some(ms[i])
  }

  lemma ReadsOneMore(parts: seq<string>, ms: seq<Member>, m: Member)
    requires ReadsUpTo(parts, ms) && |ms| < |parts| && ReadMember(parts[|ms|]) == Some(m)
    ensures ReadsUpTo(parts, ms + [m])
  {
  }

  /** The two appends of the loop: the id, then the weight and the reserved bytes. */
  function AppendMember(grps: Bytes, m: Member): (b: Bytes)
    requires m.id <= MAX_U32 && 1 <= m.weight <= WEIGHT_MAX
    ensures b == grps + EncodeMember(m)
  {
    var withId := grps + Le32(m.id);
    withId + [(m.weight - 1) % 0x100, (m.weight - 1) / 0x100, 0, 0]
  }

  lemma EncodeSnoc(ms: seq<Member>, m: Member)
    requires AllInRange(ms) && InRange(m)
    ensures AllInRange(ms + [m])
    ensures EncodeAll(ms + [m]) == EncodeAll(ms) + EncodeMember(m)
  {
    assert (ms + [m])[..|ms|] == ms;
  }

  method ParseMember(p: string) returns (m: Option<Member>)
    ensures m == ReadMember(p)
  {
    var i := IndexOf(p, ',');
    var id := CGetUnsigned(p[..i], 0, MAX_U32);
    if id.None? {
      return None;
    }
    if i == |p| {
      return Some(Member(id.value, 1));
    }
    var w := CGetUnsigned(p[i + 1..], 0, MAX_U32);
    if w.None? || w.value == 0 || w.value > WEIGHT_MAX {
      return None;
    }
    m := Some(Member(id.value, w.value));
  }

  // -------------------------------------------------------------------- printing a group

  /** A member as `ID,WEIGHT`, or as `ID` alone when it weighs 1. */
  predicate Writes(p: string, m: Member) {
    p == Decimal(m.id) + ([','] + Decimal(m.weight)) || (m.weight == 1 && p == Decimal(m.id))
  }

  ghost predicate WritesAll(parts: seq<string>, ms: seq<Member>) {
    |parts| == |ms| && forall i :: 0 <= i < |ms| ==> Writes(parts[i], ms[i])
  }

  lemma PrintedUnsigned(n: nat, max: nat)
    requires n <= max <= MAX_U64
    ensures UnsignedOf(Decimal(n), 0, max) == Some(n)
  {
    DecimalReads(n, "");
    DecimalParts(n, "");
    assert Decimal(n) + "" == Decimal(n);
  }

  lemma MemberTextReads(p: string, a: string, b: string, m: Member)
    requires p == a + ([','] + b) && IndexOf(p, ',') == |a| && InRange(m)
    requires UnsignedOf(a, 0, MAX_U32) == Some(m.id) && UnsignedOf(b, 0, MAX_U32) == Some(m.weight)
    ensures ReadMember(p) == Some(m)
  {
    Halves(a, ',', b, p);
    assert p[..|a|] == a && p[|a| + 1..] == b && |a| < |p|;
  }

  lemma WeightedMemberReads(m: Member)
    requires InRange(m)
    ensures ReadMember(Decimal(m.id) + ([','] + Decimal(m.weight))) == Some(m)
  {
    var a, b := Decimal(m.id), Decimal(m.weight);
    FirstIndex(a, ',', b);
    PrintedUnsigned(m.id, MAX_U32);
    PrintedUnsigned(m.weight, MAX_U32);
    MemberTextReads(a + ([','] + b), a, b, m);
  }

  lemma {:induction false} NoIndex(a: string, c: char)
    requires c !in a
    ensures IndexOf(a, c) == |a|
  {
    if a != "" {
      NoIndex(a[1..], c);
    }
  }

  /** Without a weight a member weighs 1. */
  lemma BareMemberReads(id: nat)
    requires id <= MAX_U32
    ensures ReadMember(Decimal(id)) == Some(Member(id, 1))
  {
    var a := Decimal(id);
    assert ',' !in a;
    NoIndex(a, ',');
    assert a[..|a|] == a;
    PrintedUnsigned(id, MAX_U32);
  }

  /** A written member reads back as it was. */
  lemma PrintedMemberReads(p: string, m: Member)
    requires InRange(m) && Writes(p, m)
    ensures ReadMember(p) == Some(m)
  {
    WeightedMemberReads(m);
    BareMemberReads(m.id);
  }

  lemma SlashFree(p: string, m: Member)
    requires Writes(p, m)
    ensures '/' !in p && p != ""
  {
    var a, b := Decimal(m.id), Decimal(m.weight);
    assert forall i :: 0 <= i < |a| ==> a[i] != '/';
    assert forall i :: 0 <= i < |b| ==> b[i] != '/';
  }

  /** A written group parses to the bytes of the same members, whatever they are. */
  lemma PrintedGroupReads(parts: seq<string>, ms: seq<Member>)
    requires |ms| > 0 && AllInRange(ms) && WritesAll(parts, ms)
    ensures ReadsAs(Split(Join(parts, '/'), '/'), ms)
  {
    forall p | p in parts ensures Lacks(p, '/') {
      var i :| 0 <= i < |parts| && parts[i] == p;
      SlashFree(p, ms[i]);
    }
    SplitUndoesJoin(parts, '/', Join(parts, '/'));
    forall i | 0 <= i < |parts| ensures ReadMember(parts[i]) == Some(ms[i]) {
      PrintedMemberReads(parts[i], ms[i]);
    }
  }

  // ------------------------------------------------------------------------ decoding

  /** An entry as struct nexthop_grp means it: sixteen bits of weight, plus one. */
  function DecodeMember(b: Bytes): Member
    requires |b| == GRP_SIZE
  {
    Member(Get32(b[..4]), Get16(b[4..6]) + 1)
  }

  /** An entry as resolveNhGroup reads it: the weight is a uint16, and its high
      byte is read only under a flag. */
  function ResolveMember(b: Bytes, highOK: bool): Member
    requires |b| == GRP_SIZE
  {
    var w := (if highOK then 0x100 * b[5] as int else 0) + b[4] as int;
    Member(Get32(b[..4]), (w + 1) % 0x1_0000)
  }

  /** Entry after entry. */
  function Entries(b: Bytes, read: Bytes -> Member): seq<Member>
    requires |b| % GRP_SIZE == 0
  {
    if |b| == 0 then [] else Entries(b[..|b| - GRP_SIZE], read) + [read(b[|b| - GRP_SIZE..])]
  }

  function DecodeAll(b: Bytes): seq<Member>
    requires |b| % GRP_SIZE == 0
  {
    Entries(b, e => if |e| == GRP_SIZE then DecodeMember(e) else Member(0, 0))
  }

  function ResolveAll(b: Bytes, highOK: bool): seq<Member>
    requires |b| % GRP_SIZE == 0
  {
    Entries(b, e => if |e| == GRP_SIZE then ResolveMember(e, highOK) else Member(0, 0))
  }

  /** What resolveNhGroup makes of a member. */
  function Resolved(m: Member, highOK: bool): Member
    requires m.weight > 0
  {
    m.(weight := if highOK then m.weight % 0x1_0000 else (m.weight - 1) % 0x100 + 1)
  }

  lemma MemberRoundTrip(m: Member, highOK: bool)
    requires InRange(m)
    ensures DecodeMember(EncodeMember(m)) == m
    ensures ResolveMember(EncodeMember(m), highOK) == Resolved(m, highOK)
  {
    var b, w := EncodeMember(m), m.weight - 1;
    assert b[..4] == Le32(m.id) && b[4..6] == Le16(w);
    assert b[4] == Le16(w)[0] && b[5] == Le16(w)[1];
    Word32RoundTrip(m.id);
    Word16RoundTrip(w);
  }

  lemma {:induction false} EntriesOfEncoded(ms: seq<Member>, read: Bytes -> Member)
    requires AllInRange(ms)
    ensures |Entries(EncodeAll(ms), read)| == |ms|
    ensures forall i :: 0 <= i < |ms| ==> Entries(EncodeAll(ms), read)[i] == read(EncodeMember(ms[i]))
    decreases |ms|
  {
    if ms != [] {
      var front, last := EncodeAll(ms[..|ms| - 1]), EncodeMember(ms[|ms| - 1]);
      EntriesOfEncoded(ms[..|ms| - 1], read);
      assert (front + last)[..|front|] == front && (front + last)[|front|..] == last;
    }
  }

  /** The bytes hold the members exactly, weight 65536 included. */
  lemma GroupRoundTrip(ms: seq<Member>)
    requires AllInRange(ms)
    ensures DecodeAll(EncodeAll(ms)) == ms
  {
    EntriesOfEncoded(ms, e => if |e| == GRP_SIZE then DecodeMember(e) else Member(0, 0));
    forall i | 0 <= i < |ms| ensures DecodeMember(EncodeMember(ms[i])) == ms[i] {
      MemberRoundTrip(ms[i], true);
    }
  }

  ghost predicate AreResolved(ms: seq<Member>, out: seq<Member>, highOK: bool)
    requires AllInRange(ms)
  {
    |out| == |ms| && forall i :: 0 <= i < |ms| ==> out[i] == Resolved(ms[i], highOK)
  }

  lemma ResolveGives(ms: seq<Member>, highOK: bool)
    requires AllInRange(ms)
    ensures AreResolved(ms, ResolveAll(EncodeAll(ms), highOK), highOK)
  {
    EntriesOfEncoded(ms, e => if |e| == GRP_SIZE then ResolveMember(e, highOK) else Member(0, 0));
    forall i | 0 <= i < |ms| ensures ResolveMember(EncodeMember(ms[i]), highOK) == Resolved(ms[i], highOK) {
      MemberRoundTrip(ms[i], highOK);
    }
  }

  lemma ReadsAsIsUnique(parts: seq<string>, a: seq<Member>, b: seq<Member>)
    requires ReadsAs(parts, a) && ReadsAs(parts, b)
    ensures a == b
  {
    forall i | 0 <= i < |parts| ensures a[i] == b[i] {
      assert ReadMember(parts[i]) == Some(a[i]) && ReadMember(parts[i]) == Some(b[i]);
    }
  }

  lemma JoinNonEmpty(parts: seq<string>, c: char)
    requires |parts| > 0 && parts[0] != ""
    ensures Join(parts, c) != ""
  {
  }

  /** An argument whose every part is a member is never refused. */
  lemma ReadableIsAccepted(arg: string, r: Option<Bytes>, ms: seq<Member>, read: seq<Member>)
    requires arg != "" && ReadsAs(Split(arg, '/'), ms)
    requires IsGroupResult(arg, r, read)
    ensures r.Some? && read == ms
  {
    var parts := Split(arg, '/');
    if r.Some? {
      ReadsAsIsUnique(parts, ms, read);
    }
  }

  lemma EncodedDecodes(ms: seq<Member>, b: Bytes)
    requires AllInRange(ms) && b == EncodeAll(ms)
    ensures |b| % GRP_SIZE == 0 && DecodeAll(b) == ms
  {
    GroupRoundTrip(ms);
  }

  /** Write, parse, decode: every nonempty list of members comes back as it was. */
  lemma PrintedGroupRoundTrip(parts: seq<string>, ms: seq<Member>, arg: string, r: Option<Bytes>, read: seq<Member>)
    requires |ms| > 0 && AllInRange(ms) && WritesAll(parts, ms)
    requires arg == Join(parts, '/')
    requires IsGroupResult(arg, r, read)
    ensures r.Some? && |r.value| % GRP_SIZE == 0 && DecodeAll(r.value) == ms
  {
    PrintedGroupReads(parts, ms);
    SlashFree(parts[0], ms[0]);
    JoinNonEmpty(parts, '/');
    ReadableIsAccepted(arg, r, ms, read);
    EncodedDecodes(ms, r.value);
  }

  /**
   The repository's own decoder gives the members back exactly when every
   weight is within what it reads: 65535 with the high byte, 256 without.
   A weight of 65536 is written but decodes to 0.
   */
  lemma ResolveAgreesIff(ms: seq<Member>, highOK: bool)
    requires AllInRange(ms)
    ensures ResolveAll(EncodeAll(ms), highOK) == ms
       <==> AllWithinReach(ms, highOK)
  {
    ResolveGives(ms, highOK);
    SameWhenWithin(ms, ResolveAll(EncodeAll(ms), highOK), highOK);
  }

  predicate WithinReach(m: Member, highOK: bool) {
    m.weight <= if highOK then 65535 else 256
  }

  ghost predicate AllWithinReach(ms: seq<Member>, highOK: bool) {
    forall i :: 0 <= i < |ms| ==> WithinReach(ms[i], highOK)
  }

  lemma ResolvedIsSame(m: Member, highOK: bool)
    requires InRange(m)
    ensures Resolved(m, highOK) == m <==> WithinReach(m, highOK)
  {
  }

  lemma SameWhenWithin(ms: seq<Member>, out: seq<Member>, highOK: bool)
    requires AllInRange(ms) && AreResolved(ms, out, highOK)
    ensures out == ms <==> AllWithinReach(ms, highOK)
  {
    forall i | 0 <= i < |ms| ensures out[i] == ms[i] <==> WithinReach(ms[i], highOK) {
      assert InRange(ms[i]) && out[i] == Resolved(ms[i], highOK);
      ResolvedIsSame(ms[i], highOK);
    }
  }

  lemma HeaviestWeightDecodesToZero()
    ensures var ms := [Member(1, WEIGHT_MAX)];
            AllInRange(ms) && ResolveAll(EncodeAll(ms), true) == [Member(1, 0)]
  {
    ResolveGives([Member(1, WEIGHT_MAX)], true);
  }

  // ------------------------------------------------------------------------ the flush

  predicate NoDuplicates(ids: seq<nat>) {
    forall i, j :: 0 <= i < j < |ids| ==> ids[i] != ids[j]
  }

  function Elements(ids: seq<nat>): set<nat> {
    set id | id in ids
  }

  function NonZero(ids: seq<nat>): set<nat> {
    set id | id in ids && id != 0
  }

  /** keep: append the ids not seen before, zero left out. */
  method Keep(dump: seq<nat>, copied: set<nat>, ids: seq<nat>) returns (copied': set<nat>, ids': seq<nat>)
    requires copied == Elements(ids) && NoDuplicates(ids)
    ensures copied' == Elements(ids') && NoDuplicates(ids')
    ensures ids <= ids'
    ensures Elements(ids') == Elements(ids) + NonZero(dump)
  {
    copied', ids' := copied, ids;
    var i := 0;
    while i < |dump|
      invariant 0 <= i <= |dump|
      invariant copied' == Elements(ids') && NoDuplicates(ids')
      invariant ids <= ids'
      invariant copied' == Elements(ids) + NonZero(dump[..i])
    {
      var id := dump[i];
      assert dump[..i + 1] == dump[..i] + [id];
      if id != 0 && id !in copied' {
        copied' := copied' + {id};
        ids' := ids' + [id];
      }
      i := i + 1;
    }
    assert dump[..i] == dump;
  }

  /**
   The delete order of nexthopFlush: the groups' dump first, then everything,
   which is not sent for when the first dump failed. The replies of a dump that
   failed partway are kept all the same.
   */
  method FlushOrder(groups: seq<nat>, groupsFailed: bool, all: seq<nat>) returns (ids: seq<nat>)
    ensures NoDuplicates(ids)
    ensures Elements(ids) == NonZero(groups) + (if groupsFailed then {} else NonZero(all))
    ensures forall i, j :: 0 <= i < |ids| && 0 <= j < |ids| && ids[i] in groups && ids[j] !in groups ==> i < j
  {
    var copied: set<nat> := {};
    ids := [];
    copied, ids := Keep(groups, copied, ids);
    ghost var first := ids;
    assert Elements(first) == NonZero(groups);
    if !groupsFailed {
      copied, ids := Keep(all, copied, ids);
    }
    assert 0 !in Elements(ids);
    forall i, j | 0 <= i < |ids| && 0 <= j < |ids| && ids[i] in groups && ids[j] !in groups ensures i < j {
      GroupsComeFirst(groups, first, ids, i, j);
    }
  }

  lemma GroupsComeFirst(groups: seq<nat>, first: seq<nat>, ids: seq<nat>, i: nat, j: nat)
    requires first <= ids && NoDuplicates(ids) && Elements(first) == NonZero(groups)
    requires i < |ids| && j < |ids| && ids[i] in groups && ids[j] !in groups && 0 !in ids
    ensures i < j
  {
    assert ids[i] in NonZero(groups);
    var k :| 0 <= k < |first| && first[k] == ids[i];
    assert ids[k] == ids[i];
    assert forall m :: 0 <= m < |first| ==> ids[m] in Elements(first);
  }
}
