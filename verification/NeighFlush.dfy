/**
 `ip neigh flush` (internal/goip/neigh_flush.go) and the state test it shares
 with `ip neigh show` (internal/goip/obj_neigh.go).

 The loop has no limit on its rounds, so it is proved to end whenever the
 entries that can appear are finitely many. `ip` narrows its state mask after
 the first round and goip does not; when that makes a difference is stated
 exactly.
 */
module NeighFlush {
  import opened Shared
  import opened Netlink
  import opened FlushRounds
  import FB = FlushBuf

  const NUD_NONE: bv16 := 0
  const NUD_REACHABLE: bv16 := 0x02
  const NUD_FAILED: bv16 := 0x20
  const NUD_NOARP: bv16 := 0x40
  const NUD_PERMANENT: bv16 := 0x80
  const NTF_PROXY: bv8 := 0x08
  const NTF_EXT_LEARNED: bv8 := 0x10
  /** The bit `nud none` puts in a state mask. */
  const NUD_NONE_SENTINEL: bv32 := 0x100
  /** ~(NUD_PERMANENT|NUD_NOARP), and the same without NUD_FAILED. */
  const FLUSH_STATES: bv32 := 0xffff_ff3f
  const LATER_STATES: bv32 := 0xffff_ff1f

  datatype NeighInfo = NeighInfo(family: nat, ifindex: int, dst: Bytes, state: bv16, flags: bv8)

  // ----------------------------------------------------------------- the state tests

  predicate Escapes(n: NeighInfo) {
    n.flags & (NTF_PROXY | NTF_EXT_LEARNED) != 0
  }

  /** neighStateFiltered: print_neigh drops the reply under a state mask. */
  predicate StateFiltered(n: NeighInfo, mask: bv32) {
    if mask & (n.state as bv32) != 0 then false
    else if Escapes(n) then false
    else n.state != 0 || mask & NUD_NONE_SENTINEL == 0
  }

  lemma EscapeBits(flags: bv8)
    ensures flags & (NTF_PROXY | NTF_EXT_LEARNED) == flags & 0x18
  {
  }

  lemma NoState(mask: bv32, state: bv16)
    requires state == 0
    ensures mask & (state as bv32) == 0
  {
  }

  /** An entry in some state is dropped when the mask has none of its bits, one in no
      state when the mask lacks 0x100, and a proxy or learned entry never. */
  lemma StateTestMeans(n: NeighInfo, mask: bv32)
    ensures if n.flags & 0x18 != 0 then !StateFiltered(n, mask)
            else if n.state == 0 then StateFiltered(n, mask) <==> mask & 0x100 == 0
            else StateFiltered(n, mask) <==> mask & (n.state as bv32) == 0
  {
    EscapeBits(n.flags);
    if n.state == 0 {
      NoState(mask, n.state);
    }
  }

  /** neighFlushKeeps: the same test with the flush mask worked out by hand. */
  predicate FlushKeeps(n: NeighInfo) {
    || n.state & !(NUD_PERMANENT | NUD_NOARP) != 0
    || n.state == NUD_NONE
    || Escapes(n)
  }

  /** The hand-written test is exactly the general one under the flush mask. */
  lemma KeepsIsNotFiltered(n: NeighInfo)
    ensures FlushKeeps(n) <==> !StateFiltered(n, FLUSH_STATES)
  {
  }

  /** Failed and nothing else the flush looks at. */
  predicate FailedOnly(n: NeighInfo) {
    n.state & !(NUD_PERMANENT | NUD_NOARP) == NUD_FAILED && !Escapes(n)
  }

  /** The states a mask lets through, as booleans: the flush's own, and the narrowed one's. */
  predicate Live(state: bv16) {
    state & !(NUD_PERMANENT | NUD_NOARP) != 0
  }

  predicate LiveLater(state: bv16) {
    state & !(NUD_PERMANENT | NUD_NOARP | NUD_FAILED) != 0
  }

  lemma LiveBits(state: bv16)
    ensures state & !(NUD_PERMANENT | NUD_NOARP) == NUD_FAILED <==> Live(state) && !LiveLater(state)
    ensures LiveLater(state) ==> Live(state)
    ensures Live(state) ==> state != NUD_NONE
  {
  }

  lemma FailedIsLiveOnly(n: NeighInfo)
    ensures FailedOnly(n) <==> Live(n.state) && !LiveLater(n.state) && !Escapes(n)
    ensures LiveLater(n.state) ==> Live(n.state)
    ensures Live(n.state) ==> n.state != NUD_NONE
  {
    LiveBits(n.state);
  }

  lemma KeepsIsLive(n: NeighInfo)
    ensures FlushKeeps(n) <==> Live(n.state) || n.state == NUD_NONE || Escapes(n)
  {
  }

  lemma LaterFiltered(n: NeighInfo)
    ensures StateFiltered(n, LATER_STATES) <==> !LiveLater(n.state) && !Escapes(n) && n.state != NUD_NONE
  {
    assert LATER_STATES & NUD_NONE_SENTINEL != 0;
  }

  lemma FailedIsKept(n: NeighInfo)
    requires FailedOnly(n)
    ensures FlushKeeps(n)
  {
  }

  /** The narrowed mask drops the failed-only entries and no others. */
  lemma NarrowedMask(n: NeighInfo)
    ensures !StateFiltered(n, LATER_STATES) <==> FlushKeeps(n) && !FailedOnly(n)
  {
    LaterFiltered(n);
    FailedIsLiveOnly(n);
    KeepsIsLive(n);
  }

  // ------------------------------------------------------------------------ the loop

  datatype Outcome = Complete | Terminated | BadReply | NotApplied

  /** The first `n` dumps. */
  ghost function Answered<K>(dump: nat -> seq<Reply<K>>, n: nat): (ds: seq<seq<Reply<K>>>)
    ensures |ds| == n
  {
    if n == 0 then [] else Answered(dump, n - 1) + [dump(n - 1)]
  }

  /** What round `i` copies, if the loop gets there. */
  ghost function Round<K>(dump: nat -> seq<Reply<K>>, i: nat): seq<Reply<K>> {
    Fresh(dump(i), KeptInAny(Answered(dump, i)))
  }

  ghost predicate Copying<K>(dump: nat -> seq<Reply<K>>, i: nat) {
    Malformed !in dump(i) && Round(dump, i) != []
  }

  ghost predicate AllCopying<K>(dump: nat -> seq<Reply<K>>, n: nat) {
    n == 0 || (AllCopying(dump, n - 1) && Copying(dump, n - 1))
  }

  lemma {:induction false} CopyingAt<K>(dump: nat -> seq<Reply<K>>, n: nat, i: nat)
    requires AllCopying(dump, n) && i < n
    ensures Copying(dump, i)
  {
    if i < n - 1 {
      CopyingAt(dump, n - 1, i);
    }
  }

  /** The rounds whose copies a run of `made` dumps has to show: its last dump
      is idle, undecodable or not applied, unless the dump after it failed. */
  function Applied(outcome: Outcome, made: nat): nat {
    if outcome.Terminated? || made == 0 then made else made - 1
  }

  /** How a run ends, from the dumps alone. The dump numbered `failsAt`, if any,
      fails; `hook` is whether the copies can be written. */
  ghost predicate EndsWith<K>(dump: nat -> seq<Reply<K>>, failsAt: int, hook: bool, outcome: Outcome, made: nat) {
    && !(0 <= failsAt < made)
    && (Applied(outcome, made) > 0 ==> hook)
    && AllCopying(dump, Applied(outcome, made))
    && match outcome
       case Terminated => made == failsAt
       case Complete => made > 0 && Malformed !in dump(made - 1) && Round(dump, made - 1) == []
       case BadReply => made > 0 && Malformed in dump(made - 1)
       case NotApplied => made == 1 && !hook && Copying(dump, 0)
  }

  /** A run ends in one way only. */
  lemma EndsOnce<K>(dump: nat -> seq<Reply<K>>, failsAt: int, hook: bool, a: Outcome, m: nat, b: Outcome, n: nat)
    requires EndsWith(dump, failsAt, hook, a, m) && EndsWith(dump, failsAt, hook, b, n)
    ensures a == b && m == n
  {
    if m > 0 && m - 1 < Applied(b, n) {
      CopyingAt(dump, Applied(b, n), m - 1);
    }
    if n > 0 && n - 1 < Applied(a, m) {
      CopyingAt(dump, Applied(a, m), n - 1);
    }
  }

  /** Every entry that can ever be kept has its key in `universe`. */
  ghost predicate Within<K>(dump: nat -> seq<Reply<K>>, universe: set<K>) {
    forall i: nat :: KeptIn(dump(i)) <= universe
  }

  /** Every one of the first `made` dumps gave a key that was not copied before. */
  ghost predicate Progress<K>(dump: nat -> seq<Reply<K>>, made: nat, universe: set<K>) {
    && AllCopying(dump, made)
    && KeptInAny(Answered(dump, made)) <= universe
    && made <= |KeptInAny(Answered(dump, made))| <= |universe|
  }

  lemma ProgressStep<K>(dump: nat -> seq<Reply<K>>, made: nat, universe: set<K>)
    requires Within(dump, universe) && Progress(dump, made, universe) && Copying(dump, made)
    ensures Progress(dump, made + 1, universe)
    ensures |KeptInAny(Answered(dump, made))| < |KeptInAny(Answered(dump, made + 1))|
  {
    CopyGrows(Answered(dump, made), dump(made));
    Subset(KeptInAny(Answered(dump, made + 1)), universe);
  }

  /** Where the flush stands after its first `made` rounds. */
  ghost predicate Here<K>(dump: nat -> seq<Reply<K>>, made: nat, copied: set<K>, sent: nat, buf: FB.FlushBuf, build: Builder)
    reads buf
  {
    Stands(Answered(dump, made), copied, sent, buf, build)
  }

  /** The loop is about to send dump number `made`. */
  ghost predicate Running<K>(dump: nat -> seq<Reply<K>>, failsAt: int, hook: bool, made: nat, universe: set<K>) {
    Progress(dump, made, universe) && !(0 <= failsAt < made) && (made > 0 ==> hook)
  }

  lemma GoesOn<K>(dump: nat -> seq<Reply<K>>, failsAt: int, hook: bool, made: nat, universe: set<K>)
    requires Within(dump, universe) && Running(dump, failsAt, hook, made, universe) && made != failsAt
    requires Copying(dump, made) && hook
    ensures Running(dump, failsAt, hook, made + 1, universe)
    ensures |KeptInAny(Answered(dump, made))| < |KeptInAny(Answered(dump, made + 1))|
  {
    ProgressStep(dump, made, universe);
  }

  /** neighFlushRound over the dump numbered `made`. */
  method NeighRound<K(==)>(dump: nat -> seq<Reply<K>>, made: nat, copied: set<K>, buf: FB.FlushBuf, build: Builder,
                           sent: nat)
    returns (ok: bool, flushed: nat, copied': set<K>)
    requires Here(dump, made, copied, sent, buf, build)
    modifies buf
    ensures ok <==> Malformed !in dump(made)
    ensures ok ==> flushed == |Round(dump, made)|
    ensures ok ==> Here(dump, made + 1, copied', sent + flushed, buf, build)
  {
    ok, flushed, copied' := NextRound(dump(made), copied, buf, build, sent, Answered(dump, made));
  }

  /** One turn of the loop: how the run ends in it, if it does. */
  method Turn<K(==)>(dump: nat -> seq<Reply<K>>, failsAt: int, hook: bool, build: Builder, ghost universe: set<K>,
                     made: nat, copied: set<K>, sent: nat, buf: FB.FlushBuf)
    returns (end: Option<Outcome>, copied': set<K>, sent': nat)
    requires Within(dump, universe) && Running(dump, failsAt, hook, made, universe) && made != failsAt
    requires Here(dump, made, copied, sent, buf, build)
    modifies buf
    ensures end.Some? ==> !end.value.Terminated? && EndsWith(dump, failsAt, hook, end.value, made + 1)
    ensures end.None? ==> Running(dump, failsAt, hook, made + 1, universe) && |copied| < |copied'|
    ensures end.None? ==> Here(dump, made + 1, copied', sent', buf, build)
  {
    var ok, flushed;
    ok, flushed, copied' := NeighRound(dump, made, copied, buf, build, sent);
    sent' := sent + flushed;
    end := None;
    if !ok {
      end := Some(BadReply);
    } else if flushed == 0 {
      end := Some(Complete);
    } else if made == 0 && !hook {
      end := Some(NotApplied);
    } else {
      GoesOn(dump, failsAt, hook, made, universe);
    }
  }

  /**
   The round loop of runNeighFlush over an endless supply of dumps. It ends
   after at most one dump more than there are keys, because every round but the
   last copies a key for good.
   */
  method RunNeighFlush<K(==)>(dump: nat -> seq<Reply<K>>, failsAt: int, hook: bool, build: Builder,
                              ghost universe: set<K>)
    returns (outcome: Outcome, made: nat, datagrams: seq<Bytes>)
    requires Within(dump, universe)
    ensures made <= |universe| + 1
    ensures EndsWith(dump, failsAt, hook, outcome, made)
    ensures datagrams == Sent(Answered(dump, Applied(outcome, made)), build)
  {
    var copied: set<K> := {};
    var buf := new FB.FlushBuf();
    var sent, n: nat := 0, 0;
    var out: seq<Bytes> := [];
    while n != failsAt
      invariant Running(dump, failsAt, hook, n, universe)
      invariant Here(dump, n, copied, sent, buf, build) && out == Sent(Answered(dump, n), build)
      decreases |universe| - |copied|
    {
      var end;
      end, copied, sent := Turn(dump, failsAt, hook, build, universe, n, copied, sent, buf);
      if end.Some? {
        return end.value, n + 1, out;
      }
      n, out := n + 1, buf.datagrams;
    }
    return Terminated, n, out;
  }

  // ----------------------------------------------------------------- the two readings

  datatype NeighKey = NeighKey(family: nat, proxy: bool, ifindex: int, dst: Bytes)

  /** What a flush reads its replies with: the decoder, and the family and device asked for. */
  datatype Query = Query(decode: Bytes -> Option<NeighInfo>, family: nat, index: int)

  function KeyOf(n: NeighInfo): NeighKey {
    NeighKey(n.family, n.flags & NTF_PROXY != 0, n.ifindex, n.dst)
  }

  predicate Selected(q: Query, n: NeighInfo) {
    (q.family == 0 || q.family == n.family) && (q.index == 0 || q.index == n.ifindex)
  }

  /** Which state test: goip's hand-written one, or the general one in round `i`
      under a mask that loses NUD_FAILED after the first, as `ip` narrows it. */
  datatype Test = Goip | Narrowing(i: nat)

  predicate Keeps(t: Test, n: NeighInfo) {
    match t
    case Goip => FlushKeeps(n)
    case Narrowing(i) => !StateFiltered(n, if i == 0 then FLUSH_STATES else LATER_STATES)
  }

  /** One body to a round: undecodable, or keyed and tested. */
  function ReplyOf(q: Query, t: Test, body: Bytes): Reply<NeighKey> {
    var info := q.decode(body);
    if info.None? then Malformed
    else Reply(KeyOf(info.value), Selected(q, info.value) && Keeps(t, info.value), body)
  }

  function Reading(q: Query, t: Test, bodies: seq<Bytes>): (rs: seq<Reply<NeighKey>>)
    ensures |rs| == |bodies|
    ensures forall j :: 0 <= j < |bodies| ==> rs[j] == ReplyOf(q, t, bodies[j])
  {
    seq(|bodies|, j requires 0 <= j < |bodies| => ReplyOf(q, t, bodies[j]))
  }

  /** goip's rounds: the same test throughout. */
  function Wide(q: Query, dump: nat -> seq<Bytes>): nat -> seq<Reply<NeighKey>> {
    (i: nat) => Reading(q, Goip, dump(i))
  }

  /** goip's rounds, copied keys and all, with the mask narrowed as `ip` narrows it. */
  function Narrowed(q: Query, dump: nat -> seq<Bytes>): nat -> seq<Reply<NeighKey>> {
    (i: nat) => Reading(q, Narrowing(i), dump(i))
  }

  lemma WideAt(q: Query, dump: nat -> seq<Bytes>, i: nat)
    ensures Wide(q, dump)(i) == Reading(q, Goip, dump(i))
    ensures Narrowed(q, dump)(i) == Reading(q, Narrowing(i), dump(i))
  {
  }

  /** The RTM_DELNEIGH copy of a reply, flagged NLM_F_REQUEST alone. */
  function DelNeigh(seqs: nat -> U32): Builder {
    (k, body) => BuildWrite(RTM_DELNEIGH, 0, seqs(k), body)
  }

  /** runNeighFlush after its arguments are read. */
  method FlushNeighbors(q: Query, dump: nat -> seq<Bytes>, failsAt: int, hook: bool, seqs: nat -> U32,
                        ghost universe: set<NeighKey>)
    returns (outcome: Outcome, made: nat, datagrams: seq<Bytes>)
    requires Within(Wide(q, dump), universe)
    ensures made <= |universe| + 1
    ensures EndsWith(Wide(q, dump), failsAt, hook, outcome, made)
    ensures datagrams == Sent(Answered(Wide(q, dump), Applied(outcome, made)), DelNeigh(seqs))
  {
    outcome, made, datagrams := RunNeighFlush(Wide(q, dump), failsAt, hook, DelNeigh(seqs), universe);
  }

  // ------------------------------------------------------ narrowing after the first round

  /** A failed-only entry of a later dump whose key no earlier dump kept. */
  ghost predicate NewlyFailed(q: Query, dump: nat -> seq<Bytes>, i: nat, b: Bytes) {
    && i > 0 && b in dump(i) && q.decode(b).Some?
    && Selected(q, q.decode(b).value) && FailedOnly(q.decode(b).value)
    && KeyOf(q.decode(b).value) !in KeptInAny(Answered(Wide(q, dump), i))
  }

  /** Two readings of one dump: the second keeps no more than the first. */
  ghost predicate Narrows<K>(wide: seq<Reply<K>>, narrow: seq<Reply<K>>) {
    && |wide| == |narrow|
    && forall j :: 0 <= j < |wide| ==> NarrowsAt(wide[j], narrow[j])
  }

  ghost predicate NarrowsAt<K>(wide: Reply<K>, narrow: Reply<K>) {
    || (wide.Malformed? && narrow.Malformed?)
    || (&& wide.Reply? && narrow.Reply? && wide.key == narrow.key && wide.body == narrow.body
        && (narrow.kept ==> wide.kept))
  }

  ghost predicate LostAt<K>(wide: Reply<K>, narrow: Reply<K>, copied: set<K>)
    requires NarrowsAt(wide, narrow)
  {
    wide.Reply? && wide.kept && !narrow.kept && wide.key !in copied
  }

  lemma {:induction false} NarrowCopiesNoMore<K>(wide: seq<Reply<K>>, narrow: seq<Reply<K>>, copied: set<K>, n: nat)
    requires Narrows(wide, narrow) && n <= |wide|
    ensures |FreshUpTo(narrow, n, copied)| <= |FreshUpTo(wide, n, copied)|
    ensures (forall j :: 0 <= j < n ==> !LostAt(wide[j], narrow[j], copied))
        ==> FreshUpTo(narrow, n, copied) == FreshUpTo(wide, n, copied)
    decreases n
  {
    if n > 0 {
      NarrowCopiesNoMore(wide, narrow, copied, n - 1);
      assert NarrowsAt(wide[n - 1], narrow[n - 1]);
    }
  }

  lemma ReadingsNarrow(q: Query, dump: nat -> seq<Bytes>, i: nat)
    ensures Narrows(Wide(q, dump)(i), Narrowed(q, dump)(i))
    ensures Malformed in Wide(q, dump)(i) <==> Malformed in Narrowed(q, dump)(i)
  {
    var wide, narrow := Wide(q, dump)(i), Narrowed(q, dump)(i);
    WideAt(q, dump, i);
    forall j | 0 <= j < |wide| ensures NarrowsAt(wide[j], narrow[j]) && (wide[j] == Malformed <==> narrow[j] == Malformed) {
    }
  }

  lemma LostIsNewlyFailed(q: Query, dump: nat -> seq<Bytes>, i: nat, j: nat)
    requires j < |dump(i)| && NarrowsAt(ReplyOf(q, Goip, dump(i)[j]), ReplyOf(q, Narrowing(i), dump(i)[j]))
    ensures LostAt(ReplyOf(q, Goip, dump(i)[j]), ReplyOf(q, Narrowing(i), dump(i)[j]), KeptInAny(Answered(Wide(q, dump), i)))
        ==> NewlyFailed(q, dump, i, dump(i)[j])
  {
  }

  /** No round of the first `n` meets a newly failed entry. */
  ghost predicate NoneNewlyFailed(q: Query, dump: nat -> seq<Bytes>, n: nat) {
    forall i :: 0 <= i < n ==> NoneFailedIn(q, dump, i)
  }

  ghost predicate NoneFailedIn(q: Query, dump: nat -> seq<Bytes>, i: nat) {
    forall b :: b in dump(i) ==> !NewlyFailed(q, dump, i, b)
  }

  /** A round in which nothing is newly failed is the same to both, where the rounds before were. */
  lemma RoundAgrees(q: Query, dump: nat -> seq<Bytes>, i: nat)
    requires KeptInAny(Answered(Wide(q, dump), i)) == KeptInAny(Answered(Narrowed(q, dump), i))
    ensures |Round(Narrowed(q, dump), i)| <= |Round(Wide(q, dump), i)|
    ensures NoneFailedIn(q, dump, i) ==> Round(Wide(q, dump), i) == Round(Narrowed(q, dump), i)
  {
    var wide, narrow, copied := Wide(q, dump)(i), Narrowed(q, dump)(i), KeptInAny(Answered(Wide(q, dump), i));
    WideAt(q, dump, i);
    ReadingsNarrow(q, dump, i);
    NarrowCopiesNoMore(wide, narrow, copied, |wide|);
    if NoneFailedIn(q, dump, i) {
      forall j | 0 <= j < |wide| ensures !LostAt(wide[j], narrow[j], copied) {
        LostIsNewlyFailed(q, dump, i, j);
      }
    }
  }

  lemma SameRoundSameKeys<K>(a: nat -> seq<Reply<K>>, b: nat -> seq<Reply<K>>, i: nat)
    requires KeptInAny(Answered(a, i)) == KeptInAny(Answered(b, i)) && Round(a, i) == Round(b, i)
    ensures KeptInAny(Answered(a, i + 1)) == KeptInAny(Answered(b, i + 1))
  {
    var copied := KeptInAny(Answered(a, i));
    FreshKeys(a(i), copied);
    FreshKeys(b(i), copied);
    assert copied + KeptIn(a(i)) == copied + (KeptIn(a(i)) - copied);
    assert copied + KeptIn(b(i)) == copied + (KeptIn(b(i)) - copied);
  }

  ghost predicate SameRounds<K>(a: nat -> seq<Reply<K>>, b: nat -> seq<Reply<K>>, n: nat) {
    forall i :: 0 <= i < n ==> Round(a, i) == Round(b, i)
  }

  ghost predicate SameKeysBefore<K>(a: nat -> seq<Reply<K>>, b: nat -> seq<Reply<K>>, i: nat) {
    KeptInAny(Answered(a, i)) == KeptInAny(Answered(b, i))
  }

  lemma {:induction false} RoundByRound<K>(a: nat -> seq<Reply<K>>, b: nat -> seq<Reply<K>>, n: nat)
    requires forall i :: 0 <= i < n && SameKeysBefore(a, b, i) ==> Round(a, i) == Round(b, i)
    ensures SameKeysBefore(a, b, n) && SameRounds(a, b, n)
  {
    if n > 0 {
      RoundByRound(a, b, n - 1);
      SameRoundSameKeys(a, b, n - 1);
    }
  }

  lemma RoundsAgree(q: Query, dump: nat -> seq<Bytes>, n: nat)
    requires NoneNewlyFailed(q, dump, n)
    ensures SameKeysBefore(Wide(q, dump), Narrowed(q, dump), n)
    ensures SameRounds(Wide(q, dump), Narrowed(q, dump), n)
  {
    var wide, narrow := Wide(q, dump), Narrowed(q, dump);
    forall i | 0 <= i < n && SameKeysBefore(wide, narrow, i) ensures Round(wide, i) == Round(narrow, i) {
      assert NoneFailedIn(q, dump, i);
      RoundAgrees(q, dump, i);
    }
    RoundByRound(wide, narrow, n);
  }

  /** Two lists of dumps copied alike. */
  ghost predicate SentAlike<K>(a: seq<seq<Reply<K>>>, b: seq<seq<Reply<K>>>, build: Builder) {
    Copies(a) == Copies(b) && Sent(a, build) == Sent(b, build)
  }

  lemma SentAlikeSnoc<K>(a: seq<seq<Reply<K>>>, b: seq<seq<Reply<K>>>, c: seq<Reply<K>>, d: seq<Reply<K>>, build: Builder)
    requires SentAlike(a, b, build) && Fresh(c, KeptInAny(a)) == Fresh(d, KeptInAny(b))
    ensures SentAlike(a + [c], b + [d], build)
  {
    SentSnoc(a, c, build);
    SentSnoc(b, d, build);
  }

  lemma {:induction false} SameRoundsSameSent<K>(a: nat -> seq<Reply<K>>, b: nat -> seq<Reply<K>>, n: nat, build: Builder)
    requires SameRounds(a, b, n)
    ensures SentAlike(Answered(a, n), Answered(b, n), build)
  {
    if n > 0 {
      SameRoundsSameSent(a, b, n - 1, build);
      assert Round(a, n - 1) == Round(b, n - 1);
      SentAlikeSnoc(Answered(a, n - 1), Answered(b, n - 1), a(n - 1), b(n - 1), build);
    }
  }

  lemma {:induction false} SameRoundsCopyAlike(q: Query, dump: nat -> seq<Bytes>, n: nat)
    requires AllCopying(Wide(q, dump), n) && SameRounds(Wide(q, dump), Narrowed(q, dump), n)
    ensures AllCopying(Narrowed(q, dump), n)
  {
    if n > 0 {
      SameRoundsCopyAlike(q, dump, n - 1);
      ReadingsNarrow(q, dump, n - 1);
    }
  }

  /** Where nothing is newly failed the narrowed run ends as goip's does. */
  lemma IdleEndsAlike(q: Query, dump: nat -> seq<Bytes>, failsAt: int, hook: bool, outcome: Outcome, made: nat)
    requires EndsWith(Wide(q, dump), failsAt, hook, outcome, made)
    requires NoneNewlyFailed(q, dump, Applied(outcome, made))
    ensures EndsWith(Narrowed(q, dump), failsAt, hook, outcome, made)
  {
    var n := Applied(outcome, made);
    RoundsAgree(q, dump, n);
    SameRoundsCopyAlike(q, dump, n);
    if !outcome.Terminated? {
      ReadingsNarrow(q, dump, n);
      RoundAgrees(q, dump, n);
      assert outcome.NotApplied? ==> NoneFailedIn(q, dump, 0);
    }
  }

  // ---------------------------------------------------- where something is newly failed

  lemma {:induction false} RoundIsCopied<K>(dump: nat -> seq<Reply<K>>, i: nat, n: nat, r: Reply<K>)
    requires i < n && r in Round(dump, i)
    ensures r in Copies(Answered(dump, n))
    decreases n
  {
    if i < n - 1 {
      RoundIsCopied(dump, i, n - 1, r);
    }
  }

  lemma RoundMember<K>(dump: nat -> seq<Reply<K>>, i: nat, r: Reply<K>)
    requires r in Round(dump, i)
    ensures r in dump(i) && r.Reply? && r.kept
  {
    FreshMembers(dump(i), KeptInAny(Answered(dump, i)), r);
  }

  lemma {:induction false} CopiedInRound<K>(dump: nat -> seq<Reply<K>>, n: nat, r: Reply<K>) returns (i: nat)
    requires r in Copies(Answered(dump, n))
    ensures i < n && r in dump(i) && r.Reply? && r.kept
    decreases n
  {
    var before, after := Copies(Answered(dump, n - 1)), Copies(Answered(dump, n));
    if r in before {
      i := CopiedInRound(dump, n - 1, r);
    } else {
      i := n - 1;
      RoundMember(dump, i, r);
    }
  }

  lemma {:induction false} KeptEarlier<K>(dump: nat -> seq<Reply<K>>, i: nat, n: nat, r: Reply<K>)
    requires i < n && r in dump(i) && r.Reply? && r.kept
    ensures r.key in KeptInAny(Answered(dump, n))
    decreases n
  {
    if i < n - 1 {
      KeptEarlier(dump, i, n - 1, r);
    }
  }

  /** goip copies a newly failed entry, */
  lemma WideCopiesIt(q: Query, dump: nat -> seq<Bytes>, i: nat, n: nat, b: Bytes)
    requires i < n && NewlyFailed(q, dump, i, b)
    ensures ReplyOf(q, Goip, b) in Copies(Answered(Wide(q, dump), n))
  {
    var r := ReplyOf(q, Goip, b);
    FailedIsKept(q.decode(b).value);
    WideAt(q, dump, i);
    var j :| 0 <= j < |dump(i)| && dump(i)[j] == b;
    assert Wide(q, dump)(i)[j] == r;
    FreshMembers(Wide(q, dump)(i), KeptInAny(Answered(Wide(q, dump), i)), r);
    RoundIsCopied(Wide(q, dump), i, n, r);
  }

  /** and the narrowed run never does, in whatever round. */
  lemma NarrowNeverCopiesIt(q: Query, dump: nat -> seq<Bytes>, i: nat, n: nat, b: Bytes, r: Reply<NeighKey>)
    requires NewlyFailed(q, dump, i, b) && r in Copies(Answered(Narrowed(q, dump), n))
    ensures Body(r) != b
  {
    var at := CopiedInRound(Narrowed(q, dump), n, r);
    WideAt(q, dump, at);
    var j :| 0 <= j < |dump(at)| && Narrowed(q, dump)(at)[j] == r;
    if r.body == b {
      var w := ReplyOf(q, Goip, b);
      assert Wide(q, dump)(at)[j] == w;
      KeptEarlier(Wide(q, dump), at, i, w);
    }
  }

  ghost predicate Bounded(dump: nat -> seq<Bytes>) {
    forall i: nat, b :: b in dump(i) ==> HEADER_SIZE + |b| < 0x1_0000_0000
  }

  lemma NeighCopiesAreFramed(dump: nat -> seq<Reply<NeighKey>>, bodies: nat -> seq<Bytes>, n: nat, seqs: nat -> U32)
    requires Bounded(bodies)
    requires forall i: nat, r :: r in dump(i) && r.Reply? ==> r.body in bodies(i)
    ensures BuildsFramed(Copies(Answered(dump, n)), DelNeigh(seqs))
  {
    forall r, k: nat | r in Copies(Answered(dump, n)) && r.Reply? ensures Framed(DelNeigh(seqs)(k, r.body)) {
      var i := CopiedInRound(dump, n, r);
      assert r.body in bodies(i);
      assert DelNeigh(seqs)(k, r.body) == BuildWrite(RTM_DELNEIGH, 0, seqs(k), r.body);
    }
  }

  lemma ReadingBodies(q: Query, dump: nat -> seq<Bytes>)
    ensures forall i: nat, r :: r in Wide(q, dump)(i) && r.Reply? ==> r.body in dump(i)
    ensures forall i: nat, r :: r in Narrowed(q, dump)(i) && r.Reply? ==> r.body in dump(i)
  {
    forall i: nat, r | r in Wide(q, dump)(i) && r.Reply? ensures r.body in dump(i) {
      WideAt(q, dump, i);
    }
    forall i: nat, r | r in Narrowed(q, dump)(i) && r.Reply? ensures r.body in dump(i) {
      WideAt(q, dump, i);
    }
  }

  /** A message is its header and the body it was made from. */
  ghost predicate CarriesBody(build: Builder) {
    forall k: nat, body :: CarriesAt(build(k, body), body)
  }

  ghost predicate CarriesAt(msg: Bytes, body: Bytes) {
    |msg| >= HEADER_SIZE && msg[HEADER_SIZE..] == body
  }

  lemma DelNeighCarries(seqs: nat -> U32)
    ensures CarriesBody(DelNeigh(seqs))
  {
    forall k: nat, body ensures CarriesAt(DelNeigh(seqs)(k, body), body) {
      var m := BuildWrite(RTM_DELNEIGH, 0, seqs(k), body);
    }
  }

  lemma BuildsDelNeigh(seqs: nat -> U32)
    ensures BuildsDeletes(DelNeigh(seqs), 29, seqs)
  {
    forall k: nat, body | HEADER_SIZE + |body| < 0x1_0000_0000 ensures IsDelete(DelNeigh(seqs)(k, body), 29, seqs(k), body) {
      assert DelNeigh(seqs)(k, body) == BuildWrite(RTM_DELNEIGH, 0, seqs(k), body);
    }
  }

  /**
   Read back message by message, the datagrams are the copied replies whole, as
   RTM_DELNEIGH (29), flagged NLM_F_REQUEST (1) alone, under the sequence numbers
   in order.
   */
  lemma FlushDeletesCopies(q: Query, dump: nat -> seq<Bytes>, n: nat, seqs: nat -> U32)
    requires Bounded(dump)
    ensures var rs := Copies(Answered(Wide(q, dump), n));
            var out := FB.UnpackAll(Sent(Answered(Wide(q, dump), n), DelNeigh(seqs)));
            && |out| == |rs|
            && forall k :: 0 <= k < |out| ==> IsDelete(out[k], 29, seqs(k), rs[k].body)
  {
    var ds := Answered(Wide(q, dump), n);
    ReadingBodies(q, dump);
    NeighCopiesAreFramed(Wide(q, dump), dump, n, seqs);
    SentUnpacks(ds, DelNeigh(seqs));
    var out := Deletes(Copies(ds), DelNeigh(seqs), 0);
    BuildsDelNeigh(seqs);
    forall k | 0 <= k < |Copies(ds)|
      ensures IsDelete(out[k], 29, seqs(k), Copies(ds)[k].body)
    {
      var i := CopiedInRound(Wide(q, dump), n, Copies(ds)[k]);
      assert Copies(ds)[k].body in dump(i);
      DeletesAre(Copies(ds), DelNeigh(seqs), k, out[k], Copies(ds)[k].body);
    }
  }

  /** An entry a flush is to delete: of the family and the device asked for, and
      in a state other than NUD_NOARP (0x40) and NUD_PERMANENT (0x80), in none, or
      a proxy (0x08) or externally learned (0x10) entry. */
  ghost predicate Matching(q: Query, body: Bytes, key: NeighKey) {
    q.decode(body).Some? &&
    var e := q.decode(body).value;
    && (q.family != 0 ==> e.family == q.family)
    && (q.index != 0 ==> e.ifindex == q.index)
    && (e.state & 0xff3f != 0 || e.state == 0 || e.flags & 0x18 != 0)
    && key == NeighKey(e.family, e.flags & 0x08 != 0, e.ifindex, e.dst)
  }

  lemma KeptIffMatching(q: Query, body: Bytes, key: NeighKey)
    ensures var r := ReplyOf(q, Goip, body);
            r.Reply? && r.kept && r.key == key <==> Matching(q, body, key)
  {
    if q.decode(body).Some? {
      StateBits(q.decode(body).value.state, q.decode(body).value.flags);
    }
  }

  lemma StateBits(state: bv16, flags: bv8)
    ensures state & !(NUD_PERMANENT | NUD_NOARP) == state & 0xff3f
    ensures flags & (NTF_PROXY | NTF_EXT_LEARNED) == flags & 0x18
  {
  }

  lemma KeptInIffMatching(q: Query, bodies: seq<Bytes>, key: NeighKey)
    ensures key in KeptIn(Reading(q, Goip, bodies)) <==> exists b :: b in bodies && Matching(q, b, key)
  {
    var rs := Reading(q, Goip, bodies);
    if key in KeptIn(rs) {
      var r :| r in rs && r.Reply? && r.kept && r.key == key;
      var j :| 0 <= j < |rs| && rs[j] == r;
      KeptIffMatching(q, bodies[j], key);
      assert bodies[j] in bodies;
    }
    if b :| b in bodies && Matching(q, b, key) {
      var j :| 0 <= j < |bodies| && bodies[j] == b;
      KeptIffMatching(q, b, key);
      assert rs[j] in rs;
    }
  }

  /** A dump among the first `n` has such an entry. */
  ghost predicate MatchingIn(q: Query, dump: nat -> seq<Bytes>, n: nat, key: NeighKey) {
    exists i, b :: 0 <= i < n && b in dump(i) && Matching(q, b, key)
  }

  lemma OneMoreDump(q: Query, dump: nat -> seq<Bytes>, n: nat, key: NeighKey)
    ensures MatchingIn(q, dump, n + 1, key)
       <==> MatchingIn(q, dump, n, key) || exists b :: b in dump(n) && Matching(q, b, key)
  {
  }

  lemma {:induction false} KeptIffMatchingIn(q: Query, dump: nat -> seq<Bytes>, n: nat, key: NeighKey)
    ensures key in KeptInAny(Answered(Wide(q, dump), n)) <==> MatchingIn(q, dump, n, key)
    decreases n
  {
    if n > 0 {
      KeptIffMatchingIn(q, dump, n - 1, key);
      OneMoreDump(q, dump, n - 1, key);
      WideAt(q, dump, n - 1);
      KeptInIffMatching(q, dump(n - 1), key);
      var ds, front := Answered(Wide(q, dump), n), Answered(Wide(q, dump), n - 1);
      assert ds[..n - 1] == front && ds[n - 1] == Wide(q, dump)(n - 1);
    }
  }

  /** Which keys the flush deletes, from the raw replies. */
  lemma DeletedIffMatching(q: Query, dump: nat -> seq<Bytes>, n: nat, key: NeighKey)
    ensures key in Keys(Copies(Answered(Wide(q, dump), n))) <==> MatchingIn(q, dump, n, key)
  {
    CopiesCoverKeptKeys(Answered(Wide(q, dump), n));
    KeptIffMatchingIn(q, dump, n, key);
  }

  lemma DeletesTellBodies<K>(a: seq<Reply<K>>, b: seq<Reply<K>>, build: Builder, k: nat)
    requires CarriesBody(build) && Deletes(a, build, 0) == Deletes(b, build, 0) && k < |a|
    ensures k < |b| && Body(a[k]) == Body(b[k])
  {
    assert |Deletes(a, build, 0)| == |a| && |Deletes(b, build, 0)| == |b|;
    DeletesAt(a, build, 0, k);
    DeletesAt(b, build, 0, k);
    assert CarriesAt(build(k, Body(a[k])), Body(a[k])) && CarriesAt(build(k, Body(b[k])), Body(b[k]));
  }

  /** The datagrams tell the bodies that were copied. */
  lemma SentTellsBodies(a: seq<seq<Reply<NeighKey>>>, b: seq<seq<Reply<NeighKey>>>, seqs: nat -> U32, r: Reply<NeighKey>)
    returns (other: Reply<NeighKey>)
    requires BuildsFramed(Copies(a), DelNeigh(seqs)) && BuildsFramed(Copies(b), DelNeigh(seqs))
    requires Sent(a, DelNeigh(seqs)) == Sent(b, DelNeigh(seqs)) && r in Copies(a)
    ensures other in Copies(b) && Body(other) == Body(r)
  {
    SentUnpacks(a, DelNeigh(seqs));
    SentUnpacks(b, DelNeigh(seqs));
    var k :| 0 <= k < |Copies(a)| && Copies(a)[k] == r;
    DelNeighCarries(seqs);
    DeletesTellBodies(Copies(a), Copies(b), DelNeigh(seqs), k);
    other := Copies(b)[k];
  }

  lemma SentDiffers(q: Query, dump: nat -> seq<Bytes>, i: nat, m: nat, n: nat, b: Bytes, seqs: nat -> U32)
    requires Bounded(dump) && i < m && NewlyFailed(q, dump, i, b)
    ensures Sent(Answered(Wide(q, dump), m), DelNeigh(seqs)) != Sent(Answered(Narrowed(q, dump), n), DelNeigh(seqs))
  {
    var wide, narrow := Answered(Wide(q, dump), m), Answered(Narrowed(q, dump), n);
    ReadingBodies(q, dump);
    NeighCopiesAreFramed(Wide(q, dump), dump, m, seqs);
    NeighCopiesAreFramed(Narrowed(q, dump), dump, n, seqs);
    WideCopiesIt(q, dump, i, m, b);
    if Sent(wide, DelNeigh(seqs)) == Sent(narrow, DelNeigh(seqs)) {
      var other := SentTellsBodies(wide, narrow, seqs, ReplyOf(q, Goip, b));
      NarrowNeverCopiesIt(q, dump, i, n, b, other);
    }
  }

  /**
   goip leaves its mask alone where `ip` drops NUD_FAILED from it. Here goip's
   own loop is run to its end twice over the same dumps, with the mask alone and
   with the mask narrowed. The two send the same datagrams exactly when no round
   of the first that is applied brings a failed-only entry whose key no dump
   before had kept; and then they also end alike. (`ip` itself keeps no set of
   copied keys: it relies on the kernel having deleted them.)
   */
  lemma KeepingFailedIsIdleIff(q: Query, dump: nat -> seq<Bytes>, failsAt: int, hook: bool, seqs: nat -> U32,
                               a: Outcome, m: nat, b: Outcome, n: nat)
    requires Bounded(dump)
    requires EndsWith(Wide(q, dump), failsAt, hook, a, m) && EndsWith(Narrowed(q, dump), failsAt, hook, b, n)
    ensures Sent(Answered(Wide(q, dump), Applied(a, m)), DelNeigh(seqs))
         == Sent(Answered(Narrowed(q, dump), Applied(b, n)), DelNeigh(seqs))
       <==> NoneNewlyFailed(q, dump, Applied(a, m))
    ensures NoneNewlyFailed(q, dump, Applied(a, m)) ==> a == b && m == n
  {
    if NoneNewlyFailed(q, dump, Applied(a, m)) {
      IdleEndsAlike(q, dump, failsAt, hook, a, m);
      EndsOnce(Narrowed(q, dump), failsAt, hook, a, m, b, n);
      RoundsAgree(q, dump, Applied(a, m));
      SameRoundsSameSent(Wide(q, dump), Narrowed(q, dump), Applied(a, m), DelNeigh(seqs));
    } else {
      var i :| 0 <= i < Applied(a, m) && !NoneFailedIn(q, dump, i);
      var body :| body in dump(i) && NewlyFailed(q, dump, i, body);
      SentDiffers(q, dump, i, Applied(a, m), Applied(b, n), body, seqs);
    }
  }

  /** Over an unchanging dump it never makes a difference. */
  lemma UnchangingDumpHidesIt(q: Query, dump: nat -> seq<Bytes>, n: nat)
    requires forall i: nat :: dump(i) == dump(0)
    ensures NoneNewlyFailed(q, dump, n)
  {
    forall i, b | 0 <= i < n && b in dump(i) ensures !NewlyFailed(q, dump, i, b) {
      if NewlyFailed(q, dump, i, b) {
        WideAt(q, dump, 0);
        FailedIsKept(q.decode(b).value);
        var j :| 0 <= j < |dump(0)| && dump(0)[j] == b;
        assert Wide(q, dump)(0)[j] == ReplyOf(q, Goip, b);
        KeptEarlier(Wide(q, dump), 0, i, ReplyOf(q, Goip, b));
      }
    }
  }

  // A run that shows it: one reachable entry, then a failed one beside it for good.
  const REACHED := NeighInfo(2, 1, [10, 0, 0, 1], NUD_REACHABLE, 0)
  const FAILED := NeighInfo(2, 1, [10, 0, 0, 2], NUD_FAILED, 0)

  function ShowingQuery(): Query {
    Query((b: Bytes) => if b == [1] then Some(REACHED) else if b == [2] then Some(FAILED) else None, 0, 0)
  }

  function ShowingDump(): nat -> seq<Bytes> {
    (i: nat) => if i == 0 then [[1]] else [[1], [2]]
  }

  lemma FreshOfTwo<K>(r: Reply<K>, t: Reply<K>, copied: set<K>)
    ensures Fresh([r], copied) == if Copied(r, copied) then [r] else []
    ensures Fresh([r, t], copied) == Fresh([r], copied) + if Copied(t, copied) then [t] else []
  {
    assert FreshUpTo([r], 0, copied) == [] && FreshUpTo([r, t], 0, copied) == [];
    assert FreshUpTo([r, t], 1, copied) == FreshUpTo([r], 1, copied);
  }

  /** What the two read in those dumps. */
  lemma ShowingReads(i: nat, a: Reply<NeighKey>, f: Reply<NeighKey>, g: Reply<NeighKey>)
    requires a == Reply(KeyOf(REACHED), true, [1])
    requires f == Reply(KeyOf(FAILED), true, [2]) && g == f.(kept := false)
    ensures Wide(ShowingQuery(), ShowingDump())(i) == if i == 0 then [a] else [a, f]
    ensures Narrowed(ShowingQuery(), ShowingDump())(i) == if i == 0 then [a] else [a, g]
  {
    var q := ShowingQuery();
    WideAt(q, ShowingDump(), i);
    assert FlushKeeps(REACHED) && FlushKeeps(FAILED) && FailedOnly(FAILED) && !FailedOnly(REACHED);
    assert ReplyOf(q, Goip, [1]) == a && ReplyOf(q, Goip, [2]) == f;
  }

  /** Two dumps of a run: one entry, then that one and another. */
  lemma TwoRounds<K>(dump: nat -> seq<Reply<K>>, a: Reply<K>, f: Reply<K>)
    requires dump(0) == [a] && (forall i: nat :: i > 0 ==> dump(i) == [a, f])
    requires a.Reply? && f.Reply? && a.kept && a.key != f.key
    ensures Round(dump, 0) == [a]
    ensures Round(dump, 1) == if f.kept then [f] else []
    ensures Round(dump, 2) == []
  {
    FreshOfTwo(a, f, {});
    assert a in dump(0) && a in dump(1) && f in dump(1);
    var one, two := KeptInAny(Answered(dump, 1)), KeptInAny(Answered(dump, 2));
    assert KeptInAny(Answered(dump, 0)) == {} && one == {a.key};
    FreshOfTwo(a, f, one);
    FreshOfTwo(a, f, two);
  }

  lemma TwoRoundsEnd<K>(dump: nat -> seq<Reply<K>>, a: Reply<K>, f: Reply<K>)
    requires dump(0) == [a] && (forall i: nat :: i > 0 ==> dump(i) == [a, f])
    requires a.Reply? && f.Reply? && a.kept && a.key != f.key
    ensures EndsWith(dump, -1, true, Complete, if f.kept then 3 else 2)
    ensures KeptInAny(Answered(dump, 1)) == {a.key}
  {
    TwoRounds(dump, a, f);
    assert Copying(dump, 0) && (f.kept ==> Copying(dump, 1));
    assert AllCopying(dump, 1) && (f.kept ==> AllCopying(dump, 2));
  }

  lemma ShowingEnds()
    ensures EndsWith(Wide(ShowingQuery(), ShowingDump()), -1, true, Complete, 3)
    ensures EndsWith(Narrowed(ShowingQuery(), ShowingDump()), -1, true, Complete, 2)
    ensures KeptInAny(Answered(Wide(ShowingQuery(), ShowingDump()), 1)) == {KeyOf(REACHED)}
  {
    var wide, narrow := Wide(ShowingQuery(), ShowingDump()), Narrowed(ShowingQuery(), ShowingDump());
    var a, f := Reply(KeyOf(REACHED), true, [1]), Reply(KeyOf(FAILED), true, [2]);
    var g := f.(kept := false);
    forall i: nat
      ensures wide(i) == (if i == 0 then [a] else [a, f]) && narrow(i) == (if i == 0 then [a] else [a, g])
    {
      ShowingReads(i, a, f, g);
    }
    TwoRoundsEnd(wide, a, f);
    TwoRoundsEnd(narrow, a, g);
  }

  /** Over these dumps goip copies the failed entry in its second round and needs
      a third dump; with the mask narrowed it stops at the second, and the datagrams differ. */
  lemma ChangingDumpShowsIt(seqs: nat -> U32)
    ensures EndsWith(Wide(ShowingQuery(), ShowingDump()), -1, true, Complete, 3)
    ensures EndsWith(Narrowed(ShowingQuery(), ShowingDump()), -1, true, Complete, 2)
    ensures Sent(Answered(Wide(ShowingQuery(), ShowingDump()), 2), DelNeigh(seqs))
         != Sent(Answered(Narrowed(ShowingQuery(), ShowingDump()), 1), DelNeigh(seqs))
  {
    ShowingEnds();
    var b: Bytes := [2];
    SentDiffers(ShowingQuery(), ShowingDump(), 1, 2, 1, b, seqs);
  }
}
