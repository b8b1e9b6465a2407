/**
 `ip address flush` (internal/goip/addr_flush.go): dump, copy what matches into
 RTM_DELADDR messages, and dump again, until a dump has nothing new.

 The answered dumps are an arbitrary list: the kernel may change between rounds
 in any way. A dump beyond the list is a request that failed, which ends the
 flush, so every finite run is covered, with or without a limit on the rounds.
 */
module AddrFlush {
  import opened Shared
  import opened Netlink
  import opened FlushRounds
  import FB = FlushBuf
  import AF = AddrFilter
  import AddrFlags
  import AddrPrefix

  type Octets = AddrPrefix.Octets

  /** What tells two addresses apart: everything a delete names, and no lifetimes. */
  datatype AddrKey = AddrKey(family: nat, prefixlen: nat, index: nat, local: Octets, address: Octets)

  function OrEmpty(o: Option<Octets>): Octets {
    if o.Some? then o.value else []
  }

  function KeyOf(ai: AF.AddrInfo): AddrKey {
    AddrKey(ai.family, ai.prefixlen, ai.index, OrEmpty(ai.local), OrEmpty(ai.address))
  }

  /** A reply's body, and what it decodes to if it does. */
  datatype RawReply = RawReply(body: Bytes, decoded: Option<AF.AddrInfo>)

  /** What one reply is to the round: undecodable, or keyed and tested. */
  ghost function ReplyOf(f: AF.Filter, raw: RawReply, names: AF.Names): Reply<AddrKey> {
    if raw.decoded.None? then Malformed
    else Reply(KeyOf(raw.decoded.value), AF.AddrFlushed(f, raw.decoded.value, names), raw.body)
  }

  ghost function RepliesOf(f: AF.Filter, dump: seq<RawReply>, names: AF.Names): (rs: seq<Reply<AddrKey>>)
    ensures |rs| == |dump|
  {
    seq(|dump|, i requires 0 <= i < |dump| => ReplyOf(f, dump[i], names))
  }

  /** Decode and test a dump's replies. */
  method ReadDump(f: AF.Filter, dump: seq<RawReply>, names: AF.Names) returns (rs: seq<Reply<AddrKey>>)
    ensures rs == RepliesOf(f, dump, names)
  {
    rs := [];
    var i := 0;
    while i < |dump|
      invariant 0 <= i <= |dump| && |rs| == i
      invariant forall k :: 0 <= k < i ==> rs[k] == ReplyOf(f, dump[k], names)
    {
      if dump[i].decoded.None? {
        rs := rs + [Malformed];
      } else {
        var kept := AF.MatchFlush(f, dump[i].decoded.value, names);
        rs := rs + [Reply(KeyOf(dump[i].decoded.value), kept, dump[i].body)];
      }
      i := i + 1;
    }
  }

  type Dump = seq<RawReply>

  datatype Outcome = Complete | Incomplete | DumpFailed | BadReply

  /** The decoded replies of the first `n` dumps. */
  ghost function Read(f: AF.Filter, dumps: seq<Dump>, names: AF.Names, n: nat): (ds: seq<seq<Reply<AddrKey>>>)
    requires n <= |dumps|
    ensures |ds| == n
  {
    if n == 0 then [] else Read(f, dumps, names, n - 1) + [RepliesOf(f, dumps[n - 1], names)]
  }

  const SECONDARY: nat := 0

  /** A primary-only flush is one round. */
  predicate PrimaryOnly(f: AF.Filter) {
    SECONDARY !in f.flags && SECONDARY in f.flagmask
  }

  /** That is, when the last word that names the secondary flag (bit 0) asks for it
      clear, as `primary` and `-secondary` do. */
  lemma PrimaryOnlyIff(f: AF.Filter, asks: seq<AddrFlags.Ask>)
    requires AddrFlags.Flags(f.flags, f.flagmask) == AddrFlags.Folded(AddrFlags.NOTHING, asks)
    ensures PrimaryOnly(f) <==> AddrFlags.Named(asks, 0) == Some(false)
  {
    AddrFlags.LastWordWins(asks, 0);
    var folded := AddrFlags.Folded(AddrFlags.NOTHING, asks);
    assert folded.flags == f.flags && folded.flagmask == f.flagmask;
    if AddrFlags.Named(asks, 0).Some? && !AddrFlags.Named(asks, 0).value {
      assert AddrFlags.Named(asks, 0) == Some(false);
    }
  }

  /** How a run that made the dumps `ds` ends, from the dumps alone. */
  ghost predicate EndsWith<K>(ds: seq<seq<Reply<K>>>, loops: int, primaryOnly: bool, outcome: Outcome) {
    var n := |ds|;
    && (n > 0 ==> loops == 0 || n <= loops)
    && (n > 1 ==> !primaryOnly)
    && match outcome
       case Complete =>
         && n > 0 && AllCopied(ds[..n - 1]) && Malformed !in ds[n - 1]
         && (RoundCopies(ds, n - 1) == [] || primaryOnly)
       case BadReply => n > 0 && AllCopied(ds[..n - 1]) && Malformed in ds[n - 1]
       case Incomplete => AllCopied(ds) && (n > 0 ==> !primaryOnly) && loops != 0 && n >= loops
       case DumpFailed => AllCopied(ds) && (n > 0 ==> !primaryOnly) && (loops == 0 || n < loops)
  }

  lemma PrefixSnoc<T>(s: seq<T>, i: nat)
    requires i < |s|
    ensures s[..i + 1] == s[..i] + [s[i]]
  {
  }

  /** The two ends that fall inside a round. */
  lemma EndsInRound<K>(before: seq<seq<Reply<K>>>, replies: seq<Reply<K>>, ds: seq<seq<Reply<K>>>, loops: int,
                       primaryOnly: bool, outcome: Outcome)
    requires ds == before + [replies] && AllCopied(before)
    requires loops == 0 || |ds| <= loops
    requires |before| > 0 ==> !primaryOnly
    requires outcome.Complete? ==> Malformed !in replies && (RoundCopies(ds, |before|) == [] || primaryOnly)
    requires outcome.BadReply? ==> Malformed in replies
    requires outcome.Complete? || outcome.BadReply?
    ensures EndsWith(ds, loops, primaryOnly, outcome)
  {
    assert ds[..|ds| - 1] == before;
  }

  /** The RTM_DELADDR copy of a reply, flagged NLM_F_REQUEST alone. */
  function DelAddr(seqs: nat -> U32): Builder {
    (k, body) => BuildWrite(RTM_DELADDR, 0, seqs(k), body)
  }

  /**
   The round loop of runAddrFlush over decoded dumps. `made` counts the dumps
   that were answered. A flush that ends normally or out of rounds has sent
   exactly the rounds' copies; how it ends is decided by the dumps it made.
   */
  method RunRounds<K(==)>(dumps: seq<seq<Reply<K>>>, loops: int, primaryOnly: bool, build: Builder)
    returns (outcome: Outcome, made: nat, datagrams: seq<Bytes>)
    ensures made <= |dumps|
    ensures loops > 0 ==> made <= loops
    ensures EndsWith(dumps[..made], loops, primaryOnly, outcome)
    ensures outcome.DumpFailed? ==> made == |dumps|
    ensures outcome.Complete? || outcome.Incomplete? ==> datagrams == Sent(dumps[..made], build)
  {
    var copied: set<K> := {};
    var buf := new FB.FlushBuf();
    var sent: nat := 0;
    made := 0;
    while loops == 0 || made < loops
      invariant made <= |dumps|
      invariant made > 0 ==> !primaryOnly && (loops == 0 || made <= loops)
      invariant AllCopied(dumps[..made])
      invariant Stands(dumps[..made], copied, sent, buf, build)
      decreases |dumps| - made
    {
      if made == |dumps| {
        return DumpFailed, made, buf.datagrams;
      }
      var replies := dumps[made];
      ghost var before := dumps[..made];
      made := made + 1;
      PrefixSnoc(dumps, made - 1);
      var ok, flushed;
      ok, flushed, copied := NextRound(replies, copied, buf, build, sent, before);
      if !ok {
        EndsInRound(before, replies, dumps[..made], loops, primaryOnly, BadReply);
        return BadReply, made, buf.datagrams;
      }
      if flushed == 0 || primaryOnly {
        EndsInRound(before, replies, dumps[..made], loops, primaryOnly, Complete);
        return Complete, made, buf.datagrams;
      }
      AllCopiedSnoc(before, replies);
      sent := sent + flushed;
    }
    return Incomplete, made, buf.datagrams;
  }

  /** However it ends, a flush makes at most one dump more than its dumps keep keys,
      with or without a limit on the rounds. */
  lemma EndsWithinKeys<K>(ds: seq<seq<Reply<K>>>, loops: int, primaryOnly: bool, outcome: Outcome)
    requires EndsWith(ds, loops, primaryOnly, outcome)
    ensures |ds| <= |KeptInAny(ds)| + 1
  {
    var n := if outcome.Complete? || outcome.BadReply? then |ds| - 1 else |ds|;
    assert ds[..|ds|] == ds;
    RoundsWithinKeys(ds[..n]);
    KeptInAnyGrows(ds, n, |ds|);
    Subset(KeptInAny(ds[..n]), KeptInAny(ds));
  }

  /** runAddrFlush after its arguments are read. */
  method RunAddrFlush(f: AF.Filter, dumps: seq<Dump>, names: AF.Names, loops: int, seqs: nat -> U32)
    returns (outcome: Outcome, made: nat, datagrams: seq<Bytes>)
    ensures made <= |dumps|
    ensures loops > 0 ==> made <= loops
    ensures EndsWith(Read(f, dumps, names, made), loops, PrimaryOnly(f), outcome)
    ensures outcome.DumpFailed? ==> made == |dumps|
    ensures outcome.Complete? || outcome.Incomplete? ==>
              datagrams == Sent(Read(f, dumps, names, made), DelAddr(seqs))
    ensures made <= |KeptInAny(Read(f, dumps, names, made))| + 1
  {
    var read: seq<seq<Reply<AddrKey>>> := [];
    var i := 0;
    while i < |dumps|
      invariant 0 <= i <= |dumps|
      invariant read == Read(f, dumps, names, i)
    {
      var replies := ReadDump(f, dumps[i], names);
      read := read + [replies];
      i := i + 1;
    }
    outcome, made, datagrams := RunRounds(read, loops, PrimaryOnly(f), DelAddr(seqs));
    ReadPrefix(f, dumps, names, made, |dumps|);
    EndsWithinKeys(Read(f, dumps, names, made), loops, PrimaryOnly(f), outcome);
  }

  lemma {:induction false} ReadPrefix(f: AF.Filter, dumps: seq<Dump>, names: AF.Names, m: nat, n: nat)
    requires m <= n <= |dumps|
    ensures Read(f, dumps, names, n)[..m] == Read(f, dumps, names, m)
    decreases n
  {
    if m < n {
      ReadPrefix(f, dumps, names, m, n - 1);
    }
  }

  // ------------------------------------------------------------------- what follows

  ghost predicate Bounded(dumps: seq<Dump>, made: nat)
    requires made <= |dumps|
  {
    forall i, raw :: 0 <= i < made && raw in dumps[i] ==> HEADER_SIZE + |raw.body| < 0x1_0000_0000
  }

  lemma CopiesAreFramed(f: AF.Filter, dumps: seq<Dump>, names: AF.Names, made: nat, seqs: nat -> U32)
    requires made <= |dumps|
    requires Bounded(dumps, made)
    ensures BuildsFramed(Copies(Read(f, dumps, names, made)), DelAddr(seqs))
  {
    forall r, k: nat | r in Copies(Read(f, dumps, names, made)) && r.Reply?
      ensures Framed(DelAddr(seqs)(k, r.body))
    {
      CopyIsBounded(f, dumps, names, made, r);
      assert DelAddr(seqs)(k, r.body) == BuildWrite(RTM_DELADDR, 0, seqs(k), r.body);
    }
  }

  lemma LongerRunCopied<K>(dumps: seq<seq<Reply<K>>>, i: nat, m: nat)
    requires i < m <= |dumps| && AllCopied(dumps[..m])
    ensures Malformed !in dumps[i] && RoundCopies(dumps, i) != []
  {
    assert dumps[..m][i] == dumps[i] && dumps[..m][..i] == dumps[..i];
  }

  /** A run that went past `i` copied in round `i`, and was not a primary-only one. */
  lemma PastMeansCopied<K>(dumps: seq<seq<Reply<K>>>, loops: int, primaryOnly: bool, i: nat, n: nat, b: Outcome)
    requires i + 1 < n <= |dumps| && EndsWith(dumps[..n], loops, primaryOnly, b)
    ensures Malformed !in dumps[i] && RoundCopies(dumps, i) != [] && !primaryOnly
  {
    if b.Complete? || b.BadReply? {
      assert dumps[..n][..n - 1] == dumps[..n - 1];
      LongerRunCopied(dumps, i, n - 1);
    } else {
      LongerRunCopied(dumps, i, n);
    }
  }

  /** A run that ended in round `i` found nothing to copy there, or had to stop. */
  lemma EndMeansNotCopied<K>(dumps: seq<seq<Reply<K>>>, loops: int, primaryOnly: bool, i: nat, a: Outcome)
    requires i < |dumps| && EndsWith(dumps[..i + 1], loops, primaryOnly, a) && (a.Complete? || a.BadReply?)
    ensures Malformed in dumps[i] || RoundCopies(dumps, i) == [] || primaryOnly
  {
    assert dumps[..i + 1][i] == dumps[i] && dumps[..i + 1][..i] == dumps[..i];
  }

  /** No run goes on past the point where another one ended. */
  lemma NoLongerRun<K>(dumps: seq<seq<Reply<K>>>, loops: int, primaryOnly: bool, m: nat, n: nat, a: Outcome, b: Outcome)
    requires m < n <= |dumps|
    requires EndsWith(dumps[..m], loops, primaryOnly, a) && (a.DumpFailed? ==> m == |dumps|)
    ensures !EndsWith(dumps[..n], loops, primaryOnly, b)
  {
    if EndsWith(dumps[..n], loops, primaryOnly, b) && (a.Complete? || a.BadReply?) {
      EndMeansNotCopied(dumps, loops, primaryOnly, m - 1, a);
      PastMeansCopied(dumps, loops, primaryOnly, m - 1, n, b);
    }
  }

  /** The dumps decide how far a flush goes and how it ends. */
  lemma EndingIsDetermined<K>(dumps: seq<seq<Reply<K>>>, loops: int, primaryOnly: bool,
                              m: nat, n: nat, a: Outcome, b: Outcome)
    requires m <= |dumps| && n <= |dumps|
    requires EndsWith(dumps[..m], loops, primaryOnly, a) && (a.DumpFailed? ==> m == |dumps|)
    requires EndsWith(dumps[..n], loops, primaryOnly, b) && (b.DumpFailed? ==> n == |dumps|)
    ensures m == n && a == b
  {
    if m < n {
      NoLongerRun(dumps, loops, primaryOnly, m, n, a, b);
    } else if n < m {
      NoLongerRun(dumps, loops, primaryOnly, n, m, b, a);
    } else if n > 0 {
      assert AllCopied(dumps[..n]) ==> Malformed !in dumps[..n][n - 1] && RoundCopies(dumps[..n], n - 1) != [];
    }
  }

  lemma BuildsDelAddr(seqs: nat -> U32)
    ensures BuildsDeletes(DelAddr(seqs), 21, seqs)
  {
    forall k: nat, body | HEADER_SIZE + |body| < 0x1_0000_0000 ensures IsDelete(DelAddr(seqs)(k, body), 21, seqs(k), body) {
      assert DelAddr(seqs)(k, body) == BuildWrite(RTM_DELADDR, 0, seqs(k), body);
    }
  }

  lemma CopyIsBounded(f: AF.Filter, dumps: seq<Dump>, names: AF.Names, made: nat, r: Reply<AddrKey>)
    requires made <= |dumps| && Bounded(dumps, made)
    requires r in Copies(Read(f, dumps, names, made)) && r.Reply?
    ensures HEADER_SIZE + |r.body| < 0x1_0000_0000
  {
    CopiesComeFromDumps(f, dumps, names, made, r);
    var i, raw :| 0 <= i < made && raw in dumps[i] && raw.body == r.body;
  }

  /**
   A finished flush deletes exactly the keys that matched in some dump it made:
   read back message by message, its datagrams are the copied replies whole, as
   RTM_DELADDR (21), flagged NLM_F_REQUEST (1) alone, under the sequence numbers
   in order.
   */
  lemma FlushDeletesExactlyMatching(f: AF.Filter, dumps: seq<Dump>, names: AF.Names, made: nat, seqs: nat -> U32)
    requires made <= |dumps|
    requires Bounded(dumps, made)
    ensures var ds := Read(f, dumps, names, made);
            var out := FB.UnpackAll(Sent(ds, DelAddr(seqs)));
            && out == Deletes(Copies(ds), DelAddr(seqs), 0) && Keys(Copies(ds)) == KeptInAny(ds)
            && forall k :: 0 <= k < |out| ==> IsDelete(out[k], 21, seqs(k), Copies(ds)[k].body)
  {
    var ds := Read(f, dumps, names, made);
    CopiesCoverKeptKeys(ds);
    CopiesAreFramed(f, dumps, names, made, seqs);
    SentUnpacks(ds, DelAddr(seqs));
    var out := Deletes(Copies(ds), DelAddr(seqs), 0);
    BuildsDelAddr(seqs);
    forall k | 0 <= k < |Copies(ds)|
      ensures IsDelete(out[k], 21, seqs(k), Copies(ds)[k].body)
    {
      CopyIsBounded(f, dumps, names, made, Copies(ds)[k]);
      DeletesAre(Copies(ds), DelAddr(seqs), k, out[k], Copies(ds)[k].body);
    }
  }

  /** What names an address in a delete. */
  ghost predicate Names(key: AddrKey, ai: AF.AddrInfo) {
    && key.family == ai.family && key.prefixlen == ai.prefixlen && key.index == ai.index
    && key.local == (if ai.local.Some? then ai.local.value else [])
    && key.address == (if ai.address.Some? then ai.address.value else [])
  }

  ghost predicate Matching(f: AF.Filter, raw: RawReply, names: AF.Names, key: AddrKey) {
    raw.decoded.Some? && AF.AddrFlushed(f, raw.decoded.value, names) && Names(key, raw.decoded.value)
  }

  lemma KeptIffMatching(f: AF.Filter, dump: Dump, names: AF.Names, key: AddrKey)
    ensures key in KeptIn(RepliesOf(f, dump, names)) <==> exists raw :: raw in dump && Matching(f, raw, names, key)
  {
    var rs := RepliesOf(f, dump, names);
    if key in KeptIn(rs) {
      var r :| r in rs && r.Reply? && r.kept && r.key == key;
      var j :| 0 <= j < |rs| && rs[j] == r;
      assert Matching(f, dump[j], names, key) && dump[j] in dump;
    }
    if raw :| raw in dump && Matching(f, raw, names, key) {
      var j :| 0 <= j < |dump| && dump[j] == raw;
      assert rs[j] == ReplyOf(f, raw, names) && rs[j] in rs;
    }
  }

  /** Which keys those are, from the raw replies. */
  lemma {:induction false} DeletedIffMatching(f: AF.Filter, dumps: seq<Dump>, names: AF.Names, made: nat, key: AddrKey)
    requires made <= |dumps|
    ensures key in KeptInAny(Read(f, dumps, names, made))
       <==> exists i, raw :: 0 <= i < made && raw in dumps[i] && Matching(f, raw, names, key)
    decreases made
  {
    if made > 0 {
      DeletedIffMatching(f, dumps, names, made - 1, key);
      KeptIffMatching(f, dumps[made - 1], names, key);
      var ds, front := Read(f, dumps, names, made), Read(f, dumps, names, made - 1);
      assert ds[..made - 1] == front && ds[made - 1] == RepliesOf(f, dumps[made - 1], names);
    }
  }

  lemma {:induction false} CopiesComeFromDumps(f: AF.Filter, dumps: seq<Dump>, names: AF.Names, made: nat, r: Reply<AddrKey>)
    requires made <= |dumps|
    requires r in Copies(Read(f, dumps, names, made)) && r.Reply?
    ensures exists i, raw :: 0 <= i < made && raw in dumps[i] && raw.body == r.body
    decreases made
  {
    if made > 0 {
      var ds, front := Read(f, dumps, names, made), Read(f, dumps, names, made - 1);
      assert ds[..made - 1] == front && Copies(ds) == Copies(front) + RoundCopies(ds, made - 1);
      if r in Copies(front) {
        CopiesComeFromDumps(f, dumps, names, made - 1, r);
      } else {
        FreshMembers(ds[made - 1], KeptInAny(front), r);
        var k :| 0 <= k < |dumps[made - 1]| && ds[made - 1][k] == r;
        assert dumps[made - 1][k] in dumps[made - 1];
      }
    }
  }

  /** Over an unchanging dump a flush with no limit, or a limit of at least two,
      ends complete after at most two dumps. */
  lemma UnchangingDumpSettles<K>(ds: seq<seq<Reply<K>>>, d: seq<Reply<K>>, loops: int, primaryOnly: bool, outcome: Outcome)
    requires Malformed !in d && forall i :: 0 <= i < |ds| ==> ds[i] == d
    requires EndsWith(ds, loops, primaryOnly, outcome)
    ensures |ds| <= 2
    ensures outcome.DumpFailed? ==> |ds| <= 1
    ensures loops == 0 || loops >= 2 ==> outcome.Complete? || outcome.DumpFailed?
  {
    if outcome.Complete? || outcome.BadReply? {
      UnchangingCopiesOnce(ds[..|ds| - 1], d);
    } else {
      UnchangingCopiesOnce(ds, d);
    }
  }
}
