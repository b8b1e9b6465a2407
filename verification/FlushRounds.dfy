/**
 One round of a flush, shared by the address and the neighbor flush
 (internal/goip/addr_flush.go, internal/goip/neigh_flush.go): copy every reply
 of a dump that the selector keeps into a delete message, unless its key was
 copied in an earlier round.

 `Fresh` states what a round copies in closed form, from the dumps alone: the
 replies kept in this dump whose key no earlier dump kept.
 */
module FlushRounds {
  import opened Shared
  import opened Netlink
  import FB = FlushBuf

  /** One reply of a dump: undecodable, or an entry's key, whether the selector
      keeps it, and its body. */
  datatype Reply<+K> = Malformed | Reply(key: K, kept: bool, body: Bytes)

  /** The delete message made from a reply's body; the number counts the
      messages of the whole flush, and decides the sequence number. */
  type Builder = (nat, Bytes) -> Bytes

  function KeptIn<K>(dump: seq<Reply<K>>): set<K> {
    set r | r in dump && r.Reply? && r.kept :: r.key
  }

  function KeptInAny<K>(dumps: seq<seq<Reply<K>>>): set<K> {
    if dumps == [] then {} else KeptInAny(dumps[..|dumps| - 1]) + KeptIn(dumps[|dumps| - 1])
  }

  predicate Copied<K(==)>(r: Reply<K>, copied: set<K>) {
    r.Reply? && r.kept && r.key !in copied
  }

  function FreshUpTo<K(==)>(dump: seq<Reply<K>>, n: nat, copied: set<K>): seq<Reply<K>>
    requires n <= |dump|
  {
    if n == 0 then []
    else
      FreshUpTo(dump, n - 1, copied) + (if Copied(dump[n - 1], copied) then [dump[n - 1]] else [])
  }

  /** The kept replies whose key is not in `copied`, in dump order. */
  function Fresh<K(==)>(dump: seq<Reply<K>>, copied: set<K>): seq<Reply<K>> {
    FreshUpTo(dump, |dump|, copied)
  }

  function Keys<K>(rs: seq<Reply<K>>): set<K> {
    set r | r in rs && r.Reply? :: r.key
  }

  lemma {:induction false} FreshUpToMembers<K>(dump: seq<Reply<K>>, n: nat, copied: set<K>, r: Reply<K>)
    requires n <= |dump|
    ensures r in FreshUpTo(dump, n, copied) <==> r in dump[..n] && Copied(r, copied)
    decreases n
  {
    if n > 0 {
      FreshUpToMembers(dump, n - 1, copied, r);
      assert dump[..n] == dump[..n - 1] + [dump[n - 1]];
    }
  }

  lemma FreshMembers<K>(dump: seq<Reply<K>>, copied: set<K>, r: Reply<K>)
    ensures r in Fresh(dump, copied) <==> r in dump && Copied(r, copied)
  {
    FreshUpToMembers(dump, |dump|, copied, r);
    assert dump[..|dump|] == dump;
  }

  lemma FreshKeys<K>(dump: seq<Reply<K>>, copied: set<K>)
    ensures Keys(Fresh(dump, copied)) == KeptIn(dump) - copied
  {
    var a, b := Keys(Fresh(dump, copied)), KeptIn(dump) - copied;
    forall k | k in a ensures k in b {
      var r :| r in Fresh(dump, copied) && r.Reply? && r.key == k;
      FreshMembers(dump, copied, r);
    }
    forall k | k in b ensures k in a {
      var r :| r in dump && r.Reply? && r.kept && r.key == k;
      FreshMembers(dump, copied, r);
    }
    assert a == b;
  }

  function Body<K>(r: Reply<K>): Bytes {
    if r.Reply? then r.body else []
  }

  /** The delete messages of copied replies, `sent` of them before. */
  function Deletes<K>(rs: seq<Reply<K>>, build: Builder, sent: nat): (ms: seq<Bytes>)
    ensures |ms| == |rs|
  {
    if rs == [] then []
    else Deletes(rs[..|rs| - 1], build, sent) + [build(sent + |rs| - 1, Body(rs[|rs| - 1]))]
  }

  lemma {:induction false} DeletesAppend<K>(a: seq<Reply<K>>, b: seq<Reply<K>>, all: seq<Reply<K>>, build: Builder,
                                            sent: nat, next: nat)
    requires all == a + b && next == sent + |a|
    ensures Deletes(all, build, sent) == Deletes(a, build, sent) + Deletes(b, build, next)
    decreases |b|
  {
    if b == [] {
      assert all == a;
    } else {
      var front, last := b[..|b| - 1], b[|b| - 1];
      var before := a + front;
      assert all == before + [last] && b == front + [last];
      DeletesAppend(a, front, before, build, sent, next);
      DeletesSnoc(before, last, build, sent);
      DeletesSnoc(front, last, build, next);
      JoinAssociates(Deletes(a, build, sent), Deletes(front, build, next), [build(next + |front|, Body(last))]);
    }
  }

  /** A round after `i` replies: how many it copied, their keys and their deletes. */
  ghost predicate InRound<K>(dump: seq<Reply<K>>, i: nat, copied: set<K>, build: Builder, sent: nat,
                             flushed: nat, seen: set<K>, added: seq<Bytes>)
    requires i <= |dump|
  {
    var done := FreshUpTo(dump, i, copied);
    flushed == |done| && seen == Keys(done) && added == Deletes(done, build, sent)
  }

  lemma CopyStep<K>(dump: seq<Reply<K>>, i: nat, copied: set<K>, build: Builder, sent: nat,
                    flushed: nat, seen: set<K>, added: seq<Bytes>)
    requires i < |dump| && Copied(dump[i], copied) && InRound(dump, i, copied, build, sent, flushed, seen, added)
    ensures InRound(dump, i + 1, copied, build, sent, flushed + 1, seen + {dump[i].key},
                    added + [build(sent + flushed, dump[i].body)])
  {
    KeysSnoc(FreshUpTo(dump, i, copied), dump[i]);
    DeletesSnoc(FreshUpTo(dump, i, copied), dump[i], build, sent);
  }

  lemma SkipStep<K>(dump: seq<Reply<K>>, i: nat, copied: set<K>, build: Builder, sent: nat,
                    flushed: nat, seen: set<K>, added: seq<Bytes>)
    requires i < |dump| && !Copied(dump[i], copied) && InRound(dump, i, copied, build, sent, flushed, seen, added)
    ensures InRound(dump, i + 1, copied, build, sent, flushed, seen, added)
  {
    assert FreshUpTo(dump, i + 1, copied) == FreshUpTo(dump, i, copied);
  }

  lemma RoundIsDone<K>(dump: seq<Reply<K>>, copied: set<K>, build: Builder, sent: nat,
                       flushed: nat, seen: set<K>, added: seq<Bytes>)
    requires InRound(dump, |dump|, copied, build, sent, flushed, seen, added)
    ensures flushed == |Fresh(dump, copied)| && added == Deletes(Fresh(dump, copied), build, sent)
    ensures copied + seen == copied + KeptIn(dump)
  {
    FreshKeys(dump, copied);
  }

  lemma DeletesSnoc<K>(rs: seq<Reply<K>>, r: Reply<K>, build: Builder, sent: nat)
    ensures Deletes(rs + [r], build, sent) == Deletes(rs, build, sent) + [build(sent + |rs|, Body(r))]
  {
    assert (rs + [r])[..|rs|] == rs;
  }

  lemma KeysSnoc<K>(rs: seq<Reply<K>>, r: Reply<K>)
    requires r.Reply?
    ensures Keys(rs + [r]) == Keys(rs) + {r.key}
  {
  }

  /**
   flushRound and neighFlushRound. A reply that does not decode ends the round
   with an error; otherwise the buffer gains the fresh replies' deletes and
   `copied` every key they carry.
   */
  method FlushRound<K(==)>(dump: seq<Reply<K>>, copied: set<K>, buf: FB.FlushBuf, build: Builder,
                           sent: nat)
    returns (ok: bool, flushed: nat, copied': set<K>)
    requires buf.Valid() && buf.added == []
    modifies buf
    ensures ok <==> Malformed !in dump
    ensures ok ==> flushed == |Fresh(dump, copied)|
    ensures ok ==> copied' == copied + KeptIn(dump)
    ensures ok ==> buf.Valid() && buf.sent == old(buf.sent)
    ensures ok ==> buf.added == Deletes(Fresh(dump, copied), build, sent)
  {
    var seen: set<K> := {};
    flushed := 0;
    copied' := copied;
    var i := 0;
    while i < |dump|
      invariant 0 <= i <= |dump|
      invariant forall j :: 0 <= j < i ==> dump[j].Reply?
      invariant InRound(dump, i, copied, build, sent, flushed, seen, buf.added)
      invariant buf.Valid() && buf.sent == old(buf.sent)
    {
      var r := dump[i];
      if r.Malformed? {
        return false, 0, copied;
      }
      if r.key in copied || !r.kept {
        SkipStep(dump, i, copied, build, sent, flushed, seen, buf.added);
      } else {
        CopyStep(dump, i, copied, build, sent, flushed, seen, buf.added);
        var msg := build(sent + flushed, r.body);
        buf.Add(msg);
        seen := seen + {r.key};
        flushed := flushed + 1;
      }
      i := i + 1;
    }
    RoundIsDone(dump, copied, build, sent, flushed, seen, buf.added);
    copied' := copied + seen;
    ok := true;
  }

  // -------------------------------------------------------------- several rounds

  lemma FreshAreReplies<K>(dump: seq<Reply<K>>, copied: set<K>)
    ensures forall r :: r in Fresh(dump, copied) ==> r.Reply? && r.kept
  {
    forall r | r in Fresh(dump, copied) ensures r.Reply? && r.kept {
      FreshMembers(dump, copied, r);
    }
  }

  /** The copies of round `i`, from the dumps alone. */
  function RoundCopies<K(==)>(dumps: seq<seq<Reply<K>>>, i: nat): (rs: seq<Reply<K>>)
    requires i < |dumps|
    ensures forall r :: r in rs ==> r.Reply?
  {
    assert forall r :: r in Fresh(dumps[i], KeptInAny(dumps[..i])) ==> r.Reply? by {
      FreshAreReplies(dumps[i], KeptInAny(dumps[..i]));
    }
    Fresh(dumps[i], KeptInAny(dumps[..i]))
  }

  /** Every round's copies, one after another. */
  function Copies<K(==)>(dumps: seq<seq<Reply<K>>>): (rs: seq<Reply<K>>)
    ensures forall r :: r in rs ==> r.Reply?
  {
    if dumps == [] then []
    else Copies(dumps[..|dumps| - 1]) + RoundCopies(dumps, |dumps| - 1)
  }

  /** The datagrams of every round, each round packed by itself. */
  function Sent<K(==)>(dumps: seq<seq<Reply<K>>>, build: Builder): seq<Bytes> {
    if dumps == [] then []
    else
      var front := dumps[..|dumps| - 1];
      Sent(front, build)
        + FB.Datagrams(Deletes(RoundCopies(dumps, |front|), build, |Copies(front)|))
  }

  lemma SentSnoc<K>(dumps: seq<seq<Reply<K>>>, dump: seq<Reply<K>>, build: Builder)
    ensures RoundCopies(dumps + [dump], |dumps|) == Fresh(dump, KeptInAny(dumps))
    ensures Copies(dumps + [dump]) == Copies(dumps) + Fresh(dump, KeptInAny(dumps))
    ensures Sent(dumps + [dump], build)
         == Sent(dumps, build)
          + FB.Datagrams(Deletes(Fresh(dump, KeptInAny(dumps)), build, |Copies(dumps)|))
  {
    assert (dumps + [dump])[..|dumps|] == dumps;
  }

  /** Where a flush stands after the rounds over `ds`. */
  ghost predicate Stands<K>(ds: seq<seq<Reply<K>>>, copied: set<K>, sent: nat, buf: FB.FlushBuf, build: Builder)
    reads buf
  {
    && copied == KeptInAny(ds)
    && sent == |Copies(ds)|
    && buf.Valid() && buf.added == []
    && buf.sent == buf.datagrams == Sent(ds, build)
  }

  /** One round of the loop: the copies, and the datagrams they go out in. */
  method NextRound<K(==)>(dump: seq<Reply<K>>, copied: set<K>, buf: FB.FlushBuf, build: Builder, sent: nat,
                          ghost ds: seq<seq<Reply<K>>>)
    returns (ok: bool, flushed: nat, copied': set<K>)
    requires Stands(ds, copied, sent, buf, build)
    modifies buf
    ensures ok <==> Malformed !in dump
    ensures ok ==> flushed == |RoundCopies(ds + [dump], |ds|)|
    ensures ok ==> Stands(ds + [dump], copied', sent + flushed, buf, build)
  {
    ok, flushed, copied' := FlushRound(dump, copied, buf, build, sent);
    SentSnoc(ds, dump, build);
    if ok {
      if flushed == 0 {
      } else {
        buf.End();
      }
    }
  }

  /** Every round copied something. */
  ghost predicate AllCopied<K>(ds: seq<seq<Reply<K>>>) {
    forall i :: 0 <= i < |ds| ==> Malformed !in ds[i] && RoundCopies(ds, i) != []
  }

  lemma RoundCopiesPrefix<K>(ds: seq<seq<Reply<K>>>, d: seq<Reply<K>>, i: nat)
    requires i < |ds|
    ensures RoundCopies(ds + [d], i) == RoundCopies(ds, i)
  {
    assert (ds + [d])[..i] == ds[..i];
  }

  lemma AllCopiedSnoc<K>(ds: seq<seq<Reply<K>>>, d: seq<Reply<K>>)
    requires AllCopied(ds) && Malformed !in d && RoundCopies(ds + [d], |ds|) != []
    ensures AllCopied(ds + [d])
  {
    forall i | 0 <= i < |ds + [d]| ensures Malformed !in (ds + [d])[i] && RoundCopies(ds + [d], i) != [] {
      if i < |ds| {
        RoundCopiesPrefix(ds, d, i);
      }
    }
  }

  lemma Subset<K>(a: set<K>, b: set<K>)
    requires a <= b
    ensures |a| <= |b|
  {
    var rest := b - a;
    assert b == a + rest;
  }

  lemma UnionGrows<K>(a: set<K>, b: set<K>)
    requires b - a != {}
    ensures |a| < |a + b|
  {
    var rest := b - a;
    assert a + b == a + rest;
  }

  /** A round that copies something adds a key. */
  lemma CopyGrows<K>(ds: seq<seq<Reply<K>>>, d: seq<Reply<K>>)
    requires Fresh(d, KeptInAny(ds)) != []
    ensures KeptInAny(ds + [d]) == KeptInAny(ds) + KeptIn(d)
    ensures |KeptInAny(ds)| < |KeptInAny(ds + [d])|
  {
    FreshAreReplies(d, KeptInAny(ds));
    KeylessIsEmpty(Fresh(d, KeptInAny(ds)));
    FreshKeys(d, KeptInAny(ds));
    UnionGrows(KeptInAny(ds), KeptIn(d));
  }

  /** So rounds that all copy are no more than the keys they copy. */
  lemma {:induction false} RoundsWithinKeys<K>(ds: seq<seq<Reply<K>>>)
    requires AllCopied(ds)
    ensures |ds| <= |KeptInAny(ds)|
    decreases |ds|
  {
    if ds != [] {
      var front, last := ds[..|ds| - 1], ds[|ds| - 1];
      AllCopiedPrefix(ds, |front|);
      RoundsWithinKeys(front);
      LastCopies(ds, front, last);
      CopyGrows(front, last);
    }
  }

  lemma LastCopies<K>(ds: seq<seq<Reply<K>>>, front: seq<seq<Reply<K>>>, last: seq<Reply<K>>)
    requires AllCopied(ds) && ds != [] && front == ds[..|ds| - 1] && last == ds[|ds| - 1]
    ensures ds == front + [last] && Fresh(last, KeptInAny(front)) != []
  {
    assert RoundCopies(ds, |front|) != [];
  }

  lemma AllCopiedPrefix<K>(ds: seq<seq<Reply<K>>>, n: nat)
    requires AllCopied(ds) && n <= |ds|
    ensures AllCopied(ds[..n])
  {
    forall i | 0 <= i < n ensures Malformed !in ds[..n][i] && RoundCopies(ds[..n], i) != [] {
      assert ds[..n][..i] == ds[..i];
      assert Malformed !in ds[i] && RoundCopies(ds, i) != [];
    }
  }

  /** A flush copies exactly the keys some dump kept. */
  lemma {:induction false} CopiesCoverKeptKeys<K>(dumps: seq<seq<Reply<K>>>)
    ensures Keys(Copies(dumps)) == KeptInAny(dumps)
    decreases |dumps|
  {
    if dumps != [] {
      var front := dumps[..|dumps| - 1];
      CopiesCoverKeptKeys(front);
      FreshKeys(dumps[|front|], KeptInAny(front));
      assert Keys(Copies(dumps)) == Keys(Copies(front)) + Keys(RoundCopies(dumps, |front|));
    }
  }

  lemma {:induction false} KeptInAnyGrows<K>(dumps: seq<seq<Reply<K>>>, i: nat, j: nat)
    requires i <= j <= |dumps|
    ensures KeptInAny(dumps[..i]) <= KeptInAny(dumps[..j])
    decreases j
  {
    if i < j {
      KeptInAnyGrows(dumps, i, j - 1);
      assert dumps[..j][..j - 1] == dumps[..j - 1];
    }
  }

  /** No key is copied in two rounds. */
  lemma RoundsAreDisjoint<K>(dumps: seq<seq<Reply<K>>>, i: nat, j: nat)
    requires i < j < |dumps|
    ensures Keys(RoundCopies(dumps, i)) !! Keys(RoundCopies(dumps, j))
  {
    FreshKeys(dumps[i], KeptInAny(dumps[..i]));
    FreshKeys(dumps[j], KeptInAny(dumps[..j]));
    KeptInAnyGrows(dumps, i + 1, j);
    assert dumps[..i + 1][..i] == dumps[..i];
  }

  lemma KeylessIsEmpty<K>(rs: seq<Reply<K>>)
    requires forall r :: r in rs ==> r.Reply?
    ensures Keys(rs) == {} <==> rs == []
  {
    if rs != [] {
      assert rs[0].key in Keys(rs);
    }
  }

  /** How often the first `n` replies list a key as kept. */
  function TimesUpTo<K(==)>(rs: seq<Reply<K>>, n: nat, key: K): nat
    requires n <= |rs|
  {
    if n == 0 then 0
    else
      var r := rs[n - 1];
      TimesUpTo(rs, n - 1, key) + (if r.Reply? && r.kept && r.key == key then 1 else 0)
  }

  function Times<K(==)>(rs: seq<Reply<K>>, key: K): nat {
    TimesUpTo(rs, |rs|, key)
  }

  lemma {:induction false} TimesPrefix<K>(rs: seq<Reply<K>>, more: seq<Reply<K>>, n: nat, key: K)
    requires n <= |rs|
    ensures TimesUpTo(rs + more, n, key) == TimesUpTo(rs, n, key)
    decreases n
  {
    if n > 0 {
      TimesPrefix(rs, more, n - 1, key);
    }
  }

  lemma {:induction false} TimesAppend<K>(a: seq<Reply<K>>, b: seq<Reply<K>>, n: nat, key: K)
    requires n <= |b|
    ensures TimesUpTo(a + b, |a| + n, key) == Times(a, key) + TimesUpTo(b, n, key)
    decreases n
  {
    if n == 0 {
      TimesPrefix(a, b, |a|, key);
    } else {
      TimesAppend(a, b, n - 1, key);
    }
  }

  lemma TimesJoin<K>(a: seq<Reply<K>>, b: seq<Reply<K>>, all: seq<Reply<K>>, key: K)
    requires all == a + b
    ensures Times(all, key) == Times(a, key) + Times(b, key)
  {
    TimesAppend(a, b, |b|, key);
  }

  lemma {:induction false} FreshTimes<K>(dump: seq<Reply<K>>, n: nat, copied: set<K>, key: K)
    requires n <= |dump|
    ensures Times(FreshUpTo(dump, n, copied), key) == if key in copied then 0 else TimesUpTo(dump, n, key)
    decreases n
  {
    if n > 0 {
      FreshTimes(dump, n - 1, copied, key);
      var before, r := FreshUpTo(dump, n - 1, copied), dump[n - 1];
      if Copied(r, copied) {
        TimesJoin(before, [r], FreshUpTo(dump, n, copied), key);
        assert TimesUpTo([r], 0, key) == 0;
      } else {
        assert FreshUpTo(dump, n, copied) == before;
      }
    }
  }

  lemma {:induction false} KeptIsListed<K>(dump: seq<Reply<K>>, n: nat, key: K)
    requires n <= |dump|
    ensures TimesUpTo(dump, n, key) > 0 <==> key in KeptIn(dump[..n])
    decreases n
  {
    if n > 0 {
      KeptIsListed(dump, n - 1, key);
      assert dump[..n] == dump[..n - 1] + [dump[n - 1]];
      assert KeptIn(dump[..n]) == KeptIn(dump[..n - 1]) + KeptIn([dump[n - 1]]);
    }
  }

  lemma TimesOfRound<K>(front: seq<seq<Reply<K>>>, last: seq<Reply<K>>, key: K)
    ensures Times(Copies(front + [last]), key)
         == Times(Copies(front), key) + if key in KeptInAny(front) then 0 else Times(last, key)
  {
    TimesJoin(Copies(front), Fresh(last, KeptInAny(front)), Copies(front + [last]), key);
    FreshTimes(last, |last|, KeptInAny(front), key);
  }

  /** A key no dump keeps is not deleted. */
  lemma {:induction false} NeverKeptNeverCopied<K>(dumps: seq<seq<Reply<K>>>, key: K)
    requires key !in KeptInAny(dumps)
    ensures Times(Copies(dumps), key) == 0
    decreases |dumps|
  {
    if dumps != [] {
      var front, last := dumps[..|dumps| - 1], dumps[|dumps| - 1];
      assert dumps == front + [last] && last[..|last|] == last;
      NeverKeptNeverCopied(front, key);
      TimesOfRound(front, last, key);
      KeptIsListed(last, |last|, key);
    }
  }

  /** A key is deleted as often as the first dump that keeps it lists it, whatever
      later dumps do: rounds are told apart by key, replies of one round are not. */
  lemma {:induction false} CopiedAsFirstListed<K>(dumps: seq<seq<Reply<K>>>, i: nat, key: K)
    requires i < |dumps| && key in KeptIn(dumps[i]) && key !in KeptInAny(dumps[..i])
    ensures Times(Copies(dumps), key) == Times(dumps[i], key) > 0
    decreases |dumps|
  {
    var front, last := dumps[..|dumps| - 1], dumps[|dumps| - 1];
    assert dumps == front + [last];
    TimesOfRound(front, last, key);
    if i == |front| {
      NeverKeptNeverCopied(front, key);
      assert last[..|last|] == last;
      KeptIsListed(last, |last|, key);
    } else {
      assert front[..i] == dumps[..i];
      CopiedAsFirstListed(front, i, key);
      assert front[..i + 1][..i] == front[..i] && front[..|front|] == front;
      KeptInAnyGrows(front, i + 1, |front|);
    }
  }

  /** A key that one dump lists twice is deleted twice. */
  lemma ListedTwiceIsDeletedTwice<K>(r: Reply<K>, build: Builder)
    requires r.Reply? && r.kept
    ensures Times(Copies([[r, r]]), r.key) == 2
    ensures Deletes(Copies([[r, r]]), build, 0) == [build(0, r.body), build(1, r.body)]
  {
    var dump := [r, r];
    assert [dump][..0] == [];
    assert FreshUpTo(dump, 1, {}) == [r] && Fresh(dump, {}) == [r, r];
    assert Copies([dump]) == [r, r];
    assert TimesUpTo([r, r], 1, r.key) == 1;
    assert Deletes([r, r][..1], build, 0) == [build(0, r.body)];
  }

  /** A dump that repeats an earlier one copies nothing. */
  lemma RepeatedDumpIsIdle<K>(dumps: seq<seq<Reply<K>>>, i: nat, j: nat)
    requires i < j < |dumps| && dumps[i] == dumps[j]
    ensures RoundCopies(dumps, j) == []
  {
    KeptInAnyGrows(dumps, i + 1, j);
    assert dumps[..i + 1][..i] == dumps[..i];
    var rs := RoundCopies(dumps, j);
    FreshKeys(dumps[j], KeptInAny(dumps[..j]));
    assert Keys(rs) == {};
    KeylessIsEmpty(rs);
  }

  /** A dump that never changes is copied from only once. */
  lemma UnchangingCopiesOnce<K>(ds: seq<seq<Reply<K>>>, d: seq<Reply<K>>)
    requires AllCopied(ds) && forall i :: 0 <= i < |ds| ==> ds[i] == d
    ensures |ds| <= 1
  {
    if |ds| >= 2 {
      RepeatedDumpIsIdle(ds, 0, 1);
    }
  }

  /** Every copy becomes a message whose header states its own length. */
  ghost predicate BuildsFramed<K(!new)>(rs: seq<Reply<K>>, build: Builder) {
    forall r, k: nat :: r in rs && r.Reply? ==> Framed(build(k, r.body))
  }

  lemma {:induction false} DeletesAreFramed<K(!new)>(rs: seq<Reply<K>>, build: Builder, sent: nat)
    requires BuildsFramed(rs, build) && forall r :: r in rs ==> r.Reply?
    ensures FB.AllFramed(Deletes(rs, build, sent))
    decreases |rs|
  {
    if rs != [] {
      DeletesAreFramed(rs[..|rs| - 1], build, sent);
      assert rs[|rs| - 1] in rs;
    }
  }

  /** The last round of what was sent and copied. */
  lemma LastRound<K>(dumps: seq<seq<Reply<K>>>, front: seq<seq<Reply<K>>>, last: seq<Reply<K>>, build: Builder)
    requires dumps != [] && front == dumps[..|dumps| - 1] && last == RoundCopies(dumps, |dumps| - 1)
    ensures Copies(dumps) == Copies(front) + last
    ensures Sent(dumps, build) == Sent(front, build) + FB.Datagrams(Deletes(last, build, |Copies(front)|))
  {
  }

  lemma PartsAreFramed<K(!new)>(a: seq<Reply<K>>, b: seq<Reply<K>>, all: seq<Reply<K>>, build: Builder)
    requires all == a + b && BuildsFramed(all, build)
    ensures BuildsFramed(a, build) && BuildsFramed(b, build)
  {
    forall r, k: nat | (r in a || r in b) && r.Reply? ensures Framed(build(k, r.body)) {
      assert r in all;
    }
  }

  lemma RoundRestores<K(!new)>(last: seq<Reply<K>>, build: Builder, sent: nat, msgs: seq<Bytes>)
    requires BuildsFramed(last, build) && (forall r :: r in last ==> r.Reply?) && msgs == Deletes(last, build, sent)
    ensures FB.UnpackAll(FB.Datagrams(msgs)) == msgs
  {
    DeletesAreFramed(last, build, sent);
    FB.UnpackRestoresMessages(msgs);
  }

  /** Where unpacking stands after some dumps. */
  ghost predicate Unpacks<K>(dumps: seq<seq<Reply<K>>>, build: Builder) {
    FB.UnpackAll(Sent(dumps, build)) == Deletes(Copies(dumps), build, 0)
  }

  lemma UnpacksOn<K(!new)>(dumps: seq<seq<Reply<K>>>, front: seq<seq<Reply<K>>>, last: seq<Reply<K>>, build: Builder)
    requires dumps != [] && front == dumps[..|dumps| - 1] && last == RoundCopies(dumps, |dumps| - 1)
    requires BuildsFramed(last, build) && Unpacks(front, build)
    ensures Unpacks(dumps, build)
  {
    var msgs := Deletes(last, build, |Copies(front)|);
    LastRound(dumps, front, last, build);
    RoundRestores(last, build, |Copies(front)|, msgs);
    DeletesAppend(Copies(front), last, Copies(dumps), build, 0, |Copies(front)|);
    RoundUnpacks(Sent(front, build), FB.Datagrams(msgs), Sent(dumps, build), Deletes(Copies(front), build, 0), msgs,
                 Deletes(Copies(dumps), build, 0));
  }

  /** Unpacking what was sent gives one delete per copy, in order. */
  lemma {:induction false} SentUnpacks<K(!new)>(dumps: seq<seq<Reply<K>>>, build: Builder)
    requires BuildsFramed(Copies(dumps), build)
    ensures FB.UnpackAll(Sent(dumps, build)) == Deletes(Copies(dumps), build, 0)
    decreases |dumps|
  {
    if dumps != [] {
      var front, last := dumps[..|dumps| - 1], RoundCopies(dumps, |dumps| - 1);
      LastRound(dumps, front, last, build);
      PartsAreFramed(Copies(front), last, Copies(dumps), build);
      SentUnpacks(front, build);
      UnpacksOn(dumps, front, last, build);
    }
  }

  lemma {:induction false} DeletesAt<K>(rs: seq<Reply<K>>, build: Builder, sent: nat, k: nat)
    requires k < |rs|
    ensures Deletes(rs, build, sent)[k] == build(sent + k, Body(rs[k]))
    decreases |rs|
  {
    if k < |rs| - 1 {
      DeletesAt(rs[..|rs| - 1], build, sent, k);
    }
  }

  /** A message of that type, flagged NLM_F_REQUEST (1) alone, with that body. */
  ghost predicate IsDelete(m: Bytes, typ: U16, seqno: U32, body: Bytes) {
    && |m| == HEADER_SIZE + |body| < 0x1_0000_0000
    && DecodeHeader(m) == Header(|m|, typ, 1, seqno, 0)
    && m[HEADER_SIZE..] == body
  }

  ghost predicate BuildsDeletes(build: Builder, typ: U16, seqs: nat -> U32) {
    forall k: nat, body :: HEADER_SIZE + |body| < 0x1_0000_0000 ==> IsDelete(build(k, body), typ, seqs(k), body)
  }

  /** Each of the deletes is the delete of its copy. */
  lemma {:induction false} DeletesAre<K>(rs: seq<Reply<K>>, build: Builder, k: nat, m: Bytes, body: Bytes)
    requires k < |rs| && m == Deletes(rs, build, 0)[k] && body == Body(rs[k])
    ensures m == build(k, body)
  {
    DeletesAt(rs, build, 0, k);
  }

  lemma RoundUnpacks(sent: seq<Bytes>, ds: seq<Bytes>, whole: seq<Bytes>, done: seq<Bytes>, msgs: seq<Bytes>,
                     all: seq<Bytes>)
    requires whole == sent + ds && all == done + msgs
    requires FB.UnpackAll(sent) == done && FB.UnpackAll(ds) == msgs
    ensures FB.UnpackAll(whole) == all
  {
    UnpackAllAppend(sent, ds);
  }

  lemma UnpackAllSnoc(ds: seq<Bytes>, d: Bytes)
    ensures FB.UnpackAll(ds + [d]) == FB.UnpackAll(ds) + FB.Unpack(d)
  {
    assert (ds + [d])[..|ds|] == ds;
  }

  /** A function that adds a part for each element distributes over append. */
  lemma {:induction false} PartsAppend(all: seq<Bytes> -> seq<Bytes>, one: Bytes -> seq<Bytes>, a: seq<Bytes>, b: seq<Bytes>)
    requires all([]) == [] && forall ds, d :: all(ds + [d]) == all(ds) + one(d)
    ensures all(a + b) == all(a) + all(b)
    decreases |b|
  {
    if b == [] {
      assert a + b == a;
    } else {
      var front, last := b[..|b| - 1], b[|b| - 1];
      PartsAppend(all, one, a, front);
      assert b == front + [last];
      JoinAssociates(a, front, [last]);
      assert all((a + front) + [last]) == all(a + front) + one(last);
      JoinAssociates(all(a), all(front), one(last));
    }
  }

  lemma UnpackAllAppend(a: seq<Bytes>, b: seq<Bytes>)
    ensures FB.UnpackAll(a + b) == FB.UnpackAll(a) + FB.UnpackAll(b)
  {
    forall ds, d ensures FB.UnpackAll(ds + [d]) == FB.UnpackAll(ds) + FB.Unpack(d) {
      UnpackAllSnoc(ds, d);
    }
    PartsAppend(ds => FB.UnpackAll(ds), d => FB.Unpack(d), a, b);
  }
}
