/**
 The packer behind every flush (internal/goip/addr_flush.go): delete messages
 go out in datagrams of at most 3584 bytes, each message at a four-byte
 boundary, and a message that would overflow the buffer sends it first.

 `Greedy` follows the same messages by group instead of by byte. Through it the
 buffer is shown to lose nothing, to keep order and alignment, to respect the
 limit, and to use the fewest datagrams any in-order packing could.
 */
module FlushBuf {
  import opened Netlink

  const LIMIT: nat := 4096 - 512

  datatype Buffer = Buffer(cur: Bytes, datagrams: seq<Bytes>)

  const EMPTY := Buffer([], [])

  function Ended(b: Buffer): Buffer {
    if |b.cur| > 0 then Buffer([], b.datagrams + [b.cur]) else b
  }

  function Added(b: Buffer, msg: Bytes): Buffer {
    var room := if |b.cur| > 0 && Align(|b.cur|) + |msg| > LIMIT then Ended(b) else b;
    Buffer(Pad(room.cur) + msg, room.datagrams)
  }

  function AddedAll(b: Buffer, msgs: seq<Bytes>): Buffer {
    if msgs == [] then b
    else Added(AddedAll(b, msgs[..|msgs| - 1]), msgs[|msgs| - 1])
  }

  /** What a sequence of messages goes out as. */
  function Datagrams(msgs: seq<Bytes>): seq<Bytes> {
    Ended(AddedAll(EMPTY, msgs)).datagrams
  }

  lemma AddedAllSnoc(b: Buffer, msgs: seq<Bytes>, msg: Bytes)
    ensures AddedAll(b, msgs + [msg]) == Added(AddedAll(b, msgs), msg)
  {
    assert (msgs + [msg])[..|msgs|] == msgs;
  }

  /** Datagrams already sent stay in front and change nothing else. */
  lemma {:induction false} AddedAfterSent(sent: seq<Bytes>, msgs: seq<Bytes>)
    ensures AddedAll(Buffer([], sent), msgs)
         == Buffer(AddedAll(EMPTY, msgs).cur, sent + AddedAll(EMPTY, msgs).datagrams)
    ensures Ended(AddedAll(Buffer([], sent), msgs)) == Buffer([], sent + Datagrams(msgs))
    decreases |msgs|
  {
    if msgs != [] {
      AddedAfterSent(sent, msgs[..|msgs| - 1]);
    }
  }

  /** flushBuf: the open buffer and the datagrams already closed. */
  class FlushBuf {
    var cur: Bytes
    var datagrams: seq<Bytes>
    /** The datagrams as of the last `End`, and the messages added since. */
    ghost var sent: seq<Bytes>
    ghost var added: seq<Bytes>

    ghost predicate Valid()
      reads this
    {
      Buffer(cur, datagrams) == AddedAll(Buffer([], sent), added)
    }

    constructor ()
      ensures Valid() && sent == [] && added == [] && datagrams == []
    {
      cur, datagrams, sent, added := [], [], [], [];
    }

    method Add(msg: Bytes)
      requires Valid()
      modifies this
      ensures Valid() && sent == old(sent) && added == old(added) + [msg]
    {
      AddedAllSnoc(Buffer([], sent), added, msg);
      added := added + [msg];
      if |cur| > 0 && Align(|cur|) + |msg| > LIMIT {
        Close();
      }
      var pad := Align(|cur|) - |cur|;
      if pad > 0 {
        cur := cur + Zeros(pad);
      }
      cur := cur + msg;
    }

    method End()
      requires Valid()
      modifies this
      ensures Valid() && added == [] && cur == []
      ensures sent == datagrams == old(sent) + Datagrams(old(added))
    {
      AddedAfterSent(sent, added);
      Close();
      sent, added := datagrams, [];
    }

    /** Close the open datagram, unless it is empty. */
    method Close()
      modifies this`cur, this`datagrams
      ensures Buffer(cur, datagrams) == Ended(Buffer(old(cur), old(datagrams)))
    {
      if |cur| > 0 {
        datagrams := datagrams + [cur];
        cur := [];
      }
    }
  }

  // ------------------------------------------------------------- groups of messages

  /** The bytes of messages laid one after another at aligned offsets. */
  function Layout(msgs: seq<Bytes>): Bytes {
    if msgs == [] then [] else Pad(Layout(msgs[..|msgs| - 1])) + msgs[|msgs| - 1]
  }

  function Flatten<T>(groups: seq<seq<T>>): seq<T> {
    if groups == [] then [] else Flatten(groups[..|groups| - 1]) + groups[|groups| - 1]
  }

  function Layouts(groups: seq<seq<Bytes>>): (ds: seq<Bytes>)
    ensures |ds| == |groups|
  {
    seq(|groups|, i requires 0 <= i < |groups| => Layout(groups[i]))
  }

  /** Messages by group: those of closed datagrams and those of the open one. */
  datatype Packing = Packing(groups: seq<seq<Bytes>>, open: seq<Bytes>) {
    function Count(): nat {
      |groups| + (if open == [] then 0 else 1)
    }

    function Closed(): seq<seq<Bytes>> {
      if open == [] then groups else groups + [open]
    }
  }

  function Put(p: Packing, msg: Bytes): Packing {
    if p.open != [] && Align(|Layout(p.open)|) + |msg| > LIMIT then
      Packing(p.groups + [p.open], [msg])
    else
      Packing(p.groups, p.open + [msg])
  }

  function Greedy(msgs: seq<Bytes>): Packing {
    if msgs == [] then Packing([], [])
    else Put(Greedy(msgs[..|msgs| - 1]), msgs[|msgs| - 1])
  }

  ghost predicate NonEmpty(msgs: seq<Bytes>) {
    forall i :: 0 <= i < |msgs| ==> |msgs[i]| > 0
  }

  lemma LayoutSnoc(msgs: seq<Bytes>, msg: Bytes)
    ensures Layout(msgs + [msg]) == Pad(Layout(msgs)) + msg
    ensures |Layout(msgs + [msg])| == Align(|Layout(msgs)|) + |msg|
  {
    assert (msgs + [msg])[..|msgs|] == msgs;
  }

  lemma LayoutOne(msg: Bytes)
    ensures Layout([msg]) == msg
  {
    LayoutSnoc([], msg);
    assert [] + [msg] == [msg];
    assert Pad([]) == [];
  }

  lemma FlattenSnoc<T>(groups: seq<seq<T>>, group: seq<T>)
    ensures Flatten(groups + [group]) == Flatten(groups) + group
  {
    assert (groups + [group])[..|groups|] == groups;
  }

  /** A group fits a datagram, or is one message that fits none. */
  ghost predicate Fits(group: seq<Bytes>) {
    group != [] && (|Layout(group)| <= LIMIT || |group| == 1)
  }

  /** The buffer holds the layout of the groups. */
  ghost predicate Represents(b: Buffer, p: Packing) {
    && b.cur == Layout(p.open)
    && b.datagrams == Layouts(p.groups)
    && (b.cur == [] <==> p.open == [])
  }

  lemma PutRepresents(b: Buffer, p: Packing, msg: Bytes)
    requires Represents(b, p) && |msg| > 0
    ensures Represents(Added(b, msg), Put(p, msg))
  {
    LayoutOne(msg);
    LayoutSnoc(p.open, msg);
    assert Layouts(p.groups + [p.open]) == Layouts(p.groups) + [Layout(p.open)];
    assert Pad([]) == [];
  }

  lemma {:induction false} GreedyRepresents(msgs: seq<Bytes>)
    requires NonEmpty(msgs)
    ensures Represents(AddedAll(EMPTY, msgs), Greedy(msgs))
    decreases |msgs|
  {
    if msgs != [] {
      GreedyRepresents(msgs[..|msgs| - 1]);
      PutRepresents(AddedAll(EMPTY, msgs[..|msgs| - 1]), Greedy(msgs[..|msgs| - 1]), msgs[|msgs| - 1]);
    }
  }

  ghost predicate AllFit(groups: seq<seq<Bytes>>) {
    forall i :: 0 <= i < |groups| ==> Fits(groups[i])
  }

  function Messages(p: Packing): seq<Bytes> {
    Flatten(p.groups) + p.open
  }

  ghost predicate WellPacked(p: Packing) {
    AllFit(p.groups) && (p.open != [] ==> Fits(p.open))
  }

  lemma PutKeepsMessages(p: Packing, msg: Bytes)
    ensures Messages(Put(p, msg)) == Messages(p) + [msg]
  {
    FlattenSnoc(p.groups, p.open);
    assert Flatten(p.groups) + (p.open + [msg]) == Flatten(p.groups) + p.open + [msg];
  }

  lemma PutExtends(p: Packing, front: seq<Bytes>, msg: Bytes, msgs: seq<Bytes>)
    requires Messages(p) == front && |msgs| == |front| + 1 && msgs[..|front|] == front && msgs[|front|] == msg
    ensures Messages(Put(p, msg)) == msgs
  {
    PutKeepsMessages(p, msg);
    assert msgs == front + [msg];
  }

  lemma PutPacksWell(p: Packing, msg: Bytes)
    requires WellPacked(p)
    ensures WellPacked(Put(p, msg)) && Put(p, msg).open != []
  {
    LayoutSnoc(p.open, msg);
  }

  lemma {:induction false} GreedyKeepsMessages(msgs: seq<Bytes>)
    ensures Messages(Greedy(msgs)) == msgs
    decreases |msgs|
  {
    if msgs != [] {
      var front, msg := msgs[..|msgs| - 1], msgs[|msgs| - 1];
      GreedyKeepsMessages(front);
      PutExtends(Greedy(front), front, msg, msgs);
    }
  }

  lemma {:induction false} GreedyPacksWell(msgs: seq<Bytes>)
    ensures WellPacked(Greedy(msgs))
    ensures Greedy(msgs).open == [] <==> msgs == []
    decreases |msgs|
  {
    if msgs != [] {
      GreedyPacksWell(msgs[..|msgs| - 1]);
      PutPacksWell(Greedy(msgs[..|msgs| - 1]), msgs[|msgs| - 1]);
    }
  }

  lemma ClosedKeepsAll(b: Buffer, p: Packing)
    requires Represents(b, p) && WellPacked(p)
    ensures Ended(b).datagrams == Layouts(p.Closed()) && Flatten(p.Closed()) == Messages(p) && AllFit(p.Closed())
  {
    FlattenSnoc(p.groups, p.open);
    assert p.open != [] ==> Layouts(p.groups + [p.open]) == Layouts(p.groups) + [Layout(p.open)];
    assert p.open == [] ==> Flatten(p.groups) + p.open == Flatten(p.groups);
  }

  /**
   Every message is in exactly one datagram, in order, at an aligned offset;
   a datagram is over the limit only when it is one message that is.
   */
  lemma PackingIsSound(msgs: seq<Bytes>)
    requires NonEmpty(msgs)
    ensures var groups := Greedy(msgs).Closed();
            && Datagrams(msgs) == Layouts(groups)
            && Flatten(groups) == msgs
            && AllFit(groups)
  {
    GreedyRepresents(msgs);
    GreedyKeepsMessages(msgs);
    GreedyPacksWell(msgs);
    ClosedKeepsAll(AddedAll(EMPTY, msgs), Greedy(msgs));
  }

  lemma OversizeOnlyAlone(msgs: seq<Bytes>, i: nat)
    requires NonEmpty(msgs) && i < |Datagrams(msgs)|
    ensures |Datagrams(msgs)[i]| > LIMIT ==> Datagrams(msgs)[i] in msgs
    ensures (forall m :: m in msgs ==> |m| <= LIMIT) ==> |Datagrams(msgs)[i]| <= LIMIT
  {
    PackingIsSound(msgs);
    var group := Greedy(msgs).Closed()[i];
    assert Fits(group);
    if |group| == 1 {
      LayoutOne(group[0]);
      assert group == [group[0]];
      FlattenHas(Greedy(msgs).Closed(), i, 0);
    }
  }

  lemma {:induction false} FlattenHas<T>(groups: seq<seq<T>>, i: nat, k: nat)
    requires i < |groups| && k < |groups[i]|
    ensures groups[i][k] in Flatten(groups)
    decreases |groups|
  {
    if i < |groups| - 1 {
      FlattenHas(groups[..|groups| - 1], i, k);
    }
  }

  /** A message that lies in a layout lies in it still when another is added. */
  lemma StaysInLayout(front: seq<Bytes>, last: Bytes, all: Bytes, at: nat, msg: Bytes)
    requires at + |msg| <= |Layout(front)| && Layout(front)[at..at + |msg|] == msg
    requires all == Pad(Layout(front)) + last
    ensures at + |msg| <= |all| && all[at..at + |msg|] == msg
  {
    assert Layout(front) <= all;
  }

  /** Message `k` of a group lies whole in its datagram, at a multiple of four. */
  lemma {:induction false} MessagesAreAligned(group: seq<Bytes>, k: nat, at: nat)
    requires k < |group| && at == Align(|Layout(group[..k])|)
    ensures at % 4 == 0 && at + |group[k]| <= |Layout(group)|
    ensures Layout(group)[at..at + |group[k]|] == group[k]
    decreases |group|
  {
    var front, last := group[..|group| - 1], group[|group| - 1];
    if k < |front| {
      assert front[..k] == group[..k];
      MessagesAreAligned(front, k, at);
      StaysInLayout(front, last, Layout(group), at, group[k]);
    } else {
      assert group[..k] == front;
    }
  }

  // -------------------------------------------------------------------- fewest

  /** An in-order packing into datagrams that respect the limit. */
  ghost predicate IsPacking(groups: seq<seq<Bytes>>, msgs: seq<Bytes>) {
    && Flatten(groups) == msgs
    && forall i :: 0 <= i < |groups| ==> groups[i] != [] && |Layout(groups[i])| <= LIMIT
  }

  /** Greedy is ahead of a packing: fewer datagrams, or as many with no more in the last. */
  ghost predicate Ahead(p: Packing, groups: seq<seq<Bytes>>) {
    || p.Count() < |groups|
    || (p.Count() == |groups| > 0 && |Layout(p.open)| <= |Layout(groups[|groups| - 1])|)
  }

  lemma PutStaysAheadOfExtension(p: Packing, groups: seq<seq<Bytes>>, group: seq<Bytes>, msg: Bytes)
    requires p.open != [] && group != []
    requires Ahead(p, groups + [group])
    requires |Layout(group + [msg])| <= LIMIT
    ensures Ahead(Put(p, msg), groups + [group + [msg]])
  {
    LayoutSnoc(p.open, msg);
    LayoutSnoc(group, msg);
    LayoutOne(msg);
    if p.Count() == |groups| + 1 {
      AlignMonotone(|Layout(p.open)|, |Layout(group)|);
    }
  }

  lemma PutStaysAheadOfNew(p: Packing, groups: seq<seq<Bytes>>, msg: Bytes)
    requires p.open != []
    requires Ahead(p, groups)
    ensures Ahead(Put(p, msg), groups + [[msg]])
  {
    LayoutSnoc(p.open, msg);
    LayoutOne(msg);
  }

  /** A packing of messages and one more ends in that one. */
  lemma LastOfPacking(groups: seq<seq<Bytes>>, front: seq<Bytes>, msg: Bytes)
    requires IsPacking(groups, front + [msg])
    ensures groups != []
    ensures var before, last := groups[..|groups| - 1], groups[|groups| - 1];
            && last != [] && groups == before + [last] && last == last[..|last| - 1] + [msg]
            && Flatten(before) + last[..|last| - 1] == front
  {
    var before, last := groups[..|groups| - 1], groups[|groups| - 1];
    SplitLast(Flatten(before), last, front, msg);
  }

  lemma SplitLast<T>(a: seq<T>, b: seq<T>, front: seq<T>, x: T)
    requires a + b == front + [x] && b != []
    ensures b == b[..|b| - 1] + [x] && a + b[..|b| - 1] == front
  {
    assert (a + b)[|front|] == x;
    assert a + b[..|b| - 1] == (a + b)[..|front|];
  }

  lemma SmallerPacking(before: seq<seq<Bytes>>, shorter: seq<Bytes>, msg: Bytes, msgs: seq<Bytes>)
    requires shorter != []
    requires IsPacking(before + [shorter + [msg]], msgs + [msg])
    ensures IsPacking(before + [shorter], msgs)
  {
    var groups := before + [shorter + [msg]];
    LastOfPacking(groups, msgs, msg);
    assert groups[..|groups| - 1] == before && (shorter + [msg])[..|shorter|] == shorter;
    FlattenSnoc(before, shorter);
    LayoutSnoc(shorter, msg);
    forall i | 0 <= i < |before + [shorter]|
      ensures (before + [shorter])[i] != [] && |Layout((before + [shorter])[i])| <= LIMIT
    {
      assert groups[i] != [] && |Layout(groups[i])| <= LIMIT;
    }
  }

  lemma GreedyOfOne(msg: Bytes)
    ensures Greedy([msg]) == Packing([], [msg])
  {
    assert [msg][..0] == [] && [] + [msg] == [msg];
  }

  lemma {:induction false} GreedyStaysAhead(msgs: seq<Bytes>, groups: seq<seq<Bytes>>)
    requires msgs != [] && IsPacking(groups, msgs)
    ensures Ahead(Greedy(msgs), groups)
    decreases |msgs|
  {
    var front, msg := msgs[..|msgs| - 1], msgs[|msgs| - 1];
    assert msgs == front + [msg];
    LastOfPacking(groups, front, msg);
    var before, last := groups[..|groups| - 1], groups[|groups| - 1];
    var shorter := last[..|last| - 1];
    GreedyPacksWell(front);
    if shorter != [] {
      SmallerPacking(before, shorter, msg, front);
      assert front != [];
      GreedyStaysAhead(front, before + [shorter]);
      PutStaysAheadOfExtension(Greedy(front), before, shorter, msg);
    } else {
      assert last == [msg] && Flatten(before) == front;
      if front == [] {
        GreedyOfOne(msg);
        assert msgs == [msg];
      } else {
        assert IsPacking(before, front);
        GreedyStaysAhead(front, before);
        PutStaysAheadOfNew(Greedy(front), before, msg);
      }
    }
  }

  /** No in-order packing within the limit uses fewer datagrams. */
  lemma PackingIsMinimal(msgs: seq<Bytes>, groups: seq<seq<Bytes>>)
    requires NonEmpty(msgs) && IsPacking(groups, msgs)
    ensures |Datagrams(msgs)| <= |groups|
  {
    PackingIsSound(msgs);
    if msgs != [] {
      GreedyStaysAhead(msgs, groups);
    }
  }

  // ------------------------------------------------------------------ unpacking

  /** Walk a datagram by the length in each message's header. */
  function Unpack(d: Bytes): seq<Bytes>
    decreases |d|
  {
    if |d| < HEADER_SIZE then []
    else
      var len := DecodeHeader(d).len;
      if len < HEADER_SIZE || len > |d| then []
      else [d[..len]] + (if Align(len) < |d| then Unpack(d[Align(len)..]) else [])
  }

  function UnpackAll(ds: seq<Bytes>): seq<Bytes> {
    if ds == [] then [] else UnpackAll(ds[..|ds| - 1]) + Unpack(ds[|ds| - 1])
  }

  ghost predicate AllFramed(msgs: seq<Bytes>) {
    forall i :: 0 <= i < |msgs| ==> Framed(msgs[i])
  }

  lemma PadPrefix(b: Bytes, c: Bytes)
    ensures Pad(Pad(b) + c) == Pad(b) + Pad(c)
  {
    assert Align(|Pad(b) + c|) == |Pad(b)| + Align(|c|);
  }

  lemma PadPrefixThen(b: Bytes, c: Bytes, both: Bytes, last: Bytes)
    requires both == Pad(b) + c
    ensures Pad(both) + last == Pad(b) + (Pad(c) + last)
  {
    PadPrefix(b, c);
  }

  lemma LayoutConsStep(msg: Bytes, front: seq<Bytes>, head: seq<Bytes>, last: Bytes)
    requires Layout(head) == Pad(msg) + Layout(front)
    ensures Layout(head + [last]) == Pad(msg) + Layout(front + [last])
  {
    LayoutSnoc(head, last);
    LayoutSnoc(front, last);
    PadPrefixThen(msg, Layout(front), Layout(head), last);
  }

  lemma {:induction false} LayoutCons(msg: Bytes, rest: seq<Bytes>)
    requires rest != []
    ensures Layout([msg] + rest) == Pad(msg) + Layout(rest)
    decreases |rest|
  {
    var front, last := rest[..|rest| - 1], rest[|rest| - 1];
    assert [msg] + rest == ([msg] + front) + [last] && rest == front + [last];
    if front == [] {
      assert [msg] + front == [msg];
      LayoutOne(msg);
      LayoutOne(last);
      LayoutSnoc([msg], last);
    } else {
      LayoutCons(msg, front);
      LayoutConsStep(msg, front, [msg] + front, last);
    }
  }

  lemma PrefixDecodes(m: Bytes, d: Bytes)
    requires Framed(m) && m <= d
    ensures DecodeHeader(d) == DecodeHeader(m)
  {
    assert d[0..4] == m[0..4] && d[4..6] == m[4..6] && d[6..8] == m[6..8];
    assert d[8..12] == m[8..12] && d[12..16] == m[12..16];
  }

  /** The first step of a walk over a message and what follows it. */
  lemma UnpackFirst(msg: Bytes, rest: Bytes)
    requires Framed(msg) && rest != []
    ensures Unpack(Pad(msg) + rest) == [msg] + Unpack(rest)
  {
    var d := Pad(msg) + rest;
    assert msg <= Pad(msg) <= d;
    PrefixDecodes(msg, d);
    assert d[..|msg|] == msg && d[Align(|msg|)..] == rest;
  }

  lemma UnpackOne(msg: Bytes)
    requires Framed(msg)
    ensures Unpack(msg) == [msg]
  {
    assert msg[..|msg|] == msg;
  }

  lemma {:induction false} UnpackLayout(group: seq<Bytes>)
    requires AllFramed(group)
    ensures Unpack(Layout(group)) == group
    decreases |group|
  {
    if |group| == 1 {
      LayoutOne(group[0]);
      UnpackOne(group[0]);
      assert group == [group[0]];
    } else if |group| > 1 {
      var msg, rest := group[0], group[1..];
      assert group == [msg] + rest;
      LayoutCons(msg, rest);
      LayoutNonEmpty(rest);
      UnpackFirst(msg, Layout(rest));
      UnpackLayout(rest);
    }
  }

  lemma LayoutNonEmpty(group: seq<Bytes>)
    requires AllFramed(group) && group != []
    ensures |Layout(group)| > 0
  {
    LayoutSnoc(group[..|group| - 1], group[|group| - 1]);
  }

  lemma {:induction false} UnpackGroups(groups: seq<seq<Bytes>>)
    requires forall i :: 0 <= i < |groups| ==> AllFramed(groups[i])
    ensures UnpackAll(Layouts(groups)) == Flatten(groups)
    decreases |groups|
  {
    if groups != [] {
      var front := groups[..|groups| - 1];
      UnpackGroups(front);
      UnpackLayout(groups[|groups| - 1]);
      assert Layouts(groups)[..|groups| - 1] == Layouts(front);
    }
  }

  /** Unpacking the datagrams gives back exactly the added messages, in order. */
  lemma UnpackRestoresMessages(msgs: seq<Bytes>)
    requires AllFramed(msgs)
    ensures UnpackAll(Datagrams(msgs)) == msgs
  {
    PackingIsSound(msgs);
    var groups := Greedy(msgs).Closed();
    forall i | 0 <= i < |groups| ensures AllFramed(groups[i]) {
      forall k | 0 <= k < |groups[i]| ensures Framed(groups[i][k]) {
        FlattenHas(groups, i, k);
      }
    }
    UnpackGroups(groups);
  }

  // ------------------------------------------------------------------- the file

  /** joinDatagrams: no padding between one datagram and the next. */
  method JoinDatagrams(ds: seq<Bytes>) returns (out: Bytes)
    ensures out == Flatten(ds)
  {
    out := [];
    var i := 0;
    while i < |ds|
      invariant 0 <= i <= |ds|
      invariant out == Flatten(ds[..i])
    {
      FlattenSnoc(ds[..i], ds[i]);
      assert ds[..i + 1] == ds[..i] + [ds[i]];
      out := out + ds[i];
      i := i + 1;
    }
    assert ds[..i] == ds;
  }

  lemma {:induction false} LayoutAppend(a: seq<Bytes>, b: seq<Bytes>)
    requires b != []
    ensures Layout(a + b) == Pad(Layout(a)) + Layout(b)
    decreases |b|
  {
    var front, last := b[..|b| - 1], b[|b| - 1];
    assert a + b == (a + front) + [last] && b == front + [last];
    if front == [] {
      assert a + front == a;
      LayoutSnoc(a, last);
      LayoutOne(last);
    } else {
      LayoutAppend(a, front);
      LayoutConsStep(Layout(a), front, a + front, last);
    }
  }

  /** The joined datagrams of groups, and the layout their messages would have as one. */
  function Joined(groups: seq<seq<Bytes>>): Bytes {
    Flatten(Layouts(groups))
  }

  function AsOne(groups: seq<seq<Bytes>>): Bytes {
    Layout(Flatten(groups))
  }

  /** Every group has messages; every group's datagram is a multiple of four long. */
  ghost predicate NoneEmpty(groups: seq<seq<Bytes>>) {
    groups == [] || (NoneEmpty(groups[..|groups| - 1]) && groups[|groups| - 1] != [])
  }

  ghost predicate AllEven(groups: seq<seq<Bytes>>) {
    groups == [] || (AllEven(groups[..|groups| - 1]) && |Layout(groups[|groups| - 1])| % 4 == 0)
  }

  lemma GroupSnoc(front: seq<seq<Bytes>>, last: seq<Bytes>, groups: seq<seq<Bytes>>)
    requires last != [] && groups == front + [last]
    ensures Joined(groups) == Joined(front) + Layout(last)
    ensures AsOne(groups) == Pad(AsOne(front)) + Layout(last)
  {
    assert Layouts(groups) == Layouts(front) + [Layout(last)];
    FlattenSnoc(Layouts(front), Layout(last));
    FlattenSnoc(front, last);
    LayoutAppend(Flatten(front), last);
  }

  lemma SplitGroups(groups: seq<seq<Bytes>>) returns (front: seq<seq<Bytes>>, last: seq<Bytes>)
    requires groups != [] && NoneEmpty(groups)
    ensures groups == front + [last] && last != [] && NoneEmpty(front)
    ensures front == groups[..|groups| - 1] && last == groups[|groups| - 1]
  {
    front, last := groups[..|groups| - 1], groups[|groups| - 1];
  }

  lemma EvenSum(a: Bytes, b: Bytes, ab: Bytes)
    requires |a| % 4 == 0 && ab == a + b
    ensures |ab| % 4 == 0 <==> |b| % 4 == 0
    ensures ab == Pad(a) + b
  {
  }

  /** Datagrams a multiple of four long join to one layout. */
  lemma {:induction false} EvenJoinAsOne(groups: seq<seq<Bytes>>)
    requires AllEven(groups) && NoneEmpty(groups)
    ensures Joined(groups) == AsOne(groups) && |Joined(groups)| % 4 == 0
    decreases |groups|
  {
    if groups != [] {
      var front, last := SplitGroups(groups);
      EvenJoinAsOne(front);
      GroupSnoc(front, last, groups);
      EvenSum(Joined(front), Layout(last), Joined(groups));
    }
  }

  /** Joining makes no more than one layout has, and as much exactly when every
      datagram but the last is even. */
  lemma {:induction false} JoinedIsShort(groups: seq<seq<Bytes>>)
    requires NoneEmpty(groups)
    ensures |Joined(groups)| <= |AsOne(groups)|
    ensures groups != [] && |Joined(groups)| == |AsOne(groups)| ==> AllEven(groups[..|groups| - 1])
    decreases |groups|
  {
    if groups != [] {
      var front, last := SplitGroups(groups);
      JoinedIsShort(front);
      GroupSnoc(front, last, groups);
      if front != [] && |Joined(groups)| == |AsOne(groups)| {
        EvenStep(front);
      }
    }
  }

  lemma EvenStep(groups: seq<seq<Bytes>>)
    requires groups != [] && NoneEmpty(groups)
    requires AllEven(groups[..|groups| - 1]) && |Joined(groups)| % 4 == 0
    ensures AllEven(groups)
  {
    var front, last := SplitGroups(groups);
    EvenJoinAsOne(front);
    GroupSnoc(front, last, groups);
    EvenSum(Joined(front), Layout(last), Joined(groups));
  }

  /** A walk that finds `msgs` needs the bytes of their layout. */
  lemma {:induction false} WalkNeedsLayout(d: Bytes, msgs: seq<Bytes>)
    requires Unpack(d) == msgs && msgs != []
    ensures |Layout(msgs)| <= |d|
    decreases |d|
  {
    var m, rest := msgs[0], msgs[1..];
    assert msgs == [m] + rest;
    if rest == [] {
      LayoutOne(m);
      assert msgs == [m];
    } else {
      var tail := d[Align(|m|)..];
      assert Unpack(d) == [m] + Unpack(tail);
      WalkNeedsLayout(tail, rest);
      LayoutCons(m, rest);
    }
  }

  ghost predicate AllButLastEven(ds: seq<Bytes>) {
    forall i :: 0 <= i < |ds| - 1 ==> |ds[i]| % 4 == 0
  }

  lemma JoinedGroupsWalkIff(groups: seq<seq<Bytes>>, msgs: seq<Bytes>)
    requires Flatten(groups) == msgs && AllFramed(msgs) && msgs != [] && groups != [] && NoneEmpty(groups)
    ensures Unpack(Joined(groups)) == msgs <==> AllEven(groups[..|groups| - 1])
  {
    var front, last := SplitGroups(groups);
    JoinedIsShort(groups);
    if AllEven(front) {
      EvenJoinAsOne(front);
      GroupSnoc(front, last, groups);
      UnpackLayout(msgs);
    }
    if Unpack(Joined(groups)) == msgs {
      WalkNeedsLayout(Joined(groups), msgs);
    }
  }

  lemma {:induction false} EvenLayouts(groups: seq<seq<Bytes>>, n: nat)
    requires n <= |groups|
    ensures AllEven(groups[..n]) <==> forall i :: 0 <= i < n ==> |Layouts(groups)[i]| % 4 == 0
    decreases n
  {
    if n > 0 {
      EvenLayouts(groups, n - 1);
      var upTo := groups[..n];
      assert upTo[..|upTo| - 1] == groups[..n - 1] && upTo[|upTo| - 1] == groups[n - 1];
      assert Layouts(groups)[n - 1] == Layout(groups[n - 1]);
    }
  }

  lemma {:induction false} FittingIsNotEmpty(groups: seq<seq<Bytes>>, n: nat)
    requires AllFit(groups) && n <= |groups|
    ensures NoneEmpty(groups[..n])
    decreases n
  {
    if n > 0 {
      FittingIsNotEmpty(groups, n - 1);
      assert groups[..n][..n - 1] == groups[..n - 1] && Fits(groups[n - 1]);
    }
  }

  /** The joined file walks to the added messages exactly when every datagram but
      the last is a multiple of four long: nothing is written between them. */
  lemma JoinedFileWalksIff(msgs: seq<Bytes>, ds: seq<Bytes>)
    requires AllFramed(msgs) && ds == Datagrams(msgs)
    ensures Unpack(Flatten(ds)) == msgs <==> AllButLastEven(ds)
  {
    PackingIsSound(msgs);
    var groups := Greedy(msgs).Closed();
    if msgs != [] {
      FittingIsNotEmpty(groups, |groups|);
      assert groups[..|groups|] == groups;
      JoinedGroupsWalkIff(groups, msgs);
      EvenLayouts(groups, |groups| - 1);
    }
  }

  lemma TwoDatagrams(first: Bytes, second: Bytes)
    requires |first| > 0 && |second| > 0 && Align(|first|) + |second| > LIMIT
    ensures Datagrams([first, second]) == [first, second]
  {
    assert Pad([]) == [];
    assert AddedAll(EMPTY, []) == EMPTY && Added(EMPTY, first) == Buffer(first, []);
    AddedAllSnoc(EMPTY, [], first);
    AddedAllSnoc(EMPTY, [first], second);
    assert [] + [first] == [first] && [first] + [second] == [first, second];
    assert Added(Buffer(first, []), second) == Buffer(second, [first]);
  }

  /** Two messages that need a datagram each, the first of uneven length, do not walk. */
  lemma UnevenFileBreaks(first: Bytes, second: Bytes)
    requires Framed(first) && Framed(second) && |first| % 4 != 0 && Align(|first|) + |second| > LIMIT
    ensures Unpack(Flatten(Datagrams([first, second]))) != [first, second]
  {
    TwoDatagrams(first, second);
    JoinedFileWalksIff([first, second], [first, second]);
    assert [first, second][0] == first;
  }
}
