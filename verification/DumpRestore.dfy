/**
 `ip address save` and `ip address restore` end to end
 (internal/goip/addr_save.go, internal/goip/addr_restore.go): what restore
 writes for what save wrote, and for a file that goes bad partway.
 */
module DumpRestore {
  import opened Shared
  import opened Netlink
  import opened DumpFile
  import FB = FlushBuf

  /** The flags with NLM_F_REQUEST, NLM_F_CREATE and NLM_F_ACK ORed in. */
  function RestoreFlags(flags: U16): U16 {
    OrAck(OrCreate(OrRequest(flags)))
  }

  // -------------------------------------------------------------------------- saving

  /** addrSave after its dump: the magic, then every reply whole. */
  method AddrSave(msgs: seq<Bytes>) returns (out: Bytes)
    ensures out == Le32(DUMP_MAGIC) + FB.Flatten(msgs)
  {
    out := Le32(DUMP_MAGIC);
    var i := 0;
    while i < |msgs|
      invariant 0 <= i <= |msgs|
      invariant out == Le32(DUMP_MAGIC) + FB.Flatten(msgs[..i])
    {
      assert msgs[..i + 1] == msgs[..i] + [msgs[i]];
      JoinAssociates(Le32(DUMP_MAGIC), FB.Flatten(msgs[..i]), msgs[i]);
      out := out + msgs[i];
      i := i + 1;
    }
    assert msgs[..i] == msgs;
  }

  // ------------------------------------------------------------------------ restoring

  datatype Outcome =
    | BadMagic
    | Done
    | BadFile(end: End)
    | NotImplemented
    | NotApplied
    | DumpTerminated

  /** An address record a dump could have produced. */
  predicate Restorable(r: Record) {
    r.hdr.typ == RTM_NEWADDR && |r.body| >= IFADDRMSG_SIZE
  }

  /** restore_handler takes a record: it is restorable, the write hook is set
      and the link dump before the first write succeeds. */
  function Takes(hook: bool, links: bool): Handler {
    r => Restorable(r) && hook && links
  }

  /** The message a record is sent back as, before padding. */
  function Restored(r: Record, seqno: U32): Bytes {
    BuildWrite(RTM_NEWADDR, RestoreFlags(r.hdr.flags), seqno, r.body)
  }

  function SeqAt(start: U32, k: nat): U32 {
    (start + k) % 0x1_0000_0000
  }

  /** The messages of records, numbered from `start`. */
  function RestoredAll(rs: seq<Record>, start: U32): (ms: seq<Bytes>)
    ensures |ms| == |rs|
  {
    if rs == [] then []
    else RestoredAll(rs[..|rs| - 1], start) + [Restored(rs[|rs| - 1], SeqAt(start, |rs| - 1))]
  }

  /** Why a record is refused. */
  function Refusal(r: Record, hook: bool): Outcome {
    if !Restorable(r) then NotImplemented else if !hook then NotApplied else DumpTerminated
  }

  /** restoreRecord's refusals, in its order, then the padded message. */
  method RestoreRecord(r: Record, first: bool, hook: bool, links: bool, seqno: U32)
    returns (refusal: Outcome, msg: Bytes)
    ensures refusal.Done? <==> Restorable(r) && (first ==> hook && links)
    ensures !refusal.Done? ==> refusal == Refusal(r, hook)
    ensures refusal.Done? ==> msg == Pad(Restored(r, seqno))
  {
    if r.hdr.typ != RTM_NEWADDR || |r.body| < IFADDRMSG_SIZE {
      return NotImplemented, [];
    }
    if first {
      if !hook {
        return NotApplied, [];
      }
      if !links {
        return DumpTerminated, [];
      }
    }
    msg := BuildWrite(RTM_NEWADDR, RestoreFlags(r.hdr.flags), seqno, r.body);
    var pad := Align(|msg|) - |msg|;
    if pad > 0 {
      msg := msg + Zeros(pad);
    }
    refusal := Done;
  }

  lemma PaddedSnoc(ms: seq<Bytes>, m: Bytes)
    ensures Padded(ms + [m]) == Padded(ms) + Pad(m)
    decreases |ms|
  {
    if ms == [] {
      assert [] + [m] == [m] && [m][1..] == [];
    } else {
      PaddedSnoc(ms[1..], m);
      assert (ms + [m])[1..] == ms[1..] + [m];
      JoinAssociates(Pad(ms[0]), Padded(ms[1..]), Pad(m));
    }
  }

  lemma RestoredSnoc(rs: seq<Record>, r: Record, start: U32)
    ensures RestoredAll(rs + [r], start) == RestoredAll(rs, start) + [Restored(r, SeqAt(start, |rs|))]
    ensures Padded(RestoredAll(rs + [r], start))
         == Padded(RestoredAll(rs, start)) + Pad(Restored(r, SeqAt(start, |rs|)))
  {
    assert (rs + [r])[..|rs|] == rs;
    PaddedSnoc(RestoredAll(rs, start), Restored(r, SeqAt(start, |rs|)));
  }

  /** Why a walk was refused: its first record for any reason, a later one only for
      what it is. */
  function RefusalOf(first: Step, records: seq<Record>, hook: bool): Outcome {
    if records == [] && first.Take? then Refusal(first.record, hook) else NotImplemented
  }

  /** What a restore makes of a first step and a walk. */
  ghost predicate EndsAs(first: Step, w: Walk, hook: bool, start: U32, outcome: Outcome, out: Bytes) {
    match w.end
    case Refused => outcome == RefusalOf(first, w.records, hook) && out == []
    case Clean => outcome == Done && out == Padded(RestoredAll(w.records, start))
    case _ => outcome == BadFile(w.end) && out == Padded(RestoredAll(w.records, start))
  }

  /** What a restore does with a file after its magic. */
  ghost predicate RestoreEnds(data: Bytes, hook: bool, links: bool, start: U32, outcome: Outcome, out: Bytes) {
    EndsAs(StepAt(data, MAGIC_SIZE), WalkAt(data, MAGIC_SIZE, Takes(hook, links)), hook, start, outcome, out)
  }

  /**
   addrRestore: the magic, then the records. A record the reader refuses partway
   leaves the messages before it written; one the handler refuses leaves nothing.
   */
  method AddrRestore(input: Input, hook: bool, links: bool, start: U32) returns (outcome: Outcome, out: Bytes)
    modifies input
    ensures outcome.BadMagic? <==>
              |old(input.rest)| < MAGIC_SIZE || old(input.rest)[..MAGIC_SIZE] != Le32(DUMP_MAGIC)
    ensures !outcome.BadMagic? ==>
              RestoreEnds(old(input.rest)[MAGIC_SIZE..], hook, links, start, outcome, out)
  {
    var magic := input.ReadFull(MAGIC_SIZE);
    if |magic| < MAGIC_SIZE || Get32(magic) != DUMP_MAGIC {
      return BadMagic, [];
    }
    assert input.rest == old(input.rest)[MAGIC_SIZE..];
    outcome, out := RestoreRecords(input, hook, links, start);
  }

  lemma StopIsNoRefusal(data: Bytes, at: nat)
    ensures StepAt(data, at) != Stop(Refused)
  {
  }

  /** Where the loop stands: what was read, and what the first record's checks left:
      before it nothing was read, after it both hold. */
  ghost predicate Standing(first: Step, whole: Walk, rs: seq<Record>, rest: Bytes, pos: nat, hook: bool, links: bool) {
    && Reading(whole, rs, rest, pos, Takes(hook, links))
    && (if rs == [] then first == StepAt(rest, pos) else hook && links)
  }

  lemma EndsStopped(first: Step, whole: Walk, rs: seq<Record>, rest: Bytes, pos: nat, hook: bool, links: bool,
                    start: U32, end: End)
    requires Standing(first, whole, rs, rest, pos, hook, links) && StepAt(rest, pos) == Stop(end)
    ensures EndsAs(first, whole, hook, start, if end == Clean then Done else BadFile(end), Padded(RestoredAll(rs, start)))
  {
    ReadingStops(whole, rs, rest, pos, Takes(hook, links), end);
    StopIsNoRefusal(rest, pos);
  }

  lemma EndsRefused(first: Step, whole: Walk, rs: seq<Record>, rest: Bytes, pos: nat, hook: bool, links: bool,
                    start: U32, r: Record, next: nat)
    requires Standing(first, whole, rs, rest, pos, hook, links)
    requires StepAt(rest, pos) == Take(r, next) && !Takes(hook, links)(r)
    ensures EndsAs(first, whole, hook, start, Refusal(r, hook), [])
  {
    ReadingTakes(whole, rs, rest, pos, Takes(hook, links), r, rest[next..], pos + next);
  }

  lemma StandsOn(first: Step, whole: Walk, rs: seq<Record>, rest: Bytes, pos: nat, hook: bool, links: bool,
                 r: Record, next: nat)
    requires Standing(first, whole, rs, rest, pos, hook, links)
    requires StepAt(rest, pos) == Take(r, next) && Takes(hook, links)(r)
    ensures Standing(first, whole, rs + [r], rest[next..], pos + next, hook, links)
  {
    ReadingTakes(whole, rs, rest, pos, Takes(hook, links), r, rest[next..], pos + next);
  }

  lemma StartsReading(data: Bytes, accept: Handler)
    ensures Reading(WalkAt(data, MAGIC_SIZE, accept), [], data, MAGIC_SIZE, accept)
  {
    var w := WalkAt(data, MAGIC_SIZE, accept);
    assert [] + w.records == w.records;
  }

  /** readDumpRecords with restore_handler as its callback. */
  method RestoreRecords(input: Input, hook: bool, links: bool, start: U32) returns (outcome: Outcome, out: Bytes)
    modifies input
    ensures RestoreEnds(old(input.rest), hook, links, start, outcome, out)
  {
    ghost var data := input.rest;
    StartsReading(data, Takes(hook, links));
    outcome, out := RestoreWalk(input, hook, links, start, StepAt(data, MAGIC_SIZE),
                                WalkAt(data, MAGIC_SIZE, Takes(hook, links)));
  }

  /** One record: the end of the restore, or one message more. */
  method RestoreTurn(input: Input, pos: nat, count: nat, out: Bytes, hook: bool, links: bool, start: U32,
                     ghost first: Step, ghost whole: Walk, ghost rs: seq<Record>)
    returns (end: Option<Outcome>, out': Bytes, pos': nat, ghost rs': seq<Record>)
    requires Standing(first, whole, rs, input.rest, pos, hook, links)
    requires count == |rs| && out == Padded(RestoredAll(rs, start))
    modifies input
    ensures end.Some? ==> EndsAs(first, whole, hook, start, end.value, out')
    ensures end.None? ==>
              && Standing(first, whole, rs', input.rest, pos', hook, links)
              && |rs'| == count + 1 && out' == Padded(RestoredAll(rs', start))
              && |input.rest| < |old(input.rest)|
  {
    ghost var rest := input.rest;
    out', pos', rs' := out, pos, rs;
    var s := StreamStep(input, pos);
    match s
    case Stop(stop) =>
      EndsStopped(first, whole, rs, rest, pos, hook, links, start, stop);
      end := Some(if stop == Clean then Done else BadFile(stop));
    case Take(r, next) =>
      var refusal, msg := RestoreRecord(r, count == 0, hook, links, SeqAt(start, count));
      if refusal.Done? {
        StandsOn(first, whole, rs, rest, pos, hook, links, r, next);
        RestoredSnoc(rs, r, start);
        end, out', pos', rs' := None, out + msg, pos + next, rs + [r];
      } else {
        EndsRefused(first, whole, rs, rest, pos, hook, links, start, r, next);
        end, out' := Some(refusal), [];
      }
  }

  /** The loop, for a file whose first step and walk are given. */
  method RestoreWalk(input: Input, hook: bool, links: bool, start: U32, ghost first: Step, ghost whole: Walk)
    returns (outcome: Outcome, out: Bytes)
    requires Standing(first, whole, [], input.rest, MAGIC_SIZE, hook, links)
    modifies input
    ensures EndsAs(first, whole, hook, start, outcome, out)
  {
    ghost var rs: seq<Record> := [];
    var pos: nat := MAGIC_SIZE;
    var count: nat := 0;
    out := [];
    while true
      invariant Standing(first, whole, rs, input.rest, pos, hook, links)
      invariant count == |rs| && out == Padded(RestoredAll(rs, start))
      decreases |input.rest|
    {
      var end;
      end, out, pos, rs := RestoreTurn(input, pos, count, out, hook, links, start, first, whole, rs);
      if end.Some? {
        return end.value, out;
      }
      count := count + 1;
    }
  }

  // --------------------------------------------------------------------- the round trip

  /** A record restore takes: an RTM_NEWADDR message of at least its fixed part. */
  ghost predicate RestorableReply(m: Bytes) {
    Fits(m) && |m| >= HEADER_SIZE + IFADDRMSG_SIZE && DecodeHeader(m).typ == RTM_NEWADDR
  }

  /** Such a message as the kernel sends it in a dump, where lengths are aligned. */
  ghost predicate SavedReply(m: Bytes) {
    RestorableReply(m) && |m| % 4 == 0
  }

  ghost predicate AllSaved(msgs: seq<Bytes>) {
    forall m :: m in msgs ==> SavedReply(m)
  }

  lemma {:induction false} AlignedIsPadded(msgs: seq<Bytes>)
    requires AllSaved(msgs)
    ensures FB.Flatten(msgs) == Padded(msgs)
    decreases |msgs|
  {
    if msgs != [] {
      var front, last := msgs[..|msgs| - 1], msgs[|msgs| - 1];
      assert msgs == front + [last] && last in msgs;
      AlignedIsPadded(front);
      PaddedSnoc(front, last);
    }
  }

  /** Restore's walk over saved replies and whatever follows them. */
  lemma SavedFileWalks(msgs: seq<Bytes>, tail: Bytes)
    requires AllSaved(msgs)
    ensures WalkAt(FB.Flatten(msgs) + tail, MAGIC_SIZE, Takes(true, true))
         == Append(RecordsOf(msgs), WalkAt(tail, MAGIC_SIZE + |FB.Flatten(msgs)|, Takes(true, true)))
  {
    AlignedIsPadded(msgs);
    WalkGoodPrefix(msgs, tail, FB.Flatten(msgs) + tail, MAGIC_SIZE, MAGIC_SIZE + |FB.Flatten(msgs)|, Takes(true, true));
  }

  lemma FlagsOnce(flags: U16)
    ensures OrRequest(RestoreFlags(flags)) == RestoreFlags(flags)
  {
  }

  /** What a saved reply comes back as: the same length and body, the flags with
      REQUEST, CREATE and ACK, the next sequence number and no pid. */
  function Reissued(r: Record, seqno: U32): Record {
    Record(Header(r.hdr.len, RTM_NEWADDR, RestoreFlags(r.hdr.flags), seqno, 0), r.body)
  }

  /** A flag word taken apart at bits 0, 2 and 10, the ones REQUEST (0x1), ACK (0x4)
      and CREATE (0x400) set. */
  datatype Flags = Flags(bit0: nat, bit1: nat, bit2: nat, to9: nat, bit10: nat, rest: nat)

  predicate AreBits(p: Flags) {
    p.bit0 < 2 && p.bit1 < 2 && p.bit2 < 2 && p.to9 < 0x80 && p.bit10 < 2 && p.rest < 0x20
  }

  function Word(p: Flags): nat {
    p.bit0 + 2 * p.bit1 + 4 * p.bit2 + 8 * p.to9 + 0x400 * p.bit10 + 0x800 * p.rest
  }

  lemma EveryWordIsApart(flags: U16) returns (p: Flags)
    ensures AreBits(p) && Word(p) == flags
  {
    var a := flags / 2;
    var b := a / 2;
    var c := b / 2;
    var d := c / 0x80;
    p := Flags(flags % 2, a % 2, b % 2, c % 0x80, d % 2, d / 2);
  }

  lemma Low(w: nat, k: nat, bit: nat)
    requires w == 2 * k + bit && bit < 2
    ensures w % 2 == bit
  {
  }

  lemma RequestSets(p: Flags, w: U16)
    requires AreBits(p) && w == Word(p)
    ensures OrRequest(w) == Word(p.(bit0 := 1))
  {
    Low(w, p.bit1 + 2 * p.bit2 + 4 * p.to9 + 0x200 * p.bit10 + 0x400 * p.rest, p.bit0);
  }

  lemma AckSets(p: Flags, w: U16)
    requires AreBits(p) && w == Word(p)
    ensures OrAck(w) == Word(p.(bit2 := 1))
  {
    var q := p.bit2 + 2 * p.to9 + 0x100 * p.bit10 + 0x200 * p.rest;
    assert w / 4 == q;
    Low(q, p.to9 + 0x80 * p.bit10 + 0x100 * p.rest, p.bit2);
  }

  lemma CreateSets(p: Flags, w: U16)
    requires AreBits(p) && w == Word(p)
    ensures OrCreate(w) == Word(p.(bit10 := 1))
  {
    assert w / 0x400 == p.bit10 + 2 * p.rest;
    Low(p.bit10 + 2 * p.rest, p.rest, p.bit10);
  }

  /** Those three bits are set and every other is kept. */
  ghost predicate SetsThree(flags: U16, restored: U16) {
    exists p :: AreBits(p) && flags == Word(p) && restored == Word(p.(bit0 := 1, bit2 := 1, bit10 := 1))
  }

  lemma FlagsSetThree(flags: U16)
    ensures SetsThree(flags, RestoreFlags(flags))
  {
    var p := EveryWordIsApart(flags);
    RequestSets(p, flags);
    var p1 := p.(bit0 := 1);
    CreateSets(p1, Word(p1));
    var p2 := p1.(bit10 := 1);
    AckSets(p2, Word(p2));
    assert p2.(bit2 := 1) == p.(bit0 := 1, bit2 := 1, bit10 := 1);
  }

  lemma RestoredIsReissued(m: Bytes, seqno: U32)
    requires RestorableReply(m)
    ensures Fits(Restored(RecordOf(m), seqno))
    ensures var r := RecordOf(Restored(RecordOf(m), seqno));
            && r == Reissued(RecordOf(m), seqno)
            && r.hdr.typ == 20 && SetsThree(DecodeHeader(m).flags, r.hdr.flags)
  {
    FlagsOnce(DecodeHeader(m).flags);
    FlagsSetThree(DecodeHeader(m).flags);
  }

  lemma {:induction false} RestoredMessage(msgs: seq<Bytes>, start: U32, i: nat)
    requires AllSaved(msgs) && i < |msgs|
    ensures RestoredAll(RecordsOf(msgs), start)[i] == Restored(RecordOf(msgs[i]), SeqAt(start, i))
  {
    RecordAt(msgs, i);
    RestoredAt(RecordsOf(msgs), start, i);
  }

  lemma {:induction false} RecordAt(msgs: seq<Bytes>, i: nat)
    requires AllSaved(msgs) && i < |msgs|
    ensures RecordsOf(msgs)[i] == RecordOf(msgs[i])
    decreases |msgs|
  {
    if i > 0 {
      RecordAt(msgs[1..], i - 1);
    }
  }

  lemma {:induction false} RestoredAt(rs: seq<Record>, start: U32, i: nat)
    requires i < |rs|
    ensures RestoredAll(rs, start)[i] == Restored(rs[i], SeqAt(start, i))
    decreases |rs|
  {
    if i < |rs| - 1 {
      RestoredAt(rs[..|rs| - 1], start, i);
    }
  }

  ghost predicate AllFit(ms: seq<Bytes>) {
    forall m :: m in ms ==> Fits(m)
  }

  /**
   Save then restore is lossless: what restore writes walks cleanly under the
   monitor's reader to one message per saved reply, the same body each, flags
   and sequence numbers as a restore sends them.
   */
  lemma SaveRestoreIsLossless(msgs: seq<Bytes>, start: U32)
    requires AllSaved(msgs)
    ensures WalkAt(FB.Flatten(msgs), MAGIC_SIZE, Takes(true, true)) == Walk(RecordsOf(msgs), Clean)
    ensures var sent := RestoredAll(RecordsOf(msgs), start);
            && AllFit(sent)
            && WalkAt(Padded(sent), 0, _ => true) == Walk(RecordsOf(sent), Clean)
            && forall i :: 0 <= i < |msgs| ==>
                 && RecordOf(sent[i]) == Reissued(RecordOf(msgs[i]), SeqAt(start, i))
                 && SetsThree(RecordOf(msgs[i]).hdr.flags, RecordOf(sent[i]).hdr.flags)
  {
    SavedFileWalks(msgs, []);
    assert FB.Flatten(msgs) + [] == FB.Flatten(msgs);
    var sent := RestoredAll(RecordsOf(msgs), start);
    forall i | 0 <= i < |msgs|
      ensures Fits(sent[i]) && RecordOf(sent[i]) == Reissued(RecordOf(msgs[i]), SeqAt(start, i))
      ensures SetsThree(RecordOf(msgs[i]).hdr.flags, RecordOf(sent[i]).hdr.flags)
    {
      RestoredMessage(msgs, start, i);
      assert msgs[i] in msgs;
      RestoredIsReissued(msgs[i], SeqAt(start, i));
    }
    SentWalks(sent);
  }

  lemma SentWalks(sent: seq<Bytes>)
    requires AllFit(sent)
    ensures WalkAt(Padded(sent), 0, _ => true) == Walk(RecordsOf(sent), Clean)
  {
    var accept: Handler := _ => true;
    WalkGoodPrefix(sent, [], Padded(sent) + [], 0, |Padded(sent)|, accept);
    assert Padded(sent) + [] == Padded(sent);
  }

  /** A file that goes bad after good replies restores exactly those before it. */
  lemma GoodPrefixIsRestored(msgs: seq<Bytes>, tail: Bytes, start: U32, outcome: Outcome, out: Bytes)
    requires AllSaved(msgs)
    requires var s := StepAt(tail, MAGIC_SIZE + |FB.Flatten(msgs)|); s.Stop? && s.end != Clean
    requires RestoreEnds(FB.Flatten(msgs) + tail, true, true, start, outcome, out)
    ensures outcome == BadFile(StepAt(tail, MAGIC_SIZE + |FB.Flatten(msgs)|).end)
    ensures out == Padded(RestoredAll(RecordsOf(msgs), start))
  {
    var at := MAGIC_SIZE + |FB.Flatten(msgs)|;
    SavedFileWalks(msgs, tail);
    assert RecordsOf(msgs) + [] == RecordsOf(msgs);
  }

  lemma RefusedStep(m: Bytes, rest: Bytes, at: nat, accept: Handler)
    requires Fits(m) && !accept(RecordOf(m))
    ensures StepAt(Pad(m) + rest, at) == Take(RecordOf(m), |Pad(m)|)
    ensures WalkAt(Pad(m) + rest, at, accept) == Walk([], Refused)
  {
    StepOverMessage(m, rest, at);
  }

  /** After any good replies a message of another type than RTM_NEWADDR (20), or one
      shorter than its two headers (24 bytes), refuses the file: nothing is sent. */
  lemma ForeignMessageIsRefused(msgs: seq<Bytes>, m: Bytes, rest: Bytes, start: U32, outcome: Outcome, out: Bytes)
    requires AllSaved(msgs) && Fits(m) && (DecodeHeader(m).typ != 20 || |m| < 24)
    requires RestoreEnds(FB.Flatten(msgs) + (Pad(m) + rest), true, true, start, outcome, out)
    ensures outcome == NotImplemented && out == []
  {
    var at, tail := MAGIC_SIZE + |FB.Flatten(msgs)|, Pad(m) + rest;
    SavedFileWalks(msgs, tail);
    RefusedStep(m, rest, at, Takes(true, true));
    if msgs == [] {
      assert FB.Flatten(msgs) + tail == tail;
    }
  }

  /** Without the write hook, or when the link dump fails, the first good reply ends it. */
  lemma FirstReplyNeedsBoth(m: Bytes, rest: Bytes, hook: bool, links: bool, start: U32, outcome: Outcome, out: Bytes)
    requires RestorableReply(m) && !(hook && links)
    requires RestoreEnds(Pad(m) + rest, hook, links, start, outcome, out)
    ensures outcome == (if !hook then NotApplied else DumpTerminated) && out == []
  {
    RefusedStep(m, rest, MAGIC_SIZE, Takes(hook, links));
  }

  /** The sequence numbers strictly increase exactly when the counter does not wrap. */
  lemma SequenceIncreasesIff(start: U32, n: nat)
    ensures (forall i, j :: 0 <= i < j < n ==> SeqAt(start, i) < SeqAt(start, j))
       <==> n <= 1 || start + n <= 0x1_0000_0000
  {
    if n > 1 && start + n > 0x1_0000_0000 {
      var k := 0x1_0000_0000 - start;
      assert SeqAt(start, k) == 0;
      assert 0 <= k - 1 < k < n && SeqAt(start, k - 1) >= 0;
    }
  }
}
