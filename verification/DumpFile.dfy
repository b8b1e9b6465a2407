/**
 Dump files: `ip address save` and `restore` (internal/goip/addr_save.go,
 internal/goip/addr_restore.go) and the monitor's file reader
 (internal/goip/obj_monitor.go).

 Two readers walk the same format, one over a stream behind a four-byte magic,
 one over a buffer with none. `WalkAt` says what a file holds; both readers are
 proved against it, so they agree record by record and differ only in the
 offset they report. Saving and restoring is then a round trip.
 */
module DumpFile {
  import opened Shared
  import opened Netlink
  import FB = FlushBuf

  /** rtnl_from_file's buffer: no record may be longer. */
  const BUF_SIZE: nat := 16384
  const MAGIC_SIZE: nat := 4
  const DUMP_MAGIC: U32 := 0x47361222
  const IFADDRMSG_SIZE: nat := 8

  datatype Record = Record(hdr: Header, body: Bytes)

  /** How a walk ends: between records, inside one, at a length out of range
      (as the C int it prints, and the offset after the header), or because the
      handler refused a record. */
  datatype End = Clean | Truncated | BadLength(len: int, at: nat) | Refused

  datatype Walk = Walk(records: seq<Record>, end: End)

  /** A handler: whether it takes a record. */
  type Handler = Record -> bool

  /** A uint32 as C's %d prints it. */
  function CInt32(v: U32): (i: int)
    ensures -0x8000_0000 <= i < 0x8000_0000 && (i == v || i == v - 0x1_0000_0000)
  {
    if v > 0x7fff_ffff then v - 0x1_0000_0000 else v
  }

  /** One step of a walk: it stops, or there is a record and the bytes it takes up. */
  datatype Step = Stop(end: End) | Take(record: Record, next: nat)

  function StepAt(data: Bytes, at: nat): (s: Step)
    ensures s.Take? ==> HEADER_SIZE <= s.next <= |data|
  {
    if |data| == 0 then Stop(Clean)
    else if |data| < HEADER_SIZE then Stop(Truncated)
    else
      var h := DecodeHeader(data);
      if h.len < HEADER_SIZE || h.len > BUF_SIZE then Stop(BadLength(CInt32(h.len), at + HEADER_SIZE))
      else
        var next := HEADER_SIZE + Align(h.len - HEADER_SIZE);
        if next > |data| then Stop(Truncated)
        else Take(Record(h, data[HEADER_SIZE..h.len]), next)
  }

  /** What the bytes from offset `at` on hold: the records taken, and the end. */
  function WalkAt(data: Bytes, at: nat, accept: Handler): Walk
    decreases |data|
  {
    match StepAt(data, at)
    case Stop(end) => Walk([], end)
    case Take(r, next) =>
      if accept(r) then Prepend(r, WalkAt(data[next..], at + next, accept)) else Walk([], Refused)
  }

  function Prepend(r: Record, w: Walk): Walk {
    Walk([r] + w.records, w.end)
  }

  function Append(rs: seq<Record>, w: Walk): Walk {
    Walk(rs + w.records, w.end)
  }

  lemma AppendPrepend(rs: seq<Record>, r: Record, w: Walk)
    ensures Append(rs, Prepend(r, w)) == Append(rs + [r], w)
  {
    assert rs + ([r] + w.records) == rs + [r] + w.records;
  }

  // --------------------------------------------------------------------- the buffer reader

  /** A reader has taken `rs` of a file and stands at `at`, before `rest`. */
  ghost predicate Reading(whole: Walk, rs: seq<Record>, rest: Bytes, at: nat, accept: Handler) {
    whole == Append(rs, WalkAt(rest, at, accept))
  }

  lemma ReadingStops(whole: Walk, rs: seq<Record>, rest: Bytes, at: nat, accept: Handler, end: End)
    requires Reading(whole, rs, rest, at, accept)
    requires StepAt(rest, at) == Stop(end)
    ensures whole == Walk(rs, end)
  {
    assert rs + [] == rs;
  }

  lemma ReadingTakes(whole: Walk, rs: seq<Record>, rest: Bytes, at: nat, accept: Handler,
                     r: Record, rest': Bytes, at': nat)
    requires Reading(whole, rs, rest, at, accept)
    requires at <= at' && StepAt(rest, at) == Take(r, at' - at) && rest' == rest[at' - at..]
    ensures accept(r) ==> Reading(whole, rs + [r], rest', at', accept)
    ensures !accept(r) ==> whole == Walk(rs, Refused)
  {
    assert rs + [] == rs;
    AppendPrepend(rs, r, WalkAt(rest', at', accept));
  }

  /** One turn of monitorReadFile's loop, at `off`. */
  method BufferStep(data: Bytes, off: nat) returns (s: Step)
    requires off < |data|
    ensures s == StepAt(data[off..], off)
  {
    if |data| - off < HEADER_SIZE {
      return Stop(Truncated);
    }
    var h := DecodeHeader(data[off..]);
    if h.len < HEADER_SIZE || h.len > BUF_SIZE {
      return Stop(BadLength(CInt32(h.len), off + HEADER_SIZE));
    }
    var l := h.len - HEADER_SIZE;
    var end := off + HEADER_SIZE + Align(l);
    if end > |data| {
      return Stop(Truncated);
    }
    var body := data[off + HEADER_SIZE..off + HEADER_SIZE + l];
    assert body == data[off..][HEADER_SIZE..h.len];
    s := Take(Record(h, body), end - off);
  }

  /** monitorReadFile on the file's bytes. */
  method ReadBuffer(data: Bytes, accept: Handler) returns (w: Walk)
    ensures w == WalkAt(data, 0, accept)
  {
    ghost var whole := WalkAt(data, 0, accept);
    var rs: seq<Record> := [];
    var off := 0;
    assert data[0..] == data;
    while off < |data|
      invariant 0 <= off <= |data|
      invariant Reading(whole, rs, data[off..], off, accept)
    {
      var s := BufferStep(data, off);
      match s
      case Stop(end) =>
        ReadingStops(whole, rs, data[off..], off, accept, end);
        return Walk(rs, end);
      case Take(r, next) =>
        var off' := off + next;
        assert data[off..][next..] == data[off'..];
        ReadingTakes(whole, rs, data[off..], off, accept, r, data[off'..], off');
        if !accept(r) {
          return Walk(rs, Refused);
        }
        rs, off := rs + [r], off';
    }
    ReadingStops(whole, rs, data[off..], off, accept, Clean);
    w := Walk(rs, Clean);
  }

  // --------------------------------------------------------------------- the stream reader

  /** A stream: what has not been read yet. */
  class Input {
    var rest: Bytes

    constructor (data: Bytes)
      ensures rest == data
    {
      rest := data;
    }

    /** io.ReadFull: as many of the bytes asked for as there are. */
    method ReadFull(n: nat) returns (got: Bytes)
      modifies this
      ensures |got| == (if n <= |old(rest)| then n else |old(rest)|)
      ensures got + rest == old(rest)
    {
      var k := if n <= |rest| then n else |rest|;
      got := rest[..k];
      rest := rest[k..];
    }
  }

  lemma StreamAtHeader(data: Bytes, hdr: Bytes, rest: Bytes)
    requires hdr + rest == data && |hdr| == HEADER_SIZE
    ensures DecodeHeader(data) == DecodeHeader(hdr)
  {
    assert data[0..4] == hdr[0..4] && data[4..6] == hdr[4..6] && data[6..8] == hdr[6..8];
    assert data[8..12] == hdr[8..12] && data[12..16] == hdr[12..16];
  }

  lemma StreamAtBody(data: Bytes, hdr: Bytes, body: Bytes, rest: Bytes, l: nat)
    requires data == hdr + (body + rest) && |hdr| == HEADER_SIZE && l <= |body|
    ensures data[HEADER_SIZE..HEADER_SIZE + l] == body[..l]
    ensures data[HEADER_SIZE + |body|..] == rest
  {
  }

  /** One turn of readDumpRecords' loop; `pos` counts what was read before it. */
  method StreamStep(input: Input, pos: nat) returns (s: Step)
    modifies input
    ensures s == StepAt(old(input.rest), pos)
    ensures s.Take? ==> input.rest == old(input.rest)[s.next..]
  {
    ghost var data := input.rest;
    var hdr := input.ReadFull(HEADER_SIZE);
    if |hdr| == 0 {
      return Stop(Clean);
    }
    if |hdr| < HEADER_SIZE {
      return Stop(Truncated);
    }
    var h := DecodeHeader(hdr);
    StreamAtHeader(data, hdr, input.rest);
    var length := CInt32(h.len);
    var l := length - HEADER_SIZE;
    if l < 0 || h.len > BUF_SIZE {
      return Stop(BadLength(length, pos + |hdr|));
    }
    var body := input.ReadFull(Align(l));
    if |body| < Align(l) {
      return Stop(Truncated);
    }
    StreamAtBody(data, hdr, body, input.rest, l);
    s := Take(Record(h, body[..l]), |hdr| + |body|);
  }

  /** readDumpRecords after the magic. */
  method ReadStream(input: Input, accept: Handler) returns (w: Walk)
    modifies input
    ensures w == WalkAt(old(input.rest), MAGIC_SIZE, accept)
  {
    ghost var whole := WalkAt(input.rest, MAGIC_SIZE, accept);
    var pos: nat := MAGIC_SIZE;
    var rs: seq<Record> := [];
    while true
      invariant Reading(whole, rs, input.rest, pos, accept)
      decreases |input.rest|
    {
      ghost var rest := input.rest;
      var s := StreamStep(input, pos);
      match s
      case Stop(end) =>
        ReadingStops(whole, rs, rest, pos, accept, end);
        return Walk(rs, end);
      case Take(r, next) =>
        var pos' := pos + next;
        ReadingTakes(whole, rs, rest, pos, accept, r, input.rest, pos');
        if !accept(r) {
          return Walk(rs, Refused);
        }
        rs, pos := rs + [r], pos';
    }
  }

  // ----------------------------------------------------------------------- the two agree

  function ShiftEnd(e: End, delta: nat): End {
    if e.BadLength? then BadLength(e.len, e.at + delta) else e
  }

  function ShiftStep(s: Step, delta: nat): Step {
    match s
    case Stop(end) => Stop(ShiftEnd(end, delta))
    case Take(_, _) => s
  }

  lemma StepShifts(data: Bytes, at: nat, delta: nat)
    ensures StepAt(data, at + delta) == ShiftStep(StepAt(data, at), delta)
  {
  }

  /** `walk` is the walk that `step` makes. */
  ghost predicate IsWalk(step: (Bytes, nat) -> Step, walk: (Bytes, nat) -> Walk, accept: Handler) {
    forall d: Bytes, a: nat :: WalksAs(d, a, step(d, a), walk, accept)
  }

  ghost predicate WalksAs(d: Bytes, a: nat, s: Step, walk: (Bytes, nat) -> Walk, accept: Handler) {
    match s
    case Stop(end) => walk(d, a) == Walk([], end)
    case Take(r, next) =>
      && 0 < next <= |d|
      && walk(d, a) == if accept(r) then Prepend(r, walk(d[next..], a + next)) else Walk([], Refused)
  }

  lemma {:induction false} WalkShifts(step: (Bytes, nat) -> Step, walk: (Bytes, nat) -> Walk, accept: Handler,
                                      data: Bytes, at: nat, moved: nat, delta: nat)
    requires IsWalk(step, walk, accept) && moved == at + delta
    requires forall d: Bytes, a: nat :: step(d, a + delta) == ShiftStep(step(d, a), delta)
    ensures walk(data, moved).records == walk(data, at).records
    ensures walk(data, moved).end == ShiftEnd(walk(data, at).end, delta)
    decreases |data|
  {
    assert step(data, at + delta) == ShiftStep(step(data, at), delta);
    match step(data, at)
    case Stop(_) =>
    case Take(r, next) => WalkShifts(step, walk, accept, data[next..], at + next, moved + next, delta);
  }

  lemma WalkAtIsWalk(accept: Handler)
    ensures IsWalk((d: Bytes, a: nat) => StepAt(d, a), (d: Bytes, a: nat) => WalkAt(d, a, accept), accept)
  {
  }

  /**
   On every byte string and for every handler the two readers take the same
   records and end the same way, but for the four bytes of magic in a
   malformed record's offset.
   */
  lemma ReadersAgree(data: Bytes, accept: Handler)
    ensures WalkAt(data, MAGIC_SIZE, accept).records == WalkAt(data, 0, accept).records
    ensures WalkAt(data, MAGIC_SIZE, accept).end == ShiftEnd(WalkAt(data, 0, accept).end, MAGIC_SIZE)
  {
    forall d: Bytes, a: nat ensures StepAt(d, a + MAGIC_SIZE) == ShiftStep(StepAt(d, a), MAGIC_SIZE) {
      StepShifts(d, a, MAGIC_SIZE);
    }
    WalkAtIsWalk(accept);
    WalkShifts((d: Bytes, a: nat) => StepAt(d, a), (d: Bytes, a: nat) => WalkAt(d, a, accept), accept, data, 0, MAGIC_SIZE, MAGIC_SIZE);
  }

  // ------------------------------------------------------------------ walking what is framed

  /** A message fit for a dump file. */
  ghost predicate Fits(m: Bytes) {
    Framed(m) && |m| <= BUF_SIZE
  }

  function RecordOf(m: Bytes): Record
    requires |m| >= HEADER_SIZE
  {
    Record(DecodeHeader(m), m[HEADER_SIZE..])
  }

  lemma StepIs(d: Bytes, at: nat, h: Header, body: Bytes, next: nat)
    requires |d| >= HEADER_SIZE && DecodeHeader(d) == h && HEADER_SIZE <= h.len <= BUF_SIZE
    requires next == HEADER_SIZE + Align(h.len - HEADER_SIZE) <= |d| && body == d[HEADER_SIZE..h.len]
    ensures StepAt(d, at) == Take(Record(h, body), next)
  {
  }

  /** The first step of a walk over a padded message. */
  lemma StepOverMessage(m: Bytes, rest: Bytes, at: nat)
    requires Fits(m)
    ensures StepAt(Pad(m) + rest, at) == Take(RecordOf(m), |Pad(m)|)
    ensures (Pad(m) + rest)[|Pad(m)|..] == rest
  {
    var d := Pad(m) + rest;
    assert m <= Pad(m) <= d;
    FB.PrefixDecodes(m, d);
    assert d[HEADER_SIZE..|m|] == m[HEADER_SIZE..];
    StepIs(d, at, DecodeHeader(m), m[HEADER_SIZE..], |Pad(m)|);
  }

  lemma WalkStep(m: Bytes, rest: Bytes, at: nat, at': nat, accept: Handler)
    requires Fits(m) && accept(RecordOf(m)) && at' == at + |Pad(m)|
    ensures WalkAt(Pad(m) + rest, at, accept) == Prepend(RecordOf(m), WalkAt(rest, at', accept))
  {
    StepOverMessage(m, rest, at);
  }

  /** Messages one after another, each padded. */
  function Padded(ms: seq<Bytes>): Bytes {
    if ms == [] then [] else Pad(ms[0]) + Padded(ms[1..])
  }

  function RecordsOf(ms: seq<Bytes>): (rs: seq<Record>)
    requires forall m :: m in ms ==> |m| >= HEADER_SIZE
    ensures |rs| == |ms|
  {
    if ms == [] then [] else [RecordOf(ms[0])] + RecordsOf(ms[1..])
  }

  ghost predicate AllTaken(ms: seq<Bytes>, accept: Handler) {
    forall m :: m in ms ==> Fits(m) && accept(RecordOf(m))
  }

  /** A walk from `data` takes `rs` and goes on at `tail`. */
  ghost predicate LeadsTo(data: Bytes, at: nat, rs: seq<Record>, tail: Bytes, next: nat, accept: Handler) {
    WalkAt(data, at, accept) == Append(rs, WalkAt(tail, next, accept))
  }

  lemma LeadsFurther(m: Bytes, data: Bytes, at: nat, at': nat, rs: seq<Record>, tail: Bytes, next: nat, accept: Handler)
    requires Fits(m) && accept(RecordOf(m)) && at' == at + |Pad(m)|
    requires LeadsTo(data, at', rs, tail, next, accept)
    ensures LeadsTo(Pad(m) + data, at, [RecordOf(m)] + rs, tail, next, accept)
  {
    WalkStep(m, data, at, at', accept);
    LeadsOn(WalkAt(Pad(m) + data, at, accept), RecordOf(m), WalkAt(data, at', accept), rs, WalkAt(tail, next, accept));
  }

  /** A walk over good messages takes each, then goes on with what follows them. */
  lemma {:induction false} WalkGoodPrefix(ms: seq<Bytes>, tail: Bytes, data: Bytes, at: nat, next: nat, accept: Handler)
    requires AllTaken(ms, accept)
    requires data == Padded(ms) + tail && next == at + |Padded(ms)|
    ensures LeadsTo(data, at, RecordsOf(ms), tail, next, accept)
    decreases |ms|
  {
    if ms == [] {
      assert data == tail;
      AppendNothing(WalkAt(tail, at, accept));
    } else {
      var m, rest := ms[0], ms[1..];
      PaddedCons(m, rest, tail);
      assert ms == [m] + rest;
      var behind := Padded(rest) + tail;
      var at' := at + |Pad(m)|;
      WalkGoodPrefix(rest, tail, behind, at', next, accept);
      LeadsFurther(m, behind, at, at', RecordsOf(rest), tail, next, accept);
      assert data == Pad(m) + behind;
    }
  }

  lemma PaddedCons(m: Bytes, rest: seq<Bytes>, tail: Bytes)
    ensures Padded([m] + rest) == Pad(m) + Padded(rest)
    ensures Padded([m] + rest) + tail == Pad(m) + (Padded(rest) + tail)
    ensures |Padded([m] + rest)| == |Pad(m)| + |Padded(rest)|
  {
    assert ([m] + rest)[1..] == rest;
    JoinAssociates(Pad(m), Padded(rest), tail);
  }

  lemma AppendNothing(w: Walk)
    ensures Append([], w) == w
  {
    assert [] + w.records == w.records;
  }

  lemma LeadsOn(whole: Walk, r: Record, later: Walk, rs: seq<Record>, tail: Walk)
    requires whole == Prepend(r, later) && later == Append(rs, tail)
    ensures whole == Append([r] + rs, tail)
  {
    assert [r] + (rs + tail.records) == [r] + rs + tail.records;
  }
}
