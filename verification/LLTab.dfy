/**
 The link name cache (internal/goip/lltab.go) and the monitor that keeps it
 (internal/goip/obj_monitor.go): one dump fills it, then every link message
 forgets the link and, unless it is a deletion, fills it again.

 `live` is what the cache stands for: the links that exist. Over every run in
 which no two live links share a name the cache answers as the live links do.
 */
module LLTab {

  /** A decoded link message, as far as the cache reads it. */
  datatype LinkInfo = LinkInfo(index: int, name: string, flags: nat, typ: nat, altNames: seq<string>)

  datatype Entry = Entry(name: string, flags: nat, typ: nat)

  function EntryOf(li: LinkInfo): Entry {
    Entry(li.name, li.flags, li.typ)
  }

  /** Every name a link answers to. */
  function NamesOf(li: LinkInfo): set<string> {
    (if li.name != "" then {li.name} else {}) + (set n | n in li.altNames)
  }

  datatype Table = Table(byIndex: map<int, Entry>, byName: map<string, int>)

  const EMPTY := Table(map[], map[])

  /** `m` with every one of `names` pointing at `idx`. */
  function Pointed(m: map<string, int>, names: set<string>, idx: int): map<string, int> {
    m + (map n | n in names :: idx)
  }

  lemma PointOneMore(m: map<string, int>, names: set<string>, n: string, idx: int)
    ensures Pointed(m, names, idx)[n := idx] == Pointed(m, names + {n}, idx)
  {
  }

  function Filled(t: Table, li: LinkInfo): Table {
    Table(t.byIndex[li.index := EntryOf(li)], Pointed(t.byName, NamesOf(li), li.index))
  }

  function FilledAll(t: Table, links: seq<LinkInfo>): Table {
    if links == [] then t else Filled(FilledAll(t, links[..|links| - 1]), links[|links| - 1])
  }

  function Forgotten(t: Table, idx: int): Table {
    Table(t.byIndex - {idx}, map n | n in t.byName && t.byName[n] != idx :: t.byName[n])
  }

  function IndexOfName(t: Table, name: string): int {
    if name == "" then 0 else if name in t.byName then t.byName[name] else 0
  }

  /** The name a cached index has, with the fallbacks of ll_index_to_name. */
  function NameOfIndex(t: Table, idx: int, decimal: int -> string): string {
    if idx == 0 then "*"
    else if idx in t.byIndex && t.byIndex[idx].name != "" then t.byIndex[idx].name
    else "if" + decimal(idx)
  }

  class LLTab {
    var byIndex: map<int, Entry>
    var byName: map<string, int>

    function View(): Table
      reads this
    {
      Table(byIndex, byName)
    }

    constructor ()
      ensures View() == EMPTY
    {
      byIndex, byName := map[], map[];
    }

    /** Fill: later entries for an index replace earlier ones, names and all. */
    method Fill(links: seq<LinkInfo>)
      modifies this
      ensures View() == FilledAll(old(View()), links)
    {
      var i := 0;
      while i < |links|
        invariant 0 <= i <= |links|
        invariant View() == FilledAll(old(View()), links[..i])
      {
        FillOne(links[i]);
        assert links[..i + 1][..i] == links[..i];
        i := i + 1;
      }
      assert links[..i] == links;
    }

    method FillOne(li: LinkInfo)
      modifies this
      ensures View() == Filled(old(View()), li)
    {
      byIndex := byIndex[li.index := Entry(li.name, li.flags, li.typ)];
      ghost var was, names := byName, {};
      assert byName == Pointed(was, names, li.index);
      if li.name != "" {
        PointOneMore(was, names, li.name, li.index);
        byName := byName[li.name := li.index];
        names := names + {li.name};
      }
      ghost var first := names;
      var j := 0;
      while j < |li.altNames|
        invariant 0 <= j <= |li.altNames|
        invariant byIndex == old(byIndex)[li.index := EntryOf(li)]
        invariant names == first + (set a | a in li.altNames[..j])
        invariant byName == Pointed(was, names, li.index)
      {
        assert li.altNames[..j + 1] == li.altNames[..j] + [li.altNames[j]];
        PointOneMore(was, names, li.altNames[j], li.index);
        byName := byName[li.altNames[j] := li.index];
        names := names + {li.altNames[j]};
        j := j + 1;
      }
      assert li.altNames[..j] == li.altNames;
      assert names == NamesOf(li);
    }

    /** Forget: the index, and every name that resolves to it, in any order. */
    method Forget(idx: int)
      modifies this
      ensures View() == Forgotten(old(View()), idx)
    {
      byIndex := byIndex - {idx};
      ghost var was := byName;
      var left := byName.Keys;
      while left != {}
        invariant left <= was.Keys
        invariant byIndex == old(byIndex) - {idx}
        invariant byName == map n | n in was && (n in left || was[n] != idx) :: was[n]
        decreases |left|
      {
        var name :| name in left;
        if byName[name] == idx {
          byName := byName - {name};
        }
        left := left - {name};
      }
    }

    method IndexToName(idx: int, decimal: int -> string) returns (name: string)
      ensures name == NameOfIndex(View(), idx, decimal)
    {
      if idx == 0 {
        return "*";
      }
      if idx in byIndex && byIndex[idx].name != "" {
        return byIndex[idx].name;
      }
      name := "if" + decimal(idx);
    }

    method NameToIndex(name: string) returns (idx: int)
      ensures idx == IndexOfName(View(), name)
    {
      if name == "" {
        return 0;
      }
      idx := if name in byName then byName[name] else 0;
    }
  }

  /** After a link is filled its own name and its alternative ones answer with its
      index, every other name answers as before, and no name answers with none. */
  lemma FilledAnswers(t: Table, li: LinkInfo, name: string)
    ensures IndexOfName(Filled(t, li), name)
         == if name == "" then 0
            else if name == li.name || name in li.altNames then li.index
            else IndexOfName(t, name)
  {
    assert name != "" ==> (name in NamesOf(li) <==> name == li.name || name in li.altNames);
  }

  // ------------------------------------------------------------------- the live links

  type Live = map<int, LinkInfo>

  /** The links a dump leaves live: the last one of each index. */
  function LiveAfter(links: seq<LinkInfo>): Live {
    if links == [] then map[] else LiveAfter(links[..|links| - 1])[links[|links| - 1].index := links[|links| - 1]]
  }

  predicate Carries(live: Live, idx: int, name: string) {
    idx in live && name in NamesOf(live[idx])
  }

  /** No two live links share a name. */
  ghost predicate NamesUnique(live: Live) {
    forall i, j, n :: n != "" && Carries(live, i, n) && Carries(live, j, n) ==> i == j
  }

  /** The cache holds each live link, and each of its names, and nothing else. */
  ghost predicate Agrees(t: Table, live: Live) {
    && t.byIndex.Keys == live.Keys
    && (forall i :: i in live ==> t.byIndex[i] == EntryOf(live[i]))
    && (forall n :: n != "" && n in t.byName ==> Carries(live, t.byName[n], n))
    && (forall i, n :: n != "" && Carries(live, i, n) ==> n in t.byName && t.byName[n] == i)
  }

  // ----------------------------------------------------------------------- a message

  /** A link message of a monitor run. */
  datatype Event = NewLink(li: LinkInfo) | DelLink(index: int)

  function LiveStep(live: Live, e: Event): Live {
    match e
    case NewLink(li) => live[li.index := li]
    case DelLink(idx) => live - {idx}
  }

  function TableStep(t: Table, e: Event): Table {
    match e
    case NewLink(li) => Filled(Forgotten(t, li.index), li)
    case DelLink(idx) => Forgotten(t, idx)
  }

  /** monitor.link's update: forget the link, and fill it again unless it is deleted. */
  method MonitorLink(tab: LLTab, e: Event)
    modifies tab
    ensures tab.View() == TableStep(old(tab.View()), e)
  {
    match e
    case NewLink(li) =>
      tab.Forget(li.index);
      tab.FillOne(li);
    case DelLink(idx) =>
      tab.Forget(idx);
  }

  /** Forgetting a link is deleting it from the live ones. */
  lemma ForgetDeletes(t: Table, live: Live, idx: int)
    requires Agrees(t, live)
    ensures Agrees(Forgotten(t, idx), live - {idx})
  {
    var t', live' := Forgotten(t, idx), live - {idx};
    forall n | n != "" && n in t'.byName ensures Carries(live', t'.byName[n], n) {
      assert Carries(live, t.byName[n], n);
    }
    forall i, n | n != "" && Carries(live', i, n) ensures n in t'.byName && t'.byName[n] == i {
      assert Carries(live, i, n);
    }
  }

  /** Filling a link that is not there adds it, when its names stay its own. */
  lemma FillAdds(t: Table, live: Live, li: LinkInfo)
    requires Agrees(t, live) && li.index !in live
    requires NamesUnique(live[li.index := li])
    ensures Agrees(Filled(t, li), live[li.index := li])
  {
    var t', live' := Filled(t, li), live[li.index := li];
    forall n | n != "" && n in t'.byName ensures Carries(live', t'.byName[n], n) {
      if n !in NamesOf(li) {
        assert Carries(live, t.byName[n], n);
      }
    }
    forall i, n | n != "" && Carries(live', i, n) ensures n in t'.byName && t'.byName[n] == i {
      if n in NamesOf(li) {
        assert Carries(live', li.index, n);
      } else {
        assert Carries(live, i, n);
      }
    }
  }

  /** Every link message keeps the agreement. */
  lemma StepAgrees(t: Table, live: Live, e: Event)
    requires Agrees(t, live) && NamesUnique(LiveStep(live, e))
    ensures Agrees(TableStep(t, e), LiveStep(live, e))
  {
    match e
    case NewLink(li) =>
      ForgetDeletes(t, live, li.index);
      assert (live - {li.index})[li.index := li] == live[li.index := li];
      FillAdds(Forgotten(t, li.index), live - {li.index}, li);
    case DelLink(idx) =>
      ForgetDeletes(t, live, idx);
  }

  // --------------------------------------------------------------------------- a run

  function LiveRun(live: Live, es: seq<Event>): Live {
    if es == [] then live else LiveStep(LiveRun(live, es[..|es| - 1]), es[|es| - 1])
  }

  function TableRun(t: Table, es: seq<Event>): Table {
    if es == [] then t else TableStep(TableRun(t, es[..|es| - 1]), es[|es| - 1])
  }

  ghost predicate UniqueThroughout(live: Live, es: seq<Event>) {
    forall k :: 0 <= k <= |es| ==> NamesUnique(LiveRun(live, es[..k]))
  }

  lemma {:induction false} RunAgrees(t: Table, live: Live, es: seq<Event>)
    requires Agrees(t, live) && UniqueThroughout(live, es)
    ensures Agrees(TableRun(t, es), LiveRun(live, es))
    decreases |es|
  {
    if es != [] {
      var front := es[..|es| - 1];
      forall k | 0 <= k <= |front| ensures NamesUnique(LiveRun(live, front[..k])) {
        assert front[..k] == es[..k];
      }
      RunAgrees(t, live, front);
      assert es[..|es|] == es;
      StepAgrees(TableRun(t, front), LiveRun(live, front), es[|es| - 1]);
    }
  }

  // ------------------------------------------------------------------------ the dump

  /** The index the last link of a dump with that name has. */
  ghost predicate LastCarrier(links: seq<LinkInfo>, n: string, idx: int)
    decreases |links|
  {
    links != [] &&
    var last := links[|links| - 1];
    if n in NamesOf(last) then idx == last.index else LastCarrier(links[..|links| - 1], n, idx)
  }

  /** What a dump names, by the last link that names it. */
  lemma {:induction false} DumpNames(links: seq<LinkInfo>, n: string, idx: int)
    ensures var t := FilledAll(EMPTY, links);
            n in t.byName && t.byName[n] == idx <==> LastCarrier(links, n, idx)
    decreases |links|
  {
    if links != [] {
      DumpNames(links[..|links| - 1], n, idx);
    }
  }

  lemma {:induction false} DumpIndexes(links: seq<LinkInfo>)
    ensures var t := FilledAll(EMPTY, links);
            && t.byIndex.Keys == LiveAfter(links).Keys
            && forall i :: i in LiveAfter(links) ==> t.byIndex[i] == EntryOf(LiveAfter(links)[i])
    decreases |links|
  {
    if links != [] {
      DumpIndexes(links[..|links| - 1]);
    }
  }

  /** A name a live link carries has a last carrier. */
  lemma {:induction false} LiveNameHasCarrier(links: seq<LinkInfo>, i: int, n: string) returns (idx: int)
    requires Carries(LiveAfter(links), i, n)
    ensures LastCarrier(links, n, idx)
    decreases |links|
  {
    var last := links[|links| - 1];
    if n in NamesOf(last) {
      idx := last.index;
    } else {
      idx := LiveNameHasCarrier(links[..|links| - 1], i, n);
    }
  }

  /** Every name's last carrier still has it once the dump is over: no later
      entry for the same index dropped it. */
  ghost predicate NoneDropped(links: seq<LinkInfo>) {
    forall n, idx :: n != "" && LastCarrier(links, n, idx) ==> Carries(LiveAfter(links), idx, n)
  }

  /**
   A dump into an empty table agrees with the links it leaves exactly when no
   entry repeats an index and drops a name: Fill does not forget first.
   */
  lemma DumpAgreesIff(links: seq<LinkInfo>)
    requires NamesUnique(LiveAfter(links))
    ensures Agrees(FilledAll(EMPTY, links), LiveAfter(links)) <==> NoneDropped(links)
  {
    var t, live := FilledAll(EMPTY, links), LiveAfter(links);
    DumpIndexes(links);
    if Agrees(t, live) {
      forall n, idx | n != "" && LastCarrier(links, n, idx) ensures Carries(live, idx, n) {
        DumpNames(links, n, idx);
      }
    }
    if NoneDropped(links) {
      forall n | n != "" && n in t.byName ensures Carries(live, t.byName[n], n) {
        DumpNames(links, n, t.byName[n]);
      }
      forall i, n | n != "" && Carries(live, i, n) ensures n in t.byName && t.byName[n] == i {
        var idx := LiveNameHasCarrier(links, i, n);
        DumpNames(links, n, idx);
      }
    }
  }

  ghost predicate IndexesDistinct(links: seq<LinkInfo>) {
    forall i, j :: 0 <= i < j < |links| ==> links[i].index != links[j].index
  }

  /** A dump that lists each index once drops nothing. */
  lemma {:induction false} DistinctDropsNothing(links: seq<LinkInfo>)
    requires IndexesDistinct(links)
    ensures NoneDropped(links)
    ensures forall i :: i in LiveAfter(links) ==> LiveAfter(links)[i] in links && LiveAfter(links)[i].index == i
    decreases |links|
  {
    if links != [] {
      var front, last := links[..|links| - 1], links[|links| - 1];
      DistinctDropsNothing(front);
      assert links == front + [last];
      assert forall k :: 0 <= k < |front| ==> front[k] == links[k] && front[k].index != last.index;
      assert last.index !in LiveAfter(front);
      forall n, idx | n != "" && LastCarrier(links, n, idx) ensures Carries(LiveAfter(links), idx, n) {
        if n !in NamesOf(last) {
          assert Carries(LiveAfter(front), idx, n);
        }
      }
    }
  }

  /** A repeated index can leave a stale name behind. */
  lemma RepeatedIndexGoesStale()
    ensures var links := [LinkInfo(1, "old", 0, 0, []), LinkInfo(1, "new", 0, 0, [])];
            && NamesUnique(LiveAfter(links))
            && IndexOfName(FilledAll(EMPTY, links), "old") == 1
            && !Carries(LiveAfter(links), 1, "old")
  {
    var a, b := LinkInfo(1, "old", 0, 0, []), LinkInfo(1, "new", 0, 0, []);
    var links := [a, b];
    assert links[..1] == [a] && [a][..0] == [];
    assert "old" in NamesOf(a) && "old" !in NamesOf(b);
    assert LiveAfter([]) == map[] && LiveAfter([a]) == map[1 := a];
    assert LiveAfter(links) == LiveAfter([a])[1 := b];
  }

  // ------------------------------------------------------------------- what it answers

  /**
   Over every monitor run that starts from one dump into an empty table, a name
   resolves to the one live link that carries it, and to 0 when none does; an
   index is cached exactly when its link is live, under its present name.
   */
  lemma MonitorAnswersAsLive(links: seq<LinkInfo>, es: seq<Event>, name: string, idx: int, decimal: int -> string)
    requires NoneDropped(links) && UniqueThroughout(LiveAfter(links), es)
    requires name != ""
    ensures var t, live := TableRun(FilledAll(EMPTY, links), es), LiveRun(LiveAfter(links), es);
            && (Carries(live, idx, name) ==> IndexOfName(t, name) == idx)
            && ((forall i :: !Carries(live, i, name)) ==> IndexOfName(t, name) == 0)
            && (idx in t.byIndex <==> idx in live)
            && (idx in live ==> t.byIndex[idx] == EntryOf(live[idx]))
            && (idx != 0 ==> NameOfIndex(t, idx, decimal)
                             == if idx in live && live[idx].name != "" then live[idx].name else "if" + decimal(idx))
  {
    assert es[..0] == [] && LiveRun(LiveAfter(links), []) == LiveAfter(links);
    DumpAgreesIff(links);
    RunAgrees(FilledAll(EMPTY, links), LiveAfter(links), es);
  }
}
