/**
 INACTIVE replies in every run of the daemon: any number of trace files, one too, any
 rotation, halves that are refused or sent twice, packets that are cut short, data and
 index files that cannot be opened, closing, and indexes in flight at any time.

 What the index files contain does not matter here, so the stream that the viewer reads
 may change in any way that agrees with the ring and the count of indexes.
 */
module RelayInactive {
  import opened Wrappers
  import opened TracefileArray
  import opened RelayIndex
  import opened RelayIndexLaws
  import LiveViewer
  import LiveViewerRuns

  datatype State = State(t: Table, s: LiveViewer.Stream, v: LiveViewer.Viewer)

  datatype Message = ControlHalf(n: nat, info: Info, writeOk: bool)
                   | DataHalf(n: nat, size: nat, padding: nat, luck: Luck)
                   | DropPartial | DropAll
                   | Attach(seek: LiveViewer.Seek, openOk: bool)
                   | Request(connectionClosed: bool, streamClosed: bool, openOk: bool, reopenOk: bool)

  /** The stream shows the ring and the count of the table. */
  ghost predicate Shows(s: LiveViewer.Stream, t: Table) {
    s.t == t.tfa && s.received == t.received && |s.names| == NameCount(|s.t.tf|)
  }

  /** What the request of a viewer finds. */
  function QueryOf(t: Table, m: Message): LiveViewer.Query
    requires m.Request?
  {
    LiveViewer.Query(m.connectionClosed, m.streamClosed, t.beacon, m.openOk, m.reopenOk)
  }

  /** The table after a message. */
  function NextTable(t: Table, m: Message): Table
    requires WellFormed(t.tfa) && t.inFlight == |t.indexes|
  {
    match m
    case ControlHalf(n, info, writeOk) => Control(t, n, info, writeOk).0
    case DataHalf(n, size, padding, luck) => Process(t, n, size, padding, luck).0
    case DropPartial => ClosePartial(t)
    case DropAll => AllClosed(t)
    case _ => t
  }

  /** The viewer after a message. */
  function NextViewer(x: State, m: Message): LiveViewer.Viewer
    requires LiveViewer.CursorInRing(x.s, x.v)
  {
    match m
    case Attach(seek, openOk) =>
      var v := LiveViewer.Attach(x.s, seek, openOk);
      if v.Some? then v.value else x.v
    case Request(_, _, _, _) => LiveViewer.NextIndex(x.s, x.v, QueryOf(x.t, m)).0
    case _ => x.v
  }

  ghost predicate Step(x: State, m: Message, x': State) {
    && WellFormed(x.t.tfa) && x.t.inFlight == |x.t.indexes| && LiveViewer.CursorInRing(x.s, x.v)
    && x'.t == NextTable(x.t, m) && x'.v == NextViewer(x, m) && Shows(x'.s, x'.t)
  }

  /** An index file is open only once something was received. */
  ghost predicate Inv(x: State) {
    && TableInv(x.t) && Shows(x.s, x.t) && LiveViewer.CursorInRing(x.s, x.v)
    && (x.v.file.Open? ==> x.t.received > 0)
  }

  /** A request keeps the cursor in the ring, and opens a file only if there is one. */
  lemma RequestKeeps(s: LiveViewer.Stream, v: LiveViewer.Viewer, q: LiveViewer.Query)
    requires LiveViewer.CursorInRing(s, v)
    ensures var v' := LiveViewer.NextIndex(s, v, q).0;
            LiveViewer.CursorInRing(s, v') && (v'.file.Open? ==> v.file.Open? || s.received > 0)
  {
    LiveViewerRuns.CursorStays(s, v, q);
    hide SeqInFile, LiveViewer.CursorInRing;
  }

  /** No message shrinks the ring or takes back an index. */
  lemma TableGrows(t: Table, m: Message)
    requires TableInv(t)
    ensures WellFormed(t.tfa) && t.inFlight == |t.indexes|
    ensures var t' := NextTable(t, m); |t'.tfa.tf| == |t.tfa.tf| && t'.received >= t.received
  {
    hide TableInv, Control, HandleData, Rotated;
    TableFacts(t);
    match m
    case ControlHalf(n, info, writeOk) =>
      ControlGrows(t, n, info, writeOk);
    case DataHalf(n, size, padding, luck) =>
      var rotate := RotationNeeded(t, size);
      RotatedCounts(t);
      RotatedSize(t);
      hide Counts;
      HandleGrows(if rotate then RotateFile(t) else t, n, rotate, luck.fileOk, luck.writeOk);
    case _ =>
  }

  lemma RotatedSize(t: Table)
    requires WellFormed(t.tfa)
    ensures |Rotated(t.tfa).tf| == |t.tfa.tf|
  {
  }

  lemma CompleteGrows(t: Table, n: nat, writeOk: bool)
    requires n in t.indexes && t.inFlight > 0 && WellFormed(t.tfa)
    ensures var t' := Complete(t, n, writeOk).0; |t'.tfa.tf| == |t.tfa.tf| && t'.received >= t.received
    ensures var t' := Drop(t, n).0; t'.tfa == t.tfa && t'.received == t.received
  {
    hide Committed;
  }

  lemma ControlGrows(t: Table, n: nat, info: Info, writeOk: bool)
    requires Counts(t)
    ensures var t' := Control(t, n, info, writeOk).0; |t'.tfa.tf| == |t.tfa.tf| && t'.received >= t.received
  {
    hide Complete, Drop;
    if info.packetSize != 0 {
      var t1 := GetOrCreate(t.(beacon := NONE), n);
      var index := t1.indexes[n].(info := Some(info));
      CreateCounts(t.(beacon := NONE), n, index);
      CompleteGrows(t1, n, writeOk);
      CompleteGrows(t1.(indexes := t1.indexes[n := index]), n, writeOk);
    }
  }

  lemma HandleGrows(t: Table, n: nat, rotate: bool, fileOk: bool, writeOk: bool)
    requires Counts(t)
    ensures var t' := HandleData(t, n, rotate, fileOk, writeOk).0; |t'.tfa.tf| == |t.tfa.tf| && t'.received >= t.received
  {
    hide Complete, Drop;
    var t1 := GetOrCreate(t, n);
    var create := rotate || t1.indexFile.None?;
    var t2 := t1.(indexFile := if !create then t1.indexFile else if fileOk then Some(t1.generation) else None);
    var index := t1.indexes[n].(file := t2.indexFile, offset := t2.sizeCurrent);
    CreateCounts(t, n, index);
    CompleteGrows(t2, n, writeOk);
    CompleteGrows(t2.(indexes := t2.indexes[n := index]), n, writeOk);
  }

  lemma NextTableInv(t: Table, m: Message)
    requires TableInv(t) && WellFormed(t.tfa) && t.inFlight == |t.indexes|
    ensures TableInv(NextTable(t, m))
  {
    hide TableInv;
    match m
    case ControlHalf(n, info, writeOk) => ControlInv(t, n, info, writeOk);
    case DataHalf(n, size, padding, luck) => ProcessInv(t, n, size, padding, luck);
    case DropPartial => ClosePartialInv(t);
    case DropAll => CloseAllInv(t);
    case _ =>
  }

  lemma StepInv(x: State, m: Message, x': State)
    requires Inv(x) && Step(x, m, x')
    ensures Inv(x')
  {
    hide TableInv, NextTable, LiveViewer.NextIndex;
    NextTableInv(x.t, m);
    TableGrows(x.t, m);
    TableFacts(x'.t);
    match m
    case Request(_, _, _, _) =>
      RequestKeeps(x.s, x.v, QueryOf(x.t, m));
      SameTable(x.t, m);
    case Attach(_, _) =>
      SameTable(x.t, m);
    case _ =>
  }

  lemma SameTable(t: Table, m: Message)
    requires WellFormed(t.tfa) && t.inFlight == |t.indexes| && (m.Attach? || m.Request?)
    ensures NextTable(t, m) == t
  {
  }

  ghost predicate IsRun(states: seq<State>, messages: seq<Message>) {
    |states| == |messages| + 1 && forall i | 0 <= i < |messages| :: Step(states[i], messages[i], states[i + 1])
  }

  /** From the creation of a stream and of a viewer of it. */
  ghost predicate Begins(x: State, count: nat, limit: nat) {
    x.t == NewTable(count, limit) && Shows(x.s, x.t) && x.v == LiveViewer.Viewer(0, 0, LiveViewer.Closed)
  }

  lemma {:induction false} RunInv(count: nat, limit: nat, states: seq<State>, messages: seq<Message>, k: nat)
    requires IsRun(states, messages) && k < |states| && Begins(states[0], count, limit)
    ensures Inv(states[k])
  {
    if k == 0 {
      NewTableInv(count, limit);
    } else {
      RunInv(count, limit, states, messages, k - 1);
      hide Inv, Step;
      StepInv(states[k - 1], messages[k - 1], states[k]);
    }
  }

  /** An INACTIVE reply carries a beacon accepted with nothing in flight, and no index
      was written since; the viewer has been sent everything.  All it takes is that the
      viewer's index file is open only when something was received. */
  lemma InactiveIsFresh(t: Table, s: LiveViewer.Stream, v: LiveViewer.Viewer, q: LiveViewer.Query)
    requires TableInv(t) && LiveViewer.CursorInRing(s, v) && s.received == t.received && q.beacon == t.beacon
    requires v.file.Open? ==> s.received > 0
    ensures var reply := LiveViewer.NextIndex(s, v, q).1;
            reply.Inactive? ==> t.accepted == Some(Beacon(reply.ts, |t.written|, 0)) && v.sent == |t.written|
  {
    hide Halved, Quiet, Located, Sequential, OffsetsExact, SeqInFile;
  }

  /** In every state of every run, an INACTIVE reply carries the timestamp of a beacon that
      was accepted with nothing in flight; no index was written since, and the viewer has
      been sent every one. */
  lemma InactiveInEveryRun(count: nat, limit: nat, states: seq<State>, messages: seq<Message>, k: nat, q: LiveViewer.Query)
    requires IsRun(states, messages) && k < |states| && Begins(states[0], count, limit)
    requires q.beacon == states[k].t.beacon
    ensures var x := states[k];
            && LiveViewer.CursorInRing(x.s, x.v)
            && var reply := LiveViewer.NextIndex(x.s, x.v, q).1;
               reply.Inactive? ==>
                 x.t.accepted == Some(Beacon(reply.ts, |x.t.written|, 0)) && x.v.sent == |x.t.written|
  {
    RunInv(count, limit, states, messages, k);
    hide TableInv, LiveViewer.NextIndex;
    InactiveIsFresh(states[k].t, states[k].s, states[k].v, q);
  }
}
