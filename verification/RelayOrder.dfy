/**
 When the daemon sends a live viewer every index once, in order, and a run in which it
 does not.

 An index is in step with the files if it is written to the one it is counted in.  A
 control half breaks that exactly when it completes an index that was given an older file
 (`ControlInStep`), a data half exactly when a rotation has failed before (`DataInStep`).
 Runs without either, and without the other things that go wrong in `LiveViewerRuns`, are
 in order (`OrderedRun`); `LateIndexIsMissed` is an ordinary run that is not.
 */
module RelayOrder {
  import opened Wrappers
  import opened TracefileArray
  import opened RelayIndex
  import opened RelayIndexLaws
  import opened LiveViewer
  import opened LiveViewerRuns
  import opened LiveViewerSent
  import opened LiveViewerOrder
  import opened RelayLive

  /** An index counted in the newest file is in step with the files exactly when it is
      written there. */
  lemma CommitInStepExactly(s: Stream, e: Entry, g: nat)
    requires RingInv(s) && InStep(s) && g < |s.files|
    ensures WellFormed(s.t) && |s.files| > 0 && (InStep(Commit(s, e, g)) <==> g == |s.files| - 1)
  {
    RingFacts(s);
    var s', head := Commit(s, e, g), s.log.HeadGen();
    LogOrder(s.log, g, head);
    if g == head {
      CommitInStep(s, e, g);
    } else {
      LogOrder(s.log, g + 1, head);
      hide RingInv, InStep, Committed;
      LastNotInStep(s', g);
    }
  }

  lemma LastNotInStep(s: Stream, g: nat)
    requires |s.homes| > 0 && s.homes[|s.homes| - 1] == g < |s.log.starts| && s.log.End(g) < |s.homes|
    ensures !InStep(s)
  {
  }

  /** The index whose other half a control half brings, if it has a file. */
  predicate CompletesOld(t: Table, m: Input) {
    && |t.tfa.tf| > 0 && m.ControlHalf? && m.info.packetSize != 0 && m.writeOk && m.n in t.indexes
    && t.indexes[m.n].file.Some? && t.indexes[m.n].file.value != t.generation
  }

  /** A control half keeps the files in step exactly when it does not complete an index that
      was given an older file. */
  lemma ControlInStep(d: Daemon, m: Input)
    requires DaemonInv(d) && Bounded(d) && InStep(d.w.s) && m.ControlHalf?
    ensures MayHandle(d, m) && (InStep(Handle(d, m).w.s) <==> !CompletesOld(d.t, m))
  {
    MessageInv(d, m);
    TablePast(d.t);
    LinkedFiles(d);
    hide DaemonInv, RingInv;
    ControlWrites(d.t, m.n, m.info, m.writeOk);
    hide Control, Counts, Halved, Past, InStep;
    var ev := WriteStep(d.t, NextTable(d.t, m));
    if ev.Some? {
      CommitInStepExactly(d.w.s, ev.value.e, ev.value.g);
    }
  }

  lemma LinkedFiles(d: Daemon)
    requires DaemonInv(d)
    ensures |d.w.s.files| == RingGeneration(d.t) + 1 && RingInv(d.w.s)
    ensures |d.t.tfa.tf| == 0 ==> |d.w.s.files| == 1
  {
  }

  /** What a control half writes. */
  lemma ControlWrites(t: Table, n: nat, info: Info, writeOk: bool)
    requires Counts(t) && Halved(t.indexes)
    ensures var t' := Control(t, n, info, writeOk).0;
            var writes := info.packetSize != 0 && writeOk && n in t.indexes && t.indexes[n].file.Some?;
            && (|t'.written| > |t.written| <==> writes)
            && (writes ==> t'.written[|t.written|].file == t.indexes[n].file.value)
  {
    hide Complete, Drop, Committed;
    if info.packetSize != 0 {
      var t0 := t.(beacon := NONE);
      var t1 := GetOrCreate(t0, n);
      var t2 := t1.(indexes := t1.indexes[n := t1.indexes[n].(info := Some(info))]);
      CreateCounts(t0, n, t2.indexes[n]);
      OneReference(t0, n);
      DropIs(t1, n);
      CompleteIs(t2, n, writeOk);
    }
  }

  /** What a data half writes, once the ring is rotated: an index whose description is
      there, to the index file of the moment. */
  lemma HandleWrites(t: Table, n: nat, rotate: bool, fileOk: bool, writeOk: bool)
    requires Counts(t) && Halved(t.indexes)
    ensures var t' := HandleData(t, n, rotate, fileOk, writeOk).0;
            var file := FileChosen(t, n, rotate, fileOk).indexFile;
            && (|t'.written| > |t.written| <==> writeOk && file.Some? && n in t.indexes && t.indexes[n].file.None?)
            && (|t'.written| > |t.written| ==> file == t'.indexFile == Some(t'.written[|t.written|].file))
  {
    HandleIs(t, n, rotate, fileOk, writeOk);
    OneReference(t, n);
    HandleFile(t, n, rotate, fileOk, writeOk);
    var t2 := FileChosen(t, n, rotate, fileOk);
    hide HandleData, Complete, Drop, Counts, Committed;
    DropIs(t2, n);
    CompleteIs(FileGiven(t2, n), n, writeOk);
  }

  lemma ProcessWrites(t: Table, n: nat, size: nat, padding: nat, luck: Luck)
    requires TableInv(t)
    ensures WellFormed(t.tfa) && t.inFlight == |t.indexes|
    ensures var t', file := Process(t, n, size, padding, luck).0, FilesReady(t, n, size, luck).indexFile;
            && (|t'.written| > |t.written| <==>
                  !RotationFails(t, size, luck) && luck.writeOk && file.Some? && n in t.indexes && t.indexes[n].file.None?)
            && (|t'.written| > |t.written| ==> file == t'.indexFile == Some(t'.written[|t.written|].file))
  {
    hide TableInv, Counts, Halved, Past, HandleData, Rotated, Stored, FileCurrent;
    TableFacts(t);
    if !RotationFails(t, size, luck) {
      var rotate := RotationNeeded(t, size);
      var t1 := if rotate then RotateFile(t) else t;
      ReadyToHandle(t, size, luck);
      HandleWrites(t1, n, rotate, luck.fileOk, luck.writeOk);
      hide FileChosen;
      StoredWrites(HandleData(t1, n, rotate, luck.fileOk, luck.writeOk).0, n, size, padding, luck.partial);
    }
  }

  /** A data half that completes an index while the index file is an older one, a rotation
      having failed. */
  predicate WritesOld(t: Table, m: Input) {
    && |t.tfa.tf| > 0 && m.DataHalf? && !RotationNeeded(t, m.size) && m.luck.writeOk
    && t.indexFile.Some? && t.indexFile.value != t.generation && m.n in t.indexes && t.indexes[m.n].file.None?
  }

  /** A data half keeps the files in step exactly when it is not such a one. */
  lemma DataInStep(d: Daemon, m: Input)
    requires DaemonInv(d) && Bounded(d) && InStep(d.w.s) && m.DataHalf?
    ensures MayHandle(d, m) && (InStep(Handle(d, m).w.s) <==> !WritesOld(d.t, m))
  {
    MessageInv(d, m);
    var w1, ev := Follow(d.w, FirstEvent(d.t, m)), WriteStep(d.t, NextTable(d.t, m));
    var t1 := DataLinked(d, m);
    FirstInStep(d, m);
    hide DaemonInv, RingInv, InStep;
    WrittenFile(d, m, t1, w1);
    if ev.Some? {
      CommitInStepExactly(w1.s, ev.value.e, ev.value.g);
    }
  }

  /** Rotating and creating files keeps the files in step. */
  lemma FirstInStep(d: Daemon, m: Input)
    requires DaemonInv(d) && Bounded(d) && InStep(d.w.s) && m.DataHalf? && MayStep(d.w, FirstEvent(d.t, m))
    ensures var w1 := Follow(d.w, FirstEvent(d.t, m)); InStep(w1.s) && RingInv(w1.s)
  {
    hide TableInv, Linked, RingInv, InStep, RotationNeeded, RotationFails;
    FollowAny(d.w, FirstEvent(d.t, m));
    RingFacts(d.w.s);
    hide AnyWorld;
    var ev := FirstEvent(d.t, m);
    if ev.Some? { FilesInStep(d.w.s, ev.value.c); }
    hide Rotate, Create;
    RingOf(Follow(d.w, ev));
  }

  lemma RingOf(w: World)
    requires AnyWorld(w)
    ensures RingInv(w.s)
  {
  }

  lemma FilesInStep(s: Stream, c: Creation)
    requires InStep(s) && s.log.Valid() && StreamOk(s) && |s.files| > 0
    ensures InStep(Rotate(s, c)) && InStep(Create(s, c))
  {
    hide Rotated;
  }

  /** Which file a data half writes to, compared with the one that is counted in. */
  lemma WrittenFile(d: Daemon, m: Input, t1: Table, w1: World)
    requires DaemonInv(d) && m.DataHalf? && WellFormed(d.t.tfa) && d.t.inFlight == |d.t.indexes|
    requires WellFormed(t1.tfa) && Wrote(t1, NextTable(d.t, m)) && Linked(t1, w1.s) && t1.written == d.t.written
    ensures var t' := NextTable(d.t, m);
            var ev := WriteStep(d.t, t');
            && (ev.None? ==> !WritesOld(d.t, m))
            && (ev.Some? ==> ev.value.g < |w1.s.files| && (ev.value.g == |w1.s.files| - 1 <==> !WritesOld(d.t, m)))
  {
    SameHomes(t1, NextTable(d.t, m));
    TableFile(d.t);
    ProcessWrites(d.t, m.n, m.size, m.padding, m.luck);
    ProcessSteps(d.t, m.n, m.size, m.padding, m.luck);
    hide TableInv, AnyWorld, Process, EntryOf;
  }

  /** The generation after a data half. */
  lemma ProcessSteps(t: Table, n: nat, size: nat, padding: nat, luck: Luck)
    requires TableInv(t)
    ensures WellFormed(t.tfa) && t.inFlight == |t.indexes|
    ensures var t' := Process(t, n, size, padding, luck).0;
            && t'.generation == t.generation + (if RotationNeeded(t, size) then 1 else 0) && |t'.tfa.tf| == |t.tfa.tf|
            && (t'.indexFile.Some? ==> t'.indexFile.value <= t'.generation)
  {
    ProcessWrote(t, n, size, padding, luck);
    ProcessInv(t, n, size, padding, luck);
    TableFile(Process(t, n, size, padding, luck).0);
    SameHomes(FilesReady(t, n, size, luck), Process(t, n, size, padding, luck).0);
    hide TableInv, Process, Rotated;
  }

  /** Every data and index file could be opened, the latter with the first packet. */
  ghost predicate Tidy(t: Table) {
    !Broken(t) && (t.indexFile.None? ==> forall n | n in t.indexes :: t.indexes[n].file.None?)
  }

  ghost predicate OrderedDaemon(d: Daemon) {
    DaemonInv(d) && FilesFound(d.t) && Tidy(d.t) && WorldInv(d.w)
  }

  /** The hypotheses: data and index files can be opened, a rotation leaves a file in which
      something is counted, and no control half completes an index of an older file. */
  ghost predicate Allowed(d: Daemon, m: Input)
    requires |d.w.s.log.starts| > 0
  {
    && Bounded(d) && !CompletesOld(d.t, m)
    && match m
       case DataHalf(_, size, _, luck, _) => luck.rotateOk && luck.fileOk && (RotationNeeded(d.t, size) ==> MayRotate(d.w.s))
       case NewViewer(_, openOk) => openOk
       case Ask(_, _, openOk, reopenOk) => openOk && reopenOk
       case _ => true
  }

  lemma FirstAllowed(d: Daemon, m: Input)
    requires OrderedDaemon(d) && |d.w.s.log.starts| > 0 && Allowed(d, m) && MayStep(d.w, FirstEvent(d.t, m))
    ensures WorldInv(Follow(d.w, FirstEvent(d.t, m)))
  {
    hide DaemonInv, WorldInv, StepWorld, MayRotate;
    var ev := FirstEvent(d.t, m);
    FirstIsNoWrite(d.t, m);
    if ev.Some? { StepInv(d.w, ev.value); }
  }

  lemma ControlTidy(t: Table, n: nat, info: Info, writeOk: bool)
    requires Counts(t) && Halved(t.indexes) && Tidy(t)
    ensures Tidy(Control(t, n, info, writeOk).0)
  {
    ControlFrame(t, n, info, writeOk);
    hide Complete, Drop, Committed;
    if info.packetSize != 0 {
      var t0 := t.(beacon := NONE);
      var t1 := GetOrCreate(t0, n);
      var t2 := t1.(indexes := t1.indexes[n := t1.indexes[n].(info := Some(info))]);
      CreateCounts(t0, n, t2.indexes[n]);
      OneReference(t0, n);
      DropIs(t1, n);
      CompleteIs(t2, n, writeOk);
    }
  }

  lemma ProcessTidy(t: Table, n: nat, size: nat, padding: nat, luck: Luck)
    requires TableInv(t) && Tidy(t) && luck.rotateOk && luck.fileOk
    ensures WellFormed(t.tfa) && t.inFlight == |t.indexes|
    ensures var t' := Process(t, n, size, padding, luck).0; Tidy(t') && t'.indexFile.Some?
  {
    hide TableInv, Counts, Halved, Past, HandleData, Rotated, FileCurrent;
    TableFacts(t);
    var rotate := RotationNeeded(t, size);
    var t1 := if rotate then RotateFile(t) else t;
    ReadyToHandle(t, size, luck);
    HandleFrame(t1, n, rotate, luck.fileOk, luck.writeOk);
    HandleFile(t1, n, rotate, luck.fileOk, luck.writeOk);
  }

  lemma NextTidy(d: Daemon, m: Input)
    requires OrderedDaemon(d) && |d.w.s.log.starts| > 0 && Allowed(d, m)
    ensures WellFormed(d.t.tfa) && d.t.inFlight == |d.t.indexes|
    ensures var t' := NextTable(d.t, m);
            && Tidy(t')
            && (|t'.written| > |d.t.written| ==>
                  t'.indexFile == Some(t'.generation) && t'.written[|d.t.written|].file == t'.generation)
  {
    hide TableInv, Linked, AnyWorld, WorldInv, Control, Process;
    TableFacts(d.t);
    TablePast(d.t);
    match m
    case ControlHalf(n, info, writeOk) =>
      ControlTidy(d.t, n, info, writeOk);
      ControlWrites(d.t, n, info, writeOk);
      ControlFrame(d.t, n, info, writeOk);
      TableFile(d.t);
      if n in d.t.indexes && d.t.indexes[n].file.Some? { OneFileOnly(d, n); }
    case DataHalf(n, size, padding, luck, _) =>
      ProcessTidy(d.t, n, size, padding, luck);
      ProcessWrites(d.t, n, size, padding, luck);
      ProcessInv(d.t, n, size, padding, luck);
      TableFile(Process(d.t, n, size, padding, luck).0);
    case _ =>
  }

  /** Without a ring and without a limit, there is one file. */
  lemma OneFileOnly(d: Daemon, n: nat)
    requires DaemonInv(d) && FilesFound(d.t) && n in d.t.indexes && d.t.indexes[n].file.Some?
    ensures |d.t.tfa.tf| == 0 ==> d.t.indexes[n].file.value == d.t.generation == 0
  {
    TablePast(d.t);
    hide TableInv, AnyWorld;
  }

  /** Every message keeps all of it; nothing fails, and the viewer misses nothing. */
  lemma OrderedMessage(d: Daemon, m: Input)
    requires OrderedDaemon(d) && |d.w.s.log.starts| > 0 && Allowed(d, m)
    ensures MayHandle(d, m) && OrderedDaemon(Handle(d, m))
  {
    MessageInv(d, m);
    NextTidy(d, m);
    FirstAllowed(d, m);
    var t1 := FirstLinked(d, m);
    hide DaemonInv, WorldInv, Tidy, StepWorld, NextTable, FirstEvent, Allowed;
    var w1, ev := Follow(d.w, FirstEvent(d.t, m)), WriteStep(d.t, NextTable(d.t, m));
    FirstIsNoWrite(d.t, m);
    SameTotal(d.w, FirstEvent(d.t, m));
    if ev.Some? {
      WorldFacts(w1);
      WriteAllowed(t1, NextTable(d.t, m), w1);
      StepInv(w1, ev.value);
    }
  }

  lemma WorldFacts(w: World)
    requires WorldInv(w)
    ensures |w.s.log.starts| > 0 && Sound(w)
  {
  }

  lemma WriteAllowed(t: Table, t': Table, w: World)
    requires WellFormed(t.tfa) && Linked(t, w.s) && Wrote(t, t') && t'.indexFile == t.indexFile && Sound(w)
    requires |t'.written| > |t.written| && |w.s.log.starts| > 0 && w.s.log.total + 1 < NONE
    requires t'.indexFile == Some(t'.generation) && t'.written[|t.written|].file == t'.generation && FilesFound(t)
    ensures var ev := WriteStep(t, t'); LiveViewerOrder.Allowed(w.s, ev.value) && Possible(w, ev.value)
  {
    SameHomes(t, t');
    hide EntryOf, Committed;
  }

  /** Every state of every run that the hypotheses allow, with a ring or without. */
  lemma {:induction false} OrderedRun(count: nat, limit: nat, states: seq<Daemon>, messages: seq<Input>, k: nat)
    requires count != 1 && (count > 0 <==> limit > 0)
    requires IsDaemonRun(states, messages) && states[0] == NewDaemon(count, limit) && k < |states|
    requires forall i | 0 <= i < k :: |states[i].w.s.log.starts| > 0 && Allowed(states[i], messages[i])
    ensures OrderedDaemon(states[k])
  {
    hide DaemonInv, WorldInv, Tidy, Bounded, MayHandle, Handle, Allowed;
    if k == 0 {
      DaemonStart(count, limit);
      FirstInv(count);
      NewTidy(count, limit);
    } else {
      OrderedRun(count, limit, states, messages, k - 1);
      OrderedMessage(states[k - 1], messages[k - 1]);
    }
  }

  lemma NewTidy(count: nat, limit: nat)
    ensures Tidy(NewTable(count, limit))
  {
  }

  /** End to end: what the viewer was sent are the indexes written by the join, in order,
      each number once, each as written, none left out that is still on disk. */
  lemma DeliveredIsWritten(d: Daemon, i: nat)
    requires OrderedDaemon(d) && i < |d.w.delivered|
    ensures var x := d.w.delivered[i];
            && x.seqNum < |d.t.written| && x.entry.offset == d.t.written[x.seqNum].offset
            && var info := d.t.written[x.seqNum].info;
            && x.entry.packetSize == info.packetSize && x.entry.contentSize == info.contentSize
            && x.entry.timestampBegin == info.timestampBegin && x.entry.timestampEnd == info.timestampEnd
            && x.entry.eventsDiscarded == info.eventsDiscarded && x.entry.streamId == info.streamId
            && (i + 1 < |d.w.delivered| ==> x.seqNum < d.w.delivered[i + 1].seqNum)
    ensures Accounted(d.w.delivered, d.w.from, d.w.v.sent, Oldest(d.w.s))
  {
    hide TableInv, AnyWorld, StreamInv, ViewerInv, Accounted;
  }

  // ---------------------------------------------------------------------
  // An index that completes after a rotation
  // ---------------------------------------------------------------------

  /** Two packets of 60 bytes where a file takes 100: the second one rotates. */
  const FIRST_PACKET := DataHalf(0, 60, 0, GOOD_LUCK, false)
  const SECOND_PACKET := DataHalf(1, 60, 0, GOOD_LUCK, false)
  const REQUEST := Ask(false, false, true, true)

  const INDEX_0 := Index(Some(0), 0, None, 1)
  const INDEX_1 := Index(Some(1), 0, None, 1)
  const PLACED := [Placement(0, 0, 0, 0, 60, true, 60), Placement(1, 1, 0, 0, 60, true, 60)]

  /** The ring after one rotation, as many indexes being counted in its second file. */
  function RingWith(n: nat): Tfa {
    if n == 0 then Tfa([EMPTY_FILE, EMPTY_FILE], 1, 0, NONE, NONE)
    else Tfa([EMPTY_FILE, Tracefile(n - 1, 0)], 1, 0, n - 1, 0)
  }

  /** The first packet has arrived. */
  ghost function OnePacket(): Daemon {
    Daemon(Table(map[0 := INDEX_0], 1, 1, 0, 0, 0, Created(2), 100, 60, 0, 0, 0, Some(0), 0, [], PLACED[..1], {}, None),
           Watch(Stream(Created(2), 0, [[]], [Some(0), None], Log([0], 0), [], []), Viewer(0, 0, Closed)))
  }

  /** Both packets have arrived, and these descriptions, in order. */
  function LateTable(infos: seq<Info>): Table
    requires |infos| <= 2
  {
    var indexes :=
      if |infos| == 0 then map[0 := INDEX_0, 1 := INDEX_1] else if |infos| == 1 then map[1 := INDEX_1] else map[];
    Table(indexes, 2 - |infos|, 2, |infos|, |infos|, if infos == [] then 0 else NONE, RingWith(|infos|), 100, 60, 0, 1, 1,
          Some(1), 1, LateWrites(infos), PLACED, {}, None)
  }

  /** Each index goes to the file of its packet. */
  function LateWrites(infos: seq<Info>): (writes: seq<Write>)
    requires |infos| <= 2
    ensures |writes| == |infos|
  {
    if |infos| == 0 then [] else if |infos| == 1 then [Write(0, 0, 0, infos[0])]
    else [Write(0, 0, 0, infos[0]), Write(1, 1, 0, infos[1])]
  }

  function LateStream(infos: seq<Info>): Stream
    requires |infos| <= 2
  {
    var e0 := if |infos| == 0 then [] else [EntryOf(Write(0, 0, 0, infos[0]))];
    var e1 := if |infos| < 2 then [] else [EntryOf(Write(1, 1, 0, infos[1]))];
    Stream(RingWith(|infos|), |infos|, [e0, e1], [Some(0), Some(1)], Log([0, 0], |infos|), e0 + e1,
           if |infos| == 0 then [] else if |infos| == 1 then [0] else [0, 1])
  }

  ghost function LateDaemon(infos: seq<Info>, v: Viewer, delivered: seq<Delivery>, failed: bool): Daemon
    requires |infos| <= 2
  {
    Daemon(LateTable(infos), World(LateStream(infos), v, 0, delivered, failed))
  }

  lemma FirstPacketArrives()
    ensures MayHandle(NewDaemon(2, 100), FIRST_PACKET) && Handle(NewDaemon(2, 100), FIRST_PACKET) == OnePacket()
  {
    var t := NewTable(2, 100);
    assert FileChosen(t, 0, false, true) ==
           t.(indexes := map[0 := NEW_INDEX], inFlight := 1, gets := 1, indexFile := Some(0));
    assert NewDaemon(2, 100).w.s.names[0 := Some(0)] == [Some(0), None];
  }

  lemma SecondPacketArrives()
    ensures MayHandle(OnePacket(), SECOND_PACKET)
    ensures Handle(OnePacket(), SECOND_PACKET) == LateDaemon([], Viewer(0, 0, Closed), [], false)
  {
    SecondTable();
    SecondStream();
    hide Process, Rotated;
  }

  lemma SecondTable()
    ensures WellFormed(OnePacket().t.tfa) && Process(OnePacket().t, 1, 60, 0, GOOD_LUCK).0 == LateTable([])
  {
    assert Created(2).tf == [EMPTY_FILE, EMPTY_FILE];
    assert Rotated(OnePacket().t.tfa) == RingWith(0);
  }

  lemma SecondStream()
    ensures StreamOk(OnePacket().w.s) && Rotate(OnePacket().w.s, FileCreated) == LateStream([])
  {
    assert Created(2).tf == [EMPTY_FILE, EMPTY_FILE];
  }

  /** The description of packet `|infos|` arrives. */
  lemma DescriptionArrives(infos: seq<Info>, info: Info, v: Viewer, delivered: seq<Delivery>, failed: bool)
    requires |infos| < 2 && info.packetSize != 0 && v.cur < 2
    ensures var d, m := LateDaemon(infos, v, delivered, failed), ControlHalf(|infos|, info, true);
            MayHandle(d, m) && Handle(d, m) == LateDaemon(infos + [info], v, delivered, failed)
  {
    LateControl(infos, info);
    LateCommit(infos, info);
    hide Control, LateTable, LateStream, RingWith;
  }

  lemma LateControl(infos: seq<Info>, info: Info)
    requires |infos| < 2 && info.packetSize != 0
    ensures var t := LateTable(infos);
            && WellFormed(t.tfa) && t.inFlight == |t.indexes|
            && Control(t, |infos|, info, true).0 == LateTable(infos + [info])
            && LateTable(infos + [info]).written == t.written + [Write(|infos|, |infos|, 0, info)]
  {
    var n, t, t' := |infos|, LateTable(infos), LateTable(infos + [info]);
    assert t'.written == t.written + [Write(n, n, 0, info)];
    assert n in t.indexes && t.indexes[n] == Index(Some(n), 0, None, 1);
    assert t.indexes - {n} == t'.indexes;
    assert Committed(RingWith(n)) == RingWith(n + 1);
    hide LateTable, RingWith, Committed;
    OneControl(t, n, info);
  }

  /** A description completes an index with one reference. */
  lemma OneControl(t: Table, n: nat, info: Info)
    requires WellFormed(t.tfa) && t.inFlight == |t.indexes| && info.packetSize != 0
    requires n in t.indexes && t.indexes[n].file.Some? && t.indexes[n].info.None? && t.indexes[n].ref == 1
    ensures t.inFlight > 0
    ensures Control(t, n, info, true).0 ==
            t.(beacon := NONE, indexes := t.indexes - {n}, inFlight := t.inFlight - 1, puts := t.puts + 1,
               tfa := Committed(t.tfa), received := t.received + 1,
               written := t.written + [Write(n, t.indexes[n].file.value, t.indexes[n].offset, info)])
  {
    hide Complete, Committed;
    var index := t.indexes[n].(info := Some(info));
    var t2 := t.(beacon := NONE, indexes := t.indexes[n := index]);
    RemoveKey(t.indexes, n);
    CompleteIs(t2, n, true);
    assert t2.indexes - {n} == t.indexes - {n};
  }

  lemma LateCommit(infos: seq<Info>, info: Info)
    requires |infos| < 2
    ensures var s := LateStream(infos);
            && WellFormed(s.t) && |s.names| == 2 == |s.t.tf| && |s.files| == 2
            && Commit(s, EntryOf(Write(|infos|, |infos|, 0, info)), |infos|) == LateStream(infos + [info])
  {
    hide EntryOf;
    var e, s, s' := EntryOf(Write(|infos|, |infos|, 0, info)), LateStream(infos), LateStream(infos + [info]);
    assert s.files[|infos|] + [e] == [e];
    if |infos| == 0 {
      assert s.files[0 := [e]] == s'.files;
    } else {
      assert (infos + [info])[0] == infos[0];
      assert s.files[1 := [e]] == s'.files;
    }
    assert s'.entries == s.entries + [e] && s'.homes == s.homes + [|infos|];
  }

  lemma LateFacts(infos: seq<Info>, v: Viewer, delivered: seq<Delivery>, failed: bool)
    requires |infos| <= 2
    ensures var d := LateDaemon(infos, v, delivered, failed);
            && Bounded(d) && d.t.written == LateWrites(infos) && d.t.tfa == RingWith(|infos|)
            && d.w.v == v && d.w.delivered == delivered && d.w.failed == failed
  {
  }

  /** The description of the first packet arrives after the second packet.  The index goes to
      file 0 and is counted in file 1, where a viewer that asks for it finds nothing.  After
      the description of the second packet, that index is sent as number 0, nothing is
      found for number 1, and the first index is never sent. */
  lemma LateIndexIsMissed(i0: Info, i1: Info) returns (states: seq<Daemon>, messages: seq<Input>)
    requires i0.packetSize != 0 && i1.packetSize != 0
    ensures IsDaemonRun(states, messages) && |messages| == 8 && states[0] == NewDaemon(2, 100)
    ensures states[3].t.written == [Write(0, 0, 0, i0)] && states[3].t.tfa.tf == [EMPTY_FILE, Tracefile(0, 0)]
    ensures messages[3] == NewViewer(Beginning, true) && messages[4] == messages[6] == messages[7] == REQUEST
    ensures !states[4].w.failed && states[5].w.failed && states[5].w.delivered == []
    ensures states[8].t.written == [Write(0, 0, 0, i0), Write(1, 1, 0, i1)] && states[8].w.v.sent == 1
    ensures |states[8].w.delivered| == 1 && states[8].w.delivered[0].seqNum == 0
    ensures states[8].w.delivered[0].entry == Entry(0, i1.packetSize, i1.contentSize, i1.timestampBegin, i1.timestampEnd,
                                                    i1.eventsDiscarded, i1.streamId)
  {
    hide Handle, MayHandle, NewDaemon, OnePacket, LateDaemon;
    FirstPacketArrives();
    SecondPacketArrives();
    PacketsBounded();
    var e := EntryOf(Write(1, 1, 0, i1));
    var closed, start, moved := Viewer(0, 0, Closed), Viewer(0, 0, Open(0, 0)), Viewer(1, 0, Open(1, 0));
    var after := Viewer(1, 1, Open(1, 1));
    DescriptionArrives([], i0, closed, [], false);
    assert [] + [i0] == [i0];
    LateAttach(i0);
    LateRequest(i0);
    DescriptionArrives([i0], i1, moved, [], true);
    assert [i0] + [i1] == [i0, i1];
    LateRequests(i0, i1);
    messages := [FIRST_PACKET, SECOND_PACKET, ControlHalf(0, i0, true), NewViewer(Beginning, true), REQUEST,
                 ControlHalf(1, i1, true), REQUEST, REQUEST];
    states := [NewDaemon(2, 100), OnePacket(), LateDaemon([], closed, [], false), LateDaemon([i0], closed, [], false),
               LateDaemon([i0], start, [], false), LateDaemon([i0], moved, [], true),
               LateDaemon([i0, i1], moved, [], true), LateDaemon([i0, i1], after, [Delivery(0, e)], true),
               LateDaemon([i0, i1], after, [Delivery(0, e)], true)];
    LateFacts([], closed, [], false);
    LateFacts([i0], closed, [], false);
    LateFacts([i0], start, [], false);
    LateFacts([i0], moved, [], true);
    LateFacts([i0, i1], moved, [], true);
    LateFacts([i0, i1], after, [Delivery(0, e)], true);
    hide Bounded;
  }

  lemma PacketsBounded()
    ensures Bounded(NewDaemon(2, 100)) && Bounded(OnePacket())
  {
  }

  lemma LateAttach(i0: Info)
    ensures var d, m := LateDaemon([i0], Viewer(0, 0, Closed), [], false), NewViewer(Beginning, true);
            MayHandle(d, m) && Handle(d, m) == LateDaemon([i0], Viewer(0, 0, Open(0, 0)), [], false)
  {
    hide EntryOf;
  }

  lemma LateRequest(i0: Info)
    ensures var d := LateDaemon([i0], Viewer(0, 0, Open(0, 0)), [], false);
            MayHandle(d, REQUEST) && Handle(d, REQUEST) == LateDaemon([i0], Viewer(1, 0, Open(1, 0)), [], true)
  {
    hide EntryOf;
  }

  lemma LateRequests(i0: Info, i1: Info)
    ensures var d := LateDaemon([i0, i1], Viewer(1, 0, Open(1, 0)), [], true);
            var d' := LateDaemon([i0, i1], Viewer(1, 1, Open(1, 1)), [Delivery(0, EntryOf(Write(1, 1, 0, i1)))], true);
            && MayHandle(d, REQUEST) && Handle(d, REQUEST) == d'
            && MayHandle(d', REQUEST) && Handle(d', REQUEST) == d'
  {
    hide EntryOf;
  }
}
