/**
 The whole daemon around one stream: the index join, the ring of trace files, the index
 files and a live viewer, in every run.

 Every message is zero, one or two steps of the stream that the viewer reads
 (`index.h`, and the two calls of `tracefile_array_commit_seq` in `main.c`).  An index goes
 to the file it was given with its packet, and is counted in the newest one.
 */
module RelayLive {
  import opened Wrappers
  import opened TracefileArray
  import opened RelayIndex
  import opened RelayIndexLaws
  import opened LiveViewer
  import opened LiveViewerRuns
  import opened LiveViewerSent

  /** An index as it is stored in its file. */
  function EntryOf(w: Write): Entry {
    Entry(w.offset, w.info.packetSize, w.info.contentSize, w.info.timestampBegin, w.info.timestampEnd,
          w.info.eventsDiscarded, w.info.streamId)
  }

  /** Index files are written with a number in their name if their size is limited, and read
      with a number if they form a ring. */
  predicate FilesFound(t: Table) {
    t.sizeLimit > 0 <==> |t.tfa.tf| > 0
  }

  /** The generation of the ring, in which an index is counted. */
  function RingGeneration(t: Table): nat {
    if |t.tfa.tf| == 0 then 0 else t.generation
  }

  /** The generation of the ring whose file an index was written to. */
  function HomeOf(t: Table, w: Write): nat {
    if |t.tfa.tf| == 0 then 0 else w.file
  }

  /** The viewer's stream is what the table wrote. */
  ghost predicate Linked(t: Table, s: Stream) {
    && s.t == t.tfa && s.received == t.received && StreamOk(s) && |s.files| == RingGeneration(t) + 1
    && (t.sizeLimit == 0 ==> t.generation == 0)
    && |s.entries| == |s.homes| == |t.written|
    && (forall i | 0 <= i < |s.entries| :: s.entries[i] == EntryOf(t.written[i]) && s.homes[i] == HomeOf(t, t.written[i]))
    && (FilesFound(t) && t.indexFile == Some(t.generation) ==> s.names[s.t.fileHead] == Some(t.generation))
    && (!FilesFound(t) ==> forall i | 0 <= i < |s.names| :: s.names[i].None?)
  }

  // ---------------------------------------------------------------------
  // Messages
  // ---------------------------------------------------------------------

  datatype Daemon = Daemon(t: Table, w: World)

  /** `removed` says whether an index file that cannot be created took the old one with it. */
  datatype Input = ControlHalf(n: nat, info: Info, writeOk: bool)
                 | DataHalf(n: nat, size: nat, padding: nat, luck: Luck, removed: bool)
                 | DropPartial | DropAll
                 | NewViewer(seek: Seek, openOk: bool)
                 | Ask(connectionClosed: bool, streamClosed: bool, openOk: bool, reopenOk: bool)

  /** What a data half does to the index files, before an index is written, as the viewer
      sees it. */
  function CreationOf(t: Table, luck: Luck, removed: bool): Creation {
    if !FilesFound(t) then FileRemoved
    else if luck.fileOk then FileCreated else if removed then FileRemoved else FileKept
  }

  ghost function FileStep(t: Table, size: nat, luck: Luck, removed: bool): Option<Event> {
    if RotationFails(t, size, luck) then Some(NewFile(FileKept))
    else if RotationNeeded(t, size) then Some(NewFile(CreationOf(t, luck, removed)))
    else if t.indexFile.None? then Some(Recreate(CreationOf(t, luck, removed)))
    else None
  }

  /** The index that a message wrote, if any. */
  ghost function WriteStep(t: Table, t': Table): Option<Event> {
    if |t'.written| > |t.written|
    then Some(Produce(EntryOf(t'.written[|t.written|]), HomeOf(t', t'.written[|t.written|]))) else None
  }

  ghost predicate MayStep(w: World, ev: Option<Event>) {
    Sound(w) && (ev.Some? && ev.value.Produce? ==> ev.value.g < |w.s.files|)
  }

  ghost function Follow(w: World, ev: Option<Event>): World
    requires MayStep(w, ev)
  {
    if ev.Some? then StepWorld(w, ev.value) else w
  }

  function NextTable(t: Table, m: Input): Table
    requires WellFormed(t.tfa) && t.inFlight == |t.indexes|
  {
    match m
    case ControlHalf(n, info, writeOk) => Control(t, n, info, writeOk).0
    case DataHalf(n, size, padding, luck, _) => Process(t, n, size, padding, luck).0
    case DropPartial => ClosePartial(t)
    case DropAll => AllClosed(t)
    case _ => t
  }

  /** The events of a message, in order. */
  ghost function FirstEvent(t: Table, m: Input): Option<Event> {
    match m
    case DataHalf(_, size, _, luck, removed) => FileStep(t, size, luck, removed)
    case NewViewer(seek, openOk) => Some(Connect(seek, openOk))
    case Ask(conn, closed, openOk, reopenOk) => Some(Request(Query(conn, closed, t.beacon, openOk, reopenOk)))
    case _ => None
  }

  ghost predicate MayHandle(d: Daemon, m: Input) {
    && WellFormed(d.t.tfa) && d.t.inFlight == |d.t.indexes| && MayStep(d.w, FirstEvent(d.t, m))
    && MayStep(Follow(d.w, FirstEvent(d.t, m)), WriteStep(d.t, NextTable(d.t, m)))
  }

  ghost function Handle(d: Daemon, m: Input): Daemon
    requires MayHandle(d, m)
  {
    var t' := NextTable(d.t, m);
    Daemon(t', Follow(Follow(d.w, FirstEvent(d.t, m)), WriteStep(d.t, t')))
  }

  ghost function NewDaemon(count: nat, limit: nat): Daemon {
    Daemon(NewTable(count, limit), FirstWatch(count))
  }

  // ---------------------------------------------------------------------
  // What a message writes
  // ---------------------------------------------------------------------

  /** One more index at most, into a file that is open; the ring is told. */
  ghost predicate Wrote(t: Table, t': Table)
    requires WellFormed(t.tfa)
  {
    && t'.generation == t.generation && t'.sizeLimit == t.sizeLimit
    && if |t'.written| > |t.written| then
         && t'.written == t.written + [t'.written[|t.written|]] && t'.written[|t.written|].file <= t.generation
         && t'.tfa == Committed(t.tfa) && t'.received == t.received + 1
       else t'.written == t.written && t'.tfa == t.tfa && t'.received == t.received
  }

  lemma CompleteWrote(t: Table, n: nat, writeOk: bool)
    requires n in t.indexes && t.inFlight > 0 && t.indexes[n].ref == 1 && WellFormed(t.tfa)
    requires t.indexes[n].file.Some? ==> t.indexes[n].file.value <= t.generation
    ensures Wrote(t, Complete(t, n, writeOk).0) && Wrote(t, Drop(t, n).0)
  {
    hide Committed;
    CompleteIs(t, n, writeOk);
    DropIs(t, n);
  }

  lemma ControlWrote(t: Table, n: nat, info: Info, writeOk: bool)
    requires Counts(t) && Halved(t.indexes) && Past(t.indexes, t.written, t.generation)
    ensures WellFormed(t.tfa) && Wrote(t, Control(t, n, info, writeOk).0)
  {
    hide Complete, Drop, Committed;
    if info.packetSize != 0 {
      var t0 := t.(beacon := NONE);
      var t1 := GetOrCreate(t0, n);
      var t2 := t1.(indexes := t1.indexes[n := t1.indexes[n].(info := Some(info))]);
      CreateCounts(t0, n, t2.indexes[n]);
      OneReference(t0, n);
      hide Counts, Halved;
      CompleteWrote(t1, n, writeOk);
      CompleteWrote(t2, n, writeOk);
      WroteFrom(t, t1, Control(t, n, info, writeOk).0);
      WroteFrom(t, t2, Control(t, n, info, writeOk).0);
    }
  }

  lemma WroteFrom(t: Table, t1: Table, t': Table)
    requires WellFormed(t.tfa) && t1.written == t.written && t1.tfa == t.tfa && t1.received == t.received
    requires t1.generation == t.generation && t1.sizeLimit == t.sizeLimit
    ensures WellFormed(t1.tfa) && (Wrote(t1, t') ==> Wrote(t, t'))
  {
    hide Committed;
  }

  lemma HandleWrote(t: Table, n: nat, rotate: bool, fileOk: bool, writeOk: bool)
    requires Counts(t) && Halved(t.indexes) && Past(t.indexes, t.written, t.generation) && FileReady(t, rotate)
    ensures WellFormed(t.tfa) && Wrote(t, HandleData(t, n, rotate, fileOk, writeOk).0)
  {
    HandleIs(t, n, rotate, fileOk, writeOk);
    OneReference(t, n);
    var t2 := FileChosen(t, n, rotate, fileOk);
    var t3 := FileGiven(t2, n);
    hide HandleData, Complete, Drop, Counts, Halved, Committed;
    CompleteWrote(t2, n, writeOk);
    WroteFrom(t, t2, Drop(t2, n).0);
    if t2.indexFile.Some? && t2.indexes[n].file.None? {
      CompleteWrote(t3, n, writeOk);
      WroteFrom(t, t3, Complete(t3, n, writeOk).0);
    }
  }

  // ---------------------------------------------------------------------
  // The link
  // ---------------------------------------------------------------------

  lemma NewLinked(count: nat, limit: nat)
    ensures Linked(NewTable(count, limit), FirstWatch(count).s)
  {
  }

  /** Following what a step wrote. */
  lemma WriteLinked(t: Table, t': Table, w: World)
    requires WellFormed(t.tfa) && Linked(t, w.s) && Sound(w) && Wrote(t, t') && t'.indexFile == t.indexFile
    ensures MayStep(w, WriteStep(t, t')) && Linked(t', Follow(w, WriteStep(t, t')).s)
  {
    hide EntryOf, Committed;
    HeadStays(t.tfa);
    SameHomes(t, t');
  }

  lemma SameHomes(t: Table, t': Table)
    requires WellFormed(t.tfa) && Wrote(t, t')
    ensures |t'.tfa.tf| == |t.tfa.tf| && forall w :: HomeOf(t', w) == HomeOf(t, w)
  {
  }

  lemma HeadStays(tfa: Tfa)
    requires WellFormed(tfa)
    ensures Committed(tfa).fileHead == tfa.fileHead
  {
  }

  /** The table once the files are as a data half needs them. */
  ghost function FilesReady(t: Table, n: nat, size: nat, luck: Luck): Table
    requires WellFormed(t.tfa)
  {
    if RotationFails(t, size, luck) then RotateFails(t) else
      var rotate := RotationNeeded(t, size);
      var t1 := if rotate then RotateFile(t) else t;
      t1.(indexFile := FileChosen(t1, n, rotate, luck.fileOk).indexFile)
  }

  lemma FileLinked(t: Table, w: World, n: nat, size: nat, luck: Luck, removed: bool)
    requires TableInv(t) && Linked(t, w.s) && AnyWorld(w)
    ensures WellFormed(t.tfa) && MayStep(w, FileStep(t, size, luck, removed))
    ensures Linked(FilesReady(t, n, size, luck), Follow(w, FileStep(t, size, luck, removed)).s)
  {
    hide TableInv, Linked, AnyWorld, Rotated, StepWorld;
    TableFacts(t);
    TableFile(t);
    SoundFact(w);
    hide Counts;
    if RotationFails(t, size, luck) {
      RotateLinked(t, RotateFails(t), w, FileKept);
    } else if RotationNeeded(t, size) {
      RotateLinked(t, FilesReady(t, n, size, luck), w, CreationOf(t, luck, removed));
    } else if t.indexFile.None? {
      CreateLinked(t, FilesReady(t, n, size, luck), w, CreationOf(t, luck, removed));
    }
  }

  lemma TableFile(t: Table)
    requires TableInv(t)
    ensures FileCurrent(t)
  {
  }

  lemma RotateLinked(t: Table, t': Table, w: World, c: Creation)
    requires WellFormed(t.tfa) && Linked(t, w.s) && Sound(w) && t.sizeLimit > 0
    requires t'.tfa == Rotated(t.tfa) && t'.generation == t.generation + 1 && t'.sizeLimit == t.sizeLimit
    requires t'.received == t.received && t'.written == t.written
    requires FilesFound(t) && t'.indexFile == Some(t'.generation) ==> c.FileCreated?
    ensures Linked(t', StepWorld(w, NewFile(c)).s)
  {
    if |t.tfa.tf| == 0 { RotateWithoutRing(t.tfa); }
    hide EntryOf, Rotated;
  }

  lemma CreateLinked(t: Table, t': Table, w: World, c: Creation)
    requires Linked(t, w.s) && Sound(w)
    requires t' == t.(indexFile := t'.indexFile) && (!FilesFound(t) ==> c.FileRemoved?)
    requires FilesFound(t) && t'.indexFile == Some(t'.generation) ==> c.FileCreated?
    ensures Linked(t', StepWorld(w, Recreate(c)).s)
  {
    hide EntryOf;
  }

  /** A data half changes the index file as `FilesReady` says, and then writes. */
  lemma ProcessWrote(t: Table, n: nat, size: nat, padding: nat, luck: Luck)
    requires TableInv(t)
    ensures WellFormed(t.tfa) && t.inFlight == |t.indexes|
    ensures var t1, t' := FilesReady(t, n, size, luck), Process(t, n, size, padding, luck).0;
            WellFormed(t1.tfa) && Wrote(t1, t') && t'.indexFile == t1.indexFile && t1.written == t.written
  {
    hide TableInv, Counts, Halved, Past, HandleData, Rotated, FileChosen, Stored, Wrote, FileCurrent;
    TableFacts(t);
    if RotationFails(t, size, luck) {
      NothingWrote(RotateFails(t));
    } else {
      var rotate := RotationNeeded(t, size);
      var t1 := if rotate then RotateFile(t) else t;
      ReadyToHandle(t, size, luck);
      HandleWrote(t1, n, rotate, luck.fileOk, luck.writeOk);
      HandleFile(t1, n, rotate, luck.fileOk, luck.writeOk);
      var (t2, outcome) := HandleData(t1, n, rotate, luck.fileOk, luck.writeOk);
      StoredWrites(t2, n, size, padding, luck.partial);
      WroteSame(t1, FilesReady(t, n, size, luck), t2, Process(t, n, size, padding, luck).0);
    }
  }

  lemma NothingWrote(t: Table)
    requires WellFormed(t.tfa)
    ensures Wrote(t, t)
  {
  }

  lemma HandleFile(t: Table, n: nat, rotate: bool, fileOk: bool, writeOk: bool)
    requires Counts(t)
    ensures HandleData(t, n, rotate, fileOk, writeOk).0.indexFile == FileChosen(t, n, rotate, fileOk).indexFile
  {
    HandleIs(t, n, rotate, fileOk, writeOk);
    var t2 := FileChosen(t, n, rotate, fileOk);
    hide HandleData, Complete, Drop, Counts;
    CompleteFrame(t2, n, writeOk);
    CompleteFrame(FileGiven(t2, n), n, writeOk);
  }

  lemma StoredWrites(t: Table, n: nat, size: nat, padding: nat, partial: Option<nat>)
    ensures var t' := Stored(t, n, size, padding, partial).0;
            && t'.written == t.written && t'.tfa == t.tfa && t'.received == t.received
            && t'.generation == t.generation && t'.sizeLimit == t.sizeLimit && t'.indexFile == t.indexFile
  {
  }

  lemma WroteSame(t: Table, t1: Table, u: Table, u1: Table)
    requires WellFormed(t.tfa) && Wrote(t, u)
    requires t1 == t.(indexFile := t1.indexFile)
    requires u1.written == u.written && u1.tfa == u.tfa && u1.received == u.received
    requires u1.generation == u.generation && u1.sizeLimit == u.sizeLimit
    ensures Wrote(t1, u1)
  {
    hide Committed;
  }

  // ---------------------------------------------------------------------
  // Every run
  // ---------------------------------------------------------------------

  /** No file is open that the viewer cannot find. */
  ghost predicate Unseen(d: Daemon) {
    !FilesFound(d.t) ==> d.w.v.file.Closed?
  }

  ghost predicate DaemonInv(d: Daemon) {
    TableInv(d.t) && Linked(d.t, d.w.s) && AnyWorld(d.w) && Unseen(d)
  }

  lemma TablePast(t: Table)
    requires TableInv(t)
    ensures Counts(t) && Halved(t.indexes) && Past(t.indexes, t.written, t.generation)
  {
  }

  lemma NextTableInv(t: Table, m: Input)
    requires TableInv(t)
    ensures WellFormed(t.tfa) && t.inFlight == |t.indexes| && TableInv(NextTable(t, m))
  {
    TableFacts(t);
    hide TableInv;
    match m
    case ControlHalf(n, info, writeOk) => ControlInv(t, n, info, writeOk);
    case DataHalf(n, size, padding, luck, _) => ProcessInv(t, n, size, padding, luck);
    case DropPartial => ClosePartialInv(t);
    case DropAll => CloseAllInv(t);
    case _ =>
  }

  /** What comes of a message other than a data half. */
  lemma OtherWrote(t: Table, m: Input)
    requires TableInv(t) && !m.DataHalf?
    ensures WellFormed(t.tfa) && t.inFlight == |t.indexes|
    ensures Wrote(t, NextTable(t, m)) && NextTable(t, m).indexFile == t.indexFile
  {
    TablePast(t);
    hide TableInv, Control, Committed;
    match m
    case ControlHalf(n, info, writeOk) =>
      ControlWrote(t, n, info, writeOk);
      ControlFrame(t, n, info, writeOk);
    case _ =>
  }

  /** The link, and the first of the two steps. */
  lemma FirstLinked(d: Daemon, m: Input) returns (t1: Table)
    requires DaemonInv(d)
    ensures WellFormed(d.t.tfa) && d.t.inFlight == |d.t.indexes|
    ensures MayStep(d.w, FirstEvent(d.t, m)) && WellFormed(t1.tfa) && t1.written == d.t.written
    ensures Linked(t1, Follow(d.w, FirstEvent(d.t, m)).s)
    ensures Wrote(t1, NextTable(d.t, m)) && NextTable(d.t, m).indexFile == t1.indexFile
    ensures FilesFound(t1) <==> FilesFound(d.t)
  {
    if m.DataHalf? {
      t1 := DataLinked(d, m);
    } else {
      OtherLinked(d, m);
      t1 := d.t;
    }
  }

  lemma DataLinked(d: Daemon, m: Input) returns (t1: Table)
    requires DaemonInv(d) && m.DataHalf?
    ensures WellFormed(d.t.tfa) && d.t.inFlight == |d.t.indexes|
    ensures MayStep(d.w, FirstEvent(d.t, m)) && WellFormed(t1.tfa) && t1.written == d.t.written
    ensures Linked(t1, Follow(d.w, FirstEvent(d.t, m)).s)
    ensures Wrote(t1, NextTable(d.t, m)) && NextTable(d.t, m).indexFile == t1.indexFile
    ensures FilesFound(t1) <==> FilesFound(d.t)
  {
    hide TableInv, Linked, AnyWorld, Process, Wrote, FileStep, FilesReady, StepWorld;
    TableFacts(d.t);
    hide Counts;
    t1 := FilesReady(d.t, m.n, m.size, m.luck);
    FileLinked(d.t, d.w, m.n, m.size, m.luck, m.removed);
    ProcessWrote(d.t, m.n, m.size, m.padding, m.luck);
    ReadyFound(d.t, m.n, m.size, m.luck);
  }

  lemma ReadyFound(t: Table, n: nat, size: nat, luck: Luck)
    requires WellFormed(t.tfa)
    ensures FilesFound(FilesReady(t, n, size, luck)) <==> FilesFound(t)
  {
    hide Rotated;
  }

  lemma OtherLinked(d: Daemon, m: Input)
    requires DaemonInv(d) && !m.DataHalf?
    ensures WellFormed(d.t.tfa) && d.t.inFlight == |d.t.indexes|
    ensures MayStep(d.w, FirstEvent(d.t, m)) && Linked(d.t, Follow(d.w, FirstEvent(d.t, m)).s)
    ensures Wrote(d.t, NextTable(d.t, m)) && NextTable(d.t, m).indexFile == d.t.indexFile
  {
    hide TableInv, Linked, RingInv, Wrote, NextTable, NextIndex, Attach;
    SoundFact(d.w);
    hide AnyWorld;
    OtherWrote(d.t, m);
  }

  /** No number of an index reaches the sentinel. */
  ghost predicate Bounded(d: Daemon) { d.w.s.log.total + 1 < NONE }

  lemma FollowAny(w: World, ev: Option<Event>)
    requires AnyWorld(w) && MayStep(w, ev) && w.s.log.total + 1 < NONE
    ensures AnyWorld(Follow(w, ev))
  {
    hide RingInv, StepWorld;
    if ev.Some? { AnyStep(w, ev.value); }
  }

  lemma SameTotal(w: World, ev: Option<Event>)
    requires MayStep(w, ev) && (ev.Some? ==> !ev.value.Produce?)
    ensures Follow(w, ev).s.log.total == w.s.log.total
  {
    hide NextIndex, Attach, Rotated;
  }

  /** Every message keeps the table, the ring, the files and the link between them. */
  lemma MessageInv(d: Daemon, m: Input)
    requires DaemonInv(d) && Bounded(d)
    ensures MayHandle(d, m) && DaemonInv(Handle(d, m)) && (FilesFound(Handle(d, m).t) <==> FilesFound(d.t))
  {
    var t1 := FirstLinked(d, m);
    NextTableInv(d.t, m);
    hide TableInv, Linked, AnyWorld, Wrote, NextTable, FirstEvent, StepWorld, FilesFound;
    var ev := FirstEvent(d.t, m);
    FirstIsNoWrite(d.t, m);
    FollowAny(d.w, ev);
    SameTotal(d.w, ev);
    SoundFact(Follow(d.w, ev));
    WriteLinked(t1, NextTable(d.t, m), Follow(d.w, ev));
    FollowAny(Follow(d.w, ev), WriteStep(d.t, NextTable(d.t, m)));
    StillUnseen(d, m, t1);
  }

  lemma StillUnseen(d: Daemon, m: Input, t1: Table)
    requires DaemonInv(d) && MayHandle(d, m) && WellFormed(t1.tfa) && Wrote(t1, NextTable(d.t, m))
    requires (FilesFound(t1) <==> FilesFound(d.t))
    ensures (FilesFound(NextTable(d.t, m)) <==> FilesFound(d.t)) && Unseen(Handle(d, m))
  {
    SameHomes(t1, NextTable(d.t, m));
    hide TableInv, AnyWorld, NextTable, Wrote;
    if !FilesFound(d.t) { NoFileOpens(d.w, FirstEvent(d.t, m)); }
  }

  /** Without names, no event opens a file. */
  lemma NoFileOpens(w: World, ev: Option<Event>)
    requires MayStep(w, ev) && w.v.file.Closed? && forall i | 0 <= i < |w.s.names| :: w.s.names[i].None?
    ensures Follow(w, ev).v.file.Closed?
  {
    hide SeqInFile, Rotate, Create, Commit, ReadEntry;
  }

  lemma SoundFact(w: World)
    requires AnyWorld(w)
    ensures Sound(w)
  {
  }

  lemma FirstIsNoWrite(t: Table, m: Input)
    ensures FirstEvent(t, m).Some? ==> !FirstEvent(t, m).value.Produce?
  {
  }

  ghost predicate IsDaemonRun(states: seq<Daemon>, messages: seq<Input>) {
    && |states| == |messages| + 1
    && forall i | 0 <= i < |messages| ::
         Bounded(states[i]) && MayHandle(states[i], messages[i]) && states[i + 1] == Handle(states[i], messages[i])
  }

  /** Every state of every run of the daemon from the creation of a stream. */
  lemma {:induction false} RunInv(count: nat, limit: nat, states: seq<Daemon>, messages: seq<Input>, k: nat)
    requires IsDaemonRun(states, messages) && states[0] == NewDaemon(count, limit) && k < |states|
    ensures DaemonInv(states[k])
  {
    hide DaemonInv, Bounded, MayHandle, Handle;
    if k == 0 {
      DaemonStart(count, limit);
    } else {
      RunInv(count, limit, states, messages, k - 1);
      MessageInv(states[k - 1], messages[k - 1]);
    }
  }

  lemma DaemonStart(count: nat, limit: nat)
    ensures DaemonInv(NewDaemon(count, limit))
  {
    NewTableInv(count, limit);
    NewLinked(count, limit);
    FirstAny(count);
    hide TableInv, Linked, AnyWorld;
  }

  // ---------------------------------------------------------------------
  // What the viewer is sent
  // ---------------------------------------------------------------------

  /** A rotation after which the name of the new file still leads to an old one. */
  predicate NameKept(t: Table, m: Input) {
    && m.DataHalf? && RotationNeeded(t, m.size)
    && (RotationFails(t, m.size, m.luck) || CreationOf(t, m.luck, m.removed).FileKept?)
  }

  ghost predicate ForwardDaemon(d: Daemon) {
    DaemonInv(d) && ForwardWorld(d.w)
  }

  lemma FollowForward(w: World, ev: Option<Event>)
    requires ForwardWorld(w) && MayStep(w, ev) && w.s.log.total + 1 < NONE && (ev.Some? ==> !KeepsName(ev.value))
    ensures ForwardWorld(Follow(w, ev))
  {
    hide ForwardWorld, StepWorld;
    if ev.Some? { ForwardStep(w, ev.value); }
  }

  lemma MessageForward(d: Daemon, m: Input)
    requires ForwardDaemon(d) && Bounded(d) && MayHandle(d, m) && !NameKept(d.t, m)
    ensures ForwardDaemon(Handle(d, m))
  {
    MessageInv(d, m);
    hide DaemonInv, ForwardWorld, StepWorld, NextTable;
    var ev := FirstEvent(d.t, m);
    FirstIsNoWrite(d.t, m);
    SameTotal(d.w, ev);
    FollowForward(d.w, ev);
    FollowForward(Follow(d.w, ev), WriteStep(d.t, NextTable(d.t, m)));
  }

  /** In every state of every run in which no name is kept. */
  lemma {:induction false} ForwardRunInv(count: nat, limit: nat, states: seq<Daemon>, messages: seq<Input>, k: nat)
    requires IsDaemonRun(states, messages) && states[0] == NewDaemon(count, limit) && k < |states|
    requires forall i | 0 <= i < k :: !NameKept(states[i].t, messages[i])
    ensures ForwardDaemon(states[k])
  {
    hide DaemonInv, ForwardWorld, Bounded, MayHandle, Handle, NameKept;
    if k == 0 {
      DaemonStart(count, limit);
      FirstForward(count);
    } else {
      ForwardRunInv(count, limit, states, messages, k - 1);
      MessageForward(states[k - 1], messages[k - 1]);
    }
  }

  /** What a request of the viewer is answered with, in terms of what the join wrote.  The
      file read was opened when index `from` was wanted.  The read fails exactly when fewer
      of the indexes written since then went to that file than were to be read from it.  The
      index sent is the one wanted, number `x`, or a later one, number `n`; it is the one
      wanted exactly when all since `from` went to that file.  The viewer gets the position
      of the packet from its data half, and every other field from its control half. */
  lemma ReplyIsWritten(d: Daemon, q: Query) returns (from: nat, n: nat)
    requires ForwardDaemon(d)
    ensures CursorInRing(d.w.s, d.w.v)
    ensures var (v', r) := NextIndex(d.w.s, d.w.v, q);
            r.Ok? || r.ReadError? ==>
              && v'.file.Open? && (r.Ok? ==> 0 < v'.sent)
              && var g, x, written := v'.file.gen, if r.Ok? then v'.sent - 1 else v'.sent, d.t.written;
              && from <= x < |written| && |d.w.s.homes| == |written|
              && (r.ReadError? <==> Rank(d.w.s.homes, g, |written|) - Rank(d.w.s.homes, g, from) <= x - from)
              && (r.Ok? ==> x <= n < |written| && written[n].file == g && r.entry.offset == written[n].offset)
              && (r.Ok? ==> var info := written[n].info;
                            && r.entry.packetSize == info.packetSize && r.entry.contentSize == info.contentSize
                            && r.entry.timestampBegin == info.timestampBegin
                            && r.entry.timestampEnd == info.timestampEnd
                            && r.entry.eventsDiscarded == info.eventsDiscarded && r.entry.streamId == info.streamId)
              && (r.Ok? ==> (n == x <==> forall i | from <= i <= x :: written[i].file == g))
  {
    hide TableInv, NextIndex, RingInv, CursorInv, NamesFresh, AllForward, Rank;
    SoundFact(d.w);
    from, n := RequestCursor(d.w.s, d.w.v, q);
    if FilesFound(d.t) {
      HomesAreFiles(d);
    } else {
      NothingFound(d, q, Beginning, true);
    }
  }

  /** Without the right names every request is answered with an error, once something was
      received, and no viewer can attach any more. */
  lemma NothingFound(d: Daemon, q: Query, seek: Seek, openOk: bool)
    requires DaemonInv(d) && !FilesFound(d.t)
    ensures CursorInRing(d.w.s, d.w.v) && NextIndex(d.w.s, d.w.v, q).1 == if d.t.received == 0 then Retry else OpenError
    ensures d.t.received > 0 ==> Attach(d.w.s, seek, openOk).None?
  {
    SoundFact(d.w);
    hide TableInv, AnyWorld, SeqInFile, RotateViewer, ReadEntry, TailMissing;
  }

  lemma HomesAreFiles(d: Daemon)
    requires DaemonInv(d) && FilesFound(d.t)
    ensures |d.w.s.homes| == |d.t.written|
    ensures forall i | 0 <= i < |d.t.written| :: d.w.s.homes[i] == d.t.written[i].file
  {
    TablePast(d.t);
    hide TableInv, AnyWorld, EntryOf;
  }

  /** Which file names a data half changes: only that of the newest slot, which leads to the
      new file exactly when its creation was attempted and did not fail, and never to
      another file than before otherwise. */
  lemma NamesAfter(d: Daemon, m: Input)
    requires MayHandle(d, m) && Linked(d.t, d.w.s) && m.DataHalf?
    ensures var s, s' := d.w.s, Handle(d, m).w.s;
            var attempted := !RotationFails(d.t, m.size, m.luck) && (RotationNeeded(d.t, m.size) || d.t.indexFile.None?);
            && |s'.names| == |s.names| && s'.t.fileHead < |s'.names|
            && (forall i | 0 <= i < |s.names| && i != s'.t.fileHead :: s'.names[i] == s.names[i])
            && (attempted && m.luck.fileOk && FilesFound(d.t) ==> s'.names[s'.t.fileHead] == Some(|s'.files| - 1))
            && (!attempted || !m.luck.fileOk || !FilesFound(d.t) ==>
                  s'.names[s'.t.fileHead].None? || s'.names[s'.t.fileHead] == s.names[s'.t.fileHead])
  {
    FirstNames(d.t, d.w, m);
    hide RotationFails, RotationNeeded, FilesFound, FirstEvent, NextTable, StepWorld, Linked;
    WriteKeepsNames(Follow(d.w, FirstEvent(d.t, m)), WriteStep(d.t, NextTable(d.t, m)));
  }

  lemma FirstNames(t: Table, w: World, m: Input)
    requires m.DataHalf? && MayStep(w, FirstEvent(t, m)) && w.s.t == t.tfa
    ensures var s, s' := w.s, Follow(w, FirstEvent(t, m)).s;
            var attempted := !RotationFails(t, m.size, m.luck) && (RotationNeeded(t, m.size) || t.indexFile.None?);
            && |s'.names| == |s.names| && s'.t.fileHead < |s'.names|
            && (forall i | 0 <= i < |s.names| && i != s'.t.fileHead :: s'.names[i] == s.names[i])
            && (attempted && m.luck.fileOk && FilesFound(t) ==> s'.names[s'.t.fileHead] == Some(|s'.files| - 1))
            && (!attempted || !m.luck.fileOk || !FilesFound(t) ==>
                  s'.names[s'.t.fileHead].None? || s'.names[s'.t.fileHead] == s.names[s'.t.fileHead])
  {
    hide RotationFails, Rotated;
  }

  lemma WriteKeepsNames(w: World, ev: Option<Event>)
    requires MayStep(w, ev) && (ev.Some? ==> ev.value.Produce?)
    ensures var s, s' := w.s, Follow(w, ev).s;
            s'.names == s.names && |s'.files| == |s.files| && s'.t.fileHead == s.t.fileHead
  {
    HeadStays(w.s.t);
    hide Committed;
  }
}
