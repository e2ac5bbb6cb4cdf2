/**
 What the data files of a stream hold, and when a new one is opened, in terms of the
 packets that were received (`relay_process_data` of `src/bin/lttng-relayd/main.c`).

 The daemon keeps a running size, a last sequence number and a table of half-received
 indexes.  Here they are tied to the history: the size is that of the packets stored whole
 in the open file, the number that of the last packet stored whole, and whether an index is
 in the table, and with which half, is the state of a small automaton over the halves.
 */
module RelayFiles {
  import opened Wrappers
  import opened TracefileArray
  import opened RelayIndex
  import opened RelayIndexLaws
  import RelayInactive

  // ---------------------------------------------------------------------
  // The files
  // ---------------------------------------------------------------------

  /** The bytes of the packets stored whole in file `g`, padding included. */
  ghost function WholeBytes(placed: seq<Placement>, g: nat): nat {
    if placed == [] then 0 else
      var p := placed[|placed| - 1];
      WholeBytes(placed[..|placed| - 1], g) + if p.file == g && p.whole then p.size else 0
  }

  /** All bytes in file `g`, those of packets that were cut short too. */
  ghost function FileBytes(placed: seq<Placement>, g: nat): nat {
    if placed == [] then 0 else
      var p := placed[|placed| - 1];
      FileBytes(placed[..|placed| - 1], g) + if p.file == g then p.size else 0
  }

  /** The number of the last packet stored whole, the sentinel if there is none. */
  ghost function LastWhole(placed: seq<Placement>): nat {
    if placed == [] then NONE else
      var p := placed[|placed| - 1];
      if p.whole then p.seqNum else LastWhole(placed[..|placed| - 1])
  }

  /** Packet `j` fits its file, or no packet was stored whole there before it. */
  ghost predicate Fits(placed: seq<Placement>, limit: nat, j: nat)
    requires j < |placed|
  {
    var before := WholeBytes(placed[..j], placed[j].file);
    limit == 0 || before == 0 || before + placed[j].data <= limit
  }

  /** The fields of the stream are what the packets say. */
  ghost predicate Filled(t: Table) {
    && t.sizeCurrent == WholeBytes(t.placed, t.dataFile) && t.sizeCurrent + t.stray == FileBytes(t.placed, t.dataFile)
    && t.prevSeq == LastWhole(t.placed) && (forall i | 0 <= i < |t.placed| :: t.placed[i].file <= t.dataFile)
    && (forall j | 0 <= j < |t.placed| :: Fits(t.placed, t.sizeLimit, j))
    && (forall i | 0 <= i < |t.placed| :: t.placed[i].whole ==> t.placed[i].data <= t.placed[i].size)
  }

  lemma NewFilled(count: nat, limit: nat)
    ensures Filled(NewTable(count, limit))
  {
  }

  lemma {:induction false} NothingThere(placed: seq<Placement>, g: nat)
    requires forall i | 0 <= i < |placed| :: placed[i].file != g
    ensures WholeBytes(placed, g) == FileBytes(placed, g) == 0
  {
    if placed == [] {
    } else {
      NothingThere(placed[..|placed| - 1], g);
    }
  }

  lemma FitsLater(placed: seq<Placement>, p: Placement, limit: nat, j: nat)
    requires j < |placed| && Fits(placed, limit, j)
    ensures Fits(placed + [p], limit, j)
  {
    assert (placed + [p])[..j] == placed[..j];
  }

  /** One more packet in the open file. */
  lemma OneMore(placed: seq<Placement>, p: Placement, limit: nat)
    requires forall j | 0 <= j < |placed| :: Fits(placed, limit, j)
    requires limit == 0 || WholeBytes(placed, p.file) == 0 || WholeBytes(placed, p.file) + p.data <= limit
    ensures WholeBytes(placed + [p], p.file) == WholeBytes(placed, p.file) + if p.whole then p.size else 0
    ensures FileBytes(placed + [p], p.file) == FileBytes(placed, p.file) + p.size
    ensures LastWhole(placed + [p]) == if p.whole then p.seqNum else LastWhole(placed)
    ensures forall j | 0 <= j < |placed + [p]| :: Fits(placed + [p], limit, j)
  {
    var placed' := placed + [p];
    assert placed'[..|placed|] == placed;
    forall j | 0 <= j < |placed'|
      ensures Fits(placed', limit, j)
    {
      if j < |placed| { FitsLater(placed, p, limit, j); }
    }
  }

  lemma SameFilled(t: Table, t': Table)
    requires Filled(t) && SameBytes(t, t') && t'.prevSeq == t.prevSeq
    ensures Filled(t')
  {
  }

  /** The open file is the current one, or none was opened for it. */
  lemma RotatedFilled(t: Table)
    requires TableInv(t) && Filled(t) && !Broken(t)
    ensures WellFormed(t.tfa) && Filled(RotateFile(t))
  {
    hide TableInv, Rotated, WholeBytes, FileBytes, LastWhole, Fits;
    TableFacts(t);
    NothingThere(t.placed, t.generation + 1);
    hide Counts;
  }

  lemma StoredFilled(t: Table, n: nat, size: nat, padding: nat, partial: Option<nat>)
    requires Filled(t) && (t.sizeLimit == 0 || t.sizeCurrent == 0 || t.sizeCurrent + size <= t.sizeLimit)
    ensures Filled(Stored(t, n, size, padding, partial).0) && Stored(t, n, size, padding, partial).0.sizeLimit == t.sizeLimit
  {
    hide WholeBytes, FileBytes, LastWhole, Fits;
    var p, t' := PlaceOf(t, n, size, padding, partial), Stored(t, n, size, padding, partial).0;
    if IsPlaced(t, size, padding, partial) {
      OneMore(t.placed, p, t.sizeLimit);
      assert t'.placed == t.placed + [p];
      hide Stored;
    }
  }

  lemma ControlFilled(t: Table, n: nat, info: Info, writeOk: bool)
    requires TableInv(t) && Filled(t)
    ensures WellFormed(t.tfa) && t.inFlight == |t.indexes|
    ensures var t' := Control(t, n, info, writeOk).0; Filled(t') && t'.sizeLimit == t.sizeLimit
  {
    TableFacts(t);
    ControlFrame(t, n, info, writeOk);
    hide TableInv, Control;
    SameFilled(t, Control(t, n, info, writeOk).0);
  }

  lemma ProcessFilled(t: Table, n: nat, size: nat, padding: nat, luck: Luck)
    requires TableInv(t) && Filled(t)
    ensures WellFormed(t.tfa) && t.inFlight == |t.indexes|
    ensures var t' := Process(t, n, size, padding, luck).0; Filled(t') && t'.sizeLimit == t.sizeLimit
  {
    hide TableInv, Filled, HandleData, Rotated, Stored, FileReady, Counts, Halved, Past;
    TableFacts(t);
    FilledFacts(t);
    if RotationFails(t, size, luck) {
      RefusedFilled(t);
    } else {
      var rotate := RotationNeeded(t, size);
      var t1 := if rotate then RotateFile(t) else t;
      if rotate { RotatedFilled(t); }
      ReadyToHandle(t, size, luck);
      HandleFrame(t1, n, rotate, luck.fileOk, luck.writeOk);
      var t2 := HandleData(t1, n, rotate, luck.fileOk, luck.writeOk).0;
      SameFilled(t1, t2);
      StoredFilled(t2, n, size, padding, luck.partial);
    }
  }

  lemma FilledFacts(t: Table)
    requires Filled(t)
    ensures t.sizeCurrent == WholeBytes(t.placed, t.dataFile) && t.sizeCurrent + t.stray == FileBytes(t.placed, t.dataFile)
    ensures t.prevSeq == LastWhole(t.placed)
  {
  }

  lemma RefusedFilled(t: Table)
    requires WellFormed(t.tfa) && Filled(t)
    ensures Filled(RotateFails(t))
  {
    hide Rotated;
  }

  // ---------------------------------------------------------------------
  // A packet arrives
  // ---------------------------------------------------------------------

  /** A packet is too large for what the open file has room for. */
  ghost predicate Overflows(t: Table, size: nat) {
    t.sizeLimit > 0 && WholeBytes(t.placed, t.dataFile) + size > t.sizeLimit
  }

  /** The packet is turned down: the next data file cannot be opened, there is no index
      file, its number has a packet already, or its index cannot be written. */
  ghost predicate TurnedDown(t: Table, n: nat, size: nat, luck: Luck) {
    || (Overflows(t, size) && (t.dataFile != t.generation || !luck.rotateOk))
    || ((Overflows(t, size) || t.indexFile.None?) && !luck.fileOk)
    || (n in t.indexes && (t.indexes[n].file.Some? || !luck.writeOk))
  }

  /** What a packet does.  The ring rotates, and the next data file is opened, exactly when
      the bytes stored whole in the open file and those of the packet exceed the limit.  The
      packet goes to the end of the open file; its index gives the bytes stored whole as its
      position. */
  lemma PacketStoredExactly(t: Table, n: nat, size: nat, padding: nat, luck: Luck)
    requires TableInv(t) && Filled(t)
    ensures WellFormed(t.tfa) && t.inFlight == |t.indexes|
    ensures var t' := Process(t, n, size, padding, luck).0;
            var opens := t.sizeLimit > 0 && WholeBytes(t.placed, t.dataFile) + size > t.sizeLimit;
            var noFile := t.dataFile != t.generation;
            && t'.generation == t.generation + (if opens then 1 else 0)
            && t'.dataFile == (if opens && !noFile && luck.rotateOk then t.dataFile + 1 else t.dataFile)
            && (|t.tfa.tf| > 0 ==>
                  t'.tfa.fileHead == if opens then (t.tfa.fileHead + 1) % |t.tfa.tf| else t.tfa.fileHead)
            && if TurnedDown(t, n, size, luck) || (noFile && (size + padding > 0 || luck.partial.Some?))
               then t'.placed == t.placed
               else
                 && |t'.placed| == |t.placed| + 1 && t'.placed[..|t.placed|] == t.placed
                 && var p := t'.placed[|t.placed|];
                 && p.seqNum == n && p.file == t'.dataFile && p.data == size && p.whole == luck.partial.None?
                 && p.size == (if luck.partial.None? then size + padding else luck.partial.value)
                 && p.at == FileBytes(t.placed, t'.dataFile) && p.offset == WholeBytes(t.placed, t'.dataFile)
  {
    hide TableInv, Filled, HandleData, Rotated, FileReady, Counts, Halved, Past, FileCurrent, Stored;
    TableFacts(t);
    FilledFacts(t);
    RotatedHead(t.tfa);
    HandleGeneration(t);
    if !RotationFails(t, size, luck) {
      var rotate := RotationNeeded(t, size);
      var t1 := if rotate then RotateFile(t) else t;
      ReadyToHandle(t, size, luck);
      if rotate {
        RotatedFilled(t);
        FilledFacts(t1);
      }
      HandlePlaced(t1, n, size, padding, rotate, luck);
    }
  }

  /** The same once the ring is rotated. */
  lemma HandlePlaced(t: Table, n: nat, size: nat, padding: nat, rotate: bool, luck: Luck)
    requires Counts(t) && Halved(t.indexes) && FileReady(t, rotate)
    ensures var (t1, outcome) := HandleData(t, n, rotate, luck.fileOk, luck.writeOk);
            var t' := if outcome.Done? then Stored(t1, n, size, padding, luck.partial).0 else t1;
            && t'.generation == t.generation && t'.dataFile == t.dataFile && t'.tfa.fileHead == t.tfa.fileHead
            && (outcome.Done? <==> && (luck.fileOk || !(rotate || t.indexFile.None?))
                                   && (n in t.indexes ==> t.indexes[n].file.None? && luck.writeOk))
            && t'.placed == if outcome.Done? && IsPlaced(t, size, padding, luck.partial)
                            then t.placed + [PlaceOf(t, n, size, padding, luck.partial)] else t.placed
  {
    hide HandleData, Counts, Halved, FileReady, FileCurrent;
    HandleFrame(t, n, rotate, luck.fileOk, luck.writeOk);
    HandleDone(t, n, rotate, luck.fileOk, luck.writeOk);
    HandleRing(t, n, rotate, luck.fileOk, luck.writeOk);
  }

  lemma HandleGeneration(t: Table)
    requires TableInv(t)
    ensures t.dataFile <= t.generation
  {
  }

  lemma RotatedHead(tfa: Tfa)
    requires WellFormed(tfa)
    ensures |tfa.tf| > 0 ==> Rotated(tfa).fileHead == (tfa.fileHead + 1) % |tfa.tf|
  {
  }

  /** Handling an index does not move the ring. */
  lemma HandleRing(t: Table, n: nat, rotate: bool, fileOk: bool, writeOk: bool)
    requires Counts(t) && Halved(t.indexes)
    ensures HandleData(t, n, rotate, fileOk, writeOk).0.tfa.fileHead == t.tfa.fileHead
  {
    HandleIs(t, n, rotate, fileOk, writeOk);
    OneReference(t, n);
    var t2 := FileChosen(t, n, rotate, fileOk);
    hide HandleData, Complete, Drop, Counts;
    DropIs(t2, n);
    CompleteIs(FileGiven(t2, n), n, writeOk);
  }

  lemma HandleDone(t: Table, n: nat, rotate: bool, fileOk: bool, writeOk: bool)
    requires Counts(t) && Halved(t.indexes)
    ensures HandleData(t, n, rotate, fileOk, writeOk).1.Done? <==>
            && (fileOk || !(rotate || t.indexFile.None?))
            && (n in t.indexes ==> t.indexes[n].file.None? && writeOk)
  {
    HandleIs(t, n, rotate, fileOk, writeOk);
    OneReference(t, n);
    var t2 := FileChosen(t, n, rotate, fileOk);
    hide HandleData, Complete, Drop, Counts, Committed;
    DropIs(t2, n);
    CompleteIs(FileGiven(t2, n), n, writeOk);
  }

  /** A file exceeds the limit by the padding of one packet, or holds one packet alone. */
  lemma FileBound(t: Table, j: nat)
    requires Filled(t) && j < |t.placed| && t.placed[j].whole && t.sizeLimit > 0
    ensures var p, size := t.placed[j], WholeBytes(t.placed[..j + 1], t.placed[j].file);
            size <= t.sizeLimit + (p.size - p.data) || size == p.size
  {
    assert t.placed[..j + 1][..j] == t.placed[..j] && t.placed[..j + 1][j] == t.placed[j];
    assert Fits(t.placed, t.sizeLimit, j);
  }

  // ---------------------------------------------------------------------
  // Which halves are awaited
  // ---------------------------------------------------------------------

  /** An index is not there, or has one half. */
  datatype Phase = Absent | AwaitsData | AwaitsDescription

  function PhaseOf(t: Table, n: nat): Phase {
    if n !in t.indexes then Absent else if t.indexes[n].info.Some? then AwaitsData else AwaitsDescription
  }

  /** A description: the first of an index is kept, any other ends it. */
  function AfterDescription(phase: Phase): Phase {
    if phase.Absent? then AwaitsData else Absent
  }

  lemma ControlPhase(t: Table, n: nat, info: Info, writeOk: bool, m: nat)
    requires TableInv(t)
    ensures WellFormed(t.tfa) && t.inFlight == |t.indexes|
    ensures PhaseOf(Control(t, n, info, writeOk).0, m) ==
            if m == n && info.packetSize != 0 then AfterDescription(PhaseOf(t, n)) else PhaseOf(t, m)
  {
    hide Control, TableInv;
    TableFacts(t);
    if info.packetSize != 0 {
      DescribedIndexes(t, n, info, writeOk);
    } else {
      BeaconIndexes(t, n, info, writeOk);
    }
  }

  lemma BeaconIndexes(t: Table, n: nat, info: Info, writeOk: bool)
    requires WellFormed(t.tfa) && t.inFlight == |t.indexes| && info.packetSize == 0
    ensures Control(t, n, info, writeOk).0.indexes == t.indexes
  {
  }

  lemma DescribedIndexes(t: Table, n: nat, info: Info, writeOk: bool)
    requires TableInv(t) && info.packetSize != 0
    ensures WellFormed(t.tfa) && t.inFlight == |t.indexes|
    ensures Control(t, n, info, writeOk).0.indexes ==
            if n in t.indexes then t.indexes - {n} else t.indexes[n := NEW_INDEX.(info := Some(info))]
  {
    hide Control, Complete, Drop, Committed, WellFormed, TableInv;
    IndexReady(t, n);
    ControlIs(t, n, info, writeOk);
    var t1 := GetOrCreate(t.(beacon := NONE), n);
    if t1.indexes[n].info.Some? {
      DropIs(t1, n);
    } else {
      CompleteIs(Described(t1, n, info), n, writeOk);
      assert Described(t1, n, info).indexes - {n} == t1.indexes - {n};
    }
  }

  lemma IndexReady(t: Table, n: nat)
    requires TableInv(t)
    ensures WellFormed(t.tfa) && t.inFlight == |t.indexes|
    ensures var t1 := GetOrCreate(t.(beacon := NONE), n);
            && t1.inFlight > 0 && t1.indexes[n].ref == 1 && WellFormed(t1.tfa)
            && (t1.indexes[n].file.None? || t1.indexes[n].info.None?)
            && (n in t.indexes ==> t1.indexes[n].file.Some? || t1.indexes[n].info.Some?)
  {
    hide Located, Sequential, OffsetsExact, Quiet, Past, BeaconFresh, FileCurrent, WellFormed;
    TableFacts(t);
    var t0 := t.(beacon := NONE);
    CreateCounts(t0, n, NEW_INDEX);
    OneReference(t0, n);
  }

  function Described(t: Table, n: nat, info: Info): Table
    requires n in t.indexes
  {
    t.(indexes := t.indexes[n := t.indexes[n].(info := Some(info))])
  }

  lemma ControlIs(t: Table, n: nat, info: Info, writeOk: bool)
    requires WellFormed(t.tfa) && t.inFlight == |t.indexes| && info.packetSize != 0
    requires var t1 := GetOrCreate(t.(beacon := NONE), n); t1.inFlight > 0
    ensures var t1 := GetOrCreate(t.(beacon := NONE), n);
            Control(t, n, info, writeOk) ==
            if t1.indexes[n].info.Some? then Drop(t1, n) else Complete(Described(t1, n, info), n, writeOk)
  {
    hide Complete, Drop;
  }

  /** A packet: the first of an index is kept if there is an index file, any other ends it. */
  function AfterPacket(phase: Phase, hasFile: bool): Phase {
    if phase.Absent? && hasFile then AwaitsDescription else Absent
  }

  lemma ProcessPhase(t: Table, n: nat, size: nat, padding: nat, luck: Luck, m: nat)
    requires TableInv(t) && Filled(t)
    ensures WellFormed(t.tfa) && t.inFlight == |t.indexes|
    ensures var failed := Overflows(t, size) && (t.dataFile != t.generation || !luck.rotateOk);
            var hasFile := luck.fileOk || (!Overflows(t, size) && t.indexFile.Some?);
            PhaseOf(Process(t, n, size, padding, luck).0, m) ==
            if m == n && !failed then AfterPacket(PhaseOf(t, n), hasFile) else PhaseOf(t, m)
  {
    hide TableInv, Filled, HandleData, Rotated, FileReady, Counts, Halved, Past, FileCurrent, WholeBytes;
    TableFacts(t);
    FilledFacts(t);
    if !RotationFails(t, size, luck) {
      var rotate := RotationNeeded(t, size);
      var t1 := if rotate then RotateFile(t) else t;
      ReadyToHandle(t, size, luck);
      HandlePhase(t1, n, rotate, luck.fileOk, luck.writeOk, m);
    }
  }

  lemma HandlePhase(t: Table, n: nat, rotate: bool, fileOk: bool, writeOk: bool, m: nat)
    requires Counts(t) && Halved(t.indexes)
    ensures var hasFile := fileOk || (!rotate && t.indexFile.Some?);
            PhaseOf(HandleData(t, n, rotate, fileOk, writeOk).0, m) ==
            if m == n then AfterPacket(PhaseOf(t, n), hasFile) else PhaseOf(t, m)
  {
    HandleIs(t, n, rotate, fileOk, writeOk);
    OneReference(t, n);
    var t2 := FileChosen(t, n, rotate, fileOk);
    hide HandleData, Complete, Drop, Counts, Committed;
    DropIs(t2, n);
    CompleteIs(FileGiven(t2, n), n, writeOk);
  }

  /** Closing without an announced end gives up the indexes that await their description. */
  lemma ClosePartialPhase(t: Table, m: nat)
    requires TableInv(t)
    ensures PhaseOf(ClosePartial(t), m) == if PhaseOf(t, m).AwaitsDescription? then Absent else PhaseOf(t, m)
  {
    hide Counts, Quiet, BeaconFresh, Located, Sequential, OffsetsExact, FileCurrent, Past;
  }

  // ---------------------------------------------------------------------
  // Every run
  // ---------------------------------------------------------------------

  lemma NextFilled(t: Table, m: RelayInactive.Message)
    requires TableInv(t) && Filled(t)
    ensures WellFormed(t.tfa) && t.inFlight == |t.indexes|
    ensures var t' := RelayInactive.NextTable(t, m); Filled(t') && t'.sizeLimit == t.sizeLimit
  {
    TableFacts(t);
    hide TableInv, Filled, Control, Process;
    match m
    case ControlHalf(n, info, writeOk) => ControlFilled(t, n, info, writeOk);
    case DataHalf(n, size, padding, luck) => ProcessFilled(t, n, size, padding, luck);
    case _ => SameFilled(t, RelayInactive.NextTable(t, m));
  }

  /** In every state of every run of the daemon. */
  lemma {:induction false} FilledInEveryRun(count: nat, limit: nat, states: seq<RelayInactive.State>,
                                            messages: seq<RelayInactive.Message>, k: nat)
    requires RelayInactive.IsRun(states, messages) && k < |states| && RelayInactive.Begins(states[0], count, limit)
    ensures TableInv(states[k].t) && Filled(states[k].t) && states[k].t.sizeLimit == limit
  {
    hide TableInv, Filled, RelayInactive.NextTable;
    RelayInactive.RunInv(count, limit, states, messages, k);
    if k == 0 {
      NewFilled(count, limit);
    } else {
      FilledInEveryRun(count, limit, states, messages, k - 1);
      NextFilled(states[k - 1].t, messages[k - 1]);
      assert RelayInactive.Step(states[k - 1], messages[k - 1], states[k]);
    }
  }

  /** In every run, a packet makes the ring rotate exactly when it does not fit with what
      was stored whole in the open file; and it never shares a file that it does not fit. */
  lemma RotatesExactly(count: nat, limit: nat, states: seq<RelayInactive.State>, messages: seq<RelayInactive.Message>, k: nat)
    requires RelayInactive.IsRun(states, messages) && k < |messages| && RelayInactive.Begins(states[0], count, limit)
    requires messages[k].DataHalf?
    ensures var t, t', size := states[k].t, states[k + 1].t, messages[k].size;
            && (t'.generation == t.generation + 1 <==> limit > 0 && WholeBytes(t.placed, t.dataFile) + size > limit)
            && (t'.generation == t.generation <==> limit == 0 || WholeBytes(t.placed, t.dataFile) + size <= limit)
            && forall j | 0 <= j < |t'.placed| ::
                 var before := WholeBytes(t'.placed[..j], t'.placed[j].file);
                 limit == 0 || before == 0 || before + t'.placed[j].data <= limit
  {
    FilledInEveryRun(count, limit, states, messages, k);
    FilledInEveryRun(count, limit, states, messages, k + 1);
    assert RelayInactive.Step(states[k], messages[k], states[k + 1]);
    var m := messages[k];
    PacketStoredExactly(states[k].t, m.n, m.size, m.padding, m.luck);
    FittedFact(states[k + 1].t);
    hide TableInv, Filled, Process, WholeBytes;
  }

  lemma FittedFact(t: Table)
    requires Filled(t)
    ensures forall j | 0 <= j < |t.placed| ::
              var before := WholeBytes(t.placed[..j], t.placed[j].file);
              t.sizeLimit == 0 || before == 0 || before + t.placed[j].data <= t.sizeLimit
  {
    forall j | 0 <= j < |t.placed|
      ensures var before := WholeBytes(t.placed[..j], t.placed[j].file);
              t.sizeLimit == 0 || before == 0 || before + t.placed[j].data <= t.sizeLimit
    {
      assert Fits(t.placed, t.sizeLimit, j);
    }
  }
}
