/**
 What every step of the index join keeps, and what a whole run writes.
 */
module RelayIndexLaws {
  import opened Wrappers
  import opened TracefileArray
  import opened RelayIndex

  // ---------------------------------------------------------------------
  // Invariants of every run
  // ---------------------------------------------------------------------

  /** The counters count, every index in flight holds a reference on the stream, and the
      tracefile array was told of every index written. */
  ghost predicate Counts(t: Table) {
    && WellFormed(t.tfa) && t.inFlight == |t.indexes| && t.received == |t.written| && t.gets == t.puts + |t.indexes|
    && (t.received < NONE ==> t.tfa.seqHead == if t.received == 0 then NONE else t.received - 1)
  }

  /** Every index in flight has exactly one half, and one reference. */
  ghost predicate Halved(indexes: map<nat, Index>) {
    forall n | n in indexes :: indexes[n].file.Some? != indexes[n].info.Some? && indexes[n].ref == 1
  }

  /** While a control half waits, no beacon stands. */
  ghost predicate Quiet(indexes: map<nat, Index>, beacon: nat) {
    forall n | n in indexes :: indexes[n].info.Some? ==> beacon == NONE
  }

  /** A beacon that a viewer may see was accepted with nothing in flight and as many
      indexes written as now. */
  ghost predicate BeaconFresh(t: Table) {
    t.received > 0 && t.beacon != NONE ==> t.accepted == Some(Beacon(t.beacon, t.received, 0))
  }

  /** Packet `n` is there, or was lost for want of a data file. */
  ghost predicate HasPlace(placed: seq<Placement>, lost: set<nat>, n: nat, file: nat, offset: nat) {
    n in lost ||
    exists i | 0 <= i < |placed| :: placed[i].seqNum == n && placed[i].file == file && placed[i].offset == offset
  }

  /** Indexes, in flight and written, point at the bytes of their packet. */
  ghost predicate Located(indexes: map<nat, Index>, written: seq<Write>, placed: seq<Placement>, lost: set<nat>) {
    && (forall n | n in indexes && indexes[n].file.Some? ::
          HasPlace(placed, lost, n, indexes[n].file.value, indexes[n].offset))
    && (forall i | 0 <= i < |written| ::
          HasPlace(placed, lost, written[i].seqNum, written[i].file, written[i].offset))
  }

  /** Packets follow each other in their files without overlap. */
  ghost predicate Sequential(placed: seq<Placement>, generation: nat, size: nat) {
    && (forall i, j | 0 <= i < j < |placed| :: placed[i].file < placed[j].file ||
          (placed[i].file == placed[j].file && placed[i].at + placed[i].size <= placed[j].at))
    && (forall i | 0 <= i < |placed| :: placed[i].file < generation ||
          (placed[i].file == generation && placed[i].at + placed[i].size <= size))
  }

  /** Placement `i` is not one of file `g` that was cut short. */
  ghost predicate NotCut(p: Placement, g: nat) {
    p.file == g ==> p.whole || p.size == 0
  }

  /** The offset of an index is the position of its packet exactly when no packet before
      it in the same file was cut short. */
  ghost predicate OffsetsExact(placed: seq<Placement>, generation: nat, stray: nat) {
    && (forall j | 0 <= j < |placed| ::
          placed[j].at == placed[j].offset <==> forall i | 0 <= i < j :: NotCut(placed[i], placed[j].file))
    && (stray == 0 <==> forall i | 0 <= i < |placed| :: NotCut(placed[i], generation))
  }

  /** The index file is the current one, unless a data file could not be opened; only then
      are packets lost. */
  ghost predicate FileCurrent(t: Table) {
    && t.dataFile <= t.generation && (t.lost != {} ==> Broken(t))
    && (t.indexFile.Some? ==> t.indexFile.value <= t.generation && (!Broken(t) ==> t.indexFile.value == t.generation))
  }

  /** No index has a file that is not open yet. */
  ghost predicate Past(indexes: map<nat, Index>, written: seq<Write>, generation: nat) {
    && (forall n | n in indexes && indexes[n].file.Some? :: indexes[n].file.value <= generation)
    && (forall i | 0 <= i < |written| :: written[i].file <= generation)
  }

  ghost predicate TableInv(t: Table) {
    && Counts(t) && Halved(t.indexes) && Quiet(t.indexes, t.beacon) && BeaconFresh(t)
    && Located(t.indexes, t.written, t.placed, t.lost) && Sequential(t.placed, t.dataFile, t.sizeCurrent + t.stray)
    && OffsetsExact(t.placed, t.dataFile, t.stray) && FileCurrent(t) && Past(t.indexes, t.written, t.generation)
  }

  lemma NewTableInv(count: nat, limit: nat)
    ensures TableInv(NewTable(count, limit))
  {
  }

  lemma TableFacts(t: Table)
    requires TableInv(t)
    ensures WellFormed(t.tfa) && t.inFlight == |t.indexes| && Counts(t)
  {
  }

  lemma PutCounts(t: Table, n: nat)
    requires Counts(t) && n in t.indexes
    ensures t.inFlight > 0 && Counts(Removed(t, n))
  {
    RemoveKey(t.indexes, n);
  }

  lemma CreateCounts(t: Table, n: nat, index: Index)
    requires Counts(t)
    ensures Counts(GetOrCreate(t, n)) && Counts(GetOrCreate(t, n).(indexes := GetOrCreate(t, n).indexes[n := index]))
  {
    SetEntry(t.indexes, n, NEW_INDEX);
    SetEntry(GetOrCreate(t, n).indexes, n, index);
  }

  /** Putting the one reference of an index removes it. */
  lemma DropIs(t: Table, n: nat)
    requires n in t.indexes && t.inFlight > 0 && t.indexes[n].ref == 1
    ensures Drop(t, n) == (Removed(t, n), Refused)
  {
  }

  /** What completing does to an index with one reference. */
  lemma CompleteIs(t: Table, n: nat, writeOk: bool)
    requires n in t.indexes && t.inFlight > 0 && t.indexes[n].ref == 1 && WellFormed(t.tfa)
    ensures var index := t.indexes[n];
            Complete(t, n, writeOk) ==
            if index.info.None? || index.file.None? then (t, Done)
            else if !writeOk then (Removed(t, n), AssertionFailed)
            else (Removed(t, n).(tfa := Committed(t.tfa), received := t.received + 1,
                    written := t.written + [Write(n, index.file.value, index.offset, index.info.value)]), Done)
  {
    hide Committed;
  }

  /** Flushing an index that has both halves or one. */
  lemma FlushKeeps(t: Table, n: nat, writeOk: bool)
    requires Counts(t) && n in t.indexes && Halved(t.indexes - {n})
    requires (t.indexes[n].file.Some? || t.indexes[n].info.Some?) && t.indexes[n].ref == 1
    requires Quiet(t.indexes, t.beacon) && BeaconFresh(t)
    ensures t.inFlight > 0
    ensures var t' := Complete(t, n, writeOk).0;
            Counts(t') && Halved(t'.indexes) && Quiet(t'.indexes, t'.beacon) && BeaconFresh(t')
  {
    hide Committed;
    PutCounts(t, n);
    CommitSeqHead(t.tfa);
    CompleteIs(t, n, writeOk);
    hide Complete;
    var t' := Complete(t, n, writeOk).0;
    forall m | m in t'.indexes
      ensures t'.indexes[m].file.Some? != t'.indexes[m].info.Some? && t'.indexes[m].ref == 1
    {
      if m != n { assert m in t.indexes - {n}; }
    }
  }

  /** The fields that the fate of an index does not touch. */
  ghost predicate SameFile(t: Table, t': Table) {
    && t'.placed == t.placed && t'.lost == t.lost && t'.generation == t.generation && t'.dataFile == t.dataFile
    && t'.sizeCurrent == t.sizeCurrent && t'.stray == t.stray && t'.indexFile == t.indexFile
    && t'.prevSeq == t.prevSeq && t'.sizeLimit == t.sizeLimit
  }

  lemma CompleteFrame(t: Table, n: nat, writeOk: bool)
    requires n in t.indexes && t.inFlight > 0 && WellFormed(t.tfa)
    ensures SameFile(t, Complete(t, n, writeOk).0) && SameFile(t, Drop(t, n).0)
  {
    hide Committed;
  }

  lemma CommitSeqHead(tfa: Tfa)
    requires WellFormed(tfa)
    ensures Committed(tfa).seqHead == Increment(tfa.seqHead)
  {
  }

  /** Flushing moves an index from the table to the output. */
  lemma FlushLocated(t: Table, n: nat, writeOk: bool, placed: seq<Placement>, lost: set<nat>)
    requires n in t.indexes && t.inFlight > 0 && WellFormed(t.tfa) && t.indexes[n].ref == 1
    requires Located(t.indexes, t.written, placed, lost) && Past(t.indexes, t.written, t.generation)
    ensures var t' := Complete(t, n, writeOk).0;
            Located(t'.indexes, t'.written, placed, lost) && Past(t'.indexes, t'.written, t.generation)
  {
    CompleteIs(t, n, writeOk);
    hide HasPlace, Committed, Complete;
  }

  lemma RotateSeqHead(tfa: Tfa)
    requires WellFormed(tfa)
    ensures Rotated(tfa).seqHead == tfa.seqHead
  {
  }

  // ---------------------------------------------------------------------
  // The control half
  // ---------------------------------------------------------------------

  lemma ControlInv(t: Table, n: nat, info: Info, writeOk: bool)
    requires TableInv(t)
    ensures TableInv(Control(t, n, info, writeOk).0)
  {
    hide Located, Sequential, OffsetsExact;
    if info.packetSize != 0 {
      ControlCounts(t, n, info, writeOk);
      ControlLocated(t, n, info, writeOk);
      ControlFrame(t, n, info, writeOk);
      hide Control, Counts, Halved, Quiet;
    }
  }

  lemma ControlCounts(t: Table, n: nat, info: Info, writeOk: bool)
    requires Counts(t) && Halved(t.indexes) && Quiet(t.indexes, t.beacon) && BeaconFresh(t) && info.packetSize != 0
    ensures var t' := Control(t, n, info, writeOk).0;
            Counts(t') && Halved(t'.indexes) && Quiet(t'.indexes, t'.beacon) && BeaconFresh(t')
  {
    hide Committed;
    var t1 := GetOrCreate(t.(beacon := NONE), n);
    var index := t1.indexes[n].(info := Some(info));
    CreateCounts(t.(beacon := NONE), n, index);
    if t1.indexes[n].info.Some? {
      PutCounts(t1, n);
      DropIs(t1, n);
    } else {
      var t2 := t1.(indexes := t1.indexes[n := index]);
      assert t2.indexes - {n} == t.indexes - {n};
      FlushKeeps(t2, n, writeOk);
    }
  }

  lemma ControlLocated(t: Table, n: nat, info: Info, writeOk: bool)
    requires Counts(t) && Halved(t.indexes) && info.packetSize != 0
    requires Located(t.indexes, t.written, t.placed, t.lost) && Past(t.indexes, t.written, t.generation)
    ensures var t' := Control(t, n, info, writeOk).0;
            Located(t'.indexes, t'.written, t.placed, t.lost) && Past(t'.indexes, t'.written, t.generation)
  {
    hide HasPlace, Committed;
    var t1 := GetOrCreate(t.(beacon := NONE), n);
    var index := t1.indexes[n].(info := Some(info));
    CreateCounts(t.(beacon := NONE), n, index);
    if t1.indexes[n].info.Some? {
      DropIs(t1, n);
    } else {
      FlushLocated(t1.(indexes := t1.indexes[n := index]), n, writeOk, t.placed, t.lost);
    }
  }

  lemma ControlFrame(t: Table, n: nat, info: Info, writeOk: bool)
    requires Counts(t)
    ensures SameFile(t, Control(t, n, info, writeOk).0)
  {
    hide Complete, Drop;
    if info.packetSize != 0 {
      var t1 := GetOrCreate(t.(beacon := NONE), n);
      var index := t1.indexes[n].(info := Some(info));
      CreateCounts(t.(beacon := NONE), n, index);
      CompleteFrame(t1, n, writeOk);
      CompleteFrame(t1.(indexes := t1.indexes[n := index]), n, writeOk);
    }
  }

  // ---------------------------------------------------------------------
  // The data half
  // ---------------------------------------------------------------------

  lemma ProcessInv(t: Table, n: nat, size: nat, padding: nat, luck: Luck)
    requires TableInv(t)
    ensures TableInv(Process(t, n, size, padding, luck).0)
  {
    hide Halved, Quiet, Located, Sequential, OffsetsExact, Past, HandleData, Rotated, Stored;
    RotateSeqHead(t.tfa);
    PastLater(t.indexes, t.written, t.generation);
    if !RotationFails(t, size, luck) {
      var rotate := RotationNeeded(t, size);
      NextFileSequential(t.placed, t.dataFile, t.sizeCurrent + t.stray, t.stray);
      DataInv(if rotate then RotateFile(t) else t, n, size, padding, rotate, luck);
    }
  }

  lemma PastLater(indexes: map<nat, Index>, written: seq<Write>, generation: nat)
    requires Past(indexes, written, generation)
    ensures Past(indexes, written, generation + 1)
  {
  }

  /** The index file that a data half will use. */
  function FileUsed(t: Table, rotate: bool): nat {
    if rotate || t.indexFile.None? then t.generation else t.indexFile.value
  }

  /** After a rotation, the index file is still to be created. */
  ghost predicate FileReady(t: Table, rotate: bool) {
    FileCurrent(if rotate then t.(indexFile := None) else t) && (rotate ==> !Broken(t))
  }

  /** Where the bytes of packet `n` go, if there is a file. */
  function PlaceOf(t: Table, n: nat, size: nat, padding: nat, partial: Option<nat>): Placement {
    Placement(n, t.dataFile, t.sizeCurrent, t.sizeCurrent + t.stray,
              if partial.None? then size + padding else partial.value, partial.None?, size)
  }

  /** Whether they go anywhere: with no file open, only a packet without bytes is stored. */
  predicate IsPlaced(t: Table, size: nat, padding: nat, partial: Option<nat>) {
    !Broken(t) || (size + padding == 0 && partial.None?)
  }

  /** A data half once the ring is rotated: the index, then the bytes. */
  lemma DataInv(t: Table, n: nat, size: nat, padding: nat, rotate: bool, luck: Luck)
    requires Counts(t) && Halved(t.indexes) && Quiet(t.indexes, t.beacon) && BeaconFresh(t) && FileReady(t, rotate)
    requires Located(t.indexes, t.written, t.placed, t.lost) && Past(t.indexes, t.written, t.generation)
    requires Sequential(t.placed, t.dataFile, t.sizeCurrent + t.stray) && OffsetsExact(t.placed, t.dataFile, t.stray)
    ensures var (t', outcome) := HandleData(t, n, rotate, luck.fileOk, luck.writeOk);
            TableInv(if outcome.Done? then Stored(t', n, size, padding, luck.partial).0 else t')
  {
    hide Halved, Quiet, BeaconFresh, Located, Sequential, OffsetsExact, Past, HandleData, FileCurrent, Stored;
    var p := PlaceOf(t, n, size, padding, luck.partial);
    var placed := if IsPlaced(t, size, padding, luck.partial) then t.placed + [p] else t.placed;
    var lost := if Broken(t) then t.lost + {n} else t.lost;
    PlaceMore(t, n, rotate, p, IsPlaced(t, size, padding, luck.partial));
    HandleCounts(t, n, rotate, luck.fileOk, luck.writeOk);
    HandleFrame(t, n, rotate, luck.fileOk, luck.writeOk);
    HandleLocated(t, n, rotate, luck.fileOk, luck.writeOk, placed, lost);
    var (t', outcome) := HandleData(t, n, rotate, luck.fileOk, luck.writeOk);
    if outcome.Done? {
      StoredInv(t', n, size, padding, luck.partial);
    }
  }

  /** Storing the bytes of a packet to which its index points already. */
  lemma StoredInv(t: Table, n: nat, size: nat, padding: nat, partial: Option<nat>)
    requires Counts(t) && Halved(t.indexes) && Quiet(t.indexes, t.beacon) && BeaconFresh(t) && FileCurrent(t)
    requires Located(t.indexes, t.written, if IsPlaced(t, size, padding, partial)
                                           then t.placed + [PlaceOf(t, n, size, padding, partial)] else t.placed,
                     if Broken(t) then t.lost + {n} else t.lost)
    requires Sequential(t.placed, t.dataFile, t.sizeCurrent + t.stray) && OffsetsExact(t.placed, t.dataFile, t.stray)
    requires Past(t.indexes, t.written, t.generation)
    ensures TableInv(Stored(t, n, size, padding, partial).0)
  {
    hide Halved, Quiet, Located, Sequential, OffsetsExact, Past;
    var p := PlaceOf(t, n, size, padding, partial);
    AppendSequential(t.placed, t.dataFile, t.sizeCurrent + t.stray, p);
    AppendOffsets(t.placed, t.dataFile, t.stray, p);
  }

  /** The packet finds its place, or is lost. */
  lemma PlaceMore(t: Table, n: nat, rotate: bool, p: Placement, isPlaced: bool)
    requires Located(t.indexes, t.written, t.placed, t.lost) && FileReady(t, rotate) && (isPlaced || Broken(t))
    requires p.seqNum == n && p.file == t.dataFile && p.offset == t.sizeCurrent
    ensures var placed, lost := if isPlaced then t.placed + [p] else t.placed, if Broken(t) then t.lost + {n} else t.lost;
            && Located(t.indexes, t.written, placed, lost)
            && HasPlace(placed, lost, n, FileUsed(t, rotate), t.sizeCurrent) && FileUsed(t, rotate) <= t.generation
  {
    LocatedAppend(t.indexes, t.written, t.placed, t.lost, p);
    LocatedAppend(t.indexes, t.written, t.placed + [p], t.lost, p);
    hide HasPlace, Located;
    if Broken(t) { IsLost(t.placed, t.lost + {n}, n, FileUsed(t, rotate), t.sizeCurrent); }
    if Broken(t) { IsLost(t.placed + [p], t.lost + {n}, n, FileUsed(t, rotate), t.sizeCurrent); }
  }

  lemma IsLost(placed: seq<Placement>, lost: set<nat>, n: nat, file: nat, offset: nat)
    requires n in lost
    ensures HasPlace(placed, lost, n, file, offset)
  {
  }

  lemma NextFileSequential(placed: seq<Placement>, generation: nat, size: nat, stray: nat)
    requires Sequential(placed, generation, size) && OffsetsExact(placed, generation, stray)
    ensures Sequential(placed, generation + 1, 0) && OffsetsExact(placed, generation + 1, 0)
  {
    assert forall i | 0 <= i < |placed| :: NotCut(placed[i], generation + 1);
  }

  lemma AppendSequential(placed: seq<Placement>, generation: nat, size: nat, p: Placement)
    requires Sequential(placed, generation, size) && p.file == generation && p.at == size
    ensures Sequential(placed + [p], generation, size + p.size)
  {
  }

  lemma AppendOffsets(placed: seq<Placement>, generation: nat, stray: nat, p: Placement)
    requires OffsetsExact(placed, generation, stray) && p.file == generation && p.at == p.offset + stray
    ensures OffsetsExact(placed + [p], generation, if p.whole then stray else stray + p.size)
  {
    var placed' := placed + [p];
    assert placed'[|placed|] == p;
    forall j | 0 <= j < |placed'|
      ensures placed'[j].at == placed'[j].offset <==> forall i | 0 <= i < j :: NotCut(placed'[i], placed'[j].file)
    {
      assert forall i | 0 <= i < j :: placed'[i] == placed[i];
      if j == |placed| {
        assert (forall i | 0 <= i < j :: NotCut(placed'[i], generation)) <==>
               forall i | 0 <= i < |placed| :: NotCut(placed[i], generation);
      }
    }
    if forall i | 0 <= i < |placed| :: NotCut(placed[i], generation) {
      assert NotCut(p, generation) <==> p.whole || p.size == 0;
      forall i | 0 <= i < |placed'| && NotCut(p, generation)
        ensures NotCut(placed'[i], generation)
      {
      }
    } else {
      var i :| 0 <= i < |placed| && !NotCut(placed[i], generation);
      assert !NotCut(placed'[i], generation);
    }
  }

  lemma HandleCounts(t: Table, n: nat, rotate: bool, fileOk: bool, writeOk: bool)
    requires Counts(t) && Halved(t.indexes) && Quiet(t.indexes, t.beacon) && BeaconFresh(t)
    ensures var t' := HandleData(t, n, rotate, fileOk, writeOk).0;
            Counts(t') && Halved(t'.indexes) && Quiet(t'.indexes, t'.beacon) && BeaconFresh(t')
  {
    hide Complete, Drop, Counts, Halved, Quiet, BeaconFresh;
    var t1 := GetOrCreate(t, n);
    var create := rotate || t1.indexFile.None?;
    var t2 := t1.(indexFile := if !create then t1.indexFile else if fileOk then Some(t1.generation) else None);
    var index := t1.indexes[n].(file := t2.indexFile, offset := t2.sizeCurrent);
    CreateCounts(t, n, index);
    if t2.indexFile.None? || t1.indexes[n].file.Some? {
      SameCounts(t1, t2);
      DroppedKeeps(t, t2, n);
      OneReference(t, n);
      DropIs(t2, n);
    } else {
      var t3 := t2.(indexes := t2.indexes[n := index]);
      SameCounts(t1.(indexes := t3.indexes), t3);
      GivenFile(t, t3, n);
      OneReference(t, n);
      FlushKeeps(t3, n, writeOk);
    }
  }

  lemma OneReference(t: Table, n: nat)
    requires Halved(t.indexes)
    ensures GetOrCreate(t, n).indexes[n].ref == 1
    ensures GetOrCreate(t, n).indexes[n].file.None? || GetOrCreate(t, n).indexes[n].info.None?
  {
  }

  lemma SameCounts(t: Table, t': Table)
    requires Counts(t) && t' == t.(indexFile := t'.indexFile)
    ensures Counts(t')
  {
  }

  /** Dropping index `n` and touching no other. */
  lemma DroppedKeeps(t: Table, t': Table, n: nat)
    requires Counts(t) && Counts(t') && Halved(t.indexes) && Quiet(t.indexes, t.beacon) && BeaconFresh(t)
    requires n in t'.indexes && t'.indexes - {n} == t.indexes - {n}
    requires t'.beacon == t.beacon && t'.received == t.received && t'.accepted == t.accepted
    ensures t'.inFlight > 0
    ensures var u := Removed(t', n); Counts(u) && Halved(u.indexes) && Quiet(u.indexes, u.beacon) && BeaconFresh(u)
  {
    PutCounts(t', n);
    OthersKeep(t.indexes, t'.indexes - {n}, n, t.beacon);
    hide Counts, Halved, Quiet;
  }

  lemma OthersKeep(indexes: map<nat, Index>, others: map<nat, Index>, n: nat, beacon: nat)
    requires Halved(indexes) && Quiet(indexes, beacon) && others == indexes - {n}
    ensures Halved(others) && Quiet(others, beacon)
  {
  }

  /** Index `n` got its file: it is ready for `FlushKeeps`. */
  lemma GivenFile(t: Table, t': Table, n: nat)
    requires Counts(t) && Halved(t.indexes) && Quiet(t.indexes, t.beacon) && BeaconFresh(t)
    requires n in t'.indexes && t'.indexes[n].info == GetOrCreate(t, n).indexes[n].info
    requires t'.indexes - {n} == t.indexes - {n}
    requires t'.beacon == t.beacon && t'.received == t.received && t'.accepted == t.accepted
    ensures Halved(t'.indexes - {n}) && Quiet(t'.indexes, t'.beacon) && BeaconFresh(t')
  {
    OthersKeep(t.indexes, t'.indexes - {n}, n, t.beacon);
    forall m | m in t'.indexes && t'.indexes[m].info.Some?
      ensures t'.beacon == NONE
    {
      if m != n { assert m in t'.indexes - {n}; }
    }
  }

  lemma HandleFrame(t: Table, n: nat, rotate: bool, fileOk: bool, writeOk: bool)
    requires Counts(t) && FileReady(t, rotate)
    ensures var t' := HandleData(t, n, rotate, fileOk, writeOk).0;
            && FileCurrent(t') && SameFile(t, t'.(indexFile := t.indexFile))
            && (t'.indexFile.None? || t'.indexFile.value == FileUsed(t, rotate))
  {
    hide Complete, Drop;
    var t1 := GetOrCreate(t, n);
    var create := rotate || t1.indexFile.None?;
    var t2 := t1.(indexFile := if !create then t1.indexFile else if fileOk then Some(t1.generation) else None);
    var index := t1.indexes[n].(file := t2.indexFile, offset := t2.sizeCurrent);
    CreateCounts(t, n, index);
    CompleteFrame(t2, n, writeOk);
    CompleteFrame(t2.(indexes := t2.indexes[n := index]), n, writeOk);
  }

  /** After a data half the index, if it is still there, points at the packet being written. */
  lemma HandleLocated(t: Table, n: nat, rotate: bool, fileOk: bool, writeOk: bool, placed: seq<Placement>, lost: set<nat>)
    requires Counts(t) && Halved(t.indexes) && Past(t.indexes, t.written, t.generation)
    requires Located(t.indexes, t.written, t.placed, t.lost) && Located(t.indexes, t.written, placed, lost)
    requires HasPlace(placed, lost, n, FileUsed(t, rotate), t.sizeCurrent) && FileUsed(t, rotate) <= t.generation
    ensures var (t', outcome) := HandleData(t, n, rotate, fileOk, writeOk);
            && Located(t'.indexes, t'.written, if outcome.Done? then placed else t.placed,
                       if outcome.Done? then lost else t.lost)
            && Past(t'.indexes, t'.written, t.generation)
  {
    hide HandleData, HasPlace, Complete, Drop, Located, Past, Committed, Halved;
    HandleIs(t, n, rotate, fileOk, writeOk);
    OneReference(t, n);
    var t2 := FileChosen(t, n, rotate, fileOk);
    var t3 := FileGiven(t2, n);
    if t2.indexFile.None? || t2.indexes[n].file.Some? {
      DropIs(t2, n);
      RemovedLocated(t, t2, n);
    } else {
      GivenPlace(t, t3, n, placed, lost);
      FlushLocated(t3, n, writeOk, placed, lost);
      CompleteIs(t3, n, writeOk);
      RemovedLocated(t, t3, n);
    }
  }

  /** The table once the index of a data half is found and the index file chosen. */
  function FileChosen(t: Table, n: nat, rotate: bool, fileOk: bool): (t': Table)
    ensures n in t'.indexes
  {
    var t1 := GetOrCreate(t, n);
    var create := rotate || t1.indexFile.None?;
    t1.(indexFile := if !create then t1.indexFile else if fileOk then Some(t1.generation) else None)
  }

  /** The table once the index has the file. */
  function FileGiven(t: Table, n: nat): (t': Table)
    requires n in t.indexes
    ensures n in t'.indexes
  {
    t.(indexes := t.indexes[n := t.indexes[n].(file := t.indexFile, offset := t.sizeCurrent)])
  }

  lemma HandleIs(t: Table, n: nat, rotate: bool, fileOk: bool, writeOk: bool)
    requires Counts(t)
    ensures var t2 := FileChosen(t, n, rotate, fileOk);
            var t3 := FileGiven(t2, n);
            && Counts(t2) && Counts(t3) && t2.inFlight > 0 && t3.inFlight > 0
            && t2.indexes - {n} == t.indexes - {n} && t3.indexes - {n} == t.indexes - {n}
            && HandleData(t, n, rotate, fileOk, writeOk) ==
               if t2.indexFile.None? || t2.indexes[n].file.Some? then Drop(t2, n) else Complete(t3, n, writeOk)
  {
    hide Complete, Drop;
    var t1 := GetOrCreate(t, n);
    CreateCounts(t, n, t1.indexes[n].(file := FileChosen(t, n, rotate, fileOk).indexFile, offset := t.sizeCurrent));
    assert t1.indexes - {n} == t.indexes - {n};
  }

  /** Index `n` got its file, and its packet has its place there. */
  lemma GivenPlace(t: Table, t': Table, n: nat, placed: seq<Placement>, lost: set<nat>)
    requires Located(t.indexes, t.written, placed, lost) && Past(t.indexes, t.written, t.generation)
    requires n in t'.indexes && t'.indexes - {n} == t.indexes - {n} && t'.written == t.written
    requires t'.indexes[n].file.Some? && t'.indexes[n].file.value <= t.generation
    requires HasPlace(placed, lost, n, t'.indexes[n].file.value, t'.indexes[n].offset)
    ensures Located(t'.indexes, t'.written, placed, lost) && Past(t'.indexes, t'.written, t.generation)
  {
    hide HasPlace;
    forall m | m in t'.indexes && m != n
      ensures m in t.indexes && t'.indexes[m] == t.indexes[m]
    {
      assert m in t'.indexes - {n};
    }
  }

  lemma RemovedLocated(t: Table, t': Table, n: nat)
    requires Located(t.indexes, t.written, t.placed, t.lost) && Past(t.indexes, t.written, t.generation)
    requires t'.indexes - {n} == t.indexes - {n}
    ensures Located(t'.indexes - {n}, t.written, t.placed, t.lost) && Past(t'.indexes - {n}, t.written, t.generation)
  {
    hide HasPlace;
  }

  lemma LocatedAppend(indexes: map<nat, Index>, written: seq<Write>, placed: seq<Placement>, lost: set<nat>, p: Placement)
    requires Located(indexes, written, placed, lost)
    ensures Located(indexes, written, placed + [p], lost) && Located(indexes, written, placed, lost + {p.seqNum})
    ensures HasPlace(placed + [p], lost, p.seqNum, p.file, p.offset)
  {
    var placed' := placed + [p];
    assert placed'[|placed|] == p;
    forall n: nat, file: nat, offset: nat | HasPlace(placed, lost, n, file, offset)
      ensures HasPlace(placed', lost, n, file, offset) && HasPlace(placed, lost + {p.seqNum}, n, file, offset)
    {
      if n !in lost {
        var i :| 0 <= i < |placed| && placed[i].seqNum == n && placed[i].file == file && placed[i].offset == offset;
        assert placed'[i] == placed[i];
      }
    }
    hide HasPlace;
  }

  // ---------------------------------------------------------------------
  // Which packets are still on disk
  // ---------------------------------------------------------------------

  /** The number in the name of the data file of generation `g`: a rotation counts on from
      the head of the ring, and without a ring the head is always 0. */
  ghost function DataName(count: nat, g: nat): nat {
    if count > 0 then Slot(g, count) else if g == 0 then 0 else 1
  }

  /** A file opened since then, up to generation `last`, has the same name. */
  ghost predicate Replaced(count: nat, g: nat, last: nat) {
    exists h | g < h <= last :: DataName(count, h) == DataName(count, g)
  }

  /** With a ring, a packet stays until its slot is used again.  With a limit on the size
      of files and no ring, only the first file and the newest are there. */
  lemma PacketKeptExactly(t: Table, i: nat)
    requires TableInv(t) && i < |t.placed|
    ensures var count, g := |t.tfa.tf|, t.placed[i].file;
            !Replaced(count, g, t.dataFile) <==>
            if count > 0 then t.dataFile < g + count else g == 0 || g == t.dataFile
  {
    hide Located, OffsetsExact, Halved, Quiet;
    var count, g, last := |t.tfa.tf|, t.placed[i].file, t.dataFile;
    if count > 0 {
      forall h | g < h <= last && h < g + count
        ensures DataName(count, h) != DataName(count, g)
      {
        SlotsDiffer(g, h, count);
      }
      if g + count <= last {
        SlotPlus(g, count, count);
        assert DataName(count, g + count) == DataName(count, g);
      }
    } else if 0 < g < last {
      assert DataName(count, last) == DataName(count, g);
    }
  }

  // ---------------------------------------------------------------------
  // Packets that are cut short, replaced or lost
  // ---------------------------------------------------------------------

  /** The table once the ring is rotated, if need be. */
  lemma ReadyToHandle(t: Table, size: nat, luck: Luck)
    requires TableInv(t) && !RotationFails(t, size, luck)
    ensures WellFormed(t.tfa)
    ensures var rotate := RotationNeeded(t, size);
            var t1 := if rotate then RotateFile(t) else t;
            && Counts(t1) && WellFormed(t1.tfa) && t1.inFlight == |t1.indexes| && Halved(t1.indexes)
            && Past(t1.indexes, t1.written, t1.generation) && FileReady(t1, rotate)
  {
    hide Halved, Quiet, BeaconFresh, Located, Sequential, OffsetsExact, Past, Rotated;
    RotateSeqHead(t.tfa);
    PastLater(t.indexes, t.written, t.generation);
  }

  /** The table after a data half of `size` bytes. */
  function Data(t: Table, n: nat, size: nat, luck: Luck): Table
    requires WellFormed(t.tfa) && t.inFlight == |t.indexes|
  {
    Process(t, n, size, 0, luck).0
  }

  /** The fields of the files are the same. */
  ghost predicate SameBytes(t: Table, t': Table) {
    && t'.placed == t.placed && t'.lost == t.lost && t'.generation == t.generation && t'.dataFile == t.dataFile
    && t'.sizeCurrent == t.sizeCurrent && t'.stray == t.stray && t'.sizeLimit == t.sizeLimit
  }

  /** What a packet does to the files when it comes before its description and the index
      file can be created. */
  lemma DataIs(t: Table, n: nat, size: nat, luck: Luck)
    requires TableInv(t) && n !in t.indexes && luck.fileOk && !RotationFails(t, size, luck)
    ensures WellFormed(t.tfa) && t.inFlight == |t.indexes|
    ensures var t1, t' := if RotationNeeded(t, size) then RotateFile(t) else t, Data(t, n, size, luck);
            TableInv(t') && t'.indexes.Keys == t.indexes.Keys + {n} && SameBytes(Stored(t1, n, size, 0, luck.partial).0, t')
  {
    hide TableInv, Counts, Halved, Past, FileReady, FileCurrent, HandleData, Rotated, Stored;
    TableFacts(t);
    ProcessInv(t, n, size, 0, luck);
    ReadyToHandle(t, size, luck);
    var rotate := RotationNeeded(t, size);
    var t1 := if rotate then RotateFile(t) else t;
    HandleFrame(t1, n, rotate, luck.fileOk, luck.writeOk);
    FirstHalf(t1, n, rotate, luck.writeOk);
    StoredBytes(t1, HandleData(t1, n, rotate, true, luck.writeOk).0, n, size, luck.partial);
  }

  lemma StoredBytes(t: Table, t': Table, n: nat, size: nat, partial: Option<nat>)
    requires SameBytes(t, t')
    ensures SameBytes(Stored(t, n, size, 0, partial).0, Stored(t', n, size, 0, partial).0)
    ensures Stored(t', n, size, 0, partial).0.indexes == t'.indexes
  {
  }

  lemma FirstHalf(t: Table, n: nat, rotate: bool, writeOk: bool)
    requires Counts(t) && n !in t.indexes
    ensures var (t', outcome) := HandleData(t, n, rotate, true, writeOk);
            outcome.Done? && t'.indexes.Keys == t.indexes.Keys + {n}
  {
    HandleIs(t, n, rotate, true, writeOk);
    hide HandleData, Complete, Drop, Counts;
    CompleteIs(FileGiven(FileChosen(t, n, rotate, true), n), n, writeOk);
  }

  const CUT_SHORT := Luck(true, true, true, Some(10))
  const NO_FILE := Luck(false, true, true, None)

  /** After a packet of which 10 bytes arrived, the index of the next one points 10 bytes
      too far ahead. */
  lemma CutPacketShifts()
    ensures var t := NewTable(2, 100);
            && Counts(t) && var t1 := Data(t, 0, 60, CUT_SHORT);
            && Counts(t1) && var t2 := Data(t1, 1, 60, GOOD_LUCK);
               |t2.placed| == 2 && t2.placed[1].offset == 0 && t2.placed[1].at == 10
  {
    hide Data, TableInv;
    var t := NewTable(2, 100);
    NewTableInv(2, 100);
    DataIs(t, 0, 60, CUT_SHORT);
    var t1 := Data(t, 0, 60, CUT_SHORT);
    TableFacts(t1);
    DataIs(t1, 1, 60, GOOD_LUCK);
  }

  /** With a limit and no ring, the third file replaces the second. */
  lemma ThirdReplacesSecond()
    ensures var t := NewTable(0, 100);
            && Counts(t) && var t1 := Data(t, 0, 60, GOOD_LUCK);
            && Counts(t1) && var t2 := Data(t1, 1, 60, GOOD_LUCK);
            && Counts(t2) && var t3 := Data(t2, 2, 60, GOOD_LUCK);
               |t3.placed| == 3 && t3.placed[1].file == 1 && Replaced(0, 1, t3.dataFile)
  {
    hide Data, TableInv, Rotated;
    var t := NewTable(0, 100);
    NewTableInv(0, 100);
    DataIs(t, 0, 60, GOOD_LUCK);
    var t1 := Data(t, 0, 60, GOOD_LUCK);
    TableFacts(t1);
    DataIs(t1, 1, 60, GOOD_LUCK);
    var t2 := Data(t1, 1, 60, GOOD_LUCK);
    TableFacts(t2);
    DataIs(t2, 2, 60, GOOD_LUCK);
    assert DataName(0, 2) == DataName(0, 1);
  }

  /** A data file cannot be opened, and the next packet, which would fit the old one, is lost. */
  lemma LostAfterFailedRotation()
    ensures var t := NewTable(2, 100);
            && Counts(t) && var t1 := Data(t, 0, 60, GOOD_LUCK);
            && Counts(t1) && var t2 := Data(t1, 1, 60, NO_FILE);
            && Counts(t2) && var t3 := Data(t2, 2, 10, GOOD_LUCK);
               2 in t3.lost && |t3.placed| == 1
  {
    hide Data, TableInv, Rotated;
    var t := NewTable(2, 100);
    NewTableInv(2, 100);
    DataIs(t, 0, 60, GOOD_LUCK);
    var t1 := Data(t, 0, 60, GOOD_LUCK);
    TableFacts(t1);
    var t2 := Data(t1, 1, 60, NO_FILE);
    RotationRefused(t1, 1, 60, NO_FILE);
    TableFacts(t2);
    DataIs(t2, 2, 10, GOOD_LUCK);
  }

  lemma RotationRefused(t: Table, n: nat, size: nat, luck: Luck)
    requires TableInv(t) && RotationFails(t, size, luck)
    ensures WellFormed(t.tfa) && t.inFlight == |t.indexes|
    ensures Data(t, n, size, luck) == RotateFails(t) && TableInv(RotateFails(t))
  {
    TableFacts(t);
    ProcessInv(t, n, size, 0, luck);
    hide TableInv;
  }

  // ---------------------------------------------------------------------
  // Closing, beacons and failed writes
  // ---------------------------------------------------------------------

  lemma ClosePartialInv(t: Table)
    requires TableInv(t)
    ensures TableInv(ClosePartial(t))
  {
    hide HasPlace, Sequential, OffsetsExact;
  }

  lemma CloseAllInv(t: Table)
    requires TableInv(t)
    ensures TableInv(AllClosed(t))
  {
    hide HasPlace, Sequential, OffsetsExact;
  }

  /** A beacon is accepted exactly when something was written and nothing is in flight. */
  lemma BeaconAcceptedExactly(t: Table, n: nat, info: Info, writeOk: bool)
    requires TableInv(t) && info.packetSize == 0
    ensures var t' := Control(t, n, info, writeOk).0;
            if t.written != [] && t.indexes == map[] then t' == t.(beacon := info.timestampEnd, accepted := t'.accepted)
            else t' == t
  {
    hide Halved, Quiet, Located, Sequential, OffsetsExact;
  }

  /** A write that fails leads to a second put of the same reference.  The assertion on the
      count fails exactly when the flush has put the last one. */
  lemma SecondPutExactly(t: Table, n: nat)
    requires Counts(t) && n in t.indexes && t.indexes[n].file.Some? && t.indexes[n].info.Some? && t.indexes[n].ref > 0
    ensures t.inFlight > 0 && (Complete(t, n, false).1.AssertionFailed? <==> t.indexes[n].ref == 1)
  {
    PutCounts(t, n);
  }

  /** In the daemon every index has one reference, so every failed write stops it. */
  lemma FailedWriteExactly(t: Table, n: nat, info: Info, rotate: bool, fileOk: bool, writeOk: bool)
    requires TableInv(t) && info.packetSize != 0
    ensures Control(t, n, info, writeOk).1.AssertionFailed? <==> !writeOk && n in t.indexes && t.indexes[n].info.None?
    ensures HandleData(t, n, rotate, fileOk, writeOk).1.AssertionFailed? <==>
            !writeOk && n in t.indexes && t.indexes[n].file.None? && (fileOk || (!rotate && t.indexFile.Some?))
  {
    hide Located, Sequential, OffsetsExact, Committed, Quiet;
    OneReference(t, n);
  }

  // ---------------------------------------------------------------------
  // Whole runs, each half sent once
  // ---------------------------------------------------------------------

  ghost predicate IsWritten(written: seq<Write>, n: nat) {
    exists i | 0 <= i < |written| :: written[i].seqNum == n
  }

  /** With the control halves `controls` and the data halves `datas` received: one half
      is in flight, both halves are written out, once, each part from its own half. */
  ghost predicate Joined(indexes: map<nat, Index>, written: seq<Write>,
                         controls: map<nat, Info>, datas: map<nat, Placement>)
  {
    && (forall n: nat :: n in indexes <==> (n in controls) != (n in datas))
    && (forall n | n in indexes :: indexes[n] ==
          if n in controls then Index(None, 0, Some(controls[n]), 1) else Index(Some(datas[n].file), datas[n].offset, None, 1))
    && (forall i | 0 <= i < |written| ::
          var n := written[i].seqNum;
          n in controls && n in datas && written[i] == Write(n, datas[n].file, datas[n].offset, controls[n]))
    && (forall i, j | 0 <= i < j < |written| :: written[i].seqNum != written[j].seqNum)
    && (forall n | n in controls && n in datas :: IsWritten(written, n))
  }

  lemma IsWrittenAppend(written: seq<Write>, w: Write)
    ensures IsWritten(written + [w], w.seqNum)
    ensures forall n | IsWritten(written, n) :: IsWritten(written + [w], n)
  {
    var written' := written + [w];
    assert written'[|written|] == w;
    forall n | IsWritten(written, n)
      ensures IsWritten(written', n)
    {
      var i :| 0 <= i < |written| && written[i].seqNum == n;
      assert written'[i] == written[i];
    }
  }

  lemma JoinedControl(indexes: map<nat, Index>, written: seq<Write>, controls: map<nat, Info>, datas: map<nat, Placement>,
                      n: nat, info: Info)
    requires Joined(indexes, written, controls, datas) && n !in controls
    ensures n in indexes <==> n in datas
    ensures n in indexes ==> indexes[n] == Index(Some(datas[n].file), datas[n].offset, None, 1)
    ensures n in indexes ==>
              Joined(indexes - {n}, written + [Write(n, datas[n].file, datas[n].offset, info)], controls[n := info], datas)
    ensures n !in indexes ==> Joined(indexes[n := Index(None, 0, Some(info), 1)], written, controls[n := info], datas)
  {
    hide IsWritten;
    if n in datas { IsWrittenAppend(written, Write(n, datas[n].file, datas[n].offset, info)); }
  }

  lemma JoinedData(indexes: map<nat, Index>, written: seq<Write>, controls: map<nat, Info>, datas: map<nat, Placement>,
                   n: nat, p: Placement)
    requires Joined(indexes, written, controls, datas) && n !in datas
    ensures n in indexes <==> n in controls
    ensures n in indexes ==> indexes[n] == Index(None, 0, Some(controls[n]), 1)
    ensures n in indexes ==>
              Joined(indexes - {n}, written + [Write(n, p.file, p.offset, controls[n])], controls, datas[n := p])
    ensures n !in indexes ==> Joined(indexes[n := Index(Some(p.file), p.offset, None, 1)], written, controls, datas[n := p])
  {
    hide IsWritten;
    if n in controls { IsWrittenAppend(written, Write(n, p.file, p.offset, controls[n])); }
  }

  lemma JoinControl(t: Table, n: nat, info: Info, controls: map<nat, Info>, datas: map<nat, Placement>)
    requires TableInv(t) && Joined(t.indexes, t.written, controls, datas) && n !in controls && info.packetSize != 0
    ensures var (t', outcome) := Control(t, n, info, true);
            outcome.Done? && Joined(t'.indexes, t'.written, controls[n := info], datas)
  {
    hide Joined, Located, Sequential, OffsetsExact, Halved, Quiet;
    JoinedControl(t.indexes, t.written, controls, datas, n, info);
    ControlCase(t, n, info);
    hide Control, Counts;
  }

  /** What a first control half for `n` does. */
  lemma ControlCase(t: Table, n: nat, info: Info)
    requires Counts(t) && info.packetSize != 0
    requires n in t.indexes ==> t.indexes[n].info.None? && t.indexes[n].file.Some? && t.indexes[n].ref == 1
    ensures var (t', outcome) := Control(t, n, info, true);
            outcome.Done? &&
            if n in t.indexes then
              && t'.indexes == t.indexes - {n}
              && t'.written == t.written + [Write(n, t.indexes[n].file.value, t.indexes[n].offset, info)]
            else t'.indexes == t.indexes[n := Index(None, 0, Some(info), 1)] && t'.written == t.written
  {
    hide Committed;
    CreateCounts(t.(beacon := NONE), n, GetOrCreate(t, n).indexes[n].(info := Some(info)));
  }

  lemma JoinData(t: Table, n: nat, size: nat, padding: nat, controls: map<nat, Info>, datas: map<nat, Placement>)
    requires TableInv(t) && !Broken(t) && Joined(t.indexes, t.written, controls, datas) && n !in datas
    ensures var (t', outcome) := Process(t, n, size, padding, GOOD_LUCK);
            && outcome.Done? && !Broken(t') && |t'.placed| == |t.placed| + 1 && t'.placed[|t.placed|].seqNum == n
            && Joined(t'.indexes, t'.written, controls, datas[n := t'.placed[|t.placed|]])
  {
    hide Joined, Located, Sequential, OffsetsExact, Halved, Quiet, Rotated, HandleData;
    var rotate := RotationNeeded(t, size);
    var t1 := if rotate then RotateFile(t) else t;
    RotatedCounts(t);
    JoinedData(t.indexes, t.written, controls, datas, n,
               PlaceOf(t1, n, size, padding, None));
    DataCase(t1, n, rotate);
  }

  lemma RotatedCounts(t: Table)
    requires Counts(t)
    ensures Counts(RotateFile(t))
  {
    RotateSeqHead(t.tfa);
  }

  /** What a first data half for `n` does. */
  lemma DataCase(t: Table, n: nat, rotate: bool)
    requires Counts(t) && FileReady(t, rotate) && !Broken(t)
    requires n in t.indexes ==> t.indexes[n].file.None? && t.indexes[n].info.Some? && t.indexes[n].ref == 1
    ensures var (t', outcome) := HandleData(t, n, rotate, true, true);
            && outcome.Done? && t'.placed == t.placed && t'.generation == t.generation && t'.dataFile == t.dataFile
            && t'.sizeCurrent == t.sizeCurrent && t'.stray == t.stray
            && if n in t.indexes then
                 && t'.indexes == t.indexes - {n}
                 && t'.written == t.written + [Write(n, t.generation, t.sizeCurrent, t.indexes[n].info.value)]
               else t'.indexes == t.indexes[n := Index(Some(t.generation), t.sizeCurrent, None, 1)] && t'.written == t.written
  {
    hide Committed;
  }

  datatype Message = ControlMessage(n: nat, info: Info) | DataMessage(n: nat, size: nat, padding: nat)

  /** The table and the halves received so far. */
  datatype History = History(t: Table, controls: map<nat, Info>, datas: map<nat, Placement>)

  ghost function Receive(h: History, m: Message): History
    requires Counts(h.t)
  {
    match m
    case ControlMessage(n, info) =>
      History(Control(h.t, n, info, true).0, if info.packetSize == 0 then h.controls else h.controls[n := info], h.datas)
    case DataMessage(n, size, padding) =>
      var t' := Process(h.t, n, size, padding, GOOD_LUCK).0;
      History(t', h.controls, if |t'.placed| > |h.t.placed| then h.datas[n := t'.placed[|h.t.placed|]] else h.datas)
  }

  ghost predicate IsControl(m: Message, n: nat) { m.ControlMessage? && m.n == n && m.info.packetSize != 0 }

  ghost predicate IsData(m: Message, n: nat) { m.DataMessage? && m.n == n }

  /** No half is sent twice. */
  ghost predicate OncePerHalf(messages: seq<Message>) {
    forall i, j | 0 <= i < j < |messages| ::
      && !(IsControl(messages[i], messages[i].n) && IsControl(messages[j], messages[i].n))
      && !(IsData(messages[i], messages[i].n) && IsData(messages[j], messages[i].n))
  }

  /** The halves received are those of the messages. */
  ghost predicate HalvesOf(messages: seq<Message>, h: History) {
    && (forall n | n in h.controls :: exists i | 0 <= i < |messages| :: IsControl(messages[i], n))
    && (forall n | n in h.datas :: exists i | 0 <= i < |messages| :: IsData(messages[i], n))
    && (forall i | 0 <= i < |messages| :: IsControl(messages[i], messages[i].n) ==> messages[i].n in h.controls)
    && (forall i | 0 <= i < |messages| :: IsData(messages[i], messages[i].n) ==> messages[i].n in h.datas)
  }

  ghost predicate HistoryInv(h: History) {
    TableInv(h.t) && !Broken(h.t) && Joined(h.t.indexes, h.t.written, h.controls, h.datas)
  }

  lemma ReceiveInv(h: History, m: Message)
    requires HistoryInv(h) && (IsControl(m, m.n) ==> m.n !in h.controls) && (IsData(m, m.n) ==> m.n !in h.datas)
    ensures HistoryInv(Receive(h, m))
    ensures IsData(m, m.n) ==> m.n in Receive(h, m).datas
  {
    hide TableInv, Joined, Control, Process;
    TableFacts(h.t);
    match m
    case ControlMessage(n, info) =>
      ControlInv(h.t, n, info, true);
      ControlFrame(h.t, n, info, true);
      if info.packetSize != 0 {
        JoinControl(h.t, n, info, h.controls, h.datas);
      } else {
        BeaconJoins(h.t, n, info);
      }
    case DataMessage(n, size, padding) =>
      ProcessInv(h.t, n, size, padding, GOOD_LUCK);
      JoinData(h.t, n, size, padding, h.controls, h.datas);
  }

  lemma BeaconJoins(t: Table, n: nat, info: Info)
    requires Counts(t) && info.packetSize == 0
    ensures var t' := Control(t, n, info, true).0; t'.indexes == t.indexes && t'.written == t.written
  {
  }

  ghost function Received(count: nat, limit: nat, messages: seq<Message>): (h: History)
    requires OncePerHalf(messages)
    ensures HistoryInv(h) && HalvesOf(messages, h)
  {
    if messages == [] then
      NewTableInv(count, limit);
      History(NewTable(count, limit), map[], map[])
    else
      var last := |messages| - 1;
      var h := Received(count, limit, messages[..last]);
      NewHalf(messages, h);
      ReceiveInv(h, messages[last]);
      ReceiveHalves(messages, h);
      Receive(h, messages[last])
  }

  lemma NewHalf(messages: seq<Message>, h: History)
    requires |messages| > 0 && OncePerHalf(messages) && HalvesOf(messages[..|messages| - 1], h)
    ensures var m := messages[|messages| - 1];
            (IsControl(m, m.n) ==> m.n !in h.controls) && (IsData(m, m.n) ==> m.n !in h.datas)
  {
    var last := |messages| - 1;
    var m := messages[last];
    forall i | 0 <= i < last
      ensures messages[..last][i] == messages[i]
      ensures IsControl(m, m.n) ==> !IsControl(messages[i], m.n)
      ensures IsData(m, m.n) ==> !IsData(messages[i], m.n)
    {
    }
  }

  lemma ReceiveHalves(messages: seq<Message>, h: History)
    requires |messages| > 0 && Counts(h.t) && HalvesOf(messages[..|messages| - 1], h)
    requires var m := messages[|messages| - 1]; IsData(m, m.n) ==> m.n in Receive(h, m).datas
    ensures HalvesOf(messages, Receive(h, messages[|messages| - 1]))
  {
    hide Counts, Process, Control;
    var last := |messages| - 1;
    var h' := Receive(h, messages[last]);
    forall i | 0 <= i < last
      ensures messages[i] == messages[..last][i]
    {
    }
    forall n | n in h'.controls
      ensures exists i | 0 <= i < |messages| :: IsControl(messages[i], n)
    {
      if n in h.controls {
        var i :| 0 <= i < last && IsControl(messages[..last][i], n);
        assert IsControl(messages[i], n);
      } else {
        assert IsControl(messages[last], n);
      }
    }
    forall n | n in h'.datas
      ensures exists i | 0 <= i < |messages| :: IsData(messages[i], n)
    {
      if n in h.datas {
        var i :| 0 <= i < last && IsData(messages[..last][i], n);
        assert IsData(messages[i], n);
      } else {
        assert IsData(messages[last], n);
      }
    }
  }

  /** In whatever order the halves arrive, an index is written exactly once, when both
      have; with one half it is in flight, and the counters count just that. */
  lemma EveryIndexOnce(count: nat, limit: nat, messages: seq<Message>, n: nat)
    requires OncePerHalf(messages)
    ensures var t := Received(count, limit, messages).t;
            var control := exists i | 0 <= i < |messages| :: IsControl(messages[i], n);
            var data := exists i | 0 <= i < |messages| :: IsData(messages[i], n);
            && (IsWritten(t.written, n) <==> control && data) && (n in t.indexes <==> control != data)
            && (forall i, j | 0 <= i < j < |t.written| :: t.written[i].seqNum != t.written[j].seqNum)
            && t.inFlight == |t.indexes| && t.received == |t.written|
  {
    var h := Received(count, limit, messages);
    hide Received, Located, Sequential, OffsetsExact, Halved, Quiet;
    if IsWritten(h.t.written, n) {
      var i :| 0 <= i < |h.t.written| && h.t.written[i].seqNum == n;
    }
  }
}
