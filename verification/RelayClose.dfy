/**
 When a stream closes, in terms of what was received (`try_stream_close` of
 `src/bin/lttng-relayd/stream.c`).

 The end of a stream is the number that a close command announced; without one it is found
 when closing is first tried: the largest number whose description came and whose packet
 did not.  The stream closes exactly when the session is aborted, no end is known, or the
 last packet stored whole has reached it.
 */
module RelayClose {
  import opened Wrappers
  import opened TracefileArray
  import opened RelayIndex
  import opened RelayIndexLaws
  import opened RelayFiles
  import opened RelayStream
  import opened MachineInt

  // ---------------------------------------------------------------------
  // The files of a stream in every run
  // ---------------------------------------------------------------------

  /** The table after a command. */
  function TableAfter(t: Table, c: Command): Table
    requires WellFormed(t.tfa) && t.inFlight == |t.indexes|
  {
    match c
    case IndexCommand(n, info, writeOk) => Control(t, n, info, writeOk).0
    case DataCommand(n, size, padding, luck) => Process(t, n, size, padding, luck).0
    case _ => t
  }

  lemma CommandTable(s: Stream, c: Command)
    requires WellFormed(s.t.tfa) && s.t.inFlight == |s.t.indexes|
    ensures HandleCommand(s, c).t == TableAfter(s.t, c)
  {
    hide Control, Process;
    match c
    case IndexCommand(n, info, writeOk) =>
    case DataCommand(n, size, padding, luck) =>
    case CloseCommand(last) =>
    case PendingCommand =>
  }

  lemma CommandFilled(t: Table, c: Command)
    requires TableInv(t) && Filled(t)
    ensures WellFormed(t.tfa) && t.inFlight == |t.indexes| && Filled(TableAfter(t, c))
  {
    hide TableInv, Filled, Control, Process;
    TableFacts(t);
    hide Counts;
    match c
    case IndexCommand(n, info, writeOk) => ControlFilled(t, n, info, writeOk);
    case DataCommand(n, size, padding, luck) => ProcessFilled(t, n, size, padding, luck);
    case _ =>
  }

  lemma CloseFilled(s: Stream, aborted: bool, last: nat)
    requires Filled(s.t)
    ensures Filled(TryClose(s, aborted, last).t)
  {
    hide Filled, StillPending, EndKnown, MarkClosed;
    if !s.closed {
      var s1 := s.(closeRequested := true);
      EndKnownFilled(s1, last);
      MarkClosedFilled(EndKnown(s1, last));
    }
  }

  lemma EndKnownFilled(s: Stream, last: nat)
    requires Filled(s.t)
    ensures Filled(EndKnown(s, last).t)
  {
    hide Filled;
    SameFilled(s.t, ClosePartial(s.t));
  }

  lemma MarkClosedFilled(s: Stream)
    requires Filled(s.t)
    ensures Filled(MarkClosed(s).t)
  {
    hide Filled;
    SameFilled(s.t, AllClosed(s.t));
  }

  lemma StepFilled(s: Stream, step: Step)
    requires Inv(s) && Enabled(s, step) && Filled(s.t)
    ensures Filled(RelayStream.Next(s, step).t)
  {
    hide Filled, TableInv, HandleCommand, TableAfter, TryClose, MayFind;
    match step
    case Region =>
      CommandFilled(s.t, s.work.c);
      CommandTable(s, s.work.c);
    case CloseRegion(aborted, last) => CloseFilled(s, aborted, last);
    case _ =>
  }

  lemma {:induction false} RunFilled(count: nat, limit: nat, states: seq<Stream>, steps: seq<Step>, k: nat)
    requires IsRun(states, steps) && states[0] == NewStream(count, limit) && k < |states|
    ensures Inv(states[k]) && Filled(states[k].t)
  {
    hide Inv, Enabled, RelayStream.Next, Filled;
    RunInv(count, limit, states, steps, k);
    if k == 0 {
      NewFilled(count, limit);
    } else {
      RunFilled(count, limit, states, steps, k - 1);
      StepFilled(states[k - 1], steps[k - 1]);
    }
  }

  // ---------------------------------------------------------------------
  // The history of a stream
  // ---------------------------------------------------------------------

  /** The command that a region handles. */
  ghost function Handled(s: Stream, step: Step): Option<Command> {
    if step.Region? && s.work.Holding? then Some(s.work.c) else None
  }

  /** The end of the stream as known after `k` steps: that of the last close command, or,
      while there was none, what the search at an attempt to close found. */
  ghost function EndAt(states: seq<Stream>, steps: seq<Step>, k: nat): nat
    requires |states| == |steps| + 1 && k < |states|
  {
    if k == 0 then NONE else
      var before, c := EndAt(states, steps, k - 1), Handled(states[k - 1], steps[k - 1]);
      if c.Some? && c.value.CloseCommand? then c.value.last
      else if steps[k - 1].CloseRegion? && before == NONE then steps[k - 1].last
      else before
  }

  /** Which half of index `n` is awaited after `k` steps, from the halves received. */
  ghost function PhaseAt(states: seq<Stream>, steps: seq<Step>, k: nat, n: nat): Phase
    requires |states| == |steps| + 1 && k < |states|
  {
    if k == 0 then Absent else
      var before, c := PhaseAt(states, steps, k - 1, n), Handled(states[k - 1], steps[k - 1]);
      if c.Some? then AfterCommand(states[k - 1].t, before, c.value, n)
      else if steps[k - 1].CloseRegion? && states[k].closed then Absent
      else if steps[k - 1].CloseRegion? && EndAt(states, steps, k - 1) == NONE && before.AwaitsDescription? then Absent
      else before
  }

  ghost function AfterCommand(t: Table, before: Phase, c: Command, n: nat): Phase {
    match c
    case IndexCommand(m, info, _) => if m == n && info.packetSize != 0 then AfterDescription(before) else before
    case DataCommand(m, size, _, luck) =>
      if m != n || (Overflows(t, size) && (t.dataFile != t.generation || !luck.rotateOk)) then before
      else AfterPacket(before, luck.fileOk || (!Overflows(t, size) && t.indexFile.Some?))
    case _ => before
  }

  lemma {:induction false} EndIs(count: nat, limit: nat, states: seq<Stream>, steps: seq<Step>, k: nat)
    requires IsRun(states, steps) && states[0] == NewStream(count, limit) && k < |states|
    ensures states[k].last == EndAt(states, steps, k)
  {
    if k == 0 {
    } else {
      EndIs(count, limit, states, steps, k - 1);
      RunInv(count, limit, states, steps, k - 1);
      assert Enabled(states[k - 1], steps[k - 1]);
      NextEnd(states[k - 1], steps[k - 1]);
    }
  }

  lemma NextEnd(s: Stream, step: Step)
    requires Inv(s) && Enabled(s, step)
    ensures var c := Handled(s, step);
            RelayStream.Next(s, step).last == if c.Some? && c.value.CloseCommand? then c.value.last
                                  else if step.CloseRegion? && s.last == NONE then step.last else s.last
  {
    hide TableInv, MayFind, ClosePartial, Behind, Control, Process;
  }

  lemma CommandPhase(t: Table, c: Command, n: nat)
    requires TableInv(t) && Filled(t)
    ensures WellFormed(t.tfa) && t.inFlight == |t.indexes|
    ensures PhaseOf(TableAfter(t, c), n) == AfterCommand(t, PhaseOf(t, n), c, n)
  {
    hide TableInv, Filled, Control, Process, Overflows, PhaseOf;
    TableFacts(t);
    hide Counts;
    match c
    case IndexCommand(m, info, writeOk) => ControlPhase(t, m, info, writeOk, n);
    case DataCommand(m, size, padding, luck) => ProcessPhase(t, m, size, padding, luck, n);
    case _ =>
  }

  lemma ClosePhase(s: Stream, aborted: bool, last: nat, n: nat)
    requires TableInv(s.t) && !s.closed
    ensures var s' := TryClose(s, aborted, last);
            PhaseOf(s'.t, n) == if s'.closed then Absent
                                else if s.last == NONE && PhaseOf(s.t, n).AwaitsDescription? then Absent
                                else PhaseOf(s.t, n)
  {
    ClosePartialPhase(s.t, n);
    hide TableInv, Behind, ClosePartial;
  }

  lemma NextPhase(s: Stream, step: Step, n: nat)
    requires Inv(s) && Enabled(s, step) && Filled(s.t)
    ensures var c, s' := Handled(s, step), RelayStream.Next(s, step);
            PhaseOf(s'.t, n) == if c.Some? then AfterCommand(s.t, PhaseOf(s.t, n), c.value, n)
                                else if step.CloseRegion? && s'.closed then Absent
                                else if step.CloseRegion? && s.last == NONE && PhaseOf(s.t, n).AwaitsDescription? then Absent
                                else PhaseOf(s.t, n)
  {
    hide TableInv, Filled, HandleCommand, TableAfter, TryClose, MayFind, ClosePartial, AfterCommand, PhaseOf;
    match step
    case Region =>
      CommandPhase(s.t, s.work.c, n);
      CommandTable(s, s.work.c);
    case CloseRegion(aborted, last) => ClosePhase(s, aborted, last, n);
    case _ =>
  }

  /** The table of indexes is what the halves received say. */
  lemma {:induction false} PhaseIs(count: nat, limit: nat, states: seq<Stream>, steps: seq<Step>, k: nat, n: nat)
    requires IsRun(states, steps) && states[0] == NewStream(count, limit) && k < |states|
    ensures PhaseOf(states[k].t, n) == PhaseAt(states, steps, k, n)
  {
    hide Inv, Enabled, RelayStream.Next, Filled, AfterCommand;
    if k == 0 {
    } else {
      PhaseIs(count, limit, states, steps, k - 1, n);
      EndIs(count, limit, states, steps, k - 1);
      RunFilled(count, limit, states, steps, k - 1);
      NextPhase(states[k - 1], steps[k - 1], n);
    }
  }

  // ---------------------------------------------------------------------
  // Closing
  // ---------------------------------------------------------------------

  /** An attempt to close succeeds exactly when the session is aborted, no end is known, or
      the last packet stored whole has reached the end.  The comparison is signed, so for
      numbers below 2^63 that is: its number is not smaller. */
  lemma ClosesExactly(count: nat, limit: nat, states: seq<Stream>, steps: seq<Step>, k: nat)
    requires IsRun(states, steps) && states[0] == NewStream(count, limit) && k < |steps| && steps[k].CloseRegion?
    ensures var end, stored := EndAt(states, steps, k + 1), LastWhole(states[k].t.placed);
            && !states[k].closed
            && (states[k + 1].closed <==> steps[k].aborted || end == NONE || !Behind(stored, end))
            && (end < TWO63 && (stored < TWO63 || stored == NONE) ==>
                  (states[k + 1].closed <==> steps[k].aborted || (stored != NONE && end <= stored)))
  {
    hide Inv, Filled, Enabled, RelayStream.Next, LastWhole, EndAt, Behind;
    EndIs(count, limit, states, steps, k + 1);
    RunFilled(count, limit, states, steps, k);
    FilledFacts(states[k].t);
    CloseDecides(states[k], steps[k].aborted, steps[k].last);
    if EndAt(states, steps, k + 1) < TWO63 { SmallNumbers(states[k].t.prevSeq, EndAt(states, steps, k + 1)); }
  }

  /** The signed comparison on numbers below 2^63, the sentinel standing for -1. */
  lemma SmallNumbers(stored: nat, end: nat)
    requires end < TWO63
    ensures stored < TWO63 ==> (Behind(stored, end) <==> stored < end)
    ensures stored == NONE ==> Behind(stored, end)
  {
    if stored < TWO63 { BehindExactly(stored, end); }
    BehindExactly(-1, end);
  }

  /** Packets stored whole have increasing numbers below 2^63. */
  ghost predicate InSequence(placed: seq<Placement>) {
    && (forall i | 0 <= i < |placed| && placed[i].whole :: placed[i].seqNum < TWO63)
    && (forall i, j | 0 <= i < j < |placed| && placed[i].whole && placed[j].whole :: placed[i].seqNum < placed[j].seqNum)
  }

  /** A packet with this number or a later one was stored whole. */
  ghost predicate HasReached(placed: seq<Placement>, end: nat) {
    exists i | 0 <= i < |placed| :: placed[i].whole && placed[i].seqNum >= end
  }

  lemma {:induction false} LastIsLargest(placed: seq<Placement>, end: nat)
    requires InSequence(placed) && end < TWO63
    ensures LastWhole(placed) == NONE || LastWhole(placed) < TWO63
    ensures HasReached(placed, end) <==> LastWhole(placed) != NONE && end <= LastWhole(placed)
  {
    if placed == [] {
    } else {
      var init, p := placed[..|placed| - 1], placed[|placed| - 1];
      if p.whole {
        assert HasReached(placed, end) ==> p.seqNum >= end;
        if p.seqNum >= end { assert placed[|placed| - 1].whole; }
      } else {
        LastIsLargest(init, end);
        SameReach(init, p, end);
        assert placed == init + [p];
      }
    }
  }

  lemma SameReach(placed: seq<Placement>, p: Placement, end: nat)
    requires !p.whole
    ensures HasReached(placed + [p], end) <==> HasReached(placed, end)
  {
    var placed' := placed + [p];
    if HasReached(placed, end) {
      var i :| 0 <= i < |placed| && placed[i].whole && placed[i].seqNum >= end;
      assert placed'[i] == placed[i];
    }
  }

  /** When packets come in the order of their numbers, an attempt to close succeeds exactly
      when the session is aborted or the packet of the end, or a later one, was stored. */
  lemma ClosesInOrder(count: nat, limit: nat, states: seq<Stream>, steps: seq<Step>, k: nat)
    requires IsRun(states, steps) && states[0] == NewStream(count, limit) && k < |steps| && steps[k].CloseRegion?
    requires InSequence(states[k].t.placed) && EndAt(states, steps, k + 1) < TWO63
    ensures states[k + 1].closed <==> steps[k].aborted || HasReached(states[k].t.placed, EndAt(states, steps, k + 1))
  {
    hide RelayStream.Next, Enabled, InSequence, HasReached, LastWhole, EndAt, Behind;
    ClosesExactly(count, limit, states, steps, k);
    LastIsLargest(states[k].t.placed, EndAt(states, steps, k + 1));
  }

  lemma CloseDecides(s: Stream, aborted: bool, last: nat)
    requires Inv(s) && Enabled(s, CloseRegion(aborted, last))
    ensures var s' := RelayStream.Next(s, CloseRegion(aborted, last));
            && !s.closed && (s'.closed <==> aborted || s'.last == NONE || !Behind(s.t.prevSeq, s'.last))
  {
    hide TableInv, MayFind, Behind;
  }

  /** The end that is found when none was announced: the largest number whose description
      came and whose packet did not. */
  lemma EndIsAwaited(count: nat, limit: nat, states: seq<Stream>, steps: seq<Step>, k: nat)
    requires IsRun(states, steps) && states[0] == NewStream(count, limit) && k < |steps| && steps[k].CloseRegion?
    requires EndAt(states, steps, k) == NONE && !PhaseAt(states, steps, k, NONE).AwaitsData?
    ensures var end := EndAt(states, steps, k + 1);
            && (end != NONE ==> PhaseAt(states, steps, k, end).AwaitsData?)
            && (forall n: nat :: PhaseAt(states, steps, k, n).AwaitsData? ==> end != NONE && n <= end)
  {
    assert Enabled(states[k], steps[k]);
    RunInv(count, limit, states, steps, k);
    var t, last := states[k].t, steps[k].last;
    hide Inv, Enabled, RelayStream.Next;
    KeptKeys(states[k]);
    PhaseIs(count, limit, states, steps, k, NONE);
    PhaseIs(count, limit, states, steps, k, last);
    forall n: nat | PhaseAt(states, steps, k, n).AwaitsData?
      ensures last != NONE && n <= last
    {
      PhaseIs(count, limit, states, steps, k, n);
    }
  }

  /** What closing keeps while it searches: the indexes that await their packet. */
  lemma KeptKeys(s: Stream)
    requires Inv(s)
    ensures forall n: nat :: n in ClosePartial(s.t).indexes <==> PhaseOf(s.t, n).AwaitsData?
  {
    hide Counts, Quiet, BeaconFresh, Located, Sequential, OffsetsExact, FileCurrent, Past;
  }

  // ---------------------------------------------------------------------
  // Packets out of order
  // ---------------------------------------------------------------------

  /** A stream without a ring that stored packet 1 and then packet 0. */
  ghost function Swapped(): Table {
    var t1 := Process(NewTable(0, 0), 1, 8, 0, GOOD_LUCK).0;
    if WellFormed(t1.tfa) && t1.inFlight == |t1.indexes| then Process(t1, 0, 8, 0, GOOD_LUCK).0 else t1
  }

  lemma SwappedFacts()
    ensures var t1 := Process(NewTable(0, 0), 1, 8, 0, GOOD_LUCK).0;
            && WellFormed(t1.tfa) && t1.inFlight == |t1.indexes| && Swapped() == Process(t1, 0, 8, 0, GOOD_LUCK).0
    ensures Swapped().prevSeq == 0 && |Swapped().placed| == 2 && Swapped().placed[0].seqNum == 1 && Swapped().placed[0].whole
    ensures ClosePartial(Swapped()).indexes == map[]
    ensures WellFormed(Swapped().tfa) && Swapped().inFlight == |Swapped().indexes|
  {
    hide TableInv, Filled, Process, PhaseOf;
    var t0 := NewTable(0, 0);
    NewTableInv(0, 0);
    NewFilled(0, 0);
    PacketStoredExactly(t0, 1, 8, 0, GOOD_LUCK);
    ProcessInv(t0, 1, 8, 0, GOOD_LUCK);
    ProcessFilled(t0, 1, 8, 0, GOOD_LUCK);
    var t1 := Process(t0, 1, 8, 0, GOOD_LUCK).0;
    TableFacts(t1);
    ProcessPhase(t0, 1, 8, 0, GOOD_LUCK, 0);
    NoIndex(0);
    AbsentIsGone(t1, 0);
    PacketStoredExactly(t1, 0, 8, 0, GOOD_LUCK);
    ProcessInv(t1, 0, 8, 0, GOOD_LUCK);
    ProcessFilled(t1, 0, 8, 0, GOOD_LUCK);
    var t2 := Process(t1, 0, 8, 0, GOOD_LUCK).0;
    FilledFacts(t2);
    TableFacts(t2);
    forall n: nat
      ensures !PhaseOf(t2, n).AwaitsData?
    {
      ProcessPhase(t0, 1, 8, 0, GOOD_LUCK, n);
      ProcessPhase(t1, 0, 8, 0, GOOD_LUCK, n);
      NoIndex(n);
    }
    NoneKept(t2);
  }

  lemma NoIndex(n: nat)
    ensures PhaseOf(NewTable(0, 0), n).Absent?
  {
  }

  lemma AbsentIsGone(t: Table, n: nat)
    requires PhaseOf(t, n).Absent?
    ensures n !in t.indexes
  {
  }

  lemma NoneKept(t: Table)
    requires TableInv(t) && forall n: nat :: !PhaseOf(t, n).AwaitsData?
    ensures ClosePartial(t).indexes == map[]
  {
    hide Counts, Quiet, BeaconFresh, Located, Sequential, OffsetsExact, FileCurrent, Past;
    forall n: nat
      ensures n !in ClosePartial(t).indexes
    {
      assert !PhaseOf(t, n).AwaitsData?;
    }
  }

  /** An open stream between two commands. */
  ghost function Resting(t: Table): Stream {
    NewStream(0, 0).(t := t, ref := 1 + t.gets - t.puts)
  }

  /** The three steps of a packet. */
  lemma PacketHandled(t: Table, c: Command) returns (states: seq<Stream>, steps: seq<Step>)
    requires WellFormed(t.tfa) && t.inFlight == |t.indexes| && c.DataCommand? && t.gets >= t.puts
    requires TableAfter(t, c).gets >= TableAfter(t, c).puts
    ensures IsRun(states, steps) && |steps| == 3 && states[0] == Resting(t) && states[3] == Resting(TableAfter(t, c))
  {
    hide Process;
    var s0 := Resting(t);
    var s1 := RelayStream.Next(s0, Begin(c));
    var s2 := RelayStream.Next(s1, Region);
    states, steps := [s0, s1, s2, RelayStream.Next(s2, PutLocal)], [Begin(c), Region, PutLocal];
  }

  /** One run after another. */
  lemma RunOn(states: seq<Stream>, steps: seq<Step>, states': seq<Stream>, steps': seq<Step>)
    requires IsRun(states, steps) && IsRun(states', steps') && states[|steps|] == states'[0]
    ensures IsRun(states[..|steps|] + states', steps + steps')
  {
    hide Enabled, RelayStream.Next;
    var all, each := states[..|steps|] + states', steps + steps';
    forall i | 0 <= i < |each|
      ensures Enabled(all[i], each[i]) && all[i + 1] == RelayStream.Next(all[i], each[i])
    {
      if i < |steps| {
        assert all[i] == states[i] && all[i + 1] == states[i + 1];
      } else {
        assert all[i] == states'[i - |steps|] && all[i + 1] == states'[i - |steps| + 1];
      }
    }
  }

  /** Packet 1 is stored before packet 0, then the end is announced to be 1: the stream stays
      open, although the packet of its end is there. */
  lemma OutOfOrderStaysOpen() returns (states: seq<Stream>, steps: seq<Step>)
    ensures IsRun(states, steps) && states[0] == NewStream(0, 0) && |steps| == 9
    ensures steps[8] == CloseRegion(false, NONE) && EndAt(states, steps, 9) == 1
    ensures HasReached(states[8].t.placed, 1) && !states[9].closed
  {
    hide IsRun, Resting, Swapped, NewStream, HasReached, EndAt;
    var a, a' := TwoPackets();
    var c, c' := EndStaysOpen();
    RunOn(a, a', c, c');
    states, steps := a[..6] + c, a' + c';
    RunLength(c, c');
    EndFound(states, steps);
  }

  /** Both packets are handled. */
  lemma TwoPackets() returns (states: seq<Stream>, steps: seq<Step>)
    ensures IsRun(states, steps) && |steps| == 6 && |states| == 7
    ensures states[0] == NewStream(0, 0) && states[6] == Resting(Swapped())
  {
    hide IsRun, TableAfter, Swapped, Resting, NewStream;
    var first, second := DataCommand(1, 8, 0, GOOD_LUCK), DataCommand(0, 8, 0, GOOD_LUCK);
    SwappedTables();
    var a, a' := PacketHandled(NewTable(0, 0), first);
    var b, b' := PacketHandled(TableAfter(NewTable(0, 0), first), second);
    RunLength(a, a');
    RunLength(b, b');
    RunOn(a, a', b, b');
    states, steps := a[..3] + b, a' + b';
  }

  lemma SwappedTables()
    ensures var t0 := NewTable(0, 0);
            && WellFormed(t0.tfa) && t0.inFlight == |t0.indexes| && t0.gets >= t0.puts && Resting(t0) == NewStream(0, 0)
            && var t1 := TableAfter(t0, DataCommand(1, 8, 0, GOOD_LUCK));
            && WellFormed(t1.tfa) && t1.inFlight == |t1.indexes| && t1.gets >= t1.puts
            && TableAfter(t1, DataCommand(0, 8, 0, GOOD_LUCK)) == Swapped() && Swapped().gets >= Swapped().puts
  {
    SwappedFacts();
    SwappedCounts();
    hide Process;
  }

  lemma RunLength(states: seq<Stream>, steps: seq<Step>)
    requires IsRun(states, steps)
    ensures |states| == |steps| + 1
  {
  }

  lemma SwappedCounts()
    ensures var t1 := Process(NewTable(0, 0), 1, 8, 0, GOOD_LUCK).0; t1.gets >= t1.puts && Swapped().gets >= Swapped().puts
  {
    SwappedFacts();
    NewTableInv(0, 0);
    ProcessInv(NewTable(0, 0), 1, 8, 0, GOOD_LUCK);
    var t1 := Process(NewTable(0, 0), 1, 8, 0, GOOD_LUCK).0;
    ProcessInv(t1, 0, 8, 0, GOOD_LUCK);
    TableFacts(t1);
    TableFacts(Swapped());
    hide Process, TableInv, Swapped;
  }

  /** The end is announced, and closing is tried. */
  lemma EndStaysOpen() returns (states: seq<Stream>, steps: seq<Step>)
    ensures IsRun(states, steps) && states[0] == Resting(Swapped())
    ensures steps == [Begin(CloseCommand(1)), Region, CloseRegion(false, NONE)]
    ensures states[1].work == Holding(CloseCommand(1)) && HasReached(states[2].t.placed, 1) && !states[3].closed
  {
    SwappedFacts();
    SwappedCounts();
    hide Process, ClosePartial, Swapped;
    steps := [Begin(CloseCommand(1)), Region, CloseRegion(false, NONE)];
    var s0 := Resting(Swapped());
    var s1 := RelayStream.Next(s0, Begin(CloseCommand(1)));
    var s2 := RelayStream.Next(s1, Region);
    var s3 := RelayStream.Next(s2, CloseRegion(false, NONE));
    states := [s0, s1, s2, s3];
  }

  lemma EndFound(states: seq<Stream>, steps: seq<Step>)
    requires |states| == 10 && |steps| == 9 && states[7].work == Holding(CloseCommand(1))
    requires steps[7].Region? && steps[8].CloseRegion?
    ensures EndAt(states, steps, 9) == 1
  {
    assert EndAt(states, steps, 8) == 1;
  }
}
