/**
 The life of a relay stream: references, publication and closing
 (`src/bin/lttng-relayd/stream.c`, and its callers in `main.c`, `session.c`,
 `ctf-trace.c` and `viewer-stream.c`).

 One worker thread handles every command; viewer threads take and drop references at
 any time.  Each region under the stream lock, and each `get` or `put`, is one step.
 Files may fail to open, writes may fail, and packets may be cut short.  An index
 takes a reference when it is created and puts it when it goes.  A viewer stream that
 cannot be created keeps the reference it took (`leaked`).
 */
module RelayStream {
  import opened Wrappers
  import opened TracefileArray
  import opened RelayIndex
  import opened RelayIndexLaws
  import opened MachineInt

  /** A command for the stream, as the worker received it. */
  datatype Command = IndexCommand(n: nat, info: Info, writeOk: bool)
                   | DataCommand(n: nat, size: nat, padding: nat, luck: Luck)
                   | CloseCommand(last: nat) | PendingCommand

  /** Where the worker is; `local` says that it holds a reference of its own. */
  datatype Work = Idle | Holding(c: Command) | Closing(local: bool) | PuttingSelf(local: bool) | PuttingLocal

  /** `viewers` counts viewer streams, `creating` those whose creation is under way, `holds`
      the references viewer threads hold while they work, `leaked` those nobody will put.
      `seen` records that the stream was published, `closes` how often it was closed. */
  datatype Stream = Stream(t: Table, last: nat, closeRequested: bool, closed: bool, published: bool, inStreamHt: bool,
                           inRecvList: bool, released: bool, ref: int, viewers: nat, creating: nat, holds: nat,
                           leaked: nat, work: Work,
                           seen: bool, closes: nat)

  function NewStream(count: nat, limit: nat): Stream {
    Stream(NewTable(count, limit), NONE, false, false, false, true, true, false, 1, 0, 0, 0, 0, Idle, false, 0)
  }

  // ---------------------------------------------------------------------
  // Operations
  // ---------------------------------------------------------------------

  function Publish(s: Stream): Stream {
    if s.published then s else s.(inRecvList := false, published := true, seen := true)
  }

  function Unpublish(s: Stream): Stream {
    s.(inStreamHt := false, published := false)
  }

  /** `stream_put`; the last one releases. */
  function PutRef(s: Stream): Stream {
    if s.ref == 1 then Unpublish(s).(ref := 0, inRecvList := false, released := true) else s.(ref := s.ref - 1)
  }

  /** The table after a region, and the references on the stream that its indexes took and
      put in it. */
  function WithTable(s: Stream, t: Table): Stream {
    s.(t := t, ref := s.ref + (t.gets - s.t.gets) - (t.puts - s.t.puts))
  }

  predicate StillPending(s: Stream) {
    s.last != NONE && Behind(s.t.prevSeq, s.last)
  }

  /** Without an announced end, the stream ends at `last`, the largest sequence number
      among the indexes that await their data. */
  function EndKnown(s: Stream, last: nat): Stream {
    if s.last == NONE then WithTable(s, ClosePartial(s.t)).(last := last) else s
  }

  function MarkClosed(s: Stream): Stream {
    WithTable(Unpublish(s), AllClosed(s.t)).(closed := true, closes := s.closes + 1)
  }

  /** `try_stream_close`, the region under the stream lock; `last` is the result of
      `relay_index_find_last`. */
  function TryClose(s: Stream, aborted: bool, last: nat): Stream {
    if s.closed then s else
      var s' := EndKnown(s.(closeRequested := true), last);
      if StillPending(s') && !aborted then s' else MarkClosed(s')
  }

  class StreamObject {
    const indexes: StreamIndexes
    var last: nat
    var closeRequested: bool
    var closed: bool
    var published: bool
    var inStreamHt: bool
    var inRecvList: bool
    var released: bool
    var ref: int
    var viewers: nat
    var creating: nat
    var holds: nat
    var leaked: nat
    var work: Work
    var seen: bool
    var closes: nat

    function State(): Stream
      reads this, indexes
    {
      Stream(indexes.State(), last, closeRequested, closed, published, inStreamHt, inRecvList, released, ref, viewers,
             creating, holds, leaked, work, seen, closes)
    }

    constructor (count: nat, limit: nat)
      ensures fresh(indexes) && indexes.Valid() && indexes.OneReference() && State() == NewStream(count, limit)
    {
      indexes := new StreamIndexes(count, limit);
      last, closeRequested, closed, published, inStreamHt, inRecvList := NONE, false, false, false, true, true;
      released, ref, viewers, creating, holds, leaked, work, seen, closes := false, 1, 0, 0, 0, 0, Idle, false, 0;
    }

    method StreamPublish()
      modifies this
      ensures State() == Publish(old(State()))
    {
      if published {
        return;
      }
      if inRecvList {
        inRecvList := false;
      }
      published := true;
      seen := true;
    }

    method StreamUnpublish()
      modifies this`inStreamHt, this`published
      ensures State() == Unpublish(old(State()))
    {
      if inStreamHt {
        inStreamHt := false;
      }
      if published {
        published := false;
      }
    }

    method StreamPut()
      modifies this
      ensures State() == PutRef(old(State()))
    {
      ref := ref - 1;
      if ref == 0 {
        if inRecvList {
          inRecvList := false;
        }
        StreamUnpublish();
        released := true;
      }
    }

    method FindEnd() returns (found: nat)
      requires indexes.Valid() && indexes.OneReference()
      modifies this`ref, this`last, indexes
      ensures indexes.Valid() && indexes.OneReference() && State() == EndKnown(old(State()), found)
      ensures old(last) == NONE ==> MayFind(ClosePartial(old(State()).t).indexes.Keys, found)
    {
      hide WellFormed;
      found := NONE;
      if last == NONE {
        var before := indexes.puts;
        indexes.ClosePartialFd();
        ref := ref - (indexes.puts - before);
        found := indexes.FindLast();
        last := found;
      }
    }

    method FinishClose()
      requires indexes.Valid() && indexes.OneReference()
      modifies this, indexes
      ensures indexes.Valid() && State() == MarkClosed(old(State()))
    {
      StreamUnpublish();
      closed := true;
      closes := closes + 1;
      var before := indexes.puts;
      indexes.CloseAll();
      ref := ref - (indexes.puts - before);
    }

    /** Returns the sequence number found by the search, when there was one. */
    method TryStreamClose(aborted: bool) returns (found: nat)
      requires indexes.Valid() && indexes.OneReference()
      modifies this, indexes
      ensures indexes.Valid() && State() == TryClose(old(State()), aborted, found)
      ensures !old(closed) && old(last) == NONE ==> MayFind(ClosePartial(old(State()).t).indexes.Keys, found)
    {
      hide WellFormed, EndKnown, MarkClosed, Behind, ClosePartial, MayFind;
      found := NONE;
      if closed {
        return;
      }
      closeRequested := true;
      found := FindEnd();
      if last != NONE && Behind(indexes.prevSeq, last) && !aborted {
        return;
      }
      FinishClose();
    }
  }

  // ---------------------------------------------------------------------
  // Steps
  // ---------------------------------------------------------------------

  datatype Step = Begin(c: Command) | Region | CloseRegion(aborted: bool, last: nat) | PutSelf | PutLocal
                | ConnectionClose | StreamsSent | ViewerGet | ViewerPut | CreateViewer | CreateDone(ok: bool) | ViewerDetach

  predicate Enabled(s: Stream, step: Step) {
    match step
    case Begin(c) => s.work.Idle?
    case Region => s.work.Holding? && s.t.inFlight == |s.t.indexes| && WellFormed(s.t.tfa)
    case CloseRegion(aborted, last) => s.work.Closing? && MayFind(ClosePartial(s.t).indexes.Keys, last)
    case PutSelf => s.work.PuttingSelf?
    case PutLocal => s.work.PuttingLocal?
    case ConnectionClose => s.work.Idle? && (s.published || s.inRecvList)
    case StreamsSent => s.work.Idle? && s.inRecvList
    case ViewerGet => s.seen && s.ref != 0
    case ViewerPut => s.holds > 0
    case CreateViewer => s.holds > 0 && s.ref != 0
    case CreateDone(_) => s.creating > 0
    case ViewerDetach => s.viewers > 0
  }

  function HandleCommand(s: Stream, c: Command): Stream
    requires s.t.inFlight == |s.t.indexes| && WellFormed(s.t.tfa)
  {
    match c
    case IndexCommand(n, info, writeOk) => WithTable(s, Control(s.t, n, info, writeOk).0).(work := PuttingLocal)
    case DataCommand(n, size, padding, luck) =>
      var s' := WithTable(s, Process(s.t, n, size, padding, luck).0);
      s'.(work := if s.closeRequested then Closing(true) else PuttingLocal)
    case CloseCommand(last) => s.(last := last, work := Closing(true))
    case PendingCommand => s.(work := PuttingLocal)
  }

  function Next(s: Stream, step: Step): Stream
    requires Enabled(s, step)
  {
    match step
    case Begin(c) => if s.inStreamHt && s.ref != 0 then s.(ref := s.ref + 1, work := Holding(c)) else s
    case Region => HandleCommand(s, s.work.c)
    case CloseRegion(aborted, last) =>
      var s' := TryClose(s, aborted, last);
      s'.(work := if s'.closed && !s.closed then PuttingSelf(s.work.local) else if s.work.local then PuttingLocal else Idle)
    case PutSelf => PutRef(s).(work := if s.work.local then PuttingLocal else Idle)
    case PutLocal => PutRef(s).(work := Idle)
    case ConnectionClose => s.(work := Closing(false))
    case StreamsSent => Publish(s)
    case ViewerGet => s.(ref := s.ref + 1, holds := s.holds + 1)
    case ViewerPut => PutRef(s).(holds := s.holds - 1)
    case CreateViewer => s.(ref := s.ref + 1, creating := s.creating + 1)
    case CreateDone(ok) =>
      if ok then s.(creating := s.creating - 1, viewers := s.viewers + 1)
      else s.(creating := s.creating - 1, leaked := s.leaked + 1)
    case ViewerDetach => PutRef(s).(viewers := s.viewers - 1)
  }

  // ---------------------------------------------------------------------
  // Invariants
  // ---------------------------------------------------------------------

  /** The reference the stream holds on itself until it is closed. */
  function SelfRef(s: Stream): nat {
    if s.closed && !s.work.PuttingSelf? then 0 else 1
  }

  /** The reference the worker holds. */
  function LocalRef(w: Work): nat {
    match w
    case Idle => 0
    case Holding(_) => 1
    case Closing(local) => if local then 1 else 0
    case PuttingSelf(local) => if local then 1 else 0
    case PuttingLocal => 1
  }

  predicate RefsCounted(s: Stream) {
    && s.ref == SelfRef(s) + |s.t.indexes| + s.viewers + s.creating + s.holds + LocalRef(s.work) + s.leaked
    && (s.released <==> s.ref == 0)
  }

  predicate TablesAgree(s: Stream) {
    && (s.closed ==> s.t.indexes == map[] && !s.published && !s.inStreamHt && s.closeRequested && s.closes == 1)
    && (!s.closed ==> s.inStreamHt && s.closes == 0)
    && (s.inRecvList ==> !s.seen && !s.published)
    && (s.published ==> s.seen)
    && (!s.seen ==> s.viewers == 0 && s.creating == 0 && s.holds == 0 && s.leaked == 0)
    && (s.released ==> !s.inRecvList && !s.published && !s.inStreamHt)
  }

  predicate WorkAgrees(s: Stream) {
    && (s.work.Holding? || s.work.Closing? ==> !s.closed)
    && (s.work.PuttingSelf? ==> s.closed)
    && (s.closeRequested && !s.closed && !s.work.Closing? ==> StillPending(s))
  }

  ghost predicate Inv(s: Stream) {
    TableInv(s.t) && RefsCounted(s) && TablesAgree(s) && WorkAgrees(s)
  }

  lemma NewStreamInv(count: nat, limit: nat)
    ensures Inv(NewStream(count, limit))
  {
    NewTableInv(count, limit);
  }

  lemma RegionInv(s: Stream)
    requires Inv(s) && Enabled(s, Region)
    ensures Inv(Next(s, Region))
  {
    hide TableInv, Control, Process, Behind;
    TableFacts(s.t);
    match s.work.c
    case IndexCommand(n, info, writeOk) =>
      ControlInv(s.t, n, info, writeOk);
      TableFacts(Control(s.t, n, info, writeOk).0);
      ControlKeepsPrev(s.t, n, info, writeOk);
    case DataCommand(n, size, padding, luck) =>
      ProcessInv(s.t, n, size, padding, luck);
      TableFacts(Process(s.t, n, size, padding, luck).0);
    case CloseCommand(last) =>
    case PendingCommand =>
  }

  lemma ControlKeepsPrev(t: Table, n: nat, info: Info, writeOk: bool)
    requires TableInv(t)
    ensures t.inFlight == |t.indexes| && WellFormed(t.tfa) && Control(t, n, info, writeOk).0.prevSeq == t.prevSeq
  {
    hide Halved, Quiet, Located, Sequential, OffsetsExact;
    ControlFrame(t, n, info, writeOk);
  }

  lemma CloseRegionInv(s: Stream, aborted: bool, last: nat)
    requires Inv(s) && Enabled(s, CloseRegion(aborted, last))
    ensures Inv(Next(s, CloseRegion(aborted, last)))
  {
    hide TableInv, EndKnown, MarkClosed, Behind, MayFind;
    var s1 := s.(closeRequested := true);
    EndKnownKeeps(s1, last);
    MarkClosedKeeps(EndKnown(s1, last));
  }

  lemma EndKnownKeeps(s: Stream, last: nat)
    requires TableInv(s.t) && RefsCounted(s) && TablesAgree(s) && !s.closed
    ensures var s' := EndKnown(s, last);
            && TableInv(s'.t) && RefsCounted(s') && TablesAgree(s') && !s'.closed
            && s'.work == s.work && s'.closeRequested == s.closeRequested
  {
    hide TableInv, ClosePartial;
    ClosePartialInv(s.t);
    TableFacts(s.t);
    TableFacts(ClosePartial(s.t));
    ClosePartialTakes(s.t);
  }

  lemma ClosePartialTakes(t: Table)
    ensures ClosePartial(t).gets == t.gets && (t.indexes == map[] ==> ClosePartial(t).indexes == map[])
  {
  }

  lemma MarkClosedKeeps(s: Stream)
    requires TableInv(s.t) && RefsCounted(s) && TablesAgree(s) && !s.closed && s.work.Closing? && s.closeRequested
    ensures var s' := MarkClosed(s);
            && s'.closed && s'.work == s.work && TableInv(s'.t)
            && var next := s'.(work := PuttingSelf(s.work.local));
            RefsCounted(next) && TablesAgree(next) && WorkAgrees(next)
  {
    hide TableInv, Behind;
    CloseAllInv(s.t);
  }

  lemma StepInv(s: Stream, step: Step)
    requires Inv(s) && Enabled(s, step)
    ensures Inv(Next(s, step))
  {
    match step
    case Region => RegionInv(s);
    case CloseRegion(aborted, last) => CloseRegionInv(s, aborted, last);
    case Begin(_) => WorkerStepInv(s, step);
    case PutSelf => WorkerStepInv(s, step);
    case PutLocal => WorkerStepInv(s, step);
    case ConnectionClose => WorkerStepInv(s, step);
    case StreamsSent => WorkerStepInv(s, step);
    case _ => ViewerStepInv(s, step);
  }

  lemma WorkerStepInv(s: Stream, step: Step)
    requires Inv(s) && Enabled(s, step)
    requires step.Begin? || step.PutSelf? || step.PutLocal? || step.ConnectionClose? || step.StreamsSent?
    ensures Inv(Next(s, step))
  {
    hide TableInv, Behind;
  }

  lemma ViewerStepInv(s: Stream, step: Step)
    requires Inv(s) && Enabled(s, step)
    requires step.ViewerGet? || step.ViewerPut? || step.CreateViewer? || step.CreateDone? || step.ViewerDetach?
    ensures Inv(Next(s, step))
  {
    hide TableInv, Behind;
  }

  // ---------------------------------------------------------------------
  // Whole runs
  // ---------------------------------------------------------------------

  ghost predicate IsRun(states: seq<Stream>, steps: seq<Step>) {
    && |states| == |steps| + 1
    && forall i | 0 <= i < |steps| :: Enabled(states[i], steps[i]) && states[i + 1] == Next(states[i], steps[i])
  }

  /** Every state of every run from the creation of a stream. */
  lemma {:induction false} RunInv(count: nat, limit: nat, states: seq<Stream>, steps: seq<Step>, k: nat)
    requires IsRun(states, steps) && states[0] == NewStream(count, limit) && k < |states|
    ensures Inv(states[k])
  {
    hide Inv, Enabled, Next;
    if k == 0 {
      NewStreamInv(count, limit);
    } else {
      RunInv(count, limit, states, steps, k - 1);
      StepInv(states[k - 1], steps[k - 1]);
    }
  }

  /** No thread and no viewer stream holds the stream. */
  predicate Unheld(s: Stream) {
    s.viewers == 0 && s.creating == 0 && s.holds == 0 && LocalRef(s.work) == 0 && !s.work.PuttingSelf?
  }

  /** In every state: closed at most once, and after closing no index in flight and no
      published table; released exactly when closed, unheld, and no reference leaked. */
  lemma ClosedAndReleased(count: nat, limit: nat, states: seq<Stream>, steps: seq<Step>, k: nat)
    requires IsRun(states, steps) && states[0] == NewStream(count, limit) && k < |states|
    ensures var s := states[k];
            && s.closes <= 1
            && (s.closed ==> s.t.inFlight == 0 && !s.published && !s.inStreamHt)
            && (s.released <==> s.closed && Unheld(s) && s.leaked == 0)
  {
    RunInv(count, limit, states, steps, k);
    hide Halved, Quiet, Located, Sequential, OffsetsExact;
  }

  /** Between two commands, a stream asked to close is closed, or the end it knows of
      has not been reached. */
  lemma CloseIsPrompt(count: nat, limit: nat, states: seq<Stream>, steps: seq<Step>, k: nat)
    requires IsRun(states, steps) && states[0] == NewStream(count, limit) && k < |states|
    requires states[k].work.Idle? && states[k].closeRequested
    ensures states[k].closed || (states[k].last != NONE && Behind(states[k].t.prevSeq, states[k].last))
  {
    RunInv(count, limit, states, steps, k);
    hide TableInv, Behind;
  }

  /** No reference is put that is not held: the assertion of `stream_put` never fails. */
  lemma PutsAreHeld(count: nat, limit: nat, states: seq<Stream>, steps: seq<Step>, k: nat)
    requires IsRun(states, steps) && states[0] == NewStream(count, limit) && k < |steps|
    requires steps[k].PutSelf? || steps[k].PutLocal? || steps[k].ViewerPut? || steps[k].ViewerDetach?
    ensures states[k].ref > 0 && !states[k].released
  {
    assert Enabled(states[k], steps[k]);
    RunInv(count, limit, states, steps, k);
    hide TableInv;
  }

  /** The same for the puts of indexes that go: before each of those of a region the count is
      more than 1, so none of them releases the stream under its own lock. */
  lemma IndexPutsAreHeld(count: nat, limit: nat, states: seq<Stream>, steps: seq<Step>, k: nat)
    requires IsRun(states, steps) && states[0] == NewStream(count, limit) && k < |steps|
    requires steps[k].Region? || steps[k].CloseRegion?
    ensures states[k + 1].t.puts - states[k].t.puts < states[k].ref
  {
    assert Enabled(states[k], steps[k]);
    hide Inv, Enabled, Next;
    RunInv(count, limit, states, steps, k);
    RegionPuts(states[k], steps[k]);
  }

  lemma RegionPuts(s: Stream, step: Step)
    requires Inv(s) && Enabled(s, step) && (step.Region? || step.CloseRegion?)
    ensures Next(s, step).t.puts - s.t.puts < s.ref
  {
    hide Inv, HandleCommand, TryClose;
    StepInv(s, step);
    TableOf(s);
    if step.Region? {
      CommandGets(s, s.work.c);
      HolderRefs(s);
    } else {
      CloseGets(s, step.aborted, step.last);
      HolderRefs(s);
    }
    TableOf(Next(s, step));
  }

  lemma TableOf(s: Stream)
    requires Inv(s)
    ensures Counts(s.t)
  {
    hide Halved, Quiet, Located, Sequential, OffsetsExact, Past;
  }

  /** A worker in a region has the stream's own reference, or one of its own, beside those of the indexes. */
  lemma HolderRefs(s: Stream)
    requires Inv(s) && (s.work.Holding? || s.work.Closing?)
    ensures s.ref >= |s.t.indexes| + 1 + LocalRef(s.work)
  {
    hide TableInv, Behind;
  }

  lemma CommandGets(s: Stream, c: Command)
    requires Counts(s.t)
    ensures HandleCommand(s, c).t.gets <= s.t.gets + 1
  {
    hide Control, Process;
    match c
    case IndexCommand(n, info, writeOk) => ControlGets(s.t, n, info, writeOk);
    case DataCommand(n, size, padding, luck) => ProcessGets(s.t, n, size, padding, luck);
    case _ =>
  }

  lemma CloseGets(s: Stream, aborted: bool, last: nat)
    requires Enabled(s, CloseRegion(aborted, last))
    ensures Next(s, CloseRegion(aborted, last)).t.gets == s.t.gets
  {
    hide Behind, MayFind, ClosePartial;
    ClosePartialTakes(s.t);
  }

  lemma CompleteGets(t: Table, n: nat, writeOk: bool)
    requires n in t.indexes && t.inFlight > 0 && WellFormed(t.tfa)
    ensures Complete(t, n, writeOk).0.gets == t.gets && Drop(t, n).0.gets == t.gets
  {
    hide Committed;
  }

  /** A region creates at most one index. */
  lemma ControlGets(t: Table, n: nat, info: Info, writeOk: bool)
    requires Counts(t)
    ensures Control(t, n, info, writeOk).0.gets <= t.gets + 1
  {
    hide Complete, Drop;
    if info.packetSize != 0 {
      var t1 := GetOrCreate(t.(beacon := NONE), n);
      var index := t1.indexes[n].(info := Some(info));
      CreateCounts(t.(beacon := NONE), n, index);
      CompleteGets(t1, n, writeOk);
      CompleteGets(t1.(indexes := t1.indexes[n := index]), n, writeOk);
    }
  }

  lemma ProcessGets(t: Table, n: nat, size: nat, padding: nat, luck: Luck)
    requires Counts(t)
    ensures Process(t, n, size, padding, luck).0.gets <= t.gets + 1
  {
    hide HandleData, Complete, Drop, Rotated;
    RotatedCounts(t);
    if !RotationFails(t, size, luck) {
      var rotate := RotationNeeded(t, size);
      var t1 := if rotate then RotateFile(t) else t;
      HandleIs(t1, n, rotate, luck.fileOk, luck.writeOk);
      var t2 := FileChosen(t1, n, rotate, luck.fileOk);
      hide Counts;
      CompleteGets(t2, n, luck.writeOk);
      CompleteGets(FileGiven(t2, n), n, luck.writeOk);
    }
  }

  /** Closing and releasing are final. */
  lemma {:induction false} ClosedStays(count: nat, limit: nat, states: seq<Stream>, steps: seq<Step>, i: nat, j: nat)
    requires IsRun(states, steps) && states[0] == NewStream(count, limit) && i <= j < |states|
    ensures states[i].closed ==> states[j].closed
    ensures states[i].released ==> states[j].released
    decreases j
  {
    hide Inv, Next, Enabled;
    if i == j {
    } else {
      ClosedStays(count, limit, states, steps, i, j - 1);
      RunInv(count, limit, states, steps, j - 1);
      FinalStep(states[j - 1], steps[j - 1]);
    }
  }

  lemma FinalStep(s: Stream, step: Step)
    requires Inv(s) && Enabled(s, step)
    ensures s.closed ==> Next(s, step).closed
    ensures s.released ==> Next(s, step).released
    ensures s.leaked <= Next(s, step).leaked
  {
    hide TableInv, MayFind, ClosePartial, Behind, Control, Process;
  }

  /** After one viewer stream could not be created, the stream is never released. */
  lemma {:induction false} LeakIsForever(count: nat, limit: nat, states: seq<Stream>, steps: seq<Step>, i: nat, j: nat)
    requires IsRun(states, steps) && states[0] == NewStream(count, limit) && i <= j < |states| && states[i].leaked > 0
    ensures states[j].leaked > 0 && !states[j].released
    decreases j
  {
    hide Inv, Next, Enabled;
    RunInv(count, limit, states, steps, j);
    if i == j {
    } else {
      LeakIsForever(count, limit, states, steps, i, j - 1);
      RunInv(count, limit, states, steps, j - 1);
      FinalStep(states[j - 1], steps[j - 1]);
    }
    LeakHolds(states[j]);
  }

  lemma LeakHolds(s: Stream)
    requires Inv(s) && s.leaked > 0
    ensures !s.released
  {
    hide TableInv;
  }

  /** Such a run: published, a viewer attaches in vain, the connection closes.  The stream
      is closed and nobody holds it, yet it is not released. */
  lemma FailedAttachLeaks(count: nat, limit: nat) returns (states: seq<Stream>, steps: seq<Step>)
    ensures IsRun(states, steps) && states[0] == NewStream(count, limit)
    ensures var s := states[|steps|]; s.closed && Unheld(s) && s.leaked == 1 && s.ref == 1 && !s.released
  {
    var s0 := NewStream(count, limit);
    steps := [StreamsSent, ViewerGet, CreateViewer, CreateDone(false), ViewerPut, ConnectionClose,
              CloseRegion(false, NONE), PutSelf];
    var s1 := Next(s0, StreamsSent);
    var s2 := Next(s1, ViewerGet);
    var s3 := Next(s2, CreateViewer);
    var s4 := Next(s3, CreateDone(false));
    var s5 := Next(s4, ViewerPut);
    var s6 := Next(s5, ConnectionClose);
    assert ClosePartial(s6.t).indexes == map[];
    var s7 := Next(s6, CloseRegion(false, NONE));
    var s8 := Next(s7, PutSelf);
    states := [s0, s1, s2, s3, s4, s5, s6, s7, s8];
  }
}
