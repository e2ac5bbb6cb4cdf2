/**
 When a live viewer is sent every index once, in order.

 The hypotheses are those under which nothing of what `LiveViewerRuns` and
 `LiveViewerSent` describe goes wrong: the ring has no files (no rotation) or at least two,
 no rotation leaves an empty file, every index is written to the file it is counted in
 (no index completes after a rotation), and index files can be created and opened.
 */
module LiveViewerOrder {
  import opened Wrappers
  import opened TracefileArray
  import opened LiveViewer
  import opened LiveViewerRuns
  import opened LiveViewerSent

  // ---------------------------------------------------------------------
  // The stream
  // ---------------------------------------------------------------------

  /** Every index was written to the file it is counted in. */
  ghost predicate InStep(s: Stream) {
    forall i | 0 <= i < |s.homes| :: s.homes[i] < |s.log.starts| && InGeneration(s.log, s.homes[i], i)
  }

  /** Once there is an index, every live generation has its file. */
  ghost predicate NamesThere(s: Stream)
    requires |s.log.starts| > 0
  {
    forall g: nat, i | Live(s.log, |s.t.tf|, g) && 0 <= i < |s.names| && i == Slot(g, |s.t.tf|) ::
      s.names[i] == Some(g) || s.log.total == 0
  }

  ghost predicate StreamInv(s: Stream) {
    && RingInv(s) && Refines(s.t, s.log) && |s.t.tf| != 1 && NoEmptyFile(s.log) && InStep(s) && NamesThere(s)
  }

  lemma StartInv(count: nat)
    requires count != 1
    ensures StreamInv(Start(count))
  {
    StartRing(count);
    CreatedRefines(count);
    hide RingInv, Refines;
  }

  lemma StreamFacts(s: Stream)
    requires StreamInv(s)
    ensures RingInv(s) && s.log.Valid() && |s.files| == |s.log.starts| > 0 && StreamOk(s)
    ensures |s.homes| == |s.entries| == s.log.total == s.received < NONE
  {
    RingFacts(s);
  }

  /** The newest file is there, and the index goes to it. */
  ghost predicate WritesHead(s: Stream, g: nat) {
    g + 1 == |s.files| && s.t.fileHead < |s.names| && s.names[s.t.fileHead] == Some(g)
  }

  lemma CommitInv(s: Stream, e: Entry, g: nat)
    requires StreamInv(s) && s.log.total + 1 < NONE && WritesHead(s, g)
    ensures StreamOk(s) && StreamInv(Commit(s, e, g))
  {
    StreamFacts(s);
    CommitRing(s, e, g);
    CommitRefines(s.t, s.log);
    HeadSlot(s);
    LogOrder(s.log, g, g);
    CommitInStep(s, e, g);
    CommitNames(s, e, g);
    hide RingInv, Refines, InStep, NamesThere, Committed;
  }

  lemma CommitInStep(s: Stream, e: Entry, g: nat)
    requires InStep(s) && s.log.Valid() && WellFormed(s.t) && g + 1 == |s.files| == |s.log.starts|
    requires |s.homes| == s.log.total
    ensures InStep(Commit(s, e, g))
  {
    hide Committed;
  }

  lemma CommitNames(s: Stream, e: Entry, g: nat)
    requires RingInv(s) && |s.log.starts| > 0 && NamesThere(s) && WritesHead(s, g) && StreamOk(s) && NoEmptyFile(s.log)
    ensures NamesThere(Commit(s, e, g))
  {
    RingFacts(s);
    HeadSlot(s);
    if s.log.total == 0 { StrictOrder(s.log, 0, s.log.HeadGen()); }
    hide RingInv, Committed;
  }

  lemma StrictOrder(log: Log, i: nat, j: nat)
    requires log.Valid() && NoEmptyFile(log) && i <= j < |log.starts|
    ensures i < j ==> log.starts[i] < log.starts[j]
  {
    if i < j {
      LogOrder(log, i + 1, j);
      assert log.starts[i] < log.starts[i + 1];
    }
  }

  /** Something is counted in the file being written, so it may be rotated out. */
  ghost predicate MayRotate(s: Stream)
    requires |s.log.starts| > 0
  {
    |s.t.tf| == 0 || s.log.starts[s.log.HeadGen()] < s.log.total
  }

  lemma RotateInv(s: Stream)
    requires StreamInv(s) && |s.log.starts| > 0 && MayRotate(s)
    ensures StreamOk(s) && StreamInv(Rotate(s, FileCreated))
  {
    StreamFacts(s);
    if |s.t.tf| > 0 {
      RotateRing(s, FileCreated);
      NonEmptyRotationIsSafe(s.t, s.log);
      RotateRefinesExactly(s.t, s.log);
      RotateNames(s);
      hide RingInv, Refines, NamesThere, Rotated;
    }
  }

  lemma RotateNames(s: Stream)
    requires RingInv(s) && |s.log.starts| > 0 && NamesThere(s) && |s.t.tf| > 0 && StreamOk(s) && s.log.total > 0
    ensures |Rotate(s, FileCreated).log.starts| > 0 && NamesThere(Rotate(s, FileCreated))
  {
    hide RingInv, Rotated;
    var s' := Rotate(s, FileCreated);
    RingFacts(s);
    RotateRing(s, FileKept);
    HeadSlot(Rotate(s, FileKept));
    forall g: nat, i | Live(s'.log, |s'.t.tf|, g) && 0 <= i < |s'.names| && i == Slot(g, |s'.t.tf|)
      ensures s'.names[i] == Some(g)
    {
      RotatedValid(s.log);
      HeadAlone(s'.log, |s.t.tf|, g);
    }
  }

  lemma CreateInv(s: Stream)
    requires StreamInv(s)
    ensures StreamOk(s) && |s.files| > 0 && StreamInv(Create(s, FileCreated))
  {
    StreamFacts(s);
    CreateRing(s, FileCreated);
    HeadSlot(s);
    if |s.t.tf| == 0 { OneGeneration(s); }
    hide RingInv, Refines;
    var s' := Create(s, FileCreated);
    forall g: nat, i | Live(s'.log, |s'.t.tf|, g) && 0 <= i < |s'.names| && i == Slot(g, |s'.t.tf|)
      ensures s'.names[i] == Some(g) || s.log.total == 0
    {
      HeadAlone(s.log, |s.t.tf|, g);
    }
  }

  // ---------------------------------------------------------------------
  // The cursor
  // ---------------------------------------------------------------------

  /** The cursor stands in generation `g`, possibly at its end. */
  ghost predicate ViewerAt(s: Stream, v: Viewer, g: nat) {
    && CursorInRing(s, v) && UsesSlot(s, v.cur, g) && s.log.starts[g] <= v.sent <= s.log.End(g)
    && if v.file.Closed? then g == 0 && v.sent == 0
       else s.log.total > 0 && v.file.gen == g && s.log.starts[g] + v.file.pos == v.sent
  }

  ghost predicate ViewerInv(s: Stream, v: Viewer) {
    exists g: nat :: ViewerAt(s, v, g)
  }

  /** Every index counted in a generation, up to `k`, is in its file. */
  lemma RankInStep(s: Stream, g: nat, k: nat)
    requires FilesHold(s) && InStep(s) && s.log.Valid() && g < |s.log.starts| == |s.files|
    requires s.log.starts[g] <= k <= s.log.End(g) && |s.homes| == s.log.total
    ensures k <= s.log.total && Rank(s.homes, g, k) == k - s.log.starts[g]
    ensures forall i | s.log.starts[g] <= i < k :: s.homes[i] == g
  {
    LogOrder(s.log, g, g);
    RankBefore(s, g, s.log.starts[g]);
    forall i | s.log.starts[g] <= i < k
      ensures s.homes[i] == g
    {
      SameGeneration(s.log, s.homes[i], g, i);
    }
    RankAll(s.homes, g, s.log.starts[g], k);
  }

  /** Reading before the end of the generation delivers the index under the cursor. */
  lemma ReadDelivers(s: Stream, w: Viewer, g: nat)
    requires StreamInv(s) && ViewerAt(s, w, g) && w.file.Open? && w.sent < s.log.End(g)
    ensures w.sent < |s.entries|
    ensures var (v', r) := ReadEntry(s, w);
            ViewerAt(s, v', g) && r == Ok(s.entries[w.sent]) && v'.sent == w.sent + 1
  {
    hide RingInv, Refines, NamesThere, NoEmptyFile, Slot, FilesHold, InStep;
    StreamFacts(s);
    FilesFact(s);
    LogOrder(s.log, g, g);
    hide Log.Valid;
    RankInStep(s, g, w.sent);
    RankBefore(s, g, s.log.starts[g]);
    var n := ReadSince(s, w, s.log.starts[g]);
    RankInStepNext(s, w, g);
  }

  lemma RankInStepNext(s: Stream, w: Viewer, g: nat)
    requires StreamInv(s) && g < |s.log.starts| && s.log.starts[g] <= w.sent < s.log.End(g)
    ensures |s.homes| == s.log.total && w.sent < s.log.total && s.homes[w.sent] == g
    ensures Rank(s.homes, g, s.log.total) > w.sent - s.log.starts[g]
  {
    StreamFacts(s);
    FilesFact(s);
    LogOrder(s.log, g, g);
    RankInStep(s, g, w.sent + 1);
    RankGrows(s.homes, g, w.sent + 1, s.log.total);
  }

  lemma TailSlot(s: Stream)
    requires StreamInv(s)
    ensures |s.log.starts| > 0 && UsesSlot(s, s.t.fileTail, s.log.TailGen(|s.t.tf|))
    ensures s.t.seqTail == TrueTail(|s.t.tf|, s.log)
  {
    hide FilesHold, NamesHold, FilesMatch;
  }

  lemma CommitKeepsViewer(s: Stream, e: Entry, g: nat, v: Viewer)
    requires WellFormed(s.t) && g < |s.files| && ViewerInv(s, v)
    ensures ViewerInv(Commit(s, e, g), v)
  {
    hide Slot;
    var h: nat :| ViewerAt(s, v, h);
    assert ViewerAt(Commit(s, e, g), v, h);
  }

  lemma RotateKeepsViewer(s: Stream, c: Creation, v: Viewer)
    requires StreamOk(s) && |s.files| > 0 && s.log.Valid() && ViewerInv(s, v)
    ensures ViewerInv(Rotate(s, c), v) && ViewerInv(Create(s, c), v)
  {
    hide Slot;
    var g: nat :| ViewerAt(s, v, g);
    assert ViewerAt(Rotate(s, c), v, g);
    assert ViewerAt(Create(s, c), v, g);
  }

  // ---------------------------------------------------------------------
  // Requests
  // ---------------------------------------------------------------------

  /** The oldest sequence number that is still on disk. */
  ghost function Oldest(s: Stream): nat
    requires |s.log.starts| > 0
  {
    s.log.starts[s.log.TailGen(|s.t.tf|)]
  }

  /** What a request promises, from the cursor at `v` to the cursor at `v'`. */
  ghost predicate Served(s: Stream, v: Viewer, v': Viewer, r: Reply, q: Query)
    requires |s.log.starts| > 0
  {
    var closing := q.connectionClosed || q.streamClosed;
    && ViewerInv(s, v') && v.sent <= v'.sent <= s.log.total && !Failed(r)
    && (r.Inactive? ==> r.ts == q.beacon != NONE && !closing && s.received > 0)
    && (r.Hup? ==> closing && s.received > 0) && (r.Retry? ==> s.received == 0 || (!closing && q.beacon == NONE))
    && if r.Ok? then
         && v.sent < v'.sent <= |s.entries| && r.entry == s.entries[v'.sent - 1]
         && (v'.sent == v.sent + 1 || v'.sent == Oldest(s) + 1)
       else v'.sent == v.sent == s.log.total
  }

  /** The file that a cursor of generation `g` would open under its name. */
  lemma OpensOwn(s: Stream, i: nat, g: nat)
    requires StreamInv(s) && s.log.total > 0 && |s.log.starts| > 0 && Live(s.log, |s.t.tf|, g) && UsesSlot(s, i, g)
    ensures i < |s.names| && OpenIndex(s, i, true) == Open(g, 0)
  {
    StreamFacts(s);
    if |s.t.tf| == 0 { OneGeneration(s); }
    SlotBound(s, i, g);
    hide RingInv, Refines, Slot;
  }

  /** Attaching puts the cursor at the oldest index or past the newest. */
  lemma AttachInv(s: Stream, seek: Seek)
    requires StreamInv(s)
    ensures StreamOk(s) && |s.log.starts| > 0
    ensures var v := Attach(s, seek, true);
            && v.Some? && ViewerInv(s, v.value)
            && v.value.sent == if seek.Last? then s.log.total else s.log.starts[s.log.TailGen(|s.t.tf|)]
  {
    hide StreamInv, RingInv, Slot, OpenIndex;
    StreamFacts(s);
    HeadCount(s);
    HeadSlot(s);
    TailSlot(s);
    LogShape(s.log, |s.t.tf|);
    var g := if seek.Beginning? then s.log.TailGen(|s.t.tf|) else s.log.HeadGen();
    LogOrder(s.log, g, g);
    hide Log.Valid;
    if s.log.total == 0 {
      EmptyStream(s);
    } else {
      OpensOwn(s, if seek.Beginning? then s.t.fileTail else s.t.fileHead, g);
      FileFull(s, g);
    }
    assert ViewerAt(s, Attach(s, seek, true).value, g);
  }

  lemma EmptyStream(s: Stream)
    requires StreamInv(s) && s.log.total == 0
    ensures |s.log.starts| == 1
  {
    StreamFacts(s);
    StrictOrder(s.log, 0, s.log.HeadGen());
  }

  lemma FileFull(s: Stream, g: nat)
    requires StreamInv(s) && g < |s.log.starts|
    ensures g < |s.files| && |s.files[g]| == s.log.End(g) - s.log.starts[g]
  {
    StreamFacts(s);
    FilesFact(s);
    LogOrder(s.log, g, g);
    FileSize(s, g);
    RankInStep(s, g, s.log.End(g));
    hide StreamInv, RingInv, FilesHold, Log.Valid;
    NoneAfter(s, g);
  }

  /** Nothing is written to a file after its generation. */
  lemma NoneAfter(s: Stream, g: nat)
    requires StreamInv(s) && g < |s.log.starts|
    ensures |s.homes| == s.log.total && s.log.End(g) <= s.log.total
    ensures Rank(s.homes, g, s.log.total) == Rank(s.homes, g, s.log.End(g))
  {
    StreamFacts(s);
    LogOrder(s.log, g, g);
    hide RingInv, Log.Valid;
    RankStays(s.homes, g, s.log.End(g), s.log.total);
  }

  lemma {:induction false} RankStays(homes: seq<nat>, g: nat, j: nat, k: nat)
    requires j <= k <= |homes| && forall i | j <= i < k :: homes[i] != g
    ensures Rank(homes, g, k) == Rank(homes, g, j)
    decreases k
  {
    if j == k {
    } else {
      RankStays(homes, g, j, k - 1);
    }
  }

  /** A sequence number in reach of `g` is in `g` or opens the next generation. */
  lemma NextGeneration(log: Log, g: nat, h: nat, x: nat)
    requires log.Valid() && NoEmptyFile(log) && g < |log.starts| && h < |log.starts|
    requires log.starts[g] <= x <= log.End(g) && InGeneration(log, h, x)
    ensures h == g || (h == g + 1 && x == log.starts[h])
  {
    if h < g {
      LogOrder(log, h, g);
    } else if g < h {
      LogOrder(log, g, h);
      StrictOrder(log, g + 1, h);
    }
  }

  /** The cursor with its file open. */
  lemma OpensFile(s: Stream, v: Viewer, g: nat)
    requires StreamInv(s) && ViewerAt(s, v, g) && s.log.total > 0
    ensures Opened(s, v, true).file.Open?
    ensures |s.log.starts| > 0 && Live(s.log, |s.t.tf|, g) ==> ViewerAt(s, Opened(s, v, true), g)
  {
    StreamFacts(s);
    if v.file.Closed? {
      var h := LiveOwner(s, v.cur, g);
      OpensOwn(s, v.cur, h);
      if Live(s.log, |s.t.tf|, g) { OpensOwn(s, v.cur, g); }
      hide StreamInv, RingInv, Slot;
    }
  }

  /** The index wanted is still there: it is in the cursor's file or the first of the next. */
  lemma LandsInReach(s: Stream, v: Viewer, g: nat, h: nat, q: Query) returns (w: Viewer)
    requires StreamInv(s) && ViewerAt(s, v, g) && h < |s.log.starts| && InGeneration(s.log, h, v.sent)
    requires Live(s.log, |s.t.tf|, h) && q.openOk && q.reopenOk
    requires var (v', r) := NextIndex(s, v, q); Explained(s, v, h, q, v', r)
    ensures ViewerAt(s, w, h) && w.file.Open? && w.sent == v.sent
    ensures NextIndex(s, v, q) == ReadEntry(s, w)
  {
    StreamFacts(s);
    LogOrder(s.log, h, h);
    NextGeneration(s.log, g, h, v.sent);
    OpensFile(s, v, g);
    if h == g {
      w := Opened(s, v, true);
      hide StreamInv, RingInv, NextIndex, ReadEntry, Slot, Opened, Log.Valid;
    } else {
      NextSlot(s, g);
      OpensOwn(s, Slot(h, |s.t.tf|), h);
      w := Advanced(s, v, q);
      hide StreamInv, RingInv, NextIndex, ReadEntry, Slot, Opened, OpenIndex, Log.Valid;
    }
  }

  lemma NextSlot(s: Stream, g: nat)
    requires StreamInv(s) && g + 1 < |s.log.starts|
    ensures var count := |s.t.tf|;
            && count >= 2 && Slot(g + 1, count) == Next(Slot(g, count), count) != Slot(g, count)
            && Slot(g + 1, count) < |s.names|
  {
    StreamFacts(s);
    if |s.t.tf| == 0 { OneGeneration(s); }
    SlotsDiffer(g, g + 1, |s.t.tf|);
    SlotInRange(g + 1, |s.t.tf|);
  }

  /** The index wanted was overwritten: the oldest index left is next. */
  lemma LandsAtTail(s: Stream, v: Viewer, g: nat, h: nat, q: Query)
    requires StreamInv(s) && ViewerAt(s, v, g) && h < |s.log.starts| && InGeneration(s.log, h, v.sent)
    requires !Live(s.log, |s.t.tf|, h) && q.openOk && q.reopenOk
    requires var (v', r) := NextIndex(s, v, q); Explained(s, v, h, q, v', r)
    ensures StreamOk(s)
    ensures var w, tail := Resynced(s, q), s.log.TailGen(|s.t.tf|);
            && ViewerAt(s, w, tail) && w.file.Open? && w.sent == Oldest(s) < s.log.End(tail) && v.sent <= w.sent
            && NextIndex(s, v, q) == ReadEntry(s, w)
  {
    hide StreamInv, RingInv, NextIndex, ReadEntry, Slot, Opened, OpenIndex;
    StreamFacts(s);
    var tail := s.log.TailGen(|s.t.tf|);
    LogOrder(s.log, h, tail);
    LogOrder(s.log, tail, tail);
    hide Log.Valid;
    NoneEmpty(s, tail);
    ManyFiles(s, h);
    TailSlot(s);
    OpensFile(s, v, g);
    OpensOwn(s, s.t.fileTail, tail);
  }

  lemma NoneEmpty(s: Stream, g: nat)
    requires StreamInv(s)
    ensures g + 1 < |s.log.starts| ==> s.log.starts[g] < s.log.End(g)
  {
  }

  lemma ManyFiles(s: Stream, h: nat)
    requires StreamInv(s) && h < |s.log.starts| && !Live(s.log, |s.t.tf|, h)
    ensures |s.t.tf| >= 2 && s.log.TailGen(|s.t.tf|) + 1 < |s.log.starts|
  {
  }

  /** Where a request reads: in the cursor's file, at the start of the next, or, if the
      index wanted was overwritten, at the oldest index left. */
  lemma Lands(s: Stream, v: Viewer, g: nat, h: nat, q: Query) returns (w: Viewer, m: nat)
    requires StreamInv(s) && ViewerAt(s, v, g) && h < |s.log.starts| && InGeneration(s.log, h, v.sent)
    requires q.openOk && q.reopenOk
    ensures ViewerAt(s, w, m) && w.file.Open? && w.sent < s.log.End(m) && v.sent <= w.sent
    ensures w.sent == v.sent || w.sent == Oldest(s)
    ensures NextIndex(s, v, q) == ReadEntry(s, w)
  {
    StreamFacts(s);
    RequestExplained(s, v, h, q);
    hide StreamInv, RingInv, NextIndex, Explained, ReadEntry, ViewerAt;
    if Live(s.log, |s.t.tf|, h) {
      w := LandsInReach(s, v, g, h, q);
      m := h;
    } else {
      LandsAtTail(s, v, g, h, q);
      w, m := Resynced(s, q), s.log.TailGen(|s.t.tf|);
    }
  }

  /** Every request is answered: with the next index if there is one to send, indexes being
      passed over only up to the oldest one left; nothing fails. */
  lemma RequestServed(s: Stream, v: Viewer, q: Query)
    requires StreamInv(s) && ViewerInv(s, v) && CursorInRing(s, v) && q.openOk && q.reopenOk
    ensures |s.log.starts| > 0
    ensures var (v', r) := NextIndex(s, v, q); CursorInRing(s, v') && Served(s, v, v', r, q)
  {
    hide StreamInv, RingInv, NextIndex, ReadEntry, Slot;
    StreamFacts(s);
    var g: nat :| ViewerAt(s, v, g);
    LogOrder(s.log, g, g);
    if v.sent < s.log.total {
      var h := FindGeneration(s.log, 0, v.sent);
      var w, m := Lands(s, v, g, h, q);
      LogOrder(s.log, m, m);
      hide Log.Valid;
      ReadDelivers(s, w, m);
      assert ViewerInv(s, ReadEntry(s, w).0);
    } else {
      IdleRequest(s, v, g, q);
    }
  }

  lemma IdleRequest(s: Stream, v: Viewer, g: nat, q: Query)
    requires StreamInv(s) && ViewerAt(s, v, g) && v.sent == s.log.total && q.openOk
    ensures |s.log.starts| > 0
    ensures var (v', r) := NextIndex(s, v, q); CursorInRing(s, v') && Served(s, v, v', r, q)
  {
    StreamFacts(s);
    hide StreamInv, RingInv, ReadEntry, SeqInFile, RotateViewer, TailMissing, Slot;
    assert v.file.Closed? ==> s.log.total == 0;
    assert ViewerInv(s, v);
  }

  // ---------------------------------------------------------------------
  // Whole runs
  // ---------------------------------------------------------------------

  /** The hypotheses on each event. */
  ghost predicate Allowed(s: Stream, ev: Event)
    requires |s.log.starts| > 0
  {
    match ev
    case Produce(_, g) => WritesHead(s, g) && s.log.total + 1 < NONE
    case NewFile(c) => MayRotate(s) && c.FileCreated?
    case Recreate(c) => c.FileCreated?
    case Connect(_, openOk) => openOk
    case Request(q) => q.openOk && q.reopenOk
  }

  ghost predicate WasDelivered(delivered: seq<Delivery>, x: nat) {
    exists i | 0 <= i < |delivered| :: delivered[i].seqNum == x
  }

  /** Every sequence number from `from` to `sent` was delivered or has been overwritten. */
  ghost predicate Accounted(delivered: seq<Delivery>, from: nat, sent: nat, oldest: nat) {
    forall x: nat | from <= x < sent :: oldest <= x ==> WasDelivered(delivered, x)
  }

  /** Deliveries are what was committed, in increasing order, none twice. */
  ghost predicate InOrder(delivered: seq<Delivery>, from: nat, sent: nat, entries: seq<Entry>) {
    && (forall i | 0 <= i < |delivered| ::
          && from <= delivered[i].seqNum < sent && delivered[i].seqNum < |entries|
          && delivered[i].entry == entries[delivered[i].seqNum])
    && (forall i, j | 0 <= i < j < |delivered| :: delivered[i].seqNum < delivered[j].seqNum)
  }

  ghost predicate WorldInv(w: World) {
    && StreamInv(w.s) && |w.s.log.starts| > 0 && Sound(w) && ViewerInv(w.s, w.v) && !w.failed
    && w.from <= w.v.sent <= w.s.received && Accounted(w.delivered, w.from, w.v.sent, Oldest(w.s))
    && InOrder(w.delivered, w.from, w.v.sent, w.s.entries)
  }

  lemma FirstInv(count: nat)
    requires count != 1
    ensures WorldInv(FirstWatch(count))
  {
    StartInv(count);
    hide StreamInv;
    assert ViewerAt(FirstWatch(count).s, FirstWatch(count).v, 0);
  }

  lemma WatchInv(s: Stream, seek: Seek)
    requires StreamInv(s)
    ensures StreamOk(s) && Attach(s, seek, true).Some? && WorldInv(Watch(s, Attach(s, seek, true).value))
  {
    StreamFacts(s);
    AttachInv(s, seek);
    hide StreamInv, RingInv, Attach;
    InRing(s, Attach(s, seek, true).value);
    LogShape(s.log, |s.t.tf|);
    hide ViewerInv, Log.Valid;
  }

  lemma InRing(s: Stream, v: Viewer)
    requires ViewerInv(s, v)
    ensures CursorInRing(s, v)
  {
    hide Slot;
  }

  /** Every step keeps the invariant, and no step but attaching moves the cursor back. */
  lemma StepInv(w: World, ev: Event)
    requires WorldInv(w) && Allowed(w.s, ev) && Possible(w, ev)
    ensures WorldInv(StepWorld(w, ev))
    ensures !ev.Connect? ==> w.v.sent <= StepWorld(w, ev).v.sent
  {
    match ev
    case Produce(e, g) => ProduceStep(w, e, g);
    case NewFile(_) => RotateStep(w);
    case Recreate(_) => CreateStep(w);
    case Connect(seek, _) => WatchInv(w.s, seek);
    case Request(q) => RequestStep(w, q);
  }

  lemma ProduceStep(w: World, e: Entry, g: nat)
    requires WorldInv(w) && Allowed(w.s, Produce(e, g)) && g < |w.s.files|
    ensures WorldInv(StepWorld(w, Produce(e, g)))
  {
    hide StreamInv, ViewerInv, Accounted, InOrder;
    StreamFacts(w.s);
    CommitInv(w.s, e, g);
    CommitKeepsViewer(w.s, e, g, w.v);
    InRing(Commit(w.s, e, g), w.v);
    InOrderLater(w.delivered, w.from, w.v.sent, w.s.entries, e);
    hide WritesHead, Log.Valid, RingInv, Committed;
  }

  lemma InOrderLater(delivered: seq<Delivery>, from: nat, sent: nat, entries: seq<Entry>, e: Entry)
    requires InOrder(delivered, from, sent, entries)
    ensures InOrder(delivered, from, sent, entries + [e])
  {
  }

  lemma RotateStep(w: World)
    requires WorldInv(w) && MayRotate(w.s)
    ensures WorldInv(StepWorld(w, NewFile(FileCreated)))
  {
    hide StreamInv, ViewerInv, Accounted, InOrder;
    StreamFacts(w.s);
    RotateInv(w.s);
    RotateKeepsViewer(w.s, FileCreated, w.v);
    InRing(Rotate(w.s, FileCreated), w.v);
    TailAdvances(w.s);
    StreamFacts(Rotate(w.s, FileCreated));
    hide RingInv, Rotate, Log.Valid;
    AccountedLater(w.delivered, w.from, w.v.sent, Oldest(w.s), Oldest(Rotate(w.s, FileCreated)));
  }

  /** What was overwritten stays overwritten. */
  lemma TailAdvances(s: Stream)
    requires s.log.Valid() && StreamOk(s) && |s.files| > 0
    ensures var s' := Rotate(s, FileCreated);
            && |s'.log.starts| > 0 && Oldest(s) <= Oldest(s') && s'.entries == s.entries && s'.received == s.received
  {
  }

  lemma AccountedLater(delivered: seq<Delivery>, from: nat, sent: nat, oldest: nat, later: nat)
    requires Accounted(delivered, from, sent, oldest) && oldest <= later
    ensures Accounted(delivered, from, sent, later)
  {
  }

  lemma CreateStep(w: World)
    requires WorldInv(w)
    ensures WorldInv(StepWorld(w, Recreate(FileCreated)))
  {
    hide StreamInv, ViewerInv, Accounted, InOrder;
    StreamFacts(w.s);
    CreateInv(w.s);
    RotateKeepsViewer(w.s, FileCreated, w.v);
    InRing(Create(w.s, FileCreated), w.v);
    hide RingInv, Log.Valid;
  }

  lemma RequestStep(w: World, q: Query)
    requires WorldInv(w) && q.openOk && q.reopenOk
    ensures var w' := StepWorld(w, Request(q)); WorldInv(w') && w.v.sent <= w'.v.sent
  {
    hide StreamInv, RingInv, ViewerInv, NextIndex, Accounted, InOrder, Log.Valid;
    StreamFacts(w.s);
    RequestServed(w.s, w.v, q);
    var (v', r) := NextIndex(w.s, w.v, q);
    if r.Ok? {
      DeliverOne(w.delivered, w.from, w.v.sent, v'.sent, Oldest(w.s), w.s.entries);
    }
  }

  /** Delivering the index before the new cursor, everything in between being overwritten. */
  lemma DeliverOne(delivered: seq<Delivery>, from: nat, sent: nat, sent': nat, oldest: nat, entries: seq<Entry>)
    requires Accounted(delivered, from, sent, oldest) && InOrder(delivered, from, sent, entries)
    requires from <= sent < sent' <= |entries| && (sent == sent' - 1 || sent' - 1 <= oldest)
    ensures var delivered' := delivered + [Delivery(sent' - 1, entries[sent' - 1])];
            Accounted(delivered', from, sent', oldest) && InOrder(delivered', from, sent', entries)
  {
    var delivered' := delivered + [Delivery(sent' - 1, entries[sent' - 1])];
    forall x: nat | from <= x < sent' && oldest <= x
      ensures WasDelivered(delivered', x)
    {
      if x < sent {
        assert WasDelivered(delivered, x);
        var i :| 0 <= i < |delivered| && delivered[i].seqNum == x;
        assert delivered'[i].seqNum == x;
      } else {
        assert delivered'[|delivered|].seqNum == x;
      }
    }
  }

  /** From the creation of the stream, over every interleaving of commits, rotations,
      attachments and requests that the hypotheses allow: nothing fails, and every index is
      delivered once, in order, or overwritten. */
  lemma {:induction false} EveryRunIsSafe(count: nat, states: seq<World>, events: seq<Event>, k: nat)
    requires count != 1 && IsRun(states, events) && states[0] == FirstWatch(count) && k < |states|
    requires forall i | 0 <= i < k :: |states[i].s.log.starts| > 0 && Allowed(states[i].s, events[i])
    ensures WorldInv(states[k])
  {
    hide WorldInv, Possible, Allowed, StepWorld;
    if k == 0 {
      FirstInv(count);
    } else {
      EveryRunIsSafe(count, states, events, k - 1);
      StepInv(states[k - 1], events[k - 1]);
    }
  }
}
