/**
 What a live viewer is sent, in every run.

 A file that a cursor has open was opened when some index was wanted, and has been read
 since then without a gap.  So the index sent is the one wanted exactly when every index
 counted since then was written to that file; otherwise it is a later one, or the read
 fails (`SentFrom`).  An earlier one is sent only after a rotation whose index file could
 not be put in place, when the name still leads to an old file.
 */
module LiveViewerSent {
  import opened Wrappers
  import opened TracefileArray
  import opened LiveViewer
  import opened LiveViewerRuns

  /** The name of a live generation leads to its file, or to none. */
  ghost predicate NamesFresh(s: Stream)
    requires |s.log.starts| > 0
  {
    forall g, i | Live(s.log, |s.t.tf|, g) && 0 <= i < |s.names| && i == Slot(g, |s.t.tf|) ::
      s.names[i].Some? ==> s.names[i].value == g
  }

  /** The file was opened when index `from` was wanted, at the entry that file would have
      for it, and read since then without a gap. */
  ghost predicate Since(s: Stream, v: Viewer, from: nat)
    requires v.file.Open?
  {
    && from <= v.sent && from <= |s.homes|
    && v.file.pos == Rank(s.homes, v.file.gen, from) + v.sent - from
  }

  /** The index wanted is the first of a generation, or counted, or about to be, in a
      generation that had or has the slot of the cursor. */
  ghost predicate Standing(s: Stream, v: Viewer) {
    || |s.t.tf| == 1
    || (exists m | 0 <= m < |s.log.starts| :: s.log.starts[m] == v.sent)
    || (exists m: nat :: UsesSlot(s, v.cur, m) && s.log.starts[m] <= v.sent <= s.log.End(m))
  }

  /** The index wanted is no later than what a file opened under the name would start with. */
  ghost predicate Waiting(s: Stream, v: Viewer, m: nat) {
    UsesSlot(s, v.cur, m) && v.sent <= s.log.starts[m]
  }

  ghost predicate CursorInv(s: Stream, v: Viewer) {
    && CursorInRing(s, v) && v.sent <= s.log.total && Standing(s, v)
    && if v.file.Open? then UsesSlot(s, v.cur, v.file.gen) && exists from: nat :: Since(s, v, from)
       else exists m: nat :: Waiting(s, v, m)
  }

  /** Reading where the cursor `w` stands, its file having been opened when `from` was
      wanted.  The read fails exactly when fewer of the indexes since `from` were written to
      the file than were to be read from it; an index found is never earlier than the one
      wanted, and it is that one exactly when all since `from` were written there. */
  lemma ReadSince(s: Stream, w: Viewer, from: nat) returns (n: nat)
    requires FilesHold(s) && w.file.Open? && w.file.gen < |s.files| && w.sent < s.log.total && Since(s, w, from)
    ensures |s.homes| == |s.entries| == s.log.total
    ensures var (v', r) := ReadEntry(s, w);
            var g := w.file.gen;
            && (r.ReadError? <==> Rank(s.homes, g, s.log.total) - Rank(s.homes, g, from) <= w.sent - from)
            && (r.ReadError? ==> v' == w)
            && (!r.ReadError? ==> w.sent <= n < s.log.total && IsAt(s, g, w.file.pos, n) && r == Ok(s.entries[n]))
            && (!r.ReadError? ==> (n == w.sent <==> forall i | from <= i <= w.sent :: s.homes[i] == g))
            && (!r.ReadError? ==> v'.cur == w.cur && v'.sent == w.sent + 1 && v'.file == Open(g, w.file.pos + 1))
  {
    hide FilesHold;
    HomeFacts(s);
    n := ReadExactly(s, w.file.gen, w.file.pos, w.sent);
    RankSince(s.homes, w.file.gen, from, w.sent);
    hide Rank;
  }

  /** What the rank of a file says of the indexes `from .. x`. */
  lemma RankSince(homes: seq<nat>, g: nat, from: nat, x: nat)
    requires from <= x < |homes|
    ensures Rank(homes, g, x) <= Rank(homes, g, from) + x - from
    ensures Rank(homes, g, from) + x - from < Rank(homes, g, x + 1) <==> forall i | from <= i <= x :: homes[i] == g
  {
    RankGrows(homes, g, from, x);
    RankGrows(homes, g, from, x + 1);
    RankAll(homes, g, from, x + 1);
  }

  /** A generation that has the slot of a live one is not newer. */
  lemma SlotNewest(log: Log, count: nat, g: nat, h: nat)
    requires log.Valid() && g < |log.starts| && Live(log, count, h) && Slot(g, count) == Slot(h, count)
    requires count == 0 ==> |log.starts| == 1
    ensures g <= h
  {
    if h < g { SlotsDiffer(h, g, count); }
  }

  lemma SlotBound(s: Stream, i: nat, g: nat)
    requires UsesSlot(s, i, g) && (|s.t.tf| == 0 ==> |s.log.starts| == 1)
    ensures i < NameCount(|s.t.tf|)
  {
    if |s.t.tf| > 0 { SlotInRange(g, |s.t.tf|); }
  }

  lemma OneGeneration(s: Stream)
    requires RingInv(s) && |s.t.tf| == 0
    ensures |s.log.starts| == 1
  {
  }

  /** Every slot in use has a live generation. */
  lemma LiveOwner(s: Stream, i: nat, m: nat) returns (g: nat)
    requires RingInv(s) && UsesSlot(s, i, m)
    ensures |s.log.starts| > 0 && Live(s.log, |s.t.tf|, g) && i == Slot(g, |s.t.tf|) && m <= g < |s.log.starts|
  {
    RingFacts(s);
    if |s.t.tf| == 0 {
      OneGeneration(s);
      g := 0;
    } else {
      hide RingInv;
      SlotBound(s, i, m);
      g := SlotOwner(s.log, |s.t.tf|, i);
      if i >= |s.log.starts| {
        SlotInRange(m, |s.t.tf|);
      }
      SlotNewest(s.log, |s.t.tf|, m, g);
    }
  }

  /** Under a fresh name, the file opened is that of the live generation, and nothing that
      is wanted before its start is in it. */
  lemma OpenFresh(s: Stream, cur: nat, sent: nat, m: nat, ok: bool)
    requires RingInv(s) && |s.log.starts| > 0 && NamesFresh(s) && cur < |s.names| && UsesSlot(s, cur, m)
    requires sent <= s.log.starts[m] && OpenIndex(s, cur, ok).Open?
    ensures var v := Viewer(cur, sent, OpenIndex(s, cur, ok));
            UsesSlot(s, cur, v.file.gen) && Since(s, v, sent)
  {
    RingFacts(s);
    var g := LiveOwner(s, cur, m);
    LogOrder(s.log, m, g);
    FilesFact(s);
    hide RingInv, Slot;
    RankBefore(s, g, sent);
  }

  lemma FilesFact(s: Stream)
    requires RingInv(s)
    ensures FilesHold(s)
  {
  }

  // ---------------------------------------------------------------------
  // The producer's steps
  // ---------------------------------------------------------------------

  lemma CommitCursor(s: Stream, e: Entry, g: nat, v: Viewer)
    requires RingInv(s) && CursorInv(s, v) && NamesFresh(s) && g < |s.files|
    ensures CursorInv(Commit(s, e, g), v) && NamesFresh(Commit(s, e, g))
  {
    RingFacts(s);
    hide RingInv, Slot, Log.Valid, Committed;
    var s' := Commit(s, e, g);
    KeepsStanding(s, s', v);
    if v.file.Open? {
      var from: nat :| Since(s, v, from);
      RankAppend(s.homes, g, v.file.gen, from);
      assert Since(s', v, from);
    } else {
      var m: nat :| Waiting(s, v, m);
      assert Waiting(s', v, m);
    }
  }

  /** Starts of generations never change, and their ends only grow. */
  lemma KeepsStanding(s: Stream, s': Stream, v: Viewer)
    requires Standing(s, v) && s.log.Valid() && |s'.t.tf| == |s.t.tf|
    requires s'.log == s.log.Committed() || s'.log == s.log.Rotated() || s'.log == s.log
    ensures Standing(s', v)
  {
    hide Slot;
    if m :| 0 <= m < |s.log.starts| && s.log.starts[m] == v.sent {
      assert s'.log.starts[m] == v.sent;
    } else if |s.t.tf| != 1 {
      var m: nat :| UsesSlot(s, v.cur, m) && s.log.starts[m] <= v.sent <= s.log.End(m);
      assert UsesSlot(s', v.cur, m) && s'.log.starts[m] <= v.sent <= s'.log.End(m);
    }
  }

  lemma CreateCursor(s: Stream, c: Creation, v: Viewer)
    requires RingInv(s) && CursorInv(s, v) && NamesFresh(s) && StreamOk(s) && |s.files| > 0
    ensures CursorInv(Create(s, c), v) && NamesFresh(Create(s, c))
  {
    RingFacts(s);
    CreateFresh(s, c);
    hide RingInv, Slot, Log.Valid, NamesFresh;
    SameCursor(s, Create(s, c), v);
  }

  lemma SameCursor(s: Stream, s': Stream, v: Viewer)
    requires CursorInv(s, v) && s.log.Valid() && StreamOk(s') && |s'.t.tf| == |s.t.tf| && s'.homes == s.homes
    requires s'.log == s.log.Rotated() || s'.log == s.log
    ensures CursorInv(s', v)
  {
    hide Slot;
    KeepsStanding(s, s', v);
    hide Standing;
    if v.file.Open? {
      var from: nat :| Since(s, v, from);
      assert Since(s', v, from);
    } else {
      var m: nat :| Waiting(s, v, m);
      assert Waiting(s', v, m);
    }
  }

  /** The newest generation is the only live one in its slot. */
  lemma HeadAlone(log: Log, count: nat, g: nat)
    requires log.Valid() && Live(log, count, g) && (count == 0 ==> |log.starts| == 1)
    ensures Slot(g, count) == Slot(log.HeadGen(), count) ==> g == log.HeadGen()
  {
    if g < log.HeadGen() { SlotsDiffer(g, log.HeadGen(), count); }
  }

  lemma CreateFresh(s: Stream, c: Creation)
    requires RingInv(s) && StreamOk(s) && |s.log.starts| > 0 && |s.files| > 0
    requires forall g, i | Live(s.log, |s.t.tf|, g) && 0 <= i < |s.names| && i == Slot(g, |s.t.tf|) ::
               s.names[i].Some? && (g == s.log.HeadGen() ==> c.FileKept?) ==> s.names[i].value == g
    ensures NamesFresh(Create(s, c))
  {
    RingFacts(s);
    HeadSlot(s);
    if |s.t.tf| == 0 { OneGeneration(s); }
    hide RingInv;
    var s' := Create(s, c);
    forall g, i | Live(s'.log, |s'.t.tf|, g) && 0 <= i < |s'.names| && i == Slot(g, |s'.t.tf|)
      ensures s'.names[i].Some? ==> s'.names[i].value == g
    {
      HeadAlone(s.log, |s.t.tf|, g);
    }
  }

  lemma RotateCursor(s: Stream, c: Creation, v: Viewer)
    requires RingInv(s) && CursorInv(s, v) && NamesFresh(s) && StreamOk(s) && !c.FileKept?
    ensures CursorInv(Rotate(s, c), v) && NamesFresh(Rotate(s, c))
  {
    if |s.t.tf| > 0 {
      var s1 := s.(t := Rotated(s.t), files := s.files + [[]], log := s.log.Rotated());
      RingFacts(s);
      RotateRing(s, FileKept);
      SameCursor(s, s1, v);
      hide RingInv, Rotated;
      SameCursor(s1, Rotate(s, c), v);
      CreateFresh(s1, c);
    }
  }

  // ---------------------------------------------------------------------
  // The viewer's steps
  // ---------------------------------------------------------------------

  lemma AttachCursor(s: Stream, seek: Seek, openOk: bool)
    requires RingInv(s) && NamesFresh(s) && StreamOk(s)
    ensures var v := Attach(s, seek, openOk); v.Some? ==> CursorInv(s, v.value)
  {
    if seek.Beginning? {
      AttachFirst(s, openOk);
    } else {
      AttachLast(s, openOk);
    }
  }

  /** Where a new viewer starts: at the beginning of the oldest file of the ring, or at the
      end of the newest; it is refused exactly when indexes were received and the file of
      that slot cannot be opened. */
  lemma AttachExactly(s: Stream, seek: Seek, openOk: bool)
    requires RingInv(s) && |s.t.tf| > 0
    ensures StreamOk(s) && |s.log.starts| > 0
    ensures var newest := |s.log.starts| - 1;
            var g := if seek.Last? then newest else if newest < |s.t.tf| then 0 else newest + 1 - |s.t.tf|;
            var slot := g % |s.t.tf|;
            var v := Attach(s, seek, openOk);
            && slot < |s.names|
            && (v.None? <==> s.log.total > 0 && (!openOk || s.names[slot].None?))
            && (v.Some? ==>
                  && v.value.cur == slot
                  && (seek.Last? ==> v.value.sent == s.log.total)
                  && (seek.Beginning? ==> v.value.sent == if s.t.seqTail == NONE then 0 else s.t.seqTail)
                  && (v.value.file.Closed? <==> s.log.total == 0)
                  && (v.value.file.Open? ==>
                        && s.names[slot] == Some(v.value.file.gen) && v.value.file.gen < |s.files|
                        && v.value.file.pos == if seek.Last? then |s.files[v.value.file.gen]| else 0))
  {
    RingFacts(s);
    HeadSlot(s);
    HeadCount(s);
    OldestSlot(s);
    SlotIsModulo(s.log.HeadGen(), |s.t.tf|);
    SlotIsModulo(s.log.TailGen(|s.t.tf|), |s.t.tf|);
    hide FilesHold, FilesMatch, Slot, TailKnown;
  }

  lemma OldestSlot(s: Stream)
    requires RingInv(s)
    ensures |s.log.starts| > 0 && UsesSlot(s, s.t.fileTail, s.log.TailGen(|s.t.tf|))
  {
    hide FilesHold, NamesHold, FilesMatch;
  }

  /** The overall tail, right or wrong, is not behind the oldest file. */
  lemma TailStands(s: Stream, v: Viewer)
    requires RingInv(s) && v.cur == s.t.fileTail
    requires v.sent == s.t.seqTail < NONE || (s.t.seqTail == NONE && v.sent == 0)
    ensures |s.log.starts| > 0 && Waiting(s, v, s.log.TailGen(|s.t.tf|)) && Standing(s, v) && v.sent <= s.log.total
  {
    hide FilesHold, NamesHold, FilesMatch;
    LogShape(s.log, |s.t.tf|);
    assert s.log.starts[0] == 0;
  }

  lemma AttachFirst(s: Stream, openOk: bool)
    requires RingInv(s) && NamesFresh(s) && StreamOk(s)
    ensures var v := Attach(s, Beginning, openOk); v.Some? ==> CursorInv(s, v.value)
  {
    RingFacts(s);
    var v := Attach(s, Beginning, openOk);
    TailBound(s);
    if v.Some? {
      TailStands(s, v.value);
      hide RingInv, Slot;
      if v.value.file.Open? {
        OpenFresh(s, v.value.cur, v.value.sent, s.log.TailGen(|s.t.tf|), openOk);
      }
    }
  }

  lemma TailBound(s: Stream)
    requires RingInv(s)
    ensures s.t.seqTail <= NONE
  {
    RingFacts(s);
    hide FilesHold, NamesHold, FilesMatch, Slot;
    LogShape(s.log, |s.t.tf|);
  }

  lemma AttachLast(s: Stream, openOk: bool)
    requires RingInv(s) && NamesFresh(s) && StreamOk(s)
    ensures var v := Attach(s, Last, openOk); v.Some? ==> CursorInv(s, v.value)
  {
    RingFacts(s);
    HeadSlot(s);
    HeadCount(s);
    FilesFact(s);
    var head := s.log.HeadGen();
    LogOrder(s.log, head, head);
    FileSize(s, head);
    var v := Attach(s, Last, openOk);
    hide RingInv, FilesHold, Slot;
    if v.Some? {
      assert UsesSlot(s, v.value.cur, head) && s.log.starts[head] <= v.value.sent <= s.log.End(head);
      if v.value.file.Open? {
        assert Live(s.log, |s.t.tf|, head);
        assert Since(s, v.value, s.log.total);
      } else {
        assert Waiting(s, v.value, head);
      }
    }
  }

  lemma HeadCount(s: Stream)
    requires RingInv(s)
    ensures Increment(s.t.seqHead) == s.log.total
  {
    hide FilesHold, NamesHold, FilesMatch, Slot;
  }

  /** Opening the index file of a cursor that waits. */
  lemma OpenedCursor(s: Stream, v: Viewer, ok: bool)
    requires RingInv(s) && NamesFresh(s) && CursorInv(s, v)
    ensures CursorInv(s, Opened(s, v, ok))
  {
    RingFacts(s);
    if v.file.Closed? && Opened(s, v, ok).file.Open? {
      var m: nat :| Waiting(s, v, m);
      OpenFresh(s, v.cur, v.sent, m, ok);
      hide RingInv, Slot;
    }
  }

  /** An index that is counted in the next file and not in the cursor's is the first there. */
  lemma NextFileStart(s: Stream, v: Viewer, h: nat)
    requires RingInv(s) && Standing(s, v) && h < |s.log.starts| && InGeneration(s.log, h, v.sent)
    requires CountedIn(s, h, Next(v.cur, |s.t.tf|)) && !CountedIn(s, h, v.cur) && v.cur < |s.names|
    ensures v.sent == s.log.starts[h]
  {
    RingFacts(s);
    hide RingInv, Slot;
    hide Log.Valid;
    if m :| 0 <= m < |s.log.starts| && s.log.starts[m] == v.sent {
      FirstOfGeneration(s.log, m, h, v.sent);
    } else if |s.t.tf| != 1 {
      var m: nat :| UsesSlot(s, v.cur, m) && s.log.starts[m] <= v.sent <= s.log.End(m);
      FirstOfGeneration(s.log, m, h, v.sent);
    }
  }

  /** A number at the start of a generation, or at the end of another one, is the first of
      the generation it is counted in. */
  lemma FirstOfGeneration(log: Log, m: nat, h: nat, x: nat)
    requires log.Valid() && m < |log.starts| && h < |log.starts| && InGeneration(log, h, x)
    requires x == log.starts[m] || (m != h && log.starts[m] <= x <= log.End(m))
    ensures x == log.starts[h]
  {
    if m < h {
      LogOrder(log, m, h);
    } else if h < m {
      LogOrder(log, h, m);
    }
  }

  /** A cursor that has just moved to the file of generation `h`, or failed to open it. */
  lemma LandedCursor(s: Stream, h: nat, w: Viewer, ok: bool)
    requires RingInv(s) && NamesFresh(s) && CursorInRing(s, w) && |s.log.starts| > 0
    requires h < |s.log.starts| && UsesSlot(s, w.cur, h) && w.sent <= s.log.starts[h] && Standing(s, w)
    requires w.file == OpenIndex(s, w.cur, ok) && w.sent <= s.log.total
    ensures CursorInv(s, w) && (w.file.Open? ==> Since(s, w, w.sent))
  {
    if w.file.Open? {
      OpenFresh(s, w.cur, w.sent, h, ok);
    } else {
      assert Waiting(s, w, h);
    }
  }

  /** What a request read, the file having been opened when index `from` was wanted.  The
      read failed exactly when fewer of the indexes since `from` were written to the file
      than were to be read from it.  The index sent, number `n`, is the one wanted or a
      later one; it is the one wanted exactly when all since `from` were written there. */
  ghost predicate SentFrom(s: Stream, v': Viewer, r: Reply, from: nat, n: nat)
    requires |s.homes| == |s.entries| == s.log.total
  {
    && v'.file.Open? && (r.Ok? ==> 0 < v'.sent)
    && var g, x := v'.file.gen, if r.Ok? then v'.sent - 1 else v'.sent;
    && from <= x < s.log.total
    && (r.ReadError? <==> Rank(s.homes, g, s.log.total) - Rank(s.homes, g, from) <= x - from)
    && (r.Ok? ==> x <= n < s.log.total && s.homes[n] == g && r.entry == s.entries[n])
    && (r.Ok? ==> (n == x <==> forall i | from <= i <= x :: s.homes[i] == g))
  }

  /** A read in the file in which the wanted index is counted keeps the invariant. */
  lemma ReadKeeps(s: Stream, w: Viewer, h: nat) returns (from: nat, n: nat)
    requires RingInv(s) && CursorInv(s, w) && w.file.Open?
    requires UsesSlot(s, w.cur, h) && InGeneration(s.log, h, w.sent)
    ensures |s.homes| == |s.entries| == s.log.total
    ensures var (v', r) := ReadEntry(s, w); CursorInv(s, v') && SentFrom(s, v', r, from, n)
  {
    RingFacts(s);
    FilesFact(s);
    LogOrder(s.log, h, h);
    hide RingInv, FilesHold, Slot, Log.Valid, Standing;
    from :| Since(s, w, from);
    n := ReadSent(s, w, from);
    hide SentFrom;
    if ReadEntry(s, w).1.Ok? { ReadStands(s, w, h, from); }
  }

  lemma ReadSent(s: Stream, w: Viewer, from: nat) returns (n: nat)
    requires FilesHold(s) && w.file.Open? && w.file.gen < |s.files| && w.sent < s.log.total && Since(s, w, from)
    ensures |s.homes| == |s.entries| == s.log.total
    ensures var (v', r) := ReadEntry(s, w); SentFrom(s, v', r, from, n)
  {
    n := ReadSince(s, w, from);
    hide FilesHold, ReadEntry, Rank;
  }

  lemma ReadStands(s: Stream, w: Viewer, h: nat, from: nat)
    requires CursorInRing(s, w) && w.file.Open? && UsesSlot(s, w.cur, w.file.gen) && Since(s, w, from)
    requires UsesSlot(s, w.cur, h) && InGeneration(s.log, h, w.sent) && s.log.End(h) <= s.log.total
    requires ReadEntry(s, w).1.Ok?
    ensures CursorInv(s, ReadEntry(s, w).0)
  {
    hide Slot, Rank;
    var v' := ReadEntry(s, w).0;
    assert Since(s, v', from);
    assert UsesSlot(s, v'.cur, h) && s.log.starts[h] <= v'.sent <= s.log.End(h);
  }

  /** Every request keeps the invariant, and what it sends is settled by the files of the
      indexes counted so far. */
  lemma RequestCursor(s: Stream, v: Viewer, q: Query) returns (from: nat, n: nat)
    requires RingInv(s) && NamesFresh(s) && CursorInv(s, v)
    ensures |s.homes| == |s.entries| == s.log.total
    ensures var (v', r) := NextIndex(s, v, q);
            CursorInv(s, v') && (r.Ok? || r.ReadError? ==> SentFrom(s, v', r, from, n))
  {
    RingFacts(s);
    OpenedCursor(s, v, q.openOk);
    from, n := 0, 0;
    if v.sent < s.log.total {
      var h := FindGeneration(s.log, 0, v.sent);
      RequestExplained(s, v, h, q);
      from, n := WantedCursor(s, v, h, q);
    } else {
      hide RingInv, CursorInv, ReadEntry, SeqInFile, RotateViewer, TailMissing;
      AtEnd(s, v);
    }
  }

  lemma AtEnd(s: Stream, v: Viewer)
    requires CursorInv(s, v) && s.log.total <= v.sent
    ensures v.sent == s.log.total
  {
  }

  lemma WantedCursor(s: Stream, v: Viewer, h: nat, q: Query) returns (from: nat, n: nat)
    requires RingInv(s) && NamesFresh(s) && CursorInv(s, v) && CursorInv(s, Opened(s, v, q.openOk))
    requires h < |s.log.starts| && InGeneration(s.log, h, v.sent)
    requires var (v', r) := NextIndex(s, v, q); Explained(s, v, h, q, v', r)
    ensures |s.homes| == |s.entries| == s.log.total
    ensures var (v', r) := NextIndex(s, v, q);
            CursorInv(s, v') && (r.Ok? || r.ReadError? ==> SentFrom(s, v', r, from, n))
  {
    from, n := 0, 0;
    RingFacts(s);
    hide RingInv, NextIndex, SentFrom, Slot, OpenIndex, ReadEntry, NamesFresh, Since, TailReadable;
    var w := Opened(s, v, q.openOk);
    if w.file.Closed? {
    } else if CountedIn(s, h, v.cur) {
      from, n := ReadKeeps(s, w, h);
    } else if InReach(s, v, h) {
      NextFileStart(s, v, h);
      var u := Advanced(s, v, q);
      assert s.log.starts[h] == u.sent;
      LandedCursor(s, h, u, q.reopenOk);
      if u.file.Open? { from, n := ReadKeeps(s, u, h); }
    } else if s.t.seqTail == NONE {
    } else {
      TailCursor(s, q);
      if TailReadable(s) && Resynced(s, q).file.Open? {
        TailWanted(s);
        from, n := ReadKeeps(s, Resynced(s, q), s.log.TailGen(|s.t.tf|));
      }
    }
  }

  lemma TailWanted(s: Stream)
    requires RingInv(s) && |s.log.starts| > 0 && TailReadable(s)
    ensures var tail := s.log.TailGen(|s.t.tf|);
            tail < |s.log.starts| && UsesSlot(s, s.t.fileTail, tail) && InGeneration(s.log, tail, s.t.seqTail)
  {
    hide FilesHold, NamesHold, FilesMatch;
  }

  lemma TailCursor(s: Stream, q: Query)
    requires RingInv(s) && NamesFresh(s) && StreamOk(s) && s.t.seqTail != NONE && |s.log.starts| > 0
    ensures CursorInv(s, Resynced(s, q))
  {
    var u := Resynced(s, q);
    TailBound(s);
    TailStands(s, u);
    RingFacts(s);
    hide RingInv, Slot, OpenIndex;
    LandedCursor(s, s.log.TailGen(|s.t.tf|), u, q.reopenOk);
  }

  // ---------------------------------------------------------------------
  // Whole runs
  // ---------------------------------------------------------------------

  ghost predicate NotEarlier(s: Stream, d: Delivery, n: nat) {
    d.seqNum <= n < |s.entries| && d.entry == s.entries[n]
  }

  /** A delivery is the index with its number or a later one. */
  ghost predicate IsForward(s: Stream, d: Delivery) {
    exists n: nat :: NotEarlier(s, d, n)
  }

  ghost predicate AllForward(s: Stream, delivered: seq<Delivery>) {
    forall i | 0 <= i < |delivered| :: IsForward(s, delivered[i])
  }

  ghost predicate ForwardWorld(w: World) {
    && AnyWorld(w) && |w.s.log.starts| > 0 && NamesFresh(w.s) && CursorInv(w.s, w.v) && AllForward(w.s, w.delivered)
  }

  lemma KeepsDeliveries(s: Stream, s': Stream, delivered: seq<Delivery>)
    requires AllForward(s, delivered) && s.entries <= s'.entries
    ensures AllForward(s', delivered)
  {
    forall i | 0 <= i < |delivered|
      ensures IsForward(s', delivered[i])
    {
      assert IsForward(s, delivered[i]);
      var n: nat :| NotEarlier(s, delivered[i], n);
      assert NotEarlier(s', delivered[i], n);
    }
  }

  lemma AnotherDelivery(s: Stream, delivered: seq<Delivery>, d: Delivery, n: nat)
    requires AllForward(s, delivered) && NotEarlier(s, d, n)
    ensures AllForward(s, delivered + [d])
  {
    assert IsForward(s, d);
    hide IsForward;
  }

  /** The name of a file that is not replaced at a rotation leads to an old file. */
  ghost predicate KeepsName(ev: Event) {
    ev.NewFile? && ev.c.FileKept?
  }

  lemma ForwardStep(w: World, ev: Event)
    requires ForwardWorld(w) && Possible(w, ev) && !KeepsName(ev)
    ensures ForwardWorld(StepWorld(w, ev))
  {
    AnyStep(w, ev);
    RingFacts(w.s);
    hide AllForward;
    match ev
    case Produce(e, g) =>
      CommitCursor(w.s, e, g, w.v);
      ForwardProducer(w, Commit(w.s, e, g));
    case NewFile(c) =>
      RotateCursor(w.s, c, w.v);
      ForwardProducer(w, Rotate(w.s, c));
    case Recreate(c) =>
      CreateCursor(w.s, c, w.v);
      ForwardProducer(w, Create(w.s, c));
    case Connect(seek, openOk) =>
      ForwardConnect(w, seek, openOk);
    case Request(q) =>
      ForwardRequest(w, q);
  }

  lemma ForwardProducer(w: World, s': Stream)
    requires ForwardWorld(w) && AnyWorld(w.(s := s')) && |s'.log.starts| > 0 && NamesFresh(s') && CursorInv(s', w.v)
    requires StreamOk(w.s) && |w.s.files| > 0
    requires (exists e, g: nat | g < |w.s.files| :: s' == Commit(w.s, e, g))
             || (exists c :: s' == Rotate(w.s, c) || s' == Create(w.s, c))
    ensures ForwardWorld(w.(s := s'))
  {
    hide AnyWorld, NamesFresh, CursorInv, AllForward;
    SameNames(w.s, s');
    KeepsDeliveries(w.s, s', w.delivered);
  }

  lemma ForwardConnect(w: World, seek: Seek, openOk: bool)
    requires ForwardWorld(w) && AnyWorld(StepWorld(w, Connect(seek, openOk)))
    ensures ForwardWorld(StepWorld(w, Connect(seek, openOk)))
  {
    RingFacts(w.s);
    AttachCursor(w.s, seek, openOk);
    hide AnyWorld, NamesFresh, CursorInv, Attach;
  }

  lemma SentNotEarlier(s: Stream, v': Viewer, r: Reply, from: nat, n: nat)
    requires |s.homes| == |s.entries| == s.log.total && r.Ok? && SentFrom(s, v', r, from, n)
    ensures 0 < v'.sent && NotEarlier(s, Delivery(v'.sent - 1, r.entry), n)
  {
  }

  lemma ForwardRequest(w: World, q: Query)
    requires ForwardWorld(w) && AnyWorld(StepWorld(w, Request(q)))
    ensures ForwardWorld(StepWorld(w, Request(q)))
  {
    hide RingInv, NamesFresh, CursorInv, NextIndex, AllForward, SentFrom, NotEarlier;
    var from, n := RequestCursor(w.s, w.v, q);
    hide AnyWorld;
    var (v', r) := NextIndex(w.s, w.v, q);
    if r.Ok? {
      SentNotEarlier(w.s, v', r, from, n);
      AnotherDelivery(w.s, w.delivered, Delivery(v'.sent - 1, r.entry), n);
    }
  }

  /** In every run in which no name is kept over a rotation, a viewer is never sent an
      earlier index than the one it wants, and `RequestCursor` applies to every request. */
  lemma {:induction false} ForwardRun(count: nat, states: seq<World>, events: seq<Event>, k: nat)
    requires IsRun(states, events) && states[0] == FirstWatch(count) && k < |states|
    requires forall i | 0 <= i < k :: !KeepsName(events[i])
    ensures ForwardWorld(states[k])
  {
    hide ForwardWorld, Possible, StepWorld;
    if k == 0 {
      FirstForward(count);
    } else {
      ForwardRun(count, states, events, k - 1);
      ForwardStep(states[k - 1], events[k - 1]);
    }
  }

  lemma FirstForward(count: nat)
    ensures ForwardWorld(FirstWatch(count))
  {
    FirstAny(count);
    var w := FirstWatch(count);
    assert Waiting(w.s, w.v, 0);
    assert w.s.log.starts[0] == w.v.sent;
    hide RingInv;
  }

  // ---------------------------------------------------------------------
  // Runs in which things go wrong
  // ---------------------------------------------------------------------

  /** A request while everything is open and every file can be opened. */
  ghost function Asked(s: Stream, v: Viewer): (Viewer, Reply)
    requires CursorInRing(s, v)
  {
    NextIndex(s, v, Query(false, false, NONE, true, true))
  }

  /** An index that can be told from others. */
  function Numbered(n: nat): Entry { Entry(n, 0, 0, 0, 0, 0, 0) }

  /** The first data half creates the index file. */
  ghost function Ready(count: nat): Stream { Create(Start(count), FileCreated) }

  ghost function NextFile(s: Stream): Stream
    requires StreamOk(s)
  {
    Rotate(s, FileCreated)
  }

  /** Two rotations in a row, and the viewer is sent index 0 twice. */
  lemma SentTwice()
    ensures var s1 := Commit(Ready(3), Numbered(7), 0);
            var v1 := Attach(s1, Beginning, true);
            && v1.Some?
            && var (v2, r2) := Asked(s1, v1.value);
               var s2 := Commit(NextFile(NextFile(s1)), Numbered(8), 2);
               CursorInRing(s2, v2) && r2 == Ok(Numbered(7)) && Asked(s2, v2).1 == Ok(Numbered(7))
  {
  }

  /** Two rotations in a row before a commit, and the first request stops the daemon. */
  lemma AbortAfterLostTail()
    ensures var s := Commit(NextFile(NextFile(Commit(Ready(2), Numbered(7), 0))), Numbered(8), 2);
            var v := Attach(s, Beginning, true);
            v.Some? && Asked(s, v.value).1 == AssertionFailed
  {
  }

  /** A viewer that has read everything is sent back to 0, where there is nothing, by
      five rotations in a row. */
  lemma AbortAfterReset()
    ensures var s1 := Commit(NextFile(Commit(Ready(3), Numbered(7), 0)), Numbered(8), 1);
            var v1 := Attach(s1, Beginning, true);
            && v1.Some?
            && var (v2, r2) := Asked(s1, v1.value);
            && CursorInRing(s1, v2)
            && var (v3, r3) := Asked(s1, v2);
               var s2 := Commit(NextFile(NextFile(NextFile(NextFile(NextFile(s1))))), Numbered(9), 6);
            && r2 == Ok(Numbered(7)) && r3 == Ok(Numbered(8)) && CursorInRing(s2, v3)
            && var (v4, r4) := Asked(s2, v3);
               v3.sent == 2 && v4.sent == 0 && r4 == AssertionFailed
  {
  }

  /** The slot of the cursor is reused, and the read fails. */
  lemma StaleRead()
    ensures var s1 := Commit(Ready(2), Numbered(7), 0);
            var v1 := Attach(s1, Beginning, true);
            && v1.Some?
            && var (v2, r2) := Asked(s1, v1.value);
               var s2 := Commit(NextFile(NextFile(s1)), Numbered(8), 2);
               r2 == Ok(Numbered(7)) && CursorInRing(s2, v2) && Asked(s2, v2).1 == ReadError
  {
  }

  /** A name that still leads to the old file: index 0 is sent again as number 2. */
  lemma KeptNameSendsEarlier()
    ensures var s1 := Commit(Ready(2), Numbered(7), 0);
            var v1 := Attach(s1, Beginning, true);
            && v1.Some?
            && var (v2, r2) := Asked(s1, v1.value);
               var s2 := Commit(NextFile(s1), Numbered(8), 1);
            && CursorInRing(s2, v2)
            && var (v3, r3) := Asked(s2, v2);
               var s3 := Commit(Rotate(s2, FileKept), Numbered(9), 1);
            && r2 == Ok(Numbered(7)) && r3 == Ok(Numbered(8)) && CursorInRing(s3, v3)
            && var (v4, r4) := Asked(s3, v3);
               v3.sent == 2 && v4.sent == 3 && r4 == Ok(Numbered(7))
  {
  }
}
