/**
 A live viewer in every run of the producer: any number of files, one file too, rotations
 that leave empty files behind and lose the overall tail, indexes that are written to an
 older file than the one they are counted in, and index files that cannot be created or
 opened.

 Which file a request reads is settled by the log (`RequestExplained`): whether the wanted
 index was counted in the cursor's file or the next one, and whether the overall tail is
 right and something was counted in the oldest file.  Which index it is sent from there is
 settled by how many of the indexes counted so far were written to that file
 (`ReadExactly`).
 */
module LiveViewerRuns {
  import opened Wrappers
  import opened TracefileArray
  import opened LiveViewer

  // ---------------------------------------------------------------------
  // What is in the files
  // ---------------------------------------------------------------------

  /** How many of the first `k` indexes were written to file `g`. */
  ghost function Rank(homes: seq<nat>, g: nat, k: nat): nat
    requires k <= |homes|
  {
    if k == 0 then 0 else Rank(homes, g, k - 1) + if homes[k - 1] == g then 1 else 0
  }

  /** No index was given a file that was opened later. */
  ghost predicate HomesPast(homes: seq<nat>, starts: seq<nat>) {
    forall i | 0 <= i < |homes| :: homes[i] < |starts| && starts[homes[i]] <= i
  }

  /** The files are as long as what was written to them. */
  ghost predicate SizesHold(files: seq<seq<Entry>>, homes: seq<nat>) {
    forall g | 0 <= g < |files| :: |files[g]| == Rank(homes, g, |homes|)
  }

  /** Every index is in its file, after those that were counted before it. */
  ghost predicate EntriesHold(files: seq<seq<Entry>>, homes: seq<nat>, entries: seq<Entry>)
    requires |homes| == |entries|
  {
    forall i | 0 <= i < |homes| :: EntryHolds(files, homes, entries, i)
  }

  ghost predicate EntryHolds(files: seq<seq<Entry>>, homes: seq<nat>, entries: seq<Entry>, i: nat)
    requires i < |homes| == |entries|
  {
    && homes[i] < |files|
    && var pos := Rank(homes, homes[i], i);
       pos < |files[homes[i]]| && files[homes[i]][pos] == entries[i]
  }

  ghost predicate FilesHold(s: Stream) {
    && |s.files| == |s.log.starts| && |s.homes| == |s.entries| == s.log.total
    && HomesPast(s.homes, s.log.starts) && SizesHold(s.files, s.homes) && EntriesHold(s.files, s.homes, s.entries)
  }

  lemma {:induction false} RankGrows(homes: seq<nat>, g: nat, j: nat, k: nat)
    requires j <= k <= |homes|
    ensures Rank(homes, g, j) <= Rank(homes, g, k) <= Rank(homes, g, j) + k - j
    decreases k
  {
    if j == k {
    } else {
      RankGrows(homes, g, j, k - 1);
    }
  }

  lemma {:induction false} RankAppend(homes: seq<nat>, x: nat, g: nat, k: nat)
    requires k <= |homes|
    ensures Rank(homes + [x], g, k) == Rank(homes, g, k)
  {
    if k == 0 {
    } else {
      RankAppend(homes, x, g, k - 1);
    }
  }

  lemma {:induction false} NoneWritten(homes: seq<nat>, g: nat, k: nat)
    requires k <= |homes| && forall i | 0 <= i < k :: homes[i] != g
    ensures Rank(homes, g, k) == 0
  {
    if k == 0 {
    } else {
      NoneWritten(homes, g, k - 1);
    }
  }

  lemma HomeFacts(s: Stream)
    requires FilesHold(s)
    ensures |s.files| == |s.log.starts| && |s.homes| == |s.entries| == s.log.total
    ensures forall i | 0 <= i < |s.homes| :: s.homes[i] < |s.files| && s.log.starts[s.homes[i]] <= i
  {
  }

  lemma FileSize(s: Stream, g: nat)
    requires FilesHold(s) && g < |s.files|
    ensures |s.files[g]| == Rank(s.homes, g, |s.homes|)
  {
  }

  lemma FileEntry(s: Stream, i: nat)
    requires FilesHold(s) && i < |s.homes|
    ensures i < |s.entries| && s.homes[i] < |s.files|
    ensures var pos := Rank(s.homes, s.homes[i], i);
            pos < |s.files[s.homes[i]]| && s.files[s.homes[i]][pos] == s.entries[i]
  {
    assert EntryHolds(s.files, s.homes, s.entries, i);
  }

  /** Nothing is written to a file before it is opened. */
  lemma RankBefore(s: Stream, g: nat, k: nat)
    requires FilesHold(s) && g < |s.files| == |s.log.starts| && k <= s.log.starts[g] && k <= |s.homes|
    ensures Rank(s.homes, g, k) == 0
  {
    HomeFacts(s);
    hide FilesHold;
    NoneWritten(s.homes, g, k);
  }

  /** The indexes `from .. k` were all written to file `g` exactly when its rank grew by as much. */
  lemma {:induction false} RankAll(homes: seq<nat>, g: nat, from: nat, k: nat)
    requires from <= k <= |homes|
    ensures Rank(homes, g, k) == Rank(homes, g, from) + k - from <==> forall i | from <= i < k :: homes[i] == g
    decreases k
  {
    if from == k {
    } else {
      RankAll(homes, g, from, k - 1);
      RankGrows(homes, g, from, k - 1);
    }
  }

  /** The number of the index at a position of a file. */
  lemma {:induction false} EntryAt(homes: seq<nat>, g: nat, pos: nat, k: nat) returns (n: nat)
    requires k <= |homes| && pos < Rank(homes, g, k)
    ensures n < k && homes[n] == g && Rank(homes, g, n) == pos
    decreases k
  {
    if k == 0 {
    } else if pos < Rank(homes, g, k - 1) {
      n := EntryAt(homes, g, pos, k - 1);
    } else {
      n := k - 1;
    }
  }

  /** Index `n` is the one at position `pos` of file `g`. */
  ghost predicate IsAt(s: Stream, g: nat, pos: nat, n: nat) {
    n < |s.homes| == |s.entries| && s.homes[n] == g && Rank(s.homes, g, n) == pos
  }

  /** Reading position `pos` of file `g` when index `x` is wanted.  The index found has
      number `n`; whether that is an earlier one, the one wanted, a later one, or there is
      none, is decided by how many of the indexes before `x`, up to `x`, and at all, were
      written to the file. */
  lemma ReadExactly(s: Stream, g: nat, pos: nat, x: nat) returns (n: nat)
    requires FilesHold(s) && g < |s.files| && x < s.log.total
    ensures pos < |s.files[g]| <==> pos < Rank(s.homes, g, s.log.total)
    ensures pos < |s.files[g]| ==> IsAt(s, g, pos, n) && s.files[g][pos] == s.entries[n]
    ensures pos < |s.files[g]| ==> (n < x <==> pos < Rank(s.homes, g, x))
    ensures pos < |s.files[g]| ==> (n == x <==> Rank(s.homes, g, x) <= pos < Rank(s.homes, g, x + 1))
    ensures pos < |s.files[g]| ==> (n > x <==> Rank(s.homes, g, x + 1) <= pos)
  {
    hide FilesHold;
    HomeFacts(s);
    FileSize(s, g);
    n := 0;
    if pos < |s.files[g]| {
      n := EntryAt(s.homes, g, pos, s.log.total);
      FileEntry(s, n);
      RankOrder(s.homes, g, n, x);
    }
  }

  /** Of the indexes in one file, the earlier ones come first. */
  lemma RankOrder(homes: seq<nat>, g: nat, n: nat, x: nat)
    requires n < |homes| && x < |homes| && homes[n] == g
    ensures n < x <==> Rank(homes, g, n) < Rank(homes, g, x)
    ensures n <= x <==> Rank(homes, g, n) < Rank(homes, g, x + 1)
  {
    if n < x {
      RankGrows(homes, g, n + 1, x);
    } else {
      RankGrows(homes, g, x, n);
      if x < n { RankGrows(homes, g, x + 1, n); }
    }
  }

  // ---------------------------------------------------------------------
  // The producer side in any run
  // ---------------------------------------------------------------------

  /** Generation `g` has its index file under the name of slot `i`. */
  ghost predicate UsesSlot(s: Stream, i: nat, g: nat) {
    g < |s.log.starts| && i == Slot(g, |s.t.tf|)
  }

  /** A file name leads to a file of its slot, if to any. */
  ghost predicate NamesHold(s: Stream) {
    && |s.names| == NameCount(|s.t.tf|)
    && forall i | 0 <= i < |s.names| :: s.names[i].Some? ==> UsesSlot(s, i, s.names[i].value)
  }

  ghost predicate RingInv(s: Stream) {
    && WellFormed(s.t) && Matches(s.t, s.log) && TailKnown(s.t, s.log)
    && s.received == s.log.total && FilesHold(s) && NamesHold(s)
  }

  lemma RingFacts(s: Stream)
    requires RingInv(s)
    ensures s.log.Valid() && |s.files| == |s.log.starts| > 0
    ensures |s.homes| == |s.entries| == s.log.total == s.received < NONE && StreamOk(s)
  {
    hide Slot, FilesMatch;
  }

  lemma StartRing(count: nat)
    ensures RingInv(Start(count)) && StreamOk(Start(count))
  {
    CreatedMatches(count);
  }

  /** The head of the ring is the slot of the newest generation. */
  lemma HeadSlot(s: Stream)
    requires RingInv(s)
    ensures |s.log.starts| > 0 && UsesSlot(s, s.t.fileHead, s.log.HeadGen())
  {
    hide FilesHold, NamesHold, FilesMatch;
  }

  lemma CommitRing(s: Stream, e: Entry, g: nat)
    requires RingInv(s) && s.log.total + 1 < NONE && g < |s.files|
    ensures RingInv(Commit(s, e, g))
  {
    hide Matches, TailKnown, Slot, FilesHold, Committed;
    CommitMatches(s.t, s.log);
    CommitTailKnown(s.t, s.log);
    RingFacts(s);
    CommitFiles(s, e, g);
  }

  lemma CommitFiles(s: Stream, e: Entry, g: nat)
    requires FilesHold(s) && s.log.Valid() && WellFormed(s.t) && g < |s.files|
    ensures FilesHold(Commit(s, e, g))
  {
    hide HomesPast, SizesHold, EntriesHold, Committed;
    LogOrder(s.log, g, g);
    hide Log.Valid;
    CommitHomes(s.homes, s.log.starts, g);
    CommitSizes(s.files, s.homes, e, g);
    CommitEntries(s.files, s.homes, s.entries, e, g);
  }

  lemma CommitHomes(homes: seq<nat>, starts: seq<nat>, g: nat)
    requires HomesPast(homes, starts) && g < |starts| && starts[g] <= |homes|
    ensures HomesPast(homes + [g], starts)
  {
  }

  lemma CommitSizes(files: seq<seq<Entry>>, homes: seq<nat>, e: Entry, g: nat)
    requires SizesHold(files, homes) && g < |files|
    ensures SizesHold(files[g := files[g] + [e]], homes + [g])
  {
    var files', homes' := files[g := files[g] + [e]], homes + [g];
    forall f | 0 <= f < |files'|
      ensures |files'[f]| == Rank(homes', f, |homes'|)
    {
      RankAppend(homes, g, f, |homes|);
    }
  }

  lemma CommitEntries(files: seq<seq<Entry>>, homes: seq<nat>, entries: seq<Entry>, e: Entry, g: nat)
    requires |homes| == |entries| && SizesHold(files, homes) && EntriesHold(files, homes, entries) && g < |files|
    ensures EntriesHold(files[g := files[g] + [e]], homes + [g], entries + [e])
  {
    var files', homes', entries' := files[g := files[g] + [e]], homes + [g], entries + [e];
    forall i | 0 <= i < |homes'|
      ensures EntryHolds(files', homes', entries', i)
    {
      RankAppend(homes, g, homes'[i], i);
      if i < |homes| { assert EntryHolds(files, homes, entries, i); }
    }
  }

  lemma CreateRing(s: Stream, c: Creation)
    requires RingInv(s)
    ensures |s.files| > 0 && StreamOk(s) && RingInv(Create(s, c))
  {
    RingFacts(s);
    HeadSlot(s);
    hide Matches, TailKnown, Slot, FilesHold;
    SameFiles(s, Create(s, c));
  }

  lemma SameFiles(s: Stream, s': Stream)
    requires FilesHold(s) && s'.files == s.files && s'.homes == s.homes && s'.entries == s.entries && s'.log == s.log
    ensures FilesHold(s')
  {
  }

  /** Every rotation keeps the invariant. */
  lemma RotateRing(s: Stream, c: Creation)
    requires RingInv(s)
    ensures StreamOk(s) && RingInv(Rotate(s, c))
  {
    RingFacts(s);
    if |s.t.tf| > 0 {
      var s1 := s.(t := Rotated(s.t), files := s.files + [[]], log := s.log.Rotated());
      RotateMatches(s.t, s.log);
      RotateTailKnown(s.t, s.log);
      hide Matches, TailKnown, Slot, FilesHold, Rotated;
      RotateFiles(s, s1);
      CreateRing(s1, c);
    }
  }

  lemma RotateFiles(s: Stream, s': Stream)
    requires FilesHold(s) && s.log.Valid() && s'.log == s.log.Rotated()
    requires s'.files == s.files + [[]] && s'.homes == s.homes && s'.entries == s.entries
    ensures FilesHold(s')
  {
    var files' := s.files + [[]];
    NoneWritten(s.homes, |s.files|, |s.homes|);
    forall i | 0 <= i < |s.homes|
      ensures EntryHolds(files', s.homes, s.entries, i)
    {
      assert EntryHolds(s.files, s.homes, s.entries, i);
    }
  }

  // ---------------------------------------------------------------------
  // Which file a request reads
  // ---------------------------------------------------------------------

  /** The indexes of generation `h` are counted in the file of slot `i`. */
  ghost predicate CountedIn(s: Stream, h: nat, i: nat)
    requires |s.log.starts| > 0
  {
    Live(s.log, |s.t.tf|, h) && Slot(h, |s.t.tf|) == i
  }

  /** The index wanted, of generation `h`, is counted in the cursor's file or in the next. */
  ghost predicate InReach(s: Stream, v: Viewer, h: nat)
    requires |s.log.starts| > 0
  {
    CountedIn(s, h, v.cur) || CountedIn(s, h, Next(v.cur, |s.t.tf|))
  }

  /** The overall tail is right, and something is counted in the oldest file. */
  ghost predicate TailReadable(s: Stream)
    requires |s.log.starts| > 0
  {
    var tail := s.log.TailGen(|s.t.tf|);
    s.t.seqTail == s.log.starts[tail] < s.log.End(tail)
  }

  /** A file answers for the wanted index exactly when it is that of its generation. */
  lemma FileOfWanted(s: Stream, i: nat, h: nat, x: nat)
    requires Matches(s.t, s.log) && i < NameCount(|s.t.tf|) && h < |s.log.starts| && InGeneration(s.log, h, x)
    ensures SeqInFile(s.t, i, x) <==> CountedIn(s, h, i)
  {
    if |s.t.tf| > 0 {
      hide FilesMatch, SeqInFile;
      var tail := s.log.TailGen(|s.t.tf|);
      if x < s.log.starts[tail] {
        LogOrder(s.log, if h < tail then h else tail, if h < tail then tail else h);
        OverwrittenIsInNoFile(s.t, s.log, i, x);
      } else {
        LogOrder(s.log, h, h);
        var g := WhichFile(s.t, s.log, x);
        SameGeneration(s.log, g, h, x);
      }
    }
  }

  lemma SameGeneration(log: Log, g: nat, h: nat, x: nat)
    requires log.Valid() && g < |log.starts| && h < |log.starts| && InGeneration(log, g, x) && InGeneration(log, h, x)
    ensures g == h
  {
    if g < h {
      LogOrder(log, g, h);
    } else if h < g {
      LogOrder(log, h, g);
    }
  }

  lemma LogShape(log: Log, count: nat)
    requires log.Valid()
    ensures log.starts[0] == 0 && log.TailGen(count) < |log.starts|
    ensures log.starts[log.TailGen(count)] <= log.total
  {
  }

  /** The oldest file answers for the overall tail exactly when that is right and something
      is counted there. */
  lemma TailInFile(s: Stream)
    requires RingInv(s) && |s.t.tf| > 0 && s.log.total > 0
    ensures s.t.fileTail < |s.t.tf| && (SeqInFile(s.t, s.t.fileTail, s.t.seqTail) <==> TailReadable(s))
  {
    hide FilesHold, NamesHold, FilesMatch, Slot;
    var tail := s.log.TailGen(|s.t.tf|);
    LogShape(s.log, |s.t.tf|);
    SeqInFileIsMembership(s.t, s.log, tail, s.t.seqTail);
    LogOrder(s.log, tail, tail);
    hide SeqInFile;
  }

  /** Where the cursor goes when the index wanted is out of reach. */
  ghost function Resynced(s: Stream, q: Query): Viewer
    requires StreamOk(s)
  {
    Viewer(s.t.fileTail, s.t.seqTail, OpenIndex(s, s.t.fileTail, q.reopenOk))
  }

  /** Where the cursor goes when the index wanted is in the next file. */
  ghost function Advanced(s: Stream, v: Viewer, q: Query): Viewer
    requires CursorInRing(s, v) && Next(v.cur, |s.t.tf|) < |s.names|
  {
    var next := Next(v.cur, |s.t.tf|);
    Viewer(next, v.sent, OpenIndex(s, next, q.reopenOk))
  }

  /** The request reads under the cursor `w`, if its file could be opened. */
  ghost predicate ReadsAt(s: Stream, w: Viewer, v': Viewer, r: Reply) {
    if w.file.Closed? then v' == w && r.ConnectionError? else (v', r) == ReadEntry(s, w)
  }

  /** The reply to a request that finds something to send, `h` being the generation in
      which the index wanted was counted. */
  ghost predicate Explained(s: Stream, v: Viewer, h: nat, q: Query, v': Viewer, r: Reply)
    requires CursorInRing(s, v) && |s.log.starts| > 0
  {
    var w := Opened(s, v, q.openOk);
    if w.file.Closed? then v' == v && r.OpenError?
    else if CountedIn(s, h, v.cur) then ReadsAt(s, w, v', r)
    else if InReach(s, v, h) then Next(v.cur, |s.t.tf|) < |s.names| && ReadsAt(s, Advanced(s, v, q), v', r)
    else if s.t.seqTail == NONE then v' == w && r.AssertionFailed?
    else if TailReadable(s) || Resynced(s, q).file.Closed? then ReadsAt(s, Resynced(s, q), v', r)
    else v' == Resynced(s, q) && r == if |s.t.tf| == 1 then Retry else AssertionFailed
  }

  lemma NextName(s: Stream, cur: nat)
    requires StreamOk(s) && cur < |s.names| && |s.t.tf| > 0
    ensures Next(cur, |s.t.tf|) < |s.names|
  {
  }

  /** The reply to every request that finds something to send, in every state. */
  lemma RequestExplained(s: Stream, v: Viewer, h: nat, q: Query)
    requires RingInv(s) && CursorInRing(s, v) && h < |s.log.starts| && InGeneration(s.log, h, v.sent)
    ensures var (v', r) := NextIndex(s, v, q); Explained(s, v, h, q, v', r)
  {
    RingFacts(s);
    LogOrder(s.log, h, h);
    hide RingInv, FilesHold, NamesHold, SeqInFile, Slot, ReadEntry, OpenIndex;
    MatchFacts(s);
    FileOfWanted(s, v.cur, h, v.sent);
    if |s.t.tf| > 0 {
      NextName(s, v.cur);
      FileOfWanted(s, Next(v.cur, |s.t.tf|), h, v.sent);
      TailInFile(s);
    } else {
      WithoutRing(s, v, h);
    }
    hide Matches, TailReadable;
  }

  lemma MatchFacts(s: Stream)
    requires RingInv(s)
    ensures Matches(s.t, s.log)
  {
  }

  lemma WithoutRing(s: Stream, v: Viewer, h: nat)
    requires Matches(s.t, s.log) && |s.t.tf| == 0 && h < |s.log.starts| && CursorInRing(s, v)
    ensures CountedIn(s, h, v.cur)
  {
  }

  // ---------------------------------------------------------------------
  // When things go wrong
  // ---------------------------------------------------------------------

  /** The assertion of the daemon fails exactly when the index wanted is out of reach, and
      the overall tail is lost or leads, wrongly or to nothing counted, to a file that opens. */
  lemma AssertionFailsExactly(s: Stream, v: Viewer, h: nat, q: Query)
    requires RingInv(s) && CursorInRing(s, v) && h < |s.log.starts| && InGeneration(s.log, h, v.sent)
    ensures NextIndex(s, v, q).1.AssertionFailed? <==>
            && Opened(s, v, q.openOk).file.Open? && !InReach(s, v, h)
            && (s.t.seqTail == NONE || (|s.t.tf| >= 2 && !TailReadable(s) && Resynced(s, q).file.Open?))
  {
    RequestExplained(s, v, h, q);
    OutOfReach(s, v, h);
    hide RingInv, NextIndex, CountedIn, TailReadable, Opened, OpenIndex;
  }

  lemma OutOfReach(s: Stream, v: Viewer, h: nat)
    requires RingInv(s) && CursorInRing(s, v) && h < |s.log.starts|
    ensures !InReach(s, v, h) ==> |s.t.tf| > 0
  {
    hide FilesHold, NamesHold, TailKnown;
    if |s.t.tf| == 0 { WithoutRing(s, v, h); }
  }

  /** The cursor goes back exactly when the index wanted is out of reach and the overall
      tail is behind it. */
  lemma RewindsExactly(s: Stream, v: Viewer, h: nat, q: Query)
    requires RingInv(s) && CursorInRing(s, v) && h < |s.log.starts| && InGeneration(s.log, h, v.sent)
    ensures var (v', r) := NextIndex(s, v, q);
            var wanted := if r.Ok? then v'.sent - 1 else v'.sent;
            wanted < v.sent <==> Opened(s, v, q.openOk).file.Open? && !InReach(s, v, h) && s.t.seqTail < v.sent
  {
    hide RingInv, NextIndex, CountedIn, TailReadable, OpenIndex;
    RingFacts(s);
    LogOrder(s.log, h, h);
    hide Log.Valid;
    RequestExplained(s, v, h, q);
    hide Explained;
    ExplainedMoves(s, v, h, q, NextIndex(s, v, q).0, NextIndex(s, v, q).1);
  }

  /** Where the cursor goes, whatever the reply. */
  lemma ExplainedMoves(s: Stream, v: Viewer, h: nat, q: Query, v': Viewer, r: Reply)
    requires CursorInRing(s, v) && |s.log.starts| > 0 && Explained(s, v, h, q, v', r)
    ensures var wanted := if r.Ok? then v'.sent - 1 else v'.sent;
            wanted == if Opened(s, v, q.openOk).file.Open? && !InReach(s, v, h) && s.t.seqTail != NONE
                      then s.t.seqTail else v.sent
  {
    hide CountedIn, TailReadable, OpenIndex;
  }

  /** For a cursor that stands in a file that is still there: in reach exactly when the
      index is counted in that file or something is counted in the next. */
  lemma ReachExactly(s: Stream, v: Viewer, g: nat, h: nat)
    requires RingInv(s) && |s.t.tf| >= 2 && h < |s.log.starts| && InGeneration(s.log, h, v.sent)
    requires g < |s.log.starts| && CountedIn(s, g, v.cur) && s.log.starts[g] <= v.sent <= s.log.End(g)
    ensures InReach(s, v, h) <==>
            v.sent < s.log.End(g) || (g + 1 < |s.log.starts| && s.log.starts[g + 1] < s.log.End(g + 1))
  {
    RingFacts(s);
    hide RingInv;
    var count := |s.t.tf|;
    LogOrder(s.log, if g < h then g else h, if g < h then h else g);
    if g + 1 < h {
      LogOrder(s.log, g + 1, h);
      SlotsDiffer(g, h, count);
      SlotsDiffer(g + 1, h, count);
    }
  }

  // ---------------------------------------------------------------------
  // Whole runs
  // ---------------------------------------------------------------------

  ghost predicate Possible(w: World, ev: Event) {
    && Sound(w) && (ev.Produce? ==> ev.g < |w.s.files| && w.s.log.total + 1 < NONE)
  }

  ghost predicate IsRun(states: seq<World>, events: seq<Event>) {
    && |states| == |events| + 1
    && forall i | 0 <= i < |events| :: Possible(states[i], events[i]) && states[i + 1] == StepWorld(states[i], events[i])
  }

  ghost predicate AnyWorld(w: World) {
    RingInv(w.s) && Sound(w)
  }

  lemma AnyStep(w: World, ev: Event)
    requires AnyWorld(w) && Possible(w, ev)
    ensures AnyWorld(StepWorld(w, ev))
  {
    match ev
    case Produce(e, g) => AnyProduce(w, e, g);
    case NewFile(c) => AnyRotation(w, c);
    case Recreate(c) => AnyCreation(w, c);
    case Connect(seek, openOk) => hide RingInv;
    case Request(q) => AnyRequest(w, q);
  }

  lemma AnyProduce(w: World, e: Entry, g: nat)
    requires AnyWorld(w) && Possible(w, Produce(e, g))
    ensures AnyWorld(StepWorld(w, Produce(e, g)))
  {
    hide RingInv, Commit;
    CommitRing(w.s, e, g);
    RingFacts(Commit(w.s, e, g));
    SameNames(w.s, Commit(w.s, e, g));
  }

  lemma SameNames(s: Stream, s': Stream)
    requires StreamOk(s) && |s.files| > 0
    requires (exists e, g: nat | g < |s.files| :: s' == Commit(s, e, g))
             || (exists c :: s' == Rotate(s, c) || s' == Create(s, c))
    ensures |s'.names| == |s.names| && s.entries <= s'.entries
  {
    hide Rotated, Committed;
  }

  lemma AnyRotation(w: World, c: Creation)
    requires AnyWorld(w)
    ensures AnyWorld(StepWorld(w, NewFile(c)))
  {
    hide RingInv, Rotate;
    RotateRing(w.s, c);
    RingFacts(Rotate(w.s, c));
    SameNames(w.s, Rotate(w.s, c));
  }

  lemma AnyCreation(w: World, c: Creation)
    requires AnyWorld(w)
    ensures AnyWorld(StepWorld(w, Recreate(c)))
  {
    hide RingInv, Create;
    CreateRing(w.s, c);
    RingFacts(Create(w.s, c));
    SameNames(w.s, Create(w.s, c));
  }

  lemma AnyRequest(w: World, q: Query)
    requires AnyWorld(w)
    ensures AnyWorld(StepWorld(w, Request(q)))
  {
    hide RingInv, NextIndex;
    CursorStays(w.s, w.v, q);
  }

  lemma CursorStays(s: Stream, v: Viewer, q: Query)
    requires CursorInRing(s, v)
    ensures CursorInRing(s, NextIndex(s, v, q).0)
  {
    hide OpenIndex, ReadEntry;
    if |s.t.tf| > 0 { NextName(s, v.cur); }
    hide SeqInFile;
    SameSlot(s, Opened(s, v, q.openOk));
    if |s.t.tf| > 0 { SameSlot(s, RotateViewer(s, Opened(s, v, q.openOk), q.reopenOk)); }
  }

  lemma SameSlot(s: Stream, v: Viewer)
    ensures v.file.Open? ==> ReadEntry(s, v).0.cur == v.cur
  {
  }

  /** In every state of every run the ring stands for the log, and the files are what was
      written to them: `RequestExplained` and `ReadExactly` apply to every request. */
  lemma {:induction false} EveryRun(count: nat, states: seq<World>, events: seq<Event>, k: nat)
    requires IsRun(states, events) && states[0] == FirstWatch(count) && k < |states|
    ensures AnyWorld(states[k])
  {
    hide AnyWorld, Possible, StepWorld;
    if k == 0 {
      FirstAny(count);
    } else {
      EveryRun(count, states, events, k - 1);
      AnyStep(states[k - 1], events[k - 1]);
    }
  }

  lemma FirstAny(count: nat)
    ensures AnyWorld(FirstWatch(count))
  {
    StartRing(count);
    hide RingInv;
  }
}
