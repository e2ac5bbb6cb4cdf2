/**
 The ring of trace files of `src/bin/lttng-relayd/tracefile-array.c`.

 The array is compared with the log of everything ever committed.  Each rotation
 opens a new generation; generation `g` is the half-open range of sequence numbers
 `[starts[g], End(g))`.  `Refines` says the array describes exactly the last `count`
 generations.  Committing always keeps that; rotating keeps it if and only if the
 file that becomes the oldest one has content (`RotationSafe`).
 */
module TracefileArray {
  import MachineInt

  /** The sentinel `-1ULL`. */
  const NONE: nat := 0xFFFF_FFFF_FFFF_FFFF

  datatype Tracefile = Tracefile(seqHead: nat, seqTail: nat)

  const EMPTY_FILE := Tracefile(NONE, NONE)

  /** The fields of `struct tracefile_array`; `count` is the length of `tf`. */
  datatype Tfa = Tfa(tf: seq<Tracefile>, fileHead: nat, fileTail: nat, seqHead: nat, seqTail: nat)

  /** `(x + 1) % count` for an index into the ring. */
  function Next(x: nat, count: nat): nat {
    if x + 1 == count then 0 else x + 1
  }

  function Created(count: nat): Tfa {
    Tfa(seq(count, _ => EMPTY_FILE), 0, 0, NONE, NONE)
  }

  /** How many file names there are: one per file of the ring, and one without a ring. */
  function NameCount(count: nat): nat {
    if count == 0 then 1 else count
  }

  predicate WellFormed(t: Tfa) {
    t.fileHead < NameCount(|t.tf|) && t.fileTail < NameCount(|t.tf|)
  }

  function Rotated(t: Tfa): (t': Tfa)
    requires WellFormed(t)
    ensures WellFormed(t') && |t'.tf| == |t.tf|
  {
    if |t.tf| == 0 then t else
      var head := Next(t.fileHead, |t.tf|);
      var tail := if head == t.fileTail then Next(t.fileTail, |t.tf|) else t.fileTail;
      t.(tf := t.tf[head := EMPTY_FILE], fileHead := head, fileTail := tail,
         seqTail := if t.tf[head].seqHead != NONE then t.tf[tail].seqTail else t.seqTail)
  }

  /** The 64-bit increment that turns the sentinel into 0. */
  function Increment(x: nat): nat {
    if x == NONE then 0 else x + 1
  }

  function Committed(t: Tfa): (t': Tfa)
    requires WellFormed(t)
    ensures WellFormed(t') && |t'.tf| == |t.tf|
  {
    var head := Increment(t.seqHead);
    var tail := if t.seqTail == NONE then 0 else t.seqTail;
    if |t.tf| == 0 then t.(seqHead := head, seqTail := tail) else
      var file := t.tf[t.fileHead];
      t.(seqHead := head, seqTail := tail,
         tf := t.tf[t.fileHead := Tracefile(head, if file.seqTail == NONE then head else file.seqTail)])
  }

  predicate SeqInFile(t: Tfa, file: nat, s: nat)
    requires |t.tf| > 0 ==> file < |t.tf|
  {
    |t.tf| == 0 || (s != NONE && t.tf[file].seqTail <= s <= t.tf[file].seqHead)
  }

  // ---------------------------------------------------------------------
  // The object updated in place
  // ---------------------------------------------------------------------

  class TracefileArray {
    var tf: array<Tracefile>
    var fileHead: nat
    var fileTail: nat
    var seqHead: nat
    var seqTail: nat

    ghost function State(): Tfa
      reads this, tf
    {
      Tfa(tf[..], fileHead, fileTail, seqHead, seqTail)
    }

    constructor (count: nat)
      ensures fresh(tf) && tf.Length == count && State() == Created(count)
    {
      var files := new Tracefile[count];
      tf := files;
      fileHead, fileTail, seqHead, seqTail := 0, 0, NONE, NONE;
      new;
      for i := 0 to count
        invariant tf == files && fileHead == 0 && fileTail == 0 && seqHead == NONE && seqTail == NONE
        invariant forall k | 0 <= k < i :: tf[k] == EMPTY_FILE
      {
        tf[i] := EMPTY_FILE;
      }
    }

    method FileRotate()
      requires WellFormed(State())
      modifies this`fileHead, this`fileTail, this`seqTail, tf
      ensures WellFormed(State()) && State() == Rotated(old(State()))
    {
      if tf.Length == 0 {
        return;
      }
      fileHead := NextFile(fileHead);
      if fileHead == fileTail {
        fileTail := NextFile(fileTail);
      }
      if tf[fileHead].seqHead != NONE {
        seqTail := tf[fileTail].seqTail;
      }
      tf[fileHead] := EMPTY_FILE;
    }

    method CommitSeq()
      requires WellFormed(State())
      modifies this`seqHead, this`seqTail, tf
      ensures WellFormed(State()) && State() == Committed(old(State()))
    {
      seqHead := Increment(seqHead);
      if seqTail == NONE {
        seqTail := 0;
      }
      if tf.Length == 0 {
        return;
      }
      tf[fileHead] := tf[fileHead].(seqHead := seqHead);
      if tf[fileHead].seqTail == NONE {
        tf[fileHead] := tf[fileHead].(seqTail := seqHead);
      }
    }

    method NextFile(x: nat) returns (r: nat)
      requires x < tf.Length
      ensures r == Next(x, tf.Length) && r < tf.Length
    {
      r := (x + 1) % tf.Length;
    }
  }

  // ---------------------------------------------------------------------
  // The log the array stands for
  // ---------------------------------------------------------------------

  /** Everything committed so far, `0 .. total`, and where each generation starts. */
  datatype Log = Log(starts: seq<nat>, total: nat) {
    ghost predicate Valid() {
      && |starts| > 0 && starts[0] == 0 && starts[|starts| - 1] <= total
      && forall i, j | 0 <= i <= j < |starts| :: starts[i] <= starts[j]
    }

    /** The generation being written. */
    ghost function HeadGen(): nat
      requires |starts| > 0
    {
      |starts| - 1
    }

    /** The oldest generation still on disk. */
    ghost function TailGen(count: nat): nat
      requires |starts| > 0
    {
      if 0 < count < |starts| then |starts| - count else 0
    }

    ghost function End(g: nat): nat
      requires g < |starts|
    {
      if g + 1 < |starts| then starts[g + 1] else total
    }

    ghost function Rotated(): Log { Log(starts + [total], total) }

    ghost function Committed(): Log { Log(starts, total + 1) }
  }

  lemma LogOrder(log: Log, i: nat, j: nat)
    requires log.Valid() && i <= j < |log.starts|
    ensures log.starts[i] <= log.starts[j] <= log.total
    ensures log.starts[i] <= log.End(i) <= log.total
    ensures i < j ==> log.End(i) <= log.starts[j]
  {
  }

  /** The ring slot of generation `g`. */
  ghost function Slot(g: nat, count: nat): nat {
    if g == 0 then 0 else Next(Slot(g - 1, count), count)
  }

  /** Generation `g` of a ring of `count` files is in slot `g` modulo `count`. */
  lemma {:induction false} SlotIsModulo(g: nat, count: nat)
    requires count > 0
    ensures Slot(g, count) == g % count
  {
    if g == 0 {
    } else {
      SlotIsModulo(g - 1, count);
      var q, r := (g - 1) / count, (g - 1) % count;
      assert g - 1 == count * q + r;
      if r + 1 == count {
        assert g == count * (q + 1);
        MachineInt.ModUnique(g, count, q + 1, 0);
      } else {
        MachineInt.ModUnique(g, count, q, r + 1);
      }
    }
  }

  /** What the array stores for generation `g`. */
  ghost function FileOf(log: Log, g: nat): Tracefile
    requires g < |log.starts|
  {
    if log.End(g) <= log.starts[g] then EMPTY_FILE
    else Tracefile(log.End(g) - 1, log.starts[g])
  }

  /** The array describes the last `count` generations, but for the overall tail. */
  ghost predicate Matches(t: Tfa, log: Log) {
    var count := |t.tf|;
    && log.Valid() && log.total < NONE
    && t.seqHead == (if log.total == 0 then NONE else log.total - 1)
    && if count == 0 then |log.starts| == 1 && t.fileHead == t.fileTail == 0
       else
         && t.fileHead == Slot(log.HeadGen(), count)
         && t.fileTail == Slot(log.TailGen(count), count)
         && FilesMatch(t, log)
  }

  /** The oldest sequence number on disk, as the overall tail should give it. */
  ghost function TrueTail(count: nat, log: Log): nat
    requires |log.starts| > 0
  {
    if log.total == 0 then NONE else log.starts[log.TailGen(count)]
  }

  ghost predicate Refines(t: Tfa, log: Log) {
    Matches(t, log) && t.seqTail == TrueTail(|t.tf|, log)
  }

  /** Every live generation is in its slot; the slots not used yet are empty. */
  ghost predicate FilesMatch(t: Tfa, log: Log)
    requires |log.starts| > 0
  {
    var count := |t.tf|;
    && (forall g | log.TailGen(count) <= g < |log.starts| ::
          Slot(g, count) < count && t.tf[Slot(g, count)] == FileOf(log, g))
    && (forall i | |log.starts| <= i < count :: t.tf[i] == EMPTY_FILE)
  }

  lemma {:induction false} SlotInRange(g: nat, count: nat)
    requires count > 0
    ensures Slot(g, count) < count
    ensures g < count ==> Slot(g, count) == g
  {
    if g == 0 {
    } else {
      SlotInRange(g - 1, count);
    }
  }

  lemma {:induction false} SlotPlus(g: nat, d: nat, count: nat)
    requires d <= count && count > 0
    ensures Slot(g, count) < count
    ensures Slot(g + d, count) == if Slot(g, count) + d < count then Slot(g, count) + d else Slot(g, count) + d - count
    decreases d
  {
    SlotInRange(g, count);
    if d == 0 {
    } else {
      SlotPlus(g, d - 1, count);
    }
  }

  /** Generations less than `count` apart occupy different slots. */
  lemma SlotsDiffer(g: nat, h: nat, count: nat)
    requires g < h < g + count
    ensures Slot(g, count) != Slot(h, count)
  {
    SlotPlus(g, h - g, count);
  }

  // ---------------------------------------------------------------------
  // The refinement
  // ---------------------------------------------------------------------

  lemma CreatedRefines(count: nat)
    ensures Refines(Created(count), Log([0], 0))
  {
  }

  lemma CommitMatches(t: Tfa, log: Log)
    requires WellFormed(t) && Matches(t, log) && log.total + 1 < NONE
    ensures Matches(Committed(t), log.Committed())
  {
    if |t.tf| > 0 {
      assert t.tf[Slot(log.HeadGen(), |t.tf|)] == FileOf(log, log.HeadGen());
      CommitKeepsFiles(t, log, Committed(t));
    }
    hide FilesMatch, FileOf, Slot;
  }

  lemma CommitRefines(t: Tfa, log: Log)
    requires WellFormed(t) && Refines(t, log) && log.total + 1 < NONE
    ensures Refines(Committed(t), log.Committed())
  {
    CommitMatches(t, log);
    hide FilesMatch, Slot;
  }

  lemma CommitKeepsFiles(t: Tfa, log: Log, t': Tfa)
    requires log.Valid() && |t.tf| > 0 && FilesMatch(t, log)
    requires Slot(log.HeadGen(), |t.tf|) < |t.tf|
    requires t'.tf == t.tf[Slot(log.HeadGen(), |t.tf|) := Tracefile(log.total, log.starts[log.HeadGen()])]
    ensures FilesMatch(t', log.Committed())
  {
    var count, head, log' := |t.tf|, log.HeadGen(), log.Committed();
    SlotInRange(head, count);
    forall g | log'.TailGen(count) <= g < |log'.starts|
      ensures Slot(g, count) < count && t'.tf[Slot(g, count)] == FileOf(log', g)
    {
      if g < head {
        SlotsDiffer(g, head, count);
        assert FileOf(log', g) == FileOf(log, g);
      }
    }
  }

  /** Overwriting a file must leave a file with content as the oldest one. */
  predicate RotationSafe(t: Tfa)
    requires WellFormed(t)
  {
    |t.tf| == 0 ||
    var next := Next(t.fileHead, |t.tf|);
    t.tf[next].seqHead == NONE || (|t.tf| >= 2 && t.tf[Next(next, |t.tf|)].seqHead != NONE)
  }

  /** Every rotation keeps the files in step with the log. */
  lemma RotateMatches(t: Tfa, log: Log)
    requires WellFormed(t) && Matches(t, log) && |t.tf| > 0
    ensures Matches(Rotated(t), log.Rotated())
  {
    if log.HeadGen() + 1 < |t.tf| {
      GrowMatches(t, log);
    } else {
      OverwriteMatches(t, log);
    }
  }

  /** Rotating keeps the overall tail, too, exactly when it is safe. */
  lemma RotateRefinesExactly(t: Tfa, log: Log)
    requires WellFormed(t) && Refines(t, log) && |t.tf| > 0
    ensures Refines(Rotated(t), log.Rotated()) <==> RotationSafe(t)
  {
    RotateMatches(t, log);
    RotatedTail(t, log);
    hide Matches, Rotated, RotationSafe;
    if log.HeadGen() + 1 >= |t.tf| {
      TailStartsNext(log, |t.tf|);
    }
  }

  lemma TailStartsNext(log: Log, count: nat)
    requires |log.starts| > 0 && 0 < count <= |log.starts|
    ensures log.Rotated().TailGen(count) == log.TailGen(count) + 1
    ensures log.Rotated().starts[log.TailGen(count) + 1] == log.End(log.TailGen(count))
  {
  }

  /** What becomes of the overall tail: it moves only when content is overwritten, and
      then to the beginning of the file that is the oldest from now on, or, with a single
      file, to the beginning of what is overwritten. */
  lemma RotatedTail(t: Tfa, log: Log)
    requires WellFormed(t) && Matches(t, log) && |t.tf| > 0
    ensures var count, tail := |t.tf|, log.TailGen(|t.tf|);
            var moves := log.HeadGen() + 1 >= count && log.starts[tail] < log.End(tail);
            && (!moves ==> Rotated(t).seqTail == t.seqTail && RotationSafe(t))
            && (moves && count == 1 ==> Rotated(t).seqTail == log.starts[tail] && !RotationSafe(t))
            && (moves && count >= 2 && log.starts[tail + 1] < log.End(tail + 1) ==>
                  Rotated(t).seqTail == log.starts[tail + 1] && RotationSafe(t))
            && (moves && count >= 2 && log.starts[tail + 1] == log.End(tail + 1) ==>
                  Rotated(t).seqTail == NONE && !RotationSafe(t))
  {
    var count, head, tail := |t.tf|, log.HeadGen(), log.TailGen(|t.tf|);
    if head + 1 < count {
      SlotInRange(head, count);
      assert t.tf[head + 1] == EMPTY_FILE;
    } else {
      OverwriteSlots(log, count);
      assert t.tf[Slot(tail, count)] == FileOf(log, tail);
      assert count >= 2 ==> t.tf[Slot(tail + 1, count)] == FileOf(log, tail + 1);
      LogOrder(log, tail, head);
      hide FilesMatch, Slot;
    }
  }

  /** While the ring is not full, a rotation opens an unused file. */
  lemma GrowMatches(t: Tfa, log: Log)
    requires WellFormed(t) && Matches(t, log) && log.HeadGen() + 1 < |t.tf|
    ensures Matches(Rotated(t), log.Rotated())
  {
    var count, head := |t.tf|, log.HeadGen();
    SlotInRange(head, count);
    SlotInRange(head + 1, count);
    GrowKeepsFiles(t, log, Rotated(t));
  }

  lemma GrowKeepsFiles(t: Tfa, log: Log, t': Tfa)
    requires log.Valid() && log.HeadGen() + 1 < |t.tf| && FilesMatch(t, log)
    requires t'.tf == t.tf[log.HeadGen() + 1 := EMPTY_FILE]
    ensures FilesMatch(t', log.Rotated())
  {
    var count, head, log' := |t.tf|, log.HeadGen(), log.Rotated();
    forall g | 0 <= g < |log'.starts|
      ensures Slot(g, count) < count && t'.tf[Slot(g, count)] == FileOf(log', g)
    {
      SlotInRange(g, count);
      if g <= head { assert FileOf(log', g) == FileOf(log, g); }
    }
  }

  /** Once it is full, a rotation overwrites the oldest generation. */
  lemma OverwriteMatches(t: Tfa, log: Log)
    requires WellFormed(t) && Matches(t, log) && |t.tf| > 0 && log.HeadGen() + 1 >= |t.tf|
    ensures Matches(Rotated(t), log.Rotated())
  {
    hide FilesMatch, Slot;
    OverwriteSlots(log, |t.tf|);
    TailStartsNext(log, |t.tf|);
    OverwriteKeepsFiles(t, log, Rotated(t));
    hide Log.Valid;
    RotatedValid(log);
  }

  lemma RotatedValid(log: Log)
    requires log.Valid()
    ensures log.Rotated().Valid()
  {
  }

  /** The next file is the tail, and the one after it becomes the tail. */
  lemma OverwriteSlots(log: Log, count: nat)
    requires log.Valid() && 0 < count <= log.HeadGen() + 1
    ensures var head, tail := log.HeadGen(), log.TailGen(count);
            && Slot(tail, count) < count && Slot(head, count) < count && Slot(tail + 1, count) < count
            && Slot(head + 1, count) == Next(Slot(head, count), count) == Slot(tail, count)
            && Slot(tail + 1, count) == Next(Slot(tail, count), count)
  {
    var tail := log.TailGen(count);
    SlotPlus(tail, count, count);
    SlotPlus(tail, count - 1, count);
    SlotInRange(tail + 1, count);
  }

  lemma OverwriteKeepsFiles(t: Tfa, log: Log, t': Tfa)
    requires log.Valid() && 0 < |t.tf| <= log.HeadGen() + 1 && FilesMatch(t, log)
    requires Slot(log.TailGen(|t.tf|), |t.tf|) < |t.tf|
    requires t'.tf == t.tf[Slot(log.TailGen(|t.tf|), |t.tf|) := EMPTY_FILE]
    ensures FilesMatch(t', log.Rotated())
  {
    var count, tail, log' := |t.tf|, log.TailGen(|t.tf|), log.Rotated();
    forall g | tail < g < |log'.starts|
      ensures Slot(g, count) < count && t'.tf[Slot(g, count)] == FileOf(log', g)
    {
      if g <= log.HeadGen() {
        SlotsDiffer(tail, g, count);
        SlotInRange(g, count);
        assert FileOf(log', g) == FileOf(log, g);
      } else {
        SlotPlus(tail, count, count);
      }
    }
  }

  // ---------------------------------------------------------------------
  // What the refinement means
  // ---------------------------------------------------------------------

  /** A generation that is still on disk. */
  ghost predicate Live(log: Log, count: nat, g: nat)
    requires |log.starts| > 0
  {
    log.TailGen(count) <= g < |log.starts|
  }

  ghost predicate InGeneration(log: Log, g: nat, s: nat)
    requires g < |log.starts|
  {
    log.starts[g] <= s < log.End(g)
  }

  /** The file of a live generation answers for that generation and no other. */
  lemma SeqInFileIsMembership(t: Tfa, log: Log, g: nat, s: nat)
    requires Matches(t, log) && |t.tf| > 0 && Live(log, |t.tf|, g)
    ensures Slot(g, |t.tf|) < |t.tf|
    ensures SeqInFile(t, Slot(g, |t.tf|), s) <==> InGeneration(log, g, s)
  {
    hide Slot;
    assert t.tf[Slot(g, |t.tf|)] == FileOf(log, g);
    assert log.End(g) <= log.total;
  }

  lemma {:induction false} FindGeneration(log: Log, tail: nat, s: nat) returns (g: nat)
    requires log.Valid() && tail < |log.starts| && log.starts[tail] <= s < log.total
    ensures tail <= g < |log.starts| && InGeneration(log, g, s)
    decreases |log.starts| - tail
  {
    if s < log.End(tail) {
      g := tail;
    } else {
      g := FindGeneration(log, tail + 1, s);
    }
  }

  /** The files hold disjoint ranges that cover exactly `[seqTail, seqHead]`. */
  lemma FilesPartitionTheTail(t: Tfa, log: Log, s: nat)
    requires Refines(t, log) && |t.tf| > 0
    ensures (exists g | Live(log, |t.tf|, g) :: InGeneration(log, g, s))
            <==> t.seqHead != NONE && t.seqTail <= s <= t.seqHead
    ensures forall g, h | && Live(log, |t.tf|, g) && InGeneration(log, g, s)
                          && Live(log, |t.tf|, h) && InGeneration(log, h, s) :: g == h
  {
    hide FilesMatch, Slot;
    var tail := log.TailGen(|t.tf|);
    if t.seqHead != NONE && t.seqTail <= s <= t.seqHead {
      var g := FindGeneration(log, tail, s);
      assert Live(log, |t.tf|, g);
    }
  }

  /** Every slot holds a live generation or was never used. */
  lemma SlotOwner(log: Log, count: nat, i: nat) returns (g: nat)
    requires log.Valid() && i < count
    ensures i >= |log.starts| || (Live(log, count, g) && Slot(g, count) == i)
  {
    if |log.starts| < count {
      g := i;
      SlotInRange(i, count);
    } else {
      var tail := log.TailGen(count);
      SlotInRange(tail, count);
      var d := if i >= Slot(tail, count) then i - Slot(tail, count) else i + count - Slot(tail, count);
      SlotPlus(tail, d, count);
      g := tail + d;
    }
  }

  /** An index that was overwritten is in no file. */
  lemma OverwrittenIsInNoFile(t: Tfa, log: Log, i: nat, s: nat)
    requires Matches(t, log) && i < |t.tf| && s < log.starts[log.TailGen(|t.tf|)]
    ensures !SeqInFile(t, i, s)
  {
    var g := SlotOwner(log, |t.tf|, i);
    if i < |log.starts| {
      SeqInFileIsMembership(t, log, g, s);
    }
  }

  /** An index that is still there is in one file, that of its generation. */
  lemma WhichFile(t: Tfa, log: Log, s: nat) returns (g: nat)
    requires Matches(t, log) && |t.tf| > 0 && log.starts[log.TailGen(|t.tf|)] <= s < log.total
    ensures Live(log, |t.tf|, g) && InGeneration(log, g, s)
    ensures forall i | 0 <= i < |t.tf| :: SeqInFile(t, i, s) <==> i == Slot(g, |t.tf|)
  {
    g := FindGeneration(log, log.TailGen(|t.tf|), s);
    forall i | 0 <= i < |t.tf|
      ensures SeqInFile(t, i, s) <==> i == Slot(g, |t.tf|)
    {
      hide Matches, Slot, SeqInFile;
      SeqInFileIsMembership(t, log, g, s);
      InOneFile(t, log, g, i, s);
    }
  }

  lemma InOneFile(t: Tfa, log: Log, g: nat, i: nat, s: nat)
    requires Matches(t, log) && i < |t.tf| && Live(log, |t.tf|, g) && InGeneration(log, g, s)
    ensures SeqInFile(t, i, s) ==> i == Slot(g, |t.tf|)
  {
    var h := SlotOwner(log, |t.tf|, i);
    if i < |log.starts| {
      SeqInFileIsMembership(t, log, h, s);
    }
  }

  // ---------------------------------------------------------------------
  // Whole runs
  // ---------------------------------------------------------------------

  datatype Op = CommitOp | RotateOp

  function Step(t: Tfa, op: Op): Tfa
    requires WellFormed(t)
  {
    if op.CommitOp? then Committed(t) else Rotated(t)
  }

  function Run(count: nat, ops: seq<Op>): (t: Tfa)
    ensures WellFormed(t) && |t.tf| == count
  {
    if ops == [] then Created(count) else Step(Run(count, ops[..|ops| - 1]), ops[|ops| - 1])
  }

  ghost function LogOf(count: nat, ops: seq<Op>): (log: Log)
    ensures log.Valid() && log.total <= |ops|
  {
    if ops == [] then Log([0], 0) else
      var log := LogOf(count, ops[..|ops| - 1]);
      if ops[|ops| - 1].CommitOp? then log.Committed() else if count == 0 then log else log.Rotated()
  }

  /** Every rotation of the run was safe when it happened. */
  ghost predicate SafeRun(count: nat, ops: seq<Op>) {
    forall k | 0 <= k < |ops| && ops[k].RotateOp? :: RotationSafe(Run(count, ops[..k]))
  }

  lemma RotateWithoutRing(t: Tfa)
    requires WellFormed(t) && |t.tf| == 0
    ensures Rotated(t) == t
  {
  }

  /** After any run of fewer than 2^64 - 2 operations whose rotations were all
      safe, the array is the last `count` generations of the log. */
  lemma {:induction false} RunRefines(count: nat, ops: seq<Op>)
    requires |ops| + 1 < NONE && SafeRun(count, ops)
    ensures Refines(Run(count, ops), LogOf(count, ops))
  {
    hide Refines, RotationSafe, Committed, Rotated, Created;
    if ops == [] {
      CreatedRefines(count);
    } else {
      var n := |ops| - 1;
      forall k | 0 <= k < n && ops[..n][k].RotateOp?
        ensures RotationSafe(Run(count, ops[..n][..k]))
      {
        assert ops[..n][..k] == ops[..k] && ops[..n][k] == ops[k];
      }
      RunRefines(count, ops[..n]);
      if ops[n].CommitOp? {
        CommitRefines(Run(count, ops[..n]), LogOf(count, ops[..n]));
      } else if count > 0 {
        assert RotationSafe(Run(count, ops[..n]));
        RotateRefinesExactly(Run(count, ops[..n]), LogOf(count, ops[..n]));
      } else {
        RotateWithoutRing(Run(count, ops[..n]));
      }
    }
  }

  // ---------------------------------------------------------------------
  // Runs with unsafe rotations
  // ---------------------------------------------------------------------

  /** What the overall tail can be in any run: right, lost, or reset to 0 by the first
      commit after it was lost.  With a single file it is never lost, but may be old. */
  ghost predicate TailKnown(t: Tfa, log: Log)
    requires |log.starts| > 0
  {
    if log.total == 0 then t.seqTail == NONE
    else if |t.tf| == 1 then t.seqTail <= log.starts[log.TailGen(1)]
    else t.seqTail == NONE || t.seqTail == 0 || t.seqTail == log.starts[log.TailGen(|t.tf|)]
  }

  lemma CommitTailKnown(t: Tfa, log: Log)
    requires WellFormed(t) && Matches(t, log) && TailKnown(t, log)
    ensures TailKnown(Committed(t), log.Committed())
  {
    hide FilesMatch, Slot;
  }

  lemma RotateTailKnown(t: Tfa, log: Log)
    requires WellFormed(t) && Matches(t, log) && TailKnown(t, log) && |t.tf| > 0
    ensures TailKnown(Rotated(t), log.Rotated())
  {
    RotatedTail(t, log);
    hide FilesMatch, Slot, Rotated, RotationSafe;
    LogOrder(log, log.TailGen(|t.tf|), log.HeadGen());
    if log.HeadGen() + 1 >= |t.tf| {
      TailStartsNext(log, |t.tf|);
    }
  }

  /** After any run at all the files are the last generations, and the tail is known. */
  lemma {:induction false} RunMatches(count: nat, ops: seq<Op>)
    requires |ops| + 1 < NONE
    ensures Matches(Run(count, ops), LogOf(count, ops)) && TailKnown(Run(count, ops), LogOf(count, ops))
  {
    hide Matches, TailKnown, Committed, Rotated;
    if ops == [] {
      CreatedMatches(count);
    } else {
      var t, log := Run(count, ops[..|ops| - 1]), LogOf(count, ops[..|ops| - 1]);
      RunMatches(count, ops[..|ops| - 1]);
      if ops[|ops| - 1].CommitOp? {
        CommitMatches(t, log);
        CommitTailKnown(t, log);
      } else if count > 0 {
        RotateMatches(t, log);
        RotateTailKnown(t, log);
      } else {
        RotateWithoutRing(t);
      }
    }
  }

  lemma CreatedMatches(count: nat)
    ensures Matches(Created(count), Log([0], 0)) && TailKnown(Created(count), Log([0], 0))
  {
    CreatedRefines(count);
  }

  /** No generation but the newest is empty. */
  ghost predicate NoEmptyFile(log: Log) {
    forall g | 0 <= g < |log.starts| - 1 :: log.starts[g] < log.starts[g + 1]
  }

  /** With two files or more, rotating out of a file with content is always safe. */
  lemma NonEmptyRotationIsSafe(t: Tfa, log: Log)
    requires WellFormed(t) && Refines(t, log) && |t.tf| >= 2
    requires NoEmptyFile(log) && log.starts[log.HeadGen()] < log.total
    ensures RotationSafe(t) && NoEmptyFile(log.Rotated())
  {
    var count, head := |t.tf|, log.HeadGen();
    SlotInRange(head, count);
    SlotInRange(head + 1, count);
    if head + 1 < count {
      assert t.tf[head + 1] == EMPTY_FILE;
    } else {
      var tail := log.TailGen(count);
      OverwriteSlots(log, count);
      assert t.tf[Slot(tail + 1, count)] == FileOf(log, tail + 1);
    }
  }

  /** A single file forgets to move its tail, and an empty file loses it. */
  lemma UnsafeRotations()
    ensures !RotationSafe(Run(1, [CommitOp])) && Run(1, [CommitOp, RotateOp]).seqTail == 0
    ensures !RotationSafe(Run(2, [CommitOp, RotateOp])) && Run(2, [CommitOp, RotateOp, RotateOp]).seqTail == NONE
  {
    assert [CommitOp, RotateOp, RotateOp][..2] == [CommitOp, RotateOp];
    assert [CommitOp, RotateOp][..1] == [CommitOp];
    assert [CommitOp][..0] == [];
    assert Run(1, [CommitOp]) == Committed(Created(1));
    assert Run(2, [CommitOp]) == Committed(Created(2));
  }
}
