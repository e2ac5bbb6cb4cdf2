/**
 The join of the two halves of a packet index (`src/bin/lttng-relayd/index.c`, and
 `relay_recv_index`, `handle_index_data` and `relay_process_data` of `main.c`).

 The control connection brings the description of a packet, the data connection its
 bytes; whichever comes second makes the index complete, and it is written out.  Each
 region under the stream lock is one step.
 */
module RelayIndex {
  import opened Wrappers
  import opened TracefileArray

  /** What the control half brings; `packetSize == 0` marks a live beacon. */
  datatype Info = Info(packetSize: nat, contentSize: nat, timestampBegin: nat, timestampEnd: nat,
                       eventsDiscarded: nat, streamId: nat)

  /** An index: `file` and `offset` come from the data half, `ref` counts references. */
  datatype Index = Index(file: Option<nat>, offset: nat, info: Option<Info>, ref: nat)

  const NEW_INDEX := Index(None, 0, None, 1)

  /** An index written out. */
  datatype Write = Write(seqNum: nat, file: nat, offset: nat, info: Info)

  /** Where the bytes of a packet went: `offset` is the position its index gives, `at`
      the position in the file; of the `size` bytes written there, `whole` says that they
      are all there are, the `data` bytes of the packet and its padding. */
  datatype Placement = Placement(seqNum: nat, file: nat, offset: nat, at: nat, size: nat, whole: bool, data: nat)

  /** A beacon that was accepted, and how many indexes had been written and were in
      flight by then. */
  datatype Beacon = Beacon(timestamp: nat, received: nat, inFlight: nat)

  /** The fields of `struct relay_stream` the join works on.  `gets` and `puts` count the
      references on the stream that indexes took and gave back.  `generation` counts the
      rotations; `dataFile` is the generation of the open data file, an older one once
      opening a file has failed.  `stray` counts the bytes in the file that `sizeCurrent`
      does not.  `written`, `placed`, `lost` and `accepted` record what happened; `lost` are
      the packets that arrived with no data file open. */
  datatype Table = Table(indexes: map<nat, Index>, inFlight: nat, gets: nat, puts: nat, received: nat, beacon: nat,
                         tfa: Tfa, sizeLimit: nat, sizeCurrent: nat, stray: nat, generation: nat, dataFile: nat,
                         indexFile: Option<nat>, prevSeq: nat, written: seq<Write>, placed: seq<Placement>,
                         lost: set<nat>, accepted: Option<Beacon>)

  /** `AssertionFailed`: an index without references is put. */
  datatype Outcome = Done | Refused | Interrupted | AssertionFailed

  function NewTable(count: nat, sizeLimit: nat): Table {
    Table(map[], 0, 0, 0, 0, 0, Created(count), sizeLimit, 0, 0, 0, 0, None, NONE, [], [], {}, None)
  }

  // ---------------------------------------------------------------------
  // Specification of the steps
  // ---------------------------------------------------------------------

  function GetOrCreate(t: Table, n: nat): (t': Table)
    ensures n in t'.indexes
  {
    if n in t.indexes then t
    else t.(indexes := t.indexes[n := NEW_INDEX], inFlight := t.inFlight + 1, gets := t.gets + 1)
  }

  /** `index_release`: the table without index `n`, whose reference on the stream is put. */
  function Removed(t: Table, n: nat): Table
    requires n in t.indexes && t.inFlight > 0
  {
    t.(indexes := t.indexes - {n}, inFlight := t.inFlight - 1, puts := t.puts + 1)
  }

  datatype PutResult = PutFails | PutDone(t: Table, index: Index)

  /** `relay_index_put` on the object `index`, number `n`: the last reference releases it. */
  function PutIndex(t: Table, n: nat, index: Index): PutResult
    requires n in t.indexes ==> t.inFlight > 0
  {
    if index.ref == 0 then PutFails
    else if index.ref == 1 then PutDone(if n in t.indexes then Removed(t, n) else t.(puts := t.puts + 1), index.(ref := 0))
    else
      var index' := index.(ref := index.ref - 1);
      PutDone(if n in t.indexes then t.(indexes := t.indexes[n := index']) else t, index')
  }

  /** What a caller does to an index it refuses. */
  function Drop(t: Table, n: nat): (Table, Outcome)
    requires n in t.indexes && t.inFlight > 0
  {
    match PutIndex(t, n, t.indexes[n])
    case PutFails => (t, AssertionFailed)
    case PutDone(t', _) => (t', Refused)
  }

  /** `result` is 0 after a write, 1 if there was nothing to write, -1 if the write failed. */
  datatype Flushed = FlushFails | Flushed(t: Table, index: Index, result: int)

  /** `relay_index_try_flush`: an index with both halves is written and put. */
  function TryFlush(t: Table, n: nat, writeOk: bool): (f: Flushed)
    requires n in t.indexes && t.inFlight > 0
    ensures f.Flushed? && n in f.t.indexes ==> f.t.inFlight > 0
    ensures f.Flushed? ==> f.t.tfa == t.tfa
  {
    var index := t.indexes[n];
    if index.info.None? || index.file.None? then Flushed(t, index, 1) else
      var write := Write(n, index.file.value, index.offset, index.info.value);
      var t1 := if writeOk then t.(written := t.written + [write]) else t;
      match PutIndex(t1, n, index)
      case PutFails => FlushFails
      case PutDone(t', index') => Flushed(t', index', if writeOk then 0 else -1)
  }

  /** What both callers of `relay_index_try_flush` do with its result. */
  function Settle(f: Flushed, n: nat): (Table, Outcome)
    requires f.Flushed? && WellFormed(f.t.tfa) && (n in f.t.indexes ==> f.t.inFlight > 0)
  {
    if f.result == 0 then (f.t.(tfa := Committed(f.t.tfa), received := f.t.received + 1), Done)
    else if f.result > 0 then (f.t, Done)
    else
      match PutIndex(f.t, n, f.index)
      case PutFails => (f.t, AssertionFailed)
      case PutDone(t', _) => (t', Refused)
  }

  /** Writing out an index that may have both halves now. */
  function Complete(t: Table, n: nat, writeOk: bool): (Table, Outcome)
    requires n in t.indexes && t.inFlight > 0 && WellFormed(t.tfa)
  {
    var f := TryFlush(t, n, writeOk);
    if f.FlushFails? then (t, AssertionFailed) else Settle(f, n)
  }

  /** `relay_recv_index`. */
  function Control(t: Table, n: nat, info: Info, writeOk: bool): (Table, Outcome)
    requires WellFormed(t.tfa) && t.inFlight == |t.indexes|
  {
    if info.packetSize == 0 then
      if t.received > 0 && t.inFlight == 0 then
        (t.(beacon := info.timestampEnd, accepted := Some(Beacon(info.timestampEnd, t.received, t.inFlight))), Done)
      else (t, Done)
    else
      var t1 := GetOrCreate(t.(beacon := NONE), n);
      var index := t1.indexes[n];
      if index.info.Some? then Drop(t1, n)
      else Complete(t1.(indexes := t1.indexes[n := index.(info := Some(info))]), n, writeOk)
  }

  /** `handle_index_data`. */
  function HandleData(t: Table, n: nat, rotate: bool, fileOk: bool, writeOk: bool): (Table, Outcome)
    requires WellFormed(t.tfa) && t.inFlight == |t.indexes|
  {
    var t1 := GetOrCreate(t, n);
    var index := t1.indexes[n];
    var create := rotate || t1.indexFile.None?;
    if create && !fileOk then Drop(t1.(indexFile := None), n)
    else
      var t2 := if create then t1.(indexFile := Some(t1.generation)) else t1;
      if index.file.Some? then Drop(t2, n)
      else Complete(t2.(indexes := t2.indexes[n := index.(file := t2.indexFile, offset := t2.sizeCurrent)]), n, writeOk)
  }

  predicate RotationNeeded(t: Table, size: nat) {
    t.sizeLimit > 0 && t.sizeCurrent + size > t.sizeLimit
  }

  function RotateFile(t: Table): Table
    requires WellFormed(t.tfa)
  {
    t.(tfa := Rotated(t.tfa), sizeCurrent := 0, stray := 0, generation := t.generation + 1,
       dataFile := t.generation + 1)
  }

  /** A rotation that cannot open the next data file: the ring has moved on, and the stream
      is left without a descriptor. */
  function RotateFails(t: Table): Table
    requires WellFormed(t.tfa)
  {
    t.(tfa := Rotated(t.tfa), generation := t.generation + 1)
  }

  predicate Broken(t: Table) { t.dataFile != t.generation }

  /** How a data half fares: whether the next data file, the next index file and the index
      can be written; `partial` is set when receiving or writing fails after that many bytes. */
  datatype Luck = Luck(rotateOk: bool, fileOk: bool, writeOk: bool, partial: Option<nat>)

  const GOOD_LUCK := Luck(true, true, true, None)

  /** A rotation closes the data file first, which fails once there is none. */
  predicate RotationFails(t: Table, size: nat, luck: Luck) {
    RotationNeeded(t, size) && (!luck.rotateOk || Broken(t))
  }

  /** `relay_process_data`, the region under the stream lock. */
  function Process(t: Table, n: nat, size: nat, padding: nat, luck: Luck): (Table, Outcome)
    requires WellFormed(t.tfa) && t.inFlight == |t.indexes|
  {
    if RotationFails(t, size, luck) then (RotateFails(t), Refused) else
      var rotate := RotationNeeded(t, size);
      var t1 := if rotate then RotateFile(t) else t;
      var (t2, outcome) := HandleData(t1, n, rotate, luck.fileOk, luck.writeOk);
      if !outcome.Done? then (t2, outcome) else Stored(t2, n, size, padding, luck.partial)
  }

  /** The bytes of the packet are appended, all of them, the first ones or, with no file, none. */
  function Stored(t: Table, n: nat, size: nat, padding: nat, partial: Option<nat>): (Table, Outcome) {
    var bytes := if partial.None? then size + padding else partial.value;
    var p := Placement(n, t.dataFile, t.sizeCurrent, t.sizeCurrent + t.stray, bytes, partial.None?, size);
    var lost := if Broken(t) then t.lost + {n} else t.lost;
    if Broken(t) && (size + padding > 0 || partial.Some?) then (t.(lost := lost), Interrupted)
    else if partial.None? then
      (t.(sizeCurrent := t.sizeCurrent + bytes, prevSeq := n, placed := t.placed + [p], lost := lost), Done)
    else (t.(stray := t.stray + bytes, placed := t.placed + [p]), Interrupted)
  }

  function ClosePartial(t: Table): (t': Table)
    ensures |t'.indexes| <= |t.indexes|
  {
    var kept := map n | n in t.indexes && t.indexes[n].file.None? :: t.indexes[n];
    FewerEntries(t.indexes, kept);
    t.(indexes := kept, inFlight := |kept|, puts := t.puts + |t.indexes| - |kept|)
  }

  function AllClosed(t: Table): Table {
    t.(indexes := map[], inFlight := 0, puts := t.puts + |t.indexes|)
  }

  /** What the search for the last of `keys` may find: the largest, or the sentinel if
      there is none.  A number equal to the sentinel restarts the search, so that with
      one any number, or none, may come out, depending on the order. */
  predicate MayFind(keys: set<nat>, last: nat) {
    && (last == NONE || last in keys)
    && (NONE !in keys ==> (last == NONE <==> keys == {}) && forall n | n in keys :: n <= last)
  }

  // ---------------------------------------------------------------------
  // The object updated in place
  // ---------------------------------------------------------------------

  class StreamIndexes {
    var indexes: map<nat, Index>
    var inFlight: nat
    var gets: nat
    var puts: nat
    var received: nat
    var beacon: nat
    var tfa: Tfa
    const sizeLimit: nat
    var sizeCurrent: nat
    var stray: nat
    var generation: nat
    var dataFile: nat
    var indexFile: Option<nat>
    var prevSeq: nat
    var written: seq<Write>
    var placed: seq<Placement>
    var lost: set<nat>
    var accepted: Option<Beacon>

    function State(): Table
      reads this
    {
      Table(indexes, inFlight, gets, puts, received, beacon, tfa, sizeLimit, sizeCurrent, stray, generation, dataFile,
            indexFile, prevSeq, written, placed, lost, accepted)
    }

    predicate Valid()
      reads this
    {
      WellFormed(tfa) && inFlight == |indexes|
    }

    /** Every index in the table has one reference, its own. */
    predicate OneReference()
      reads this
    {
      forall n | n in indexes :: indexes[n].ref == 1
    }

    constructor (count: nat, limit: nat)
      ensures Valid() && OneReference() && State() == NewTable(count, limit)
    {
      indexes, inFlight, gets, puts, received, beacon, tfa := map[], 0, 0, 0, 0, 0, Created(count);
      sizeLimit, sizeCurrent, stray, generation, dataFile, indexFile, prevSeq := limit, 0, 0, 0, 0, None, NONE;
      written, placed, lost, accepted := [], [], {}, None;
    }

    method FindOrCreate(n: nat)
      requires Valid()
      modifies this`indexes, this`inFlight, this`gets
      ensures Valid() && State() == GetOrCreate(old(State()), n)
    {
      if n !in indexes {
        gets := gets + 1;
        indexes := indexes[n := NEW_INDEX];
        inFlight := inFlight + 1;
      }
    }

    /** Puts a reference of the object `index`; fails if there is none. */
    method Put(n: nat, index: Index) returns (ok: bool, index': Index)
      requires Valid()
      modifies this`indexes, this`inFlight, this`puts
      ensures Valid()
      ensures var r := PutIndex(old(State()), n, index);
              ok == r.PutDone? && if ok then State() == r.t && index' == r.index else State() == old(State())
    {
      index' := index;
      if index.ref == 0 {
        return false, index;
      }
      index' := index.(ref := index.ref - 1);
      if index'.ref == 0 {
        if n in indexes {
          RemoveKey(indexes, n);
          indexes := indexes - {n};
          inFlight := inFlight - 1;
        }
        puts := puts + 1;
      } else {
        if n in indexes {
          SetEntry(indexes, n, index');
          indexes := indexes[n := index'];
        }
      }
      return true, index';
    }

    method Flush(n: nat, writeOk: bool) returns (ok: bool, index: Index, result: int)
      requires Valid() && n in indexes
      modifies this`indexes, this`inFlight, this`puts, this`written
      ensures Valid()
      ensures var f := TryFlush(old(State()), n, writeOk);
              ok == f.Flushed? && (ok ==> State() == f.t && index == f.index && result == f.result)
    {
      ok, index, result := true, indexes[n], 1;
      if index.info.None? || index.file.None? {
        return;
      }
      result := -1;
      if writeOk {
        written := written + [Write(n, index.file.value, index.offset, index.info.value)];
        result := 0;
      }
      ok, index := Put(n, index);
    }

    method Finish(n: nat, writeOk: bool) returns (outcome: Outcome)
      requires Valid() && n in indexes
      modifies this`indexes, this`inFlight, this`puts, this`received, this`tfa, this`written
      ensures Valid() && outcome == Complete(old(State()), n, writeOk).1
      ensures !outcome.AssertionFailed? ==> State() == Complete(old(State()), n, writeOk).0
    {
      var ok, index, result := Flush(n, writeOk);
      if !ok {
        return AssertionFailed;
      }
      if result == 0 {
        tfa := Committed(tfa);
        received := received + 1;
        return Done;
      } else if result > 0 {
        return Done;
      }
      ok, index := Put(n, index);
      return if ok then Refused else AssertionFailed;
    }

    /** Puts an index that is refused. */
    method Refuse(n: nat) returns (outcome: Outcome)
      requires Valid() && n in indexes
      modifies this`indexes, this`inFlight, this`puts
      ensures Valid() && (State(), outcome) == Drop(old(State()), n)
    {
      var ok, _ := Put(n, indexes[n]);
      return if ok then Refused else AssertionFailed;
    }

    method RecvIndex(n: nat, info: Info, writeOk: bool) returns (outcome: Outcome)
      requires Valid()
      modifies this
      ensures Valid() && outcome == Control(old(State()), n, info, writeOk).1
      ensures !outcome.AssertionFailed? ==> State() == Control(old(State()), n, info, writeOk).0
    {
      hide Complete, Drop;
      if info.packetSize == 0 {
        if received > 0 && inFlight == 0 {
          beacon := info.timestampEnd;
          accepted := Some(Beacon(info.timestampEnd, received, inFlight));
        }
        return Done;
      }
      beacon := NONE;
      FindOrCreate(n);
      if indexes[n].info.Some? {
        outcome := Refuse(n);
        return;
      }
      SetEntry(indexes, n, indexes[n].(info := Some(info)));
      indexes := indexes[n := indexes[n].(info := Some(info))];
      outcome := Finish(n, writeOk);
    }

    method HandleIndexData(n: nat, rotate: bool, fileOk: bool, writeOk: bool) returns (outcome: Outcome)
      requires Valid()
      modifies this
      ensures Valid() && outcome == HandleData(old(State()), n, rotate, fileOk, writeOk).1
      ensures !outcome.AssertionFailed? ==> State() == HandleData(old(State()), n, rotate, fileOk, writeOk).0
    {
      hide Complete, Drop;
      var offset := sizeCurrent;
      FindOrCreate(n);
      if rotate || indexFile.None? {
        indexFile := None;
        if !fileOk {
          outcome := Refuse(n);
          return;
        }
        indexFile := Some(generation);
      }
      if indexes[n].file.Some? {
        outcome := Refuse(n);
        return;
      }
      SetEntry(indexes, n, indexes[n].(file := indexFile, offset := offset));
      indexes := indexes[n := indexes[n].(file := indexFile, offset := offset)];
      outcome := Finish(n, writeOk);
    }

    /** Rotates the ring, then closes the data file and opens the next one. */
    method RotateData(rotateOk: bool) returns (ok: bool)
      requires Valid()
      modifies this`tfa, this`generation, this`dataFile, this`sizeCurrent, this`stray
      ensures Valid() && ok == (rotateOk && !Broken(old(State())))
      ensures State() == if ok then RotateFile(old(State())) else RotateFails(old(State()))
    {
      hide Rotated;
      ok := rotateOk && dataFile == generation;
      tfa := Rotated(tfa);
      generation := generation + 1;
      if ok {
        dataFile := generation;
        sizeCurrent := 0;
        stray := 0;
      }
    }

    method ProcessData(n: nat, size: nat, padding: nat, luck: Luck) returns (outcome: Outcome)
      requires Valid()
      modifies this
      ensures Valid() && outcome == Process(old(State()), n, size, padding, luck).1
      ensures !outcome.AssertionFailed? ==> State() == Process(old(State()), n, size, padding, luck).0
    {
      hide HandleData, Rotated, Stored;
      var rotate := false;
      if sizeLimit > 0 && sizeCurrent + size > sizeLimit {
        rotate := RotateData(luck.rotateOk);
        if !rotate {
          return Refused;
        }
      }
      outcome := HandleIndexData(n, rotate, luck.fileOk, luck.writeOk);
      if outcome.Done? {
        outcome := Store(n, size, padding, luck.partial);
      }
    }

    /** Receives the bytes; on failure the size and the sequence number stay behind. */
    method Store(n: nat, size: nat, padding: nat, partial: Option<nat>) returns (outcome: Outcome)
      requires Valid()
      modifies this`sizeCurrent, this`stray, this`prevSeq, this`placed, this`lost
      ensures Valid() && (State(), outcome) == Stored(old(State()), n, size, padding, partial)
    {
      if dataFile != generation {
        lost := lost + {n};
        if size + padding > 0 || partial.Some? {
          return Interrupted;
        }
      }
      var bytes := if partial.None? then size + padding else partial.value;
      placed := placed + [Placement(n, dataFile, sizeCurrent, sizeCurrent + stray, bytes, partial.None?, size)];
      if partial.Some? {
        stray := stray + bytes;
        return Interrupted;
      }
      sizeCurrent := sizeCurrent + size + padding;
      prevSeq := n;
      return Done;
    }

    /** Puts every index. */
    method CloseAll()
      requires Valid() && OneReference()
      modifies this`indexes, this`inFlight, this`puts
      ensures Valid() && State() == AllClosed(old(State()))
    {
      while indexes.Keys != {}
        invariant Valid() && OneReference() && puts + |indexes| == old(puts + |indexes|)
        invariant State() == old(State()).(indexes := indexes, inFlight := inFlight, puts := puts)
        decreases |indexes|
      {
        var n :| n in indexes;
        var ok, _ := Put(n, indexes[n]);
      }
      assert indexes == map[];
    }

    /** Puts every index that has only its data half. */
    method ClosePartialFd()
      requires Valid() && OneReference()
      modifies this`indexes, this`inFlight, this`puts
      ensures Valid() && OneReference() && State() == ClosePartial(old(State()))
    {
      var todo := indexes.Keys;
      while todo != {}
        invariant Valid() && todo <= indexes.Keys <= old(indexes).Keys && puts + |indexes| == old(puts + |indexes|)
        invariant State() == old(State()).(indexes := indexes, inFlight := inFlight, puts := puts)
        invariant forall n | n in indexes :: indexes[n] == old(indexes)[n] && (n in todo || indexes[n].file.None?)
        invariant forall n | n in old(indexes) && old(indexes)[n].file.None? :: n in indexes
        decreases todo
      {
        var n :| n in todo;
        if indexes[n].file.Some? {
          var ok, _ := Put(n, indexes[n]);
        }
        todo := todo - {n};
      }
      assert indexes == ClosePartial(old(State())).indexes;
    }

    /** The running maximum of the sequence numbers in flight, the sentinel to begin with. */
    method FindLast() returns (last: nat)
      ensures MayFind(indexes.Keys, last)
    {
      last := NONE;
      var todo := indexes.Keys;
      ghost var seen: set<nat> := {};
      while todo != {}
        invariant seen + todo == indexes.Keys && MayFind(seen, last)
        decreases todo
      {
        var n :| n in todo;
        if last == NONE || n > last {
          last := n;
        }
        todo, seen := todo - {n}, seen + {n};
      }
    }
  }

  lemma FewerEntries<K, V>(m: map<K, V>, m': map<K, V>)
    requires m'.Keys <= m.Keys
    ensures |m'| <= |m|
  {
    SubsetSize(m'.Keys, m.Keys);
  }

  lemma {:induction false} SubsetSize<K>(a: set<K>, b: set<K>)
    requires a <= b
    ensures |a| <= |b|
  {
    if a == {} {
    } else {
      var k :| k in a;
      SubsetSize(a - {k}, b - {k});
    }
  }

  lemma RemoveKey<K, V>(m: map<K, V>, k: K)
    requires k in m
    ensures |m - {k}| == |m| - 1
  {
    assert (m - {k}).Keys == m.Keys - {k};
  }

  lemma SetEntry<K, V>(m: map<K, V>, k: K, v: V)
    ensures |m[k := v]| == if k in m then |m| else |m| + 1
  {
    assert m[k := v].Keys == m.Keys + {k};
  }
}
