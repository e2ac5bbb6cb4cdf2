/**
 A live viewer walking the indexes of a stream that is still being written
 (`check_index_status` and `viewer_get_next_index` of `src/bin/lttng-relayd/live.c`,
 `viewer_stream_create` and `viewer_stream_rotate` of `viewer-stream.c`).

 Each region under the stream lock is one step.  The producer writes indexes, counts
 them, rotates and creates index files; the viewer asks for the next index, may find that
 its file was overwritten, and then resynchronises on the oldest index left.

 An index is written to the file it was given when its packet arrived and counted in the
 file that is current when it is complete.  The two differ when there was a rotation in
 between, so the files are kept apart from the log that the ring stands for.
 */
module LiveViewer {
  import opened Wrappers
  import opened TracefileArray

  /** One index as stored on disk and sent to viewers, `struct ctf_packet_index`. */
  datatype Entry = Entry(offset: nat, packetSize: nat, contentSize: nat, timestampBegin: nat, timestampEnd: nat,
                         eventsDiscarded: nat, streamId: nat)

  /** An open index file: which generation it is, and the read position. */
  datatype OpenFile = Closed | Open(gen: nat, pos: nat)

  /** The fields of `struct relay_viewer_stream` the cursor consists of. */
  datatype Viewer = Viewer(cur: nat, sent: nat, file: OpenFile)

  /** The producer side: the ring, `index_received_seqcount`, and the index files.
      `files[g]` is the content of the file of generation `g`; `names[i]` is the generation
      that the file name of slot `i` leads to, if there is a file.  `log` and `entries`
      record everything counted, in order, `homes` the file each was written to. */
  datatype Stream = Stream(t: Tfa, received: nat, files: seq<seq<Entry>>, names: seq<Option<nat>>,
                           log: Log, entries: seq<Entry>, homes: seq<nat>)

  /** `OpenError` and `ReadError` are reported to the viewer, after `ConnectionError`
      nothing is. */
  datatype Reply = Ok(entry: Entry) | Retry | Inactive(ts: nat) | Hup
                 | AssertionFailed | ReadError | OpenError | ConnectionError

  datatype Seek = Beginning | Last

  /** What a request finds: the state of the session and of the beacon, and whether opening
      an index file would succeed, the first time and again when moving to another file. */
  datatype Query = Query(connectionClosed: bool, streamClosed: bool, beacon: nat, openOk: bool, reopenOk: bool)

  // ---------------------------------------------------------------------
  // Producer steps
  // ---------------------------------------------------------------------

  ghost function Start(count: nat): Stream {
    Stream(Created(count), 0, [[]], seq(NameCount(count), _ => None), Log([0], 0), [], [])
  }

  /** Index `e` is written to the file of generation `g` and counted in the newest. */
  ghost function Commit(s: Stream, e: Entry, g: nat): Stream
    requires WellFormed(s.t) && g < |s.files|
  {
    s.(t := Committed(s.t), received := s.received + 1, files := s.files[g := s.files[g] + [e]],
       log := s.log.Committed(), entries := s.entries + [e], homes := s.homes + [g])
  }

  /** Creating an index file: it may fail before or after the old one was removed. */
  datatype Creation = FileCreated | FileRemoved | FileKept

  ghost function Create(s: Stream, c: Creation): Stream
    requires StreamOk(s) && |s.files| > 0
  {
    match c
    case FileCreated => s.(names := s.names[s.t.fileHead := Some(|s.files| - 1)])
    case FileRemoved => s.(names := s.names[s.t.fileHead := None])
    case FileKept => s
  }

  /** A rotation of the ring, with the index file for the new generation. */
  ghost function Rotate(s: Stream, c: Creation): Stream
    requires StreamOk(s)
  {
    if |s.t.tf| == 0 then s
    else Create(s.(t := Rotated(s.t), files := s.files + [[]], log := s.log.Rotated()), c)
  }

  // ---------------------------------------------------------------------
  // Viewer steps
  // ---------------------------------------------------------------------

  predicate StreamOk(s: Stream) {
    WellFormed(s.t) && |s.names| == NameCount(|s.t.tf|)
  }

  predicate CursorInRing(s: Stream, v: Viewer) {
    StreamOk(s) && v.cur < |s.names|
  }

  /** `lttng_index_file_open` on the file name of slot `cur`. */
  function OpenIndex(s: Stream, cur: nat, ok: bool): OpenFile
    requires cur < |s.names|
  {
    if ok && s.names[cur].Some? then Open(s.names[cur].value, 0) else Closed
  }

  /** The cursor of a new viewer, if its index file can be opened. */
  function Attach(s: Stream, seek: Seek, openOk: bool): Option<Viewer>
    requires StreamOk(s)
  {
    var cur := if seek.Beginning? then s.t.fileTail else s.t.fileHead;
    var sent := if seek.Beginning? then (if s.t.seqTail == NONE then 0 else s.t.seqTail) else Increment(s.t.seqHead);
    if s.received == 0 then Some(Viewer(cur, sent, Closed)) else
      var file := OpenIndex(s, cur, openOk);
      if file.Closed? then None
      else if seek.Last? && file.gen < |s.files| then Some(Viewer(cur, sent, file.(pos := |s.files[file.gen]|)))
      else Some(Viewer(cur, sent, file))
  }

  /** The cursor with its index file open, as `try_open_index` leaves it. */
  function Opened(s: Stream, v: Viewer, openOk: bool): Viewer
    requires CursorInRing(s, v)
  {
    if v.file.Closed? then v.(file := OpenIndex(s, v.cur, openOk)) else v
  }

  /** `viewer_stream_rotate`, past the end-of-stream test: the next file if it has
      the wanted index, else the oldest file. */
  function RotateViewer(s: Stream, v: Viewer, reopenOk: bool): Viewer
    requires CursorInRing(s, v) && |s.t.tf| > 0
  {
    var next := Next(v.cur, |s.t.tf|);
    if SeqInFile(s.t, next, v.sent) then Viewer(next, v.sent, OpenIndex(s, next, reopenOk))
    else Viewer(s.t.fileTail, s.t.seqTail, OpenIndex(s, s.t.fileTail, reopenOk))
  }

  /** The assertion in `viewer_stream_rotate`: a resynchronisation finds a tail. */
  predicate TailMissing(s: Stream, v: Viewer)
    requires CursorInRing(s, v) && |s.t.tf| > 0
  {
    !SeqInFile(s.t, Next(v.cur, |s.t.tf|), v.sent) && s.t.seqTail == NONE
  }

  /** Reading the entry under the cursor and stepping over it. */
  function ReadEntry(s: Stream, v: Viewer): (Viewer, Reply)
    requires v.file.Open?
  {
    if v.file.gen < |s.files| && v.file.pos < |s.files[v.file.gen]| then
      (v.(sent := v.sent + 1, file := v.file.(pos := v.file.pos + 1)), Ok(s.files[v.file.gen][v.file.pos]))
    else (v, ReadError)
  }

  /** The reply when the viewer has been sent everything. */
  function IdleReply(q: Query): Reply {
    if q.connectionClosed || q.streamClosed then Hup else if q.beacon != NONE then Inactive(q.beacon) else Retry
  }

  /** `viewer_get_next_index` once the stream is locked. */
  function NextIndex(s: Stream, v: Viewer, q: Query): (Viewer, Reply)
    requires CursorInRing(s, v)
  {
    if v.file.Closed? && s.received == 0 then (v, Retry) else
      var v := Opened(s, v, q.openOk);
      if v.file.Closed? then (v, OpenError)
      else if s.received == v.sent then (v, IdleReply(q))
      else if SeqInFile(s.t, v.cur, v.sent) then ReadEntry(s, v)
      else if TailMissing(s, v) then (v, AssertionFailed)
      else
        var v' := RotateViewer(s, v, q.reopenOk);
        if v'.file.Closed? then (v', ConnectionError)
        else if SeqInFile(s.t, v'.cur, v'.sent) then ReadEntry(s, v')
        else if |s.t.tf| == 1 then (v', Retry) else (v', AssertionFailed)
  }

  class ViewerStream {
    var cur: nat
    var sent: nat
    var file: OpenFile

    function State(): Viewer
      reads this
    {
      Viewer(cur, sent, file)
    }

    constructor (cur: nat, sent: nat, file: OpenFile)
      ensures State() == Viewer(cur, sent, file)
    {
      this.cur, this.sent, this.file := cur, sent, file;
    }

    /** `viewer_stream_create`.  There is no viewer if the stream is the metadata stream and
        has a viewer already (`busy`), if the kind of seek is unknown, if the index file
        cannot be opened, and if the end of the file cannot be sought. */
    static method Create(s: Stream, busy: bool, seek: Option<Seek>, openOk: bool, seekOk: bool)
      returns (viewer: ViewerStream?)
      requires StreamOk(s)
      ensures viewer == null <==>
              || busy || seek.None? || Attach(s, seek.value, openOk).None?
              || (s.received > 0 && seek.value.Last? && !seekOk)
      ensures viewer != null ==> fresh(viewer) && Attach(s, seek.value, openOk) == Some(viewer.State())
    {
      if busy {
        return null;
      }
      var cur, sent := 0, 0;
      match seek {
        case Some(Beginning) =>
          var seqTail := s.t.seqTail;
          if seqTail == NONE {
            seqTail := 0;
          }
          cur := s.t.fileTail;
          sent := seqTail;
        case Some(Last) =>
          cur := s.t.fileHead;
          sent := Increment(s.t.seqHead);
        case None =>
          return null;
      }
      var file := Closed;
      if s.received != 0 {
        file := OpenIndex(s, cur, openOk);
        if file.Closed? {
          return null;
        }
      }
      if seek.value.Last? && file.Open? {
        if !seekOk {
          return null;
        }
        if file.gen < |s.files| {
          file := file.(pos := |s.files[file.gen]|);
        }
      }
      viewer := new ViewerStream(cur, sent, file);
    }

    method GetNextIndex(s: Stream, q: Query) returns (reply: Reply)
      requires CursorInRing(s, State())
      modifies this
      ensures (State(), reply) == NextIndex(s, old(State()), q)
    {
      if file.Closed? {
        if s.received == 0 {
          return Retry;
        }
        file := OpenIndex(s, cur, q.openOk);
        if file.Closed? {
          return OpenError;
        }
      }
      if (q.connectionClosed || q.streamClosed) && s.received == sent {
        return Hup;
      } else if q.beacon != NONE && s.received == sent {
        return Inactive(q.beacon);
      } else if s.received == sent {
        return Retry;
      } else if !SeqInFile(s.t, cur, sent) {
        if s.received == sent && q.connectionClosed {
          return Hup;
        }
        if |s.t.tf| != 0 {
          var ok := RotateToNext(s, q.reopenOk);
          if !ok {
            return AssertionFailed;
          }
          if file.Closed? {
            return ConnectionError;
          }
        }
        if !SeqInFile(s.t, cur, sent) {
          return if |s.t.tf| == 1 then Retry else AssertionFailed;
        }
      }
      if file.gen < |s.files| && file.pos < |s.files[file.gen]| {
        reply := Ok(s.files[file.gen][file.pos]);
        file := file.(pos := file.pos + 1);
        sent := sent + 1;
      } else {
        reply := ReadError;
      }
    }

    /** Moves on to another file; the file stays closed if it cannot be opened. */
    method RotateToNext(s: Stream, reopenOk: bool) returns (ok: bool)
      requires CursorInRing(s, State()) && |s.t.tf| > 0
      modifies this
      ensures ok <==> !TailMissing(s, old(State()))
      ensures ok ==> State() == RotateViewer(s, old(State()), reopenOk) && cur < |s.t.tf|
      ensures !ok ==> State() == old(State())
    {
      ok := true;
      var newId := if cur + 1 == |s.t.tf| then 0 else cur + 1;
      if SeqInFile(s.t, newId, sent) {
        cur := newId;
      } else {
        if s.t.seqTail == NONE {
          return false;
        }
        cur := s.t.fileTail;
        sent := s.t.seqTail;
      }
      file := OpenIndex(s, cur, reopenOk);
    }
  }

  // ---------------------------------------------------------------------
  // A stream and a viewer together
  // ---------------------------------------------------------------------

  /** An index sent to the viewer as number `seqNum`. */
  datatype Delivery = Delivery(seqNum: nat, entry: Entry)

  /** A stream and one viewer of it; `from` is where the viewer attached. */
  datatype World = World(s: Stream, v: Viewer, from: nat, delivered: seq<Delivery>, failed: bool)

  datatype Event = Produce(e: Entry, g: nat) | NewFile(c: Creation) | Recreate(c: Creation)
                 | Connect(seek: Seek, openOk: bool) | Request(q: Query)

  ghost function Watch(s: Stream, v: Viewer): World {
    World(s, v, v.sent, [], false)
  }

  /** A viewer that attaches when the stream is created. */
  ghost function FirstWatch(count: nat): World {
    Watch(Start(count), Viewer(0, 0, Closed))
  }

  ghost predicate Sound(w: World) {
    CursorInRing(w.s, w.v) && |w.s.files| > 0
  }

  predicate Failed(r: Reply) {
    r.AssertionFailed? || r.ReadError? || r.OpenError? || r.ConnectionError?
  }

  ghost function StepWorld(w: World, ev: Event): World
    requires Sound(w) && (ev.Produce? ==> ev.g < |w.s.files|)
  {
    match ev
    case Produce(e, g) => w.(s := Commit(w.s, e, g))
    case NewFile(c) => w.(s := Rotate(w.s, c))
    case Recreate(c) => w.(s := Create(w.s, c))
    case Connect(seek, openOk) =>
      var v := Attach(w.s, seek, openOk);
      if v.Some? then Watch(w.s, v.value) else w
    case Request(q) =>
      var (v', r) := NextIndex(w.s, w.v, q);
      w.(v := v', failed := w.failed || Failed(r),
         delivered := if r.Ok? && v'.sent > 0 then w.delivered + [Delivery(v'.sent - 1, r.entry)] else w.delivered)
  }

  /** Both seeks start a viewer there. */
  lemma FirstAttach(count: nat, seek: Seek)
    ensures Attach(Start(count), seek, true) == Some(FirstWatch(count).v)
  {
  }
}
