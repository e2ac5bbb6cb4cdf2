/**
 Asking the relay daemon whether data is still on its way (`relay_data_pending`,
 `relay_quiescent_control`, `relay_begin_data_pending` and `relay_end_data_pending` of
 `src/bin/lttng-relayd/main.c`).
 */
module DataPending {
  import opened MachineInt

  // ---------------------------------------------------------------------
  // The streams of the daemon
  // ---------------------------------------------------------------------

  /** What these commands see of a stream in the table of streams. */
  datatype Stream = Stream(session: nat, checked: bool, closed: bool, prev: nat, last: nat)

  /** Nothing of the stream is awaited. */
  predicate Complete(s: Stream) {
    s.closed && !Behind(s.prev, s.last)
  }

  predicate Unresolved(s: Stream, session: nat) {
    s.session == session && !s.checked && !Complete(s)
  }

  class Daemon {
    var streams: map<nat, Stream>

    constructor ()
      ensures streams == map[]
    {
      streams := map[];
    }

    /** Answers whether data up to `last` is pending, and marks the stream as checked. */
    method DataPending(id: nat, last: nat) returns (answer: int)
      modifies this
      ensures id !in old(streams) ==> answer == -1 && streams == old(streams)
      ensures id in old(streams) ==> streams == Checked(old(streams), id)
      ensures id in old(streams) ==> answer == if Behind(old(streams)[id].prev, last) then 1 else 0
    {
      if id !in streams {
        return -1;
      }
      answer := if Sub64(streams[id].prev, last) < TWO63 then 0 else 1;
      streams := streams[id := streams[id].(checked := true)];
    }

    method QuiescentControl(id: nat)
      modifies this
      ensures streams == if id in old(streams) then Checked(old(streams), id) else old(streams)
    {
      if id in streams {
        streams := streams[id := streams[id].(checked := true)];
      }
    }

    /** Forgets the checks of every stream of the session. */
    method BeginDataPending(session: nat)
      modifies this
      ensures streams == Begun(old(streams), session)
    {
      var todo := streams.Keys;
      while todo != {}
        invariant todo <= streams.Keys == old(streams).Keys
        invariant forall id | id in streams ::
                    streams[id] == if id in todo then old(streams)[id] else Begun(old(streams), session)[id]
        decreases todo
      {
        var id :| id in todo;
        if streams[id].session == session {
          streams := streams[id := streams[id].(checked := false)];
        }
        todo := todo - {id};
      }
    }

    /** Answers 1 on the first stream of the session that is neither checked nor complete. */
    method EndDataPending(session: nat) returns (inFlight: int)
      ensures inFlight == if InFlight(streams, session) then 1 else 0
    {
      inFlight := 0;
      var todo := streams.Keys;
      while todo != {}
        invariant todo <= streams.Keys && inFlight == 0
        invariant forall id | id in streams && id !in todo :: !Unresolved(streams[id], session)
        decreases todo
      {
        var id :| id in todo;
        if streams[id].session == session {
          if !streams[id].checked {
            if !streams[id].closed || !(Sub64(streams[id].prev, streams[id].last) < TWO63) {
              inFlight := 1;
              assert Unresolved(streams[id], session);
              break;
            }
          }
        }
        todo := todo - {id};
      }
    }
  }

  function Checked(streams: map<nat, Stream>, id: nat): map<nat, Stream>
    requires id in streams
  {
    streams[id := streams[id].(checked := true)]
  }

  function Begun(streams: map<nat, Stream>, session: nat): map<nat, Stream> {
    map id | id in streams :: if streams[id].session == session then streams[id].(checked := false) else streams[id]
  }

  predicate InFlight(streams: map<nat, Stream>, session: nat) {
    exists id | id in streams :: Unresolved(streams[id], session)
  }

  // ---------------------------------------------------------------------
  // Whole runs
  // ---------------------------------------------------------------------

  /** A command, or something that happens to a stream meanwhile. */
  datatype Event = Begin(session: nat) | Ask(id: nat) | Quiesce(id: nat)
                 | Add(id: nat, session: nat) | Receive(id: nat, n: nat) | SetLast(id: nat, n: nat)
                 | Close(id: nat) | Remove(id: nat)

  function Step(streams: map<nat, Stream>, e: Event): map<nat, Stream> {
    match e
    case Begin(session) => Begun(streams, session)
    case Ask(id) => if id in streams then Checked(streams, id) else streams
    case Quiesce(id) => if id in streams then Checked(streams, id) else streams
    case Add(id, session) =>
      if id in streams then streams else streams[id := Stream(session, false, false, TWO64 - 1, TWO64 - 1)]
    case Receive(id, n) => if id in streams then streams[id := streams[id].(prev := n)] else streams
    case SetLast(id, n) => if id in streams then streams[id := streams[id].(last := n)] else streams
    case Close(id) => if id in streams then streams[id := streams[id].(closed := true)] else streams
    case Remove(id) => streams - {id}
  }

  function Run(events: seq<Event>): map<nat, Stream> {
    if events == [] then map[] else Step(Run(events[..|events| - 1]), events[|events| - 1])
  }

  // ---------------------------------------------------------------------
  // What the events alone say of a stream
  // ---------------------------------------------------------------------

  ghost predicate AddedAt(events: seq<Event>, k: nat, id: nat) {
    && k < |events| && events[k].Add? && events[k].id == id
    && forall j | k < j < |events| :: events[j] != Remove(id)
  }

  /** Stream `id` was added and not removed since. */
  ghost predicate There(events: seq<Event>, id: nat) {
    exists k: nat :: AddedAt(events, k, id)
  }

  /** Event `b` added the stream `id` that is there now. */
  ghost predicate BornAt(events: seq<Event>, b: nat, id: nat) {
    AddedAt(events, b, id) && !There(events[..b], id)
  }

  ghost predicate ClosedSince(events: seq<Event>, b: nat, id: nat) {
    exists k: nat :: b < k < |events| && events[k] == Close(id)
  }

  /** A data packet of stream `id`, or with `end` the announcement of its last number. */
  predicate Gives(e: Event, id: nat, end: bool) {
    if end then e.SetLast? && e.id == id else e.Receive? && e.id == id
  }

  ghost predicate GivesLastAt(events: seq<Event>, k: nat, id: nat, end: bool) {
    k < |events| && Gives(events[k], id, end) && forall j | k < j < |events| :: !Gives(events[j], id, end)
  }

  /** `n` is the number given last since event `b`, -1 when none was. */
  ghost predicate Latest(events: seq<Event>, b: nat, id: nat, end: bool, n: nat) {
    || (exists k: nat :: b < k && GivesLastAt(events, k, id, end) && events[k].n == n)
    || (n == TWO64 - 1 && forall j | b < j < |events| :: !Gives(events[j], id, end))
  }

  /** Event `k` checks stream `id`, which stays, and its session is not begun again. */
  ghost predicate CheckedAt(events: seq<Event>, k: nat, id: nat, session: nat) {
    && k < |events| && (events[k] == Ask(id) || events[k] == Quiesce(id)) && There(events[..k], id)
    && forall j | k < j < |events| :: events[j] != Begin(session) && events[j] != Remove(id)
  }

  ghost predicate CheckedSinceBegin(events: seq<Event>, id: nat, session: nat) {
    exists k: nat :: CheckedAt(events, k, id, session)
  }

  lemma ThereStep(events: seq<Event>, e: Event, id: nat)
    ensures There(events + [e], id) <==> (e.Add? && e.id == id) || (e != Remove(id) && There(events, id))
  {
    var n, events' := |events|, events + [e];
    assert AddedAt(events', n, id) <==> e.Add? && e.id == id;
    forall k: nat | k < n
      ensures AddedAt(events', k, id) <==> AddedAt(events, k, id) && e != Remove(id)
    {
      assert events'[k] == events[k] && events'[n] == e;
      if AddedAt(events', k, id) {
        assert forall j | k < j < n :: events[j] == events'[j];
      }
    }
  }

  lemma BornStep(events: seq<Event>, e: Event, b: nat, id: nat)
    requires b < |events|
    ensures BornAt(events + [e], b, id) <==> BornAt(events, b, id) && e != Remove(id)
  {
    var n, events' := |events|, events + [e];
    assert events'[..b] == events[..b] && events'[b] == events[b] && events'[n] == e;
    if AddedAt(events', b, id) {
      assert forall j | b < j < n :: events[j] == events'[j];
    }
  }

  lemma ClosedStep(events: seq<Event>, e: Event, b: nat, id: nat)
    requires b < |events|
    ensures ClosedSince(events + [e], b, id) <==> e == Close(id) || ClosedSince(events, b, id)
  {
    var n, events' := |events|, events + [e];
    assert events'[n] == e && forall k | 0 <= k < n :: events'[k] == events[k];
  }

  lemma LatestStep(events: seq<Event>, e: Event, b: nat, id: nat, end: bool, n: nat)
    requires b < |events|
    ensures Latest(events + [e], b, id, end, n) <==>
            if Gives(e, id, end) then e.n == n else Latest(events, b, id, end, n)
  {
    var m, events' := |events|, events + [e];
    assert events'[m] == e && forall k | 0 <= k < m :: events'[k] == events[k];
    assert GivesLastAt(events', m, id, end) <==> Gives(e, id, end);
    forall k: nat | k < m
      ensures GivesLastAt(events', k, id, end) <==> GivesLastAt(events, k, id, end) && !Gives(e, id, end)
    {
      if GivesLastAt(events', k, id, end) {
        assert forall j | k < j < m :: events[j] == events'[j];
      }
    }
  }

  /** What the table says of stream `id` is what the events say since event `b`. */
  ghost predicate Recorded(events: seq<Event>, b: nat, id: nat, s: Stream) {
    && BornAt(events, b, id) && s.session == events[b].session
    && (s.closed <==> ClosedSince(events, b, id))
    && Latest(events, b, id, false, s.prev) && Latest(events, b, id, true, s.last)
  }

  lemma RecordedStep(events: seq<Event>, e: Event, b: nat, id: nat, streams: map<nat, Stream>)
    requires id in streams && id in Step(streams, e) && Recorded(events, b, id, streams[id])
    ensures Recorded(events + [e], b, id, Step(streams, e)[id])
  {
    var s := Step(streams, e)[id];
    assert b < |events|;
    hide BornAt, ClosedSince, Latest;
    BornStep(events, e, b, id);
    ClosedStep(events, e, b, id);
    LatestStep(events, e, b, id, false, s.prev);
    LatestStep(events, e, b, id, true, s.last);
    assert (events + [e])[b] == events[b];
  }

  lemma RecordedNew(events: seq<Event>, session: nat, id: nat)
    requires !There(events, id)
    ensures Recorded(events + [Add(id, session)], |events|, id, Stream(session, false, false, TWO64 - 1, TWO64 - 1))
  {
    var events' := events + [Add(id, session)];
    assert events'[..|events|] == events && events'[|events|] == Add(id, session);
    assert AddedAt(events', |events|, id);
  }

  /** The table holds exactly the streams that were added and not removed, each in the
      session it was added to, with the last numbers the daemon was given. */
  lemma {:induction false} StreamIs(events: seq<Event>, id: nat) returns (b: nat)
    ensures id in Run(events) <==> There(events, id)
    ensures id in Run(events) ==> Recorded(events, b, id, Run(events)[id])
  {
    if events == [] {
      b := 0;
    } else {
      hide There, Recorded;
      var pre, e := events[..|events| - 1], events[|events| - 1];
      assert pre + [e] == events;
      b := StreamIs(pre, id);
      ThereStep(pre, e, id);
      if id in Run(pre) && id in Run(events) {
        RecordedStep(pre, e, b, id, Run(pre));
      } else if id in Run(events) {
        b := |pre|;
        RecordedNew(pre, e.session, id);
      }
    }
  }

  /** How one more event changes whether `id` counts as checked. */
  lemma CheckedStep(events: seq<Event>, e: Event, id: nat, session: nat)
    ensures CheckedSinceBegin(events + [e], id, session) <==>
            if e == Ask(id) || e == Quiesce(id) then There(events, id) || CheckedSinceBegin(events, id, session)
            else e != Begin(session) && e != Remove(id) && CheckedSinceBegin(events, id, session)
  {
    hide There;
    var n, events' := |events|, events + [e];
    assert events'[..n] == events;
    assert CheckedAt(events', n, id, session) <==> (e == Ask(id) || e == Quiesce(id)) && There(events, id);
    forall k: nat | k < n
      ensures CheckedAt(events', k, id, session) <==>
              CheckedAt(events, k, id, session) && e != Begin(session) && e != Remove(id)
    {
      assert events'[..k] == events[..k] && events'[k] == events[k] && events'[n] == e;
      if CheckedAt(events', k, id, session) {
        assert forall j | k < j < n :: events[j] == events'[j];
      }
    }
  }

  lemma CheckedIsThere(events: seq<Event>, id: nat, session: nat)
    requires CheckedSinceBegin(events, id, session)
    ensures There(events, id)
  {
    var k: nat :| CheckedAt(events, k, id, session);
    var a: nat :| AddedAt(events[..k], a, id);
    forall j | a < j < |events|
      ensures events[j] != Remove(id)
    {
      if j < k { assert events[j] == events[..k][j]; }
    }
    assert AddedAt(events, a, id);
  }

  /** What one event does to the flag and the session of a stream. */
  lemma FlagStep(streams: map<nat, Stream>, e: Event, id: nat)
    requires id in Step(streams, e)
    ensures var s' := Step(streams, e)[id];
            && (id in streams ==> s'.session == streams[id].session)
            && (s'.checked <==>
                  && id in streams
                  && (e == Ask(id) || e == Quiesce(id) || (streams[id].checked && e != Begin(s'.session))))
    ensures e != Remove(id) && (id !in streams ==> e.Add?)
  {
  }

  /** The flag of a stream says exactly that. */
  lemma {:induction false} FlagMeansChecked(events: seq<Event>, id: nat)
    requires id in Run(events)
    ensures Run(events)[id].checked <==> CheckedSinceBegin(events, id, Run(events)[id].session)
  {
    hide There, CheckedSinceBegin, Step, Recorded;
    if events == [] {
    } else {
      var pre, e := events[..|events| - 1], events[|events| - 1];
      assert pre + [e] == events && Run(events) == Step(Run(pre), e);
      FlagStep(Run(pre), e, id);
      CheckedStep(pre, e, id, Run(events)[id].session);
      var _ := StreamIs(pre, id);
      if id in Run(pre) {
        FlagMeansChecked(pre, id);
      } else if CheckedSinceBegin(pre, id, Run(events)[id].session) {
        CheckedIsThere(pre, id, Run(events)[id].session);
        assert false;
      }
    }
  }

  /** Stream `id`, added by event `b`, was closed and its last packet received. */
  ghost predicate Received(events: seq<Event>, b: nat, id: nat) {
    && ClosedSince(events, b, id)
    && exists prev: nat, last: nat ::
         Latest(events, b, id, false, prev) && Latest(events, b, id, true, last) && !Behind(prev, last)
  }

  lemma LatestIsOne(events: seq<Event>, b: nat, id: nat, end: bool, n: nat, m: nat)
    requires Latest(events, b, id, end, n) && Latest(events, b, id, end, m)
    ensures n == m
  {
  }

  lemma BornOnce(events: seq<Event>, b: nat, c: nat, id: nat)
    requires BornAt(events, b, id) && BornAt(events, c, id)
    ensures b == c
  {
    if b < c {
      assert AddedAt(events[..c], b, id);
      assert false;
    } else if c < b {
      assert AddedAt(events[..b], c, id);
      assert false;
    }
  }

  lemma CompleteIsReceived(events: seq<Event>, id: nat, b: nat)
    requires BornAt(events, b, id)
    ensures id in Run(events) && Run(events)[id].session == events[b].session
    ensures Complete(Run(events)[id]) <==> Received(events, b, id)
  {
    hide Behind;
    var c := StreamIs(events, id);
    assert There(events, id);
    BornOnce(events, b, c, id);
    var s := Run(events)[id];
    if Received(events, b, id) {
      var prev: nat, last: nat :|
        Latest(events, b, id, false, prev) && Latest(events, b, id, true, last) && !Behind(prev, last);
      hide Latest;
      LatestIsOne(events, b, id, false, prev, s.prev);
      LatestIsOne(events, b, id, true, last, s.last);
    }
  }

  /** END_DATA_PENDING answers 0 exactly when every stream of the session was checked
      since BEGIN or is closed with all its data received. */
  lemma EndAnswer(events: seq<Event>, session: nat)
    ensures !InFlight(Run(events), session) <==>
            forall id, b: nat | BornAt(events, b, id) && events[b].session == session ::
              CheckedSinceBegin(events, id, session) || Received(events, b, id)
  {
    hide Received, CheckedSinceBegin, Complete, Run, There;
    forall id, b: nat | BornAt(events, b, id)
      ensures id in Run(events) && Run(events)[id].session == events[b].session
      ensures Run(events)[id].checked <==> CheckedSinceBegin(events, id, events[b].session)
      ensures Complete(Run(events)[id]) <==> Received(events, b, id)
    {
      CompleteIsReceived(events, id, b);
      FlagMeansChecked(events, id);
    }
    forall id | id in Run(events)
      ensures exists b: nat :: BornAt(events, b, id)
    {
      var b := StreamIs(events, id);
    }
  }
}
