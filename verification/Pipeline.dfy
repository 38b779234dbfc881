/** The pipelined client of test/cat_file_pipe.cc: eight interests in flight, deliveries in any order. */
module Pipeline {
  import opened Octets
  import opened Segments

  const PIPE_SIZE := 8

  /** The globals, with the segments requested so far, in order, those still outstanding, and
      whether "last segment received" has been reported. */
  datatype PipeState = PipeState(
    current: nat, total: int, done: bool, requested: seq<nat>, outstanding: set<nat>, complete: bool)

  datatype Event = Data(segment: nat) | Timeout(segment: nat)

  /** The first 8 + n requests when no delivery was the last segment: 0..7, then 9..8+n. */
  function Requests(n: nat): (r: seq<nat>)
    ensures |r| == PIPE_SIZE + n
    ensures forall i :: 0 <= i < |r| ==> r[i] == if i < PIPE_SIZE then i else i + 1
  {
    if n == 0 then [0, 1, 2, 3, 4, 5, 6, 7] else Requests(n - 1) + [PIPE_SIZE + n]
  }

  function Elements(s: seq<nat>): set<nat> {
    set x | x in s
  }

  /** `onFileData`. */
  function AfterData(st: PipeState, segment: nat): PipeState
    requires segment in st.outstanding
  {
    var received := st.(current := st.current + 1, outstanding := st.outstanding - {segment});
    if segment + 1 == st.total then received.(done := true, complete := true)
    else received.(requested := st.requested + [received.current],
                   outstanding := received.outstanding + {received.current})
  }

  /** `onTimeout`. */
  function AfterTimeout(st: PipeState, segment: nat): PipeState
    requires segment in st.outstanding
  {
    st.(done := true, outstanding := st.outstanding - {segment})
  }

  /** The state after `onMetaData`. */
  function Started(total: int): PipeState {
    PipeState(PIPE_SIZE, total, false, Requests(0), Elements(Requests(0)), false)
  }

  class PipeClient {
    var currentSeg: nat
    var totalSeg: int
    var done: bool
    var requested: seq<nat>
    var outstanding: set<nat>
    var complete: bool

    ghost function Value(): PipeState
      reads this
    {
      PipeState(currentSeg, totalSeg, done, requested, outstanding, complete)
    }

    constructor ()
      ensures Value() == PipeState(0, 0, false, [], {}, false)
    {
      currentSeg, totalSeg, done, complete := 0, 0, false, false;
      requested, outstanding := [], {};
    }

    /** `total` comes from decoded metadata of a file; any other reply changes nothing. Then the first window
        goes out, and the counter is already past it. */
    method OnMetaData(total: Option<int>)
      requires currentSeg == 0 && requested == [] && outstanding == {} && !done && !complete
      modifies this
      ensures total.None? ==> Value() == old(Value())
      ensures total.Some? ==> Value() == Started(total.value) && requested == [0, 1, 2, 3, 4, 5, 6, 7]
    {
      if total.None? {
        return;
      }
      totalSeg := total.value;
      for i := 0 to PIPE_SIZE
        invariant currentSeg == i && requested == Requests(0)[..i] && outstanding == Elements(requested)
        invariant totalSeg == total.value && !done && !complete
      {
        requested := requested + [currentSeg];
        outstanding := outstanding + {currentSeg};
        currentSeg := currentSeg + 1;
      }
      assert Requests(0)[..PIPE_SIZE] == Requests(0);
    }

    /** The counter is advanced before it is used. */
    method OnFileData(segment: nat)
      requires segment in outstanding
      modifies this
      ensures Value() == AfterData(old(Value()), segment)
      ensures currentSeg == old(currentSeg) + 1 && totalSeg == old(totalSeg)
      ensures segment + 1 == totalSeg ==>
        done && complete && requested == old(requested) && outstanding == old(outstanding) - {segment}
      ensures segment + 1 != totalSeg ==>
        && done == old(done) && complete == old(complete) && requested == old(requested) + [currentSeg]
        && outstanding == old(outstanding) - {segment} + {currentSeg}
    {
      outstanding := outstanding - {segment};
      currentSeg := currentSeg + 1;
      if segment + 1 == totalSeg {
        done := true;
        complete := true;
      } else {
        requested := requested + [currentSeg];
        outstanding := outstanding + {currentSeg};
      }
    }

    method OnTimeout(segment: nat)
      requires segment in outstanding
      modifies this
      ensures Value() == AfterTimeout(old(Value()), segment)
      ensures done && complete == old(complete) && currentSeg == old(currentSeg) && totalSeg == old(totalSeg)
      ensures requested == old(requested) && outstanding == old(outstanding) - {segment}
    {
      outstanding := outstanding - {segment};
      done := true;
    }
  }

  // ---------- every delivery order ----------

  function Handled(st: PipeState, event: Event): PipeState {
    if event.segment !in st.outstanding then st
    else if event.Data? then AfterData(st, event.segment)
    else AfterTimeout(st, event.segment)
  }

  function After(st: PipeState, events: seq<Event>): PipeState {
    if events == [] then st else Handled(After(st, events[..|events| - 1]), events[|events| - 1])
  }

  /** Every event answers an interest that is in flight, and data comes only for a segment of the
      file that holds a byte. */
  predicate Deliverable(st: PipeState, events: seq<Event>, file: Bytes) {
    events != [] ==>
      var earlier := events[..|events| - 1];
      var event := events[|events| - 1];
      && Deliverable(st, earlier, file)
      && event.segment in After(st, earlier).outstanding
      && (event.Data? ==> Slice(file, event.segment) != [])
  }

  /** Holds after any events: requests strictly grow, segment 8 is not among them, and what is in
      flight was requested, once. */
  ghost predicate PipeOk(st: PipeState) {
    && st.current >= PIPE_SIZE
    && (forall i, j :: 0 <= i < j < |st.requested| ==> st.requested[i] < st.requested[j])
    && (forall i :: 0 <= i < |st.requested| ==> st.requested[i] <= st.current && st.requested[i] != PIPE_SIZE)
    && (forall s :: s in st.outstanding ==> s in st.requested)
    && (!st.complete ==> |st.requested| == st.current && st.requested == Requests(st.current - PIPE_SIZE))
  }

  lemma {:induction false} DistinctSize(s: seq<nat>)
    requires forall i, j :: 0 <= i < j < |s| ==> s[i] < s[j]
    ensures |Elements(s)| == |s|
  {
    if s != [] {
      var n := |s| - 1;
      DistinctSize(s[..n]);
      assert s == s[..n] + [s[n]];
      assert Elements(s) == Elements(s[..n]) + {s[n]};
      assert s[n] !in s[..n];
    }
  }

  lemma StartedOk(total: int)
    ensures PipeOk(Started(total))
    ensures |Started(total).outstanding| == PIPE_SIZE
  {
    DistinctSize(Requests(0));
  }

  lemma DataOk(st: PipeState, segment: nat)
    requires PipeOk(st) && segment in st.outstanding
    ensures PipeOk(AfterData(st, segment))
  {
    var next := AfterData(st, segment);
    if segment + 1 != st.total {
      assert next.current !in st.requested;
      assert next.current !in st.outstanding;
      if !st.complete {
        assert next.requested == Requests(next.current - PIPE_SIZE);
      }
    }
  }

  lemma {:induction false} AnyOrder(total: int, events: seq<Event>)
    ensures PipeOk(After(Started(total), events)) && After(Started(total), events).total == total
    decreases |events|
  {
    StartedOk(total);
    if events != [] {
      AnyOrder(total, events[..|events| - 1]);
      var earlier := After(Started(total), events[..|events| - 1]);
      var event := events[|events| - 1];
      if event.segment in earlier.outstanding && event.Data? {
        DataOk(earlier, event.segment);
      }
    }
  }

  /** The event answers an interest that is in flight when it comes. */
  ghost predicate Answers(total: int, events: seq<Event>, i: nat)
    requires i < |events|
  {
    events[i].segment in After(Started(total), events[..i]).outstanding
  }

  /** Some interest in flight was answered by the last segment. */
  ghost predicate LastCame(total: int, events: seq<Event>) {
    exists i: nat :: i < |events| && Answers(total, events, i) && events[i].Data? && events[i].segment + 1 == total
  }

  /** Some interest in flight timed out. */
  ghost predicate TimedOut(total: int, events: seq<Event>) {
    exists i: nat :: i < |events| && Answers(total, events, i) && events[i].Timeout?
  }

  lemma AnswersEarlier(total: int, events: seq<Event>, i: nat)
    requires i < |events| - 1
    ensures Answers(total, events, i) <==> Answers(total, events[..|events| - 1], i)
    ensures events[i] == events[..|events| - 1][i]
  {
    assert events[..|events| - 1][..i] == events[..i];
  }

  lemma OneMoreEvent(total: int, events: seq<Event>)
    requires events != []
    ensures
      var n := |events| - 1;
      var last := Answers(total, events, n);
      && (LastCame(total, events) <==>
            LastCame(total, events[..n]) || (last && events[n].Data? && events[n].segment + 1 == total))
      && (TimedOut(total, events) <==> TimedOut(total, events[..n]) || (last && events[n].Timeout?))
  {
    var n := |events| - 1;
    forall i: nat | i < n
      ensures Answers(total, events, i) <==> Answers(total, events[..n], i)
      ensures events[i] == events[..n][i]
    {
      AnswersEarlier(total, events, i);
    }
  }

  /** The client reports the last segment if and only if that came for an interest in flight, and its main loop ends
      if and only if that happened or an interest in flight timed out. */
  lemma {:induction false} DoneExactly(total: int, events: seq<Event>)
    ensures After(Started(total), events).complete <==> LastCame(total, events)
    ensures After(Started(total), events).done <==> LastCame(total, events) || TimedOut(total, events)
    ensures After(Started(total), events).complete ==> After(Started(total), events).done
    decreases |events|
  {
    if events != [] {
      DoneExactly(total, events[..|events| - 1]);
      AnyOrder(total, events[..|events| - 1]);
      OneMoreEvent(total, events);
    }
  }

  /** An event has answered the interest for the segment. */
  ghost predicate Answered(total: int, events: seq<Event>, segment: nat) {
    exists i: nat :: i < |events| && Answers(total, events, i) && events[i].segment == segment
  }

  /** In flight is exactly what was requested and not answered yet. */
  lemma {:induction false} InFlightExactly(total: int, events: seq<Event>, segment: nat)
    ensures
      var st := After(Started(total), events);
      segment in st.outstanding <==> segment in st.requested && !Answered(total, events, segment)
    ensures Answered(total, events, segment) ==> segment in After(Started(total), events).requested
    decreases |events|
  {
    if events != [] {
      var n := |events| - 1;
      InFlightExactly(total, events[..n], segment);
      AnyOrder(total, events[..n]);
      OneMoreAnswered(total, events, segment);
      HandledInFlight(After(Started(total), events[..n]), events[n], segment);
    }
  }

  lemma OneMoreAnswered(total: int, events: seq<Event>, segment: nat)
    requires events != []
    ensures
      var n := |events| - 1;
      Answered(total, events, segment) <==>
        Answered(total, events[..n], segment) || (Answers(total, events, n) && events[n].segment == segment)
  {
    var n := |events| - 1;
    forall i: nat | i < n
      ensures Answers(total, events, i) <==> Answers(total, events[..n], i)
      ensures events[i] == events[..n][i]
    {
      AnswersEarlier(total, events, i);
    }
  }

  lemma HandledInFlight(st: PipeState, event: Event, segment: nat)
    requires PipeOk(st)
    ensures
      var now, answered := Handled(st, event), event.segment in st.outstanding && event.segment == segment;
      && (segment in now.outstanding ==> segment in now.requested)
      && (segment in st.requested ==>
            segment in now.requested && (segment in now.outstanding <==> segment in st.outstanding && !answered))
      && (segment !in st.requested ==> !answered && (segment in now.requested ==> segment in now.outstanding))
  {
    var now := Handled(st, event);
    assert st.current + 1 !in st.requested;
    assert now.requested == st.requested || now.requested == st.requested + [st.current + 1];
  }

  /** Whatever arrives, times out, or comes in which order: no segment is requested twice, and
      segment 8 never, so a file of more than eight segments is never received whole. */
  lemma SegmentEightNeverRequested(total: int, events: seq<Event>)
    ensures
      var r := After(Started(total), events).requested;
      PIPE_SIZE !in r && forall i, j :: 0 <= i < j < |r| ==> r[i] != r[j]
  {
    AnyOrder(total, events);
  }

  /** After n deliveries, none of them the last segment, exactly 0..7 and 9..8+n have been requested,
      and eight interests are in flight. */
  lemma {:induction false} WindowStaysFull(total: int, events: seq<Event>, file: Bytes)
    requires Deliverable(Started(total), events, file)
    requires NoneIsLast(total, events)
    ensures
      var st := After(Started(total), events);
      st.requested == Requests(|events|) && |st.outstanding| == PIPE_SIZE && !st.done && !st.complete
    decreases |events|
  {
    AnyOrder(total, events);
    if events == [] {
      StartedOk(total);
    } else {
      var n := |events| - 1;
      WindowStaysFull(total, events[..n], file);
      AnyOrder(total, events[..n]);
      assert events[n].Data? && events[n].segment + 1 != total;
      var earlier := After(Started(total), events[..n]);
      CounterIsNew(earlier);
      WindowStep(earlier, events[n].segment, n);
    }
  }

  lemma CounterIsNew(st: PipeState)
    requires PipeOk(st)
    ensures st.current + 1 !in st.outstanding
    ensures !st.complete ==> st.current == |st.requested|
  {
  }

  lemma Exchange(s: set<nat>, gone: nat, added: nat)
    requires gone in s && added !in s
    ensures |s - {gone} + {added}| == |s|
  {
    assert |s - {gone}| == |s| - 1;
  }

  lemma WindowStep(st: PipeState, segment: nat, n: nat)
    requires segment in st.outstanding && segment + 1 != st.total
    requires st.requested == Requests(n) && |st.outstanding| == PIPE_SIZE
    requires st.current == PIPE_SIZE + n && st.current + 1 !in st.outstanding
    ensures AfterData(st, segment).requested == Requests(n + 1) && |AfterData(st, segment).outstanding| == PIPE_SIZE
  {
    Exchange(st.outstanding, segment, st.current + 1);
  }

  /** A finished run received the last segment, which was requested and held a byte. */
  lemma {:induction false} CompleteMeansLast(total: int, events: seq<Event>, file: Bytes)
    requires Deliverable(Started(total), events, file)
    requires After(Started(total), events).complete
    ensures total > 0 && total - 1 != PIPE_SIZE && Slice(file, total - 1) != []
    decreases |events|
  {
    var n := |events| - 1;
    var earlier := After(Started(total), events[..n]);
    AnyOrder(total, events[..n]);
    if earlier.complete {
      CompleteMeansLast(total, events[..n], file);
    } else {
      assert events[n].segment in earlier.requested;
    }
  }

  /** All but the first `n` of the first 8 + n requests are in flight. */
  predicate InFlightFrom(st: PipeState, n: nat) {
    st.requested == Requests(n) && Elements(Requests(n)[n..]) <= st.outstanding
  }

  lemma WindowMoves(flight: set<nat>, segment: nat, rest: seq<nat>, added: nat)
    requires Elements([segment] + rest) <= flight && segment !in rest
    ensures segment in flight
    ensures Elements(rest + [added]) <= flight - {segment} + {added}
  {
    assert segment in [segment] + rest;
    forall x | x in rest
      ensures x in flight - {segment}
    {
      assert x in [segment] + rest;
    }
  }

  lemma RequestsTail(n: nat)
    ensures Requests(n)[n..] == [Requests(n)[n]] + Requests(n)[n + 1..]
    ensures Requests(n)[n] !in Requests(n)[n + 1..]
    ensures Requests(n + 1)[n + 1..] == Requests(n)[n + 1..] + [PIPE_SIZE + n + 1]
  {
  }

  lemma NextInFlight(st: PipeState, n: nat)
    requires InFlightFrom(st, n) && st.current == PIPE_SIZE + n && Requests(n)[n] + 1 != st.total
    ensures Requests(n)[n] in st.outstanding
    ensures InFlightFrom(AfterData(st, Requests(n)[n]), n + 1)
  {
    RequestsTail(n);
    WindowMoves(st.outstanding, Requests(n)[n], Requests(n)[n + 1..], PIPE_SIZE + n + 1);
  }

  lemma DeliverNext(total: int, file: Bytes, events: seq<Event>) returns (more: seq<Event>)
    requires Deliverable(Started(total), events, file)
    requires InFlightFrom(After(Started(total), events), |events|)
    requires |events| < total - 9 && (total - 1) * SEG_SIZE < |file|
    ensures more == events + [Data(Requests(|events|)[|events|])]
    ensures Deliverable(Started(total), more, file)
    ensures After(Started(total), more) == AfterData(After(Started(total), events), Requests(|events|)[|events|])
  {
    var n := |events|;
    var segment := Requests(n)[n];
    more := events + [Data(segment)];
    assert more[..n] == events;
    assert segment in Requests(n)[n..];
    SliceSize(file, segment);
  }

  ghost predicate NoneIsLast(total: int, events: seq<Event>) {
    forall i :: 0 <= i < |events| ==> events[i].Data? && events[i].segment + 1 != total
  }

  lemma StartedInFlight(total: int)
    ensures InFlightFrom(Started(total), 0)
  {
    assert Requests(0)[0..] == Requests(0);
  }

  /** Deliveries in the order of the requests, one at a time. */
  lemma {:induction false} InOrder(total: int, file: Bytes, n: nat) returns (events: seq<Event>)
    requires total >= 10 && n <= total - 9 && (total - 1) * SEG_SIZE < |file|
    ensures |events| == n && Deliverable(Started(total), events, file) && NoneIsLast(total, events)
    ensures InFlightFrom(After(Started(total), events), n)
  {
    if n == 0 {
      events := [];
      StartedInFlight(total);
    } else {
      var events0 := InOrder(total, file, n - 1);
      CurrentAfter(total, file, events0);
      events := DeliverNext(total, file, events0);
      NextInFlight(After(Started(total), events0), n - 1);
    }
  }

  lemma CurrentAfter(total: int, file: Bytes, events: seq<Event>)
    requires Deliverable(Started(total), events, file) && NoneIsLast(total, events)
    ensures After(Started(total), events).current == PIPE_SIZE + |events|
    ensures After(Started(total), events).total == total
  {
    WindowStaysFull(total, events, file);
    AnyOrder(total, events);
  }

  /** The client can report the last segment of a file if and only if the file does not have exactly
      nine segments and its size is not a multiple of the segment size. */
  lemma FinishesExactly(file: Bytes)
    ensures
      (exists events :: Deliverable(Started(TotalSegments(|file|)), events, file)
                        && After(Started(TotalSegments(|file|)), events).complete)
      <==> TotalSegments(|file|) != 9 && |file| % SEG_SIZE != 0
  {
    var total := TotalSegments(|file|);
    if events :| Deliverable(Started(total), events, file) && After(Started(total), events).complete {
      CompleteMeansLast(total, events, file);
      SliceSize(file, total - 1);
    }
    if total != 9 && |file| % SEG_SIZE != 0 {
      var events := Finishing(file);
    }
  }

  lemma Finishing(file: Bytes) returns (events: seq<Event>)
    requires TotalSegments(|file|) != 9 && |file| % SEG_SIZE != 0
    ensures Deliverable(Started(TotalSegments(|file|)), events, file)
    ensures After(Started(TotalSegments(|file|)), events).complete
  {
    var total := TotalSegments(|file|);
    SliceSize(file, total - 1);
    var earlier: seq<Event> := [];
    if total < 9 {
      assert Started(total).requested[total - 1] == total - 1;
      assert total - 1 in Started(total).outstanding;
    } else {
      earlier := InOrder(total, file, total - 9);
      assert Requests(total - 9)[total - 2] == total - 1;
    }
    events := earlier + [Data(total - 1)];
    assert events[..|events| - 1] == earlier;
    AnyOrder(total, earlier);
  }
}
