/**
 * Profiler bookkeeping (`Source/Core/Profiler.cpp`): timestamp query
 * indices in a query heap, the pairing of GPU Begin/End queries through a
 * per-queue stack, the per-queue grouping of a frame's GPU events, and the
 * per-thread CPU event stacks and their collection into one frame.
 */
module Profiler {
  import opened Common

  /** What `RecordQuery` hands out once the heap is full. */
  const InvalidQuery: nat := 0xFFFF_FFFF

  /** The readback slot `Resolve` writes a frame's queries to: frame
      `frameIndex mod frameLatency` starts at that slot times
      `maxNumQueries`, and at most `maxNumQueries` are written. */
  function ResolveRange(frameIndex: nat, frameLatency: nat, maxNumQueries: nat, used: nat): (range: (nat, nat))
    requires frameLatency > 0
    ensures range.1 == Min(maxNumQueries, used)
    ensures range.0 + range.1 <= frameLatency * maxNumQueries
  {
    var frameBit := frameIndex % frameLatency;
    assert (frameBit + 1) * maxNumQueries <= frameLatency * maxNumQueries by {
      MulMonotone(frameBit + 1, frameLatency, maxNumQueries);
    }
    (frameBit * maxNumQueries, Min(maxNumQueries, used))
  }

  /** Frames in different latency slots resolve into disjoint ranges. */
  lemma ResolveRangesDisjoint(f1: nat, f2: nat, frameLatency: nat, maxNumQueries: nat, used1: nat, used2: nat)
    requires frameLatency > 0
    requires f1 % frameLatency != f2 % frameLatency
    ensures var r1 := ResolveRange(f1, frameLatency, maxNumQueries, used1);
            var r2 := ResolveRange(f2, frameLatency, maxNumQueries, used2);
            r1.0 + r1.1 <= r2.0 || r2.0 + r2.1 <= r1.0
  {
    var r1 := ResolveRange(f1, frameLatency, maxNumQueries, used1);
    var r2 := ResolveRange(f2, frameLatency, maxNumQueries, used2);
    SlotsDisjoint(f1 % frameLatency, f2 % frameLatency, maxNumQueries, r1.1, r2.1);
  }

  /** Slots `b1` and `b2` of width `m`, filled to `l1` and `l2`, do not
      overlap. */
  lemma SlotsDisjoint(b1: nat, b2: nat, m: nat, l1: nat, l2: nat)
    requires b1 != b2 && l1 <= m && l2 <= m
    ensures b1 * m + l1 <= b2 * m || b2 * m + l2 <= b1 * m
  {
    if b1 < b2 {
      MulMonotone(b1 + 1, b2, m);
    } else {
      MulMonotone(b2 + 1, b1, m);
    }
  }

  /** `QueryHeap`: the timestamp query counter of one heap. */
  class QueryHeap {
    const MaxNumQueries: nat
    const FrameLatency: nat
    var QueryIndex: nat

    constructor(maxNumQueries: nat, frameLatency: nat)
      requires frameLatency > 0
      ensures MaxNumQueries == maxNumQueries && FrameLatency == frameLatency && QueryIndex == 0
    {
      MaxNumQueries := maxNumQueries;
      FrameLatency := frameLatency;
      QueryIndex := 0;
    }

    /** Takes the next query index, or `InvalidQuery` once the heap is full;
        the counter advances either way. */
    method RecordQuery() returns (index: nat)
      modifies this
      ensures QueryIndex == old(QueryIndex) + 1
      ensures index == if old(QueryIndex) >= MaxNumQueries then InvalidQuery else old(QueryIndex)
    {
      index := QueryIndex;
      QueryIndex := QueryIndex + 1;
      if index >= MaxNumQueries {
        index := InvalidQuery;
      }
    }

    /** The readback start and query count of the frame; the counter is
        left as it is. */
    method Resolve(frameIndex: nat) returns (queryStart: nat, numQueries: nat)
      requires FrameLatency > 0
      ensures (queryStart, numQueries) == ResolveRange(frameIndex, FrameLatency, MaxNumQueries, QueryIndex)
    {
      var frameBit := frameIndex % FrameLatency;
      queryStart := frameBit * MaxNumQueries;
      numQueries := Min(MaxNumQueries, QueryIndex);
    }

    method Reset()
      modifies this
      ensures QueryIndex == 0
    {
      QueryIndex := 0;
    }
  }

  // ---------------------------------------------------------------------
  // GPU Begin/End pairing

  /** The event a recorded query belongs to: a Begin of event `Index`, a
      Begin that found the event array full, or an End. */
  datatype EventTag = EventAt(Index: nat) | InvalidEvent | EndEvent
  datatype Query = Query(QueryIndex: nat, Event: EventTag)
  datatype QueryPair = QueryPair(Begin: nat, End: nat)
  /** The bookkeeping part of a GPU `ProfilerEvent`. */
  datatype GpuEvent = GpuEvent(QueueIndex: nat, Depth: nat)

  /** A queue's event stack, the frame's query pairs and its events. */
  datatype Pairing = Pairing(Stack: seq<Query>, Pairs: seq<Option<QueryPair>>, Events: seq<GpuEvent>)

  /** One query of a command list executed on queue `queue`: a Begin is
      pushed (and a valid one tags its event with the queue); an End pops
      the top and, for a valid Begin, pairs the two queries and records the
      event's depth. An End on an empty stack fails (the assertion). */
  function Step(st: Pairing, q: Query, queue: nat): (r: Option<Pairing>)
    ensures r.None? <==> q.Event.EndEvent? && st.Stack == []
    ensures r.Some? ==> |r.value.Pairs| == |st.Pairs| && |r.value.Events| == |st.Events|
  {
    match q.Event
    case EndEvent =>
      if st.Stack == [] then None
      else
        var begin := st.Stack[|st.Stack| - 1];
        var stack := st.Stack[..|st.Stack| - 1];
        if begin.Event.EventAt? && begin.Event.Index < |st.Pairs| && begin.Event.Index < |st.Events| then
          var e := begin.Event.Index;
          Some(Pairing(stack, st.Pairs[e := Some(QueryPair(begin.QueryIndex, q.QueryIndex))],
                       st.Events[e := st.Events[e].(Depth := |stack|)]))
        else
          Some(st.(Stack := stack))
    case InvalidEvent =>
      Some(st.(Stack := st.Stack + [q]))
    case EventAt(e) =>
      if e < |st.Events| then
        Some(Pairing(st.Stack + [q], st.Pairs, st.Events[e := st.Events[e].(QueueIndex := queue)]))
      else
        Some(st.(Stack := st.Stack + [q]))
  }

  /** The queries processed in order; `None` once an End met an empty stack. */
  function Run(st: Pairing, qs: seq<Query>, queue: nat): Option<Pairing>
    decreases |qs|
  {
    if qs == [] then Some(st)
    else match Run(st, qs[..|qs| - 1], queue)
      case None => None
      case Some(s) => Step(s, qs[|qs| - 1], queue)
  }

  lemma {:induction false} RunAppend(st: Pairing, a: seq<Query>, b: seq<Query>, queue: nat)
    ensures Run(st, a + b, queue) == match Run(st, a, queue)
                                     case None => None
                                     case Some(s) => Run(s, b, queue)
    decreases |b|
  {
    if b == [] {
      assert a + b == a;
    } else {
      var b' := b[..|b| - 1];
      assert (a + b)[..|a + b| - 1] == a + b';
      assert (a + b)[|a + b| - 1] == b[|b| - 1];
      RunAppend(st, a, b', queue);
    }
  }

  /** Begins minus Ends. */
  function Height(qs: seq<Query>): int {
    if qs == [] then 0
    else Height(qs[..|qs| - 1]) + (if qs[|qs| - 1].Event.EndEvent? then -1 else 1)
  }

  /** No prefix ends more events than it begins. */
  ghost predicate NeverBelow(qs: seq<Query>) {
    forall k :: 0 <= k <= |qs| ==> Height(qs[..k]) >= 0
  }

  /** Every Begin is ended and no End lacks its Begin. */
  ghost predicate Balanced(qs: seq<Query>) {
    NeverBelow(qs) && Height(qs) == 0
  }

  /** Queries that never go below their starting depth succeed and leave the
      stack they started on in place, `Height` entries deeper. */
  lemma {:induction false} RunKeepsStack(st: Pairing, qs: seq<Query>, queue: nat)
    requires NeverBelow(qs)
    ensures Height(qs) >= 0 && Run(st, qs, queue).Some?
    ensures var s := Run(st, qs, queue).value;
            |s.Stack| == |st.Stack| + Height(qs) && s.Stack[..|st.Stack|] == st.Stack
            && |s.Pairs| == |st.Pairs| && |s.Events| == |st.Events|
    decreases |qs|
  {
    if qs != [] {
      var qs' := qs[..|qs| - 1];
      assert NeverBelow(qs') by {
        forall k | 0 <= k <= |qs'| ensures Height(qs'[..k]) >= 0 {
          assert qs'[..k] == qs[..k];
        }
      }
      RunKeepsStack(st, qs', queue);
    }
    assert qs[..|qs|] == qs;
  }

  /** The End that closes a Begin of event `e` pairs their query indices
      under `e` and records the depth below it, whatever balanced queries lie
      between them. */
  lemma MatchingEndPairsBegin(st: Pairing, begin: Query, inner: seq<Query>, end: Query, queue: nat)
    requires begin.Event.EventAt? && begin.Event.Index < |st.Pairs| && begin.Event.Index < |st.Events|
    requires Balanced(inner) && end.Event.EndEvent?
    ensures Run(st, [begin] + inner + [end], queue).Some?
    ensures var s := Run(st, [begin] + inner + [end], queue).value;
            var e := begin.Event.Index;
            s.Stack == st.Stack && |s.Pairs| == |st.Pairs| && |s.Events| == |st.Events|
            && s.Pairs[e] == Some(QueryPair(begin.QueryIndex, end.QueryIndex))
            && s.Events[e].Depth == |st.Stack|
  {
    RunAppend(st, [begin] + inner, [end], queue);
    RunAppend(st, [begin], inner, queue);
    assert Run(st, [begin], queue) == Step(st, begin, queue) by {
      assert [begin][..0] == [];
    }
    var s1 := Step(st, begin, queue).value;
    RunKeepsStack(s1, inner, queue);
    var s2 := Run(s1, inner, queue).value;
    assert s2.Stack == s1.Stack;
    assert Run(s2, [end], queue) == Step(s2, end, queue) by {
      assert [end][..0] == [];
    }
  }

  /** `Pairs.resize(n)`: kept entries, then empty pairs. */
  function Resized(pairs: seq<Option<QueryPair>>, n: nat): (r: seq<Option<QueryPair>>)
    ensures |r| == n
    ensures forall i :: 0 <= i < n ==> r[i] == if i < |pairs| then pairs[i] else None
  {
    seq(n, i requires 0 <= i < n => if i < |pairs| then pairs[i] else None)
  }

  /** A command list, by abstract number. */
  type ListId = nat

  /** The listed command lists' queries processed in turn on one queue; each
      processed list's queries are cleared, so a list named twice is empty
      the second time. `None` once an End met an empty stack. */
  function ExecuteLists(st: Pairing, lists: seq<ListId>, m: map<ListId, seq<Query>>, queue: nat)
    : Option<(Pairing, map<ListId, seq<Query>>)>
    decreases |lists|
  {
    if lists == [] then Some((st, m))
    else if lists[0] in m then
      match Run(st, m[lists[0]], queue)
      case None => None
      case Some(s) => ExecuteLists(s, lists[1..], m[lists[0] := []], queue)
    else ExecuteLists(st, lists[1..], m, queue)
  }

  /** After execution every listed command list's queries are empty and every
      other list is untouched. */
  lemma {:induction false} ExecuteListsClears(st: Pairing, lists: seq<ListId>, m: map<ListId, seq<Query>>, queue: nat)
    requires ExecuteLists(st, lists, m, queue).Some?
    ensures var m' := ExecuteLists(st, lists, m, queue).value.1;
            m'.Keys == m.Keys && forall l :: l in m ==> m'[l] == if l in lists then [] else m[l]
    decreases |lists|
  {
    if lists != [] {
      if lists[0] in m {
        var s := Run(st, m[lists[0]], queue).value;
        ExecuteListsClears(s, lists[1..], m[lists[0] := []], queue);
      } else {
        ExecuteListsClears(st, lists[1..], m, queue);
      }
      assert forall l :: l in lists <==> l == lists[0] || l in lists[1..];
    }
  }

  /** Every Begin names an event below `n`. */
  ghost predicate InRange(qs: seq<Query>, n: nat) {
    forall i :: 0 <= i < |qs| && qs[i].Event.EventAt? ==> qs[i].Event.Index < n
  }

  /** One query processed on `queue`, as the loop in
      `ExecuteCommandLists` does it; event indices below `n` stay valid. */
  method StepQuery(st: Pairing, query: Query, queue: nat, ghost n: nat) returns (r: Option<Pairing>)
    requires |st.Events| == n && |st.Pairs| == n && InRange(st.Stack, n)
    requires query.Event.EventAt? ==> query.Event.Index < n
    ensures r == Step(st, query, queue)
    ensures r.Some? ==> |r.value.Events| == n && |r.value.Pairs| == n && InRange(r.value.Stack, n)
  {
    if query.Event.EndEvent? {
      if st.Stack == [] {
        return None;
      }
      var begin := st.Stack[|st.Stack| - 1];
      var stack := st.Stack[..|st.Stack| - 1];
      if begin.Event.EventAt? {
        var e := begin.Event.Index;
        r := Some(Pairing(stack, st.Pairs[e := Some(QueryPair(begin.QueryIndex, query.QueryIndex))],
                          st.Events[e := st.Events[e].(Depth := |stack|)]));
      } else {
        r := Some(st.(Stack := stack));
      }
    } else if query.Event.EventAt? {
      var e := query.Event.Index;
      r := Some(Pairing(st.Stack + [query], st.Pairs, st.Events[e := st.Events[e].(QueueIndex := queue)]));
    } else {
      r := Some(st.(Stack := st.Stack + [query]));
    }
  }

  /** The queries of one command list processed in order on `queue`, as
      `ExecuteCommandLists` does it; event indices below `n` stay valid. */
  method RunList(start: Pairing, qs: seq<Query>, queue: nat, ghost n: nat) returns (r: Option<Pairing>)
    requires |start.Events| == n && |start.Pairs| == n && InRange(start.Stack, n) && InRange(qs, n)
    ensures r == Run(start, qs, queue)
    ensures r.Some? ==> |r.value.Events| == n && |r.value.Pairs| == n && InRange(r.value.Stack, n)
  {
    var st := start;
    for j := 0 to |qs|
      invariant Run(start, qs[..j], queue) == Some(st)
      invariant |st.Events| == n && |st.Pairs| == n
      invariant InRange(st.Stack, n)
    {
      assert qs[..j + 1][..j] == qs[..j];
      var next := StepQuery(st, qs[j], queue, n);
      if next.None? {
        assert Run(start, qs[..j + 1], queue) == None;
        RunAppend(start, qs[..j + 1], qs[j + 1..], queue);
        assert qs[..j + 1] + qs[j + 1..] == qs;
        return None;
      }
      st := next.value;
    }
    assert qs[..|qs|] == qs;
    return Some(st);
  }

  /** `GPUProfiler`, for the frame being recorded. */
  class GPUProfiler {
    /** The frame's event array; its length is the event capacity. */
    var Events: seq<GpuEvent>
    var Pairs: seq<Option<QueryPair>>
    /** The Begin queries still open, per queue. */
    var Stacks: seq<seq<Query>>
    /** The queries each command list recorded since it was last executed. */
    var ListQueries: map<ListId, seq<Query>>
    var EventIndex: nat
    var FrameIndex: nat
    var Paused: bool
    var PauseQueued: bool

    ghost predicate Valid()
      reads this
    {
      && (forall k :: 0 <= k < |Stacks| ==> InRange(Stacks[k], |Events|))
      && (forall l :: l in ListQueries ==> InRange(ListQueries[l], |Events|))
    }

    constructor(capacity: nat, numQueues: nat)
      ensures Valid()
      ensures |Events| == capacity && Pairs == [] && Stacks == seq(numQueues, _ => [])
      ensures ListQueries == map[] && EventIndex == 0 && FrameIndex == 0 && !Paused && !PauseQueued
    {
      Events := seq(capacity, _ => GpuEvent(0, 0));
      Pairs := [];
      Stacks := seq(numQueues, _ => []);
      ListQueries := map[];
      EventIndex := 0;
      FrameIndex := 0;
      Paused := false;
      PauseQueued := false;
    }

    /** The queries `list` holds (a list seen for the first time has none). */
    function QueriesOf(list: ListId): seq<Query>
      reads this
    {
      if list in ListQueries then ListQueries[list] else []
    }

    /** Takes the next event index; within capacity the Begin records a
        timestamp query on `heap` and names that event, otherwise it is
        recorded as an invalid Begin. */
    method BeginEvent(list: ListId, heap: QueryHeap)
      requires Valid()
      modifies this, heap
      ensures Valid()
      ensures Events == old(Events) && Pairs == old(Pairs) && Stacks == old(Stacks)
      ensures FrameIndex == old(FrameIndex) && Paused == old(Paused) && PauseQueued == old(PauseQueued)
      ensures Paused ==> ListQueries == old(ListQueries) && EventIndex == old(EventIndex)
                         && heap.QueryIndex == old(heap.QueryIndex)
      ensures !Paused ==>
                EventIndex == old(EventIndex) + 1
                && if old(EventIndex) >= |Events| then
                     heap.QueryIndex == old(heap.QueryIndex)
                     && ListQueries == old(ListQueries)[list := old(QueriesOf(list)) + [Query(InvalidQuery, InvalidEvent)]]
                   else
                     heap.QueryIndex == old(heap.QueryIndex) + 1
                     && ListQueries == old(ListQueries)[list := old(QueriesOf(list)) + [Query(
                          if old(heap.QueryIndex) >= heap.MaxNumQueries then InvalidQuery else old(heap.QueryIndex),
                          EventAt(old(EventIndex)))]]
    {
      if Paused {
        return;
      }
      var queries := QueriesOf(list);
      var eventIndex := EventIndex;
      EventIndex := EventIndex + 1;
      if eventIndex >= |Events| {
        ListQueries := ListQueries[list := queries + [Query(InvalidQuery, InvalidEvent)]];
        return;
      }
      var queryIndex := heap.RecordQuery();
      ListQueries := ListQueries[list := queries + [Query(queryIndex, EventAt(eventIndex))]];
    }

    /** Records an End query on `heap`. */
    method EndEvent(list: ListId, heap: QueryHeap)
      requires Valid()
      modifies this, heap
      ensures Valid()
      ensures Events == old(Events) && Pairs == old(Pairs) && Stacks == old(Stacks) && EventIndex == old(EventIndex)
      ensures FrameIndex == old(FrameIndex) && Paused == old(Paused) && PauseQueued == old(PauseQueued)
      ensures Paused ==> ListQueries == old(ListQueries) && heap.QueryIndex == old(heap.QueryIndex)
      ensures !Paused ==>
                heap.QueryIndex == old(heap.QueryIndex) + 1
                && ListQueries == old(ListQueries)[list := old(QueriesOf(list)) + [Query(
                     if old(heap.QueryIndex) >= heap.MaxNumQueries then InvalidQuery else old(heap.QueryIndex),
                     EventTag.EndEvent)]]
    {
      if Paused {
        return;
      }
      var queries := QueriesOf(list);
      var queryIndex := heap.RecordQuery();
      ListQueries := ListQueries[list := queries + [Query(queryIndex, EventTag.EndEvent)]];
    }

    /** Pairs the queries of `lists` on the queue they execute on (`None`
        for a queue the profiler does not know). `ok` is false when an End
        met an empty stack (the assertion). */
    method ExecuteCommandLists(queue: Option<nat>, lists: seq<ListId>) returns (ok: bool)
      requires Valid()
      requires queue.Some? ==> queue.value < |Stacks|
      modifies this
      ensures Valid()
      ensures EventIndex == old(EventIndex) && FrameIndex == old(FrameIndex)
      ensures Paused == old(Paused) && PauseQueued == old(PauseQueued)
      ensures Paused || queue.None? ==>
                ok && Events == old(Events) && Pairs == old(Pairs) && Stacks == old(Stacks)
                && ListQueries == old(ListQueries)
      ensures !Paused && queue.Some? ==>
                var q := queue.value;
                var r := ExecuteLists(Pairing(old(Stacks)[q], Resized(old(Pairs), |old(Events)|), old(Events)),
                                      lists, old(ListQueries), q);
                (ok <==> r.Some?)
                && (ok ==> Stacks == old(Stacks)[q := r.value.0.Stack] && Pairs == r.value.0.Pairs
                           && Events == r.value.0.Events && ListQueries == r.value.1)
    {
      if Paused || queue.None? {
        return true;
      }
      var q := queue.value;
      var st := Pairing(Stacks[q], Resized(Pairs, |Events|), Events);
      var m := ListQueries;
      ghost var st0, m0 := st, m;
      var i := 0;
      while i < |lists|
        modifies {}
        invariant 0 <= i <= |lists|
        invariant ExecuteLists(st0, lists, m0, q) == ExecuteLists(st, lists[i..], m, q)
        invariant |st.Events| == |Events| && |st.Pairs| == |Events|
        invariant InRange(st.Stack, |Events|)
        invariant forall l :: l in m ==> InRange(m[l], |Events|)
      {
        var list := lists[i];
        if list in m {
          var r := RunList(st, m[list], q, |Events|);
          if r.None? {
            assert lists[i..][0] == list;
            return false;
          }
          st := r.value;
          m := m[list := []];
        }
        assert lists[i..][1..] == lists[i + 1..];
        i := i + 1;
      }
      Stacks := Stacks[q := st.Stack];
      Pairs := st.Pairs;
      Events := st.Events;
      ListQueries := m;
      ok := true;
    }

    /** Closes the recorded frame: returns its event count, resets the event
        counter and, unless pausing, clears the command-list queries, resets
        the query heaps and starts the next frame with no pairs. */
    method Tick(heaps: seq<QueryHeap>) returns (numEvents: nat)
      requires Valid()
      requires forall k :: 0 <= k < |Stacks| ==> Stacks[k] == []
      requires !PauseQueued ==> forall l :: l in ListQueries ==> ListQueries[l] == []
      modifies this, set h | h in heaps
      ensures Valid()
      ensures numEvents == Min(|old(Events)|, old(EventIndex)) && EventIndex == 0
      ensures Events == old(Events) && Stacks == old(Stacks) && PauseQueued == old(PauseQueued)
      ensures Paused == old(PauseQueued)
      ensures Paused ==> Pairs == old(Pairs) && ListQueries == old(ListQueries) && FrameIndex == old(FrameIndex)
                         && forall h :: h in heaps ==> h.QueryIndex == old(h.QueryIndex)
      ensures !Paused ==> Pairs == [] && ListQueries == map[] && FrameIndex == old(FrameIndex) + 1
                          && forall h :: h in heaps ==> h.QueryIndex == 0
    {
      numEvents := Min(|Events|, EventIndex);
      EventIndex := 0;
      Paused := PauseQueued;
      if Paused {
        return;
      }
      ListQueries := map[];
      FrameIndex := FrameIndex + 1;
      for i := 0 to |heaps|
        modifies set h | h in heaps
        invariant forall k :: 0 <= k < i ==> heaps[k].QueryIndex == 0
      {
        heaps[i].Reset();
      }
      Pairs := [];
    }
  }

  // ---------------------------------------------------------------------
  // GPU events grouped per queue

  /** How many events ran on `queue`. */
  function CountQueue(events: seq<GpuEvent>, queue: nat): nat {
    if events == [] then 0
    else CountQueue(events[..|events| - 1], queue) + (if events[|events| - 1].QueueIndex == queue then 1 else 0)
  }

  /** The first `n` events are in queue order. */
  ghost predicate SortedByQueue(events: seq<GpuEvent>, n: nat)
    requires n <= |events|
  {
    forall i, j :: 0 <= i <= j < n ==> events[i].QueueIndex <= events[j].QueueIndex
  }

  /** When the events of `queue` are exactly those at `[b, e)`, there are
      `e - b` of them. */
  lemma {:induction false} CountQueueSegment(events: seq<GpuEvent>, queue: nat, b: nat, e: nat)
    requires b <= e <= |events|
    requires forall i :: 0 <= i < |events| ==> (events[i].QueueIndex == queue <==> b <= i < e)
    ensures CountQueue(events, queue) == e - b
    decreases |events|
  {
    if events != [] {
      var rest := events[..|events| - 1];
      if |events| > e {
        CountQueueSegment(rest, queue, b, e);
      } else if e > b {
        CountQueueSegment(rest, queue, b, e - 1);
      } else {
        CountQueueSegment(rest, queue, |rest|, |rest|);
      }
    }
  }

  /** The scan for the end of a queue's group as written: it reads
      `events[end]` before testing `end < numEvents`; `None` when that read
      falls outside the event array. */
  function ScanEndAsWritten(events: seq<GpuEvent>, numEvents: nat, queue: nat, end: nat): (r: Option<nat>)
    ensures r.Some? ==> end <= r.value < |events|
    ensures r.Some? ==> forall i :: end <= i < r.value ==> events[i].QueueIndex == queue
    decreases |events| - end
  {
    if end >= |events| then None
    else if events[end].QueueIndex == queue && end < numEvents then ScanEndAsWritten(events, numEvents, queue, end + 1)
    else Some(end)
  }

  /** A full frame of one event: the scan for queue 0 reads one past the
      array. */
  lemma ScanEndAsWrittenReadsPastFullFrame()
    ensures ScanEndAsWritten([GpuEvent(0, 0)], 1, 0, 0) == None
  {}

  /** Below capacity the extra read is harmless: the scan stops at the end of
      the group, within the counted events. */
  lemma {:induction false} ScanEndAsWrittenBelowCapacity(events: seq<GpuEvent>, numEvents: nat, queue: nat, end: nat)
    requires end <= numEvents < |events|
    ensures ScanEndAsWritten(events, numEvents, queue, end).Some?
    ensures var r := ScanEndAsWritten(events, numEvents, queue, end).value;
            end <= r <= numEvents
            && (forall i :: end <= i < r ==> events[i].QueueIndex == queue)
            && (r < numEvents ==> events[r].QueueIndex != queue)
    decreases numEvents - end
  {
    if events[end].QueueIndex == queue && end < numEvents {
      ScanEndAsWrittenBelowCapacity(events, numEvents, queue, end + 1);
    }
  }

  /** The end of the run of `queue`'s events that starts at `begin`, with
      the end test made before the read. */
  method ScanEnd(events: seq<GpuEvent>, numEvents: nat, queue: nat, begin: nat) returns (end: nat)
    requires begin <= numEvents <= |events|
    ensures begin <= end <= numEvents
    ensures forall i :: begin <= i < end ==> events[i].QueueIndex == queue
    ensures end < numEvents ==> events[end].QueueIndex != queue
  {
    end := begin;
    while end < numEvents && events[end].QueueIndex == queue
      invariant begin <= end <= numEvents
      invariant forall i :: begin <= i < end ==> events[i].QueueIndex == queue
    {
      end := end + 1;
    }
  }

  /** On sorted events, everything after the run of `queue` belongs to a
      later queue. */
  lemma LaterQueuesFollow(events: seq<GpuEvent>, numEvents: nat, queue: nat, begin: nat, end: nat)
    requires begin <= end <= numEvents <= |events| && SortedByQueue(events, numEvents)
    requires begin < numEvents ==> events[begin].QueueIndex >= queue
    requires forall i :: begin <= i < end ==> events[i].QueueIndex == queue
    requires end < numEvents ==> events[end].QueueIndex != queue
    ensures forall i :: end <= i < numEvents ==> events[i].QueueIndex > queue
  {
    if end < numEvents {
      assert events[end].QueueIndex > queue by {
        if end > begin {
          assert events[end - 1].QueueIndex <= events[end].QueueIndex;
        } else {
          assert events[begin].QueueIndex >= queue;
        }
      }
      forall i | end <= i < numEvents ensures events[i].QueueIndex > queue {
        assert events[end].QueueIndex <= events[i].QueueIndex;
      }
    }
  }

  /** The per-queue ranges of `Tick`, with the end test made before the
      read: every queue's range holds exactly its events. `numEvents` counts
      the frame's events, sorted by queue; untouched tracks keep their reset
      value (0, 0). */
  method GroupByQueue(events: seq<GpuEvent>, numEvents: nat, numQueues: nat) returns (tracks: seq<(nat, nat)>)
    requires numEvents <= |events|
    requires SortedByQueue(events, numEvents)
    ensures |tracks| == numQueues
    ensures forall q :: 0 <= q < numQueues ==>
              tracks[q].0 + tracks[q].1 <= numEvents
              && tracks[q].1 == CountQueue(events[..numEvents], q)
              && forall i :: tracks[q].0 <= i < tracks[q].0 + tracks[q].1 ==> events[i].QueueIndex == q
  {
    tracks := seq(numQueues, _ => (0, 0));
    var begin := 0;
    var queue := 0;
    ghost var counted := events[..numEvents];
    while queue < numQueues && begin < numEvents
      invariant queue <= numQueues && begin <= numEvents && |tracks| == numQueues
      invariant forall i :: 0 <= i < begin ==> events[i].QueueIndex < queue
      invariant begin < numEvents ==> events[begin].QueueIndex >= queue
      invariant forall q :: 0 <= q < queue ==> TrackCovers(tracks[q], events, numEvents, q)
      invariant forall q :: queue <= q < numQueues ==> tracks[q] == (0, 0)
    {
      // The skip to the first event of `queue` never advances on sorted events.
      var end := ScanEnd(events, numEvents, queue, begin);
      LaterQueuesFollow(events, numEvents, queue, begin, end);
      CountQueueSegment(counted, queue, begin, end);
      tracks := tracks[queue := (begin, end - begin)];
      begin := end;
      queue := queue + 1;
    }
    forall q | queue <= q < numQueues
      ensures TrackCovers(tracks[q], events, numEvents, q)
    {
      CountQueueSegment(counted, q, 0, 0);
    }
  }

  /** Track `t` of queue `q` is a range of the counted events holding
      exactly that queue's events. */
  ghost predicate TrackCovers(t: (nat, nat), events: seq<GpuEvent>, numEvents: nat, q: nat)
    requires numEvents <= |events|
  {
    t.0 + t.1 <= numEvents
    && t.1 == CountQueue(events[..numEvents], q)
    && forall i :: t.0 <= i < t.0 + t.1 ==> events[i].QueueIndex == q
  }

  // ---------------------------------------------------------------------
  // CPU events

  /** The bookkeeping part of a CPU `ProfilerEvent`. */
  datatype CpuEvent = CpuEvent(Depth: nat, ThreadIndex: nat)
  /** A thread's TLS: the indices of its open events and its events. */
  datatype ThreadEvents = ThreadEvents(EventStack: seq<nat>, Events: seq<CpuEvent>)
  /** A history slot: the collected events and each thread's range of them. */
  datatype FrameData = FrameData(NumEvents: nat, Events: seq<CpuEvent>, Tracks: seq<(nat, nat)>)

  /** Open event `k` (from the bottom) exists and sits at depth `k + 1`. */
  ghost predicate StackValid(t: ThreadEvents) {
    forall k :: 0 <= k < |t.EventStack| ==>
      t.EventStack[k] < |t.Events| && t.Events[t.EventStack[k]].Depth == k + 1
  }

  /** The TLS of thread `index`: a valid stack over events of that thread. */
  ghost predicate ThreadValid(t: ThreadEvents, index: nat) {
    StackValid(t) && forall i :: 0 <= i < |t.Events| ==> t.Events[i].ThreadIndex == index
  }

  /** Every thread's events, thread after thread. */
  function Concat(threads: seq<ThreadEvents>): seq<CpuEvent> {
    if threads == [] then [] else Concat(threads[..|threads| - 1]) + threads[|threads| - 1].Events
  }

  /** Taking one more thread appends its events and its track. */
  lemma CollectStep(threads: seq<ThreadEvents>, t: nat)
    requires t < |threads|
    ensures Concat(threads[..t + 1]) == Concat(threads[..t]) + threads[t].Events
    ensures Tracks(threads[..t + 1]) == Tracks(threads[..t]) + [(|Concat(threads[..t])|, |threads[t].Events|)]
  {
    assert threads[..t + 1][..t] == threads[..t];
  }

  /** Each thread's (offset, count) in `Concat`. */
  function Tracks(threads: seq<ThreadEvents>): (r: seq<(nat, nat)>)
    ensures |r| == |threads|
  {
    if threads == [] then []
    else
      var rest := threads[..|threads| - 1];
      Tracks(rest) + [(|Concat(rest)|, |threads[|threads| - 1].Events|)]
  }

  /** Each thread's track names exactly its events in the collected list. */
  lemma {:induction false} TracksSliceConcat(threads: seq<ThreadEvents>, t: nat)
    requires t < |threads|
    ensures var (offset, count) := Tracks(threads)[t];
            offset + count <= |Concat(threads)| && Concat(threads)[offset..offset + count] == threads[t].Events
    decreases |threads|
  {
    var rest := threads[..|threads| - 1];
    if t < |rest| {
      TracksSliceConcat(rest, t);
      assert Tracks(threads)[t] == Tracks(rest)[t];
      var (offset, count) := Tracks(rest)[t];
      assert Concat(threads)[offset..offset + count] == Concat(rest)[offset..offset + count];
    } else {
      assert Concat(threads)[|Concat(rest)|..] == threads[t].Events;
    }
  }

  /** `CPUProfiler`: per-thread event stacks and a history of collected
      frames; frame `i` lives in slot `i mod |Frames|`. */
  class CPUProfiler {
    var Threads: seq<ThreadEvents>
    var Frames: seq<FrameData>
    var FrameIndex: nat
    var Paused: bool
    var QueuedPaused: bool

    ghost predicate Valid()
      reads this
    {
      && |Frames| > 0
      && forall t :: 0 <= t < |Threads| ==> ThreadValid(Threads[t], t)
    }

    constructor(historySize: nat)
      requires historySize > 0
      ensures Valid()
      ensures Threads == [] && |Frames| == historySize && FrameIndex == 0 && !Paused && !QueuedPaused
    {
      Threads := [];
      Frames := seq(historySize, _ => FrameData(0, [], []));
      FrameIndex := 0;
      Paused := false;
      QueuedPaused := false;
    }

    /** Gives the calling thread the next thread index. */
    method RegisterThread() returns (index: nat)
      requires Valid()
      modifies this
      ensures Valid()
      ensures index == |old(Threads)| && Threads == old(Threads) + [ThreadEvents([], [])]
      ensures Frames == old(Frames) && FrameIndex == old(FrameIndex)
      ensures Paused == old(Paused) && QueuedPaused == old(QueuedPaused)
    {
      index := |Threads|;
      Threads := Threads + [ThreadEvents([], [])];
    }

    /** Opens an event on `thread`: its index is pushed and its depth is the
        stack size after the push. */
    method BeginEvent(thread: nat)
      requires Valid() && thread < |Threads|
      modifies this
      ensures Valid()
      ensures Frames == old(Frames) && FrameIndex == old(FrameIndex)
      ensures Paused == old(Paused) && QueuedPaused == old(QueuedPaused)
      ensures Paused ==> Threads == old(Threads)
      ensures !Paused ==>
                var t := old(Threads)[thread];
                Threads == old(Threads)[thread := ThreadEvents(t.EventStack + [|t.Events|],
                                                               t.Events + [CpuEvent(|t.EventStack| + 1, thread)])]
    {
      if Paused {
        return;
      }
      var t := Threads[thread];
      var stack := t.EventStack + [|t.Events|];
      Threads := Threads[thread := ThreadEvents(stack, t.Events + [CpuEvent(|stack|, thread)])];
    }

    /** Closes `thread`'s innermost open event; there must be one. */
    method EndEvent(thread: nat)
      requires Valid() && thread < |Threads|
      requires !Paused ==> |Threads[thread].EventStack| > 0
      modifies this
      ensures Valid()
      ensures Frames == old(Frames) && FrameIndex == old(FrameIndex)
      ensures Paused == old(Paused) && QueuedPaused == old(QueuedPaused)
      ensures Paused ==> Threads == old(Threads)
      ensures !Paused ==>
                var t := old(Threads)[thread];
                Threads == old(Threads)[thread := t.(EventStack := t.EventStack[..|t.EventStack| - 1])]
    {
      if Paused {
        return;
      }
      var t := Threads[thread];
      Threads := Threads[thread := t.(EventStack := t.EventStack[..|t.EventStack| - 1])];
    }

    /** Moves every thread's events, in thread order, into one list with
        each thread's (offset, count), and clears every thread's list. The
        lists are cleared after the copy rather than one by one as they are
        copied; with one thread of control the outcome is the same. */
    method CollectThreads() returns (events: seq<CpuEvent>, tracks: seq<(nat, nat)>)
      requires Valid()
      requires forall t :: 0 <= t < |Threads| ==> Threads[t].EventStack == []
      modifies this
      ensures Valid()
      ensures events == Concat(old(Threads)) && tracks == Tracks(old(Threads))
      ensures |Threads| == |old(Threads)| && forall t :: 0 <= t < |Threads| ==> Threads[t] == ThreadEvents([], [])
      ensures Frames == old(Frames) && FrameIndex == old(FrameIndex)
      ensures Paused == old(Paused) && QueuedPaused == old(QueuedPaused)
    {
      var threads := Threads;
      events := [];
      tracks := [];
      for t := 0 to |threads|
        invariant events == Concat(threads[..t]) && tracks == Tracks(threads[..t])
        invariant unchanged(this)
      {
        CollectStep(threads, t);
        tracks := tracks + [(|events|, |threads[t].Events|)];
        events := events + threads[t].Events;
      }
      assert threads[..|threads|] == threads;
      Threads := seq(|threads|, _ => ThreadEvents([], []));
    }

    /** Stores the collected events in the current frame's slot and
        advances the frame. */
    method StoreFrame(events: seq<CpuEvent>, tracks: seq<(nat, nat)>)
      requires Valid()
      modifies this
      ensures Valid()
      ensures Threads == old(Threads) && Paused == old(Paused) && QueuedPaused == old(QueuedPaused)
      ensures FrameIndex == old(FrameIndex) + 1
      ensures Frames == StoredFrames(old(Frames), old(FrameIndex), events, tracks)
    {
      var slot := FrameIndex % |Frames|;
      var numEvents := |Frames[slot].Events|;
      Frames := Frames[slot := FrameData(numEvents, events, tracks)];
      FrameIndex := FrameIndex + 1;
      var next := FrameIndex % |Frames|;
      Frames := Frames[next := Frames[next].(NumEvents := 0)];
    }

    /** The unpaused part of `Tick` once the frame event has ended. */
    method CloseFrame(thread: nat)
      requires Valid() && thread < |Threads| && !Paused
      requires forall t :: 0 <= t < |Threads| ==> Threads[t].EventStack == []
      modifies this
      ensures Valid()
      ensures Paused == old(Paused) && QueuedPaused == old(QueuedPaused)
      ensures FrameIndex == old(FrameIndex) + 1
      ensures Frames == StoredFrames(old(Frames), old(FrameIndex), Concat(old(Threads)), Tracks(old(Threads)))
      ensures Threads == FrameStart(|old(Threads)|, thread)
    {
      var events, tracks := CollectThreads();
      ghost var cleared := Threads;
      StoreFrame(events, tracks);
      BeginEvent(thread);
      FrameStartFromCleared(cleared, thread);
    }

    /** Ends the frame event of `thread` (after frame 0), collects every
        thread's events into the frame's slot with each thread's range,
        clears them, advances the frame and opens the next frame event. All
        events must be closed by then. */
    method Tick(thread: nat)
      requires Valid() && thread < |Threads|
      requires !QueuedPaused ==>
                 |Threads[thread].EventStack| == (if FrameIndex > 0 then 1 else 0)
                 && forall t :: 0 <= t < |Threads| && t != thread ==> Threads[t].EventStack == []
      modifies this
      ensures Valid()
      ensures Paused == old(QueuedPaused) && QueuedPaused == old(QueuedPaused)
      ensures Paused ==> Threads == old(Threads) && Frames == old(Frames) && FrameIndex == old(FrameIndex)
      ensures !Paused ==>
                && FrameIndex == old(FrameIndex) + 1
                && Frames == StoredFrames(old(Frames), old(FrameIndex), Concat(old(Threads)), Tracks(old(Threads)))
                && Threads == FrameStart(|old(Threads)|, thread)
    {
      Paused := QueuedPaused;
      if !Paused {
        if FrameIndex > 0 {
          EndEvent(thread);
        }
        ghost var threads := Threads;
        assert |threads| == |old(Threads)| && forall t :: 0 <= t < |threads| ==> threads[t].Events == old(Threads)[t].Events;
        ConcatOnlyEvents(threads, old(Threads));
        CloseFrame(thread);
      }
    }
  }

  /** The threads at the start of a frame: no events anywhere but the frame
      event just opened on `thread`. */
  function FrameStart(n: nat, thread: nat): (r: seq<ThreadEvents>)
    requires thread < n
    ensures |r| == n && r[thread] == ThreadEvents([0], [CpuEvent(1, thread)])
    ensures forall t :: 0 <= t < n && t != thread ==> r[t] == ThreadEvents([], [])
  {
    seq(n, t => if t == thread then ThreadEvents([0], [CpuEvent(1, thread)]) else ThreadEvents([], []))
  }

  /** Opening the frame event on cleared threads gives the start of a
      frame. */
  lemma FrameStartFromCleared(cleared: seq<ThreadEvents>, thread: nat)
    requires thread < |cleared|
    requires forall t :: 0 <= t < |cleared| ==> cleared[t] == ThreadEvents([], [])
    ensures var e := cleared[thread];
            cleared[thread := ThreadEvents(e.EventStack + [|e.Events|], e.Events + [CpuEvent(|e.EventStack| + 1, thread)])]
            == FrameStart(|cleared|, thread)
  {
    assert [] + [0] == [0] && [] + [CpuEvent(1, thread)] == [CpuEvent(1, thread)];
  }

  /** The history after frame `frameIndex` collected `events`: its slot
      holds them with the slot's previous event count as `NumEvents` (the
      count is taken before the events are replaced), and the next frame's
      slot starts with a count of 0. */
  function StoredFrames(frames: seq<FrameData>, frameIndex: nat, events: seq<CpuEvent>, tracks: seq<(nat, nat)>)
    : (r: seq<FrameData>)
    requires |frames| > 0
    ensures |r| == |frames|
    ensures var slot := frameIndex % |frames|;
            var next := (frameIndex + 1) % |frames|;
            && (forall i :: 0 <= i < |r| && i != slot && i != next ==> r[i] == frames[i])
            && (slot != next ==>
                  r[slot] == FrameData(|frames[slot].Events|, events, tracks)
                  && r[next] == frames[next].(NumEvents := 0))
            && (slot == next ==> r[slot] == FrameData(0, events, tracks))
  {
    var slot := frameIndex % |frames|;
    var next := (frameIndex + 1) % |frames|;
    var stored := frames[slot := FrameData(|frames[slot].Events|, events, tracks)];
    stored[next := stored[next].(NumEvents := 0)]
  }

  /** `Concat` and `Tracks` look only at the events. */
  lemma {:induction false} ConcatOnlyEvents(a: seq<ThreadEvents>, b: seq<ThreadEvents>)
    requires |a| == |b| && forall t :: 0 <= t < |a| ==> a[t].Events == b[t].Events
    ensures Concat(a) == Concat(b) && Tracks(a) == Tracks(b)
    decreases |a|
  {
    if a != [] {
      ConcatOnlyEvents(a[..|a| - 1], b[..|b| - 1]);
    }
  }
}
