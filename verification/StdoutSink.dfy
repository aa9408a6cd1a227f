/** The threaded standard-output sink: it flushes once caught up, then acknowledges. */
module StdoutSink {
  const FLUSH_THRESHOLD: nat := 8 * 1024

  type Bytes = string

  datatype Msg = Chunk(bytes: Bytes) | Sync(id: nat) | Shutdown

  /** Where the worker is in its loop. */
  datatype Mode =
    | Idle                    // blocked in `recv`
    | Draining                // absorbing what is already queued
    | Flushing(stop: bool)
    | Acking(stop: bool)
    | Final                   // past the loop, before the last flush
    | Done

  /** `cache` is what the worker's buffered writer holds, `file` what it has written out. */
  datatype State = State(
    buf: Bytes, open: bool, recycle: seq<Bytes>,
    queue: seq<Msg>, mode: Mode, acks: seq<nat>, acked: set<nat>, cache: Bytes, file: Bytes)

  /** `stale` says whether the line delay has run out. */
  datatype Event =
    | Write(data: Bytes)
    | WriteLine(text: Bytes, stale: bool)
    | Flush
    | FlushIfStale(stale: bool)
    | SyncCall(id: nat)
    | Drop
    | Work
    | Spill(n: nat)

  predicate Producer(e: Event) { !e.Work? && !e.Spill? }

  const Start: State := State([], true, [], [], Idle, [], {}, [], [])

  /** `Vec::clear`: the buffer truncated to no bytes. */
  function Cleared(b: Bytes): Bytes { b[..0] }

  /** `fresh_buf`: a returned buffer, cleared once more, or a new one. */
  function FreshFrom(recycle: seq<Bytes>): (Bytes, seq<Bytes>) {
    if recycle == [] then ([], []) else (Cleared(recycle[0]), recycle[1..])
  }

  /** Hand the whole buffer over and continue in a recycled or a fresh one. */
  function Dispatch(s: State): State {
    var (b, rest) := FreshFrom(s.recycle);
    s.(queue := s.queue + [Chunk(s.buf)], buf := b, recycle := rest)
  }

  function FlushBuf(s: State): State {
    if s.open && s.buf != [] then Dispatch(s) else s
  }

  /** One message taken off the channel. */
  function Take(s: State): State
    requires s.queue != []
  {
    var t := s.(queue := s.queue[1..]);
    match s.queue[0]
    case Chunk(b) => t.(cache := t.cache + b, recycle := t.recycle + [Cleared(b)], mode := Draining)
    case Sync(id) => t.(acks := t.acks + [id], mode := Draining)
    case Shutdown => t.(mode := if s.mode.Idle? then Final else Flushing(true))
  }

  function WorkStep(s: State): State {
    match s.mode
    case Idle => if s.queue == [] then s else Take(s)
    case Draining => if s.queue == [] then s.(mode := Flushing(false)) else Take(s)
    case Flushing(stop) => s.(file := s.file + s.cache, cache := [], mode := Acking(stop))
    case Acking(stop) =>
      if s.acks != [] then s.(acks := s.acks[1..], acked := s.acked + {s.acks[0]})
      else s.(mode := if stop then Final else Idle)
    case Final => s.(file := s.file + s.cache, cache := [], mode := Done)
    case Done => s
  }

  function Next(s: State, e: Event): State {
    match e
    case Write(data) =>
      if !s.open then s else
        var t := s.(buf := s.buf + data);
        if |t.buf| >= FLUSH_THRESHOLD then Dispatch(t) else t
    case WriteLine(text, stale) =>
      var t := s.(buf := s.buf + text + "\n");
      if t.open && (|t.buf| >= FLUSH_THRESHOLD || stale) then Dispatch(t) else t
    case Flush => FlushBuf(s)
    case FlushIfStale(stale) => if stale then FlushBuf(s) else s
    case SyncCall(id) => if s.open then FlushBuf(s).(queue := FlushBuf(s).queue + [Sync(id)]) else s
    case Drop => if s.open then FlushBuf(s).(queue := FlushBuf(s).queue + [Shutdown], open := false) else s
    case Work => WorkStep(s)
    case Spill(n) =>
      var k := if n < |s.cache| then n else |s.cache|;
      s.(file := s.file + s.cache[..k], cache := s.cache[k..])
  }

  function Run(es: seq<Event>): State {
    if es == [] then Start else Next(Run(es[..|es| - 1]), es[|es| - 1])
  }

  function EventText(e: Event): Bytes {
    match e
    case Write(data) => data
    case WriteLine(text, _) => text + "\n"
    case _ => []
  }

  /** The text written through the sink. */
  function Written(es: seq<Event>): Bytes {
    if es == [] then [] else Written(es[..|es| - 1]) + EventText(es[|es| - 1])
  }

  function SyncIds(es: seq<Event>): set<nat> {
    if es == [] then {} else
      SyncIds(es[..|es| - 1]) + if es[|es| - 1].SyncCall? then {es[|es| - 1].id} else {}
  }

  /** Nobody uses a dropped sink, and every sync waits on its own channel. */
  ghost predicate Disciplined(es: seq<Event>) {
    && (forall i, j :: 0 <= i < j < |es| && es[i].Drop? ==> !Producer(es[j]))
    && forall i, j :: 0 <= i < j < |es| && es[i].SyncCall? && es[j].SyncCall? ==> es[i].id != es[j].id
  }

  lemma Appended(es: seq<Event>, e: Event)
    ensures Run(es + [e]) == Next(Run(es), e) && Written(es + [e]) == Written(es) + EventText(e)
    ensures SyncIds(es + [e]) == SyncIds(es) + if e.SyncCall? then {e.id} else {}
  {
    hide Next;
    assert (es + [e])[..|es|] == es;
  }

  lemma {:induction false} IdsAre(es: seq<Event>, id: nat)
    ensures id in SyncIds(es) <==> exists i :: 0 <= i < |es| && es[i] == SyncCall(id)
  {
    if es != [] { IdsAre(es[..|es| - 1], id); }
  }

  lemma Shorter(es: seq<Event>, e: Event)
    requires Disciplined(es + [e])
    ensures Disciplined(es) && (e.SyncCall? ==> e.id !in SyncIds(es))
    ensures Producer(e) ==> forall x :: x in es ==> !x.Drop?
  {
    var all := es + [e];
    assert all[..|es|] == es && all[|es|] == e;
    forall i, j | 0 <= i < j < |es| && es[i].Drop? ensures !Producer(es[j]) { assert all[i].Drop? && all[j] == es[j]; }
    forall i, j | 0 <= i < j < |es| && es[i].SyncCall? && es[j].SyncCall? ensures es[i].id != es[j].id {
      assert all[i] == es[i] && all[j] == es[j];
    }
    if e.SyncCall? {
      forall i | 0 <= i < |es| ensures es[i] != SyncCall(e.id) { assert all[i] == es[i]; }
      IdsAre(es, e.id);
    }
    forall x | x in es && Producer(e) ensures !x.Drop? {
      var i :| 0 <= i < |es| && es[i] == x;
      assert all[i] == x;
    }
  }

  /* ---- where the text is ---- */

  function MsgText(m: Msg): Bytes {
    match m case Chunk(b) => b case _ => []
  }

  function QueueText(q: seq<Msg>): Bytes {
    if q == [] then [] else QueueText(q[..|q| - 1]) + MsgText(q[|q| - 1])
  }

  function Total(s: State): Bytes { s.file + s.cache + QueueText(s.queue) + s.buf }

  predicate Inv(s: State) {
    && (forall i :: 0 <= i < |s.recycle| ==> s.recycle[i] == [])
    && (forall i :: 0 <= i < |s.queue| - 1 ==> s.queue[i] != Shutdown)
    && (s.open ==> !Stopping(s.mode) && (s.queue != [] ==> s.queue[|s.queue| - 1] != Shutdown))
    && (!s.open ==> s.buf == [])
    && (!s.open && !Stopping(s.mode) ==> s.queue != [] && s.queue[|s.queue| - 1] == Shutdown)
    && (Stopping(s.mode) ==> s.queue == [])
    && (s.mode.Idle? || s.mode.Final? || s.mode.Done? ==> s.acks == [])
    && (s.mode.Idle? || s.mode.Acking? || s.mode.Done? ==> s.cache == [])
  }

  predicate Stopping(m: Mode) {
    m.Final? || m.Done? || (m.Flushing? && m.stop) || (m.Acking? && m.stop)
  }

  lemma QueueSnoc(q: seq<Msg>, m: Msg)
    ensures QueueText(q + [m]) == QueueText(q) + MsgText(m)
  {
    assert (q + [m])[..|q|] == q;
  }

  lemma Regroup(x: Bytes, y: Bytes, z: Bytes)
    ensures (x + y) + z == x + (y + z)
  {}

  lemma {:induction false} QueuePop(m: Msg, q: seq<Msg>)
    ensures QueueText([m] + q) == MsgText(m) + QueueText(q)
  {
    hide MsgText;
    if q == [] {
      assert [m] + q == [] + [m];
      QueueSnoc([], m);
      assert QueueText([]) == [];
    } else {
      var r, x := q[..|q| - 1], q[|q| - 1];
      QueuePop(m, r);
      assert [m] + q == ([m] + r) + [x] && q == r + [x];
      hide QueueText;
      QueueSnoc([m] + r, x);
      QueueSnoc(r, x);
      Regroup(MsgText(m), QueueText(r), MsgText(x));
    }
  }

  lemma DispatchKeeps(s: State)
    ensures Total(Dispatch(s)) == Total(s)
  {
    hide QueueText;
    QueueSnoc(s.queue, Chunk(s.buf));
  }

  lemma SignalJoins(s: State, m: Msg, open: bool)
    requires !m.Chunk?
    ensures Total(s.(queue := s.queue + [m], open := open)) == Total(s)
  {
    hide QueueText;
    QueueSnoc(s.queue, m);
  }

  lemma BufferGrows(s: State, data: Bytes)
    ensures Total(s.(buf := s.buf + data)) == Total(s) + data
  {
    hide QueueText;
  }

  lemma WorkKeeps(s: State)
    ensures Total(WorkStep(s)) == Total(s)
  {
    hide QueueText, Take;
    if s.queue != [] { TakeKeeps(s); }
  }

  lemma TakeKeeps(s: State)
    requires s.queue != []
    ensures Total(Take(s)) == Total(s)
  {
    hide QueueText;
    assert s.queue == [s.queue[0]] + s.queue[1..];
    QueuePop(s.queue[0], s.queue[1..]);
  }

  lemma SpillKeeps(s: State, n: nat)
    ensures Total(Next(s, Spill(n))) == Total(s)
  {
    hide QueueText;
    var k := if n < |s.cache| then n else |s.cache|;
    assert s.cache == s.cache[..k] + s.cache[k..];
    Regroup(s.file, s.cache[..k], s.cache[k..]);
  }

  lemma NextTotal(s: State, e: Event)
    requires s.open || !Producer(e)
    ensures Total(Next(s, e)) == Total(s) + EventText(e)
  {
    hide QueueText, Total;
    match e
    case Write(data) =>
      BufferGrows(s, data);
      DispatchKeeps(s.(buf := s.buf + data));
    case WriteLine(text, _) =>
      Regroup(s.buf, text, "\n");
      BufferGrows(s, text + "\n");
      DispatchKeeps(s.(buf := s.buf + text + "\n"));
    case Flush => DispatchKeeps(s);
    case FlushIfStale(_) => DispatchKeeps(s);
    case SyncCall(id) =>
      DispatchKeeps(s);
      SignalJoins(FlushBuf(s), Sync(id), true);
    case Drop =>
      DispatchKeeps(s);
      SignalJoins(FlushBuf(s), Shutdown, false);
    case Work => WorkKeeps(s);
    case Spill(n) => SpillKeeps(s, n);
  }

  lemma {:induction false} NextInv(s: State, e: Event)
    requires Inv(s) && (s.open || !Producer(e))
    ensures Inv(Next(s, e)) && Next(s, e).open == (s.open && !e.Drop?)
  {
    hide WorkStep, Dispatch;
    if e.Work? { WorkInv(s); }
    DispatchShape(s);
    if e.Write? { DispatchShape(s.(buf := s.buf + e.data)); }
    if e.WriteLine? { DispatchShape(s.(buf := s.buf + e.text + "\n")); }
  }

  lemma DispatchShape(s: State)
    ensures var t := Dispatch(s);
      && t.queue == s.queue + [Chunk(s.buf)] && t.buf == [] && (Inv(s) ==> forall i :: 0 <= i < |t.recycle| ==> t.recycle[i] == [])
      && t == s.(queue := t.queue, buf := t.buf, recycle := t.recycle)
  {}

  lemma WorkInv(s: State)
    requires Inv(s)
    ensures Inv(WorkStep(s)) && WorkStep(s).open == s.open
  {
    hide Take;
    if s.queue != [] && (s.mode.Idle? || s.mode.Draining?) { TakeInv(s); }
  }

  lemma TakeInv(s: State)
    requires Inv(s) && s.queue != [] && (s.mode.Idle? || s.mode.Draining?)
    ensures Inv(Take(s)) && Take(s).open == s.open
  {}

  /** Safety of every run: all accepted text is in the file, the queue or the buffer, in order. */
  lemma {:induction false} RunFacts(es: seq<Event>)
    requires Disciplined(es)
    ensures Inv(Run(es)) && Total(Run(es)) == Written(es) && Run(es).file <= Written(es)
    ensures Run(es).open <==> forall e :: e in es ==> !e.Drop?
  {
    hide Next, QueueText, Disciplined;
    if es == [] {
      StartFacts();
    } else {
      var n := |es| - 1;
      assert es == es[..n] + [es[n]];
      Shorter(es[..n], es[n]);
      RunFacts(es[..n]);
      hide Total, Inv;
      NextTotal(Run(es[..n]), es[n]);
      NextInv(Run(es[..n]), es[n]);
    }
    FilePrefix(Run(es));
  }

  lemma StartFacts()
    ensures Inv(Start) && Total(Start) == []
  {}

  lemma FilePrefix(s: State)
    ensures s.file <= Total(s)
  {}

  /** Once the worker of a dropped sink is done, the file is the text written. */
  lemma {:induction false} NothingLost(es: seq<Event>)
    requires Disciplined(es) && Run(es).mode.Done?
    ensures Run(es).file == Written(es)
  {
    RunFacts(es);
  }

  /* ---- chunk boundaries ---- */

  /** `n` bytes end exactly where some call ended. */
  ghost predicate CallBoundary(es: seq<Event>, n: nat) {
    exists k: nat :: k <= |es| && n == |Written(es[..k])|
  }

  function Received(s: State): nat { |s.file| + |s.cache| }

  /** Every chunk in the queue, and what the worker has taken, ends where a call ended. */
  ghost predicate CutsAtCalls(es: seq<Event>, s: State) {
    forall j: nat :: j <= |s.queue| ==> CallBoundary(es, Received(s) + |QueueText(s.queue[..j])|)
  }

  lemma BoundaryGrows(es: seq<Event>, e: Event, n: nat)
    ensures CallBoundary(es, n) ==> CallBoundary(es + [e], n)
    ensures CallBoundary(es + [e], |Written(es + [e])|)
  {
    var all := es + [e];
    if CallBoundary(es, n) {
      var k: nat :| k <= |es| && n == |Written(es[..k])|;
      assert all[..k] == es[..k];
    }
    assert all[..|all|] == all;
  }

  /** A producer step leaves the queue alone or extends it to hold everything accepted. */
  lemma ProducerQueue(s: State, e: Event)
    requires Producer(e) && s.open
    ensures var t := Next(s, e);
      && t.file == s.file && t.cache == s.cache && s.queue <= t.queue && |t.queue| <= |s.queue| + 2
      && (t.queue != s.queue ==> t.buf == [])
      && (|t.queue| == |s.queue| + 2 ==> !t.queue[|s.queue| + 1].Chunk?)
  {}

  lemma PrefixText(q: seq<Msg>, j: nat)
    requires j < |q|
    ensures QueueText(q[..j + 1]) == QueueText(q[..j]) + MsgText(q[j])
  {
    assert q[..j + 1] == q[..j] + [q[j]];
    QueueSnoc(q[..j], q[j]);
  }

  lemma ProducerCuts(es: seq<Event>, s: State, e: Event)
    requires Producer(e) && s.open && CutsAtCalls(es, s) && Total(Next(s, e)) == Written(es + [e])
    ensures CutsAtCalls(es + [e], Next(s, e))
  {
    hide QueueText, CallBoundary, Next;
    var t := Next(s, e);
    ProducerQueue(s, e);
    forall j: nat | j <= |t.queue| ensures CallBoundary(es + [e], Received(t) + |QueueText(t.queue[..j])|) {
      if j <= |s.queue| {
        assert t.queue[..j] == s.queue[..j];
        BoundaryGrows(es, e, Received(s) + |QueueText(s.queue[..j])|);
      } else {
        assert t.queue[..|t.queue|] == t.queue;
        if j < |t.queue| { PrefixText(t.queue, j); }
        BoundaryGrows(es, e, 0);
      }
    }
  }

  lemma WorkerCuts(es: seq<Event>, s: State, e: Event)
    requires !Producer(e) && CutsAtCalls(es, s)
    ensures CutsAtCalls(es + [e], Next(s, e))
  {
    hide QueueText, CallBoundary, Next;
    var t := Next(s, e);
    WorkerQueue(s, e);
    forall j: nat | j <= |t.queue| ensures CallBoundary(es + [e], Received(t) + |QueueText(t.queue[..j])|) {
      if t.queue == s.queue {
        BoundaryGrows(es, e, Received(s) + |QueueText(s.queue[..j])|);
      } else {
        assert s.queue[..j + 1] == [s.queue[0]] + t.queue[..j];
        QueuePop(s.queue[0], t.queue[..j]);
        BoundaryGrows(es, e, Received(s) + |QueueText(s.queue[..j + 1])|);
      }
    }
  }

  /** The worker takes whole messages. */
  lemma WorkerQueue(s: State, e: Event)
    requires !Producer(e)
    ensures var t := Next(s, e);
      (t.queue == s.queue && Received(t) == Received(s))
      || (s.queue != [] && t.queue == s.queue[1..] && Received(t) == Received(s) + |MsgText(s.queue[0])|)
  {
    hide Dispatch, Take;
    if s.queue != [] { TakeReceives(s); }
  }

  lemma TakeReceives(s: State)
    requires s.queue != []
    ensures Take(s).queue == s.queue[1..] && Received(Take(s)) == Received(s) + |MsgText(s.queue[0])|
  {}

  lemma {:induction false} ChunksEndAtCalls(es: seq<Event>)
    requires Disciplined(es)
    ensures CutsAtCalls(es, Run(es))
  {
    hide Next, QueueText, Disciplined, CallBoundary, Total, Inv;
    if es == [] {
      StartCuts();
    } else {
      var n := |es| - 1;
      var pre, e := es[..n], es[n];
      assert es == pre + [e];
      Shorter(pre, e);
      ChunksEndAtCalls(pre);
      RunFacts(pre);
      RunFacts(es);
      hide CutsAtCalls;
      if Producer(e) { ProducerCuts(pre, Run(pre), e); } else { WorkerCuts(pre, Run(pre), e); }
    }
  }

  ghost predicate EndsLine(t: Bytes) { t == [] || t[|t| - 1] == '\n' }

  lemma {:induction false} LinesWritten(es: seq<Event>)
    requires forall e :: e in es ==> !e.Write?
    ensures EndsLine(Written(es))
  {
    if es != [] {
      var init, e := es[..|es| - 1], es[|es| - 1];
      LinesWritten(init);
      assert Written(init) + [] == Written(init);
    }
  }

  /** When only whole lines are written, the worker has never taken part of one. */
  lemma {:induction false} WholeLines(es: seq<Event>)
    requires Disciplined(es) && forall e :: e in es ==> !e.Write?
    ensures EndsLine(Run(es).file + Run(es).cache)
  {
    hide Next, Run, Written, Disciplined, Inv, QueueText;
    var s := Run(es);
    ChunksEndAtCalls(es);
    RunFacts(es);
    NoText();
    assert s.queue[..0] == [] && CallBoundary(es, Received(s) + |QueueText(s.queue[..0])|);
    var k: nat :| k <= |es| && Received(s) == |Written(es[..k])|;
    LinesWritten(es[..k]);
    WrittenGrows(es, k);
    TakenIsPrefix(s);
    SamePrefix(s.file + s.cache, Written(es[..k]), Written(es));
    SamePrefix(Written(es[..k]), s.file + s.cache, Written(es));
  }

  lemma TakenIsPrefix(s: State)
    ensures s.file + s.cache <= Total(s)
  {}

  lemma {:induction false} WrittenGrows(es: seq<Event>, k: nat)
    requires k <= |es|
    ensures Written(es[..k]) <= Written(es)
  {
    if k < |es| {
      WrittenGrows(es[..|es| - 1], k);
      assert es[..|es| - 1][..k] == es[..k];
    } else {
      assert es[..k] == es;
    }
  }

  lemma StartCuts()
    ensures CutsAtCalls([], Start)
  {
    var none: seq<Event> := [];
    assert none[..0] == none && CallBoundary(none, 0);
    assert Start.queue[..0] == [];
  }

  /* ---- sync ---- */

  /** How much had been written when sync `id` was called. */
  function Point(es: seq<Event>, id: nat): nat {
    if es == [] then 0
    else if es[|es| - 1] == SyncCall(id) then |Written(es[..|es| - 1])|
    else Point(es[..|es| - 1], id)
  }

  /** Each sync is behind its bytes in the queue, in the writer, or on file. */
  ghost predicate SyncsBehind(es: seq<Event>, s: State) {
    && (forall p: nat :: p < |s.queue| && s.queue[p].Sync? ==>
          s.queue[p].id in SyncIds(es) && Point(es, s.queue[p].id) <= Received(s) + |QueueText(s.queue[..p])|)
    && (forall id :: id in s.acks ==>
          id in SyncIds(es) && Point(es, id) <= Received(s) && (s.mode.Acking? ==> Point(es, id) <= |s.file|))
    && (forall id :: id in s.acked ==> id in SyncIds(es) && Point(es, id) <= |s.file|)
  }

  lemma PointKept(es: seq<Event>, e: Event, id: nat)
    ensures e != SyncCall(id) ==> Point(es + [e], id) == Point(es, id)
    ensures e == SyncCall(id) ==> Point(es + [e], id) == |Written(es)|
  {
    assert (es + [e])[..|es|] == es;
  }

  lemma OldPoints(es: seq<Event>, e: Event)
    requires e.SyncCall? ==> e.id !in SyncIds(es)
    ensures forall id :: id in SyncIds(es) ==> id in SyncIds(es + [e]) && Point(es + [e], id) == Point(es, id)
  {
    Appended(es, e);
    forall id | id in SyncIds(es) ensures id in SyncIds(es + [e]) && Point(es + [e], id) == Point(es, id) {
      PointKept(es, e, id);
    }
  }

  lemma ProducerSyncs(es: seq<Event>, s: State, e: Event)
    requires Producer(e) && s.open && SyncsBehind(es, s) && (e.SyncCall? ==> e.id !in SyncIds(es))
    requires Total(Next(s, e)) == Written(es + [e])
    ensures SyncsBehind(es + [e], Next(s, e))
  {
    hide QueueText, Next, Point, SyncIds;
    var t := Next(s, e);
    ProducerQueue(s, e);
    NewMessages(s, e);
    OldPoints(es, e);
    forall p: nat | p < |t.queue| && t.queue[p].Sync?
      ensures t.queue[p].id in SyncIds(es + [e])
      ensures Point(es + [e], t.queue[p].id) <= Received(t) + |QueueText(t.queue[..p])|
    {
      if p < |s.queue| {
        assert t.queue[..p] == s.queue[..p];
        assert t.queue[p] == s.queue[p];
      } else {
        Appended(es, e);
        PointKept(es, e, e.id);
        assert t.queue[..p + 1] == t.queue;
        PrefixText(t.queue, p);
      }
    }
  }

  /** The one sync message a producer step can add is its own, last and after everything buffered. */
  lemma NewMessages(s: State, e: Event)
    requires Producer(e) && s.open
    ensures var t := Next(s, e);
      && t.acks == s.acks && t.acked == s.acked && t.mode == s.mode
      && forall p: nat :: |s.queue| <= p < |t.queue| && t.queue[p].Sync? ==> e == SyncCall(t.queue[p].id) && p == |t.queue| - 1
  {}

  lemma WorkerSyncs(es: seq<Event>, s: State, e: Event)
    requires !Producer(e) && SyncsBehind(es, s)
    requires Inv(s)
    ensures SyncsBehind(es + [e], Next(s, e))
  {
    hide QueueText, Point, SyncIds, Next, Inv;
    OldPoints(es, e);
    WorkerQueue(s, e);
    WorkerAcks(s, e);
    var t := Next(s, e);
    forall p: nat | p < |t.queue| && t.queue[p].Sync?
      ensures t.queue[p].id in SyncIds(es + [e])
      ensures Point(es + [e], t.queue[p].id) <= Received(t) + |QueueText(t.queue[..p])|
    {
      if t.queue != s.queue {
        assert t.queue[p] == s.queue[p + 1];
        assert s.queue[..p + 1] == [s.queue[0]] + t.queue[..p];
        QueuePop(s.queue[0], t.queue[..p]);
      }
    }
    NoText();
    if s.queue != [] { assert s.queue[..0] == []; }
  }

  /** An acknowledgement moves from the queue to the held ones, and from those on only once flushed. */
  lemma WorkerAcks(s: State, e: Event)
    requires !Producer(e) && Inv(s)
    ensures var t := Next(s, e);
      && (forall id :: id in t.acks ==> id in s.acks || (s.queue != [] && s.queue[0] == Sync(id)))
      && (t.mode.Acking? ==> t.cache == [] && forall id :: id in t.acks ==> id in s.acks)
      && (forall id :: id in t.acked ==> id in s.acked || (id in s.acks && s.mode.Acking?))
      && |s.file| <= |t.file|
  {
    hide QueueText, Dispatch, Take;
    if s.queue != [] { TakeAcks(s); }
  }

  lemma TakeAcks(s: State)
    requires s.queue != []
    ensures var t := Take(s);
      && (forall id :: id in t.acks ==> id in s.acks || s.queue[0] == Sync(id)) && !t.mode.Acking?
      && t.acked == s.acked && t.file == s.file
  {}

  lemma NoText()
    ensures QueueText([]) == []
  {}

  lemma {:induction false} RunSyncs(es: seq<Event>)
    requires Disciplined(es)
    ensures SyncsBehind(es, Run(es))
  {
    hide Next, QueueText, Disciplined, Total, Inv, Point, SyncIds;
    if es != [] {
      var n := |es| - 1;
      var pre, e := es[..n], es[n];
      assert es == pre + [e];
      Shorter(pre, e);
      RunSyncs(pre);
      RunFacts(pre);
      RunFacts(es);
      hide SyncsBehind;
      if Producer(e) { ProducerSyncs(pre, Run(pre), e); } else { WorkerSyncs(pre, Run(pre), e); }
    }
  }

  lemma {:induction false} PointOf(before: seq<Event>, id: nat, after: seq<Event>)
    requires id !in SyncIds(after)
    ensures Point(before + [SyncCall(id)] + after, id) == |Written(before)|
    ensures Written(before) <= Written(before + [SyncCall(id)] + after)
  {
    if after == [] {
      assert before + [SyncCall(id)] + after == before + [SyncCall(id)];
      PointKept(before, SyncCall(id), id);
      Appended(before, SyncCall(id));
    } else {
      var r, e := after[..|after| - 1], after[|after| - 1];
      assert after == r + [e];
      PointOf(before, id, r);
      assert before + [SyncCall(id)] + after == (before + [SyncCall(id)] + r) + [e];
      PointKept(before + [SyncCall(id)] + r, e, id);
      Appended(before + [SyncCall(id)] + r, e);
    }
  }

  /** A sync is acknowledged only after every byte written before it is on file. */
  lemma {:induction false} SyncIsBarrier(before: seq<Event>, id: nat, after: seq<Event>)
    requires Disciplined(before + [SyncCall(id)] + after)
    requires id in Run(before + [SyncCall(id)] + after).acked
    ensures Written(before) <= Run(before + [SyncCall(id)] + after).file
  {
    var es := before + [SyncCall(id)] + after;
    forall i | 0 <= i < |after| ensures after[i] != SyncCall(id) {
      assert es[|before|] == SyncCall(id) && es[|before| + 1 + i] == after[i];
    }
    IdsAre(after, id);
    hide Run, Written, Point, SyncIds, Disciplined;
    RunSyncs(es);
    RunFacts(es);
    PointOf(before, id, after);
    SamePrefix(Written(before), Run(es).file, Written(es));
  }

  lemma SamePrefix(x: Bytes, y: Bytes, z: Bytes)
    requires x <= z && y <= z && |x| <= |y|
    ensures x <= y
  {}

  /* ---- the worker always catches up ---- */

  function ModeRank(m: Mode): nat {
    match m
    case Draining => 4
    case Flushing(_) => 3
    case Acking(_) => 2
    case Final => 1
    case _ => 0
  }

  /** Bounds the worker steps left before it blocks or ends. */
  function Rank(s: State): nat {
    if Quiet(s) then 0 else 8 * |s.queue| + 2 * |s.acks| + ModeRank(s.mode)
  }

  predicate Quiet(s: State) {
    s.mode.Done? || (s.mode.Idle? && s.queue == [])
  }

  lemma RankFalls(s: State)
    ensures if Quiet(s) then WorkStep(s) == s else Rank(WorkStep(s)) < Rank(s)
  {}

  function Works(n: nat): (es: seq<Event>)
    ensures |es| == n && forall e :: e in es ==> e == Work
  {
    seq(n, i => Work)
  }

  lemma StillDisciplined(es: seq<Event>)
    requires Disciplined(es)
    ensures Disciplined(es + [Work])
  {}

  /** Left alone, the worker comes to rest. */
  lemma {:induction false} ComesToRest(es: seq<Event>, n: nat)
    requires Disciplined(es) && Rank(Run(es)) <= n
    ensures Quiet(Run(es + Works(n))) && Disciplined(es + Works(n))
    ensures Written(es + Works(n)) == Written(es) && SyncIds(es + Works(n)) == SyncIds(es)
    decreases n
  {
    hide Run, Written, SyncIds, Disciplined, WorkStep;
    var s := Run(es);
    RankFalls(s);
    if n == 0 {
      assert es + Works(0) == es;
    } else {
      Appended(es, Work);
      StillDisciplined(es);
      assert Written(es) + [] == Written(es) && SyncIds(es) + {} == SyncIds(es);
      ComesToRest(es + [Work], n - 1);
      assert es + [Work] + Works(n - 1) == es + Works(n);
    }
  }

  /** No sync is lost: it is queued, held, or acknowledged. */
  ghost predicate SyncsKept(es: seq<Event>, s: State) {
    forall id :: id in SyncIds(es) ==> id in s.acked || id in s.acks || Sync(id) in s.queue
  }

  lemma SyncsMove(s: State, e: Event, id: nat)
    requires s.open || !Producer(e)
    requires id in s.acked || id in s.acks || Sync(id) in s.queue || e == SyncCall(id)
    ensures var t := Next(s, e); id in t.acked || id in t.acks || Sync(id) in t.queue
  {
    hide WorkStep, FreshFrom;
    if e.Work? { WorkMoves(s, id); }
  }

  lemma WorkMoves(s: State, id: nat)
    requires id in s.acked || id in s.acks || Sync(id) in s.queue
    ensures var t := WorkStep(s); id in t.acked || id in t.acks || Sync(id) in t.queue
  {
    hide Take;
    if s.queue != [] { TakeMoves(s, id); }
    if s.acks != [] { assert s.acks == [s.acks[0]] + s.acks[1..]; }
  }

  lemma TakeMoves(s: State, id: nat)
    requires s.queue != [] && (id in s.acked || id in s.acks || Sync(id) in s.queue)
    ensures var t := Take(s); id in t.acked || id in t.acks || Sync(id) in t.queue
  {
    assert s.queue == [s.queue[0]] + s.queue[1..];
  }

  lemma {:induction false} SyncsNotLost(es: seq<Event>)
    requires Disciplined(es)
    ensures SyncsKept(es, Run(es))
  {
    hide Next, Disciplined, Inv, Total;
    if es != [] {
      var n := |es| - 1;
      var pre, e := es[..n], es[n];
      assert es == pre + [e];
      Shorter(pre, e);
      SyncsNotLost(pre);
      RunFacts(pre);
      Appended(pre, e);
      forall id | id in SyncIds(es)
        ensures id in Run(es).acked || id in Run(es).acks || Sync(id) in Run(es).queue
      {
        SyncsMove(Run(pre), e, id);
      }
    }
  }

  /**
   No sync waits forever, and a quiet worker holds nothing back: everything
   dispatched is on file, and a dropped sink's worker has ended.
   */
  lemma {:induction false} EverySyncReturns(es: seq<Event>)
    requires Disciplined(es)
    ensures var t := Run(es + Works(Rank(Run(es))));
      && SyncIds(es) <= t.acked && t.file + t.buf == Written(es)
      && ((exists e :: e in es && e.Drop?) ==> t.mode.Done? && t.file == Written(es))
  {
    hide Run, Written, SyncIds, Disciplined, Rank;
    var n := Rank(Run(es));
    ComesToRest(es, n);
    var all := es + Works(n);
    SyncsNotLost(all);
    RunFacts(all);
    AtRest(Run(all));
    if e :| e in es && e.Drop? { assert e in all; }
  }

  /** The calls that hand over everything buffered. */
  predicate Flushes(e: Event) { e == Flush || e == FlushIfStale(true) || e.SyncCall? }

  lemma FlushEmpties(s: State, e: Event)
    requires Flushes(e) && s.open
    ensures Next(s, e).buf == []
  {}

  lemma WorkLeavesBuffer(s: State)
    ensures WorkStep(s).buf == s.buf
  {}

  lemma {:induction false} RestLeavesBuffer(es: seq<Event>, n: nat)
    ensures Run(es + Works(n)).buf == Run(es).buf
    decreases n
  {
    hide Run, WorkStep;
    if n == 0 {
      assert es + Works(0) == es;
    } else {
      Appended(es, Work);
      WorkLeavesBuffer(Run(es));
      RestLeavesBuffer(es + [Work], n - 1);
      assert es + [Work] + Works(n - 1) == es + Works(n);
    }
  }

  /** After a flush, a stale flush or a sync the worker puts everything written so far on file by itself. */
  lemma {:induction false} FlushReachesFile(es: seq<Event>, e: Event)
    requires Disciplined(es + [e]) && Flushes(e)
    ensures var t := Run(es + [e] + Works(Rank(Run(es + [e])))); t.file == Written(es)
  {
    hide Run, Written, Disciplined, Rank, Inv, Total;
    var all := es + [e];
    Shorter(es, e);
    RunFacts(es);
    Appended(es, e);
    FlushEmpties(Run(es), e);
    EverySyncReturns(all);
    RestLeavesBuffer(all, Rank(Run(all)));
    assert Written(es) + [] == Written(es);
  }

  /** Between calls less than the threshold is buffered. */
  lemma {:induction false} BufferBounded(es: seq<Event>)
    requires Disciplined(es)
    ensures |Run(es).buf| < FLUSH_THRESHOLD
  {
    hide Disciplined, Inv, Total;
    if es != [] {
      var n := |es| - 1;
      var pre, e := es[..n], es[n];
      assert es == pre + [e];
      Shorter(pre, e);
      BufferBounded(pre);
      RunFacts(pre);
      hide Run, WorkStep;
      Appended(pre, e);
      if e.Work? { WorkLeavesBuffer(Run(pre)); }
      StepBounded(Run(pre), e);
    }
  }

  lemma StepBounded(s: State, e: Event)
    requires |s.buf| < FLUSH_THRESHOLD && (s.open || !Producer(e))
    ensures |Next(s, e).buf| < FLUSH_THRESHOLD
  {
    hide Take;
    if e.Work? { WorkLeavesBuffer(s); }
  }

  lemma AtRest(s: State)
    requires Inv(s) && Quiet(s)
    ensures s.queue == [] && s.acks == [] && Total(s) == s.file + s.buf
    ensures !s.open ==> s.mode.Done? && s.buf == []
  {}

  /* ---- the sink itself ---- */

  class Sink {
    var buf: Bytes
    var open: bool
    var recycle: seq<Bytes>
    var queue: seq<Msg>
    var mode: Mode
    var acks: seq<nat>
    var acked: set<nat>
    var cache: Bytes
    var file: Bytes

    function View(): State
      reads this
    {
      State(buf, open, recycle, queue, mode, acks, acked, cache, file)
    }

    constructor Threaded()
      ensures View() == Start
    {
      buf, open, recycle, queue, mode := [], true, [], [], Idle;
      acks, acked, cache, file := [], {}, [], [];
    }

    /** Take a returned buffer if there is one, else allocate; empty either way. */
    method FreshBuf() returns (b: Bytes)
      modifies this`recycle
      ensures b == [] && (b, recycle) == FreshFrom(old(recycle))
    {
      b := [];
      if recycle != [] {
        b, recycle := recycle[0], recycle[1..];
        b := Cleared(b);
      }
    }

    method SendBuffer()
      modifies this`buf, this`recycle, this`queue
      ensures View() == Dispatch(old(View()))
    {
      var chunk := buf;
      buf := FreshBuf();
      queue := queue + [Chunk(chunk)];
    }

    method WriteBytes(data: Bytes)
      modifies this
      ensures View() == Next(old(View()), Write(data))
    {
      if !open { return; }
      buf := buf + data;
      if |buf| >= FLUSH_THRESHOLD { SendBuffer(); }
    }

    /** The text and its newline go in before any dispatch is considered. */
    method WriteLnStr(text: Bytes, stale: bool)
      modifies this
      ensures View() == Next(old(View()), WriteLine(text, stale))
    {
      buf := buf + text;
      buf := buf + "\n";
      LineFlush(stale);
    }

    method LineFlush(stale: bool)
      modifies this
      ensures View() == if old(open && buf != [] && (|buf| >= FLUSH_THRESHOLD || stale)) then Dispatch(old(View())) else old(View())
    {
      if !open || buf == [] { return; }
      if |buf| < FLUSH_THRESHOLD && !stale { return; }
      SendBuffer();
    }

    method FlushAll()
      modifies this
      ensures View() == Next(old(View()), Flush)
    {
      if open && buf != [] { SendBuffer(); }
    }

    method FlushIfStaleNow(stale: bool)
      modifies this
      ensures View() == Next(old(View()), FlushIfStale(stale))
    {
      if stale && buf != [] { FlushAll(); }
    }

    /** Flush and queue the barrier; the caller then waits for `id` to be acknowledged. */
    method SyncAll(id: nat)
      modifies this
      ensures View() == Next(old(View()), SyncCall(id))
    {
      FlushAll();
      if open { queue := queue + [Sync(id)]; }
    }

    method DropSink()
      modifies this
      ensures View() == Next(old(View()), Drop)
    {
      FlushAll();
      if open {
        queue := queue + [Shutdown];
        open := false;
      }
    }

    /** Take one message off the channel: `recv` when idle, `try_recv` when draining. */
    method Receive()
      requires queue != [] && (mode.Idle? || mode.Draining?)
      modifies this
      ensures View() == WorkStep(old(View()))
    {
      var m := queue[0];
      queue := queue[1..];
      if m.Chunk? {
        var bytes := m.bytes;
        cache := cache + bytes;
        bytes := Cleared(bytes);
        recycle := recycle + [bytes];
        mode := Draining;
      } else if m.Sync? {
        acks := acks + [m.id];
        mode := Draining;
      } else {
        mode := if mode.Idle? then Final else Flushing(true);
      }
    }

    /** One flush makes everything absorbed visible; then every waiting barrier is released. */
    method FlushThenAck()
      requires mode.Flushing? && Inv(View())
      modifies this
      ensures Inv(View()) && Total(View()) == old(Total(View())) && open == old(open) && queue == old(queue)
      ensures mode == (if old(mode.stop) then Final else Idle) && acks == [] && cache == []
      ensures acked == old(acked) + (set id | id in old(acks))
    {
      hide Take, Dispatch, Total, Inv;
      var stop := mode.stop;
      WorkInv(View());
      WorkKeeps(View());
      file, cache, mode := file + cache, [], Acking(stop);
      while acks != []
        invariant Inv(View()) && Total(View()) == old(Total(View())) && mode == Acking(stop)
        invariant open == old(open) && queue == old(queue) && cache == []
        invariant acked + (set id | id in acks) == old(acked) + (set id | id in old(acks))
        decreases |acks|
      {
        WorkInv(View());
        WorkKeeps(View());
        assert acks == [acks[0]] + acks[1..];
        acked, acks := acked + {acks[0]}, acks[1..];
      }
      WorkInv(View());
      WorkKeeps(View());
      mode := if stop then Final else Idle;
    }

    /** `run_threaded_writer` from the point where the producer has dropped the sink. */
    method RunWorker()
      requires Inv(View()) && mode.Idle? && !open
      modifies this
      ensures mode.Done? && queue == [] && acks == [] && file == old(Total(View()))
    {
      hide QueueText, Take, Dispatch;
      var stop := false;
      while !stop
        invariant Inv(View()) && !open && Total(View()) == old(Total(View()))
        invariant mode == if stop then Final else Idle
        decreases |queue| + if stop then 0 else 1
      {
        WorkInv(View());
        WorkKeeps(View());
        TakeTail(View());
        Receive();
        if mode.Final? {
          stop := true;
        } else {
          Drain();
          stop := mode.stop;
          FlushThenAck();
        }
      }
      WorkInv(View());
      WorkKeeps(View());
      file, cache, mode := file + cache, [], Done;
      AtRest(View());
    }

    /** Absorb whatever is already queued. */
    method Drain()
      requires Inv(View()) && mode.Draining?
      modifies this
      ensures Inv(View()) && mode.Flushing? && open == old(open) && Total(View()) == old(Total(View())) && |queue| <= |old(queue)|
    {
      hide QueueText, Take, Dispatch;
      while mode.Draining? && queue != []
        invariant Inv(View()) && open == old(open) && Total(View()) == old(Total(View()))
        invariant |queue| <= |old(queue)| && (mode.Draining? || mode.Flushing?)
        decreases |queue|
      {
        WorkInv(View());
        WorkKeeps(View());
        TakeTail(View());
        Receive();
      }
      if mode.Draining? {
        WorkInv(View());
        mode := Flushing(false);
      }
    }

    method SpillSome(n: nat)
      modifies this`cache, this`file
      ensures View() == Next(old(View()), Spill(n))
    {
      var k := if n < |cache| then n else |cache|;
      file, cache := file + cache[..k], cache[k..];
    }
  }

  lemma TakeTail(s: State)
    requires s.queue != []
    ensures Take(s).queue == s.queue[1..]
    ensures s.mode.Idle? ==> Take(s).mode.Final? || Take(s).mode.Draining?
    ensures s.mode.Draining? ==> Take(s).mode.Flushing? || Take(s).mode.Draining?
  {}
}
