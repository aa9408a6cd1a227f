module VcdSink {
  // The dump sink: a producer that buffers bytes and value records, a first-in
  // first-out channel, and a worker that renders and writes what it receives.

  import opened Names
  import opened Values
  import opened Planes
  import opened ValueMove
  import opened VcdVector
  import Decimal

  const COMMIT_THRESHOLD: nat := 32 * 1024
  const VCD_BATCH_FLUSH: nat := 256

  type Bytes = string

  datatype VcdTimestep = VcdTimestep(time: Option<nat>, changes: seq<(string, Value)>)

  /** A trace slot, known here only by the bytes it renders to. */
  datatype XtraceTimestep = XtraceTimestep(rendered: Bytes)

  datatype WorkerMsg =
    | Chunk(bytes: Bytes)
    | VcdBatch(vcd: seq<VcdTimestep>)
    | XtraceBatch(xt: seq<XtraceTimestep>)
    | FlushMsg
    | Shutdown

  /* ---- rendering ---- */

  function ValueRecord(v: Value, id: string): Bytes {
    if v.width == 1 then [CharOf(GetBit(v, 0))] + id + "\n" else "b" + VectorText(v) + " " + id + "\n"
  }

  function ChangesText(cs: seq<(string, Value)>): Bytes {
    if cs == [] then [] else ChangesText(cs[..|cs| - 1]) + ValueRecord(cs[|cs| - 1].1, cs[|cs| - 1].0)
  }

  function TimeText(t: Option<nat>): Bytes {
    match t case None => [] case Some(n) => "#" + Decimal.Digits(n) + "\n"
  }

  function StepText(ts: VcdTimestep): Bytes { TimeText(ts.time) + ChangesText(ts.changes) }

  function VcdText(recs: seq<VcdTimestep>): Bytes {
    if recs == [] then [] else VcdText(recs[..|recs| - 1]) + StepText(recs[|recs| - 1])
  }

  function XtraceText(recs: seq<XtraceTimestep>): Bytes {
    if recs == [] then [] else XtraceText(recs[..|recs| - 1]) + recs[|recs| - 1].rendered
  }

  function MsgText(m: WorkerMsg): Bytes {
    match m
    case Chunk(b) => b
    case VcdBatch(recs) => VcdText(recs)
    case XtraceBatch(recs) => XtraceText(recs)
    case _ => []
  }

  function QueueText(q: seq<WorkerMsg>): Bytes {
    if q == [] then [] else QueueText(q[..|q| - 1]) + MsgText(q[|q| - 1])
  }

  /* ---- the system ---- */

  /** `cache` is what the worker's buffered writer holds, `file` what it has written out. */
  datatype State = State(
    buf: Bytes, pending: seq<VcdTimestep>, pendingXt: seq<XtraceTimestep>, open: bool,
    queue: seq<WorkerMsg>, cache: Bytes, file: Bytes, running: bool)

  datatype Event =
    | Write(data: Bytes)
    | PostVcd(ts: VcdTimestep)
    | PostXtrace(xt: XtraceTimestep)
    | Commit
    | Flush
    | Drop
    | Receive
    | Spill(n: nat)

  predicate Producer(e: Event) { !e.Receive? && !e.Spill? }

  const Start: State := State([], [], [], true, [], [], [], true)

  function SendChunk(s: State): State {
    if s.buf == [] then s else s.(queue := s.queue + [Chunk(s.buf)], buf := [])
  }

  function SendVcd(s: State): State {
    if s.pending == [] then s else s.(queue := s.queue + [VcdBatch(s.pending)], pending := [])
  }

  function SendXtrace(s: State): State {
    if s.pendingXt == [] then s else s.(queue := s.queue + [XtraceBatch(s.pendingXt)], pendingXt := [])
  }

  /** `dispatch_batches`. */
  function Dispatch(s: State): State { SendXtrace(SendVcd(s)) }

  function Handle(s: State, m: WorkerMsg): State {
    match m
    case FlushMsg => s.(file := s.file + s.cache, cache := [])
    case Shutdown => s.(file := s.file + s.cache, cache := [], running := false)
    case _ => s.(cache := s.cache + MsgText(m))
  }

  /** One step of the producer, of the worker, or of the worker's buffered writer. */
  function Next(s: State, e: Event): State {
    match e
    case Write(data) => (if s.open then Dispatch(s) else s).(buf := (if s.open then Dispatch(s) else s).buf + data)
    case PostVcd(ts) =>
      if !s.open then s else
        var c := SendChunk(s);
        var p := c.(pending := c.pending + [ts]);
        if |p.pending| >= VCD_BATCH_FLUSH then SendVcd(p) else p
    case PostXtrace(xt) =>
      if !s.open then s else
        var c := SendChunk(s);
        var p := c.(pendingXt := c.pendingXt + [xt]);
        if |p.pendingXt| >= VCD_BATCH_FLUSH then SendXtrace(p) else p
    case Commit =>
      if !s.open then s else
        var c := if |s.buf| >= COMMIT_THRESHOLD then SendChunk(s) else s;
        var v := if |c.pending| >= VCD_BATCH_FLUSH then SendVcd(c) else c;
        if |v.pendingXt| >= VCD_BATCH_FLUSH then SendXtrace(v) else v
    case Flush =>
      if !s.open then s else
        var d := Dispatch(SendChunk(s));
        d.(queue := d.queue + [FlushMsg])
    case Drop =>
      if !s.open then s else
        var d := Dispatch(SendChunk(s));
        d.(queue := d.queue + [Shutdown], open := false)
    case Receive =>
      if !s.running || s.queue == [] then s else Handle(s.(queue := s.queue[1..]), s.queue[0])
    case Spill(n) =>
      var k := Min(n, |s.cache|);
      s.(file := s.file + s.cache[..k], cache := s.cache[k..])
  }

  function Run(es: seq<Event>): State {
    if es == [] then Start else Next(Run(es[..|es| - 1]), es[|es| - 1])
  }

  /* ---- the inline sink ---- */

  function EventText(e: Event): Bytes {
    match e
    case Write(data) => data
    case PostVcd(ts) => StepText(ts)
    case PostXtrace(xt) => xt.rendered
    case _ => []
  }

  /** What an inline sink has accepted after the same calls. */
  function InlineText(es: seq<Event>): Bytes {
    if es == [] then [] else InlineText(es[..|es| - 1]) + EventText(es[|es| - 1])
  }

  /** Nobody uses a dropped sink. */
  ghost predicate DropsLast(es: seq<Event>) {
    forall i, j :: 0 <= i < j < |es| && es[i].Drop? ==> !Producer(es[j])
  }

  /** A sink carries one record kind, and nobody uses a dropped sink. */
  ghost predicate Disciplined(es: seq<Event>) {
    ((forall e :: e in es ==> !e.PostVcd?) || (forall e :: e in es ==> !e.PostXtrace?)) && DropsLast(es)
  }

  /* ---- safety over whole runs ---- */

  /** Everything accepted, wherever it is now. */
  function Total(s: State): Bytes {
    s.file + s.cache + QueueText(s.queue) + s.buf + VcdText(s.pending) + XtraceText(s.pendingXt)
  }

  /** Bytes and records are never buffered together, nor are two record kinds. */
  predicate OneBuffer(s: State) {
    (s.buf == [] || (s.pending == [] && s.pendingXt == [])) && (s.pending == [] || s.pendingXt == [])
  }

  /** Shutdown is queued exactly between the drop and its receipt, and is the last message. */
  predicate ShutdownLast(s: State) {
    && (forall i :: 0 <= i < |s.queue| - 1 ==> s.queue[i] != Shutdown)
    && (s.open ==> s.running && (s.queue != [] ==> s.queue[|s.queue| - 1] != Shutdown))
    && (!s.open ==> s.buf == [] && s.pending == [] && s.pendingXt == [])
    && (!s.open && s.running ==> s.queue != [] && s.queue[|s.queue| - 1] == Shutdown)
    && (!s.running ==> s.queue == [] && s.cache == [])
  }

  predicate Inv(s: State) { OneBuffer(s) && ShutdownLast(s) }

  lemma Regroup(x: Bytes, y: Bytes, z: Bytes)
    ensures (x + y) + z == x + (y + z)
  {}

  lemma {:induction false} QueueAppend(p: seq<WorkerMsg>, q: seq<WorkerMsg>)
    ensures QueueText(p + q) == QueueText(p) + QueueText(q)
  {
    hide MsgText;
    if q == [] {
      assert p + q == p;
    } else {
      var r, m := q[..|q| - 1], q[|q| - 1];
      QueueAppend(p, r);
      assert p + q == (p + r) + [m];
      hide QueueText;
      QueueSnoc(p + r, m);
      assert q == r + [m];
      QueueSnoc(r, m);
      Regroup(QueueText(p), QueueText(r), MsgText(m));
    }
  }

  lemma QueueSnoc(q: seq<WorkerMsg>, m: WorkerMsg)
    ensures QueueText(q + [m]) == QueueText(q) + MsgText(m)
  {
    assert (q + [m])[..|q|] == q;
  }

  lemma VcdSnoc(recs: seq<VcdTimestep>, ts: VcdTimestep)
    ensures VcdText(recs + [ts]) == VcdText(recs) + StepText(ts)
  {
    assert (recs + [ts])[..|recs|] == recs;
  }

  lemma XtraceSnoc(recs: seq<XtraceTimestep>, xt: XtraceTimestep)
    ensures XtraceText(recs + [xt]) == XtraceText(recs) + xt.rendered
  {
    assert (recs + [xt])[..|recs|] == recs;
  }

  /** Sends move bytes from a buffer to the queue without reordering anything. */
  lemma SendsKeep(s: State)
    requires OneBuffer(s)
    ensures Total(SendChunk(s)) == Total(s) && SendChunk(s).buf == []
    ensures s.buf == [] ==> Total(SendVcd(s)) == Total(s) && SendVcd(s).pending == []
    ensures s.buf == [] && s.pending == [] ==> Total(SendXtrace(s)) == Total(s) && SendXtrace(s).pendingXt == []
  {
    hide Total, VcdText, XtraceText;
    EmptyTexts();
    if s.buf != [] {
      MessageJoins(s, Chunk(s.buf));
    } else if s.pending != [] {
      MessageJoins(s, VcdBatch(s.pending));
    } else if s.pendingXt != [] {
      MessageJoins(s, XtraceBatch(s.pendingXt));
    }
  }

  /** A message that holds all that is buffered. */
  lemma MessageJoins(s: State, m: WorkerMsg)
    requires MsgText(m) == s.buf + VcdText(s.pending) + XtraceText(s.pendingXt)
    ensures Total(s.(queue := s.queue + [m], buf := [], pending := [], pendingXt := [])) == Total(s)
  {
    hide QueueText, VcdText, XtraceText, MsgText;
    EmptyTexts();
    QueueSnoc(s.queue, m);
  }

  lemma EmptyTexts()
    ensures VcdText([]) == [] && XtraceText([]) == [] && QueueText([]) == []
  {}

  /** After a dispatch no record is pending; buffered bytes were there only if no record was. */
  lemma DispatchKeeps(s: State)
    requires OneBuffer(s)
    ensures Total(Dispatch(s)) == Total(s) && Dispatch(s).pending == [] && Dispatch(s).pendingXt == []
    ensures Dispatch(s).buf == s.buf
  {
    hide Total;
    if s.buf == [] {
      SendsKeep(s);
      SendsKeep(SendVcd(s));
    }
  }

  lemma BytesJoin(s: State, data: Bytes)
    requires s.pending == [] && s.pendingXt == []
    ensures Total(s.(buf := s.buf + data)) == Total(s) + data
  {
    hide QueueText;
    EmptyTexts();
  }

  lemma VcdJoins(s: State, ts: VcdTimestep)
    requires s.buf == [] && s.pendingXt == []
    ensures Total(s.(pending := s.pending + [ts])) == Total(s) + StepText(ts)
  {
    hide QueueText, VcdText, XtraceText, StepText;
    EmptyTexts();
    VcdSnoc(s.pending, ts);
  }

  lemma XtraceJoins(s: State, xt: XtraceTimestep)
    ensures Total(s.(pendingXt := s.pendingXt + [xt])) == Total(s) + xt.rendered
  {
    hide QueueText, VcdText, XtraceText;
    XtraceSnoc(s.pendingXt, xt);
  }

  lemma SignalJoins(s: State, m: WorkerMsg, open: bool)
    requires m.FlushMsg? || m.Shutdown?
    ensures Total(s.(queue := s.queue + [m], open := open)) == Total(s)
  {
    hide QueueText, VcdText, XtraceText;
    QueueSnoc(s.queue, m);
  }

  lemma SpillKeeps(s: State, n: nat)
    ensures Total(Next(s, Spill(n))) == Total(s)
  {
    hide QueueText, VcdText, XtraceText;
    var k := Min(n, |s.cache|);
    assert s.cache == s.cache[..k] + s.cache[k..];
    Regroup(s.file, s.cache[..k], s.cache[k..]);
  }

  lemma NextTotal(s: State, e: Event)
    requires Inv(s) && (s.open || !Producer(e))
    requires e.PostVcd? ==> s.pendingXt == []
    requires e.PostXtrace? ==> s.pending == []
    ensures Total(Next(s, e)) == Total(s) + EventText(e)
  {
    hide QueueText, VcdText, XtraceText, StepText, Total, ShutdownLast;
    SendsKeep(s);
    var c := SendChunk(s);
    match e
    case Write(data) =>
      DispatchKeeps(s);
      BytesJoin(Dispatch(s), data);
    case PostVcd(ts) =>
      VcdJoins(c, ts);
      SendsKeep(c.(pending := c.pending + [ts]));
    case PostXtrace(xt) =>
      XtraceJoins(c, xt);
      SendsKeep(c.(pendingXt := c.pendingXt + [xt]));
    case Commit => CommitKeeps(s);
    case Flush =>
      DispatchKeeps(c);
      SignalJoins(Dispatch(c), FlushMsg, true);
    case Drop =>
      DispatchKeeps(c);
      SignalJoins(Dispatch(c), Shutdown, false);
    case Receive => ReceiveTotal(s);
    case Spill(n) => SpillKeeps(s, n);
  }

  lemma CommitKeeps(s: State)
    requires OneBuffer(s)
    ensures Total(Next(s, Commit)) == Total(s)
  {
    hide Total;
    var c := if |s.buf| >= COMMIT_THRESHOLD then SendChunk(s) else s;
    SendsKeep(s);
    SendsKeep(c);
    SendsKeep(if |c.pending| >= VCD_BATCH_FLUSH then SendVcd(c) else c);
  }

  lemma ReceiveTotal(s: State)
    ensures Total(Next(s, Receive)) == Total(s)
  {
    hide QueueText, VcdText, XtraceText;
    if s.running && s.queue != [] {
      QueueAppend([s.queue[0]], s.queue[1..]);
      QueueSnoc([], s.queue[0]);
      EmptyTexts();
      assert s.queue == [s.queue[0]] + s.queue[1..] && [] + [s.queue[0]] == [s.queue[0]];
    }
  }

  lemma {:induction false} NextInv(s: State, e: Event)
    requires Inv(s) && (s.open || !Producer(e))
    requires e.PostVcd? ==> s.pendingXt == []
    requires e.PostXtrace? ==> s.pending == []
    ensures Inv(Next(s, e))
  {
    hide QueueText, VcdText, XtraceText, StepText, MsgText;
    if e.Receive? { ReceiveInv(s); }
    else if e.Commit? { CommitInv(s); }
    else if e.Flush? || e.Drop? { SignalInv(s, e); }
  }

  /** After a commit neither buffer is past its threshold, and no byte has moved out of order. */
  lemma {:induction false} CommitBounds(s: State)
    requires Inv(s) && s.open
    ensures var t := Next(s, Commit);
      && |t.buf| < COMMIT_THRESHOLD && |t.pending| < VCD_BATCH_FLUSH && |t.pendingXt| < VCD_BATCH_FLUSH
      && Total(t) == Total(s)
  {
    CommitKeeps(s);
  }

  lemma CommitInv(s: State)
    requires Inv(s) && s.open
    ensures Inv(Next(s, Commit))
  {}

  lemma SignalInv(s: State, e: Event)
    requires Inv(s) && s.open && (e.Flush? || e.Drop?)
    ensures Inv(Next(s, e))
  {}

  lemma ReceiveInv(s: State)
    requires Inv(s)
    ensures Inv(Next(s, Receive))
  {
    hide MsgText;
  }

  /** Which record kinds a run has posted is visible in what is pending. */
  lemma {:induction false} RunFacts(es: seq<Event>)
    requires Disciplined(es)
    ensures Inv(Run(es)) && Total(Run(es)) == InlineText(es)
    ensures (forall e :: e in es ==> !e.PostVcd?) ==> Run(es).pending == []
    ensures (forall e :: e in es ==> !e.PostXtrace?) ==> Run(es).pendingXt == []
    ensures Run(es).open <==> forall e :: e in es ==> !e.Drop?
  {
    hide Total, Next;
    if es == [] {
      StartTotal();
    } else {
      var n := |es| - 1;
      var pre, e := es[..n], es[n];
      assert es == pre + [e];
      RunFacts(pre);
      var s := Run(pre);
      NextTotal(s, e);
      NextInv(s, e);
      NextPending(s, e);
    }
  }

  lemma StartTotal()
    ensures Total(Start) == [] && Inv(Start)
  {}

  lemma NextPending(s: State, e: Event)
    ensures s.pending == [] && !e.PostVcd? ==> Next(s, e).pending == []
    ensures s.pendingXt == [] && !e.PostXtrace? ==> Next(s, e).pendingXt == []
    ensures Next(s, e).open == (s.open && !e.Drop?)
  {
    hide QueueText, VcdText, XtraceText, StepText;
  }

  /** The threaded sink refines the inline one: what is written is always a prefix of the inline output. */
  lemma {:induction false} Refinement(es: seq<Event>)
    requires Disciplined(es)
    ensures OneBuffer(Run(es))
    ensures Total(Run(es)) == InlineText(es) && Run(es).file <= InlineText(es)
  {
    RunFacts(es);
  }

  /** Once the worker of a dropped sink is done, the file is the inline output. */
  lemma {:induction false} NothingLost(es: seq<Event>)
    requires Disciplined(es) && !Run(es).running
    ensures Run(es).file == InlineText(es)
  {
    RunFacts(es);
  }

  function Receives(n: nat): (es: seq<Event>)
    ensures |es| == n && forall e :: e in es ==> e == Receive
  {
    seq(n, i => Receive)
  }

  lemma ReceiveShrinks(s: State)
    requires ShutdownLast(s) && s.running && !s.open
    ensures s.queue != [] && Next(s, Receive).queue == s.queue[1..] && !Next(s, Receive).open
  {
    hide MsgText;
  }

  lemma StillDisciplined(es: seq<Event>)
    requires Disciplined(es)
    ensures Disciplined(es + [Receive])
  {
    assert forall e :: e in es + [Receive] ==> e in es || e == Receive;
  }

  /** Joining a dropped sink's worker terminates: it stops within as many receipts as messages are queued. */
  lemma {:induction false} JoinReturns(es: seq<Event>)
    requires Disciplined(es) && !Run(es).open
    ensures !Run(es + Receives(|Run(es).queue|)).running
    decreases |Run(es).queue|
  {
    hide Run, InlineText, Total, Next, Disciplined, OneBuffer, ShutdownLast;
    RunFacts(es);
    var s := Run(es);
    if !s.running {
      NoQueue(s);
      assert es + Receives(0) == es;
    } else {
      ReceiveShrinks(s);
      Appended(es, Receive);
      StillDisciplined(es);
      JoinReturns(es + [Receive]);
      assert es + [Receive] + Receives(|s.queue| - 1) == es + Receives(|s.queue|);
    }
  }

  lemma NoQueue(s: State)
    requires ShutdownLast(s) && !s.running
    ensures s.queue == []
  {}

  /* ---- flush is a barrier ---- */

  function FlushesIn(es: seq<Event>): nat {
    if es == [] then 0 else FlushesIn(es[..|es| - 1]) + if es[|es| - 1].Flush? then 1 else 0
  }

  /** How much text lies ahead of each queued flush. */
  function Barriers(base: nat, q: seq<WorkerMsg>): seq<nat> {
    if q == [] then [] else
      Barriers(base, q[..|q| - 1]) + if q[|q| - 1].FlushMsg? then [base + |QueueText(q)|] else []
  }

  /** How much text had been accepted at each flush. */
  function FlushPoints(es: seq<Event>): seq<nat> {
    if es == [] then [] else
      FlushPoints(es[..|es| - 1]) + if es[|es| - 1].Flush? then [|InlineText(es)|] else []
  }

  /** The last flush points are the queued barriers; all earlier ones are on file. */
  ghost predicate BarriersKept(s: State, points: seq<nat>) {
    var b := Barriers(|s.file| + |s.cache|, s.queue);
    && |b| <= |points| && points[|points| - |b|..] == b
    && forall i :: 0 <= i < |points| - |b| ==> points[i] <= |s.file|
  }

  lemma BarriersSnoc(base: nat, q: seq<WorkerMsg>, m: WorkerMsg)
    ensures Barriers(base, q + [m]) == Barriers(base, q) + if m.FlushMsg? then [base + |QueueText(q)|] else []
  {
    hide QueueText;
    assert (q + [m])[..|q|] == q;
    if m.FlushMsg? { QueueSnoc(q, m); }
  }

  lemma {:induction false} BarriersPop(base: nat, m: WorkerMsg, q: seq<WorkerMsg>)
    ensures Barriers(base, [m] + q) == (if m.FlushMsg? then [base] else []) + Barriers(base + |MsgText(m)|, q)
  {
    hide MsgText;
    QueueSnoc([], m);
    assert [] + [m] == [m];
    if q == [] {
      assert [m] + q == [m];
      BarriersSnoc(base, [], m);
    } else {
      var r, x := q[..|q| - 1], q[|q| - 1];
      BarriersPop(base, m, r);
      PopStep(base, m, r, x);
      assert [m] + q == ([m] + r) + [x] && q == r + [x];
    }
  }

  lemma PopStep(base: nat, m: WorkerMsg, r: seq<WorkerMsg>, x: WorkerMsg)
    requires Barriers(base, [m] + r) == (if m.FlushMsg? then [base] else []) + Barriers(base + |MsgText(m)|, r)
    ensures Barriers(base, [m] + r + [x]) == (if m.FlushMsg? then [base] else []) + Barriers(base + |MsgText(m)|, r + [x])
  {
    hide Barriers, QueueText, MsgText;
    BarriersSnoc(base, [m] + r, x);
    BarriersSnoc(base + |MsgText(m)|, r, x);
    QueueAppend([m], r);
    QueueSnoc([], m);
    assert [] + [m] == [m] && QueueText([]) == [] by { EmptyTexts(); }
  }

  /** Sends other than a flush leave the barriers alone. */
  lemma SendsKeepBarriers(s: State, base: nat)
    ensures Barriers(base, SendChunk(s).queue) == Barriers(base, s.queue)
    ensures Barriers(base, SendVcd(s).queue) == Barriers(base, s.queue)
    ensures Barriers(base, SendXtrace(s).queue) == Barriers(base, s.queue)
  {
    hide QueueText, Barriers;
    BarriersSnoc(base, s.queue, Chunk(s.buf));
    BarriersSnoc(base, s.queue, VcdBatch(s.pending));
    BarriersSnoc(base, s.queue, XtraceBatch(s.pendingXt));
  }

  lemma ProducerBarriers(s: State, e: Event, base: nat)
    requires Producer(e) && s.open && OneBuffer(s)
    ensures Barriers(base, Next(s, e).queue)
         == Barriers(base, s.queue) + if e.Flush? then [base + |QueueText(Next(s, e).queue)|] else []
    ensures Next(s, e).file == s.file && Next(s, e).cache == s.cache
    ensures e.Flush? ==> Next(s, e).buf == [] && Next(s, e).pending == [] && Next(s, e).pendingXt == []
  {
    hide QueueText, VcdText, XtraceText, StepText, Barriers, MsgText;
    SendsKeepBarriers(s, base);
    var c := SendChunk(s);
    match e
    case Write(_) => SendsKeepBarriers(SendVcd(s), base);
    case PostVcd(ts) => SendsKeepBarriers(c.(pending := c.pending + [ts]), base);
    case PostXtrace(xt) => SendsKeepBarriers(c.(pendingXt := c.pendingXt + [xt]), base);
    case Commit =>
      var c' := if |s.buf| >= COMMIT_THRESHOLD then c else s;
      SendsKeepBarriers(c', base);
      SendsKeepBarriers(if |c'.pending| >= VCD_BATCH_FLUSH then SendVcd(c') else c', base);
    case Flush => LastBarrier(s, FlushMsg, base);
    case Drop => LastBarrier(s, Shutdown, base);
  }

  lemma LastBarrier(s: State, m: WorkerMsg, base: nat)
    requires m.FlushMsg? || m.Shutdown?
    ensures var d := Dispatch(SendChunk(s));
      Barriers(base, d.queue + [m]) == Barriers(base, s.queue) + if m.FlushMsg? then [base + |QueueText(d.queue + [m])|] else []
  {
    hide QueueText, Barriers;
    var c := SendChunk(s);
    SendsKeepBarriers(s, base);
    SendsKeepBarriers(c, base);
    SendsKeepBarriers(SendVcd(c), base);
    BarriersSnoc(base, Dispatch(c).queue, m);
    QueueSnoc(Dispatch(c).queue, m);
  }

  lemma WorkerBarriers(s: State, e: Event, points: seq<nat>)
    requires !Producer(e) && BarriersKept(s, points)
    ensures BarriersKept(Next(s, e), points)
  {
    hide QueueText, VcdText, XtraceText, Barriers;
    if e.Receive? && s.running && s.queue != [] {
      assert s.queue == [s.queue[0]] + s.queue[1..];
      BarriersPop(|s.file| + |s.cache|, s.queue[0], s.queue[1..]);
    }
  }

  lemma {:induction false} RunBarriers(es: seq<Event>)
    requires Disciplined(es)
    ensures BarriersKept(Run(es), FlushPoints(es))
  {
    hide Total, Next, BarriersKept, QueueText, Barriers, InlineText;
    if es == [] {
      StartBarriers();
    } else {
      var n := |es| - 1;
      var pre, e := es[..n], es[n];
      assert es == pre + [e];
      RunBarriers(pre);
      RunFacts(pre);
      RunFacts(es);
      PointsStep(pre, e);
      if Producer(e) {
        assert forall x :: x in pre ==> !x.Drop?;
        ProducerKeeps(Run(pre), e, FlushPoints(pre), |InlineText(es)|);
      } else {
        WorkerBarriers(Run(pre), e, FlushPoints(pre));
      }
    }
  }

  lemma PointsStep(pre: seq<Event>, e: Event)
    ensures FlushPoints(pre + [e]) == if e.Flush? then FlushPoints(pre) + [|InlineText(pre + [e])|] else FlushPoints(pre)
    ensures Run(pre + [e]) == Next(Run(pre), e)
  {
    hide Next, InlineText;
    var es := pre + [e];
    assert es[..|pre|] == pre;
    assert FlushPoints(pre) + [] == FlushPoints(pre);
  }

  lemma ProducerKeeps(s: State, e: Event, points: seq<nat>, len: nat)
    requires Producer(e) && s.open && OneBuffer(s) && BarriersKept(s, points) && len == |Total(Next(s, e))|
    ensures BarriersKept(Next(s, e), if e.Flush? then points + [len] else points)
  {
    hide Total, Next, QueueText, Barriers, BarriersKept;
    ProducerBarriers(s, e, |s.file| + |s.cache|);
    var b := Barriers(|s.file| + |s.cache|, s.queue);
    assert b + [] == b;
    if e.Flush? { FlushTotal(Next(s, e)); }
    BarrierJoins(s, Next(s, e), points, if e.Flush? then points + [len] else points);
  }

  lemma StartBarriers()
    ensures BarriersKept(Start, [])
  {}

  lemma FlushTotal(s: State)
    requires s.buf == [] && s.pending == [] && s.pendingXt == []
    ensures |Total(s)| == |s.file| + |s.cache| + |QueueText(s.queue)|
  {}

  /** The newly queued barrier is the newest flush point. */
  lemma BarrierJoins(s: State, t: State, points: seq<nat>, points': seq<nat>)
    requires BarriersKept(s, points) && t.file == s.file && t.cache == s.cache
    requires var b, b' := Barriers(|s.file| + |s.cache|, s.queue), Barriers(|t.file| + |t.cache|, t.queue);
      (b' == b && points' == points) || (|b'| == |b| + 1 && b' == b + [b'[|b|]] && points' == points + [b'[|b|]])
    ensures BarriersKept(t, points')
  {
    hide Barriers;
    var b, b' := Barriers(|s.file| + |s.cache|, s.queue), Barriers(|t.file| + |t.cache|, t.queue);
    if b' != b {
      assert points'[|points'| - |b'|..] == points[|points| - |b|..] + [b'[|b|]];
    }
  }

  function FlushesQueued(q: seq<WorkerMsg>): nat {
    if q == [] then 0 else FlushesQueued(q[..|q| - 1]) + if q[|q| - 1].FlushMsg? then 1 else 0
  }

  lemma {:induction false} BarrierCount(base: nat, q: seq<WorkerMsg>)
    ensures |Barriers(base, q)| == FlushesQueued(q)
  {
    if q != [] { BarrierCount(base, q[..|q| - 1]); }
  }

  lemma {:induction false} PointsAppend(p: seq<Event>, q: seq<Event>)
    ensures |FlushPoints(p + q)| == |FlushPoints(p)| + FlushesIn(q)
    ensures FlushPoints(p) <= FlushPoints(p + q) && InlineText(p) <= InlineText(p + q)
  {
    if q == [] {
      assert p + q == p;
    } else {
      PointsAppend(p, q[..|q| - 1]);
      assert (p + q)[..|p + q| - 1] == p + q[..|q| - 1];
    }
  }

  /**
   When no more flushes are queued than were called after this one, it has been
   handled, and all that was accepted before it is on file.
   */
  lemma {:induction false} FlushIsBarrier(before: seq<Event>, after: seq<Event>)
    requires Disciplined(before + [Flush] + after)
    requires FlushesQueued(Run(before + [Flush] + after).queue) <= FlushesIn(after)
    ensures InlineText(before) <= Run(before + [Flush] + after).file
  {
    hide Total, Next, QueueText, Barriers, Inv, Run, InlineText, FlushPoints, Disciplined, FlushesQueued, FlushesIn;
    var upto := before + [Flush];
    var es := upto + after;
    var s := Run(es);
    RunFacts(es);
    RunBarriers(es);
    BarrierCount(|s.file| + |s.cache|, s.queue);
    LastPoint(before);
    PointsAppend(upto, after);
    var i := |FlushPoints(before)|;
    assert FlushPoints(es)[i] == FlushPoints(upto)[i];
    FilePrefix(s);
    ShorterPrefix(InlineText(before), s.file, InlineText(es));
  }

  lemma LastPoint(before: seq<Event>)
    ensures FlushPoints(before + [Flush]) == FlushPoints(before) + [|InlineText(before)|]
    ensures InlineText(before + [Flush]) == InlineText(before)
  {
    var upto := before + [Flush];
    assert upto[..|before|] == before;
    assert InlineText(upto) == InlineText(before) + [];
  }

  lemma ShorterPrefix(x: Bytes, y: Bytes, z: Bytes)
    requires x <= z && y <= z && |x| <= |y|
    ensures x <= y
  {}

  lemma FilePrefix(s: State)
    ensures s.file <= Total(s)
  {}

  /* ---- the sink itself ---- */

  class Sink {
    var buf: Bytes
    var pending: seq<VcdTimestep>
    var pendingXt: seq<XtraceTimestep>
    var open: bool
    var queue: seq<WorkerMsg>
    var cache: Bytes
    var file: Bytes
    var running: bool

    function View(): State
      reads this
    {
      State(buf, pending, pendingXt, open, queue, cache, file, running)
    }

    constructor Threaded()
      ensures View() == Start
    {
      buf, pending, pendingXt, open := [], [], [], true;
      queue, cache, file, running := [], [], [], true;
    }

    method Send(m: WorkerMsg)
      modifies this`queue
      ensures queue == old(queue) + [m]
    {
      queue := queue + [m];
    }

    method SendBuffer()
      modifies this`queue, this`buf
      ensures View() == SendChunk(old(View()))
    {
      if buf != [] {
        Send(Chunk(buf));
        buf := [];
      }
    }

    method DispatchBatches()
      modifies this`queue, this`pending, this`pendingXt
      ensures View() == Dispatch(old(View()))
    {
      if pending != [] {
        Send(VcdBatch(pending));
        pending := [];
      }
      if pendingXt != [] {
        Send(XtraceBatch(pendingXt));
        pendingXt := [];
      }
    }

    method WriteBytes(data: Bytes)
      modifies this
      ensures View() == Next(old(View()), Write(data))
    {
      if open { DispatchBatches(); }
      buf := buf + data;
    }

    method PostVcdChanges(ts: VcdTimestep)
      modifies this
      ensures View() == Next(old(View()), PostVcd(ts))
    {
      if !open { return; }
      SendBuffer();
      pending := pending + [ts];
      if |pending| >= VCD_BATCH_FLUSH {
        Send(VcdBatch(pending));
        pending := [];
      }
    }

    method PostXtraceChanges(xt: XtraceTimestep)
      modifies this
      ensures View() == Next(old(View()), PostXtrace(xt))
    {
      if !open { return; }
      SendBuffer();
      pendingXt := pendingXt + [xt];
      if |pendingXt| >= VCD_BATCH_FLUSH {
        Send(XtraceBatch(pendingXt));
        pendingXt := [];
      }
    }

    method CommitBytes()
      modifies this
      ensures View() == Next(old(View()), Commit)
    {
      if !open { return; }
      if |buf| >= COMMIT_THRESHOLD { SendBuffer(); }
      if |pending| >= VCD_BATCH_FLUSH {
        Send(VcdBatch(pending));
        pending := [];
      }
      if |pendingXt| >= VCD_BATCH_FLUSH {
        Send(XtraceBatch(pendingXt));
        pendingXt := [];
      }
    }

    method FlushAll()
      modifies this
      ensures View() == Next(old(View()), Flush)
    {
      if !open { return; }
      SendBuffer();
      DispatchBatches();
      Send(FlushMsg);
    }

    method DropSink()
      modifies this
      ensures View() == Next(old(View()), Drop)
    {
      if !open { return; }
      SendBuffer();
      DispatchBatches();
      Send(Shutdown);
      open := false;
    }

    /** One turn of the worker's loop; it blocks while the queue is empty. */
    method ReceiveOne()
      requires running && queue != []
      modifies this
      ensures View() == Next(old(View()), Receive)
    {
      var m := queue[0];
      queue := queue[1..];
      match m
      case Chunk(bytes) => cache := cache + bytes;
      case VcdBatch(recs) => RenderVcd(recs);
      case XtraceBatch(recs) => RenderXtrace(recs);
      case FlushMsg => file, cache := file + cache, [];
      case Shutdown => file, cache, running := file + cache, [], false;
    }

    method RenderVcd(recs: seq<VcdTimestep>)
      modifies this`cache
      ensures cache == old(cache) + VcdText(recs)
    {
      hide VcdText, TimeText, ChangesText, ValueRecord;
      EmptyTexts();
      for i := 0 to |recs|
        invariant cache == old(cache) + VcdText(recs[..i])
      {
        NextStep(recs, i);
        cache := cache + TimeText(recs[i].time);
        RenderChanges(recs[i].changes);
      }
      assert recs[..|recs|] == recs;
    }

    method RenderChanges(cs: seq<(string, Value)>)
      modifies this`cache
      ensures cache == old(cache) + ChangesText(cs)
    {
      hide ValueRecord, ChangesText;
      NoChanges();
      for i := 0 to |cs|
        invariant cache == old(cache) + ChangesText(cs[..i])
      {
        NextChange(cs, i);
        cache := cache + ValueRecord(cs[i].1, cs[i].0);
      }
      assert cs[..|cs|] == cs;
    }

    method RenderXtrace(recs: seq<XtraceTimestep>)
      modifies this`cache
      ensures cache == old(cache) + XtraceText(recs)
    {
      for i := 0 to |recs|
        invariant cache == old(cache) + XtraceText(recs[..i])
      {
        assert recs[..i + 1][..i] == recs[..i];
        cache := cache + recs[i].rendered;
      }
      assert recs[..|recs|] == recs;
    }

    /** The buffered writer may hand any part of what it holds to the file. */
    method SpillSome(n: nat)
      modifies this`cache, this`file
      ensures View() == Next(old(View()), Spill(n))
    {
      var k := Min(n, |cache|);
      file, cache := file + cache[..k], cache[k..];
    }
  }

  /** The inline sink renders on the caller's thread. */
  class InlineSink {
    var accepted: Bytes

    constructor ()
      ensures accepted == InlineText([])
    {
      accepted := [];
    }

    method WriteBytes(data: Bytes)
      modifies this
      ensures accepted == old(accepted) + EventText(Write(data))
    {
      accepted := accepted + data;
    }

    method PostVcdChanges(ts: VcdTimestep)
      modifies this
      ensures accepted == old(accepted) + EventText(PostVcd(ts))
    {
      hide ValueRecord, TimeText, ChangesText;
      accepted := accepted + TimeText(ts.time);
      ghost var start := accepted;
      var cs := ts.changes;
      NoChanges();
      for i := 0 to |cs|
        invariant accepted == start + ChangesText(cs[..i])
      {
        NextChange(cs, i);
        accepted := accepted + ValueRecord(cs[i].1, cs[i].0);
      }
      assert cs[..|cs|] == cs;
      Regroup(old(accepted), TimeText(ts.time), ChangesText(cs));
    }

    method PostXtraceChanges(xt: XtraceTimestep)
      modifies this
      ensures accepted == old(accepted) + EventText(PostXtrace(xt))
    {
      accepted := accepted + xt.rendered;
    }
  }

  lemma NoChanges()
    ensures ChangesText([]) == []
  {}

  lemma NextChange(cs: seq<(string, Value)>, i: nat)
    requires i < |cs|
    ensures ChangesText(cs[..i + 1]) == ChangesText(cs[..i]) + ValueRecord(cs[i].1, cs[i].0)
  {
    assert cs[..i + 1][..i] == cs[..i];
  }

  lemma NextStep(recs: seq<VcdTimestep>, i: nat)
    requires i < |recs|
    ensures VcdText(recs[..i + 1]) == VcdText(recs[..i]) + (TimeText(recs[i].time) + ChangesText(recs[i].changes))
  {
    assert recs[..i + 1][..i] == recs[..i];
  }

  lemma Appended(es: seq<Event>, e: Event)
    ensures Run(es + [e]) == Next(Run(es), e) && InlineText(es + [e]) == InlineText(es) + EventText(e)
  {
    hide Next;
    assert (es + [e])[..|es|] == es;
  }
}
