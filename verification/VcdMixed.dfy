module VcdMixed {
  // Two record kinds in one dump sink: exactly which histories still read as the inline ones.

  import opened Names
  import opened Values
  import opened VcdSink

  /** The text of a step lands behind everything accepted before it. */
  predicate Commutes(s: State, e: Event) {
    match e
    case PostVcd(ts) => XtraceText(s.pendingXt) + StepText(ts) == StepText(ts) + XtraceText(s.pendingXt)
    case PostXtrace(xt) =>
      var x := XtraceText(s.pendingXt) + xt.rendered;
      |s.pendingXt| + 1 >= VCD_BATCH_FLUSH ==> VcdText(s.pending) + x == x + VcdText(s.pending)
    case _ => true
  }

  /** Buffered bytes exclude pending records, and no batch is full. */
  predicate Partial(s: State) {
    && (s.buf == [] || (s.pending == [] && s.pendingXt == []))
    && |s.pending| < VCD_BATCH_FLUSH && |s.pendingXt| < VCD_BATCH_FLUSH
  }

  /** What a state holds ahead of its pending records. */
  function Front(s: State): Bytes { s.file + s.cache + QueueText(s.queue) + s.buf }

  lemma TotalIs(s: State)
    ensures Total(s) == Front(s) + VcdText(s.pending) + XtraceText(s.pendingXt)
  {}

  lemma ChunkFront(s: State)
    requires Partial(s)
    ensures Front(SendChunk(s)) == Front(s) && SendChunk(s).buf == [] && Partial(SendChunk(s))
    ensures SendChunk(s).pending == s.pending && SendChunk(s).pendingXt == s.pendingXt
  {
    hide QueueText;
    QueueSnoc(s.queue, Chunk(s.buf));
  }

  lemma VcdFront(s: State)
    requires s.buf == []
    ensures Front(SendVcd(s)) == Front(s) + VcdText(s.pending)
    ensures SendVcd(s).pending == [] && SendVcd(s).pendingXt == s.pendingXt && SendVcd(s).buf == []
  {
    hide QueueText, VcdText;
    EmptyTexts();
    QueueSnoc(s.queue, VcdBatch(s.pending));
  }

  lemma XtraceFront(s: State)
    requires s.buf == []
    ensures Front(SendXtrace(s)) == Front(s) + XtraceText(s.pendingXt)
    ensures SendXtrace(s).pendingXt == [] && SendXtrace(s).pending == s.pending && SendXtrace(s).buf == []
  {
    hide QueueText, XtraceText;
    EmptyTexts();
    QueueSnoc(s.queue, XtraceBatch(s.pendingXt));
  }

  /** Sending both batches in that order keeps the text, whatever is pending. */
  lemma DispatchTotal(s: State)
    requires Partial(s)
    ensures Total(Dispatch(s)) == Total(s) && Dispatch(s).buf == s.buf
    ensures Dispatch(s).pending == [] && Dispatch(s).pendingXt == []
  {
    hide QueueText, VcdText, XtraceText, Front, Total;
    EmptyTexts();
    TotalIs(s);
    TotalIs(Dispatch(s));
    if s.buf == [] {
      VcdFront(s);
      XtraceFront(SendVcd(s));
    }
  }

  lemma {:induction false} StepExact(s: State, e: Event)
    requires Partial(s) && (s.open || !Producer(e))
    ensures Partial(Next(s, e)) && Next(s, e).open == (s.open && !e.Drop?)
    ensures Total(Next(s, e)) == Total(s) + EventText(e) <==> Commutes(s, e)
  {
    hide QueueText, VcdText, XtraceText, StepText, Total, Front, Dispatch;
    match e
    case Write(data) =>
      DispatchTotal(s);
      BytesJoin(Dispatch(s), data);
      OpenKept(s);
    case PostVcd(ts) => VcdExact(s, ts);
    case PostXtrace(xt) => XtraceExact(s, xt);
    case Commit => CommitTotal(s);
    case Flush =>
      ChunkTotal(s);
      DispatchTotal(SendChunk(s));
      OpenKept(SendChunk(s));
      SignalJoins(Dispatch(SendChunk(s)), FlushMsg, true);
    case Drop =>
      ChunkTotal(s);
      DispatchTotal(SendChunk(s));
      SignalJoins(Dispatch(SendChunk(s)), Shutdown, false);
    case Receive =>
      ReceiveTotal(s);
      ReceivePartial(s);
    case Spill(n) => SpillKeeps(s, n);
  }

  lemma OpenKept(s: State)
    ensures Dispatch(s).open == s.open
  {}

  lemma ChunkTotal(s: State)
    requires Partial(s)
    ensures Total(SendChunk(s)) == Total(s) && Partial(SendChunk(s)) && SendChunk(s).buf == [] && SendChunk(s).open == s.open
  {
    hide QueueText, VcdText, XtraceText, Front, Total;
    ChunkFront(s);
    TotalIs(s);
    TotalIs(SendChunk(s));
  }

  lemma ReceivePartial(s: State)
    requires Partial(s)
    ensures Partial(Next(s, Receive)) && Next(s, Receive).open == s.open
  {}

  lemma CommitTotal(s: State)
    requires Partial(s) && s.open
    ensures Total(Next(s, Commit)) == Total(s) && Partial(Next(s, Commit)) && Next(s, Commit).open
  {
    ChunkTotal(s);
  }

  /** Only what stands between two texts has to commute. */
  lemma Between(f: Bytes, x: Bytes, y: Bytes)
    ensures f + x + y == f + y + x <==> x + y == y + x
  {
    assert f + x + y == f + (x + y) && f + y + x == f + (y + x);
    assert (f + (x + y))[|f|..] == x + y && (f + (y + x))[|f|..] == y + x;
  }

  lemma VcdExact(s: State, ts: VcdTimestep)
    requires Partial(s) && s.open
    ensures Partial(Next(s, PostVcd(ts))) && Next(s, PostVcd(ts)).open
    ensures Total(Next(s, PostVcd(ts))) == Total(s) + StepText(ts) <==> Commutes(s, PostVcd(ts))
  {
    hide QueueText, VcdText, XtraceText, StepText, Total, Front;
    EmptyTexts();
    var t := Next(s, PostVcd(ts));
    var c := SendChunk(s);
    var p := c.(pending := c.pending + [ts]);
    ChunkFront(s);
    TotalIs(s);
    TotalIs(t);
    SameFront(c, p);
    VcdFront(p);
    VcdSnoc(s.pending, ts);
    var f, v, x := Front(s) + VcdText(s.pending), StepText(ts), XtraceText(s.pendingXt);
    assert Total(t) == f + v + x by { Regroup(Front(s), VcdText(s.pending), v); }
    Between(f, v, x);
  }

  lemma SameFront(s: State, t: State)
    requires t.file == s.file && t.cache == s.cache && t.queue == s.queue && t.buf == s.buf
    ensures Front(t) == Front(s)
  {}

  lemma XtraceExact(s: State, xt: XtraceTimestep)
    requires Partial(s) && s.open
    ensures Partial(Next(s, PostXtrace(xt))) && Next(s, PostXtrace(xt)).open
    ensures Total(Next(s, PostXtrace(xt))) == Total(s) + xt.rendered <==> Commutes(s, PostXtrace(xt))
  {
    hide QueueText, VcdText, XtraceText, Total, Front;
    EmptyTexts();
    var t := Next(s, PostXtrace(xt));
    var c := SendChunk(s);
    var p := c.(pendingXt := c.pendingXt + [xt]);
    ChunkFront(s);
    TotalIs(s);
    TotalIs(t);
    SameFront(c, p);
    XtraceFront(p);
    XtraceSnoc(s.pendingXt, xt);
    var v, x := VcdText(s.pending), XtraceText(s.pendingXt) + xt.rendered;
    assert Total(s) + xt.rendered == Front(s) + v + x by { Regroup(Front(s) + v, XtraceText(s.pendingXt), xt.rendered); }
    Between(Front(s), v, x);
  }

  /* ---- whole runs ---- */

  /** At every moment the text accepted so far is the inline sink's. */
  ghost predicate InStep(es: seq<Event>) {
    forall k: nat :: k <= |es| ==> Total(Run(es[..k])) == InlineText(es[..k])
  }

  ghost predicate AllCommute(es: seq<Event>) {
    forall k: nat :: k < |es| ==> Commutes(Run(es[..k]), es[k])
  }

  lemma {:induction false} RunPartial(es: seq<Event>)
    requires DropsLast(es)
    ensures Partial(Run(es)) && (Run(es).open <==> forall e :: e in es ==> !e.Drop?)
  {
    hide Next, Partial;
    if es == [] {
      assert Partial(Start) by { EmptyPartial(); }
    } else {
      var n := |es| - 1;
      var pre, e := es[..n], es[n];
      assert es == pre + [e];
      RunPartial(pre);
      StepExact(Run(pre), e);
    }
  }

  lemma EmptyPartial()
    ensures Partial(Start) && Total(Start) == []
  {}

  lemma OneMore(pre: seq<Event>, e: Event)
    ensures InStep(pre + [e]) <==> InStep(pre) && Total(Run(pre + [e])) == InlineText(pre + [e])
    ensures AllCommute(pre + [e]) <==> AllCommute(pre) && Commutes(Run(pre), e)
  {
    hide Run, InlineText, Total, Commutes;
    var n, es := |pre|, pre + [e];
    forall k: nat | k <= n ensures pre[..k] == es[..k] {}
    assert es[..n + 1] == es && es[n] == e && pre[..n] == pre;
    if InStep(es) {
      forall k: nat | k <= n ensures Total(Run(pre[..k])) == InlineText(pre[..k]) { assert Total(Run(es[..k])) == InlineText(es[..k]); }
    }
    if AllCommute(es) {
      forall k: nat | k < n ensures Commutes(Run(pre[..k]), pre[k]) { assert Commutes(Run(es[..k]), es[k]); }
    }
  }

  /** A history with two kinds of records reads like the inline one throughout exactly when every step commutes. */
  lemma {:induction false} MixedExact(es: seq<Event>)
    requires DropsLast(es)
    ensures InStep(es) <==> AllCommute(es)
  {
    hide Next, Partial, Total, Commutes, Run, InlineText, EventText;
    NoEvents();
    EmptyPartial();
    if es != [] {
      var n := |es| - 1;
      var pre, e := es[..n], es[n];
      assert es == pre + [e];
      RunPartial(pre);
      MixedExact(pre);
      OneMore(pre, e);
      Appended(pre, e);
      StepExact(Run(pre), e);
      assert InStep(pre) ==> Total(Run(pre[..n])) == InlineText(pre[..n]);
      assert pre[..n] == pre;
    }
  }

  /** Mixing record kinds in one sink moves a trace slot behind later value changes. */
  lemma {:induction false} MixedKinds(a: VcdTimestep, x: XtraceTimestep, b: VcdTimestep)
    ensures var es := [PostVcd(a), PostXtrace(x), PostVcd(b)];
      Total(Run(es)) == StepText(a) + StepText(b) + x.rendered && InlineText(es) == StepText(a) + x.rendered + StepText(b)
      && (Total(Run(es)) == InlineText(es) <==> StepText(b) + x.rendered == x.rendered + StepText(b))
  {
    hide VcdText, XtraceText, QueueText, StepText, Run, InlineText;
    NoEvents();
    assert [] + [PostVcd(a)] == [PostVcd(a)];
    assert [PostVcd(a)] + [PostXtrace(x)] == [PostVcd(a), PostXtrace(x)];
    assert [PostVcd(a), PostXtrace(x)] + [PostVcd(b)] == [PostVcd(a), PostXtrace(x), PostVcd(b)];
    Appended([], PostVcd(a));
    Appended([PostVcd(a)], PostXtrace(x));
    Appended([PostVcd(a), PostXtrace(x)], PostVcd(b));
    var s := Run([PostVcd(a), PostXtrace(x), PostVcd(b)]);
    assert s == Start.(pending := [a, b], pendingXt := [x]);
    Buffered(a, x, b);
    Between(StepText(a), StepText(b), x.rendered);
  }

  lemma Buffered(a: VcdTimestep, x: XtraceTimestep, b: VcdTimestep)
    ensures Total(Start.(pending := [a, b], pendingXt := [x])) == StepText(a) + StepText(b) + x.rendered
  {
    hide VcdText, XtraceText, QueueText, StepText;
    assert [] + [a] == [a] && [a] + [b] == [a, b] && [] + [x] == [x];
    VcdSnoc([], a);
    VcdSnoc([a], b);
    XtraceSnoc([], x);
    EmptyTexts();
  }

  lemma {:induction false} MixedKindsReorder()
    ensures var es := [PostVcd(VcdTimestep(Some(0), [])), PostXtrace(XtraceTimestep("T")), PostVcd(VcdTimestep(Some(1), []))];
      Total(Run(es)) == "#0\n" + "#1\n" + "T" && InlineText(es) == "#0\n" + "T" + "#1\n" && Total(Run(es)) != InlineText(es)
  {
    var a, x, b := VcdTimestep(Some(0), []), XtraceTimestep("T"), VcdTimestep(Some(1), []);
    hide StepText, Run, InlineText, Total;
    TwoTimes();
    MixedKinds(a, x, b);
    assert ("#0\n" + "#1\n" + "T")[3] == '#' && ("#0\n" + "T" + "#1\n")[3] == 'T';
  }

  lemma TwoTimes()
    ensures StepText(VcdTimestep(Some(0), [])) == "#0\n" && StepText(VcdTimestep(Some(1), [])) == "#1\n"
  {}

  lemma NoEvents()
    ensures Run([]) == Start && InlineText([]) == []
  {}
}
