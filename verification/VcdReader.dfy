module VcdReader {
  // A reader of the dump: it gets back every time and every change, in order,
  // and every bit of every change.

  import opened Names
  import opened Planes
  import opened Values
  import opened ValueMove
  import opened VcdVector
  import opened VcdSink
  import Decimal

  /** One line of a dump. */
  datatype Entry =
    | TimeIs(time: nat)
    | BitIs(id: string, bit: LogicBit)
    | VectorIs(id: string, text: string)
    | Unreadable

  /** How far `c` is from the front. */
  function Find(t: string, c: char): (n: nat)
    ensures n <= |t| && (forall i :: 0 <= i < n ==> t[i] != c) && (n < |t| ==> t[n] == c)
  {
    if t == [] || t[0] == c then 0 else 1 + Find(t[1..], c)
  }

  function ReadLine(line: string): Entry {
    if line == [] then Unreadable
    else if line[0] == '#' then (if Decimal.AllDigits(line[1..]) then TimeIs(Decimal.DecValue(line[1..])) else Unreadable)
    else if line[0] == 'b' then
      var k := Find(line, ' ');
      if 1 < k < |line| then VectorIs(line[k + 1..], line[1..k]) else Unreadable
    else if IsVcdChar(line[0]) then BitIs(line[1..], BitOf(line[0]))
    else Unreadable
  }

  /** The entries of a text, line by line; an unfinished line at the end is not read. */
  function ReadDump(t: string): seq<Entry>
    decreases |t|
  {
    var k := Find(t, '\n');
    if k == |t| then [] else [ReadLine(t[..k])] + ReadDump(t[k + 1..])
  }

  /* ---- what is written ---- */

  /** An identifier code has no blank and no line end. */
  predicate Clean(id: string) { forall i :: 0 <= i < |id| ==> id[i] != ' ' && id[i] != '\n' }

  ghost predicate CleanSteps(recs: seq<VcdTimestep>) {
    forall k, i :: 0 <= k < |recs| && 0 <= i < |recs[k].changes| ==> Clean(recs[k].changes[i].0)
  }

  /** The entry holds the change of `id` to `v`, bit by bit. */
  ghost predicate Shows(e: Entry, id: string, v: Value) {
    if v.width == 1 then e == BitIs(id, GetBit(v, 0))
    else e.VectorIs? && e.id == id && IsVcdText(e.text) && forall i: nat :: i < v.width ==> ReadBit(e.text, i) == GetBit(v, i)
  }

  ghost predicate ShowsAll(es: seq<Entry>, cs: seq<(string, Value)>) {
    |es| == |cs| && forall i :: 0 <= i < |cs| ==> Shows(es[i], cs[i].0, cs[i].1)
  }

  /** The time if there is one, then every change in order. */
  ghost predicate ShowsStep(es: seq<Entry>, ts: VcdTimestep) {
    match ts.time
    case None => ShowsAll(es, ts.changes)
    case Some(n) => |es| > 0 && es[0] == TimeIs(n) && ShowsAll(es[1..], ts.changes)
  }

  /** The entries of the steps one after another. */
  ghost predicate ShowsSteps(es: seq<Entry>, recs: seq<VcdTimestep>)
    decreases |recs|
  {
    if recs == [] then es == []
    else exists k :: 0 <= k <= |es| && ShowsSteps(es[..k], recs[..|recs| - 1]) && ShowsStep(es[k..], recs[|recs| - 1])
  }

  /* ---- reading it back ---- */

  predicate NoLineEnd(s: string) { forall i :: 0 <= i < |s| ==> s[i] != '\n' }

  /** Whole lines. */
  predicate Complete(t: string) { t == [] || t[|t| - 1] == '\n' }

  lemma ReadFirst(line: string, rest: string)
    requires NoLineEnd(line)
    ensures ReadDump(line + "\n" + rest) == [ReadLine(line)] + ReadDump(rest)
  {
    hide ReadLine;
    var t := line + "\n" + rest;
    FindsEnd(line, rest);
    assert t[..|line|] == line;
    assert t[|line| + 1..] == rest;
  }

  lemma FindsEnd(line: string, rest: string)
    requires NoLineEnd(line)
    ensures Find(line + "\n" + rest, '\n') == |line|
  {
    var t := line + "\n" + rest;
    assert t[|line|] == '\n';
    assert forall i :: 0 <= i < |line| ==> t[i] == line[i];
  }

  /** Whole lines are read independently of what follows. */
  lemma {:induction false} ReadAppend(x: string, y: string)
    requires Complete(x)
    ensures ReadDump(x + y) == ReadDump(x) + ReadDump(y)
    decreases |x|
  {
    hide ReadDump, NoLineEnd, Complete, ReadLine;
    if x == [] {
      NothingRead(y);
    } else {
      var line, rest := FirstLine(x, y);
      ReadFirst(line, rest);
      ReadFirst(line, rest + y);
      ReadAppend(rest, y);
      OneBefore(ReadLine(line), ReadDump(rest), ReadDump(y));
    }
  }

  lemma NothingRead(y: string)
    ensures ReadDump("") == [] && "" + y == y && ReadDump("") + ReadDump(y) == ReadDump(y)
  {}

  lemma OneBefore(e: Entry, r: seq<Entry>, s: seq<Entry>)
    ensures [e] + (r + s) == ([e] + r) + s
  {}

  lemma FirstLine(x: string, y: string) returns (line: string, rest: string)
    requires x != [] && Complete(x)
    ensures x == line + "\n" + rest && x + y == line + "\n" + (rest + y) && NoLineEnd(line) && Complete(rest) && |rest| < |x|
  {
    var k := Find(x, '\n');
    line, rest := x[..k], x[k + 1..];
  }

  lemma BothComplete(x: string, y: string)
    ensures Complete(x) && Complete(y) ==> Complete(x + y)
    ensures Complete("")
  {}

  lemma ReadOne(line: string)
    requires NoLineEnd(line)
    ensures ReadDump(line + "\n") == [ReadLine(line)] && Complete(line + "\n")
  {
    ReadFirst(line, "");
    assert line + "\n" + "" == line + "\n";
    assert ReadDump("") == [];
  }

  lemma {:induction false} DigitsAreDigits(n: nat)
    ensures NoLineEnd("#" + Decimal.Digits(n)) && ReadLine("#" + Decimal.Digits(n)) == TimeIs(n)
  {
    var line := "#" + Decimal.Digits(n);
    assert line[1..] == Decimal.Digits(n);
    Decimal.DigitsValue(n);
  }

  lemma TimeRead(t: Option<nat>)
    ensures Complete(TimeText(t))
    ensures ReadDump(TimeText(t)) == match t case None => [] case Some(n) => [TimeIs(n)]
  {
    if t.Some? {
      DigitsAreDigits(t.value);
      ReadOne("#" + Decimal.Digits(t.value));
    }
  }

  lemma VectorLine(text: string, id: string)
    requires IsVcdText(text) && Clean(id)
    ensures var line := "b" + text + " " + id; NoLineEnd(line) && ReadLine(line) == VectorIs(id, text)
  {
    var line := "b" + text + " " + id;
    assert line[|text| + 1] == ' ' && line[1..|text| + 1] == text && line[|text| + 2..] == id;
    assert forall i :: 1 <= i <= |text| ==> line[i] == text[i - 1];
    assert Find(line, ' ') == |text| + 1;
  }

  lemma BitLine(b: LogicBit, id: string)
    requires Clean(id)
    ensures var line := [CharOf(b)] + id; NoLineEnd(line) && ReadLine(line) == BitIs(id, b)
  {
    var line := [CharOf(b)] + id;
    assert line[1..] == id;
  }

  lemma ChangeRead(v: Value, id: string)
    requires Clean(id)
    ensures Complete(ValueRecord(v, id)) && |ReadDump(ValueRecord(v, id))| == 1 && Shows(ReadDump(ValueRecord(v, id))[0], id, v)
  {
    hide VectorText, GetBit, ReadDump, ReadLine, ReadBit;
    if v.width == 1 {
      BitLine(GetBit(v, 0), id);
      ReadOne([CharOf(GetBit(v, 0))] + id);
    } else {
      VectorTextMinimal(v);
      EmptyText(v);
      VectorLine(VectorText(v), id);
      ReadOne("b" + VectorText(v) + " " + id);
    }
  }

  lemma EmptyText(v: Value)
    ensures v.width == 0 ==> IsVcdText(VectorText(v))
  {}

  lemma {:induction false} ChangesRead(cs: seq<(string, Value)>)
    requires forall i :: 0 <= i < |cs| ==> Clean(cs[i].0)
    ensures Complete(ChangesText(cs)) && ShowsAll(ReadDump(ChangesText(cs)), cs)
  {
    hide ValueRecord, Shows, Clean, ReadDump, Complete;
    if cs == [] {
      NothingRead("");
      BothComplete("", "");
    } else {
      var init, c := cs[..|cs| - 1], cs[|cs| - 1];
      ChangesRead(init);
      ChangeRead(c.1, c.0);
      ReadAppend(ChangesText(init), ValueRecord(c.1, c.0));
      BothComplete(ChangesText(init), ValueRecord(c.1, c.0));
    }
  }

  lemma StepRead(ts: VcdTimestep)
    requires forall i :: 0 <= i < |ts.changes| ==> Clean(ts.changes[i].0)
    ensures Complete(StepText(ts)) && ShowsStep(ReadDump(StepText(ts)), ts)
  {
    hide ChangesText, TimeText, ReadDump, ShowsAll, Clean;
    TimeRead(ts.time);
    ChangesRead(ts.changes);
    ReadAppend(TimeText(ts.time), ChangesText(ts.changes));
    var es := ReadDump(ChangesText(ts.changes));
    if ts.time.Some? { assert ([TimeIs(ts.time.value)] + es)[1..] == es; } else { assert [] + es == es; }
  }

  /** Reading the rendered steps gives every time and every change in order, with every bit. */
  lemma {:induction false} StepsRead(recs: seq<VcdTimestep>)
    requires CleanSteps(recs)
    ensures Complete(VcdText(recs)) && ShowsSteps(ReadDump(VcdText(recs)), recs)
  {
    hide StepText, ShowsStep, Clean;
    if recs == [] {
      assert ReadDump("") == [];
    } else {
      var init, ts := recs[..|recs| - 1], recs[|recs| - 1];
      forall i | 0 <= i < |ts.changes| ensures Clean(ts.changes[i].0) { assert Clean(recs[|recs| - 1].changes[i].0); }
      StepsRead(init);
      StepRead(ts);
      ReadAppend(VcdText(init), StepText(ts));
      var x, y := ReadDump(VcdText(init)), ReadDump(StepText(ts));
      assert (x + y)[..|x|] == x && (x + y)[|x|..] == y;
    }
  }

  /* ---- the file ---- */

  /** The steps posted in a history. */
  function Posted(es: seq<Event>): seq<VcdTimestep> {
    if es == [] then [] else Posted(es[..|es| - 1]) + if es[|es| - 1].PostVcd? then [es[|es| - 1].ts] else []
  }

  lemma {:induction false} InlineIsPosted(es: seq<Event>)
    requires forall e :: e in es ==> !e.Write? && !e.PostXtrace?
    ensures InlineText(es) == VcdText(Posted(es))
  {
    hide StepText, VcdText;
    if es != [] {
      var init, e := es[..|es| - 1], es[|es| - 1];
      InlineIsPosted(init);
      if e.PostVcd? { VcdSnoc(Posted(init), e.ts); } else { assert Posted(init) + [] == Posted(init) && VcdText(Posted(init)) + [] == VcdText(Posted(init)); }
    } else {
      EmptyTexts();
    }
  }

  /** The file a finished worker leaves reads as the posted steps: every time, every change, every bit, in order. */
  lemma {:induction false} FileReads(es: seq<Event>)
    requires Disciplined(es) && !Run(es).running && CleanSteps(Posted(es))
    requires forall e :: e in es ==> !e.Write? && !e.PostXtrace?
    ensures ShowsSteps(ReadDump(Run(es).file), Posted(es))
  {
    hide Run, InlineText, ReadDump, ShowsSteps, CleanSteps, Disciplined;
    NothingLost(es);
    InlineIsPosted(es);
    StepsRead(Posted(es));
  }
}
