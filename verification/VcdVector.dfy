/** The dump text of one vector (IEEE 1800-2017 section 21.7.2.1). */
module VcdVector {
  import opened Planes
  import opened Values
  import opened ValueMove

  function CharOf(b: LogicBit): (c: char)
    ensures IsVcdChar(c)
  {
    match b
    case Zero => '0'
    case One => '1'
    case X => 'x'
    case Z => 'z'
  }

  predicate IsVcdChar(c: char) { c == '0' || c == '1' || c == 'x' || c == 'z' }

  /** What a reader puts in front of a short value: x and z repeat, 0 and 1 extend with 0. */
  function FillOf(c: char): char { if c == 'x' || c == 'z' then c else '0' }

  function Repeat(c: char, n: nat): string { seq(n, i => c) }

  /** The reader's left extension of `t` to `w` characters. */
  function Extended(t: string, w: nat): (s: string)
    requires 0 < |t| <= w
    ensures |s| == w
  {
    Repeat(FillOf(t[0]), w - |t|) + t
  }

  /** Every bit of `v`, most significant first. */
  function FullText(v: Value): (s: string)
    ensures |s| == v.width
    ensures forall i :: 0 <= i < |s| ==> s[i] == CharOf(GetBit(v, v.width - 1 - i))
  {
    seq(v.width, i requires 0 <= i < v.width => CharOf(GetBit(v, v.width - 1 - i)))
  }

  /** `r` reads back as `s`. */
  ghost predicate Restores(r: string, s: string) {
    0 < |r| <= |s| && Extended(r, |s|) == s
  }

  /** `r` reads back as `s` and nothing shorter does. */
  ghost predicate Minimal(r: string, s: string) {
    Restores(r, s) && forall t: string :: |t| < |r| ==> !Restores(t, s)
  }

  /* ---- the reader, on bits ---- */

  /** The bit a character stands for. */
  function BitOf(c: char): LogicBit {
    if c == '1' then One else if c == 'x' then X else if c == 'z' then Z else Zero
  }

  /** Bit `i` of a vector read from `t`: past the text, x and z repeat and 0 stands elsewhere. */
  function ReadBit(t: string, i: nat): LogicBit
    requires |t| > 0
  {
    if i < |t| then BitOf(t[|t| - 1 - i]) else if t[0] == 'x' then X else if t[0] == 'z' then Z else Zero
  }

  predicate IsVcdText(t: string) { |t| > 0 && forall i :: 0 <= i < |t| ==> IsVcdChar(t[i]) }

  /** Every bit of `v` is read from `t`. */
  ghost predicate ReadsAs(t: string, v: Value) {
    IsVcdText(t) && forall i: nat :: i < v.width ==> ReadBit(t, i) == GetBit(v, i)
  }

  lemma CharRoundTrip(b: LogicBit)
    ensures BitOf(CharOf(b)) == b
  {}

  lemma CharDetermined(c: char, b: LogicBit)
    requires IsVcdChar(c) && BitOf(c) == b
    ensures c == CharOf(b)
  {}

  /** Reading back the text is reading back the bits. */
  lemma {:induction false} RestoresBits(t: string, v: Value)
    requires 0 < |t| <= v.width
    ensures Restores(t, FullText(v)) <==> ReadsAs(t, v)
  {
    hide GetBit, CharOf, BitOf;
    var s, w := FullText(v), v.width;
    var e := Extended(t, w);
    forall b ensures BitOf(CharOf(b)) == b { CharRoundTrip(b); }
    forall i: nat | i < w && IsVcdText(t) ensures BitOf(e[w - 1 - i]) == ReadBit(t, i) && IsVcdChar(e[w - 1 - i]) { FilledBit(t, w, i); }
    if Restores(t, s) {
      forall i | 0 <= i < |t| ensures IsVcdChar(t[i]) { assert t[i] == e[i + (w - |t|)] == s[i + (w - |t|)]; }
      forall i: nat | i < w ensures ReadBit(t, i) == GetBit(v, i) { assert e[w - 1 - i] == s[w - 1 - i]; }
    }
    if ReadsAs(t, v) {
      forall k | 0 <= k < w ensures e[k] == s[k] {
        var i: nat := w - 1 - k;
        assert ReadBit(t, i) == GetBit(v, i);
        CharDetermined(e[k], GetBit(v, i));
      }
    }
  }

  lemma FilledBit(t: string, w: nat, i: nat)
    requires IsVcdText(t) && |t| <= w && i < w
    ensures BitOf(Extended(t, w)[w - 1 - i]) == ReadBit(t, i) && IsVcdChar(Extended(t, w)[w - 1 - i])
  {
    if i < |t| { assert Extended(t, w)[w - 1 - i] == t[|t| - 1 - i]; }
  }

  /** `r` reads as `v`, and no shorter text does. */
  ghost predicate ShortestReading(r: string, v: Value) {
    ReadsAs(r, v) && forall t: string :: ReadsAs(t, v) ==> |t| >= |r|
  }

  lemma MinimalReads(r: string, v: Value)
    requires v.width > 0 && Minimal(r, FullText(v))
    ensures ShortestReading(r, v)
  {
    hide GetBit, ReadsAs, Extended;
    RestoresBits(r, v);
    forall t: string | ReadsAs(t, v) ensures |t| >= |r| {
      if |t| < |r| {
        NotEmpty(t, v);
        RestoresBits(t, v);
      }
    }
  }

  lemma NotEmpty(t: string, v: Value)
    requires ReadsAs(t, v)
    ensures |t| > 0
  {}

  method VectorBits(v: Value) returns (r: string)
    ensures if v.width == 0 then r == "0" else Minimal(r, FullText(v)) && ShortestReading(r, v)
  {
    hide Minimal, GetBit, ShortestReading;
    if v.width > 0 {
      forall t: string | Minimal(t, FullText(v)) ensures ShortestReading(t, v) { MinimalReads(t, v); }
    }
    var w := v.width;
    var s := [];
    for i := w downto 0
      invariant s == FullText(v)[..w - i]
    {
      s := s + [CharOf(GetBit(v, i))];
    }
    assert s == FullText(v);
    if |s| == 0 { return "0"; }
    var lead := s[0];
    if lead == '1' {
      Suppressed(s, 1, s);
      return s;
    }
    var end := 1;
    while end < |s| && s[end] == lead
      invariant 1 <= end <= |s|
      invariant forall j :: 0 <= j < end ==> s[j] == lead
    {
      end := end + 1;
    }
    r := if end == |s| then [lead]
         else if lead == '0' && s[end] == '1' then s[end..]
         else [lead] + s[end..];
    Suppressed(s, end, r);
  }

  ghost predicate LeadingRun(s: string, end: nat) {
    && 0 < end <= |s| && (forall i :: 0 <= i < |s| ==> IsVcdChar(s[i]))
    && (forall i :: 0 <= i < end ==> s[i] == s[0])
    && (end < |s| && s[0] != '1' ==> s[end] != s[0])
  }

  /** The text kept of a vector whose leading run is `s[..end]`. */
  function Kept(s: string, end: nat): string
    requires 0 < end <= |s|
  {
    if s[0] == '1' then s
    else if end == |s| then [s[0]]
    else if s[0] == '0' && s[end] == '1' then s[end..]
    else [s[0]] + s[end..]
  }

  lemma Suppressed(s: string, end: nat, r: string)
    requires LeadingRun(s, end) && r == Kept(s, end)
    ensures Minimal(r, s)
  {
    KeptRestores(s, end);
    forall t: string | |t| < |r| ensures !Restores(t, s) {
      if Restores(t, s) {
        ShorterFails(s, end, t);
        assert false;
      }
    }
  }

  lemma {:induction false} KeptRestores(s: string, end: nat)
    requires LeadingRun(s, end)
    ensures Restores(Kept(s, end), s)
  {
    var r := Kept(s, end);
    assert |Extended(r, |s|)| == |s|;
    forall i | 0 <= i < |s| ensures Extended(r, |s|)[i] == s[i] {
      if i >= |s| - |r| { assert Extended(r, |s|)[i] == r[i - (|s| - |r|)]; }
    }
  }

  /** A text that reads back as `s` starts inside the leading run or right after it. */
  lemma {:induction false} ShorterFails(s: string, end: nat, t: string)
    requires LeadingRun(s, end) && Restores(t, s)
    ensures |t| >= |Kept(s, end)|
  {
    var p := |s| - |t|;
    var f := FillOf(t[0]);
    if p > 0 {
      assert forall i :: 0 <= i < p ==> s[i] == Extended(t, |s|)[i] == f;
      assert s[p] == Extended(t, |s|)[p] == t[0];
      assert s[0] == f && s[p - 1] == f;
    }
  }

  /** The length of the leading run. */
  function RunLength(s: string): (n: nat)
    requires |s| > 0
    ensures 0 < n <= |s| && (forall i :: 0 <= i < n ==> s[i] == s[0]) && (n < |s| ==> s[n] != s[0])
  {
    if |s| == 1 || s[1] != s[0] then 1 else 1 + RunLength(s[1..])
  }

  /** The one minimal text of a vector. */
  function VectorText(v: Value): string {
    if v.width == 0 then "0" else Kept(FullText(v), RunLength(FullText(v)))
  }

  lemma VectorTextMinimal(v: Value)
    ensures v.width > 0 ==> Minimal(VectorText(v), FullText(v)) && ShortestReading(VectorText(v), v)
  {
    hide GetBit, Minimal, RunLength, ShortestReading;
    if v.width > 0 {
      Suppressed(FullText(v), RunLength(FullText(v)), VectorText(v));
      MinimalReads(VectorText(v), v);
    }
  }

  /** The text tells apart all values of one width and sign. */
  lemma {:induction false} TextDetermines(a: Value, b: Value)
    requires Valid(a) && Valid(b) && a.width == b.width > 0 && a.signed == b.signed
    ensures VectorText(a) == VectorText(b) <==> a == b
  {
    hide VectorText, VBit, XBit;
    if VectorText(a) == VectorText(b) {
      VectorTextMinimal(a);
      VectorTextMinimal(b);
      forall i: nat | i < a.width ensures VBit(a, i) == VBit(b, i) && XBit(a, i) == XBit(b, i) {
        assert GetBit(a, i) == ReadBit(VectorText(a), i) == GetBit(b, i);
      }
      SameValue(a, b);
    }
  }

  lemma {:induction false} MinimalUnique(r: string, t: string, s: string)
    requires Minimal(r, s) && Minimal(t, s)
    ensures r == t
  {
    assert r == Extended(r, |s|)[|s| - |r|..];
    assert t == Extended(t, |s|)[|s| - |t|..];
  }
}
