/** Array parameters, packed and sliced. */
module ArrayParams {
  import opened Names
  import opened WordBits
  import opened Planes
  import opened WordVec
  import opened Values
  import opened ValueMove
  import opened ValueJoin
  import opened Reductions
  import opened Equality
  import Decimal

  const LIMIT: nat := 4096

  /** A declared range `[left:right]`. */
  type Dim = (int, int)

  function Size(d: Dim): (n: nat)
    ensures n > 0
  {
    if d.0 <= d.1 then d.1 - d.0 + 1 else d.0 - d.1 + 1
  }

  /** The index declared at a position, counting from the left bound. */
  function IndexAt(d: Dim, p: nat): int { if d.0 <= d.1 then d.0 + p else d.0 - p }

  function Count(dims: seq<Dim>): (n: nat)
    ensures n > 0
  {
    if dims == [] then 1 else PositiveProduct(Size(dims[0]), Count(dims[1..])); Size(dims[0]) * Count(dims[1..])
  }

  lemma PositiveProduct(a: nat, b: nat)
    requires a > 0 && b > 0
    ensures a * b > 0
  {}

  function Key(name: string, d: Dim, p: nat): string { name + "[" + Decimal.Printed(IndexAt(d, p)) + "]" }

  /** The element names of the first `p` rows, in declared order. */
  function RowKeys(name: string, dims: seq<Dim>, p: nat): (keys: seq<string>)
    requires dims != []
    ensures |keys| == p * Count(dims[1..])
    decreases |dims|, p
  {
    if p == 0 then []
    else NextRow(p - 1, Count(dims[1..])); RowKeys(name, dims, p - 1) + Keys(Key(name, dims[0], p - 1), dims[1..])
  }

  function Keys(name: string, dims: seq<Dim>): (keys: seq<string>)
    ensures |keys| == Count(dims)
    decreases |dims|, Size(if dims == [] then (0, 0) else dims[0]) + 1
  {
    if dims == [] then [name] else RowKeys(name, dims, Size(dims[0]))
  }

  lemma NextRow(p: nat, m: nat)
    ensures p * m + m == (p + 1) * m
  {}

  /* ---- which index stands where ---- */

  /** `i` lies between the bounds, whichever is larger. */
  predicate InBounds(d: Dim, i: int) { d.0 <= i <= d.1 || d.1 <= i <= d.0 }

  predicate AllInBounds(dims: seq<Dim>, idx: seq<int>) {
    |idx| == |dims| && forall k :: 0 <= k < |dims| ==> InBounds(dims[k], idx[k])
  }

  /** How far an index is from the left bound. */
  function Away(d: Dim, i: int): (p: nat) { if i >= d.0 then i - d.0 else d.0 - i }

  /** The place of an element when the last index runs fastest, each from its left bound on. */
  function Rank(dims: seq<Dim>, idx: seq<int>): nat
    requires |idx| == |dims|
  {
    if dims == [] then 0 else Away(dims[0], idx[0]) * Count(dims[1..]) + Rank(dims[1..], idx[1..])
  }

  /** `name[i][j]...` */
  function ElementName(name: string, idx: seq<int>): string
    decreases |idx|
  {
    if idx == [] then name else ElementName(name + "[" + Decimal.Printed(idx[0]) + "]", idx[1..])
  }

  /** The keys name every element of the declared ranges in that order. */
  lemma {:induction false} KeyAt(name: string, dims: seq<Dim>, idx: seq<int>)
    requires AllInBounds(dims, idx)
    ensures Rank(dims, idx) < |Keys(name, dims)| && Keys(name, dims)[Rank(dims, idx)] == ElementName(name, idx)
    decreases |dims|
  {
    if dims != [] {
      hide Count;
      var p, m, rest := Away(dims[0], idx[0]), Count(dims[1..]), Rank(dims[1..], idx[1..]);
      IndexBack(dims[0], idx[0]);
      KeyAt(Key(name, dims[0], p), dims[1..], idx[1..]);
      RowKeyAt(name, dims, Size(dims[0]), p, rest);
    }
  }

  lemma IndexBack(d: Dim, i: int)
    requires InBounds(d, i)
    ensures Away(d, i) < Size(d) && IndexAt(d, Away(d, i)) == i
  {}

  lemma {:induction false} RowKeyAt(name: string, dims: seq<Dim>, n: nat, p: nat, j: nat)
    requires dims != [] && p < n && j < Count(dims[1..])
    ensures p * Count(dims[1..]) + j < |RowKeys(name, dims, n)|
    ensures RowKeys(name, dims, n)[p * Count(dims[1..]) + j] == Keys(Key(name, dims[0], p), dims[1..])[j]
    decreases n
  {
    hide Count, Key;
    var m := Count(dims[1..]);
    NextRow(n - 1, m);
    NextRow(p, m);
    if p < n - 1 {
      RowKeyAt(name, dims, n - 1, p, j);
      assert p * m + j < |RowKeys(name, dims, n - 1)|;
    }
  }

  /** `r` is the element of `v` at bit `lo`, with the element type's sign and states. */
  ghost predicate Element(r: Value, v: Value, lo: nat, w: nat, signed: bool, twoState: bool) {
    && Valid(r) && r.width == w && r.signed == signed
    && (forall i: nat :: VBit(r, i) == (i < w && VBit(v, lo + i) && !(twoState && XBit(v, lo + i))))
    && (forall i: nat :: XBit(r, i) == (i < w && XBit(v, lo + i) && !twoState))
  }

  /** `to_two_state`: unknown bits become 0. */
  method ToTwoState(v: Value) returns (r: Value)
    requires Valid(v)
    ensures Valid(r) && r.width == v.width && r.signed == v.signed
    ensures forall i: nat :: VBit(r, i) == (VBit(v, i) && !XBit(v, i)) && !XBit(r, i)
  {
    hide Bit, WBit, And64, Not64, VBit, XBit;
    HighClear(v);
    if v.storage.Inline? {
      var s := v.storage;
      r := Value(Inline(And64(s.val, Not64(s.xz)), 0), v.width, v.signed);
      InlineBits(v);
      InlineBits(r);
      BitsOfZero();
      WordHighBits(s.val);
      NarrowValid(r.storage.val, r.storage.xz, r.width, r.signed);
    } else {
      var s := v.storage;
      var vals := ClearedWords(s.vals, s.xzs);
      r := Value(Wide(vals, Zeros(|s.xzs|)), v.width, v.signed);
      ClearedBits(s.vals, s.xzs);
      WideBits(v);
      WideBits(r);
      ZeroPlane(|s.xzs|);
      WideValid(vals, Zeros(|s.xzs|), v.width, v.signed);
    }
  }

  function ClearedWords(vals: seq<Word>, xzs: seq<Word>): (r: seq<Word>)
    requires |vals| == |xzs|
    ensures |r| == |vals|
  {
    seq(|vals|, i requires 0 <= i < |vals| => And64(vals[i], Not64(xzs[i])))
  }

  lemma ClearedBits(vals: seq<Word>, xzs: seq<Word>)
    requires |vals| == |xzs|
    ensures forall i: nat :: WBit(ClearedWords(vals, xzs), i) == (WBit(vals, i) && !WBit(xzs, i))
  {
    hide Bit, And64, Not64;
  }

  /** A selected slice given the element type's sign and states. */
  method Typed(slice: Value, ghost v: Value, ghost lo: nat, w: nat, signed: bool, twoState: bool) returns (r: Value)
    requires Selected(slice, v, lo, w) && lo + w <= v.width
    ensures Element(r, v, lo, w, signed, twoState)
  {
    hide VBit, XBit;
    SignIsFlag(slice, signed);
    r := slice.(signed := signed);
    if twoState { r := ToTwoState(r); }
  }

  /** An element of a row is an element of the whole. */
  lemma RowElement(r: Value, row: Value, v: Value, lo: nat, rowW: nat, k: nat, w: nat, signed: bool, twoState: bool)
    requires Selected(row, v, lo, rowW) && lo + rowW <= v.width && k + w <= rowW
    requires Element(r, row, k, w, signed, twoState)
    ensures Element(r, v, lo + k, w, signed, twoState)
  {
    hide VBit, XBit, Valid;
    forall i: nat
      ensures VBit(r, i) == (i < w && VBit(v, lo + k + i) && !(twoState && XBit(v, lo + k + i)))
      ensures XBit(r, i) == (i < w && XBit(v, lo + k + i) && !twoState)
    {
      assert VBit(row, k + i) == (k + i < rowW && VBit(v, lo + (k + i)));
      assert XBit(row, k + i) == (k + i < rowW && (lo + (k + i) >= v.width || XBit(v, lo + (k + i))));
    }
  }

  /** A product, kept folded so that proofs can treat it as one number. */
  function Times(a: nat, b: nat): (p: nat) { a * b }

  /** The low bit of element `k` of `total`, the first element on top. */
  function LowBit(total: nat, k: nat, w: nat): nat
    requires k < total
  {
    Times(total - 1 - k, w)
  }

  /** Element `k` of row `p` is element `p * m + k`, counted down from the top bits. */
  lemma Place(n: nat, m: nat, p: nat, k: nat, w: nat)
    requires p < n && k < m
    ensures p * m + k < Times(n, m)
    ensures LowBit(n, p, Times(m, w)) + LowBit(m, k, w) == LowBit(Times(n, m), p * m + k, w)
    ensures LowBit(m, k, w) + w <= Times(m, w)
    ensures LowBit(n, p, Times(m, w)) + Times(m, w) <= Times(Times(n, m), w)
  {
    var row: int := n - 1 - p;
    MulMono(m, p + 1, n);
    Distribute(m, p, 1);
    var q: int := row * m + (m - 1 - k);
    assert q == n * m - 1 - (p * m + k) by { RowSplit(n, m, p); }
    Assoc(row, m, w);
    DistributeRight(row * m, m - 1 - k, w);
    MulMono(w, m - k, m);
    DistributeRight(m - 1 - k, 1, w);
    RowSplit(n, m, p);
    MulMono(w, row * m + m, n * m);
    DistributeRight(row * m, m, w);
  }

  lemma RowSplit(n: int, m: int, p: int)
    ensures (n - 1 - p) * m == n * m - m - p * m
  {}

  lemma DistributeRight(a: int, b: int, w: int)
    ensures (a + b) * w == a * w + b * w
  {}

  /** All of the first `done` elements are in place. */
  ghost predicate Sliced(out: seq<(string, Value)>, keys: seq<string>, v: Value, total: nat, w: nat, signed: bool, twoState: bool) {
    && |out| == |keys| <= total
    && forall k :: 0 <= k < |out| ==>
      out[k].0 == keys[k] && Element(out[k].1, v, LowBit(total, k, w), w, signed, twoState)
  }

  predicate Sizes(dims: seq<Dim>) { forall i :: 0 <= i < |dims| ==> Size(dims[i]) <= LIMIT }

  /** `elements` on a packed override. */
  method Elements(name: string, dims: seq<Dim>, w: nat, signed: bool, twoState: bool, v: Value)
    returns (r: Option<seq<(string, Value)>>)
    requires Valid(v) && w > 0
    ensures r.Some? <==> dims != [] && Sizes(dims) && Times(Count(dims), w) <= v.width
    ensures r.Some? ==> Sliced(r.value, Keys(name, dims), v, Count(dims), w, signed, twoState)
    decreases |dims|, 1
  {
    hide Element, Valid, Times, Count, Sliced, Selected;
    if dims == [] || !Sizes(dims) { return None; }
    var n, m := Size(dims[0]), Count(dims[1..]);
    RowWidths(dims, w);
    if v.width < Times(n, Times(m, w)) { return None; }
    var out := [];
    NoRows(name, dims, v, w, signed, twoState);
    for p := 0 to n
      invariant Sliced(out, RowKeys(name, dims, p), v, Times(n, m), w, signed, twoState)
    {
      var part := Row(name, dims, p, w, signed, twoState, v);
      AppendRow(out, part, v, name, dims, p, w, signed, twoState);
      out := out + part;
    }
    r := Some(out);
  }

  /** The slice of row `p`, taken apart in turn unless it is one element. */
  method Row(name: string, dims: seq<Dim>, p: nat, w: nat, signed: bool, twoState: bool, v: Value)
    returns (part: seq<(string, Value)>)
    requires Valid(v) && w > 0 && dims != [] && Sizes(dims) && p < Size(dims[0])
    requires Times(Times(Size(dims[0]), Count(dims[1..])), w) <= v.width
    ensures RowSliced(part, name, dims, p, w, signed, twoState, v)
    decreases |dims|, 0
  {
    hide Element, Valid, Times, Sliced, Selected, LowBit, VBit, XBit, Key, Size;
    var n, m := Size(dims[0]), Count(dims[1..]);
    var rowW := Times(m, w);
    Place(n, m, p, 0, w);
    var low := LowBit(n, p, rowW);
    BoundedRow(rowW, v);
    PositiveTimes(m, w);
    var row := RangeSelect(v, low + rowW - 1, low);
    var key := Key(name, dims[0], p);
    if |dims| > 1 {
      SelectedValid(row, v, low, rowW);
      var sub := Elements(key, dims[1..], w, signed, twoState, row);
      part := sub.value;
    } else {
      assert dims[1..] == [];
      OneElement(w);
      part := SliceLeaf(key, row, v, low, w, signed, twoState);
    }
  }

  /** `part` is row `p` taken apart. */
  ghost predicate RowSliced(part: seq<(string, Value)>, name: string, dims: seq<Dim>, p: nat, w: nat, signed: bool, twoState: bool, v: Value)
    requires dims != [] && p < Size(dims[0])
  {
    var n, m := Size(dims[0]), Count(dims[1..]);
    exists row: Value ::
      && Selected(row, v, LowBit(n, p, Times(m, w)), Times(m, w))
      && Sliced(part, Keys(Key(name, dims[0], p), dims[1..]), row, m, w, signed, twoState)
  }

  lemma RowWidths(dims: seq<Dim>, w: nat)
    requires dims != []
    ensures Count(dims) == Times(Size(dims[0]), Count(dims[1..]))
    ensures Times(Count(dims), w) == Times(Size(dims[0]), Times(Count(dims[1..]), w))
  {
    Assoc(Size(dims[0]), Count(dims[1..]), w);
  }

  lemma NoRows(name: string, dims: seq<Dim>, v: Value, w: nat, signed: bool, twoState: bool)
    requires dims != []
    ensures Sliced([], RowKeys(name, dims, 0), v, Times(Size(dims[0]), Count(dims[1..])), w, signed, twoState)
  {
    assert RowKeys(name, dims, 0) == [];
  }

  lemma PositiveTimes(m: nat, w: nat)
    requires m > 0 && w > 0
    ensures Times(m, w) > 0
  {}

  lemma OneElement(w: nat)
    ensures Times(1, w) == w
  {}

  /** A single element is a one-element row. */
  method SliceLeaf(key: string, row: Value, ghost v: Value, ghost low: nat, w: nat, signed: bool, twoState: bool)
    returns (part: seq<(string, Value)>)
    requires Selected(row, v, low, w) && low + w <= v.width
    ensures Sliced(part, Keys(key, []), row, 1, w, signed, twoState)
  {
    hide VBit, XBit;
    SelectedWhole(row, v, low, w);
    var value := Typed(row, row, 0, w, signed, twoState);
    part := [(key, value)];
  }

  /** A selection is the selection of all of itself. */
  lemma SelectedWhole(row: Value, v: Value, low: nat, w: nat)
    requires Selected(row, v, low, w)
    ensures Selected(row, row, 0, w)
  {
    hide VBit, XBit;
    HighClear(row);
  }

  lemma SelectedValid(row: Value, v: Value, low: nat, w: nat)
    requires Selected(row, v, low, w)
    ensures Valid(row) && row.width == w
  {}

  lemma BoundedRow(rowW: nat, v: Value)
    requires Valid(v) && rowW <= v.width
    ensures rowW <= MAX_WIDTH
  {}

  lemma AppendRow(out: seq<(string, Value)>, part: seq<(string, Value)>, v: Value, name: string, dims: seq<Dim>,
                  p: nat, w: nat, signed: bool, twoState: bool)
    requires dims != [] && p < Size(dims[0])
    requires var total := Times(Size(dims[0]), Count(dims[1..]));
      Sliced(out, RowKeys(name, dims, p), v, total, w, signed, twoState) && Times(total, w) <= v.width
    requires RowSliced(part, name, dims, p, w, signed, twoState, v)
    ensures Sliced(out + part, RowKeys(name, dims, p + 1), v, Times(Size(dims[0]), Count(dims[1..])), w, signed, twoState)
  {
    hide Element, Selected, Times, LowBit, Count, Size, Key, Valid, VBit, XBit;
    var n, m := Size(dims[0]), Count(dims[1..]);
    var row: Value :|
      && Selected(row, v, LowBit(n, p, Times(m, w)), Times(m, w))
      && Sliced(part, Keys(Key(name, dims[0], p), dims[1..]), row, m, w, signed, twoState);
    Place(n, m, p, m - 1, w);
    NextRow(p, m);
    assert RowKeys(name, dims, p + 1) == RowKeys(name, dims, p) + Keys(Key(name, dims[0], p), dims[1..]);
    forall k | 0 <= k < |out + part|
      ensures (out + part)[k].0 == RowKeys(name, dims, p + 1)[k]
      ensures k < Times(n, m) && Element((out + part)[k].1, v, LowBit(Times(n, m), k, w), w, signed, twoState)
    {
      if k >= |out| {
        var j := k - |out|;
        Place(n, m, p, j, w);
        RowElement(part[j].1, row, v, LowBit(n, p, Times(m, w)), Times(m, w), LowBit(m, j, w), w, signed, twoState);
      }
    }
  }

  /* ---- packing and slicing back ---- */

  /** Elements of one type: same width and sign, and no unknown bits when it is two-state. */
  ghost predicate WellTyped(vs: seq<Value>, w: nat, signed: bool, twoState: bool) {
    forall v :: v in vs ==> Valid(v) && v.width == w && v.signed == signed && (twoState ==> Known(v))
  }

  lemma {:induction false} UniformWidth(vs: seq<Value>, w: nat)
    requires forall v :: v in vs ==> v.width == w
    ensures TotalWidth(vs) == Times(|vs|, w)
  {
    if vs != [] {
      HeadWidth(vs);
      UniformWidth(vs[1..], w);
      Distribute(w, |vs| - 1, 1);
    }
  }

  lemma KnownBitsClear(v: Value)
    requires Known(v)
    ensures forall i: nat :: !XBit(v, i)
  {
    hide Bit, XBit, VBit;
    BitViews(v);
    BitsOfZero();
  }

  /** The element sliced at its place is the element packed there. */
  lemma SlicedBack(joined: Value, vs: seq<Value>, k: nat, r: Value, w: nat, signed: bool, twoState: bool)
    requires k < |vs| && WellTyped(vs, w, signed, twoState) && Joins(joined, vs, TotalWidth(vs))
    requires Element(r, joined, LowBit(|vs|, k, w), w, signed, twoState)
    ensures r == vs[k]
  {
    hide VBit, XBit, JoinV, JoinX, Valid;
    var off := LowBit(|vs|, k, w);
    UniformWidth(vs[k + 1..], w);
    assert off == TotalWidth(vs[k + 1..]);
    if twoState { KnownBitsClear(vs[k]); }
    hide LowBit;
    forall i: nat | i < w ensures VBit(r, i) == VBit(vs[k], i) && XBit(r, i) == XBit(vs[k], i) {
      JoinedBit(joined, vs, k, off, i);
    }
    SameValue(r, vs[k]);
  }

  /** Bit `i` of operand `k` in the join. */
  lemma JoinedBit(joined: Value, vs: seq<Value>, k: nat, off: nat, i: nat)
    requires k < |vs| && Joins(joined, vs, TotalWidth(vs)) && off == TotalWidth(vs[k + 1..]) && i < vs[k].width
    ensures VBit(joined, off + i) == VBit(vs[k], i) && XBit(joined, off + i) == XBit(vs[k], i)
  {
    hide VBit, XBit, JoinV, JoinX, Valid;
    SuffixRemaining(vs, k + 1);
    RemainingStep(vs, k + 1, off);
    NarrowPart(vs, k, off);
    assert JoinV(vs, off + i) == VBit(vs[k], (off + i) - off);
    assert JoinX(vs, off + i) == XBit(vs[k], (off + i) - off);
  }

  /** `packed`, then `elements`: every element comes back under its declared index, unless the width cap cut the packed value. */
  method PackThenSlice(name: string, dims: seq<Dim>, w: nat, signed: bool, twoState: bool, vs: seq<Value>)
    returns (r: Option<seq<(string, Value)>>)
    requires dims != [] && w > 0 && |vs| == Count(dims) && WellTyped(vs, w, signed, twoState) && TotalWidth(vs) < U32
    ensures r.Some? <==> Sizes(dims) && Times(Count(dims), w) <= MAX_WIDTH
    ensures r.Some? ==> |r.value| == |vs|
    ensures r.Some? ==> forall k :: 0 <= k < |vs| ==> r.value[k] == (Keys(name, dims)[k], vs[k])
  {
    hide Valid, Element, Times, LowBit, Count;
    UniformWidth(vs, w);
    var joined := ConcatRefs(vs);
    JoinedWidth(joined, vs);
    r := Elements(name, dims, w, signed, twoState, joined);
    if r.Some? {
      forall k | 0 <= k < |vs| ensures r.value[k] == (Keys(name, dims)[k], vs[k]) {
        SlicedBack(joined, vs, k, r.value[k].1, w, signed, twoState);
      }
    }
  }

  lemma JoinedWidth(joined: Value, vs: seq<Value>)
    requires Joins(joined, vs, CapWidth(TotalWidth(vs)))
    ensures Valid(joined) && joined.width == CapWidth(TotalWidth(vs))
    ensures TotalWidth(vs) <= MAX_WIDTH ==> Joins(joined, vs, TotalWidth(vs))
  {}
}
