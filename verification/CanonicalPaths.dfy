module CanonicalPaths {
  // What two keys tell apart, said by paths into the values: everything a path
  // reaches without entering a `Span`, and nothing else.

  import opened Names
  import opened Canonical

  /* ---- paths into a value ---- */

  /** The values directly inside a value. */
  function Kids(d: Data): Datas {
    match d
    case Present(x) => More(x, End)
    case Wrapped(x) => More(x, End)
    case Items(_, ds) => ds
    case Entries(_, ds) => ds
    case Product(ds) => ds
    case Record(ds) => ds
    case Variant(_, ds) => ds
    case _ => End
  }

  function Get(ds: Datas, i: nat): (d: Data)
    requires i < Count(ds)
    ensures d < ds
  {
    if i == 0 then ds.head else Get(ds.rest, i - 1)
  }

  /** The value a path of child positions leads to. */
  function Sub(d: Data, path: seq<nat>): Option<Data>
    decreases |path|
  {
    if path == [] then Some(d)
    else if path[0] < Count(Kids(d)) then Sub(Get(Kids(d), path[0]), path[1..]) else None
  }

  /** Two values alike except for what is inside them. */
  predicate SameHead(a: Data, b: Data) {
    Count(Kids(a)) == Count(Kids(b)) &&
    match a
    case Items(known, _) => b.Items? && b.known == known
    case Entries(known, _) => b.Entries? && b.known == known
    case Present(_) => b.Present?
    case Wrapped(_) => b.Wrapped?
    case Product(_) => b.Product?
    case Record(_) => b.Record?
    case Variant(index, _) => b.Variant? && b.index == index
    case _ => a == b
  }

  /* ---- types along a path ---- */

  function TypeAt(ts: Types, i: nat): Schema {
    match ts
    case Each(s) => if i < |s| then s[i] else Empty
    case Every(t) => t
    case Alternating(k, v) => if i % 2 == 0 then k else v
  }

  /** The types of what is directly inside a value. */
  function KidTypes(env: Env, d: Data, s: Schema): Types {
    match s
    case Optional(t) => Every(t)
    case Sequence(t) => Every(t)
    case Mapping(k, v) => Alternating(k, v)
    case Tuple(ts) => Each(ts)
    case Named(id) =>
      if id !in env then Each([]) else
        (match env[id]
         case NewtypeDef(t) => Every(t)
         case TupleDef(ts) => Each(ts)
         case StructDef(_, ts) => Each(ts)
         case EnumDef(vs) => Each(if d.Variant? && d.index < |vs| then vs[d.index].1 else []))
    case _ => Each([])
  }

  predicate IsSpan(env: Env, s: Schema) {
    s.Named? && s.id in env && env[s.id].StructDef? && env[s.id].name == "Span"
  }

  /** The path leads to a part of `d` without entering a `Span`. */
  predicate Sees(env: Env, d: Data, s: Schema, path: seq<nat>)
    decreases |path|
  {
    path == [] ||
    (!IsSpan(env, s) && path[0] < Count(Kids(d)) && Sees(env, Get(Kids(d), path[0]), TypeAt(KidTypes(env, d, s), path[0]), path[1..]))
  }

  /** The values differ at a path that enters no `Span`. */
  ghost predicate DifferAt(env: Env, a: Data, b: Data, s: Schema, path: seq<nat>) {
    && (Sees(env, a, s, path) || Sees(env, b, s, path))
    && (Sub(a, path).Some? && Sub(b, path).Some? ==> !SameHead(Sub(a, path).value, Sub(b, path).value))
  }

  ghost predicate EqualOutsideSpans(env: Env, a: Data, b: Data, s: Schema) {
    forall path :: !DifferAt(env, a, b, s, path)
  }

  /* ---- one level of erasure ---- */

  lemma KidsTyped(env: Env, d: Data, s: Schema)
    requires HasType(env, d, s)
    ensures HasTypes(env, Kids(d), KidTypes(env, d, s))
  {
    hide Power256, InRange;
  }

  lemma {:induction false} TypedAt(env: Env, ds: Datas, ts: Types, i: nat)
    requires HasTypes(env, ds, ts) && i < Count(ds)
    ensures HasType(env, Get(ds, i), TypeAt(ts, i))
  {
    hide HasType;
    if i > 0 { TypedAt(env, ds.rest, TailTypes(ts), i - 1); }
  }

  lemma KidTyped(env: Env, d: Data, s: Schema, i: nat)
    requires HasType(env, d, s) && i < Count(Kids(d))
    ensures HasType(env, Get(Kids(d), i), TypeAt(KidTypes(env, d, s), i))
  {
    hide HasType, HasTypes, Kids, KidTypes, TypeAt, Get;
    KidsTyped(env, d, s);
    TypedAt(env, Kids(d), KidTypes(env, d, s), i);
  }

  lemma {:induction false} ErasedCount(env: Env, ds: Datas, ts: Types)
    requires HasTypes(env, ds, ts)
    ensures Count(ErasedAll(env, ds, ts)) == Count(ds)
  {
    hide HasType, Erased;
    if ds.More? { ErasedCount(env, ds.rest, TailTypes(ts)); }
  }

  /** Both have the type, and one erasure. */
  ghost predicate Alike(env: Env, a: Data, b: Data, s: Schema) {
    HasType(env, a, s) && HasType(env, b, s) && Erased(env, a, s) == Erased(env, b, s)
  }

  ghost predicate AllAlike(env: Env, a: Datas, b: Datas, ts: Types) {
    Count(a) == Count(b) && forall i: nat :: i < Count(a) ==> Alike(env, Get(a, i), Get(b, i), TypeAt(ts, i))
  }

  lemma {:induction false} ErasedAllIff(env: Env, a: Datas, b: Datas, ts: Types)
    requires HasTypes(env, a, ts) && HasTypes(env, b, ts)
    ensures ErasedAll(env, a, ts) == ErasedAll(env, b, ts) <==> AllAlike(env, a, b, ts)
  {
    hide HasType, Erased;
    ErasedCount(env, a, ts);
    ErasedCount(env, b, ts);
    if a.More? && b.More? {
      var r := TailTypes(ts);
      ErasedAllIff(env, a.rest, b.rest, r);
      if AllAlike(env, a.rest, b.rest, r) && Alike(env, a.head, b.head, HeadType(ts)) {
        forall i: nat | i < Count(a) ensures Alike(env, Get(a, i), Get(b, i), TypeAt(ts, i)) {
          if i > 0 { assert Alike(env, Get(a.rest, i - 1), Get(b.rest, i - 1), TypeAt(r, i - 1)); }
        }
      }
      if AllAlike(env, a, b, ts) {
        assert Alike(env, Get(a, 0), Get(b, 0), TypeAt(ts, 0));
        forall i: nat | i < Count(a.rest) ensures Alike(env, Get(a.rest, i), Get(b.rest, i), TypeAt(r, i)) {
          assert Alike(env, Get(a, i + 1), Get(b, i + 1), TypeAt(ts, i + 1));
        }
      }
    }
  }

  lemma {:induction false} SpanFields(env: Env, a: Datas, b: Datas, ts: seq<Schema>)
    requires HasTypes(env, a, Each(ts)) && HasTypes(env, b, Each(ts))
    ensures Count(a) == Count(b)
  {
    FieldCount(env, a, ts);
    FieldCount(env, b, ts);
  }

  lemma SameTypes(env: Env, a: Data, b: Data, s: Schema)
    requires SameHead(a, b)
    ensures KidTypes(env, a, s) == KidTypes(env, b, s)
  {}

  /** Erasure compares heads, and below anything but a `Span` all that is inside. */
  lemma ErasedStep(env: Env, a: Data, b: Data, s: Schema)
    requires HasType(env, a, s) && HasType(env, b, s)
    ensures Alike(env, a, b, s) <==>
      SameHead(a, b) && (IsSpan(env, s) || AllAlike(env, Kids(a), Kids(b), KidTypes(env, a, s)))
  {
    hide AllAlike, Power256, InRange, ErasedAll, HasTypes;
    KidsTyped(env, a, s);
    KidsTyped(env, b, s);
    var ts, us := KidTypes(env, a, s), KidTypes(env, b, s);
    ErasedCount(env, Kids(a), ts);
    ErasedCount(env, Kids(b), us);
    if SameHead(a, b) { SameTypes(env, a, b, s); }
    if ts == us { ErasedAllIff(env, Kids(a), Kids(b), ts); }
    OneKid(env, a, ts);
    OneKid(env, b, us);
    if IsSpan(env, s) { SpanFields(env, Kids(a), Kids(b), env[s.id].fields); }
  }

  /** The erasure of a single part. */
  lemma OneKid(env: Env, d: Data, ts: Types)
    requires HasTypes(env, Kids(d), ts)
    ensures (d.Present? || d.Wrapped?) && ts.Every? ==> HasType(env, d.d, ts.t) && ErasedAll(env, Kids(d), ts) == More(Erased(env, d.d, ts.t), End)
  {
    hide HasType, Erased;
  }

  /* ---- whole values ---- */

  lemma PathStep(env: Env, d: Data, s: Schema, i: nat, path: seq<nat>)
    ensures Sees(env, d, s, [i] + path) <==>
      !IsSpan(env, s) && i < Count(Kids(d)) && Sees(env, Get(Kids(d), i), TypeAt(KidTypes(env, d, s), i), path)
    ensures Sub(d, [i] + path) == if i < Count(Kids(d)) then Sub(Get(Kids(d), i), path) else None
  {
    hide Kids, KidTypes, TypeAt, Get, IsSpan;
    assert ([i] + path)[0] == i && ([i] + path)[1..] == path;
  }

  lemma DifferStep(env: Env, a: Data, b: Data, s: Schema, i: nat, path: seq<nat>)
    requires SameHead(a, b)
    ensures DifferAt(env, a, b, s, [i] + path) <==>
      && !IsSpan(env, s) && i < Count(Kids(a))
      && i < Count(Kids(b)) && DifferAt(env, Get(Kids(a), i), Get(Kids(b), i), TypeAt(KidTypes(env, a, s), i), path)
  {
    hide Kids, KidTypes, TypeAt, Get, IsSpan, Sees, Sub, SameHead;
    CountOfHead(a, b);
    SameTypes(env, a, b, s);
    PathStep(env, a, s, i, path);
    PathStep(env, b, s, i, path);
  }

  lemma DifferHere(env: Env, a: Data, b: Data, s: Schema)
    ensures DifferAt(env, a, b, s, []) <==> !SameHead(a, b)
  {
    hide SameHead;
  }

  /** Values with one erasure differ at no path outside their spans. */
  lemma {:induction false} AlikeNowhereDiffers(env: Env, a: Data, b: Data, s: Schema, path: seq<nat>)
    requires Alike(env, a, b, s)
    ensures !DifferAt(env, a, b, s, path)
    decreases |path|
  {
    hide HasType, Kids, KidTypes, SameHead, IsSpan, DifferAt, Get, TypeAt, Erased;
    ErasedStep(env, a, b, s);
    DifferHere(env, a, b, s);
    if path != [] {
      var i, rest := path[0], path[1..];
      assert path == [i] + rest;
      DifferStep(env, a, b, s, i, rest);
      if i < Count(Kids(a)) && !IsSpan(env, s) {
        AlikeNowhereDiffers(env, Get(Kids(a), i), Get(Kids(b), i), TypeAt(KidTypes(env, a, s), i), rest);
      }
    }
  }

  lemma CountOfHead(a: Data, b: Data)
    requires SameHead(a, b)
    ensures Count(Kids(a)) == Count(Kids(b))
  {}

  lemma KidsEqualToo(env: Env, a: Data, b: Data, s: Schema, i: nat)
    requires EqualOutsideSpans(env, a, b, s) && SameHead(a, b) && !IsSpan(env, s) && i < Count(Kids(a))
    ensures i < Count(Kids(b)) && EqualOutsideSpans(env, Get(Kids(a), i), Get(Kids(b), i), TypeAt(KidTypes(env, a, s), i))
  {
    hide Kids, KidTypes, SameHead, IsSpan, Get, TypeAt, DifferAt;
    CountOfHead(a, b);
    forall path ensures !DifferAt(env, Get(Kids(a), i), Get(Kids(b), i), TypeAt(KidTypes(env, a, s), i), path) {
      assert !DifferAt(env, a, b, s, [i] + path);
      DifferStep(env, a, b, s, i, path);
    }
  }

  lemma EqualHere(env: Env, a: Data, b: Data, s: Schema)
    requires EqualOutsideSpans(env, a, b, s)
    ensures SameHead(a, b)
  {
    hide DifferAt, SameHead;
    assert !DifferAt(env, a, b, s, []);
    DifferHere(env, a, b, s);
  }

  /** Values that differ at no such path have one erasure. */
  lemma {:induction false} NowhereDiffersAlike(env: Env, a: Data, b: Data, s: Schema)
    requires HasType(env, a, s) && HasType(env, b, s) && EqualOutsideSpans(env, a, b, s)
    ensures Alike(env, a, b, s)
    decreases a
  {
    hide HasType, Kids, KidTypes, SameHead, IsSpan, Get, TypeAt, EqualOutsideSpans, Alike;
    EqualHere(env, a, b, s);
    CountOfHead(a, b);
    var ts := KidTypes(env, a, s);
    SameTypes(env, a, b, s);
    if !IsSpan(env, s) {
      forall i: nat | i < Count(Kids(a)) ensures Alike(env, Get(Kids(a), i), Get(Kids(b), i), TypeAt(ts, i)) {
        KidTyped(env, a, s, i);
        KidTyped(env, b, s, i);
        KidsEqualToo(env, a, b, s, i);
        KidSmaller(a, i);
        NowhereDiffersAlike(env, Get(Kids(a), i), Get(Kids(b), i), TypeAt(ts, i));
      }
    }
    ErasedStep(env, a, b, s);
  }

  lemma {:induction false} AlikeIff(env: Env, a: Data, b: Data, s: Schema)
    requires HasType(env, a, s) && HasType(env, b, s)
    ensures Alike(env, a, b, s) <==> EqualOutsideSpans(env, a, b, s)
  {
    hide HasType, Alike, DifferAt;
    if Alike(env, a, b, s) {
      forall path ensures !DifferAt(env, a, b, s, path) { AlikeNowhereDiffers(env, a, b, s, path); }
    }
    if EqualOutsideSpans(env, a, b, s) { NowhereDiffersAlike(env, a, b, s); }
  }

  lemma KidSmaller(d: Data, i: nat)
    requires i < Count(Kids(d))
    ensures Get(Kids(d), i) < d
  {}

  /** Two keys are equal exactly when no path that stays out of every `Span` leads to a difference. */
  lemma {:induction false} KeysEqualPaths(env: Env, a: Data, b: Data, s: Schema)
    requires HasType(env, a, s) && HasType(env, b, s) && Sized(env, a, s) && Sized(env, b, s)
    ensures Encoding(env, a, s) == Encoding(env, b, s) <==> EqualOutsideSpans(env, a, b, s)
  {
    hide HasType, Sized, Encoding, Erased, EqualOutsideSpans;
    KeysEqualIff(env, a, b, s);
    AlikeIff(env, a, b, s);
  }

  /** The environment defines no `Span`. */
  ghost predicate NoSpans(env: Env) {
    forall id :: id in env && env[id].StructDef? ==> env[id].name != "Span"
  }

  /** Without a `Span` type nothing is dropped. */
  lemma {:induction false} ErasedIsSame(env: Env, d: Data, s: Schema)
    requires NoSpans(env) && HasType(env, d, s)
    ensures Erased(env, d, s) == d
    decreases d
  {
    hide HasTypes, ErasedAll, Power256, InRange;
    match s
    case Number(_, _) =>
    case Boolean =>
    case Character =>
    case Text =>
    case Empty =>
    case Optional(u) => if d.Present? { ErasedIsSame(env, d.d, u); }
    case Sequence(u) => ErasedAllSame(env, d.items, Every(u));
    case Mapping(k, v) => ErasedAllSame(env, d.items, Alternating(k, v));
    case Tuple(ts) => ErasedAllSame(env, d.items, Each(ts));
    case Named(id) =>
      match env[id]
      case NewtypeDef(u) => ErasedIsSame(env, d.d, u);
      case TupleDef(ts) => ErasedAllSame(env, d.items, Each(ts));
      case StructDef(_, ts) => ErasedAllSame(env, d.items, Each(ts));
      case EnumDef(vs) => ErasedAllSame(env, d.items, Each(vs[d.index].1));
  }

  lemma {:induction false} ErasedAllSame(env: Env, ds: Datas, ts: Types)
    requires NoSpans(env) && HasTypes(env, ds, ts)
    ensures ErasedAll(env, ds, ts) == ds
    decreases ds
  {
    if ds.More? {
      ErasedIsSame(env, ds.head, HeadType(ts));
      ErasedAllSame(env, ds.rest, TailTypes(ts));
    }
  }

  /** Without a `Span` type keys are equal exactly for equal values. */
  lemma {:induction false} KeysInjective(env: Env, a: Data, b: Data, s: Schema)
    requires NoSpans(env) && HasType(env, a, s) && HasType(env, b, s) && Sized(env, a, s) && Sized(env, b, s)
    ensures Encoding(env, a, s) == Encoding(env, b, s) <==> a == b
  {
    hide HasType, Sized, Encoding, Erased, NoSpans;
    KeysEqualIff(env, a, b, s);
    ErasedIsSame(env, a, s);
    ErasedIsSame(env, b, s);
  }

  /* ---- when there is a key ---- */

  /** A sequence or map of unknown length. */
  predicate Endless(d: Data) { (d.Items? || d.Entries?) && !d.known }

  ghost predicate AllSized(env: Env, ds: Datas, ts: Types) {
    forall i: nat :: i < Count(ds) ==> HasType(env, Get(ds, i), TypeAt(ts, i)) && Sized(env, Get(ds, i), TypeAt(ts, i))
  }

  lemma {:induction false} SizedAllIff(env: Env, ds: Datas, ts: Types)
    requires HasTypes(env, ds, ts)
    ensures SizedAll(env, ds, ts) <==> AllSized(env, ds, ts)
  {
    hide HasType, Sized;
    if ds.More? {
      var r := TailTypes(ts);
      SizedAllIff(env, ds.rest, r);
      forall i: nat | i < Count(ds) ensures HasType(env, Get(ds, i), TypeAt(ts, i)) { TypedAt(env, ds, ts, i); }
      if AllSized(env, ds, ts) {
        assert Sized(env, Get(ds, 0), TypeAt(ts, 0));
        forall i: nat | i < Count(ds.rest)
          ensures HasType(env, Get(ds.rest, i), TypeAt(r, i)) && Sized(env, Get(ds.rest, i), TypeAt(r, i))
        {
          assert Sized(env, Get(ds, i + 1), TypeAt(ts, i + 1));
        }
      }
      if AllSized(env, ds.rest, r) && Sized(env, ds.head, HeadType(ts)) {
        forall i: nat | i < Count(ds) ensures Sized(env, Get(ds, i), TypeAt(ts, i)) {
          if i > 0 { assert Sized(env, Get(ds.rest, i - 1), TypeAt(r, i - 1)); }
        }
      }
    }
  }

  lemma SizedStep(env: Env, d: Data, s: Schema)
    requires HasType(env, d, s)
    ensures Sized(env, d, s) <==> !Endless(d) && (IsSpan(env, s) || AllSized(env, Kids(d), KidTypes(env, d, s)))
  {
    hide AllSized, Power256, InRange, SizedAll, HasTypes;
    KidsTyped(env, d, s);
    var ts := KidTypes(env, d, s);
    SizedAllIff(env, Kids(d), ts);
    OneSized(env, d, ts);
    NoKids(env, d, ts);
  }

  lemma OneSized(env: Env, d: Data, ts: Types)
    requires HasTypes(env, Kids(d), ts)
    ensures (d.Present? || d.Wrapped?) && ts.Every? ==> HasType(env, d.d, ts.t) && (SizedAll(env, Kids(d), ts) <==> Sized(env, d.d, ts.t))
  {
    hide HasType, Sized;
  }

  lemma NoKids(env: Env, d: Data, ts: Types)
    requires HasTypes(env, Kids(d), ts)
    ensures Kids(d) == End ==> SizedAll(env, Kids(d), ts)
  {}

  /** A path that stays out of every `Span` leads to an unknown length. */
  ghost predicate EndlessAt(env: Env, d: Data, s: Schema, path: seq<nat>) {
    Sees(env, d, s, path) && Sub(d, path).Some? && Endless(Sub(d, path).value)
  }

  lemma EndlessStep(env: Env, d: Data, s: Schema, i: nat, path: seq<nat>)
    ensures EndlessAt(env, d, s, [i] + path) <==>
      !IsSpan(env, s) && i < Count(Kids(d)) && EndlessAt(env, Get(Kids(d), i), TypeAt(KidTypes(env, d, s), i), path)
    ensures EndlessAt(env, d, s, []) <==> Endless(d)
  {
    hide Kids, KidTypes, TypeAt, Get, IsSpan, Endless;
    PathStep(env, d, s, i, path);
  }

  /** There is a key exactly when no such path exists. */
  lemma {:induction false} SizedPaths(env: Env, d: Data, s: Schema)
    requires HasType(env, d, s)
    ensures Sized(env, d, s) <==> forall path :: !EndlessAt(env, d, s, path)
    decreases d
  {
    hide HasType, Sized, Kids, KidTypes, IsSpan, Get, TypeAt, Endless, EndlessAt;
    SizedStep(env, d, s);
    var ts := KidTypes(env, d, s);
    forall i: nat | i < Count(Kids(d)) && !IsSpan(env, s)
      ensures HasType(env, Get(Kids(d), i), TypeAt(ts, i))
      ensures Sized(env, Get(Kids(d), i), TypeAt(ts, i)) <==> forall path :: !EndlessAt(env, d, s, [i] + path)
    {
      var x, t := Get(Kids(d), i), TypeAt(ts, i);
      KidTyped(env, d, s, i);
      KidSmaller(d, i);
      SizedPaths(env, x, t);
      forall path ensures EndlessAt(env, d, s, [i] + path) == EndlessAt(env, x, t, path) { EndlessStep(env, d, s, i, path); }
    }
    EndlessStep(env, d, s, 0, []);
    if Sized(env, d, s) {
      forall path ensures !EndlessAt(env, d, s, path) {
        if path != [] {
          assert path == [path[0]] + path[1..];
          EndlessStep(env, d, s, path[0], path[1..]);
        }
      }
    }
    if forall path :: !EndlessAt(env, d, s, path) {
      assert !EndlessAt(env, d, s, []);
    }
  }

  /** `Some(1)`, `Some(2)` and `None` of one type have three different keys. */
  lemma {:induction false} OptionsDistinct()
    ensures var s, one, two := Optional(Number(4, false)), Present(Num(1)), Present(Num(2));
      && HasType(map[], one, s) && HasType(map[], two, s) && HasType(map[], Absent, s)
      && Encoding(map[], one, s) != Encoding(map[], two, s) && Encoding(map[], one, s) != Encoding(map[], Absent, s)
  {
    var s, one, two := Optional(Number(4, false)), Present(Num(1)), Present(Num(2));
    EightBytes();
    hide Encoding, Power256;
    KeysInjective(map[], one, two, s);
    KeysInjective(map[], one, Absent, s);
  }

  /** The keys of two values: there unless some length outside the spans is unknown, and equal unless something outside them differs. */
  method CompareKeys(env: Env, a: Data, b: Data, s: Schema) returns (x: Option<seq<Byte>>, y: Option<seq<Byte>>)
    requires HasType(env, a, s) && HasType(env, b, s)
    ensures x.Some? <==> forall path :: !EndlessAt(env, a, s, path)
    ensures y.Some? <==> forall path :: !EndlessAt(env, b, s, path)
    ensures x.Some? && y.Some? ==> (x == y <==> EqualOutsideSpans(env, a, b, s))
  {
    hide HasType, Sized, Encoding, EndlessAt, EqualOutsideSpans;
    SizedPaths(env, a, s);
    SizedPaths(env, b, s);
    if Sized(env, a, s) && Sized(env, b, s) { KeysEqualPaths(env, a, b, s); }
    x := SpanFree(env, a, s);
    y := SpanFree(env, b, s);
  }

  const SpanEnv: Env := map[
    0 := StructDef("Span", [Number(8, false), Number(8, false)]),
    1 := StructDef("Ident", [Number(4, false), Named(0)])]

  function Ident(n: nat, span: Data): Data { Record(More(Num(n), More(span, End))) }

  lemma IdentTyped(n: nat, span: Data)
    requires n < Power256(4) && HasType(SpanEnv, span, Named(0))
    ensures HasType(SpanEnv, Ident(n, span), Named(1))
    ensures Encoding(SpanEnv, Ident(n, span), Named(1)) == LittleEndian(Pattern(n, 4), 4)
  {
    var ts := Each([Number(4, false), Named(0)]);
    var us := Each([Named(0)]);
    assert TailTypes(ts) == us && TailTypes(us) == Each([]);
    hide Power256, LittleEndian, Pattern;
    var none: seq<Byte> := [];
    assert HasTypes(SpanEnv, More(span, End), us) && EncodingAll(SpanEnv, More(span, End), us) == none + none;
    assert HasTypes(SpanEnv, More(Num(n), More(span, End)), ts);
    var x := LittleEndian(Pattern(n, 4), 4);
    assert EncodingAll(SpanEnv, More(Num(n), More(span, End)), ts) == Encoding(SpanEnv, Num(n), Number(4, false)) + (none + none);
    assert x + (none + none) == x;
  }

  /** A struct around a `Span` has the key of its other fields, whatever the `Span` holds. */
  lemma {:induction false} SpansShareKeys(n: nat, x: Data, m: nat, y: Data)
    requires n < Power256(4) && HasType(SpanEnv, x, Named(0)) && m < Power256(4) && HasType(SpanEnv, y, Named(0))
    ensures HasType(SpanEnv, Ident(n, x), Named(1)) && HasType(SpanEnv, Ident(m, y), Named(1))
    ensures Encoding(SpanEnv, Ident(n, x), Named(1)) == Encoding(SpanEnv, Ident(m, y), Named(1)) <==> n == m
  {
    hide Power256, LittleEndian, HasType, Encoding;
    IdentTyped(n, x);
    IdentTyped(m, y);
    SmallPattern(n);
    SmallPattern(m);
    if LittleEndian(n, 4) == LittleEndian(m, 4) { LittleEndianInjective(n, m, 4); }
  }

  /** Samples of the layout: options and flags as one byte, lengths as eight, characters and variant indices as four. */
  lemma {:induction false} Samples()
    ensures Encoding(map[], Present(Num(0x0102)), Optional(Number(2, false))) == [1, 2, 1]
    ensures Encoding(map[], Num(-2), Number(1, true)) == [254] && Encoding(map[], Flag(true), Boolean) == [1]
    ensures Encoding(map[], Char(65), Character) == [65, 0, 0, 0]
    ensures Encoding(map[], Blob([7]), Text) == [1, 0, 0, 0, 0, 0, 0, 0] + [7]
  {
    assert Power256(1) == 256 && Power256(2) == 0x1_0000;
    var one := LittleEndian(1, 8);
    forall i: nat | i < 8 ensures one[i] == if i == 0 then 1 else 0 {
      LittleEndianAt(1, 8, i);
      BigPower(i);
    }
    assert one == [1, 0, 0, 0, 0, 0, 0, 0];
    var letter := LittleEndian(65, 4);
    forall i: nat | i < 4 ensures letter[i] == if i == 0 then 65 else 0 {
      LittleEndianAt(65, 4, i);
      BigPower(i);
    }
    assert letter == [65, 0, 0, 0];
  }

  lemma BigPower(i: nat)
    ensures if i == 0 then Power256(i) == 1 else Power256(i) >= 256
  {}
}
