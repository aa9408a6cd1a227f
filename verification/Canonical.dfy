module Canonical {
  // Source-position-free bytes of a typed value, used as a cache key: variant
  // indices, lengths and fixed-width scalars, with the fields of `Span`s left out.

  import opened Names
  import WordBits

  type Byte = b: int | 0 <= b < 256

  const LENGTHS: nat := 0x1_0000_0000_0000_0000

  /* ---- the typed universe ---- */

  /** A type; recursive types go through `Named`. */
  datatype Schema =
    | Number(size: nat, signed: bool)
    | Boolean
    | Character
    | Text
    | Empty
    | Optional(inner: Schema)
    | Sequence(inner: Schema)
    | Mapping(key: Schema, val: Schema)
    | Tuple(fields: seq<Schema>)
    | Named(id: nat)

  datatype VariantKind = UnitKind | NewtypeKind | TupleKind | StructKind

  datatype Definition =
    | NewtypeDef(inner: Schema)
    | TupleDef(fields: seq<Schema>)
    | StructDef(name: string, fields: seq<Schema>)
    | EnumDef(variants: seq<(VariantKind, seq<Schema>)>)

  type Env = map<nat, Definition>

  datatype Data =
    | Num(n: int)
    | Flag(b: bool)
    | Char(code: nat)
    | Blob(bytes: seq<Byte>)
    | Unit
    | Absent
    | Present(d: Data)
    | Wrapped(d: Data)
    | Items(known: bool, items: Datas)
    | Entries(known: bool, items: Datas)
    | Product(items: Datas)
    | Record(items: Datas)
    | Variant(index: nat, items: Datas)

  datatype Datas = End | More(head: Data, rest: Datas)

  function Count(ds: Datas): nat {
    match ds case End => 0 case More(_, r) => 1 + Count(r)
  }

  /** The types of a list: one each, all alike, or keys and values in turn. */
  datatype Types = Each(ts: seq<Schema>) | Every(t: Schema) | Alternating(k: Schema, v: Schema)

  predicate HasHead(ts: Types) { ts.Each? ==> |ts.ts| > 0 }

  function HeadType(ts: Types): Schema
    requires HasHead(ts)
  {
    match ts case Each(s) => s[0] case Every(t) => t case Alternating(k, _) => k
  }

  function TailTypes(ts: Types): Types
    requires HasHead(ts)
  {
    match ts case Each(s) => Each(s[1..]) case Every(t) => ts case Alternating(k, v) => Alternating(v, k)
  }

  function Power256(k: nat): (p: nat)
    ensures p > 0
  {
    if k == 0 then 1 else 256 * Power256(k - 1)
  }

  predicate InRange(n: int, size: nat, signed: bool) {
    if signed then 0 <= 2 * n + Power256(size) < 2 * Power256(size) else 0 <= n < Power256(size)
  }

  /** `d` is a value of type `s`. */
  predicate HasType(env: Env, d: Data, s: Schema)
    decreases d
  {
    match s
    case Number(size, signed) => d.Num? && InRange(d.n, size, signed)
    case Boolean => d.Flag?
    case Character => d.Char? && d.code < 0x11_0000
    case Text => d.Blob? && |d.bytes| < LENGTHS
    case Empty => d.Unit?
    case Optional(t) => d.Absent? || (d.Present? && HasType(env, d.d, t))
    case Sequence(t) => d.Items? && Count(d.items) < LENGTHS && HasTypes(env, d.items, Every(t))
    case Mapping(k, v) =>
      d.Entries? && Count(d.items) / 2 < LENGTHS && Count(d.items) % 2 == 0 && HasTypes(env, d.items, Alternating(k, v))
    case Tuple(ts) => d.Product? && HasTypes(env, d.items, Each(ts))
    case Named(id) =>
      id in env &&
      match env[id]
      case NewtypeDef(t) => d.Wrapped? && HasType(env, d.d, t)
      case TupleDef(ts) => d.Product? && HasTypes(env, d.items, Each(ts))
      case StructDef(_, ts) => d.Record? && HasTypes(env, d.items, Each(ts))
      case EnumDef(vs) =>
        d.Variant? && d.index < |vs| <= Power256(4) && HasTypes(env, d.items, Each(vs[d.index].1))
  }

  predicate HasTypes(env: Env, ds: Datas, ts: Types)
    decreases ds
  {
    match ds
    case End => ts.Each? ==> ts.ts == []
    case More(h, r) => HasHead(ts) && HasType(env, h, HeadType(ts)) && HasTypes(env, r, TailTypes(ts))
  }

  /* ---- equality up to spans ---- */

  /** `d` with the fields of every `Span` dropped. */
  function Erased(env: Env, d: Data, s: Schema): Data
    requires HasType(env, d, s)
    decreases d
  {
    match s
    case Number(_, _) => d
    case Boolean => d
    case Character => d
    case Text => d
    case Empty => d
    case Optional(t) => if d.Absent? then d else Present(Erased(env, d.d, t))
    case Sequence(t) => Items(d.known, ErasedAll(env, d.items, Every(t)))
    case Mapping(k, v) => Entries(d.known, ErasedAll(env, d.items, Alternating(k, v)))
    case Tuple(ts) => Product(ErasedAll(env, d.items, Each(ts)))
    case Named(id) =>
      match env[id]
      case NewtypeDef(t) => Wrapped(Erased(env, d.d, t))
      case TupleDef(ts) => Product(ErasedAll(env, d.items, Each(ts)))
      case StructDef(name, ts) => if name == "Span" then Record(End) else Record(ErasedAll(env, d.items, Each(ts)))
      case EnumDef(vs) => Variant(d.index, ErasedAll(env, d.items, Each(vs[d.index].1)))
  }

  function ErasedAll(env: Env, ds: Datas, ts: Types): Datas
    requires HasTypes(env, ds, ts)
    decreases ds
  {
    match ds
    case End => End
    case More(h, r) => More(Erased(env, h, HeadType(ts)), ErasedAll(env, r, TailTypes(ts)))
  }

  /** Every sequence and map outside a `Span` knows its length. */
  predicate Sized(env: Env, d: Data, s: Schema)
    requires HasType(env, d, s)
    decreases d
  {
    match s
    case Number(_, _) => true
    case Boolean => true
    case Character => true
    case Text => true
    case Empty => true
    case Optional(t) => d.Absent? || Sized(env, d.d, t)
    case Sequence(t) => d.known && SizedAll(env, d.items, Every(t))
    case Mapping(k, v) => d.known && SizedAll(env, d.items, Alternating(k, v))
    case Tuple(ts) => SizedAll(env, d.items, Each(ts))
    case Named(id) =>
      match env[id]
      case NewtypeDef(t) => Sized(env, d.d, t)
      case TupleDef(ts) => SizedAll(env, d.items, Each(ts))
      case StructDef(name, ts) => name == "Span" || SizedAll(env, d.items, Each(ts))
      case EnumDef(vs) => SizedAll(env, d.items, Each(vs[d.index].1))
  }

  predicate SizedAll(env: Env, ds: Datas, ts: Types)
    requires HasTypes(env, ds, ts)
    decreases ds
  {
    match ds
    case End => true
    case More(h, r) => Sized(env, h, HeadType(ts)) && SizedAll(env, r, TailTypes(ts))
  }

  /* ---- the encoding ---- */

  /** `to_le_bytes` of `size` bytes. */
  function LittleEndian(n: nat, size: nat): (bs: seq<Byte>)
    ensures |bs| == size
  {
    if size == 0 then [] else [n % 256] + LittleEndian(n / 256, size - 1)
  }

  /** Byte `i` counts `256^i`: least significant first. */
  lemma {:induction false} LittleEndianAt(n: nat, size: nat, i: nat)
    requires i < size
    ensures LittleEndian(n, size)[i] == n / Power256(i) % 256
  {
    if i > 0 {
      LittleEndianAt(n / 256, size - 1, i - 1);
      DivTwice(n, 256, Power256(i - 1));
    }
  }

  lemma DivTwice(n: nat, a: nat, b: nat)
    requires a > 0 && b > 0
    ensures a * b > 0 && (n / a) / b == n / (a * b)
  {
    var q, r := n / a, n % a;
    var q', r' := q / b, q % b;
    SplitTwice(a, b, q', r', r);
    WordBits.MulMono(a, r' + 1, b);
    WordBits.Distribute(a, r', 1);
    WordBits.MulMono(a, 1, b);
    WordBits.DivUnique(n, a * b, q', a * r' + r);
  }

  lemma SplitTwice(a: int, b: int, q: int, r: int, s: int)
    ensures a * (b * q + r) + s == (a * b) * q + (a * r + s)
  {
    WordBits.Distribute(a, b * q, r);
    WordBits.Assoc(a, b, q);
  }

  /** The two's-complement pattern of a scalar. */
  function Pattern(n: int, size: nat): nat {
    n % Power256(size)
  }

  /** The bytes of `d` as a pure function. */
  function Encoding(env: Env, d: Data, s: Schema): seq<Byte>
    requires HasType(env, d, s)
    decreases d
  {
    match s
    case Number(size, _) => LittleEndian(Pattern(d.n, size), size)
    case Boolean => [if d.b then 1 else 0]
    case Character => LittleEndian(d.code, 4)
    case Text => LittleEndian(|d.bytes|, 8) + d.bytes
    case Empty => []
    case Optional(t) => if d.Absent? then [0] else [1] + Encoding(env, d.d, t)
    case Sequence(t) => LittleEndian(Count(d.items), 8) + EncodingAll(env, d.items, Every(t))
    case Mapping(k, v) => LittleEndian(Count(d.items) / 2, 8) + EncodingAll(env, d.items, Alternating(k, v))
    case Tuple(ts) => EncodingAll(env, d.items, Each(ts))
    case Named(id) =>
      match env[id]
      case NewtypeDef(t) => Encoding(env, d.d, t)
      case TupleDef(ts) => EncodingAll(env, d.items, Each(ts))
      case StructDef(name, ts) => if name == "Span" then [] else EncodingAll(env, d.items, Each(ts))
      case EnumDef(vs) => LittleEndian(d.index, 4) + EncodingAll(env, d.items, Each(vs[d.index].1))
  }

  function EncodingAll(env: Env, ds: Datas, ts: Types): seq<Byte>
    requires HasTypes(env, ds, ts)
    decreases ds
  {
    match ds
    case End => []
    case More(h, r) => Encoding(env, h, HeadType(ts)) + EncodingAll(env, r, TailTypes(ts))
  }

  /* ---- unique decodability ---- */

  lemma {:induction false} LittleEndianInjective(m: nat, n: nat, size: nat)
    requires m < Power256(size) && n < Power256(size) && LittleEndian(m, size) == LittleEndian(n, size)
    ensures m == n
  {
    if size > 0 {
      assert LittleEndian(m, size)[0] == LittleEndian(n, size)[0];
      assert LittleEndian(m, size)[1..] == LittleEndian(n, size)[1..];
      LittleEndianInjective(m / 256, n / 256, size - 1);
    }
  }

  lemma PatternInjective(m: int, n: int, size: nat, signed: bool)
    requires InRange(m, size, signed) && InRange(n, size, signed) && Pattern(m, size) == Pattern(n, size)
    ensures m == n
  {
    var p := Power256(size);
    assert m % p == if m < 0 then m + p else m by { ModRange(m, p); }
    assert n % p == if n < 0 then n + p else n by { ModRange(n, p); }
  }

  lemma ModRange(n: int, p: nat)
    requires 0 <= n + p < 2 * p
    ensures n % p == if n < 0 then n + p else n
  {}

  /** Equally long prefixes of equal texts are equal, and so are the rests. */
  lemma SplitAt(x: seq<Byte>, y: seq<Byte>, s: seq<Byte>, t: seq<Byte>)
    requires |x| == |y| && x + s == y + t
    ensures x == y && s == t
  {
    assert x == (x + s)[..|x|] && y == (y + t)[..|y|];
    assert s == (x + s)[|x|..] && t == (y + t)[|y|..];
  }

  lemma Regroup(x: seq<Byte>, y: seq<Byte>, z: seq<Byte>)
    ensures (x + y) + z == x + (y + z)
  {}

  /** A fixed-width number in front of two texts. */
  lemma NumberFirst(m: nat, n: nat, size: nat, x: seq<Byte>, y: seq<Byte>, s: seq<Byte>, t: seq<Byte>)
    requires m < Power256(size) && n < Power256(size)
    requires (LittleEndian(m, size) + x) + s == (LittleEndian(n, size) + y) + t
    ensures m == n && x + s == y + t
  {
    Regroup(LittleEndian(m, size), x, s);
    Regroup(LittleEndian(n, size), y, t);
    SplitAt(LittleEndian(m, size), LittleEndian(n, size), x + s, y + t);
    LittleEndianInjective(m, n, size);
  }

  lemma EightBytes()
    ensures Power256(8) == LENGTHS && Power256(4) == 0x1_0000_0000
  {
    assert Power256(2) == 0x1_0000;
    assert Power256(4) == 0x1_0000 * Power256(2);
    assert Power256(6) == 0x1_0000 * Power256(4);
    assert Power256(8) == 0x1_0000 * Power256(6);
  }

  /** Encodings of one type are self-delimiting and determine the value up to spans. */
  lemma {:induction false} UniquelyDecodable(env: Env, a: Data, b: Data, ty: Schema, s: seq<Byte>, t: seq<Byte>)
    requires HasType(env, a, ty) && HasType(env, b, ty) && Sized(env, a, ty) && Sized(env, b, ty)
    requires Encoding(env, a, ty) + s == Encoding(env, b, ty) + t
    ensures Erased(env, a, ty) == Erased(env, b, ty) && s == t
    decreases a
  {
    EightBytes();
    hide HasTypes, SizedAll, EncodingAll, ErasedAll, Power256;
    match ty
    case Number(size, signed) =>
      SplitAt(Encoding(env, a, ty), Encoding(env, b, ty), s, t);
      LittleEndianInjective(Pattern(a.n, size), Pattern(b.n, size), size);
      PatternInjective(a.n, b.n, size, signed);
    case Boolean => SplitAt(Encoding(env, a, ty), Encoding(env, b, ty), s, t);
    case Character =>
      SplitAt(Encoding(env, a, ty), Encoding(env, b, ty), s, t);
      LittleEndianInjective(a.code, b.code, 4);
    case Text =>
      NumberFirst(|a.bytes|, |b.bytes|, 8, a.bytes, b.bytes, s, t);
      SplitAt(a.bytes, b.bytes, s, t);
    case Empty => assert [] + s == s && [] + t == t;
    case Optional(u) =>
      assert (Encoding(env, a, ty) + s)[0] == (Encoding(env, b, ty) + t)[0];
      if a.Absent? {
        SplitAt([0], [0], s, t);
      } else {
        var x, y := Encoding(env, a.d, u), Encoding(env, b.d, u);
        Regroup([1], x, s);
        Regroup([1], y, t);
        SplitAt([1], [1], x + s, y + t);
        UniquelyDecodable(env, a.d, b.d, u, s, t);
      }
    case Sequence(u) =>
      NumberFirst(Count(a.items), Count(b.items), 8, EncodingAll(env, a.items, Every(u)), EncodingAll(env, b.items, Every(u)), s, t);
      ListsDecodable(env, a.items, b.items, Every(u), s, t);
    case Mapping(k, v) =>
      NumberFirst(Count(a.items) / 2, Count(b.items) / 2, 8,
        EncodingAll(env, a.items, Alternating(k, v)), EncodingAll(env, b.items, Alternating(k, v)), s, t);
      ListsDecodable(env, a.items, b.items, Alternating(k, v), s, t);
    case Tuple(ts) => FieldsDecodable(env, a.items, b.items, ts, s, t);
    case Named(id) =>
      match env[id]
      case NewtypeDef(u) => UniquelyDecodable(env, a.d, b.d, u, s, t);
      case TupleDef(ts) => FieldsDecodable(env, a.items, b.items, ts, s, t);
      case StructDef(name, ts) =>
        if name == "Span" { assert [] + s == s && [] + t == t; }
        else { FieldsDecodable(env, a.items, b.items, ts, s, t); }
      case EnumDef(vs) =>
        NumberFirst(a.index, b.index, 4, EncodingAll(env, a.items, Each(vs[a.index].1)), EncodingAll(env, b.items, Each(vs[b.index].1)), s, t);
        FieldsDecodable(env, a.items, b.items, vs[a.index].1, s, t);
  }

  lemma {:induction false} FieldCount(env: Env, ds: Datas, ts: seq<Schema>)
    requires HasTypes(env, ds, Each(ts))
    ensures Count(ds) == |ts|
  {
    if ds.More? { FieldCount(env, ds.rest, ts[1..]); }
  }

  lemma {:induction false} FieldsDecodable(env: Env, a: Datas, b: Datas, ts: seq<Schema>, s: seq<Byte>, t: seq<Byte>)
    requires HasTypes(env, a, Each(ts)) && HasTypes(env, b, Each(ts)) && SizedAll(env, a, Each(ts)) && SizedAll(env, b, Each(ts))
    requires EncodingAll(env, a, Each(ts)) + s == EncodingAll(env, b, Each(ts)) + t
    ensures ErasedAll(env, a, Each(ts)) == ErasedAll(env, b, Each(ts)) && s == t
    decreases a, 1
  {
    FieldCount(env, a, ts);
    FieldCount(env, b, ts);
    ListsDecodable(env, a, b, Each(ts), s, t);
  }

  lemma {:induction false} ListsDecodable(env: Env, a: Datas, b: Datas, ts: Types, s: seq<Byte>, t: seq<Byte>)
    requires HasTypes(env, a, ts) && HasTypes(env, b, ts) && SizedAll(env, a, ts) && SizedAll(env, b, ts)
    requires Count(a) == Count(b) && EncodingAll(env, a, ts) + s == EncodingAll(env, b, ts) + t
    ensures ErasedAll(env, a, ts) == ErasedAll(env, b, ts) && s == t
    decreases a, 0
  {
    match a
    case End => assert [] + s == s && [] + t == t;
    case More(h, r) =>
      var x, y := Encoding(env, h, HeadType(ts)), Encoding(env, b.head, HeadType(ts));
      var p, q := EncodingAll(env, r, TailTypes(ts)), EncodingAll(env, b.rest, TailTypes(ts));
      Regroup(x, p, s);
      Regroup(y, q, t);
      UniquelyDecodable(env, h, b.head, HeadType(ts), p + s, q + t);
      ListsDecodable(env, r, b.rest, TailTypes(ts), s, t);
  }

  /** Values equal up to spans encode alike. */
  lemma {:induction false} EqualEncodesAlike(env: Env, a: Data, b: Data, ty: Schema)
    requires HasType(env, a, ty) && HasType(env, b, ty) && Erased(env, a, ty) == Erased(env, b, ty)
    ensures Encoding(env, a, ty) == Encoding(env, b, ty)
    decreases a
  {
    hide HasTypes, EncodingAll, ErasedAll;
    match ty
    case Number(_, _) =>
    case Boolean =>
    case Character =>
    case Text =>
    case Empty =>
    case Optional(u) => if a.Present? { EqualEncodesAlike(env, a.d, b.d, u); }
    case Sequence(u) => EqualLists(env, a.items, b.items, Every(u));
    case Mapping(k, v) => EqualLists(env, a.items, b.items, Alternating(k, v));
    case Tuple(ts) => EqualLists(env, a.items, b.items, Each(ts));
    case Named(id) =>
      match env[id]
      case NewtypeDef(u) => EqualEncodesAlike(env, a.d, b.d, u);
      case TupleDef(ts) => EqualLists(env, a.items, b.items, Each(ts));
      case StructDef(name, ts) => if name != "Span" { EqualLists(env, a.items, b.items, Each(ts)); }
      case EnumDef(vs) => EqualLists(env, a.items, b.items, Each(vs[a.index].1));
  }

  lemma {:induction false} EqualLists(env: Env, a: Datas, b: Datas, ts: Types)
    requires HasTypes(env, a, ts) && HasTypes(env, b, ts) && ErasedAll(env, a, ts) == ErasedAll(env, b, ts)
    ensures EncodingAll(env, a, ts) == EncodingAll(env, b, ts) && Count(a) == Count(b)
    decreases a
  {
    if a.More? {
      EqualEncodesAlike(env, a.head, b.head, HeadType(ts));
      EqualLists(env, a.rest, b.rest, TailTypes(ts));
    }
  }

  /* ---- the serializer ---- */

  class Canon {
    var out: seq<Byte>
    var inSpan: bool

    constructor ()
      ensures out == [] && !inSpan
    {
      out, inSpan := [], false;
    }

    /** A length prefix; an unknown length is an error. */
    method Len(known: bool, len: nat) returns (ok: bool)
      modifies this`out
      ensures ok == known
      ensures out == if known then old(out) + LittleEndian(len, 8) else old(out)
    {
      if known { out := out + LittleEndian(len, 8); }
      ok := known;
    }

    method Scalar(n: int, size: nat)
      modifies this`out
      ensures out == old(out) + LittleEndian(Pattern(n, size), size)
    {
      out := out + LittleEndian(Pattern(n, size), size);
    }

    /** Open a struct: only a struct named `Span` suppresses its fields. */
    method BeginStruct(name: string)
      modifies this`inSpan
      ensures inSpan == (name == "Span")
    {
      inSpan := name == "Span";
    }

    method EndStruct()
      modifies this`inSpan
      ensures !inSpan
    {
      inSpan := false;
    }

    /** The flag is down before and after every value. */
    method Serialize(env: Env, d: Data, s: Schema) returns (ok: bool)
      requires HasType(env, d, s) && !inSpan
      modifies this
      ensures ok == Sized(env, d, s)
      ensures ok ==> out == old(out) + Encoding(env, d, s) && !inSpan
      decreases d, 1
    {
      hide HasTypes, SizedAll, EncodingAll, Power256, LittleEndian;
      if s.Named? {
        ok := SerializeNamed(env, d, env[s.id], s);
      } else if s.Optional? {
        ok := true;
        out := out + [if d.Absent? then 0 else 1];
        if d.Present? { ok := Serialize(env, d.d, s.inner); }
      } else if s.Sequence? || s.Mapping? || s.Tuple? {
        ok := SerializeAggregate(env, d, s);
      } else {
        SerializeLeaf(env, d, s);
        ok := true;
      }
    }

    method SerializeLeaf(env: Env, d: Data, s: Schema)
      requires HasType(env, d, s) && (s.Number? || s.Boolean? || s.Character? || s.Text? || s.Empty?)
      modifies this`out
      ensures Sized(env, d, s) && out == old(out) + Encoding(env, d, s)
    {
      LeafEncoding(env, d, s);
      hide HasTypes, Sized, Encoding, Power256, LittleEndian, Pattern, InRange;
      match s
      case Number(size, _) => Scalar(d.n, size);
      case Boolean => Scalar(if d.b then 1 else 0, 1);
      case Character => Scalar(d.code, 4);
      case Text =>
        var ok := Len(true, |d.bytes|);
        out := out + d.bytes;
      case Empty =>
    }

    method SerializeAggregate(env: Env, d: Data, s: Schema) returns (ok: bool)
      requires HasType(env, d, s) && (s.Sequence? || s.Mapping? || s.Tuple?) && !inSpan
      modifies this
      ensures ok == Sized(env, d, s)
      ensures ok ==> out == old(out) + Encoding(env, d, s) && !inSpan
      decreases d, 0
    {
      hide HasTypes, SizedAll, EncodingAll, Power256, LittleEndian;
      if s.Sequence? {
        ok := Len(d.known, Count(d.items));
        if ok { ok := Elements(env, d.items, Every(s.inner)); }
      } else if s.Mapping? {
        ok := Len(d.known, Count(d.items) / 2);
        if ok { ok := Elements(env, d.items, Alternating(s.key, s.val)); }
      } else {
        ok := Elements(env, d.items, Each(s.fields));
      }
    }

    method SerializeNamed(env: Env, d: Data, def: Definition, s: Schema) returns (ok: bool)
      requires s.Named? && s.id in env && def == env[s.id] && HasType(env, d, s) && !inSpan
      modifies this
      ensures ok == Sized(env, d, s)
      ensures ok ==> out == old(out) + Encoding(env, d, s) && !inSpan
      decreases d, 0
    {
      hide HasTypes, SizedAll, EncodingAll, Power256;
      match def
      case NewtypeDef(t) => ok := Serialize(env, d.d, t);
      case TupleDef(ts) => ok := Elements(env, d.items, Each(ts));
      case StructDef(name, ts) =>
        BeginStruct(name);
        ok := Fields(env, d.items, Each(ts));
        if ok { EndStruct(); }
      case EnumDef(vs) =>
        Scalar(d.index, 4);
        SmallPattern(d.index);
        if vs[d.index].0.StructKind? {
          ok := Fields(env, d.items, Each(vs[d.index].1));
          if ok { EndStruct(); }
        } else {
          ok := Elements(env, d.items, Each(vs[d.index].1));
        }
    }

    /** Elements of sequences, maps, tuples and variants. */
    method Elements(env: Env, ds: Datas, ts: Types) returns (ok: bool)
      requires HasTypes(env, ds, ts) && !inSpan
      modifies this
      ensures ok == SizedAll(env, ds, ts)
      ensures ok ==> out == old(out) + EncodingAll(env, ds, ts) && !inSpan
      decreases ds
    {
      hide HasType, Sized, Encoding;
      ok := true;
      if ds.More? {
        ok := Serialize(env, ds.head, HeadType(ts));
        if ok { ok := Elements(env, ds.rest, TailTypes(ts)); }
      }
    }

    /** Struct fields: skipped while the flag is up, serialized otherwise. */
    method Fields(env: Env, ds: Datas, ts: Types) returns (ok: bool)
      requires HasTypes(env, ds, ts)
      modifies this
      ensures ok == (old(inSpan) || SizedAll(env, ds, ts))
      ensures ok ==> out == (if old(inSpan) then old(out) else old(out) + EncodingAll(env, ds, ts)) && inSpan == old(inSpan)
      decreases ds
    {
      hide HasType, Sized, Encoding;
      ok := true;
      if ds.More? {
        if !inSpan { ok := Serialize(env, ds.head, HeadType(ts)); }
        if ok { ok := Fields(env, ds.rest, TailTypes(ts)); }
      }
    }
  }

  /** The bytes of a leaf are those of its scalars. */
  lemma LeafEncoding(env: Env, d: Data, s: Schema)
    requires HasType(env, d, s) && (s.Number? || s.Boolean? || s.Character? || s.Text? || s.Empty?)
    ensures Sized(env, d, s)
    ensures Encoding(env, d, s) ==
      match s
      case Number(size, _) => LittleEndian(Pattern(d.n, size), size)
      case Boolean => LittleEndian(Pattern(if d.b then 1 else 0, 1), 1)
      case Character => LittleEndian(Pattern(d.code, 4), 4)
      case Text => LittleEndian(|d.bytes|, 8) + d.bytes
      case _ => []
  {
    hide HasTypes, SizedAll, EncodingAll, Power256, LittleEndian, Pattern, InRange;
    match s
    case Number(_, _) =>
    case Boolean => BytePattern();
    case Character =>
      EightBytes();
      SmallPattern(d.code);
    case Text =>
    case Empty =>
  }

  lemma BytePattern()
    ensures LittleEndian(Pattern(0, 1), 1) == [0] && LittleEndian(Pattern(1, 1), 1) == [1]
  {
    assert Power256(1) == 256;
    assert LittleEndian(0, 1) == [0] + LittleEndian(0, 0) && LittleEndian(1, 1) == [1] + LittleEndian(0, 0);
  }

  lemma SmallPattern(n: nat)
    requires n < Power256(4)
    ensures Pattern(n, 4) == n
  {}

  /** The cache key; none when a length is unknown outside a `Span`. */
  method SpanFree(env: Env, d: Data, s: Schema) returns (key: Option<seq<Byte>>)
    requires HasType(env, d, s)
    ensures key == if Sized(env, d, s) then Some(Encoding(env, d, s)) else None
  {
    var canon := new Canon();
    var ok := canon.Serialize(env, d, s);
    assert [] + Encoding(env, d, s) == Encoding(env, d, s);
    key := if ok then Some(canon.out) else None;
  }

  /** Two keys are equal exactly when the values are equal up to spans. */
  lemma {:induction false} KeysEqualIff(env: Env, a: Data, b: Data, s: Schema)
    requires HasType(env, a, s) && HasType(env, b, s) && Sized(env, a, s) && Sized(env, b, s)
    ensures Encoding(env, a, s) == Encoding(env, b, s) <==> Erased(env, a, s) == Erased(env, b, s)
  {
    hide HasType, Sized, Encoding, Erased;
    if Encoding(env, a, s) == Encoding(env, b, s) {
      UniquelyDecodable(env, a, b, s, [], []);
    }
    if Erased(env, a, s) == Erased(env, b, s) {
      EqualEncodesAlike(env, a, b, s);
    }
  }
}
