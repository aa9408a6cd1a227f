module TypeInline {
  // Typedefs inlined through inheritance: a type written in a base class is
  // rewritten into the derived class by substituting the arguments of every
  // `extends G#(args)` on the way.

  import opened Names
  import ValueArith

  /* ---- expressions and types ---- */

  datatype BinOp = Add | Sub | Mul | Div | Less

  datatype Expr =
    | Num(v: int)
    | Ident(name: string)
    | Unary(e: Expr)
    | Binary(op: BinOp, l: Expr, r: Expr)
    | Conditional(c: Expr, t: Expr, f: Expr)
    | Paren(e: Expr)
    | Call(name: string, args: Exprs)

  datatype Exprs = NoExprs | MoreExprs(head: Expr, rest: Exprs)

  datatype Dim = Range(left: Expr, right: Expr) | Unsized

  datatype AtomKind = Byte | ShortInt | Int | LongInt | Integer | Time

  function AtomBits(k: AtomKind): (w: nat)
    ensures w > 0
  {
    match k case Byte => 8 case ShortInt => 16 case Int => 32 case LongInt => 64 case Integer => 32 case Time => 64
  }

  /** `Vector` stands for vectors and implicit types, `Other` for types that take no packed dimension. */
  datatype DataType =
    | Vector(dims: seq<Dim>)
    | Atom(kind: AtomKind)
    | TypeRef(scoped: bool, name: string, dims: seq<Dim>)
    | Struct(packed: bool, members: Members, dims: seq<Dim>)
    | Enum(base: Option<DataType>, dims: seq<Dim>)
    | Other(bits: nat)

  datatype Members = NoMembers | Member(t: DataType, rest: Members)

  /* ---- what they denote ---- */

  /** The widths of type names, the values of constants, and the widths of `A::t` names. */
  datatype Env = Env(types: map<string, Option<int>>, vals: map<string, Option<int>>, scoped: map<string, int>)

  function Look(m: map<string, Option<int>>, n: string): Option<int> { if n in m then m[n] else None }

  function Clog2(n: int): int {
    if n <= 1 then 0 else 1 + Clog2((n + 1) / 2)
  }

  function Apply(op: BinOp, a: int, b: int): Option<int> {
    match op
    case Add => Some(a + b)
    case Sub => Some(a - b)
    case Mul => Some(a * b)
    case Div => if b == 0 then None else Some(ValueArith.TruncDiv(a, b))
    case Less => Some(if a < b then 1 else 0)
  }

  function Eval(e: Expr, env: Env): Option<int> {
    match e
    case Num(v) => Some(v)
    case Ident(n) => Look(env.vals, n)
    case Unary(x) => (match Eval(x, env) case Some(a) => Some(-a) case None => None)
    case Binary(op, l, r) =>
      (match Eval(l, env)
       case None => None
       case Some(a) => match Eval(r, env) case None => None case Some(b) => Apply(op, a, b))
    case Conditional(c, t, f) =>
      (match Eval(c, env) case None => None case Some(a) => if a != 0 then Eval(t, env) else Eval(f, env))
    case Paren(x) => Eval(x, env)
    case Call(name, args) =>
      if name != "$clog2" || args.NoExprs? || args.rest.MoreExprs? then None
      else match Eval(args.head, env) case Some(a) => Some(Clog2(a)) case None => None
  }

  function Extent(d: Dim, env: Env): Option<int> {
    match d
    case Unsized => None
    case Range(l, r) =>
      match Eval(l, env)
      case None => None
      case Some(a) => match Eval(r, env) case None => None case Some(b) => Some(if a >= b then a - b + 1 else b - a + 1)
  }

  function Times(a: Option<int>, b: Option<int>): Option<int> {
    if a.None? || b.None? then None else Some(a.value * b.value)
  }

  function Plus(a: Option<int>, b: Option<int>): Option<int> {
    if a.None? || b.None? then None else Some(a.value + b.value)
  }

  /** The number of elements of packed dimensions. */
  function Extents(ds: seq<Dim>, env: Env): Option<int> {
    if ds == [] then Some(1) else Times(Extent(ds[0], env), Extents(ds[1..], env))
  }

  function Width(t: DataType, env: Env): Option<int> {
    match t
    case Vector(ds) => Extents(ds, env)
    case Atom(k) => Some(AtomBits(k))
    case TypeRef(scoped, n, ds) =>
      Times(Extents(ds, env), if scoped then (if n in env.scoped then Some(env.scoped[n]) else None) else Look(env.types, n))
    case Struct(_, ms, ds) => Times(Extents(ds, env), MembersWidth(ms, env))
    case Enum(b, ds) => Times(Extents(ds, env), if b.Some? then Width(b.value, env) else Some(32))
    case Other(w) => Some(w)
  }

  function MembersWidth(ms: Members, env: Env): Option<int> {
    match ms case NoMembers => Some(0) case Member(t, r) => Plus(Width(t, env), MembersWidth(r, env))
  }

  /* ---- substitution ---- */

  type TypeMap = map<string, Option<DataType>>
  type ValueMap = map<string, Expr>

  /** `subst_expr`: every bare name bound in `vm` becomes its expression in parentheses. */
  function SubstExpr(e: Expr, vm: ValueMap): Expr {
    match e
    case Num(_) => e
    case Ident(n) => if n in vm then Paren(vm[n]) else e
    case Unary(x) => Unary(SubstExpr(x, vm))
    case Binary(op, l, r) => Binary(op, SubstExpr(l, vm), SubstExpr(r, vm))
    case Conditional(c, t, f) => Conditional(SubstExpr(c, vm), SubstExpr(t, vm), SubstExpr(f, vm))
    case Paren(x) => Paren(SubstExpr(x, vm))
    case Call(name, args) => Call(name, SubstExprs(args, vm))
  }

  function SubstExprs(es: Exprs, vm: ValueMap): Exprs {
    match es case NoExprs => NoExprs case MoreExprs(h, r) => MoreExprs(SubstExpr(h, vm), SubstExprs(r, vm))
  }

  function SubstDims(ds: seq<Dim>, vm: ValueMap): (r: seq<Dim>)
    ensures |r| == |ds|
  {
    if ds == [] then []
    else [match ds[0] case Range(l, r) => Range(SubstExpr(l, vm), SubstExpr(r, vm)) case Unsized => Unsized] + SubstDims(ds[1..], vm)
  }

  /** `merge_packed`: `rep` used with outer packed dimensions. */
  function MergePacked(rep: DataType, outer: seq<Dim>): Option<DataType> {
    if outer == [] then Some(rep)
    else match rep
      case Vector(ds) => Some(Vector(outer + ds))
      case TypeRef(scoped, n, ds) => Some(TypeRef(scoped, n, outer + ds))
      case Struct(packed, ms, ds) => if packed then Some(Struct(packed, ms, outer + ds)) else None
      case Enum(b, ds) => Some(Enum(b, outer + ds))
      case Atom(k) => Some(Vector(outer + [Range(Num(AtomBits(k) - 1), Num(0))]))
      case Other(_) => None
  }

  /** `subst_type`. */
  function SubstType(t: DataType, tm: TypeMap, vm: ValueMap): Option<DataType> {
    match t
    case Vector(ds) => Some(Vector(SubstDims(ds, vm)))
    case Atom(_) => Some(t)
    case TypeRef(scoped, n, ds) =>
      if !scoped && n in tm then
        (if tm[n].None? then None else MergePacked(tm[n].value, SubstDims(ds, vm)))
      else Some(TypeRef(scoped, n, SubstDims(ds, vm)))
    case Struct(packed, ms, ds) =>
      (match SubstMembers(ms, tm, vm) case None => None case Some(ms') => Some(Struct(packed, ms', SubstDims(ds, vm))))
    case Enum(b, ds) =>
      if b.None? then Some(Enum(None, SubstDims(ds, vm)))
      else (match SubstType(b.value, tm, vm) case None => None case Some(b') => Some(Enum(Some(b'), SubstDims(ds, vm))))
    case Other(_) => Some(t)
  }

  function SubstMembers(ms: Members, tm: TypeMap, vm: ValueMap): Option<Members> {
    match ms
    case NoMembers => Some(NoMembers)
    case Member(t, r) =>
      match SubstType(t, tm, vm)
      case None => None
      case Some(t') => match SubstMembers(r, tm, vm) case None => None case Some(r') => Some(Member(t', r'))
  }

  /* ---- the shape of a substituted type ---- */

  /** A type to which packed dimensions can be added. */
  predicate Packable(t: DataType) {
    match t case Struct(packed, _, _) => packed case Other(_) => false case _ => true
  }

  /** Every bare reference to a replaced name finds a type, and one that takes the dimensions written there. */
  predicate Substitutable(t: DataType, tm: TypeMap) {
    match t
    case TypeRef(scoped, n, ds) =>
      !scoped && n in tm ==> tm[n].Some? && (ds != [] ==> Packable(tm[n].value))
    case Struct(_, ms, _) => AllSubstitutable(ms, tm)
    case Enum(b, _) => b.Some? ==> Substitutable(b.value, tm)
    case _ => true
  }

  predicate AllSubstitutable(ms: Members, tm: TypeMap) {
    match ms case NoMembers => true case Member(t, r) => Substitutable(t, tm) && AllSubstitutable(r, tm)
  }

  /** Substitution gives up exactly there. */
  lemma {:induction false} SubstDefined(t: DataType, tm: TypeMap, vm: ValueMap)
    ensures SubstType(t, tm, vm).Some? <==> Substitutable(t, tm)
  {
    match t
    case Struct(_, ms, _) => MembersDefined(ms, tm, vm);
    case Enum(b, _) => if b.Some? { SubstDefined(b.value, tm, vm); }
    case _ =>
  }

  lemma {:induction false} MembersDefined(ms: Members, tm: TypeMap, vm: ValueMap)
    ensures SubstMembers(ms, tm, vm).Some? <==> AllSubstitutable(ms, tm)
  {
    if ms.Member? {
      SubstDefined(ms.t, tm, vm);
      MembersDefined(ms.rest, tm, vm);
    }
  }

  /** The packed dimensions, outermost first; an atom has one. */
  function PackedDims(t: DataType): seq<Dim> {
    match t
    case Vector(ds) => ds
    case TypeRef(_, _, ds) => ds
    case Struct(_, _, ds) => ds
    case Enum(_, ds) => ds
    case Atom(k) => [Range(Num(AtomBits(k) - 1), Num(0))]
    case Other(_) => []
  }

  /** What `k` outer subscripts select. */
  function Element(t: DataType, k: nat): DataType
    requires k <= |PackedDims(t)|
  {
    match t
    case Vector(ds) => Vector(ds[k..])
    case TypeRef(scoped, n, ds) => TypeRef(scoped, n, ds[k..])
    case Struct(packed, ms, ds) => Struct(packed, ms, ds[k..])
    case Enum(b, ds) => Enum(b, ds[k..])
    case Atom(_) => if k == 0 then t else Vector([])
    case Other(_) => t
  }

  /** The dimensions of the reference come first, and subscripting by all of them selects the replacement. */
  lemma {:induction false} MergeShape(rep: DataType, outer: seq<Dim>)
    requires MergePacked(rep, outer).Some? && outer != []
    ensures var r := MergePacked(rep, outer).value;
      && PackedDims(r) == outer + PackedDims(rep)
      && Element(r, |outer|) == if rep.Atom? then Vector(PackedDims(rep)) else rep
  {
    assert forall ds: seq<Dim> :: (outer + ds)[|outer|..] == ds;
  }

  lemma {:induction false} SubstDimsAt(ds: seq<Dim>, vm: ValueMap, i: nat)
    requires i < |ds|
    ensures SubstDims(ds, vm)[i] == match ds[i] case Range(l, r) => Range(SubstExpr(l, vm), SubstExpr(r, vm)) case Unsized => Unsized
  {
    if i > 0 { SubstDimsAt(ds[1..], vm, i - 1); }
  }

  /** A replaced reference is the replacement with the written dimensions outside its own. */
  lemma {:induction false} SubstShape(n: string, ds: seq<Dim>, tm: TypeMap, vm: ValueMap)
    requires n in tm && tm[n].Some? && SubstType(TypeRef(false, n, ds), tm, vm).Some?
    ensures var u, rep := SubstType(TypeRef(false, n, ds), tm, vm).value, tm[n].value;
      && (ds == [] ==> u == rep)
      && (ds != [] ==> PackedDims(u) == SubstDims(ds, vm) + PackedDims(rep)
                       && Element(u, |ds|) == if rep.Atom? then Vector(PackedDims(rep)) else rep)
  {
    if ds != [] { MergeShape(tm[n].value, SubstDims(ds, vm)); }
  }

  /** The widths of the integer atoms (IEEE 1800-2017 section 6.11). */
  lemma AtomWidths(env: Env)
    ensures Width(Atom(Byte), env) == Some(8) && Width(Atom(ShortInt), env) == Some(16) && Width(Atom(Int), env) == Some(32)
    ensures Width(Atom(LongInt), env) == Some(64) && Width(Atom(Integer), env) == Some(32) && Width(Atom(Time), env) == Some(64)
  {}

  /* ---- free names ---- */

  function ExprNames(e: Expr): set<string> {
    match e
    case Num(_) => {}
    case Ident(n) => {n}
    case Unary(x) => ExprNames(x)
    case Binary(_, l, r) => ExprNames(l) + ExprNames(r)
    case Conditional(c, t, f) => ExprNames(c) + ExprNames(t) + ExprNames(f)
    case Paren(x) => ExprNames(x)
    case Call(_, args) => ExprsNames(args)
  }

  function ExprsNames(es: Exprs): set<string> {
    match es case NoExprs => {} case MoreExprs(h, r) => ExprNames(h) + ExprsNames(r)
  }

  function DimNames(d: Dim): set<string> {
    match d case Range(l, r) => ExprNames(l) + ExprNames(r) case Unsized => {}
  }

  function DimsNames(ds: seq<Dim>): set<string> {
    if ds == [] then {} else DimNames(ds[0]) + DimsNames(ds[1..])
  }

  /** The type names and the value names free in a type. */
  function TypeNames(t: DataType): set<string> {
    match t
    case TypeRef(scoped, n, _) => if scoped then {} else {n}
    case Struct(_, ms, _) => MemberTypeNames(ms)
    case Enum(b, _) => if b.Some? then TypeNames(b.value) else {}
    case _ => {}
  }

  function MemberTypeNames(ms: Members): set<string> {
    match ms case NoMembers => {} case Member(t, r) => TypeNames(t) + MemberTypeNames(r)
  }

  function ValueNames(t: DataType): set<string> {
    match t
    case Vector(ds) => DimsNames(ds)
    case TypeRef(_, _, ds) => DimsNames(ds)
    case Struct(_, ms, ds) => MemberValueNames(ms) + DimsNames(ds)
    case Enum(b, ds) => (if b.Some? then ValueNames(b.value) else {}) + DimsNames(ds)
    case _ => {}
  }

  function MemberValueNames(ms: Members): set<string> {
    match ms case NoMembers => {} case Member(t, r) => ValueNames(t) + MemberValueNames(r)
  }

  /* ---- the substitution lemma ---- */

  /** In `b`, names mean what their replacements mean in `d`; names not replaced mean the same in both. */
  ghost predicate ValuesBound(names: set<string>, vm: ValueMap, b: Env, d: Env) {
    forall n :: n in names ==> Look(b.vals, n) == if n in vm then Eval(vm[n], d) else Look(d.vals, n)
  }

  ghost predicate TypesBound(names: set<string>, tm: TypeMap, b: Env, d: Env) {
    forall n :: n in names ==>
      if n in tm then tm[n].Some? ==> Look(b.types, n) == Width(tm[n].value, d) else Look(b.types, n) == Look(d.types, n)
  }

  lemma {:induction false} ExprMeaning(e: Expr, vm: ValueMap, b: Env, d: Env)
    requires ValuesBound(ExprNames(e), vm, b, d)
    ensures Eval(SubstExpr(e, vm), d) == Eval(e, b)
  {
    match e
    case Num(_) =>
    case Ident(_) =>
    case Unary(x) => ExprMeaning(x, vm, b, d);
    case Binary(_, l, r) =>
      ExprMeaning(l, vm, b, d);
      ExprMeaning(r, vm, b, d);
    case Conditional(c, t, f) =>
      ExprMeaning(c, vm, b, d);
      ExprMeaning(t, vm, b, d);
      ExprMeaning(f, vm, b, d);
    case Paren(x) => ExprMeaning(x, vm, b, d);
    case Call(_, args) =>
      if args.MoreExprs? {
        assert ExprNames(args.head) <= ExprsNames(args);
        assert SubstExprs(args, vm).rest.MoreExprs? == args.rest.MoreExprs?;
        ExprMeaning(args.head, vm, b, d);
      }
  }

  lemma {:induction false} DimsMeaning(ds: seq<Dim>, vm: ValueMap, b: Env, d: Env)
    requires ValuesBound(DimsNames(ds), vm, b, d)
    ensures Extents(SubstDims(ds, vm), d) == Extents(ds, b)
  {
    hide Eval, SubstExpr, ExprNames;
    if ds != [] {
      if ds[0].Range? {
        ExprMeaning(ds[0].left, vm, b, d);
        ExprMeaning(ds[0].right, vm, b, d);
      }
      DimsMeaning(ds[1..], vm, b, d);
    }
  }

  lemma {:induction false} ExtentsAppend(x: seq<Dim>, y: seq<Dim>, env: Env)
    ensures Extents(x + y, env) == Times(Extents(x, env), Extents(y, env))
  {
    if x == [] {
      assert x + y == y;
    } else {
      ExtentsAppend(x[1..], y, env);
      assert (x + y)[1..] == x[1..] + y;
      TimesAssoc(Extent(x[0], env), Extents(x[1..], env), Extents(y, env));
    }
  }

  lemma TimesAssoc(a: Option<int>, b: Option<int>, c: Option<int>)
    ensures Times(a, Times(b, c)) == Times(Times(a, b), c)
  {}

  lemma OneTimes(a: Option<int>)
    ensures Times(Some(1), a) == a && Times(a, Some(1)) == a
  {}

  /** Outer packed dimensions multiply the width. */
  lemma {:induction false} MergeWidth(rep: DataType, outer: seq<Dim>, env: Env)
    requires MergePacked(rep, outer).Some?
    ensures Width(MergePacked(rep, outer).value, env) == Times(Extents(outer, env), Width(rep, env))
  {
    hide Times, Extents, MembersWidth;
    if outer == [] {
      NoExtent(env);
      OneTimes(Width(rep, env));
    } else {
      match rep
      case Vector(ds) => ExtentsAppend(outer, ds, env);
      case TypeRef(scoped, n, ds) =>
        ExtentsAppend(outer, ds, env);
        TimesAssoc(Extents(outer, env), Extents(ds, env),
          if scoped then (if n in env.scoped then Some(env.scoped[n]) else None) else Look(env.types, n));
      case Struct(_, ms, ds) =>
        ExtentsAppend(outer, ds, env);
        TimesAssoc(Extents(outer, env), Extents(ds, env), MembersWidth(ms, env));
      case Enum(b, ds) =>
        ExtentsAppend(outer, ds, env);
        TimesAssoc(Extents(outer, env), Extents(ds, env), if b.Some? then Width(b.value, env) else Some(32));
      case Atom(k) =>
        var bits := [Range(Num(AtomBits(k) - 1), Num(0))];
        ExtentsAppend(outer, bits, env);
        AtomExtent(AtomBits(k), env);
    }
  }

  lemma NoExtent(env: Env)
    ensures Extents([], env) == Some(1)
  {}

  lemma AtomExtent(w: nat, env: Env)
    requires w > 0
    ensures Extents([Range(Num(w - 1), Num(0))], env) == Some(w)
  {
    var ds := [Range(Num(w - 1), Num(0))];
    assert ds[1..] == [];
  }

  /** The substituted type has, where it is used, the width the type has where it is written. */
  lemma {:induction false} SubstWidth(t: DataType, tm: TypeMap, vm: ValueMap, b: Env, d: Env)
    requires SubstType(t, tm, vm).Some? && b.scoped == d.scoped
    requires TypesBound(TypeNames(t), tm, b, d) && ValuesBound(ValueNames(t), vm, b, d)
    ensures Width(SubstType(t, tm, vm).value, d) == Width(t, b)
    decreases t
  {
    match t
    case Vector(ds) => DimsMeaning(ds, vm, b, d);
    case Atom(_) =>
    case TypeRef(scoped, n, ds) =>
      DimsMeaning(ds, vm, b, d);
      if !scoped && n in tm { MergeWidth(tm[n].value, SubstDims(ds, vm), d); }
    case Struct(_, ms, ds) =>
      DimsMeaning(ds, vm, b, d);
      SubstMembersWidth(ms, tm, vm, b, d);
    case Enum(base, ds) =>
      DimsMeaning(ds, vm, b, d);
      if base.Some? { SubstWidth(base.value, tm, vm, b, d); }
    case Other(_) =>
  }

  lemma {:induction false} SubstMembersWidth(ms: Members, tm: TypeMap, vm: ValueMap, b: Env, d: Env)
    requires SubstMembers(ms, tm, vm).Some? && b.scoped == d.scoped
    requires TypesBound(MemberTypeNames(ms), tm, b, d) && ValuesBound(MemberValueNames(ms), vm, b, d)
    ensures MembersWidth(SubstMembers(ms, tm, vm).value, d) == MembersWidth(ms, b)
    decreases ms
  {
    if ms.Member? {
      SubstWidth(ms.t, tm, vm, b, d);
      SubstMembersWidth(ms.rest, tm, vm, b, d);
    }
  }

  /* ---- names after substitution ---- */

  lemma {:induction false} ExprNamesAfter(e: Expr, vm: ValueMap, names: set<string>)
    requires ExprNames(e) <= vm.Keys + names && forall n :: n in vm ==> ExprNames(vm[n]) <= names
    ensures ExprNames(SubstExpr(e, vm)) <= names
  {
    match e
    case Num(_) =>
    case Ident(_) =>
    case Unary(x) => ExprNamesAfter(x, vm, names);
    case Binary(_, l, r) =>
      ExprNamesAfter(l, vm, names);
      ExprNamesAfter(r, vm, names);
    case Conditional(c, t, f) =>
      ExprNamesAfter(c, vm, names);
      ExprNamesAfter(t, vm, names);
      ExprNamesAfter(f, vm, names);
    case Paren(x) => ExprNamesAfter(x, vm, names);
    case Call(_, args) => ExprsNamesAfter(args, vm, names);
  }

  lemma {:induction false} ExprsNamesAfter(es: Exprs, vm: ValueMap, names: set<string>)
    requires ExprsNames(es) <= vm.Keys + names && forall n :: n in vm ==> ExprNames(vm[n]) <= names
    ensures ExprsNames(SubstExprs(es, vm)) <= names
  {
    if es.MoreExprs? {
      ExprNamesAfter(es.head, vm, names);
      ExprsNamesAfter(es.rest, vm, names);
    }
  }

  lemma {:induction false} DimsNamesAfter(ds: seq<Dim>, vm: ValueMap, names: set<string>)
    requires DimsNames(ds) <= vm.Keys + names && forall n :: n in vm ==> ExprNames(vm[n]) <= names
    ensures DimsNames(SubstDims(ds, vm)) <= names
  {
    if ds != [] {
      if ds[0].Range? {
        ExprNamesAfter(ds[0].left, vm, names);
        ExprNamesAfter(ds[0].right, vm, names);
      }
      DimsNamesAfter(ds[1..], vm, names);
    }
  }

  lemma {:induction false} DimsNamesAppend(x: seq<Dim>, y: seq<Dim>)
    ensures DimsNames(x + y) == DimsNames(x) + DimsNames(y)
  {
    if x == [] {
      assert x + y == y;
    } else {
      DimsNamesAppend(x[1..], y);
      assert (x + y)[1..] == x[1..] + y;
    }
  }

  lemma MergeNames(rep: DataType, outer: seq<Dim>)
    requires MergePacked(rep, outer).Some?
    ensures TypeNames(MergePacked(rep, outer).value) == TypeNames(rep)
    ensures ValueNames(MergePacked(rep, outer).value) <= DimsNames(outer) + ValueNames(rep)
  {
    match rep
    case Vector(ds) => DimsNamesAppend(outer, ds);
    case TypeRef(_, _, ds) => DimsNamesAppend(outer, ds);
    case Struct(_, _, ds) => DimsNamesAppend(outer, ds);
    case Enum(_, ds) => DimsNamesAppend(outer, ds);
    case Atom(k) =>
      var bits := [Range(Num(AtomBits(k) - 1), Num(0))];
      DimsNamesAppend(outer, bits);
      assert bits[1..] == [];
    case Other(_) =>
  }

  /** Type `t` uses only these type and value names. */
  ghost predicate Within(t: DataType, tn: set<string>, vn: set<string>) {
    TypeNames(t) <= tn && ValueNames(t) <= vn
  }

  /** What the bindings put in place of names uses only these names. */
  ghost predicate MapsWithin(tm: TypeMap, vm: ValueMap, tn: set<string>, vn: set<string>) {
    && (forall n :: n in tm && tm[n].Some? ==> Within(tm[n].value, tn, vn))
    && (forall n :: n in vm ==> ExprNames(vm[n]) <= vn)
  }

  lemma {:induction false} NamesAfter(t: DataType, tm: TypeMap, vm: ValueMap, tn: set<string>, vn: set<string>)
    requires SubstType(t, tm, vm).Some? && MapsWithin(tm, vm, tn, vn)
    requires Within(t, tm.Keys + tn, vm.Keys + vn)
    ensures Within(SubstType(t, tm, vm).value, tn, vn)
    decreases t
  {
    match t
    case Vector(ds) => DimsNamesAfter(ds, vm, vn);
    case Atom(_) =>
    case TypeRef(scoped, n, ds) =>
      DimsNamesAfter(ds, vm, vn);
      if !scoped && n in tm { MergeNames(tm[n].value, SubstDims(ds, vm)); }
    case Struct(_, ms, ds) =>
      DimsNamesAfter(ds, vm, vn);
      MemberNamesAfter(ms, tm, vm, tn, vn);
    case Enum(base, ds) =>
      DimsNamesAfter(ds, vm, vn);
      if base.Some? { NamesAfter(base.value, tm, vm, tn, vn); }
    case Other(_) =>
  }

  lemma {:induction false} MemberNamesAfter(ms: Members, tm: TypeMap, vm: ValueMap, tn: set<string>, vn: set<string>)
    requires SubstMembers(ms, tm, vm).Some? && MapsWithin(tm, vm, tn, vn)
    requires MemberTypeNames(ms) <= tm.Keys + tn && MemberValueNames(ms) <= vm.Keys + vn
    ensures MemberTypeNames(SubstMembers(ms, tm, vm).value) <= tn && MemberValueNames(SubstMembers(ms, tm, vm).value) <= vn
    decreases ms
  {
    if ms.Member? {
      NamesAfter(ms.t, tm, vm, tn, vn);
      MemberNamesAfter(ms.rest, tm, vm, tn, vn);
    }
  }

  /* ---- binding class parameters ---- */

  datatype Param = TypeParam(name: string, default: Option<DataType>) | ValueParam(name: string, init: Option<Expr>)

  datatype Arg = TypeArg(t: DataType) | ExprArg(e: Expr)

  /** An argument by position, or by name and possibly left empty. */
  datatype Actual = Positional(a: Arg) | Named(name: string, e: Option<Expr>)

  function KeywordType(n: string): Option<DataType> {
    match n
    case "byte" => Some(Atom(Byte))
    case "shortint" => Some(Atom(ShortInt))
    case "int" => Some(Atom(Int))
    case "longint" => Some(Atom(LongInt))
    case "integer" => Some(Atom(Integer))
    case "time" => Some(Atom(Time))
    case "bit" => Some(Vector([]))
    case "logic" => Some(Vector([]))
    case "reg" => Some(Vector([]))
    case "real" => Some(Other(64))
    case "shortreal" => Some(Other(32))
    case "realtime" => Some(Other(64))
    case "string" => Some(Other(0))
    case _ => None
  }

  /** `arg_type`: an expression argument read as a type. */
  function ArgType(e: Expr): Option<DataType> {
    match e
    case Paren(x) => ArgType(x)
    case Ident(n) => if KeywordType(n).Some? then KeywordType(n) else Some(TypeRef(false, n, []))
    case _ => None
  }

  const Keywords: set<string> := {
    "byte", "shortint", "int", "longint", "integer", "time", "bit", "logic", "reg", "real", "shortreal", "realtime", "string"}

  /** A keyword argument is the type it names; any other name refers to a type; parentheses do not matter. */
  lemma {:induction false} ArgumentTypes(n: string, e: Expr, env: Env)
    ensures n !in Keywords ==> ArgType(Ident(n)) == Some(TypeRef(false, n, []))
    ensures n in Keywords ==> ArgType(Ident(n)).Some? && !ArgType(Ident(n)).value.TypeRef?
    ensures n in {"byte", "shortint", "int", "longint", "integer", "time", "bit", "logic", "reg"} ==>
      Width(ArgType(Ident(n)).value, env) == Some(
        if n == "byte" then 8 else if n == "shortint" then 16 else if n == "int" || n == "integer" then 32
        else if n == "longint" || n == "time" then 64 else 1)
    ensures ArgType(Paren(e)) == ArgType(e)
    ensures ArgType(e).Some? <==> exists m, k: nat :: e == Wrapped(Ident(m), k)
  {
    if ArgType(e).Some? { var m, k := Unwrapped(e); }
    forall m, k: nat | e == Wrapped(Ident(m), k) ensures ArgType(e).Some? { WrappedType(m, k); }
  }

  /** `e` in `k` pairs of parentheses. */
  function Wrapped(e: Expr, k: nat): Expr {
    if k == 0 then e else Paren(Wrapped(e, k - 1))
  }

  lemma {:induction false} WrappedType(m: string, k: nat)
    ensures ArgType(Wrapped(Ident(m), k)).Some?
  {
    if k > 0 { WrappedType(m, k - 1); }
  }

  lemma {:induction false} Unwrapped(e: Expr) returns (m: string, k: nat)
    requires ArgType(e).Some?
    ensures e == Wrapped(Ident(m), k)
  {
    if e.Paren? {
      m, k := Unwrapped(e.e);
      k := k + 1;
    } else {
      m, k := e.name, 0;
    }
  }

  /** Positional arguments first, named ones over them. */
  function PositionalArgs(params: seq<Param>, args: seq<Actual>, i: nat): map<string, Arg>
    requires i <= |args|
  {
    if i == 0 then map[] else
      var m := PositionalArgs(params, args, i - 1);
      if args[i - 1].Positional? && i - 1 < |params| then m[params[i - 1].name := args[i - 1].a] else m
  }

  function NamedArgs(m: map<string, Arg>, args: seq<Actual>, i: nat): map<string, Arg>
    requires i <= |args|
  {
    if i == 0 then m else
      var r := NamedArgs(m, args, i - 1);
      if args[i - 1].Named? && args[i - 1].e.Some? then r[args[i - 1].name := ExprArg(args[i - 1].e.value)] else r
  }

  function Given(params: seq<Param>, args: seq<Actual>): map<string, Arg> {
    NamedArgs(PositionalArgs(params, args, |args|), args, |args|)
  }

  /** Argument `i` names `n` and is not empty. */
  predicate NamedAt(args: seq<Actual>, i: nat, n: string) {
    i < |args| && args[i].Named? && args[i].name == n && args[i].e.Some?
  }

  /** Argument `i` stands where the header has `n`. */
  predicate StandsAt(params: seq<Param>, args: seq<Actual>, i: nat, n: string) {
    i < |args| && i < |params| && args[i].Positional? && params[i].name == n
  }

  /** The argument list gives `x` for `n`: the last by that name, else the one in its place. */
  ghost predicate IsGiven(params: seq<Param>, args: seq<Actual>, n: string, x: Arg) {
    || (exists i: nat :: NamedAt(args, i, n) && x == ExprArg(args[i].e.value) && forall j: nat :: i < j ==> !NamedAt(args, j, n))
    || ((forall i: nat :: !NamedAt(args, i, n)) &&
        exists i: nat :: StandsAt(params, args, i, n) && x == args[i].a && forall j: nat :: i < j ==> !StandsAt(params, args, j, n))
  }

  lemma {:induction false} PositionalExactly(params: seq<Param>, args: seq<Actual>, k: nat, n: string)
    requires k <= |args|
    ensures n in PositionalArgs(params, args, k) <==> exists i: nat :: i < k && StandsAt(params, args, i, n)
    ensures n in PositionalArgs(params, args, k) ==>
      exists i: nat :: i < k && StandsAt(params, args, i, n) && PositionalArgs(params, args, k)[n] == args[i].a
        && forall j: nat :: i < j < k ==> !StandsAt(params, args, j, n)
  {
    if k > 0 {
      PositionalExactly(params, args, k - 1, n);
      if StandsAt(params, args, k - 1, n) {
        assert PositionalArgs(params, args, k)[n] == args[k - 1].a;
      }
    }
  }

  lemma {:induction false} NamedExactly(m: map<string, Arg>, args: seq<Actual>, k: nat, n: string)
    requires k <= |args|
    ensures var r := NamedArgs(m, args, k);
      if exists i: nat :: i < k && NamedAt(args, i, n)
      then n in r && exists i: nat :: i < k && NamedAt(args, i, n) && r[n] == ExprArg(args[i].e.value) && forall j: nat :: i < j < k ==> !NamedAt(args, j, n)
      else (n in r <==> n in m) && (n in m ==> r[n] == m[n])
  {
    if k > 0 {
      NamedExactly(m, args, k - 1, n);
      if NamedAt(args, k - 1, n) {
        assert NamedArgs(m, args, k)[n] == ExprArg(args[k - 1].e.value);
      }
    }
  }

  /** The table of arguments holds what the list gives, and nothing else. */
  lemma {:induction false} GivenExactly(params: seq<Param>, args: seq<Actual>, n: string, x: Arg)
    ensures n in Given(params, args) && Given(params, args)[n] == x <==> IsGiven(params, args, n, x)
  {
    hide PositionalArgs, NamedArgs;
    PositionalExactly(params, args, |args|, n);
    NamedExactly(PositionalArgs(params, args, |args|), args, |args|, n);
  }

  ghost predicate Distinct(params: seq<Param>) {
    forall i, j :: 0 <= i < j < |params| ==> params[i].name != params[j].name
  }

  /** Value parameter `k` is bound to what the list gives it, else to its default. */
  ghost predicate BindsValue(params: seq<Param>, args: seq<Actual>, k: nat, vm: ValueMap)
    requires k < |params| && params[k].ValueParam?
  {
    var n, def := params[k].name, params[k].init;
    && (forall e :: IsGiven(params, args, n, ExprArg(e)) ==> n in vm && vm[n] == e)
    && ((forall e :: !IsGiven(params, args, n, ExprArg(e))) ==> if def.Some? then n in vm && vm[n] == def.value else n !in vm)
  }

  /** Type parameter `k` is bound to what the list gives it, else to its default under the earlier bindings. */
  ghost predicate BindsType(params: seq<Param>, args: seq<Actual>, k: nat, tm: TypeMap)
    requires k < |params| && params[k].TypeParam?
  {
    var n, def := params[k].name, params[k].default;
    n in tm
    && (forall t :: IsGiven(params, args, n, TypeArg(t)) ==> tm[n] == Some(t))
    && (forall e :: IsGiven(params, args, n, ExprArg(e)) ==> tm[n] == ArgType(e))
    && ((forall x :: !IsGiven(params, args, n, x)) ==>
          if def.None? then tm[n] == None
          else var (tm0, vm0) := Bind(params[..k], Given(params, args)); tm[n] == SubstType(def.value, tm0, vm0))
  }

  ghost predicate BindsEach(params: seq<Param>, args: seq<Actual>, tm: TypeMap, vm: ValueMap) {
    forall k: nat :: k < |params| ==> if params[k].ValueParam? then BindsValue(params, args, k, vm) else BindsType(params, args, k, tm)
  }

  /** Parameter `k` keeps the binding it gets, no later one having its name. */
  lemma {:induction false} BoundOnce(params: seq<Param>, given: map<string, Arg>, k: nat)
    requires Distinct(params) && k < |params|
    ensures var (tm, vm), p := Bind(params, given), params[k]; var (tm0, vm0) := Bind(params[..k], given);
      match p
      case TypeParam(n, _) => n in tm && tm[n] == BoundType(p, given, tm0, vm0)
      case ValueParam(n, _) => if BoundValue(p, given).Some? then n in vm && vm[n] == BoundValue(p, given).value else n !in vm
    decreases |params|
  {
    hide BoundType, BoundValue;
    var init, last := params[..|params| - 1], params[|params| - 1];
    if k < |params| - 1 {
      assert init[..k] == params[..k] && init[k] == params[k];
      BoundOnce(init, given, k);
    } else {
      assert params[..k] == init;
      OnlyHeaderNames(init, given, last.name);
    }
  }

  lemma {:induction false} OnlyHeaderNames(params: seq<Param>, given: map<string, Arg>, n: string)
    requires forall i :: 0 <= i < |params| ==> params[i].name != n
    ensures var (tm, vm) := Bind(params, given); n !in tm && n !in vm
  {
    hide BoundType, BoundValue;
    if params != [] { OnlyHeaderNames(params[..|params| - 1], given, n); }
  }

  lemma {:induction false} BindsWhatIsGiven(params: seq<Param>, args: seq<Actual>)
    requires Distinct(params)
    ensures var (tm, vm) := Bind(params, Given(params, args)); BindsEach(params, args, tm, vm)
  {
    hide Bind, Given, IsGiven, SubstType;
    var given := Given(params, args);
    var (tm, vm) := Bind(params, given);
    forall k: nat | k < |params| ensures if params[k].ValueParam? then BindsValue(params, args, k, vm) else BindsType(params, args, k, tm) {
      BoundOnce(params, given, k);
      forall x ensures params[k].name in given && given[params[k].name] == x <==> IsGiven(params, args, params[k].name, x) {
        GivenExactly(params, args, params[k].name, x);
      }
      if params[k].name in given { assert IsGiven(params, args, params[k].name, given[params[k].name]); }
    }
  }

  /** The type an argument or default gives a type parameter. */
  function BoundType(p: Param, given: map<string, Arg>, tm: TypeMap, vm: ValueMap): Option<DataType>
    requires p.TypeParam?
  {
    if p.name in given then (match given[p.name] case TypeArg(t) => Some(t) case ExprArg(e) => ArgType(e))
    else if p.default.Some? then SubstType(p.default.value, tm, vm)
    else None
  }

  /** The expression a value parameter is bound to; a default goes in as written. */
  function BoundValue(p: Param, given: map<string, Arg>): Option<Expr>
    requires p.ValueParam?
  {
    if p.name in given && given[p.name].ExprArg? then Some(given[p.name].e) else p.init
  }

  function Bind(params: seq<Param>, given: map<string, Arg>): (TypeMap, ValueMap) {
    if params == [] then (map[], map[]) else
      var (tm, vm) := Bind(params[..|params| - 1], given);
      var p := params[|params| - 1];
      match p
      case TypeParam(n, _) => (tm[n := BoundType(p, given, tm, vm)], vm)
      case ValueParam(n, _) => if BoundValue(p, given).Some? then (tm, vm[n := BoundValue(p, given).value]) else (tm, vm)
  }

  /** `bind_params`. */
  method BindParams(params: seq<Param>, args: seq<Actual>) returns (tm: TypeMap, vm: ValueMap)
    ensures (tm, vm) == Bind(params, Given(params, args))
    ensures Distinct(params) ==> BindsEach(params, args, tm, vm)
  {
    if Distinct(params) { BindsWhatIsGiven(params, args); }
    hide BindsEach, Distinct;
    var given: map<string, Arg> := map[];
    for i := 0 to |args|
      invariant given == PositionalArgs(params, args, i)
    {
      if args[i].Positional? && i < |params| { given := given[params[i].name := args[i].a]; }
    }
    for i := 0 to |args|
      invariant given == NamedArgs(PositionalArgs(params, args, |args|), args, i)
    {
      if args[i].Named? && args[i].e.Some? { given := given[args[i].name := ExprArg(args[i].e.value)]; }
    }
    tm, vm := map[], map[];
    for i := 0 to |params|
      invariant (tm, vm) == Bind(params[..i], given)
    {
      assert params[..i + 1][..i] == params[..i];
      var p := params[i];
      if p.TypeParam? {
        tm := tm[p.name := BoundType(p, given, tm, vm)];
      } else if BoundValue(p, given).Some? {
        vm := vm[p.name := BoundValue(p, given).value];
      }
    }
    assert params[..|params|] == params;
  }

  /** The environment of the class body: arguments are read outside, defaults inside, in order. */
  function BoundEnv(params: seq<Param>, given: map<string, Arg>, g: Env, d: Env): Env {
    if params == [] then g else
      var e := BoundEnv(params[..|params| - 1], given, g, d);
      var p := params[|params| - 1];
      match p
      case TypeParam(n, def) =>
        var w := if n in given then
                   (match given[n]
                    case TypeArg(t) => Width(t, d)
                    case ExprArg(x) => if ArgType(x).Some? then Width(ArgType(x).value, d) else None)
                 else if def.Some? then Width(def.value, e) else None;
        e.(types := e.types[n := w])
      case ValueParam(n, def) =>
        var v := if n in given && given[n].ExprArg? then Eval(given[n].e, d)
                 else if def.Some? then Eval(def.value, e) else None;
        e.(vals := e.vals[n := v])
  }

  function TypeParams(params: seq<Param>): set<string> {
    set p | p in params && p.TypeParam? :: p.name
  }

  function ValueParams(params: seq<Param>): set<string> {
    set p | p in params && p.ValueParam? :: p.name
  }

  /** `d` and `g` agree on the names that no class redeclares. */
  ghost predicate Agree(globals: set<string>, g: Env, d: Env) {
    g.scoped == d.scoped && forall n :: n in globals ==> Look(g.types, n) == Look(d.types, n) && Look(g.vals, n) == Look(d.vals, n)
  }

  /**
   A class header in order: parameters do not redeclare global names, a type
   default uses earlier parameters and global names, a value default is closed.
   */
  ghost predicate WellFormed(params: seq<Param>, globals: set<string>) {
    && (forall i, j :: 0 <= i < j < |params| ==> params[i].name != params[j].name)
    && (forall i :: 0 <= i < |params| ==> params[i].name !in globals)
    && (forall i :: 0 <= i < |params| ==>
          match params[i]
          case TypeParam(_, def) =>
            def.Some? ==> Within(def.value, TypeParams(params[..i]) + globals, ValueParams(params[..i]) + globals)
          case ValueParam(_, def) => def.Some? ==> ExprNames(def.value) <= globals)
  }

  /** The arguments use names of the deriving class, and no value parameter stays unbound. */
  ghost predicate ArgsFit(params: seq<Param>, given: map<string, Arg>, tn: set<string>, vn: set<string>) {
    && (forall p :: p in params && p.TypeParam? && p.name in given ==>
          match given[p.name]
          case TypeArg(t) => Within(t, tn, vn)
          case ExprArg(e) => ArgType(e).Some? ==> Within(ArgType(e).value, tn, vn))
    && (forall p :: p in params && p.ValueParam? ==>
          BoundValue(p, given).Some? && (p.name in given && given[p.name].ExprArg? ==> ExprNames(given[p.name].e) <= vn))
  }

  /** What bindings of the type parameters `tp` and value parameters `vp` establish. */
  ghost predicate Binding(tp: set<string>, vp: set<string>, tm: TypeMap, vm: ValueMap, globals: set<string>,
                          tn: set<string>, vn: set<string>, g: Env, b: Env, d: Env) {
    && tm.Keys == tp && vm.Keys == vp
    && MapsWithin(tm, vm, tn, vn)
    && TypesBound(tp + globals, tm, b, d)
    && ValuesBound(vp + globals, vm, b, d)
    && Agree(globals, g, b)
  }

  /** What binding establishes for a header. */
  ghost predicate BindsAll(params: seq<Param>, given: map<string, Arg>, globals: set<string>, tn: set<string>, vn: set<string>, g: Env, d: Env) {
    var (tm, vm) := Bind(params, given);
    Binding(TypeParams(params), ValueParams(params), tm, vm, globals, tn, vn, g, BoundEnv(params, given, g, d), d)
  }

  lemma AddType(tp: set<string>, vp: set<string>, tm: TypeMap, vm: ValueMap, globals: set<string>,
                tn: set<string>, vn: set<string>, g: Env, b: Env, d: Env, n: string, t: Option<DataType>, w: Option<int>)
    requires Binding(tp, vp, tm, vm, globals, tn, vn, g, b, d) && n !in tp && n !in globals
    requires t.Some? ==> Within(t.value, tn, vn) && w == Width(t.value, d)
    ensures Binding(tp + {n}, vp, tm[n := t], vm, globals, tn, vn, g, b.(types := b.types[n := w]), d)
  {
    hide Within, Width, Eval;
  }

  lemma AddValue(tp: set<string>, vp: set<string>, tm: TypeMap, vm: ValueMap, globals: set<string>,
                 tn: set<string>, vn: set<string>, g: Env, b: Env, d: Env, n: string, e: Expr)
    requires Binding(tp, vp, tm, vm, globals, tn, vn, g, b, d) && n !in vp && n !in globals && ExprNames(e) <= vn
    ensures Binding(tp, vp + {n}, tm, vm[n := e], globals, tn, vn, g, b.(vals := b.vals[n := Eval(e, d)]), d)
  {
    hide Within, Width, Eval, ExprNames, ValuesBound, TypesBound, MapsWithin;
    var b' := b.(vals := b.vals[n := Eval(e, d)]);
    MoreValues(vp + globals, vm, b, d, n, e);
    assert vp + globals + {n} == vp + {n} + globals;
    SameTypes(tp + globals, tm, b, b', d);
    MoreWithin(tm, vm, tn, vn, n, e);
  }

  lemma MoreValues(names: set<string>, vm: ValueMap, b: Env, d: Env, n: string, e: Expr)
    requires ValuesBound(names, vm, b, d) && n !in names
    ensures ValuesBound(names + {n}, vm[n := e], b.(vals := b.vals[n := Eval(e, d)]), d)
  {
    hide Eval;
  }

  lemma SameTypes(names: set<string>, tm: TypeMap, b: Env, b': Env, d: Env)
    requires TypesBound(names, tm, b, d) && b'.types == b.types
    ensures TypesBound(names, tm, b', d)
  {
    hide Width;
  }

  lemma MoreWithin(tm: TypeMap, vm: ValueMap, tn: set<string>, vn: set<string>, n: string, e: Expr)
    requires MapsWithin(tm, vm, tn, vn) && ExprNames(e) <= vn
    ensures MapsWithin(tm, vm[n := e], tn, vn)
  {
    hide Within, ExprNames;
  }

  lemma {:induction false} BindingSound(params: seq<Param>, given: map<string, Arg>, globals: set<string>,
                                        tn: set<string>, vn: set<string>, g: Env, d: Env)
    requires WellFormed(params, globals) && ArgsFit(params, given, tn, vn) && Agree(globals, g, d)
    requires globals <= tn && globals <= vn
    ensures BindsAll(params, given, globals, tn, vn, g, d)
  {
    hide Within, Width, Eval, SubstType, ExprNames, ArgType, Binding;
    if params != [] {
      var k := |params| - 1;
      var init, p := params[..k], params[k];
      assert params == init + [p];
      InitWellFormed(params, globals);
      FewerArgs(init, p, given, tn, vn);
      BindingSound(init, given, globals, tn, vn, g, d);
      ParamSets(init, p);
      if p.TypeParam? {
        BindType(init, p, given, globals, tn, vn, g, d);
      } else {
        BindValue(init, p, given, globals, tn, vn, g, d);
      }
    } else {
      NoParams(given, globals, tn, vn, g, d);
    }
  }

  lemma NoParams(given: map<string, Arg>, globals: set<string>, tn: set<string>, vn: set<string>, g: Env, d: Env)
    requires Agree(globals, g, d)
    ensures BindsAll([], given, globals, tn, vn, g, d)
  {
    hide Within, Width, Eval;
    assert TypeParams([]) == {} && ValueParams([]) == {};
  }

  lemma FewerArgs(init: seq<Param>, p: Param, given: map<string, Arg>, tn: set<string>, vn: set<string>)
    requires ArgsFit(init + [p], given, tn, vn)
    ensures ArgsFit(init, given, tn, vn) && ArgsFit([p], given, tn, vn)
  {
    hide Within, ExprNames, ArgType, BoundValue;
    assert forall x :: x in init || x in [p] ==> x in init + [p];
  }

  lemma InitWellFormed(params: seq<Param>, globals: set<string>)
    requires params != [] && WellFormed(params, globals)
    ensures WellFormed(params[..|params| - 1], globals)
    ensures var p := params[|params| - 1];
      p.name !in globals && p.name !in TypeParams(params[..|params| - 1]) && p.name !in ValueParams(params[..|params| - 1])
  {
    hide Within, ExprNames;
    var init := params[..|params| - 1];
    forall i | 0 <= i < |init| ensures init[..i] == params[..i] && init[i] == params[i] {}
  }

  lemma ParamSets(init: seq<Param>, p: Param)
    ensures TypeParams(init + [p]) == TypeParams(init) + if p.TypeParam? then {p.name} else {}
    ensures ValueParams(init + [p]) == ValueParams(init) + if p.ValueParam? then {p.name} else {}
  {
    var all := init + [p];
    assert forall x :: x in all <==> x in init || x == p;
  }

  lemma BindType(init: seq<Param>, p: Param, given: map<string, Arg>, globals: set<string>, tn: set<string>, vn: set<string>, g: Env, d: Env)
    requires p.TypeParam? && WellFormed(init + [p], globals) && ArgsFit(init + [p], given, tn, vn) && Agree(globals, g, d)
    requires globals <= tn && globals <= vn && BindsAll(init, given, globals, tn, vn, g, d)
    requires p.name !in globals && p.name !in TypeParams(init)
    ensures BindsAll(init + [p], given, globals, tn, vn, g, d)
  {
    hide Within, Width, SubstType, Eval, Binding, ExprNames, WellFormed, Agree;
    var all := init + [p];
    assert all[..|init|] == init && all[|init|] == p;
    ParamSets(init, p);
    FewerArgs(init, p, given, tn, vn);
    assert p in [p];
    var (tm, vm) := Bind(init, given);
    var b := BoundEnv(init, given, g, d);
    var bt := BoundType(p, given, tm, vm);
    if p.name !in given && p.default.Some? && bt.Some? {
      DefaultType(init, p, given, globals, tn, vn, g, d);
    }
    var w := Look(BoundEnv(all, given, g, d).types, p.name);
    AddType(TypeParams(init), ValueParams(init), tm, vm, globals, tn, vn, g, b, d, p.name, bt, w);
    assert ValueParams(init) + {} == ValueParams(init);
  }

  /** A type default means outside, after substitution, what it means inside. */
  lemma DefaultType(init: seq<Param>, p: Param, given: map<string, Arg>, globals: set<string>, tn: set<string>, vn: set<string>, g: Env, d: Env)
    requires p.TypeParam? && p.default.Some? && WellFormed(init + [p], globals) && Agree(globals, g, d)
    requires globals <= tn && globals <= vn && BindsAll(init, given, globals, tn, vn, g, d)
    requires var (tm, vm) := Bind(init, given); SubstType(p.default.value, tm, vm).Some?
    ensures var (tm, vm) := Bind(init, given);
      && Within(SubstType(p.default.value, tm, vm).value, tn, vn)
      && Width(SubstType(p.default.value, tm, vm).value, d) == Width(p.default.value, BoundEnv(init, given, g, d))
  {
    hide Width, SubstType, Eval, TypeNames, ValueNames, Bind, BoundEnv;
    var (tm, vm) := Bind(init, given);
    assert (init + [p])[..|init|] == init && (init + [p])[|init|] == p;
    assert Within(p.default.value, TypeParams(init) + globals, ValueParams(init) + globals);
    NamesAfter(p.default.value, tm, vm, tn, vn);
    SubstWidth(p.default.value, tm, vm, BoundEnv(init, given, g, d), d);
  }

  lemma BindValue(init: seq<Param>, p: Param, given: map<string, Arg>, globals: set<string>, tn: set<string>, vn: set<string>, g: Env, d: Env)
    requires p.ValueParam? && WellFormed(init + [p], globals) && ArgsFit(init + [p], given, tn, vn) && Agree(globals, g, d)
    requires globals <= tn && globals <= vn && BindsAll(init, given, globals, tn, vn, g, d)
    requires p.name !in globals && p.name !in ValueParams(init)
    ensures BindsAll(init + [p], given, globals, tn, vn, g, d)
  {
    hide Within, Width, SubstType, Eval, Binding, ExprNames, WellFormed, Agree;
    var all := init + [p];
    assert all[..|init|] == init && all[|init|] == p;
    ParamSets(init, p);
    FewerArgs(init, p, given, tn, vn);
    assert p in [p];
    var (tm, vm) := Bind(init, given);
    var b := BoundEnv(init, given, g, d);
    var bv := BoundValue(p, given).value;
    if !(p.name in given && given[p.name].ExprArg?) {
      ClosedDefault(init, p, given, globals, tn, vn, g, d);
    }
    AddValue(TypeParams(init), ValueParams(init), tm, vm, globals, tn, vn, g, b, d, p.name, bv);
    assert TypeParams(init) + {} == TypeParams(init);
  }

  /** A closed value default means the same inside and outside. */
  lemma ClosedDefault(init: seq<Param>, p: Param, given: map<string, Arg>, globals: set<string>, tn: set<string>, vn: set<string>, g: Env, d: Env)
    requires p.ValueParam? && p.init.Some? && WellFormed(init + [p], globals) && Agree(globals, g, d)
    requires globals <= vn && BindsAll(init, given, globals, tn, vn, g, d)
    ensures ExprNames(p.init.value) <= vn && Eval(p.init.value, BoundEnv(init, given, g, d)) == Eval(p.init.value, d)
  {
    hide Width, SubstType, Eval, Bind, BoundEnv, Within, ExprNames;
    var all := init + [p];
    assert all[|init|] == p && ExprNames(p.init.value) <= globals;
    ClosedMeaning(p.init.value, globals, BoundEnv(init, given, g, d), d);
  }

  /** An expression over global names means the same everywhere. */
  lemma ClosedMeaning(e: Expr, globals: set<string>, b: Env, d: Env)
    requires ExprNames(e) <= globals && forall n :: n in globals ==> Look(b.vals, n) == Look(d.vals, n)
    ensures Eval(e, b) == Eval(e, d)
  {
    ExprMeaning(e, map[], b, d);
    ExprMeaning(e, map[], d, d);
  }

  /* ---- chains of base classes ---- */

  datatype ClassInfo = ClassInfo(
    params: seq<Param>, base: Option<string>, extArgs: seq<Actual>, inlined: map<string, DataType>, opaqueNames: set<string>)

  datatype Lookup = Found(t: Option<DataType>) | Missing

  const CHAIN_LIMIT: nat := 64

  type Classes = map<string, ClassInfo>

  predicate Declares(ci: ClassInfo, n: string) {
    n in ci.inlined || n in ci.opaqueNames || exists p :: p in ci.params && p.name == n
  }

  /** A class declares its typedefs, inlined or not, and its parameters. */
  lemma {:induction false} DeclaresIff(ci: ClassInfo, n: string)
    ensures Declares(ci, n) <==> n in ci.inlined.Keys + ci.opaqueNames + TypeParams(ci.params) + ValueParams(ci.params)
  {
    if p :| p in ci.params && p.name == n { assert p.TypeParam? || p.ValueParam?; }
  }

  /** Each class extends the next, all are known, and only the last declares `n`. */
  ghost predicate Path(classes: Classes, path: seq<string>, n: string) {
    && |path| > 0
    && (forall i :: 0 <= i < |path| ==> path[i] in classes)
    && (forall i :: 0 <= i < |path| - 1 ==> classes[path[i]].base == Some(path[i + 1]) && !Declares(classes[path[i]], n))
  }

  /** The arguments a class passes its base. */
  function GivenTo(classes: Classes, c: string, b: string): map<string, Arg>
    requires c in classes && b in classes
  {
    Given(classes[b].params, classes[c].extArgs)
  }

  /** A type of the last class of a path, written for the first. */
  function Inlined(classes: Classes, path: seq<string>, t: DataType): Option<DataType>
    requires |path| > 0 && forall i :: 0 <= i < |path| ==> path[i] in classes
  {
    if |path| == 1 then Some(t)
    else match Inlined(classes, path[1..], t)
      case None => None
      case Some(u) =>
        var (tm, vm) := Bind(classes[path[1]].params, GivenTo(classes, path[0], path[1]));
        SubstType(u, tm, vm)
  }

  /** The environment of the last class of a path, given that of the first. */
  function EnvAlong(classes: Classes, path: seq<string>, g: Env, e: Env): Env
    requires |path| > 0 && forall i :: 0 <= i < |path| ==> path[i] in classes
    decreases |path|
  {
    if |path| == 1 then e
    else EnvAlong(classes, path[1..], g, BoundEnv(classes[path[1]].params, GivenTo(classes, path[0], path[1]), g, e))
  }

  function TypeScope(ci: ClassInfo, globals: set<string>): set<string> { TypeParams(ci.params) + globals }

  function ValueScope(ci: ClassInfo, globals: set<string>): set<string> { ValueParams(ci.params) + globals }

  /** Every class on the path is well formed and passes fitting arguments. */
  ghost predicate SoundPath(classes: Classes, path: seq<string>, globals: set<string>) {
    && |path| > 0 && (forall i :: 0 <= i < |path| ==> path[i] in classes)
    && (forall i :: 0 < i < |path| ==>
          && WellFormed(classes[path[i]].params, globals)
          && ArgsFit(classes[path[i]].params, GivenTo(classes, path[i - 1], path[i]),
                     TypeScope(classes[path[i - 1]], globals), ValueScope(classes[path[i - 1]], globals)))
  }

  /** An inlined type uses only names of the class it is written for. */
  lemma {:induction false} InlinedWithin(classes: Classes, path: seq<string>, globals: set<string>, t: DataType, g: Env, e: Env)
    requires SoundPath(classes, path, globals) && Inlined(classes, path, t).Some? && Agree(globals, g, e)
    requires var last := classes[path[|path| - 1]]; Within(t, TypeScope(last, globals), ValueScope(last, globals))
    ensures var first := classes[path[0]];
      Within(Inlined(classes, path, t).value, TypeScope(first, globals), ValueScope(first, globals))
    decreases |path|
  {
    hide Within, SubstType, Bind, BoundEnv, WellFormed, ArgsFit;
    if |path| > 1 {
      var c, b := classes[path[0]], classes[path[1]];
      TailSound(classes, path, globals);
      BindingSound(b.params, GivenTo(classes, path[0], path[1]), globals, TypeScope(c, globals), ValueScope(c, globals), g, e);
      InlinedWithin(classes, path[1..], globals, t, g, BoundEnv(b.params, GivenTo(classes, path[0], path[1]), g, e));
      var (tm, vm) := Bind(b.params, GivenTo(classes, path[0], path[1]));
      Widen(Inlined(classes, path[1..], t).value, tm.Keys + globals, vm.Keys + globals,
        tm.Keys + TypeScope(c, globals), vm.Keys + ValueScope(c, globals));
      NamesAfter(Inlined(classes, path[1..], t).value, tm, vm, TypeScope(c, globals), ValueScope(c, globals));
    }
  }

  lemma Widen(t: DataType, tn: set<string>, vn: set<string>, tn': set<string>, vn': set<string>)
    requires Within(t, tn, vn) && tn <= tn' && vn <= vn'
    ensures Within(t, tn', vn')
  {}

  lemma TailSound(classes: Classes, path: seq<string>, globals: set<string>)
    requires SoundPath(classes, path, globals) && |path| > 1
    ensures SoundPath(classes, path[1..], globals)
    ensures path[1..][|path| - 2] == path[|path| - 1]
  {
    hide WellFormed, ArgsFit;
    var tail := path[1..];
    forall i | 0 < i < |tail|
      ensures WellFormed(classes[tail[i]].params, globals)
      ensures ArgsFit(classes[tail[i]].params, GivenTo(classes, tail[i - 1], tail[i]),
                      TypeScope(classes[tail[i - 1]], globals), ValueScope(classes[tail[i - 1]], globals))
    {
      assert tail[i] == path[i + 1] && tail[i - 1] == path[i];
    }
  }

  /**
   Inlining preserves width along any chain of bases: in the derived class the
   rewritten type has the width the typedef has in the base under the bound
   parameters.
   */
  lemma {:induction false} ChainWidth(classes: Classes, path: seq<string>, globals: set<string>, t: DataType, g: Env, e: Env)
    requires SoundPath(classes, path, globals) && Inlined(classes, path, t).Some? && Agree(globals, g, e)
    requires var last := classes[path[|path| - 1]]; Within(t, TypeScope(last, globals), ValueScope(last, globals))
    ensures Width(Inlined(classes, path, t).value, e) == Width(t, EnvAlong(classes, path, g, e))
    decreases |path|
  {
    hide Within, SubstType, Bind, BoundEnv, WellFormed, ArgsFit, Width;
    if |path| > 1 {
      var c, b := classes[path[0]], classes[path[1]];
      var given := GivenTo(classes, path[0], path[1]);
      var e1 := BoundEnv(b.params, given, g, e);
      TailSound(classes, path, globals);
      BindingSound(b.params, given, globals, TypeScope(c, globals), ValueScope(c, globals), g, e);
      ChainWidth(classes, path[1..], globals, t, g, e1);
      InlinedWithin(classes, path[1..], globals, t, g, e1);
      var u := Inlined(classes, path[1..], t).value;
      var (tm, vm) := Bind(b.params, given);
      StepWidth(u, b.params, given, globals, TypeScope(c, globals), ValueScope(c, globals), g, e);
    }
  }

  lemma StepWidth(u: DataType, params: seq<Param>, given: map<string, Arg>, globals: set<string>, tn: set<string>, vn: set<string>, g: Env, e: Env)
    requires BindsAll(params, given, globals, tn, vn, g, e) && Agree(globals, g, e)
    requires Within(u, TypeParams(params) + globals, ValueParams(params) + globals)
    requires var (tm, vm) := Bind(params, given); SubstType(u, tm, vm).Some?
    ensures var (tm, vm) := Bind(params, given);
      Width(SubstType(u, tm, vm).value, e) == Width(u, BoundEnv(params, given, g, e))
  {
    hide Width, SubstType, Eval, TypeNames, ValueNames, Bind, BoundEnv;
    var (tm, vm) := Bind(params, given);
    SubstWidth(u, tm, vm, BoundEnv(params, given, g, e), e);
  }

  /** `class_chain_type`: walk to the class that declares `n`, then rewrite its type class by class. */
  method ClassChainType(classes: Classes, c: string, n: string) returns (r: Lookup, ghost path: seq<string>)
    ensures r.Found? ==> Path(classes, path, n) && path[0] == c && |path| <= CHAIN_LIMIT && Declares(classes[path[|path| - 1]], n)
    ensures r.Found? ==> r.t == var last := classes[path[|path| - 1]];
                                if n in last.inlined then Inlined(classes, path, last.inlined[n]) else None
    ensures r.Missing? ==> forall p :: Path(classes, p, n) && p[0] == c && Declares(classes[p[|p| - 1]], n) ==> |p| > CHAIN_LIMIT
  {
    hide Bind, SubstType;
    var cur := c;
    var maps: seq<(TypeMap, ValueMap)> := [];
    path := [c];
    for k := 0 to CHAIN_LIMIT
      invariant |path| == k + 1 && |maps| == k && path[k] == cur && path[0] == c
      invariant k > 0 ==> forall i :: 0 <= i <= k ==> path[i] in classes
      invariant forall i :: 0 <= i < k ==> classes[path[i]].base == Some(path[i + 1]) && !Declares(classes[path[i]], n)
      invariant forall i :: 0 <= i < k ==>
        maps[i] == Bind(classes[path[i + 1]].params, GivenTo(classes, path[i], path[i + 1]))
    {
      if cur !in classes {
        StopsShort(classes, path, c, n);
        return Missing, path;
      }
      var ci := classes[cur];
      if n in ci.inlined {
        var t := RewriteAlong(classes, path, maps, ci.inlined[n]);
        return Found(t), path;
      }
      if Declares(ci, n) { return Found(None), path; }
      if ci.base.None? || ci.base.value !in classes {
        StopsShort(classes, path, c, n);
        return Missing, path;
      }
      var b := ci.base.value;
      var tm, vm := BindParams(classes[b].params, ci.extArgs);
      maps := maps + [(tm, vm)];
      path := path + [b];
      cur := b;
    }
    LimitReached(classes, path, c, n);
    r := Missing;
  }

  /** Two chains from one class follow the same bases. */
  lemma {:induction false} SameChain(classes: Classes, p: seq<string>, q: seq<string>, i: nat)
    requires |p| > 0 && |q| > 0 && p[0] == q[0] && i < |p| && i < |q|
    requires forall j :: 0 <= j < |p| - 1 ==> p[j] in classes && classes[p[j]].base == Some(p[j + 1])
    requires forall j :: 0 <= j < |q| - 1 ==> q[j] in classes && classes[q[j]].base == Some(q[j + 1])
    ensures p[i] == q[i]
  {
    if i > 0 { SameChain(classes, p, q, i - 1); }
  }

  /** When the walk ends at a class that neither declares the name nor has a known base, no class declares it. */
  lemma StopsShort(classes: Classes, path: seq<string>, c: string, n: string)
    requires |path| > 0 && path[0] == c
    requires forall i :: 0 <= i < |path| - 1 ==> path[i] in classes && classes[path[i]].base == Some(path[i + 1]) && !Declares(classes[path[i]], n)
    requires var last := path[|path| - 1];
      last !in classes || (!Declares(classes[last], n) && (classes[last].base.None? || classes[last].base.value !in classes))
    ensures forall p :: Path(classes, p, n) && p[0] == c ==> !Declares(classes[p[|p| - 1]], n)
  {
    forall p | Path(classes, p, n) && p[0] == c ensures !Declares(classes[p[|p| - 1]], n) {
      if |p| <= |path| {
        SameChain(classes, p, path, |p| - 1);
      } else {
        assert classes[p[|path| - 1]].base == Some(p[|path|]) && p[|path|] in classes;
        SameChain(classes, p, path, |path| - 1);
      }
    }
  }

  lemma LimitReached(classes: Classes, path: seq<string>, c: string, n: string)
    requires |path| == CHAIN_LIMIT + 1 && path[0] == c
    requires forall i :: 0 <= i < |path| - 1 ==> path[i] in classes && classes[path[i]].base == Some(path[i + 1]) && !Declares(classes[path[i]], n)
    ensures forall p :: Path(classes, p, n) && p[0] == c && Declares(classes[p[|p| - 1]], n) ==> |p| > CHAIN_LIMIT
  {
    forall p | Path(classes, p, n) && p[0] == c && Declares(classes[p[|p| - 1]], n) ensures |p| > CHAIN_LIMIT {
      if |p| < |path| { SameChain(classes, p, path, |p| - 1); }
    }
  }

  /** Apply the bindings from the base back to the derived class. */
  method RewriteAlong(ghost classes: Classes, ghost path: seq<string>, maps: seq<(TypeMap, ValueMap)>, t: DataType)
    returns (r: Option<DataType>)
    requires |path| == |maps| + 1 && forall i :: 0 <= i < |path| ==> path[i] in classes
    requires forall i :: 0 <= i < |maps| ==> maps[i] == Bind(classes[path[i + 1]].params, GivenTo(classes, path[i], path[i + 1]))
    ensures r == Inlined(classes, path, t)
  {
    hide Bind, SubstType;
    r := Some(t);
    for i := |maps| downto 0
      invariant r == Inlined(classes, path[i..], t)
    {
      assert path[i..][1..] == path[i + 1..] && path[i..][0] == path[i] && path[i..][1] == path[i + 1];
      if r.Some? { r := SubstType(r.value, maps[i].0, maps[i].1); }
    }
    assert path[0..] == path;
  }

  /* ---- value defaults ---- */

  /** The names whose values an evaluation reads: only the chosen branch, nothing after a failure. */
  function Reads(e: Expr, env: Env): set<string> {
    match e
    case Num(_) => {}
    case Ident(n) => {n}
    case Unary(x) => Reads(x, env)
    case Binary(_, l, r) => Reads(l, env) + if Eval(l, env).None? then {} else Reads(r, env)
    case Conditional(c, t, f) =>
      Reads(c, env) + (match Eval(c, env) case None => {} case Some(a) => if a != 0 then Reads(t, env) else Reads(f, env))
    case Paren(x) => Reads(x, env)
    case Call(name, args) => if name != "$clog2" || args.NoExprs? || args.rest.MoreExprs? then {} else Reads(args.head, env)
  }

  lemma {:induction false} ReadsDecide(e: Expr, b: Env, d: Env)
    requires forall n :: n in Reads(e, b) ==> Look(b.vals, n) == Look(d.vals, n)
    ensures Eval(e, d) == Eval(e, b)
  {
    match e
    case Num(_) =>
    case Ident(_) =>
    case Unary(x) => ReadsDecide(x, b, d);
    case Binary(_, l, r) =>
      ReadsDecide(l, b, d);
      if Eval(l, b).Some? { ReadsDecide(r, b, d); }
    case Conditional(c, t, f) =>
      ReadsDecide(c, b, d);
      if Eval(c, b).Some? {
        if Eval(c, b).value != 0 { ReadsDecide(t, b, d); } else { ReadsDecide(f, b, d); }
      }
    case Paren(x) => ReadsDecide(x, b, d);
    case Call(_, args) => if args.MoreExprs? && Reads(e, b) == Reads(args.head, b) { ReadsDecide(args.head, b, d); }
  }

  /** A value found without the names in `hidden` is found without reading them. */
  lemma {:induction false} FoundUnread(e: Expr, hidden: set<string>, b: Env, d: Env)
    requires forall n :: n in hidden ==> Look(d.vals, n) == None
    requires forall n :: n in ExprNames(e) - hidden ==> Look(b.vals, n) == Look(d.vals, n)
    requires Eval(e, d).Some?
    ensures Reads(e, b) !! hidden && Eval(e, b) == Eval(e, d)
  {
    match e
    case Num(_) =>
    case Ident(_) =>
    case Unary(x) => FoundUnread(x, hidden, b, d);
    case Binary(_, l, r) =>
      FoundUnread(l, hidden, b, d);
      FoundUnread(r, hidden, b, d);
    case Conditional(c, t, f) =>
      FoundUnread(c, hidden, b, d);
      if Eval(c, d).value != 0 { FoundUnread(t, hidden, b, d); } else { FoundUnread(f, hidden, b, d); }
    case Paren(x) => FoundUnread(x, hidden, b, d);
    case Call(_, args) =>
      assert ExprNames(args.head) <= ExprsNames(args);
      FoundUnread(args.head, hidden, b, d);
  }

  /**
   A default evaluates in the deriving class as it does in the header when every
   earlier parameter it reads has its value there too. Where the header's own
   parameters are not visible at all, that is exactly when it has no value in the
   header or its evaluation reads none of them.
   */
  lemma {:induction false} DefaultExactIff(init: seq<Param>, e: Expr, given: map<string, Arg>, globals: set<string>,
                                           tn: set<string>, vn: set<string>, g: Env, d: Env)
    requires WellFormed(init, globals) && ArgsFit(init, given, tn, vn) && Agree(globals, g, d)
    requires globals <= tn && globals <= vn && ExprNames(e) <= ValueParams(init) + globals
    ensures var b := BoundEnv(init, given, g, d);
      && ((forall n :: n in Reads(e, b) && n in ValueParams(init) ==> Look(d.vals, n) == Look(b.vals, n)) ==> Eval(e, d) == Eval(e, b))
      && (Reads(e, b) !! ValueParams(init) ==> Eval(e, d) == Eval(e, b))
      && ((forall n :: n in ValueParams(init) ==> Look(d.vals, n) == None) ==>
            (Eval(e, d) == Eval(e, b) <==> Eval(e, b).None? || Reads(e, b) !! ValueParams(init)))
  {
    hide Eval, Reads, ExprNames, Within, WellFormed, ArgsFit, TypesBound, ValuesBound, MapsWithin;
    BindingSound(init, given, globals, tn, vn, g, d);
    var b := BoundEnv(init, given, g, d);
    ReadNames(e, b);
    if forall n :: n in Reads(e, b) && n in ValueParams(init) ==> Look(d.vals, n) == Look(b.vals, n) {
      ReadsDecide(e, b, d);
    }
    if Eval(e, d).Some? && forall n :: n in ValueParams(init) ==> Look(d.vals, n) == None {
      FoundUnread(e, ValueParams(init), b, d);
    }
  }

  lemma {:induction false} ReadNames(e: Expr, env: Env)
    ensures Reads(e, env) <= ExprNames(e)
  {
    match e
    case Num(_) =>
    case Ident(_) =>
    case Unary(x) => ReadNames(x, env);
    case Binary(_, l, r) =>
      ReadNames(l, env);
      ReadNames(r, env);
    case Conditional(c, t, f) =>
      ReadNames(c, env);
      ReadNames(t, env);
      ReadNames(f, env);
    case Paren(x) => ReadNames(x, env);
    case Call(_, args) =>
      if args.MoreExprs? { ReadNames(args.head, env); }
  }

  /**
   A value default that names an earlier parameter goes wrong: with
   `class G #(int W = 4, int D = W + W)`, `extends G#(8)` gives
   `logic [D-1:0]` no width below, although it has 16 bits in `G`.
   */
  lemma {:induction false} DefaultNotSubstituted()
    ensures var params := [ValueParam("W", Some(Num(4))), ValueParam("D", Some(Binary(Add, Ident("W"), Ident("W"))))];
      var given := Given(params, [Positional(ExprArg(Num(8)))]);
      var t := Vector([Range(Binary(Sub, Ident("D"), Num(1)), Num(0))]);
      var e := Env(map[], map[], map[]);
      var (tm, vm) := Bind(params, given);
      SubstType(t, tm, vm).Some? && Width(SubstType(t, tm, vm).value, e) == None && Width(t, BoundEnv(params, given, e, e)) == Some(16)
  {
    var w, d := ValueParam("W", Some(Num(4))), ValueParam("D", Some(Binary(Add, Ident("W"), Ident("W"))));
    var params := [w, d];
    var args := [Positional(ExprArg(Num(8)))];
    var given := Given(params, args);
    assert given == map["W" := ExprArg(Num(8))] by {
      assert PositionalArgs(params, args, 0) == map[];
      assert PositionalArgs(params, args, 1) == map["W" := ExprArg(Num(8))];
      assert NamedArgs(map["W" := ExprArg(Num(8))], args, 0) == map["W" := ExprArg(Num(8))];
      assert NamedArgs(map["W" := ExprArg(Num(8))], args, 1) == map["W" := ExprArg(Num(8))];
    }
    var t := Vector([Range(Binary(Sub, Ident("D"), Num(1)), Num(0))]);
    var e := Env(map[], map[], map[]);
    assert params[..1] == [w] && [w][..0] == [];
    assert Bind([w], given) == (map[], map["W" := Num(8)]);
    assert Bind(params, given) == (map[], map["W" := Num(8), "D" := Binary(Add, Ident("W"), Ident("W"))]);
    assert BoundEnv([], given, e, e) == e && given["W"].e == Num(8);
    var inner := BoundEnv([w], given, e, e);
    assert inner.vals == map["W" := Some(8)];
    assert Eval(Ident("W"), inner) == Some(8);
    assert Eval(d.init.value, inner) == Some(16);
    assert BoundEnv(params, given, e, e) == inner.(vals := inner.vals["D" := Some(16)]);
    assert BoundEnv(params, given, e, e).vals == map["W" := Some(8), "D" := Some(16)];
    var b := BoundEnv(params, given, e, e);
    assert Eval(Ident("D"), b) == Some(16);
    assert Eval(Binary(Sub, Ident("D"), Num(1)), b) == Some(15);
    assert Extent(t.dims[0], b) == Some(16);
    assert t.dims[1..] == [] && Extents([], b) == Some(1);
  }

  /**
   In a deriving class with a `W = 3` of its own, the default `W + W` of
   `class G #(int W = 4, int D = W + W)`, extended with 8, is 6 and not 16.
   */
  lemma {:induction false} DefaultCaptured()
    ensures var given := map["W" := ExprArg(Num(8))];
      var e, none, d := Binary(Add, Ident("W"), Ident("W")), Env(map[], map[], map[]), Env(map[], map["W" := Some(3)], map[]);
      Eval(e, d) == Some(6) && Eval(e, BoundEnv([ValueParam("W", Some(Num(4)))], given, none, d)) == Some(16)
  {
    var given := map["W" := ExprArg(Num(8))];
    var e, none, d := Binary(Add, Ident("W"), Ident("W")), Env(map[], map[], map[]), Env(map[], map["W" := Some(3)], map[]);
    var params := [ValueParam("W", Some(Num(4)))];
    assert params[..0] == [] && BoundEnv([], given, none, d) == none;
    var b := BoundEnv(params, given, none, d);
    assert b.vals == map["W" := Some(8)];
    assert Eval(Ident("W"), b) == Some(8) && Eval(Ident("W"), d) == Some(3);
  }

  /**
   A name free in the base and redeclared below: with `typedef T [K:0] t` in
   `class B #(type T = logic)`, K = 3 around B and K = 7 in a class extending it,
   the inlined typedef has 8 bits below and 4 in B.
   */
  lemma {:induction false} FreeNameCaptured()
    ensures var t := TypeRef(false, "T", [Range(Ident("K"), Num(0))]);
      var classes := map["B" := ClassInfo([TypeParam("T", Some(Vector([])))], None, [], map["t" := t], {}),
                         "D" := ClassInfo([], Some("B"), [], map[], {})];
      var path, g, d := ["D", "B"], Env(map[], map["K" := Some(3)], map[]), Env(map[], map["K" := Some(7)], map[]);
      && Path(classes, path, "t") && Inlined(classes, path, t).Some?
      && Width(Inlined(classes, path, t).value, d) == Some(8) && Width(t, EnvAlong(classes, path, g, d)) == Some(4)
  {
    var k := Range(Ident("K"), Num(0));
    var t, p := TypeRef(false, "T", [k]), TypeParam("T", Some(Vector([])));
    var classes := map["B" := ClassInfo([p], None, [], map["t" := t], {}), "D" := ClassInfo([], Some("B"), [], map[], {})];
    var path, g, d := ["D", "B"], Env(map[], map["K" := Some(3)], map[]), Env(map[], map["K" := Some(7)], map[]);
    var given := GivenTo(classes, "D", "B");
    assert given == map[];
    assert [p][..0] == [] && Bind([p], given) == (map["T" := Some(Vector([]))], map[]);
    assert path[1..] == ["B"] && SubstDims([k], map[]) == [k];
    assert Inlined(classes, ["B"], t) == Some(t);
    assert Inlined(classes, path, t) == Some(Vector([k]));
    OneDim(k, d);
    var b := BoundEnv([p], given, g, d);
    assert b == Env(map["T" := Some(1)], map["K" := Some(3)], map[]) by { assert BoundEnv([], given, g, d) == g; }
    assert EnvAlong(classes, path, g, d) == b;
    OneDim(k, b);
    assert Eval(Ident("K"), d) == Some(7) && Eval(Ident("K"), b) == Some(3);
  }

  lemma OneDim(k: Dim, env: Env)
    ensures Extents([k], env) == Extent(k, env)
  {
    assert [k][1..] == [] && Extents([], env) == Some(1);
  }
}
