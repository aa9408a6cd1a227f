module PkgScope {
  // Package-scoped type names in one flat table: colliding declarations are
  // renamed `pkg::name` and references rewritten, by the visibility rules of
  // IEEE 1800-2017 section 26.3.

  import opened Names

  const MAX_DEPTH: nat := 8

  /* ---- the design ---- */

  datatype Item =
    | TypeItem(name: string)
    | ImportItem(pkg: string, item: Option<string>)
    | ExportItem(pkg: string, item: Option<string>)

  datatype Description =
    | Package(name: string, items: seq<Item>)
    | UnitType(typeName: string)
    | Module(types: seq<string>)

  datatype PkgInfo = PkgInfo(
    types: set<string>, explicit: seq<(string, string)>, wild: seq<string>, exports: seq<(string, Option<string>)>)

  datatype Info = Info(pkgs: map<string, PkgInfo>, other: set<string>, colliding: set<string>)

  const NoItems: PkgInfo := PkgInfo({}, [], [], [])

  predicate Declares(info: Info, p: string, n: string) {
    p in info.pkgs && n in info.pkgs[p].types
  }

  /** `n` is declared by a package and somewhere else. */
  ghost predicate Collides(info: Info, n: string) {
    exists p :: Declares(info, p, n) && (n in info.other || exists q :: q != p && Declares(info, q, n))
  }

  ghost predicate Collected(info: Info) {
    forall n :: n in info.colliding <==> Collides(info, n)
  }

  function AddItem(pi: PkgInfo, it: Item): PkgInfo {
    match it
    case TypeItem(n) => pi.(types := pi.types + {n})
    case ImportItem(q, Some(n)) => pi.(explicit := pi.explicit + [(q, n)])
    case ImportItem(q, None) => pi.(wild := pi.wild + [q])
    case ExportItem(q, n) => pi.(exports := pi.exports + [(q, n)])
  }

  function AddItems(pi: PkgInfo, items: seq<Item>): PkgInfo {
    if items == [] then pi else AddItem(AddItems(pi, items[..|items| - 1]), items[|items| - 1])
  }

  function PkgsOf(descs: seq<Description>): map<string, PkgInfo> {
    if descs == [] then map[] else
      var m, d := PkgsOf(descs[..|descs| - 1]), descs[|descs| - 1];
      if d.Package? then m[d.name := AddItems(if d.name in m then m[d.name] else NoItems, d.items)] else m
  }

  function OthersOf(descs: seq<Description>): set<string> {
    if descs == [] then {} else
      var s, d := OthersOf(descs[..|descs| - 1]), descs[|descs| - 1];
      match d case Package(_, _) => s case UnitType(n) => s + {n} case Module(ts) => s + set t | t in ts
  }

  /* ---- what collection finds, said of the descriptions alone ---- */

  ghost predicate IsPackage(descs: seq<Description>, p: string) {
    exists d :: d in descs && d.Package? && d.name == p
  }

  /** Some package description named `p` holds the item. */
  ghost predicate Holds(descs: seq<Description>, p: string, it: Item) {
    exists d :: d in descs && d.Package? && d.name == p && it in d.items
  }

  /** `$unit` or a module declares `n`. */
  ghost predicate Elsewhere(descs: seq<Description>, n: string) {
    exists d :: d in descs && ((d.UnitType? && d.typeName == n) || (d.Module? && n in d.types))
  }

  /** The record of a package is what its items say. */
  ghost predicate Records(pi: PkgInfo, has: Item -> bool) {
    && (forall n :: n in pi.types <==> has(TypeItem(n)))
    && (forall q, n :: (q, n) in pi.explicit <==> has(ImportItem(q, Some(n))))
    && (forall q :: q in pi.wild <==> has(ImportItem(q, None)))
    && (forall q, n :: (q, n) in pi.exports <==> has(ExportItem(q, n)))
  }

  ghost predicate Reflects(descs: seq<Description>, info: Info) {
    && (forall p :: p in info.pkgs <==> IsPackage(descs, p))
    && (forall p :: p in info.pkgs ==> Records(info.pkgs[p], it => Holds(descs, p, it)))
    && (forall n :: n in info.other <==> Elsewhere(descs, n))
  }

  /** `n` is the type of one package, and of another one or of `$unit` or a module. */
  ghost predicate DeclaredTwice(descs: seq<Description>, n: string) {
    exists p :: Holds(descs, p, TypeItem(n)) && (Elsewhere(descs, n) || exists q :: q != p && Holds(descs, q, TypeItem(n)))
  }

  lemma {:induction false} ItemsRecorded(start: PkgInfo, items: seq<Item>, has: Item -> bool)
    requires Records(start, has)
    ensures Records(AddItems(start, items), it => has(it) || it in items)
  {
    if items != [] {
      var init, last := items[..|items| - 1], items[|items| - 1];
      assert items == init + [last];
      ItemsRecorded(start, init, has);
    }
  }

  lemma NothingRecorded()
    ensures Records(NoItems, it => false)
  {}

  lemma {:induction false} DescriptionsCollected(descs: seq<Description>)
    ensures Reflects(descs, Info(PkgsOf(descs), OthersOf(descs), {}))
  {
    hide Records, AddItems;
    if descs != [] {
      var init, d := descs[..|descs| - 1], descs[|descs| - 1];
      assert descs == init + [d];
      DescriptionsCollected(init);
      if d.Package? { PackageAdded(init, d); } else { OtherAdded(init, d); }
    }
  }

  lemma TextAdded(init: seq<Description>, d: Description)
    ensures forall p, it :: Holds(init + [d], p, it) <==> Holds(init, p, it) || (d.Package? && p == d.name && it in d.items)
    ensures forall p :: IsPackage(init + [d], p) <==> IsPackage(init, p) || (d.Package? && p == d.name)
    ensures forall n :: Elsewhere(init + [d], n) <==>
      Elsewhere(init, n) || (d.UnitType? && d.typeName == n) || (d.Module? && n in d.types)
  {}

  lemma PackageAdded(init: seq<Description>, d: Description)
    requires d.Package? && Reflects(init, Info(PkgsOf(init), OthersOf(init), {}))
    ensures Reflects(init + [d], Info(PkgsOf(init + [d]), OthersOf(init + [d]), {}))
  {
    hide Records, AddItems, Holds, IsPackage, Elsewhere;
    var descs, m := init + [d], PkgsOf(init);
    assert descs[..|init|] == init && descs[|init|] == d;
    var start := if d.name in m then m[d.name] else NoItems;
    TextAdded(init, d);
    NothingRecorded();
    if d.name !in m {
      NoneHeld(init, d.name);
      SameRecords(NoItems, it => false, it => Holds(init, d.name, it));
    }
    ItemsRecorded(start, d.items, it => Holds(init, d.name, it));
    SameRecords(AddItems(start, d.items), it => Holds(init, d.name, it) || it in d.items, it => Holds(descs, d.name, it));
    forall p | p in m && p != d.name ensures Records(m[p], it => Holds(descs, p, it)) {
      SameRecords(m[p], it => Holds(init, p, it), it => Holds(descs, p, it));
    }
  }

  lemma NoneHeld(descs: seq<Description>, p: string)
    requires !IsPackage(descs, p)
    ensures forall it :: !Holds(descs, p, it)
  {}

  lemma SameRecords(pi: PkgInfo, has: Item -> bool, has': Item -> bool)
    requires Records(pi, has) && forall it :: has(it) == has'(it)
    ensures Records(pi, has')
  {}

  lemma OtherAdded(init: seq<Description>, d: Description)
    requires !d.Package? && Reflects(init, Info(PkgsOf(init), OthersOf(init), {}))
    ensures Reflects(init + [d], Info(PkgsOf(init + [d]), OthersOf(init + [d]), {}))
  {
    hide Records, Holds, IsPackage, Elsewhere;
    var descs, m := init + [d], PkgsOf(init);
    assert descs[..|init|] == init && descs[|init|] == d;
    TextAdded(init, d);
    forall p | p in m ensures Records(m[p], it => Holds(descs, p, it)) {
      SameRecords(m[p], it => Holds(init, p, it), it => Holds(descs, p, it));
    }
  }

  lemma CollectedFromText(descs: seq<Description>, info: Info)
    requires Collected(info) && Reflects(descs, info)
    ensures forall n :: n in info.colliding <==> DeclaredTwice(descs, n)
  {
    hide Holds, Elsewhere, IsPackage;
    forall p, n ensures Declares(info, p, n) <==> Holds(descs, p, TypeItem(n)) { DeclaresIsHeld(descs, info, p, n); }
  }

  lemma DeclaresIsHeld(descs: seq<Description>, info: Info, p: string, n: string)
    requires Reflects(descs, info)
    ensures Declares(info, p, n) <==> Holds(descs, p, TypeItem(n))
  {
    if p !in info.pkgs { NoneHeld(descs, p); }
  }

  /** `collect`: package contents, other declarations, and the names that collide. */
  method Collect(descs: seq<Description>) returns (info: Info)
    ensures info.pkgs == PkgsOf(descs) && info.other == OthersOf(descs) && Collected(info)
    ensures Reflects(descs, info) && forall n :: n in info.colliding <==> DeclaredTwice(descs, n)
  {
    hide Reflects;
    var pkgs, other := map[], {};
    for i := 0 to |descs|
      invariant pkgs == PkgsOf(descs[..i]) && other == OthersOf(descs[..i])
    {
      assert descs[..i + 1][..i] == descs[..i];
      var d := descs[i];
      if d.Package? {
        var pi := if d.name in pkgs then pkgs[d.name] else NoItems;
        ghost var start := pi;
        for j := 0 to |d.items|
          invariant pi == AddItems(start, d.items[..j])
        {
          assert d.items[..j + 1][..j] == d.items[..j];
          pi := AddItem(pi, d.items[j]);
        }
        assert d.items[..|d.items|] == d.items;
        pkgs := pkgs[d.name := pi];
      } else if d.UnitType? {
        other := other + {d.typeName};
      } else {
        other := other + set t | t in d.types;
      }
    }
    assert descs[..|descs|] == descs;
    var colliding := Clash(pkgs, other);
    info := Info(pkgs, other, colliding);
    DescriptionsCollected(descs);
    OtherColliding(descs, Info(pkgs, other, {}), info);
    CollectedFromText(descs, info);
  }

  lemma OtherColliding(descs: seq<Description>, info: Info, done: Info)
    requires Reflects(descs, info) && done.pkgs == info.pkgs && done.other == info.other
    ensures Reflects(descs, done)
  {
    hide Records, IsPackage, Elsewhere;
  }

  /** Count the packages that declare each name. */
  method Clash(pkgs: map<string, PkgInfo>, other: set<string>) returns (colliding: set<string>)
    ensures Collected(Info(pkgs, other, colliding))
  {
    ghost var info := Info(pkgs, other, {});
    var once, twice: set<string> := {}, {};
    var rest := pkgs.Keys;
    while rest != {}
      invariant rest <= pkgs.Keys
      invariant forall n :: n in once <==> exists p :: p !in rest && Declares(info, p, n)
      invariant forall n :: n in twice <==> exists p, q :: p != q && p !in rest && q !in rest && Declares(info, p, n) && Declares(info, q, n)
      decreases rest
    {
      var p :| p in rest;
      CountStep(info, rest, p, once, twice);
      rest, once, twice := rest - {p}, once + pkgs[p].types, twice + once * pkgs[p].types;
    }
    colliding := set n | n in once && (n in twice || n in other);
    forall n ensures n in colliding <==> Collides(Info(pkgs, other, colliding), n) {
      ClashIff(info, Info(pkgs, other, colliding), n, once, twice);
    }
  }

  lemma CountStep(info: Info, rest: set<string>, p: string, once: set<string>, twice: set<string>)
    requires p in rest && rest <= info.pkgs.Keys
    requires forall n :: n in once <==> exists q :: q !in rest && Declares(info, q, n)
    requires forall n :: n in twice <==> exists q, r :: q != r && q !in rest && r !in rest && Declares(info, q, n) && Declares(info, r, n)
    ensures forall n :: n in once + info.pkgs[p].types <==> exists q :: q !in rest - {p} && Declares(info, q, n)
    ensures forall n :: n in twice + once * info.pkgs[p].types <==>
              exists q, r :: q != r && q !in rest - {p} && r !in rest - {p} && Declares(info, q, n) && Declares(info, r, n)
  {
    forall n
      ensures n in once + info.pkgs[p].types <==> exists q :: q !in rest - {p} && Declares(info, q, n)
    {
      assert n in info.pkgs[p].types <==> Declares(info, p, n);
    }
    forall n
      ensures n in twice + once * info.pkgs[p].types <==>
        exists q, r :: q != r && q !in rest - {p} && r !in rest - {p} && Declares(info, q, n) && Declares(info, r, n)
    {
      assert n in info.pkgs[p].types <==> Declares(info, p, n);
    }
  }

  lemma ClashIff(info: Info, done: Info, n: string, once: set<string>, twice: set<string>)
    requires done.pkgs == info.pkgs && done.other == info.other
    requires n in once <==> exists p :: Declares(info, p, n)
    requires n in twice <==> exists p, q :: p != q && Declares(info, p, n) && Declares(info, q, n)
    ensures n in once && (n in twice || n in info.other) <==> Collides(done, n)
  {
    assert forall p :: Declares(info, p, n) <==> Declares(done, p, n);
  }

  /* ---- what a qualified name denotes ---- */

  /** The packages an export list passes `n` on from, in the order tried. */
  function ViaExports(pi: PkgInfo, exports: seq<(string, Option<string>)>, n: string): (r: seq<string>)
    ensures forall q :: q in r <==> exists e :: e in exports && PassesOn(pi, e, n, q)
  {
    if exports == [] then [] else
      var e := exports[0];
      Via(pi, e, n) + ViaExports(pi, exports[1..], n)
  }

  /** One export item passes `n` on from `q`. */
  predicate PassesOn(pi: PkgInfo, e: (string, Option<string>), n: string, q: string) {
    && (e.1.None? || e.1.value == n)
    && (((q, n) in pi.explicit && (e.0 == "*" || e.0 == q))
        || (q in pi.wild && (e.0 == "*" || e.0 == q))
        || (e.0 != "*" && e.1.Some? && q == e.0))
  }

  function Via(pi: PkgInfo, e: (string, Option<string>), n: string): (r: seq<string>)
    ensures forall q :: q in r <==> PassesOn(pi, e, n, q)
  {
    if e.1.Some? && e.1.value != n then []
    else
      NamedFrom(pi.explicit, n, e.0) + FilterFrom(pi.wild, e.0) + (if e.0 != "*" && e.1.Some? then [e.0] else [])
  }

  function NamedFrom(imports: seq<(string, string)>, n: string, ep: string): (r: seq<string>)
    ensures forall q :: q in r <==> (q, n) in imports && (ep == "*" || ep == q)
  {
    if imports == [] then [] else
      (if imports[0].1 == n && (ep == "*" || ep == imports[0].0) then [imports[0].0] else []) + NamedFrom(imports[1..], n, ep)
  }

  function FilterFrom(wild: seq<string>, ep: string): (r: seq<string>)
    ensures forall q :: q in r <==> q in wild && (ep == "*" || ep == q)
  {
    if wild == [] then [] else
      (if ep == "*" || ep == wild[0] then [wild[0]] else []) + FilterFrom(wild[1..], ep)
  }

  /** `owner_in`: the package whose declaration `q::n` denotes, searched to a fixed depth. */
  function OwnerIn(info: Info, q: string, n: string, depth: nat): Option<string>
    decreases MAX_DEPTH + 1 - depth, 1, 0
  {
    if depth > MAX_DEPTH || q !in info.pkgs then None
    else if n in info.pkgs[q].types then Some(q)
    else FirstOwner(info, ViaExports(info.pkgs[q], info.pkgs[q].exports, n), n, depth)
  }

  function FirstOwner(info: Info, qs: seq<string>, n: string, depth: nat): Option<string>
    requires depth <= MAX_DEPTH
    decreases MAX_DEPTH + 1 - depth, 0, |qs|
  {
    if qs == [] then None
    else
      var o := OwnerIn(info, qs[0], n, depth + 1);
      if o.Some? then o else FirstOwner(info, qs[1..], n, depth)
  }

  /** `q` does not declare `n` but exports it from `r`. */
  ghost predicate Reexports(info: Info, q: string, n: string, r: string) {
    && q in info.pkgs && n !in info.pkgs[q].types
    && exists e :: e in info.pkgs[q].exports && PassesOn(info.pkgs[q], e, n, r)
  }

  /** A chain of re-exports from its first package to the one that declares `n`. */
  ghost predicate Chain(info: Info, path: seq<string>, n: string) {
    && |path| > 0 && Declares(info, path[|path| - 1], n)
    && forall i :: 0 <= i < |path| - 1 ==> Reexports(info, path[i], n, path[i + 1])
  }

  /** `q::n` denotes the declaration of `n` in `o`. */
  ghost predicate Denotes(info: Info, q: string, n: string, o: string) {
    exists path :: Chain(info, path, n) && path[0] == q && path[|path| - 1] == o
  }

  /** A found owner is at the end of a chain no longer than the depth bound allows. */
  lemma {:induction false} OwnerSound(info: Info, q: string, n: string, depth: nat) returns (path: seq<string>)
    requires OwnerIn(info, q, n, depth).Some?
    ensures Chain(info, path, n) && path[0] == q && path[|path| - 1] == OwnerIn(info, q, n, depth).value
    ensures |path| + depth <= MAX_DEPTH + 1
    decreases MAX_DEPTH + 1 - depth, 1, 0
  {
    if n in info.pkgs[q].types {
      path := [q];
    } else {
      var qs := ViaExports(info.pkgs[q], info.pkgs[q].exports, n);
      var rest := FirstSound(info, qs, n, depth);
      path := [q] + rest;
      forall i | 0 <= i < |path| - 1 ensures Reexports(info, path[i], n, path[i + 1]) {
        if i > 0 { assert path[i] == rest[i - 1] && path[i + 1] == rest[i]; }
      }
    }
  }

  lemma {:induction false} FirstSound(info: Info, qs: seq<string>, n: string, depth: nat) returns (path: seq<string>)
    requires depth <= MAX_DEPTH && FirstOwner(info, qs, n, depth).Some?
    ensures Chain(info, path, n) && path[0] in qs && path[|path| - 1] == FirstOwner(info, qs, n, depth).value
    ensures |path| + depth + 1 <= MAX_DEPTH + 1
    decreases MAX_DEPTH + 1 - depth, 0, |qs|
  {
    if OwnerIn(info, qs[0], n, depth + 1).Some? {
      path := OwnerSound(info, qs[0], n, depth + 1);
    } else {
      path := FirstSound(info, qs[1..], n, depth);
    }
  }

  /** A chain within the bound makes the search succeed. */
  lemma {:induction false} OwnerComplete(info: Info, path: seq<string>, n: string, depth: nat)
    requires Chain(info, path, n) && |path| + depth <= MAX_DEPTH + 1
    ensures OwnerIn(info, path[0], n, depth).Some?
    decreases |path|
  {
    if |path| > 1 {
      assert Reexports(info, path[0], n, path[1]);
      var rest := path[1..];
      forall i | 0 <= i < |rest| - 1 ensures Reexports(info, rest[i], n, rest[i + 1]) {
        assert Reexports(info, path[i + 1], n, path[i + 2]);
      }
      OwnerComplete(info, rest, n, depth + 1);
      FirstComplete(info, ViaExports(info.pkgs[path[0]], info.pkgs[path[0]].exports, n), n, depth, path[1]);
    }
  }

  lemma {:induction false} FirstComplete(info: Info, qs: seq<string>, n: string, depth: nat, r: string)
    requires depth <= MAX_DEPTH && r in qs && OwnerIn(info, r, n, depth + 1).Some?
    ensures FirstOwner(info, qs, n, depth).Some?
  {
    if qs[0] != r { FirstComplete(info, qs[1..], n, depth, r); }
  }

  /** A declaration of `n` is at most nine packages away from `q`. */
  ghost predicate Near(info: Info, q: string, n: string) {
    exists path :: Chain(info, path, n) && path[0] == q && |path| <= MAX_DEPTH + 1
  }

  /** The search succeeds exactly when some chain has at most nine packages. */
  lemma {:induction false} OwnerIff(info: Info, q: string, n: string)
    ensures OwnerIn(info, q, n, 0).Some? <==> Near(info, q, n)
  {
    if OwnerIn(info, q, n, 0).Some? {
      var path := OwnerSound(info, q, n, 0);
    }
    forall path | Chain(info, path, n) && path[0] == q && |path| <= MAX_DEPTH + 1 ensures OwnerIn(info, q, n, 0).Some? {
      OwnerComplete(info, path, n, 0);
    }
  }

  /** Ten packages `p`, `pp`, ..., each passing on everything of the next; only the last declares `t`. */
  const LongChain: Info :=
    Info(
      map q: string | q in (set k: nat | k < 10 :: PackageAt(k)) :: if |q| == 10 then PkgInfo({"t"}, [], [], []) else PassAll(q),
      {}, {})

  function PackageAt(k: nat): string { seq(k + 1, i => 'p') }

  function PassAll(q: string): PkgInfo { PkgInfo({}, [], [q + "p"], [("*", None)]) }

  lemma LinkAt(k: nat)
    requires k < 9
    ensures PackageAt(k) in LongChain.pkgs && LongChain.pkgs[PackageAt(k)] == PassAll(PackageAt(k))
    ensures forall q :: Reexports(LongChain, PackageAt(k), "t", q) <==> q == PackageAt(k + 1)
  {
    var pi := PassAll(PackageAt(k));
    assert PackageAt(k) + "p" == PackageAt(k + 1);
    assert |PackageAt(k)| == k + 1;
    assert PackageAt(k) in (set k: nat | k < 10 :: PackageAt(k));
    var e: (string, Option<string>) := ("*", None);
    assert pi.exports == [e] && e in pi.exports;
    forall q ensures PassesOn(pi, e, "t", q) <==> q == PackageAt(k + 1) {}
    forall q ensures Reexports(LongChain, PackageAt(k), "t", q) <==> PassesOn(pi, e, "t", q) {}
  }

  lemma {:induction false} LongChainFrom(path: seq<string>, k: nat)
    requires k < 10 && Chain(LongChain, path, "t") && path[0] == PackageAt(k)
    ensures |path| == 10 - k
    decreases 10 - k
  {
    hide Reexports;
    assert |PackageAt(k)| == k + 1;
    if |path| > 1 {
      assert Reexports(LongChain, path[0], "t", path[1]);
      if k == 9 { DeclaresNotReexports(path[0], path[1]); }
      LinkAt(k);
      forall i | 0 <= i < |path| - 2 ensures Reexports(LongChain, path[1..][i], "t", path[1..][i + 1]) {
        assert Reexports(LongChain, path[i + 1], "t", path[i + 2]);
      }
      LongChainFrom(path[1..], k + 1);
    } else if k < 9 {
      LinkAt(k);
    }
  }

  lemma DeclaresNotReexports(q: string, r: string)
    requires |q| == 10 && q in LongChain.pkgs
    ensures !Reexports(LongChain, q, "t", r)
  {}

  /** The first of them denotes `t` of the last, which the search does not reach. */
  lemma {:induction false} TooLongChain()
    ensures Denotes(LongChain, PackageAt(0), "t", PackageAt(9)) && OwnerIn(LongChain, PackageAt(0), "t", 0).None?
  {
    hide Reexports, OwnerIn;
    var path := seq(10, k requires 0 <= k < 10 => PackageAt(k));
    forall k | 0 <= k < 9 ensures Reexports(LongChain, path[k], "t", path[k + 1]) { LinkAt(k); }
    assert |PackageAt(9)| == 10;
    assert Chain(LongChain, path, "t");
    OwnerIff(LongChain, PackageAt(0), "t");
    forall path | Chain(LongChain, path, "t") && path[0] == PackageAt(0) ensures |path| == 10 { LongChainFrom(path, 0); }
  }

  /** The export items of `q` pass on `n` from `r`, by IEEE 1800-2017 section 26.6. */
  ghost predicate ExportsFrom(descs: seq<Description>, q: string, n: string, r: string) {
    exists e, m ::
      && Holds(descs, q, ExportItem(e, m)) && (m == None || m == Some(n))
      && (((e == "*" || e == r) && (Holds(descs, q, ImportItem(r, Some(n))) || Holds(descs, q, ImportItem(r, None))))
          || (e != "*" && e == r && m == Some(n)))
  }

  /** Re-exporting, said of the descriptions alone. */
  lemma {:induction false} ReexportsFromText(descs: seq<Description>, info: Info, q: string, n: string, r: string)
    requires Reflects(descs, info)
    ensures Reexports(info, q, n, r) <==>
      IsPackage(descs, q) && !Holds(descs, q, TypeItem(n)) && ExportsFrom(descs, q, n, r)
  {
    hide Holds, IsPackage, Elsewhere;
    if q in info.pkgs {
      var pi := info.pkgs[q];
      assert Records(pi, it => Holds(descs, q, it));
      forall e, m | Holds(descs, q, ExportItem(e, m)) ensures (e, m) in pi.exports {}
      forall x | x in pi.exports ensures Holds(descs, q, ExportItem(x.0, x.1)) { assert x == (x.0, x.1); }
      assert (r, n) in pi.explicit <==> Holds(descs, q, ImportItem(r, Some(n)));
      assert r in pi.wild <==> Holds(descs, q, ImportItem(r, None));
      if e :| e in pi.exports && PassesOn(pi, e, n, r) { assert Holds(descs, q, ExportItem(e.0, e.1)); }
    }
  }

  /** The search from `q` for `n` ends at `o`. */
  predicate Owns(info: Info, q: string, n: string, o: string) { OwnerIn(info, q, n, 0) == Some(o) }

  /** What `q` denotes by `n`, if anything, is one declaration within the search depth. */
  ghost predicate Settled(info: Info, q: string, n: string) {
    && (forall o, o' :: Denotes(info, q, n, o) && Denotes(info, q, n, o') ==> o == o')
    && (forall o :: Denotes(info, q, n, o) ==> Near(info, q, n))
  }

  lemma OwnerDenotes(info: Info, q: string, n: string, o: string)
    requires Settled(info, q, n)
    ensures Owns(info, q, n, o) <==> Denotes(info, q, n, o)
  {
    OwnerIff(info, q, n);
    if OwnerIn(info, q, n, 0).Some? {
      var path := OwnerSound(info, q, n, 0);
      assert Denotes(info, q, n, path[|path| - 1]);
    }
  }

  /* ---- lexical scopes ---- */

  /** One lexical scope; `bound` holds names a reference has found through a wildcard import. */
  datatype Frame = Frame(
    pkg: Option<string>, types: set<string>, explicit: map<string, string>, wild: seq<string>, bound: map<string, string>)

  datatype Meaning = Nothing | Local | InPackage(o: string) | Clashing | Dangling

  /** The import that makes `n` visible in a scope by name. */
  function ImportOf(f: Frame, n: string): Option<string> {
    if n in f.explicit then Some(f.explicit[n]) else if n in f.bound then Some(f.bound[n]) else None
  }

  /** The declarations of `n` that a scope's wildcard imports provide. */
  ghost predicate Provides(info: Info, f: Frame, n: string, o: string) {
    exists q :: q in f.wild && Denotes(info, q, n, o)
  }

  /** What one scope makes of `n`: its package's own declaration, a local one, an import, a wildcard import. */
  ghost predicate Means(info: Info, f: Frame, n: string, m: Meaning) {
    if f.pkg.Some? && Declares(info, f.pkg.value, n) then m == InPackage(f.pkg.value)
    else if n in f.types then m == Local
    else if ImportOf(f, n).Some? then
      match m
      case InPackage(o) => Denotes(info, ImportOf(f, n).value, n, o)
      case Dangling => forall o :: !Denotes(info, ImportOf(f, n).value, n, o)
      case _ => false
    else
      match m
      case Nothing => forall o :: !Provides(info, f, n, o)
      case InPackage(o) => Provides(info, f, n, o) && forall o' :: Provides(info, f, n, o') ==> o' == o
      case Clashing => exists o, o' :: o != o' && Provides(info, f, n, o) && Provides(info, f, n, o')
      case _ => false
  }

  /** In one scope a declaration comes before an explicit import, that before a name already bound, that before wildcards. */
  lemma {:induction false} VisibilityOrder(info: Info, f: Frame, n: string, m: Meaning)
    requires !(f.pkg.Some? && Declares(info, f.pkg.value, n)) && n !in f.types
    ensures n in f.explicit ==> (Means(info, f, n, m) <==>
      if m.InPackage? then Denotes(info, f.explicit[n], n, m.o) else m == Dangling && forall o :: !Denotes(info, f.explicit[n], n, o))
    ensures n !in f.explicit && n in f.bound ==> (Means(info, f, n, m) <==>
      if m.InPackage? then Denotes(info, f.bound[n], n, m.o) else m == Dangling && forall o :: !Denotes(info, f.bound[n], n, o))
    ensures n !in f.explicit && n !in f.bound && m.InPackage? ==> (Means(info, f, n, m) <==>
      (exists q :: q in f.wild && Denotes(info, q, n, m.o)) && forall q, o :: q in f.wild && Denotes(info, q, n, o) ==> o == m.o)
    ensures n !in f.explicit && n !in f.bound ==> (Means(info, f, n, Nothing) <==> forall q, o :: q in f.wild ==> !Denotes(info, q, n, o))
  {
    hide Denotes;
    if n !in f.explicit && n !in f.bound {
      forall q, o | q in f.wild && Denotes(info, q, n, o) ensures Provides(info, f, n, o) {}
    }
  }

  /** The meaning of `n` in nested scopes, innermost last. */
  ghost predicate Designates(info: Info, frames: seq<Frame>, n: string, m: Meaning) {
    if frames == [] then m == Nothing
    else if Means(info, frames[|frames| - 1], n, Nothing) then Designates(info, frames[..|frames| - 1], n, m)
    else Means(info, frames[|frames| - 1], n, m)
  }

  /** Packages whose imports decide what `n` means in a scope. */
  predicate Consults(info: Info, f: Frame, n: string, q: string) {
    && !(f.pkg.Some? && Declares(info, f.pkg.value, n)) && n !in f.types
    && if ImportOf(f, n).Some? then q == ImportOf(f, n).value else q in f.wild
  }

  ghost predicate LegalFrame(info: Info, f: Frame, n: string) {
    forall q :: Consults(info, f, n, q) ==> Settled(info, q, n)
  }

  /** No scope around the reference reaches `n` ambiguously, or through too long a chain. */
  ghost predicate Legal(info: Info, frames: seq<Frame>, n: string) {
    forall f :: f in frames ==> LegalFrame(info, f, n)
  }

  /* ---- renaming and rewriting ---- */

  function Mangle(p: string, n: string): string { p + "::" + n }

  /** A declaration: of a package, or of `$unit` or a module. */
  datatype Decl = PkgDecl(p: string, n: string) | OtherDecl(n: string)

  /** The key a package declaration has in the flat table. */
  function FlatKey(info: Info, p: string, n: string): string {
    if n in info.colliding then Mangle(p, n) else n
  }

  /** The flat table holds `d` under `key`. */
  predicate Registers(info: Info, key: string, d: Decl) {
    match d
    case PkgDecl(p, n) => Declares(info, p, n) && key == FlatKey(info, p, n)
    case OtherDecl(n) => n in info.other && key == n
  }

  /** A declaration under the spelling `p::n`. */
  predicate Renamed(info: Info, p: string, n: string) { Declares(info, p, n) && n in info.colliding }

  /** `p:` with `m` is spelled like `p` with `:m`. */
  predicate ColonClash(info: Info, p: string, m: string) {
    Renamed(info, p + ":", m) && Renamed(info, p, ":" + m)
  }

  /** `p::s` with `m` is spelled like `p` with `s::m`. */
  predicate NestedClash(info: Info, p: string, s: string, m: string) {
    Renamed(info, Mangle(p, s), m) && Renamed(info, p, Mangle(s, m))
  }

  /** Another declaration has the name `p::n` from the start, and keeps it. */
  ghost predicate BareClash(info: Info, p: string, n: string) {
    var key := Mangle(p, n);
    Renamed(info, p, n) && (key in info.other || (key !in info.colliding && exists q :: Declares(info, q, key)))
  }

  /** No clash involves the declaration of `n` in `o`. */
  ghost predicate Alone(info: Info, o: string, n: string) {
    && (forall p, m :: ColonClash(info, p, m) ==> (o, n) != (p + ":", m) && (o, n) != (p, ":" + m))
    && (forall p, s, m :: NestedClash(info, p, s, m) ==> (o, n) != (Mangle(p, s), m) && (o, n) != (p, Mangle(s, m)))
    && (forall p, k :: BareClash(info, p, k) ==> (o, n) != (p, k) && (n in info.colliding || n != Mangle(p, k)))
  }

  /** Its key finds that declaration and nothing else. */
  ghost predicate OwnKey(info: Info, o: string, n: string) {
    forall d :: Registers(info, FlatKey(info, o, n), d) <==> d == PkgDecl(o, n)
  }

  /** The flat table has one declaration per key. */
  ghost predicate KeysUnique(info: Info) {
    forall key, d, e :: Registers(info, key, d) && Registers(info, key, e) ==> d == e
  }

  /** Two ways to split one spelling. */
  lemma {:induction false} SplitTwice(p: string, n: string, q: string, m: string)
    requires Mangle(p, n) == Mangle(q, m) && |p| <= |q|
    ensures (p == q && n == m) || (q == p + ":" && n == ":" + m) || exists s :: q == Mangle(p, s) && n == Mangle(s, m)
  {
    var k := Mangle(q, m);
    assert p == k[..|p|] && k[|p|] == ':' && k[|p| + 1] == ':' && n == k[|p| + 2..];
    assert q == k[..|q|] && k[|q|] == ':' && k[|q| + 1] == ':' && m == k[|q| + 2..];
    if |q| == |p| + 1 {
      assert n == [n[0]] + n[1..];
    } else if |q| > |p| {
      var s := q[|p| + 2..];
      assert q == Mangle(p, s);
      assert n == k[|p| + 2..|q|] + k[|q|..];
      assert n == Mangle(s, m);
    }
  }

  lemma SameSpelling(info: Info, p: string, n: string, q: string, m: string)
    requires Renamed(info, p, n) && Renamed(info, q, m) && Mangle(p, n) == Mangle(q, m) && |p| <= |q|
    requires Alone(info, p, n) || Alone(info, q, m)
    ensures p == q && n == m
  {
    hide Declares, BareClash;
    SplitTwice(p, n, q, m);
    var colon := ColonClash(info, p, m);
    if s :| q == Mangle(p, s) && n == Mangle(s, m) { var nested := NestedClash(info, p, s, m); }
  }

  /** A declaration has a key of its own exactly when no clash involves it. */
  lemma {:induction false} OwnKeyIff(info: Info, o: string, n: string)
    requires Collected(info) && Declares(info, o, n)
    ensures OwnKey(info, o, n) <==> Alone(info, o, n)
  {
    if Alone(info, o, n) { AloneHasKey(info, o, n); }
    if OwnKey(info, o, n) { KeyIsAlone(info, o, n); }
  }

  lemma AloneHasKey(info: Info, o: string, n: string)
    requires Collected(info) && Declares(info, o, n) && Alone(info, o, n)
    ensures OwnKey(info, o, n)
  {
    hide Alone, ColonClash, NestedClash;
    var key := FlatKey(info, o, n);
    forall d | Registers(info, key, d) ensures d == PkgDecl(o, n) {
      assert n in info.colliding <==> Collides(info, n);
      if n in info.colliding && d.PkgDecl? && d.n in info.colliding {
        if |o| <= |d.p| { SameSpelling(info, o, n, d.p, d.n); } else { SameSpelling(info, d.p, d.n, o, n); }
      } else if n in info.colliding {
        NotBare(info, o, n, o, n);
      } else if d.PkgDecl? && d.n in info.colliding {
        NotBare(info, o, n, d.p, d.n);
      }
    }
  }

  lemma NotBare(info: Info, o: string, n: string, p: string, k: string)
    requires Alone(info, o, n) && ((p, k) == (o, n) || (n !in info.colliding && n == Mangle(p, k)))
    ensures !BareClash(info, p, k)
  {
    hide BareClash, ColonClash, NestedClash;
  }

  lemma KeyIsAlone(info: Info, o: string, n: string)
    requires Collected(info) && Declares(info, o, n) && OwnKey(info, o, n)
    ensures Alone(info, o, n)
  {
    hide Collected;
    var key := FlatKey(info, o, n);
    forall p, m | ColonClash(info, p, m) ensures (o, n) != (p + ":", m) && (o, n) != (p, ":" + m) {
      ColonSpelling(p, m);
      assert Registers(info, Mangle(p, ":" + m), PkgDecl(p, ":" + m)) && Registers(info, Mangle(p, ":" + m), PkgDecl(p + ":", m));
    }
    forall p, s, m | NestedClash(info, p, s, m) ensures (o, n) != (Mangle(p, s), m) && (o, n) != (p, Mangle(s, m)) {
      NestedSpelling(p, s, m);
      var k := Mangle(p, Mangle(s, m));
      assert Registers(info, k, PkgDecl(p, Mangle(s, m))) && Registers(info, k, PkgDecl(Mangle(p, s), m));
    }
    forall p, k | BareClash(info, p, k) ensures (o, n) != (p, k) && (n in info.colliding || n != Mangle(p, k)) {
      BareSpelling(info, p, k);
    }
  }

  lemma ColonSpelling(p: string, m: string)
    ensures Mangle(p + ":", m) == Mangle(p, ":" + m) && |p + ":"| > |p|
  {}

  lemma NestedSpelling(p: string, s: string, m: string)
    ensures Mangle(Mangle(p, s), m) == Mangle(p, Mangle(s, m)) && |Mangle(p, s)| > |p|
  {}

  lemma BareSpelling(info: Info, p: string, k: string)
    requires BareClash(info, p, k)
    ensures !OwnKey(info, p, k)
    ensures forall o :: Declares(info, o, Mangle(p, k)) && Mangle(p, k) !in info.colliding ==> !OwnKey(info, o, Mangle(p, k))
  {
    var key := Mangle(p, k);
    assert |key| > |k|;
    assert Registers(info, key, PkgDecl(p, k));
    forall o | Declares(info, o, key) && key !in info.colliding ensures !OwnKey(info, o, key) {
      assert FlatKey(info, o, key) == key && PkgDecl(o, key) != PkgDecl(p, k);
    }
    if key in info.other {
      assert Registers(info, key, OtherDecl(key));
    } else {
      var q :| Declares(info, q, key);
      assert Registers(info, key, PkgDecl(q, key));
    }
  }

  /** The flat table has one declaration per key exactly when no two spellings clash. */
  lemma {:induction false} KeysAreUnique(info: Info)
    requires Collected(info)
    ensures KeysUnique(info) <==>
      && (forall p, m :: !ColonClash(info, p, m)) && (forall p, s, m :: !NestedClash(info, p, s, m))
      && (forall p, n :: !BareClash(info, p, n))
  {
    hide Alone, OwnKey, Collected, ColonClash, NestedClash, BareClash;
    if KeysUnique(info) {
      forall o, n | Declares(info, o, n) ensures Alone(info, o, n) {
        UniqueOwnKey(info, o, n);
        OwnKeyIff(info, o, n);
      }
      AllAlone(info);
    }
    if (forall p, m :: !ColonClash(info, p, m)) && (forall p, s, m :: !NestedClash(info, p, s, m)) && (forall p, n :: !BareClash(info, p, n)) {
      forall o, n | Declares(info, o, n) ensures OwnKey(info, o, n) {
        NoClashAlone(info, o, n);
        OwnKeyIff(info, o, n);
      }
      AllOwnKeys(info);
    }
  }

  lemma UniqueOwnKey(info: Info, o: string, n: string)
    requires KeysUnique(info) && Declares(info, o, n)
    ensures OwnKey(info, o, n)
  {
    assert Registers(info, FlatKey(info, o, n), PkgDecl(o, n));
  }

  lemma AllAlone(info: Info)
    requires forall o, n :: Declares(info, o, n) ==> Alone(info, o, n)
    ensures (forall p, m :: !ColonClash(info, p, m)) && (forall p, s, m :: !NestedClash(info, p, s, m))
    ensures forall p, n :: !BareClash(info, p, n)
  {
    forall p, m ensures !ColonClash(info, p, m) {
      var declared := Declares(info, p + ":", m);
    }
    forall p, s, m ensures !NestedClash(info, p, s, m) {
      var declared := Declares(info, Mangle(p, s), m);
    }
  }

  lemma NoClashAlone(info: Info, o: string, n: string)
    requires (forall p, m :: !ColonClash(info, p, m)) && (forall p, s, m :: !NestedClash(info, p, s, m))
    requires forall p, k :: !BareClash(info, p, k)
    ensures Alone(info, o, n)
  {
    hide ColonClash, NestedClash, BareClash;
  }

  lemma AllOwnKeys(info: Info)
    requires forall o, n :: Declares(info, o, n) ==> OwnKey(info, o, n)
    ensures KeysUnique(info)
  {
    forall key, d, e | Registers(info, key, d) && Registers(info, key, e) ensures d == e {
      if d.PkgDecl? { assert OwnKey(info, d.p, d.n); }
      if e.PkgDecl? { assert OwnKey(info, e.p, e.n); }
    }
  }

  /** No identifier holds `::`; an escaped one can. */
  ghost predicate Identifiers(info: Info) {
    && (forall p :: p in info.pkgs ==> !HasColons(p))
    && (forall p, n :: Declares(info, p, n) ==> !HasColons(n))
    && (forall n :: n in info.other ==> !HasColons(n))
  }

  lemma MangledHasColons(p: string, n: string)
    ensures HasColons(Mangle(p, n))
  {
    ColonsAt(Mangle(p, n), |p|);
  }

  /** Without `::` in a name, only a colon at the end of a package name can cause a clash. */
  lemma {:induction false} OnlyColonsClash(info: Info)
    requires Collected(info) && Identifiers(info)
    ensures KeysUnique(info) <==> forall p, m :: !ColonClash(info, p, m)
  {
    hide ColonClash, Collected, KeysUnique, HasColons;
    KeysAreUnique(info);
    forall p, s, m ensures !NestedClash(info, p, s, m) { MangledHasColons(p, s); }
    forall p, n ensures !BareClash(info, p, n) { MangledHasColons(p, n); }
  }

  lemma TooShort(s: string)
    requires |s| < 2 || (|s| == 2 && (s[0] != ':' || s[1] != ':'))
    ensures !HasColons(s)
  {
    if |s| == 2 { assert s[..2][0] == s[0] && s[..2][1] == s[1]; }
  }

  /** Packages `a:` and `a`, whose `b` and `:b` collide with names of `$unit`, share a key. */
  lemma {:induction false} TrailingColonClashes()
    ensures var info := Info(map["a:" := PkgInfo({"b"}, [], [], []), "a" := PkgInfo({":b"}, [], [], [])], {"b", ":b"}, {"b", ":b"});
      && Collected(info) && Identifiers(info) && ColonClash(info, "a", "b")
      && Registers(info, "a:::b", PkgDecl("a:", "b")) && Registers(info, "a:::b", PkgDecl("a", ":b"))
  {
    var info := Info(map["a:" := PkgInfo({"b"}, [], [], []), "a" := PkgInfo({":b"}, [], [], [])], {"b", ":b"}, {"b", ":b"});
    assert Declares(info, "a:", "b") && Declares(info, "a", ":b");
    assert Mangle("a:", "b") == "a:::b" == Mangle("a", ":b");
    assert "a" + ":" == "a:" && ":" + "b" == ":b";
    assert "a:"[1] == ':' && ":b"[1] == 'b';
    TooShort("a:");
    TooShort("a");
    TooShort(":b");
    TooShort("b");
  }

  /** Package `a`, whose `b` collides, beside an escaped name `a::b` of `$unit`. */
  lemma {:induction false} EscapedNameClashes()
    ensures var info := Info(map["a" := PkgInfo({"b"}, [], [], [])], {"b", "a::b"}, {"b"});
      && Collected(info) && BareClash(info, "a", "b")
      && Registers(info, "a::b", PkgDecl("a", "b")) && Registers(info, "a::b", OtherDecl("a::b"))
  {
    var info := Info(map["a" := PkgInfo({"b"}, [], [], [])], {"b", "a::b"}, {"b"});
    assert Declares(info, "a", "b");
    assert Mangle("a", "b") == "a::b";
  }

  datatype Res = Keep | To(name: string) | Ambiguous(owners: set<string>)

  /** The name a reference carries after the pass. */
  function Rewritten(r: Res, n: string): string
    requires !r.Ambiguous?
  {
    match r case Keep => n case To(s) => s
  }

  function OwnerSet(info: Info, q: string, n: string): (s: set<string>)
    ensures forall o :: o in s <==> Owns(info, q, n, o)
  {
    match OwnerIn(info, q, n, 0) case Some(o) => {o} case None => {}
  }

  function Owners(info: Info, wild: seq<string>, n: string): (s: set<string>)
    ensures forall o :: o in s <==> exists q :: q in wild && Owns(info, q, n, o)
  {
    if wild == [] then {} else OwnerSet(info, wild[0], n) + Owners(info, wild[1..], n)
  }

  /** The result a meaning calls for. */
  ghost predicate Answers(info: Info, n: string, m: Meaning, r: Res) {
    match m
    case InPackage(o) => !r.Ambiguous? && Registers(info, Rewritten(r, n), PkgDecl(o, n))
    case Clashing => r.Ambiguous? && |r.owners| > 1
    case _ => r == Keep
  }

  /** One scope of the search for a colliding name. */
  function FrameResult(info: Info, f: Frame, n: string): Option<Res> {
    if f.pkg.Some? && Declares(info, f.pkg.value, n) then Some(To(Mangle(f.pkg.value, n)))
    else if n in f.types then Some(Keep)
    else if ImportOf(f, n).Some? then
      match OwnerIn(info, ImportOf(f, n).value, n, 0)
      case Some(o) => Some(To(Mangle(o, n)))
      case None => Some(Keep)
    else
      var cands := Owners(info, f.wild, n);
      if cands == {} then None
      else if |cands| == 1 then Some(To(Mangle(Only(cands), n)))
      else Some(Ambiguous(cands))
  }

  function Only(s: set<string>): (x: string)
    requires |s| == 1
    ensures s == {x}
  {
    OnlyMember(s);
    var x :| x in s;
    x
  }

  lemma OnlyMember(s: set<string>)
    requires |s| == 1
    ensures forall x :: x in s ==> s == {x}
  {
    forall x | x in s ensures s == {x} {
      assert |s - {x}| == 0;
      assert s - {x} == {};
    }
  }

  lemma TwoOf(s: set<string>) returns (x: string, y: string)
    requires |s| > 1
    ensures x in s && y in s && x != y
  {
    x :| x in s;
    assert |s - {x}| > 0;
    y :| y in s - {x};
  }

  lemma DenotedDeclares(info: Info, q: string, n: string, o: string)
    requires Denotes(info, q, n, o)
    ensures Declares(info, o, n)
  {}

  /** A colliding name in one scope is answered by what it means there. */
  lemma FrameAnswers(info: Info, f: Frame, n: string) returns (m: Meaning)
    requires Collected(info) && LegalFrame(info, f, n) && n in info.colliding
    ensures Means(info, f, n, m)
    ensures FrameResult(info, f, n).None? <==> m == Nothing
    ensures FrameResult(info, f, n).Some? ==> Answers(info, n, m, FrameResult(info, f, n).value)
  {
    hide Denotes, OwnerIn, Settled, Collides;
    if f.pkg.Some? && Declares(info, f.pkg.value, n) {
      m := InPackage(f.pkg.value);
    } else if n in f.types {
      m := Local;
    } else if ImportOf(f, n).Some? {
      m := ImportAnswers(info, ImportOf(f, n).value, n);
    } else {
      m := WildAnswers(info, f, n);
    }
  }

  lemma ImportAnswers(info: Info, q: string, n: string) returns (m: Meaning)
    requires Settled(info, q, n) && n in info.colliding
    ensures match OwnerIn(info, q, n, 0)
            case Some(o) => m == InPackage(o) && Denotes(info, q, n, o) && Registers(info, Mangle(o, n), PkgDecl(o, n))
            case None => m == Dangling && forall o :: !Denotes(info, q, n, o)
  {
    hide Denotes, OwnerIn, Settled;
    forall o ensures Owns(info, q, n, o) <==> Denotes(info, q, n, o) { OwnerDenotes(info, q, n, o); }
    match OwnerIn(info, q, n, 0)
    case Some(o) =>
      DenotedDeclares(info, q, n, o);
      m := InPackage(o);
    case None => m := Dangling;
  }

  /** The candidates are exactly what the wildcard imports provide. */
  lemma CandidatesProvide(info: Info, f: Frame, n: string)
    requires forall q :: q in f.wild ==> Settled(info, q, n)
    ensures forall o :: o in Owners(info, f.wild, n) <==> Provides(info, f, n, o)
  {
    hide Denotes, OwnerIn, Settled;
    forall o ensures o in Owners(info, f.wild, n) <==> Provides(info, f, n, o) {
      forall q | q in f.wild ensures Owns(info, q, n, o) <==> Denotes(info, q, n, o) { OwnerDenotes(info, q, n, o); }
    }
  }

  lemma WildAnswers(info: Info, f: Frame, n: string) returns (m: Meaning)
    requires LegalFrame(info, f, n) && n in info.colliding
    requires !(f.pkg.Some? && Declares(info, f.pkg.value, n)) && n !in f.types && ImportOf(f, n).None?
    ensures Means(info, f, n, m)
    ensures FrameResult(info, f, n).None? <==> m == Nothing
    ensures FrameResult(info, f, n).Some? ==> Answers(info, n, m, FrameResult(info, f, n).value)
  {
    hide Denotes, OwnerIn, Settled, Owners;
    CandidatesProvide(info, f, n);
    var cands := Owners(info, f.wild, n);
    if cands == {} {
      m := Nothing;
    } else if |cands| == 1 {
      var o := Only(cands);
      assert Provides(info, f, n, o);
      var q :| q in f.wild && Denotes(info, q, n, o);
      DenotedDeclares(info, q, n, o);
      m := InPackage(o);
    } else {
      var o, o' := TwoOf(cands);
      m := Clashing;
    }
  }

  /** The search over all scopes, innermost first. */
  function Search(info: Info, frames: seq<Frame>, n: string): Res {
    if frames == [] then Keep
    else match FrameResult(info, frames[|frames| - 1], n)
      case Some(r) => r
      case None => Search(info, frames[..|frames| - 1], n)
  }

  function Resolution(info: Info, frames: seq<Frame>, n: string): Res {
    if n !in info.colliding then Keep else Search(info, frames, n)
  }

  lemma {:induction false} SearchAnswers(info: Info, frames: seq<Frame>, n: string) returns (m: Meaning)
    requires Collected(info) && Legal(info, frames, n) && n in info.colliding
    ensures Designates(info, frames, n, m) && Answers(info, n, m, Search(info, frames, n))
  {
    hide Means, FrameResult, Answers, LegalFrame, Collected;
    if frames == [] {
      m := Nothing;
      KeepAnswers(info, n);
    } else {
      var f := frames[|frames| - 1];
      var here := FrameAnswers(info, f, n);
      if here == Nothing {
        m := SearchAnswers(info, frames[..|frames| - 1], n);
      } else {
        NotNothing(info, f, n, here);
        m := here;
      }
    }
  }

  lemma KeepAnswers(info: Info, n: string)
    ensures Answers(info, n, Nothing, Keep)
  {}

  /** A scope gives a name one meaning. */
  lemma MeansOnce(info: Info, f: Frame, n: string, m: Meaning, m': Meaning)
    requires LegalFrame(info, f, n) && Means(info, f, n, m) && Means(info, f, n, m')
    ensures m == m'
  {
    hide Denotes, OwnerIn, Near;
    if ImportOf(f, n).Some? && n !in f.types && !(f.pkg.Some? && Declares(info, f.pkg.value, n)) {
      assert Consults(info, f, n, ImportOf(f, n).value);
    }
  }

  lemma NotNothing(info: Info, f: Frame, n: string, m: Meaning)
    requires LegalFrame(info, f, n) && Means(info, f, n, m) && m != Nothing
    ensures !Means(info, f, n, Nothing)
  {
    hide Means;
    if Means(info, f, n, Nothing) { MeansOnce(info, f, n, m, Nothing); }
  }

  lemma {:induction false} DesignatesOnce(info: Info, frames: seq<Frame>, n: string, m: Meaning, m': Meaning)
    requires Legal(info, frames, n) && Designates(info, frames, n, m) && Designates(info, frames, n, m')
    ensures m == m'
  {
    hide Means, LegalFrame;
    if frames != [] {
      var f := frames[|frames| - 1];
      if Means(info, f, n, Nothing) {
        DesignatesOnce(info, frames[..|frames| - 1], n, m, m');
      } else {
        MeansOnce(info, f, n, m, m');
      }
    }
  }

  lemma {:induction false} DesignatedDeclares(info: Info, frames: seq<Frame>, n: string, o: string)
    requires Designates(info, frames, n, InPackage(o))
    ensures Declares(info, o, n)
  {
    hide Denotes;
    if frames != [] {
      var f := frames[|frames| - 1];
      if Means(info, f, n, Nothing) {
        DesignatedDeclares(info, frames[..|frames| - 1], n, o);
      } else {
        MeaningDeclares(info, f, n, o);
      }
    }
  }

  lemma MeaningDeclares(info: Info, f: Frame, n: string, o: string)
    requires Means(info, f, n, InPackage(o))
    ensures Declares(info, o, n)
  {
    hide Denotes;
    if !(f.pkg.Some? && Declares(info, f.pkg.value, n)) {
      if ImportOf(f, n).Some? {
        DenotedDeclares(info, ImportOf(f, n).value, n, o);
      } else {
        var q :| q in f.wild && Denotes(info, q, n, o);
        DenotedDeclares(info, q, n, o);
      }
    }
  }

  lemma {:induction false} ClashCollides(info: Info, frames: seq<Frame>, n: string)
    requires Designates(info, frames, n, Clashing)
    ensures Collides(info, n)
  {
    hide Denotes;
    if frames != [] {
      var f := frames[|frames| - 1];
      if Means(info, f, n, Nothing) {
        ClashCollides(info, frames[..|frames| - 1], n);
      } else {
        var o, o' :| o != o' && Provides(info, f, n, o) && Provides(info, f, n, o');
        var q :| q in f.wild && Denotes(info, q, n, o);
        var q' :| q' in f.wild && Denotes(info, q', n, o');
        DenotedDeclares(info, q, n, o);
        DenotedDeclares(info, q', n, o');
      }
    }
  }

  /**
   Renaming preserves meaning: a reference designating a package declaration
   carries that declaration's key after rewriting, which finds nothing else
   exactly when no clash involves the declaration; a clashing reference is
   reported, and every other reference keeps its name.
   */
  lemma {:induction false} MeaningPreserved(info: Info, frames: seq<Frame>, n: string, m: Meaning)
    requires Collected(info) && Legal(info, frames, n) && Designates(info, frames, n, m)
    ensures var r := Resolution(info, frames, n);
      match m
      case InPackage(o) =>
        && !r.Ambiguous? && Registers(info, Rewritten(r, n), PkgDecl(o, n))
        && ((forall d :: Registers(info, Rewritten(r, n), d) <==> d == PkgDecl(o, n)) <==> Alone(info, o, n))
      case Clashing => r.Ambiguous?
      case _ => r == Keep
  {
    hide Designates, LegalFrame, Collides, Search, Alone;
    if n in info.colliding {
      var m' := SearchAnswers(info, frames, n);
      DesignatesOnce(info, frames, n, m, m');
    } else {
      if m.InPackage? { DesignatedDeclares(info, frames, n, m.o); }
      if m.Clashing? { ClashCollides(info, frames, n); }
    }
    if m.InPackage? { OwnKeyIff(info, m.o, n); }
  }

  /**
   A locally shadowed reference keeps its bare name. That name is a package
   declaration's key exactly when the shadowing declaration was not collected
   and one package alone declares it, or when it is spelled like a renamed one.
   */
  lemma {:induction false} ShadowedStaysLocal(info: Info, frames: seq<Frame>, n: string)
    requires Collected(info) && Legal(info, frames, n) && Designates(info, frames, n, Local)
    ensures Resolution(info, frames, n) == Keep
    ensures (exists p, k :: Registers(info, n, PkgDecl(p, k))) <==>
      (n !in info.colliding && exists p :: Declares(info, p, n)) || exists p, k :: Renamed(info, p, k) && n == Mangle(p, k)
    ensures !HasColons(n) ==>
      ((exists p, k :: Registers(info, n, PkgDecl(p, k))) <==> n !in info.colliding && exists p :: Declares(info, p, n))
    ensures n in info.other && !HasColons(n) ==> forall p, k :: !Registers(info, n, PkgDecl(p, k))
  {
    hide Designates, LegalFrame, HasColons;
    MeaningPreserved(info, frames, n, Local);
    forall p, k | Registers(info, n, PkgDecl(p, k))
      ensures (k == n && n !in info.colliding && n !in info.other) || (Renamed(info, p, k) && n == Mangle(p, k) && HasColons(n))
    {
      MangledHasColons(p, k);
    }
    forall p, k | Renamed(info, p, k) && n == Mangle(p, k) ensures Registers(info, n, PkgDecl(p, k)) && HasColons(n) {
      MangledHasColons(p, k);
    }
    if n !in info.colliding {
      forall p | Declares(info, p, n) ensures Registers(info, n, PkgDecl(p, n)) {}
    }
  }

  /**
   A class-scope `t` beside one package's `t`: the class is not collected, so the
   bare name inside it is the package declaration's key.
   */
  lemma {:induction false} ShadowedIsCaptured()
    ensures var info := Info(map["p" := PkgInfo({"t"}, [], [], [])], {}, {});
      var frames := [Frame(None, {}, map[], ["p"], map[]), Frame(None, {"t"}, map[], [], map[])];
      && Collected(info) && Legal(info, frames, "t") && Designates(info, frames, "t", Local)
      && Resolution(info, frames, "t") == Keep && Registers(info, "t", PkgDecl("p", "t"))
  {
    var info := Info(map["p" := PkgInfo({"t"}, [], [], [])], {}, {});
    assert Declares(info, "p", "t");
  }

  /* ---- binding through wildcard imports ---- */

  /** The first wildcard import that provides `n`. */
  function FirstWild(info: Info, wild: seq<string>, n: string): (q: string)
    requires Owners(info, wild, n) != {}
    ensures q in wild && OwnerSet(info, q, n) != {}
  {
    if OwnerSet(info, wild[0], n) != {} then wild[0] else FirstWild(info, wild[1..], n)
  }

  /** A reference settled by wildcard imports alone. */
  predicate ByWild(info: Info, f: Frame, n: string) {
    && !(f.pkg.Some? && Declares(info, f.pkg.value, n)) && n !in f.types && ImportOf(f, n).None?
    && |Owners(info, f.wild, n)| == 1
  }

  /** `bind_wild`: the name becomes locally visible from the package that provided it. */
  function BindFrame(info: Info, f: Frame, n: string): Frame {
    if ByWild(info, f, n) then f.(bound := f.bound[n := FirstWild(info, f.wild, n)]) else f
  }

  /** The scopes after a reference: only the one that settled it can change. */
  function BindAll(info: Info, frames: seq<Frame>, n: string): (r: seq<Frame>)
    ensures |r| == |frames|
  {
    if frames == [] then []
    else
      var outer, f := frames[..|frames| - 1], frames[|frames| - 1];
      if FrameResult(info, f, n).Some? then outer + [BindFrame(info, f, n)] else BindAll(info, outer, n) + [f]
  }

  lemma FirstWildOwner(info: Info, f: Frame, n: string, o: string)
    requires LegalFrame(info, f, n) && ByWild(info, f, n) && Provides(info, f, n, o)
    ensures Denotes(info, FirstWild(info, f.wild, n), n, o)
  {
    hide Denotes, OwnerIn, Settled;
    CandidatesProvide(info, f, n);
    var q := FirstWild(info, f.wild, n);
    var o' :| o' in OwnerSet(info, q, n);
    OwnerDenotes(info, q, n, o');
    assert Provides(info, f, n, o');
    assert Owners(info, f.wild, n) == {Only(Owners(info, f.wild, n))};
  }

  /** Binding changes what no name means. */
  lemma BindKeepsMeaning(info: Info, f: Frame, n: string, k: string, m: Meaning)
    requires LegalFrame(info, f, k) && Means(info, f, k, m)
    ensures Means(info, BindFrame(info, f, n), k, m) && LegalFrame(info, BindFrame(info, f, n), k)
  {
    hide Denotes, OwnerIn, Settled, FirstWild, Owners;
    var b := BindFrame(info, f, n);
    if ByWild(info, f, n) && k == n {
      CandidatesProvide(info, f, n);
      var o := Only(Owners(info, f.wild, n));
      assert Provides(info, f, n, o);
      FirstWildOwner(info, f, n, o);
      assert Consults(info, f, n, FirstWild(info, f.wild, n));
    } else {
      assert forall q :: Consults(info, b, k, q) == Consults(info, f, k, q);
      assert ImportOf(b, k) == ImportOf(f, k);
      assert forall o :: Provides(info, b, k, o) <==> Provides(info, f, k, o);
    }
  }

  lemma {:induction false} BindAllKeepsMeaning(info: Info, frames: seq<Frame>, n: string, k: string, m: Meaning)
    requires Legal(info, frames, k) && Designates(info, frames, k, m)
    ensures Designates(info, BindAll(info, frames, n), k, m)
  {
    hide Means, LegalFrame, BindFrame, FrameResult;
    if frames != [] {
      var outer, f := frames[..|frames| - 1], frames[|frames| - 1];
      var after := BindAll(info, frames, n);
      var g := after[|after| - 1];
      if Means(info, f, k, Nothing) {
        BindAllKeepsMeaning(info, outer, n, k, m);
        BindKeepsMeaning(info, f, n, k, Nothing);
        assert after[..|after| - 1] == if FrameResult(info, f, n).Some? then outer else BindAll(info, outer, n);
      } else {
        BindKeepsMeaning(info, f, n, k, m);
        if Means(info, g, k, Nothing) { MeansOnce(info, g, k, m, Nothing); }
      }
    }
  }

  /** Once referenced, a wildcard-imported name withstands every later wildcard import. */
  lemma {:induction false} BoundResists(info: Info, f: Frame, n: string, o: string, more: seq<string>)
    requires LegalFrame(info, f, n) && Means(info, f, n, InPackage(o)) && (n in info.colliding || ImportOf(f, n).Some?) && n !in f.types
    ensures var b := BindFrame(info, f, n); Means(info, b.(wild := b.wild + more), n, InPackage(o))
  {
    hide Denotes, OwnerIn, Settled, FirstWild, Owners;
    if !(f.pkg.Some? && Declares(info, f.pkg.value, n)) && ImportOf(f, n).None? {
      assert forall q :: q in f.wild ==> Consults(info, f, n, q);
      CandidatesProvide(info, f, n);
      assert Owners(info, f.wild, n) == {o};
      FirstWildOwner(info, f, n, o);
    }
  }

  /** Scope `i` settles `n`: it gives it a meaning, and no scope inside it does. */
  ghost predicate SettledIn(info: Info, frames: seq<Frame>, n: string, i: nat, m: Meaning) {
    && i < |frames| && m != Nothing && Means(info, frames[i], n, m)
    && forall j :: i < j < |frames| ==> Means(info, frames[j], n, Nothing)
  }

  lemma FrameResultIff(info: Info, f: Frame, n: string, m: Meaning)
    requires Collected(info) && LegalFrame(info, f, n) && n in info.colliding && Means(info, f, n, m)
    ensures FrameResult(info, f, n).None? <==> m == Nothing
  {
    hide Means, FrameResult, Collected, LegalFrame;
    var m' := FrameAnswers(info, f, n);
    MeansOnce(info, f, n, m, m');
  }

  /** Of all scopes only the settling one is bound. */
  lemma {:induction false} BoundWhereSettled(info: Info, frames: seq<Frame>, n: string, i: nat, m: Meaning)
    requires Collected(info) && Legal(info, frames, n) && n in info.colliding && SettledIn(info, frames, n, i, m)
    ensures BindAll(info, frames, n) == frames[i := BindFrame(info, frames[i], n)]
    decreases |frames|
  {
    hide Means, FrameResult, Collected, LegalFrame, BindFrame;
    var outer, f := frames[..|frames| - 1], frames[|frames| - 1];
    assert frames == outer + [f];
    if i == |frames| - 1 {
      FrameResultIff(info, f, n, m);
    } else {
      FrameResultIff(info, f, n, Nothing);
      BoundWhereSettled(info, outer, n, i, m);
    }
  }

  /** Once referenced, a name keeps its meaning through all scopes, whatever the settling scope imports afterwards. */
  lemma {:induction false} ReferenceResists(info: Info, frames: seq<Frame>, n: string, i: nat, o: string, more: seq<string>)
    requires Collected(info) && Legal(info, frames, n) && n in info.colliding && SettledIn(info, frames, n, i, InPackage(o))
    requires n !in frames[i].types
    ensures var after := BindAll(info, frames, n);
      Designates(info, after[i := after[i].(wild := after[i].wild + more)], n, InPackage(o))
  {
    hide Means, FrameResult, Collected, BindFrame;
    BoundWhereSettled(info, frames, n, i, InPackage(o));
    BoundResists(info, frames[i], n, o, more);
    var b := BindFrame(info, frames[i], n);
    var g := b.(wild := b.wild + more);
    var later := frames[i := g];
    assert BindAll(info, frames, n)[i := g] == later;
    InPackageNotNothing(info, g, n, o);
    DesignatedAt(info, later, n, i, InPackage(o));
  }

  lemma InPackageNotNothing(info: Info, f: Frame, n: string, o: string)
    requires Means(info, f, n, InPackage(o))
    ensures !Means(info, f, n, Nothing)
  {
    hide Denotes;
  }

  lemma {:induction false} DesignatedAt(info: Info, frames: seq<Frame>, n: string, i: nat, m: Meaning)
    requires i < |frames| && Means(info, frames[i], n, m) && !Means(info, frames[i], n, Nothing)
    requires forall j :: i < j < |frames| ==> Means(info, frames[j], n, Nothing)
    ensures Designates(info, frames, n, m)
    decreases |frames|
  {
    hide Means;
    if i < |frames| - 1 { DesignatedAt(info, frames[..|frames| - 1], n, i, m); }
  }

  /** An ambiguous reference is reported with all the declarations that some scope's wildcard imports provide. */
  lemma {:induction false} AmbiguousOwners(info: Info, frames: seq<Frame>, n: string)
    requires Collected(info) && Legal(info, frames, n) && Resolution(info, frames, n).Ambiguous?
    ensures exists f :: f in frames && |Resolution(info, frames, n).owners| > 1
                        && forall o :: o in Resolution(info, frames, n).owners <==> Provides(info, f, n, o)
    decreases |frames|
  {
    hide Collected, Provides, Denotes, OwnerIn, Settled, Owners;
    var outer, f := frames[..|frames| - 1], frames[|frames| - 1];
    assert f in frames && forall g :: g in outer ==> g in frames;
    if FrameResult(info, f, n).Some? {
      forall q | q in f.wild ensures Consults(info, f, n, q) {}
      CandidatesProvide(info, f, n);
    } else {
      AmbiguousOwners(info, outer, n);
    }
  }

  /** Unreferenced, it clashes with an import that provides another declaration. */
  lemma {:induction false} UnboundClashes(info: Info, f: Frame, n: string, o: string, q: string, o': string)
    requires Means(info, f, n, InPackage(o)) && ImportOf(f, n).None? && !(f.pkg.Some? && Declares(info, f.pkg.value, n))
    requires Denotes(info, q, n, o') && o' != o
    ensures Means(info, f.(wild := f.wild + [q]), n, Clashing)
  {
    hide Denotes;
    var g := f.(wild := f.wild + [q]);
    var r :| r in f.wild && Denotes(info, r, n, o);
    assert r in g.wild && q in g.wild;
    assert Provides(info, g, n, o) && Provides(info, g, n, o');
  }

  /* ---- the rewriting walk ---- */

  class Rewriter {
    const info: Info
    var frames: seq<Frame>
    var errors: seq<(string, set<string>)>

    constructor (info: Info, unit_: Frame)
      ensures this.info == info && frames == [unit_] && errors == []
    {
      this.info, frames, errors := info, [unit_], [];
    }

    method Enter(f: Frame)
      modifies this`frames
      ensures frames == old(frames) + [f]
    {
      frames := frames + [f];
    }

    method Leave()
      requires frames != []
      modifies this`frames
      ensures frames == old(frames)[..|old(frames)| - 1]
    {
      frames := frames[..|frames| - 1];
    }

    /** `add_imports` on the innermost scope; a later import of a name replaces an earlier one. */
    method AddImport(q: string, item: Option<string>)
      requires frames != []
      modifies this`frames
      ensures |frames| == |old(frames)| && frames[..|frames| - 1] == old(frames)[..|frames| - 1]
      ensures var f := old(frames)[|frames| - 1];
        frames[|frames| - 1] == match item
                                case Some(n) => f.(explicit := f.explicit[n := q])
                                case None => f.(wild := f.wild + [q])
    {
      var top := |frames| - 1;
      var f := frames[top];
      frames := frames[top := match item
                              case Some(n) => f.(explicit := f.explicit[n := q])
                              case None => f.(wild := f.wild + [q])];
    }

    /** `resolve`: search the scopes innermost first, binding what a wildcard import settles. */
    method Resolve(n: string) returns (r: Res)
      modifies this`frames
      ensures r == Resolution(info, old(frames), n)
      ensures frames == if n in info.colliding then BindAll(info, old(frames), n) else old(frames)
    {
      hide FrameResult, BindFrame;
      if n !in info.colliding { return Keep; }
      var was := frames;
      assert was[..|was|] == was;
      for i := |was| downto 0
        invariant frames == was && Search(info, was, n) == Search(info, was[..i], n)
        invariant BindAll(info, was, n) == BindAll(info, was[..i], n) + was[i..]
      {
        assert was[..i + 1][..i] == was[..i];
        var here := FrameResult(info, was[i], n);
        if here.Some? {
          frames := was[i := BindFrame(info, was[i], n)];
          assert frames == was[..i] + [BindFrame(info, was[i], n)] + was[i + 1..];
          return here.value;
        }
        assert [was[i]] + was[i + 1..] == was[i..];
      }
      r := Keep;
    }

    /** The name written back at a type reference; an ambiguous one is an error. */
    method Rewrite(n: string) returns (name: string)
      modifies this
      ensures var r := Resolution(info, old(frames), n);
        if r.Ambiguous? then name == n && errors == old(errors) + [(n, r.owners)]
        else name == Rewritten(r, n) && errors == old(errors)
      ensures frames == if n in info.colliding then BindAll(info, old(frames), n) else old(frames)
    {
      var r := Resolve(n);
      if r.Ambiguous? {
        errors := errors + [(n, r.owners)];
        return n;
      }
      name := Rewritten(r, n);
    }
  }
}
