/** Two worklists and their least fixpoints. */
module Worklists {
  import opened Names

  /* ---- the closure of used subroutines ---- */

  type Deps = map<string, set<string>>

  function DepsOf(deps: Deps, name: string): set<string> {
    if name in deps then deps[name] else {}
  }

  ghost predicate Closed(deps: Deps, s: set<string>) {
    forall n, d :: n in s && d in DepsOf(deps, n) ==> d in s
  }

  /** `path` leads from a name in `roots` along dependencies. */
  ghost predicate IsPath(deps: Deps, roots: set<string>, path: seq<string>) {
    |path| > 0 && path[0] in roots && forall i :: 0 <= i < |path| - 1 ==> path[i + 1] in DepsOf(deps, path[i])
  }

  ghost predicate Reachable(deps: Deps, roots: set<string>, name: string) {
    exists path :: IsPath(deps, roots, path) && path[|path| - 1] == name
  }

  /** The names reached so far: all reachable, and closed but for what is still pending. */
  ghost predicate Expanding(deps: Deps, roots: set<string>, found: set<string>, pending: seq<string>) {
    && roots <= found
    && (forall n :: n in pending ==> n in found)
    && (forall n, d :: n in found && n !in pending && d in DepsOf(deps, n) ==> d in found)
    && (forall n :: n in found ==> Reachable(deps, roots, n))
  }

  lemma PathExtends(deps: Deps, roots: set<string>, n: string, d: string)
    requires Reachable(deps, roots, n) && d in DepsOf(deps, n)
    ensures Reachable(deps, roots, d)
  {
    var path :| IsPath(deps, roots, path) && path[|path| - 1] == n;
    var longer := path + [d];
    assert IsPath(deps, roots, longer) && longer[|longer| - 1] == d;
  }

  /** A name is reachable when it is a root or a dependency of one that is. */
  lemma {:induction false} ReachableIff(deps: Deps, roots: set<string>, d: string)
    ensures Reachable(deps, roots, d) <==> d in roots || exists n :: Reachable(deps, roots, n) && n in deps && d in deps[n]
  {
    if d in roots { RootReachable(deps, roots, d); }
    forall n | Reachable(deps, roots, n) && n in deps && d in deps[n] ensures Reachable(deps, roots, d) { PathExtends(deps, roots, n, d); }
    if path :| IsPath(deps, roots, path) && path[|path| - 1] == d {
      if |path| > 1 {
        var p := path[..|path| - 1];
        assert IsPath(deps, roots, p) && p[|p| - 1] == path[|path| - 2];
        assert path[|path| - 2 + 1] in DepsOf(deps, path[|path| - 2]);
        assert Reachable(deps, roots, path[|path| - 2]);
      }
    }
  }

  lemma RootReachable(deps: Deps, roots: set<string>, n: string)
    requires n in roots
    ensures Reachable(deps, roots, n)
  {
    assert IsPath(deps, roots, [n]);
  }

  /** A closed superset of the roots contains every path. */
  lemma {:induction false} ClosedContains(deps: Deps, roots: set<string>, s: set<string>, path: seq<string>)
    requires roots <= s && Closed(deps, s) && IsPath(deps, roots, path)
    ensures path[|path| - 1] in s
  {
    if |path| > 1 {
      var p := path[..|path| - 1];
      assert IsPath(deps, roots, p);
      ClosedContains(deps, roots, s, p);
    }
  }

  /** Every name a dependency map speaks of. */
  function Universe(deps: Deps): set<string> {
    deps.Keys + set n, d | n in deps.Keys && d in deps[n] :: d
  }

  /** `Usage::close`: exactly the reachable names, cycles included. */
  method Close(deps: Deps, roots: set<string>) returns (found: set<string>)
    ensures forall n :: n in found <==> Reachable(deps, roots, n)
    ensures roots <= found && Closed(deps, found)
    ensures forall s :: roots <= s && Closed(deps, s) ==> found <= s
  {
    hide Reachable, Universe;
    found := roots;
    var pending := [];
    var rest := roots;
    while rest != {}
      invariant rest <= roots && forall n :: n in pending <==> n in roots - rest
      decreases rest
    {
      var n :| n in rest;
      pending, rest := pending + [n], rest - {n};
    }
    forall n | n in roots ensures Reachable(deps, roots, n) { RootReachable(deps, roots, n); }
    ghost var all := roots + Universe(deps);
    while pending != []
      invariant Expanding(deps, roots, found, pending) && found <= all
      decreases |all - found|, |pending|
    {
      var name := pending[|pending| - 1];
      var left := pending[..|pending| - 1];
      assert pending == left + [name];
      found, pending := Visit(deps, roots, found, left, name, all);
    }
    Least(deps, roots, found);
  }

  /** Insert the dependencies of one name, pushing those that are new. */
  method Visit(deps: Deps, ghost roots: set<string>, found: set<string>, left: seq<string>, name: string, ghost all: set<string>)
    returns (found': set<string>, pending: seq<string>)
    requires Expanding(deps, roots, found, left + [name]) && found <= all && Universe(deps) <= all
    ensures Expanding(deps, roots, found', pending) && found' <= all
    ensures |all - found'| < |all - found| || (found' == found && pending == left)
  {
    hide Reachable;
    found', pending := found, left;
    var rest := DepsOf(deps, name);
    assert rest <= Universe(deps);
    while rest != {}
      invariant rest <= DepsOf(deps, name) && found <= found' <= all
      invariant forall d :: d in DepsOf(deps, name) - rest ==> d in found'
      invariant forall n :: n in left ==> n in pending
      invariant forall n :: n in pending ==> n in found'
      invariant forall n :: n in found' - found ==> n in pending
      invariant forall n :: n in found' ==> Reachable(deps, roots, n)
      invariant found' == found ==> pending == left
      decreases rest
    {
      var dep :| dep in rest;
      rest := rest - {dep};
      if dep !in found' {
        PathExtends(deps, roots, name, dep);
        found', pending := found' + {dep}, pending + [dep];
      }
    }
    if found' != found {
      assert !(found' <= found);
      var x :| x in found' && x !in found;
      Smaller(all - found', all - found, x);
    }
  }

  lemma Smaller(a: set<string>, b: set<string>, x: string)
    requires a <= b && x in b && x !in a
    ensures |a| < |b|
  {
    Subset(a, b - {x});
  }

  lemma {:induction false} Subset(a: set<string>, b: set<string>)
    requires a <= b
    ensures |a| <= |b|
  {
    if a != {} {
      var x :| x in a;
      Subset(a - {x}, b - {x});
    }
  }

  lemma Least(deps: Deps, roots: set<string>, found: set<string>)
    requires Expanding(deps, roots, found, [])
    ensures forall n :: n in found <==> Reachable(deps, roots, n)
    ensures Closed(deps, found)
    ensures forall s :: roots <= s && Closed(deps, s) ==> found <= s
  {
    forall s, n | roots <= s && Closed(deps, s) && Reachable(deps, roots, n) ensures n in s {
      var path :| IsPath(deps, roots, path) && path[|path| - 1] == n;
      ClosedContains(deps, roots, s, path);
    }
  }

  /* ---- adoption of library definitions ---- */

  /** A definition, seen through its text and the names it instantiates. */
  datatype Definition = Definition(text: string, instances: set<string>)

  type Defs = map<string, Definition>

  /** What the library files hold, in order; an unreadable file holds nothing. */
  type Files = map<string, seq<(string, Definition)>>

  function Content(files: Files, path: string): seq<(string, Definition)> {
    if path in files then files[path] else []
  }

  /** The definition of a name in a file: the first. */
  function FirstIn(content: seq<(string, Definition)>, name: string): Option<Definition> {
    if content == [] then None else
      var before, (n, def) := FirstIn(content[..|content| - 1], name), content[|content| - 1];
      if before.Some? then before else if n == name then Some(def) else None
  }

  /** The library offers what it has indexed, and for other names what a file not yet indexed defines. */
  ghost predicate Offers(files: Files, lib: Defs, pending: seq<string>, name: string, def: Definition) {
    if name in lib then lib[name] == def else exists p :: p in pending && FirstIn(Content(files, p), name) == Some(def)
  }

  ghost predicate Supplied(files: Files, lib: Defs, pending: seq<string>, name: string) {
    exists def :: Offers(files, lib, pending, name, def)
  }

  /** A name is supplied when the library has it or a file not yet indexed holds a definition of it. */
  lemma {:induction false} SuppliedIff(files: Files, lib: Defs, pending: seq<string>, name: string)
    ensures Supplied(files, lib, pending, name) <==>
      name in lib || exists p, def :: p in pending && p in files && (name, def) in files[p]
  {
    if name in lib { assert Offers(files, lib, pending, name, lib[name]); }
    forall p, def | p in pending && p in files && (name, def) in files[p] ensures Supplied(files, lib, pending, name) {
      FirstIfAny(files[p], name, def);
      if name !in lib { assert Offers(files, lib, pending, name, FirstIn(files[p], name).value); }
    }
    if def :| name !in lib && Offers(files, lib, pending, name, def) {
      var p :| p in pending && FirstIn(Content(files, p), name) == Some(def);
      FirstHeld(Content(files, p), name);
    }
  }

  lemma {:induction false} FirstIfAny(content: seq<(string, Definition)>, name: string, def: Definition)
    requires (name, def) in content
    ensures FirstIn(content, name).Some?
  {
    var init, last := content[..|content| - 1], content[|content| - 1];
    assert content == init + [last];
    if last != (name, def) { FirstIfAny(init, name, def); }
  }

  /** The first definition is held, and none of the name stands before it. */
  lemma {:induction false} FirstHeld(content: seq<(string, Definition)>, name: string)
    requires FirstIn(content, name).Some?
    ensures (name, FirstIn(content, name).value) in content
    ensures exists i :: 0 <= i < |content| && content[i] == (name, FirstIn(content, name).value) && forall j :: 0 <= j < i ==> content[j].0 != name
  {
    var init, last := content[..|content| - 1], content[|content| - 1];
    assert content == init + [last];
    if FirstIn(init, name).Some? {
      FirstHeld(init, name);
      var i :| 0 <= i < |init| && init[i] == (name, FirstIn(init, name).value) && forall j :: 0 <= j < i ==> init[j].0 != name;
      assert content[i] == init[i] && forall j :: 0 <= j < i ==> content[j] == init[j];
    } else {
      forall j | 0 <= j < |init| ensures init[j].0 != name {
        if init[j].0 == name {
          assert (name, init[j].1) == init[j];
          FirstIfAny(init, name, init[j].1);
          assert false;
        }
      }
      assert content[|init|] == last;
      assert forall j :: 0 <= j < |init| ==> content[j] == init[j];
    }
  }

  /** The growing index offers nothing new, keeps what it has, and loses no supplied name. */
  ghost predicate Indexes(files: Files, lib0: Defs, pending0: seq<string>, lib: Defs, pending: seq<string>) {
    && lib0.Keys <= lib.Keys
    && (forall n :: n in lib ==> Offers(files, lib0, pending0, n, lib[n]))
    && (forall p :: p in pending ==> p in pending0)
    && (forall n :: Supplied(files, lib0, pending0, n) ==> Supplied(files, lib, pending, n))
  }

  /** A file's definitions added to those indexed, which stay. */
  ghost predicate Overlaid(lib: Defs, content: seq<(string, Definition)>, lib': Defs) {
    && lib.Keys <= lib'.Keys && (forall n :: n in lib ==> lib'[n] == lib[n])
    && (forall n :: n in lib' && n !in lib ==> FirstIn(content, n) == Some(lib'[n]))
    && (forall n :: FirstIn(content, n).Some? ==> n in lib')
  }

  /** `index_library_file`: the first definition of a name wins. */
  method IndexFile(files: Files, path: string, lib: Defs) returns (lib': Defs)
    ensures Overlaid(lib, Content(files, path), lib')
  {
    lib' := lib;
    var content := Content(files, path);
    for i := 0 to |content|
      invariant Overlaid(lib, content[..i], lib')
    {
      assert content[..i + 1][..i] == content[..i];
      var (name, def) := content[i];
      if name !in lib' { lib' := lib'[name := def]; }
    }
    assert content[..|content|] == content;
  }

  /** The first of the paths whose file defines `name` is `paths[k]`, and `def` is what it defines. */
  ghost predicate FirstFile(files: Files, paths: seq<string>, k: nat, name: string, def: Definition) {
    && k < |paths| && FirstIn(Content(files, paths[k]), name) == Some(def)
    && forall j :: 0 <= j < k ==> FirstIn(Content(files, paths[j]), name).None?
  }

  /** Of the first `i` paths, each name new to the library has the definition of the first file that has one. */
  ghost predicate IndexedUpTo(files: Files, paths: seq<string>, lib: Defs, lib': Defs, i: nat) {
    && (forall n :: n in lib ==> n in lib' && lib'[n] == lib[n])
    && forall n, k: nat, def :: n !in lib && FirstFile(files, paths, k, n, def) ==>
         if k < i then n in lib' && lib'[n] == def else n !in lib'
  }

  lemma OneMoreIndexed(files: Files, paths: seq<string>, lib: Defs, before: Defs, lib': Defs, i: nat)
    requires i < |paths| && IndexedUpTo(files, paths, lib, before, i) && Overlaid(before, Content(files, paths[i]), lib')
    ensures IndexedUpTo(files, paths, lib, lib', i + 1)
  {
    hide FirstIn, Content;
  }

  lemma NoneIndexed(files: Files, paths: seq<string>, lib: Defs)
    ensures IndexedUpTo(files, paths, lib, lib, 0)
  {
    hide FirstFile;
  }

  lemma AllIndexed(files: Files, paths: seq<string>, lib: Defs, lib': Defs)
    requires IndexedUpTo(files, paths, lib, lib', |paths|)
    ensures forall n :: n in lib ==> n in lib' && lib'[n] == lib[n]
    ensures forall n, k: nat, def :: n !in lib && FirstFile(files, paths, k, n, def) ==> n in lib' && lib'[n] == def
  {
    hide FirstIn;
  }

  /** Index several files taken out of `pending`. */
  method IndexFiles(files: Files, paths: seq<string>, ghost lib0: Defs, ghost pending0: seq<string>, lib: Defs, left: seq<string>)
    returns (lib': Defs)
    requires Indexes(files, lib0, pending0, lib, left + paths)
    ensures Indexes(files, lib0, pending0, lib', left) && lib.Keys <= lib'.Keys && forall n :: n in lib ==> lib'[n] == lib[n]
    ensures forall n, k: nat, def :: n !in lib && FirstFile(files, paths, k, n, def) ==> n in lib' && lib'[n] == def
  {
    hide IndexedUpTo, Indexes, FirstFile, FirstIn;
    lib' := lib;
    NoneIndexed(files, paths, lib);
    assert paths[0..] == paths;
    for i := 0 to |paths|
      invariant Indexes(files, lib0, pending0, lib', left + paths[i..]) && lib.Keys <= lib'.Keys
      invariant IndexedUpTo(files, paths, lib, lib', i)
    {
      ghost var before := lib';
      lib' := IndexFile(files, paths[i], lib');
      OneMoreIndexed(files, paths, lib, before, lib', i);
      OneIndexed(files, lib0, pending0, before, lib', left + paths[i..], left + paths[i + 1..], paths[i]);
    }
    assert left + paths[|paths|..] == left;
    AllIndexed(files, paths, lib, lib');
  }

  lemma OneIndexed(files: Files, lib0: Defs, pending0: seq<string>, lib: Defs, lib': Defs, pending: seq<string>, pending': seq<string>, path: string)
    requires Indexes(files, lib0, pending0, lib, pending) && path in pending
    requires forall p :: p in pending' ==> p in pending
    requires forall p :: p in pending ==> p in pending' || p == path
    requires Overlaid(lib, Content(files, path), lib')
    ensures Indexes(files, lib0, pending0, lib', pending')
  {
    hide FirstIn;
    forall n | n in lib' ensures Offers(files, lib0, pending0, n, lib'[n]) {
      if n !in lib { assert path in pending0; }
    }
    forall n | Supplied(files, lib0, pending0, n) ensures Supplied(files, lib', pending', n) {
      var def :| Offers(files, lib, pending, n, def);
      if n in lib' {
        assert Offers(files, lib', pending', n, lib'[n]);
      } else {
        var p :| p in pending && FirstIn(Content(files, p), n) == Some(def);
        assert Offers(files, lib', pending', n, def);
      }
    }
  }

  function RemoveFirst(s: seq<string>, x: string): (r: seq<string>)
    ensures x in s ==> (forall y :: y in s <==> y in r || y == x) && forall y :: y in r ==> y in s
  {
    if s == [] then [] else if s[0] == x then s[1..] else [s[0]] + RemoveFirst(s[1..], x)
  }

  /** Take the candidate files of a name out of `pending`. */
  method TakeCandidates(candidates: seq<string>, pending: seq<string>) returns (hit: seq<string>, left: seq<string>)
    ensures forall p :: p in pending <==> p in hit || p in left
    ensures Taken(candidates, pending, hit)
  {
    hit, left := [], pending;
    for i := 0 to |candidates|
      invariant forall p :: p in pending <==> p in hit || p in left
      invariant Taken(candidates[..i], pending, hit)
    {
      assert candidates[..i + 1] == candidates[..i] + [candidates[i]];
      if candidates[i] in left {
        TakeOne(candidates[..i], pending, hit, candidates[i]);
        hit, left := hit + [candidates[i]], RemoveFirst(left, candidates[i]);
      } else {
        SkipOne(candidates[..i], pending, hit, candidates[i]);
      }
    }
    assert candidates[..|candidates|] == candidates;
  }

  /** The files taken are the pending candidates, in the candidates' order. */
  ghost predicate Taken(candidates: seq<string>, pending: seq<string>, hit: seq<string>) {
    && (forall p :: p in hit ==> p in candidates && p in pending)
    && forall k: nat :: k < |candidates| && candidates[k] in pending ==> Placed(candidates, hit, k)
  }

  /** Candidate `k` was taken as number `i`, and only earlier candidates before it. */
  ghost predicate PlacedAt(candidates: seq<string>, hit: seq<string>, k: nat, i: nat)
    requires k < |candidates|
  {
    i < |hit| && hit[i] == candidates[k] && forall j: nat :: j < i ==> hit[j] in candidates[..k]
  }

  ghost predicate Placed(candidates: seq<string>, hit: seq<string>, k: nat)
    requires k < |candidates|
  {
    exists i: nat :: PlacedAt(candidates, hit, k, i)
  }

  lemma StillPlaced(candidates: seq<string>, hit: seq<string>, k: nat, c: string, more: seq<string>)
    requires k < |candidates| && Placed(candidates, hit, k)
    ensures Placed(candidates + [c], hit + more, k)
  {
    var i: nat :| PlacedAt(candidates, hit, k, i);
    var all, taken := candidates + [c], hit + more;
    assert all[..k] == candidates[..k];
    assert taken[i] == all[k] && forall j: nat :: j < i ==> taken[j] == hit[j];
    assert PlacedAt(all, taken, k, i);
  }

  lemma TakeOne(candidates: seq<string>, pending: seq<string>, hit: seq<string>, c: string)
    requires Taken(candidates, pending, hit) && c in pending
    ensures Taken(candidates + [c], pending, hit + [c])
  {
    hide Placed;
    var all, taken, n := candidates + [c], hit + [c], |candidates|;
    forall k: nat | k < |all| && all[k] in pending ensures Placed(all, taken, k) {
      if k < n { StillPlaced(candidates, hit, k, c, [c]); } else { LastPlaced(candidates, hit, c); }
    }
  }

  lemma LastPlaced(candidates: seq<string>, hit: seq<string>, c: string)
    requires forall p :: p in hit ==> p in candidates
    ensures Placed(candidates + [c], hit + [c], |candidates|)
  {
    var all, taken := candidates + [c], hit + [c];
    assert all[..|candidates|] == candidates && taken[|hit|] == all[|candidates|];
    forall j: nat | j < |hit| ensures taken[j] in all[..|candidates|] { assert taken[j] == hit[j] && hit[j] in hit; }
    assert PlacedAt(all, taken, |candidates|, |hit|);
  }

  lemma SkipOne(candidates: seq<string>, pending: seq<string>, hit: seq<string>, c: string)
    requires Taken(candidates, pending, hit) && (c in pending ==> c in hit)
    ensures Taken(candidates + [c], pending, hit)
  {
    hide Placed;
    var all, n := candidates + [c], |candidates|;
    assert hit + [] == hit;
    forall k: nat | k < |all| && all[k] in pending ensures Placed(all, hit, k) {
      if k < n {
        StillPlaced(candidates, hit, k, c, []);
      } else {
        var k': nat :| k' < n && candidates[k'] == c;
        StillPlaced(candidates, hit, k', c, []);
        SamePlace(all, hit, k', n);
      }
    }
  }

  lemma SamePlace(candidates: seq<string>, hit: seq<string>, k: nat, n: nat)
    requires k < n < |candidates| && candidates[k] == candidates[n] && Placed(candidates, hit, k)
    ensures Placed(candidates, hit, n)
  {
    var i: nat :| PlacedAt(candidates, hit, k, i);
    assert forall p :: p in candidates[..k] ==> p in candidates[..n];
    assert PlacedAt(candidates, hit, n, i);
  }

  /** Candidate `k` is still pending and is the first pending one that defines `name`. */
  ghost predicate FirstCandidate(files: Files, candidates: seq<string>, pending: seq<string>, k: nat, name: string, def: Definition) {
    && k < |candidates| && candidates[k] in pending && FirstIn(Content(files, candidates[k]), name) == Some(def)
    && forall j :: 0 <= j < k && candidates[j] in pending ==> FirstIn(Content(files, candidates[j]), name).None?
  }

  lemma FirstIsTaken(files: Files, candidates: seq<string>, pending: seq<string>, hit: seq<string>, k: nat, name: string, def: Definition) returns (i: nat)
    requires Taken(candidates, pending, hit) && FirstCandidate(files, candidates, pending, k, name, def)
    ensures FirstFile(files, hit, i, name, def)
  {
    hide FirstIn, Content;
    assert Placed(candidates, hit, k);
    i :| PlacedAt(candidates, hit, k, i);
    forall j | 0 <= j < i ensures FirstIn(Content(files, hit[j]), name).None? {
      var earlier := candidates[..k];
      assert hit[j] in earlier;
      var j' :| 0 <= j' < |earlier| && earlier[j'] == hit[j];
      assert candidates[j'] == hit[j];
    }
  }

  lemma SamePending(files: Files, lib0: Defs, pending0: seq<string>, lib: Defs, pending: seq<string>, other: seq<string>)
    requires Indexes(files, lib0, pending0, lib, pending) && forall p :: p in pending <==> p in other
    ensures Indexes(files, lib0, pending0, lib, other)
  {
    forall n | Supplied(files, lib0, pending0, n) ensures Supplied(files, lib, other, n) {
      var def :| Offers(files, lib, pending, n, def);
      assert Offers(files, lib, other, n, def);
    }
  }

  /** Make `name` available if any file defines it: its own candidates first, then everything once. */
  method Resolve(files: Files, candidates: map<string, seq<string>>, name: string, ghost lib0: Defs, ghost pending0: seq<string>,
                 lib: Defs, pending: seq<string>, fullScanDone: bool)
    returns (lib': Defs, pending': seq<string>, done: bool)
    requires Indexes(files, lib0, pending0, lib, pending) && (fullScanDone ==> pending == [])
    ensures Indexes(files, lib0, pending0, lib', pending') && (done ==> pending' == [])
    ensures name in lib' <==> Supplied(files, lib0, pending0, name)
    ensures name in lib ==> lib'[name] == lib[name]
    ensures forall k: nat, def :: name !in lib && name in candidates && FirstCandidate(files, candidates[name], pending, k, name, def) ==>
      name in lib' && lib'[name] == def
  {
    lib', pending', done := lib, pending, fullScanDone;
    if name !in lib && pending != [] {
      var hit, left := TakeCandidates(if name in candidates then candidates[name] else [], pending);
      forall k: nat, def | name in candidates && FirstCandidate(files, candidates[name], pending, k, name, def)
        ensures exists i: nat :: FirstFile(files, hit, i, name, def)
      {
        var i := FirstIsTaken(files, candidates[name], pending, hit, k, name, def);
      }
      SamePending(files, lib0, pending0, lib, pending, left + hit);
      lib' := IndexFiles(files, hit, lib0, pending0, lib, left);
      pending' := left;
      if name !in lib' && !done {
        done := true;
        SamePending(files, lib0, pending0, lib', pending', [] + pending');
        lib' := IndexFiles(files, pending', lib0, pending0, lib', []);
        pending' := [];
      }
    }
    if name in lib' {
      assert Offers(files, lib0, pending0, name, lib'[name]);
    } else {
      NothingLeft(files, lib', name);
    }
  }

  lemma NothingLeft(files: Files, lib: Defs, name: string)
    requires name !in lib
    ensures !Supplied(files, lib, [], name)
  {}

  /** The definitions of a finished adoption, whatever the order of the work. */
  ghost predicate Adoption(files: Files, lib0: Defs, pending0: seq<string>, primary: Defs, roots: set<string>,
                           defs: Defs, unresolved: set<string>) {
    && (forall n :: n in primary ==> n in defs && defs[n] == primary[n])
    && (forall n :: n in defs && n !in primary ==> Offers(files, lib0, pending0, n, defs[n]))
    && (forall n :: n in unresolved ==> n !in primary && !Supplied(files, lib0, pending0, n))
    && roots <= defs.Keys + unresolved
    && (forall n :: n in defs ==> defs[n].instances <= defs.Keys + unresolved)
    && Necessary(primary, roots, defs, unresolved)
  }

  /** Closed under instantiation, given that the primary definitions are there. */
  ghost predicate Demands(primary: Defs, roots: set<string>, defs: Defs, c: set<string>) {
    && roots <= c
    && (forall n :: n in primary ==> primary[n].instances <= c)
    && (forall n :: n in c && n in defs ==> defs[n].instances <= c)
  }

  /** Nothing is adopted or reported that the design does not demand. */
  ghost predicate Necessary(primary: Defs, roots: set<string>, defs: Defs, unresolved: set<string>) {
    forall c: set<string> :: Demands(primary, roots, defs, c) ==> (defs.Keys - primary.Keys) + unresolved <= c
  }

  function AllInstances(defs: Defs): set<string> {
    set n, i | n in defs.Keys && i in defs[n].instances :: i
  }

  /** The state of the loop: what is not yet settled is still in `work`, and all of it is demanded. */
  ghost predicate Adopting(files: Files, lib0: Defs, pending0: seq<string>, primary: Defs, roots: set<string>,
                           defs: Defs, unresolved: set<string>, work: seq<string>) {
    && (forall n :: n in primary ==> n in defs && defs[n] == primary[n])
    && (forall n :: n in defs && n !in primary ==> Offers(files, lib0, pending0, n, defs[n]))
    && (forall n :: n in unresolved ==> n !in primary && !Supplied(files, lib0, pending0, n))
    && (forall n :: n in roots ==> n in defs || n in unresolved || n in work)
    && (forall m, n :: m in defs && n in defs[m].instances ==> n in defs || n in unresolved || n in work)
    && (forall c: set<string>, n :: Demands(primary, roots, defs, c) && (n in work || n in unresolved || (n in defs && n !in primary)) ==> n in c)
  }

  method ToList(s: set<string>) returns (l: seq<string>)
    ensures forall n :: n in l <==> n in s
  {
    l := [];
    var rest := s;
    while rest != {}
      invariant rest <= s && forall n :: n in l <==> n in s - rest
      decreases rest
    {
      var n :| n in rest;
      l, rest := l + [n], rest - {n};
    }
  }

  /** The adoption loop of `resolve_library_modules`. */
  method Adopt(files: Files, candidates: map<string, seq<string>>, lib0: Defs, pending0: seq<string>, primary: Defs, roots: set<string>)
    returns (defs: Defs, unresolved: set<string>)
    ensures Adoption(files, lib0, pending0, primary, roots, defs, unresolved)
  {
    hide Offers, Supplied, Demands, Indexes, Adopting, Adoption, SuppliedNames;
    var lib, pending, done := lib0, pending0, false;
    StartIndex(files, lib0, pending0);
    defs, unresolved := primary, {};
    var work := ToList(roots + AllInstances(primary));
    StartAdopting(files, lib0, pending0, primary, roots, work);
    ghost var all := SuppliedNames(files, lib0, pending0);
    while work != []
      invariant Indexes(files, lib0, pending0, lib, pending) && (done ==> pending == [])
      invariant Adopting(files, lib0, pending0, primary, roots, defs, unresolved, work)
      decreases |all - defs.Keys|, |work|
    {
      var name := work[|work| - 1];
      ghost var was := work;
      work := work[..|work| - 1];
      assert was == work + [name];
      if name in defs {
        Settled(files, lib0, pending0, primary, roots, defs, unresolved, work, name);
        continue;
      }
      lib, pending, done := Resolve(files, candidates, name, lib0, pending0, lib, pending, done);
      if name in lib {
        Offered(files, lib0, pending0, lib, pending, name);
        Smaller(all - defs[name := lib[name]].Keys, all - defs.Keys, name);
        defs, work := AdoptOne(files, lib0, pending0, primary, roots, defs, unresolved, work, name, lib[name]);
      } else {
        Unresolved(files, lib0, pending0, primary, roots, defs, unresolved, work, name);
        unresolved := unresolved + {name};
      }
    }
    Finished(files, lib0, pending0, primary, roots, defs, unresolved);
  }

  method AdoptOne(files: Files, ghost lib0: Defs, ghost pending0: seq<string>, ghost primary: Defs, ghost roots: set<string>,
                  defs: Defs, ghost unresolved: set<string>, work: seq<string>, name: string, def: Definition)
    returns (defs': Defs, work': seq<string>)
    requires Adopting(files, lib0, pending0, primary, roots, defs, unresolved, work + [name]) && name !in defs
    requires Offers(files, lib0, pending0, name, def)
    ensures Adopting(files, lib0, pending0, primary, roots, defs', unresolved, work') && defs' == defs[name := def]
  {
    hide Offers, Supplied, Demands, Adopting;
    var more := ToList(def.instances);
    Adopted(files, lib0, pending0, primary, roots, defs, unresolved, work, name, def, more);
    defs' := defs[name := def];
    work' := Push(work, more, defs');
    Pushed(files, lib0, pending0, primary, roots, defs', unresolved, work + more, work');
  }

  /** Push the instances that have no definition yet. */
  method Push(work: seq<string>, more: seq<string>, defs: Defs) returns (work': seq<string>)
    ensures forall n :: n in work' <==> n in work || (n in more && n !in defs)
  {
    work' := work;
    for i := 0 to |more|
      invariant forall n :: n in work' <==> n in work || (n in more[..i] && n !in defs)
    {
      assert more[..i + 1] == more[..i] + [more[i]];
      if more[i] !in defs { work' := work' + [more[i]]; }
    }
    assert more[..|more|] == more;
  }

  function NamesIn(content: seq<(string, Definition)>): set<string> {
    set e | e in content :: e.0
  }

  /** Every name that some file or the library defines. */
  ghost function SuppliedNames(files: Files, lib: Defs, pending: seq<string>): (s: set<string>)
    ensures lib.Keys <= s && forall n :: Supplied(files, lib, pending, n) ==> n in s
  {
    SupplierSplit(files, lib, pending);
    if pending == [] then lib.Keys
    else SuppliedNames(files, lib, pending[1..]) + NamesIn(Content(files, pending[0]))
  }

  lemma {:induction false} FirstNamed(content: seq<(string, Definition)>, name: string)
    requires FirstIn(content, name).Some?
    ensures name in NamesIn(content)
  {
    var init, last := content[..|content| - 1], content[|content| - 1];
    assert last in content && forall e :: e in init ==> e in content;
    if FirstIn(init, name).Some? { FirstNamed(init, name); }
  }

  lemma SupplierSplit(files: Files, lib: Defs, pending: seq<string>)
    ensures forall n :: Supplied(files, lib, pending, n) ==>
              n in lib || (pending != [] &&
                (Supplied(files, lib, pending[1..], n) || n in NamesIn(Content(files, pending[0]))))
  {
    forall n | Supplied(files, lib, pending, n) && n !in lib
      ensures pending != []
      ensures Supplied(files, lib, pending[1..], n) || n in NamesIn(Content(files, pending[0]))
    {
      var def :| Offers(files, lib, pending, n, def);
      var p :| p in pending && FirstIn(Content(files, p), n) == Some(def);
      if p == pending[0] {
        FirstNamed(Content(files, p), n);
      } else {
        assert Offers(files, lib, pending[1..], n, def);
      }
    }
  }

  lemma StartIndex(files: Files, lib0: Defs, pending0: seq<string>)
    ensures Indexes(files, lib0, pending0, lib0, pending0)
  {}

  lemma StartAdopting(files: Files, lib0: Defs, pending0: seq<string>, primary: Defs, roots: set<string>, work: seq<string>)
    requires forall n :: n in work <==> n in roots + AllInstances(primary)
    ensures Adopting(files, lib0, pending0, primary, roots, primary, {}, work)
  {}

  lemma Settled(files: Files, lib0: Defs, pending0: seq<string>, primary: Defs, roots: set<string>,
                defs: Defs, unresolved: set<string>, work: seq<string>, name: string)
    requires Adopting(files, lib0, pending0, primary, roots, defs, unresolved, work + [name]) && name in defs
    ensures Adopting(files, lib0, pending0, primary, roots, defs, unresolved, work)
  {
    hide Offers, Supplied, Demands;
  }

  lemma Offered(files: Files, lib0: Defs, pending0: seq<string>, lib: Defs, pending: seq<string>, name: string)
    requires Indexes(files, lib0, pending0, lib, pending) && name in lib
    ensures Offers(files, lib0, pending0, name, lib[name]) && Supplied(files, lib0, pending0, name)
  {}

  lemma Adopted(files: Files, lib0: Defs, pending0: seq<string>, primary: Defs, roots: set<string>,
                defs: Defs, unresolved: set<string>, work: seq<string>, name: string, def: Definition, more: seq<string>)
    requires Adopting(files, lib0, pending0, primary, roots, defs, unresolved, work + [name]) && name !in defs
    requires Offers(files, lib0, pending0, name, def) && forall n :: n in more <==> n in def.instances
    ensures Adopting(files, lib0, pending0, primary, roots, defs[name := def], unresolved, work + more)
  {
    hide Offers, Supplied;
    forall c: set<string>, n | Demands(primary, roots, defs[name := def], c)
      && (n in work + more || n in unresolved || (n in defs[name := def] && n !in primary))
      ensures n in c
    {
      assert Demands(primary, roots, defs, c);
      assert name in work + [name];
    }
  }

  /** Names that already have a definition need not be pushed. */
  lemma Pushed(files: Files, lib0: Defs, pending0: seq<string>, primary: Defs, roots: set<string>,
               defs: Defs, unresolved: set<string>, work: seq<string>, kept: seq<string>)
    requires Adopting(files, lib0, pending0, primary, roots, defs, unresolved, work)
    requires forall n :: n in kept ==> n in work
    requires forall n :: n in work ==> n in kept || n in defs
    ensures Adopting(files, lib0, pending0, primary, roots, defs, unresolved, kept)
  {
    hide Offers, Supplied, Demands;
  }

  lemma Unresolved(files: Files, lib0: Defs, pending0: seq<string>, primary: Defs, roots: set<string>,
                   defs: Defs, unresolved: set<string>, work: seq<string>, name: string)
    requires Adopting(files, lib0, pending0, primary, roots, defs, unresolved, work + [name]) && name !in defs
    requires !Supplied(files, lib0, pending0, name)
    ensures Adopting(files, lib0, pending0, primary, roots, defs, unresolved + {name}, work)
  {
    hide Offers, Supplied, Demands;
  }

  lemma Finished(files: Files, lib0: Defs, pending0: seq<string>, primary: Defs, roots: set<string>, defs: Defs, unresolved: set<string>)
    requires Adopting(files, lib0, pending0, primary, roots, defs, unresolved, [])
    ensures Adoption(files, lib0, pending0, primary, roots, defs, unresolved)
  {
    hide Offers, Supplied, Demands;
  }

  /** Every definition adopted from the library is the only one on offer for its name. */
  ghost predicate Unambiguous(files: Files, lib0: Defs, pending0: seq<string>, primary: Defs, defs: Defs) {
    forall n, e :: n in defs && n !in primary && Offers(files, lib0, pending0, n, e) ==> e == defs[n]
  }

  /** The order of the work and of the lazy indexing does not show in the outcome. */
  lemma {:induction false} OrderIrrelevant(files: Files, lib0: Defs, pending0: seq<string>, primary: Defs, roots: set<string>,
                        d1: Defs, u1: set<string>, d2: Defs, u2: set<string>)
    requires Unambiguous(files, lib0, pending0, primary, d1)
    requires Adoption(files, lib0, pending0, primary, roots, d1, u1) && Adoption(files, lib0, pending0, primary, roots, d2, u2)
    ensures d1 == d2 && u1 == u2
  {
    hide Offers;
    SameWhereBoth(files, lib0, pending0, primary, roots, d1, u1, d2, u2);
    OneWay(files, lib0, pending0, primary, roots, d1, u1, d2, u2);
    OneWay(files, lib0, pending0, primary, roots, d2, u2, d1, u1);
  }

  lemma SameWhereBoth(files: Files, lib0: Defs, pending0: seq<string>, primary: Defs, roots: set<string>,
                      d1: Defs, u1: set<string>, d2: Defs, u2: set<string>)
    requires Unambiguous(files, lib0, pending0, primary, d1)
    requires Adoption(files, lib0, pending0, primary, roots, d1, u1) && Adoption(files, lib0, pending0, primary, roots, d2, u2)
    ensures forall n :: n in d1 && n in d2 ==> d1[n] == d2[n]
  {
    hide Offers, Demands;
  }

  lemma OneWay(files: Files, lib0: Defs, pending0: seq<string>, primary: Defs, roots: set<string>,
               d1: Defs, u1: set<string>, d2: Defs, u2: set<string>)
    requires forall n :: n in d1 && n in d2 ==> d1[n] == d2[n]
    requires Adoption(files, lib0, pending0, primary, roots, d1, u1) && Adoption(files, lib0, pending0, primary, roots, d2, u2)
    ensures d1.Keys <= d2.Keys && u1 <= u2
  {
    hide Offers;
    forall n | n in d1 && n !in primary ensures Supplied(files, lib0, pending0, n) {
      assert Offers(files, lib0, pending0, n, d1[n]);
    }
    forall n | n in d2 && n !in primary ensures Supplied(files, lib0, pending0, n) {
      assert Offers(files, lib0, pending0, n, d2[n]);
    }
    var c := d2.Keys + u2;
    assert Demands(primary, roots, d1, c);
    forall n | n in d1 ensures n in d2 {
      if n !in primary { assert n in (d1.Keys - primary.Keys) + u1; }
    }
    forall n | n in u1 ensures n in u2 { assert n in (d1.Keys - primary.Keys) + u1; }
  }

  /** One definition for every name that is primary or supplied. */
  ghost predicate Chooses(files: Files, lib0: Defs, pending0: seq<string>, primary: Defs, chosen: Defs) {
    && (forall n :: n in primary ==> n in chosen && chosen[n] == primary[n])
    && (forall n :: n in chosen && n !in primary ==> Offers(files, lib0, pending0, n, chosen[n]))
    && (forall n :: Supplied(files, lib0, pending0, n) ==> n in chosen)
  }

  /** What every set that meets the demands contains. */
  ghost function Demanded(primary: Defs, roots: set<string>, chosen: Defs): set<string> {
    set n | n in roots + AllInstances(chosen) && forall c: set<string> :: Demands(primary, roots, chosen, c) ==> n in c
  }

  lemma DemandedMeets(primary: Defs, roots: set<string>, chosen: Defs)
    requires forall n :: n in primary ==> n in chosen && chosen[n] == primary[n]
    ensures Demands(primary, roots, chosen, Demanded(primary, roots, chosen))
    ensures Demands(primary, roots, chosen, roots + AllInstances(chosen))
  {}

  /** Every choice of definitions is adopted in some outcome, as far as it is demanded. */
  lemma {:induction false} ChoiceAdopted(files: Files, lib0: Defs, pending0: seq<string>, primary: Defs, roots: set<string>, chosen: Defs)
    returns (defs: Defs, unresolved: set<string>)
    requires Chooses(files, lib0, pending0, primary, chosen)
    ensures Adoption(files, lib0, pending0, primary, roots, defs, unresolved)
    ensures forall n :: n in Demanded(primary, roots, chosen) && n in chosen ==> n in defs && defs[n] == chosen[n]
  {
    hide Offers, Supplied, Demands, Demanded;
    var least := Demanded(primary, roots, chosen);
    DemandedMeets(primary, roots, chosen);
    defs := map n | n in chosen && (n in primary || n in least) :: chosen[n];
    unresolved := least - chosen.Keys;
    assert least <= defs.Keys + unresolved;
    ClosedUnder(primary, roots, chosen, least);
    forall c: set<string> | Demands(primary, roots, defs, c) ensures (defs.Keys - primary.Keys) + unresolved <= c {
      LeastDemands(primary, roots, chosen, defs, c);
    }
  }

  lemma ClosedUnder(primary: Defs, roots: set<string>, chosen: Defs, c: set<string>)
    requires Demands(primary, roots, chosen, c)
    ensures roots <= c && (forall n :: n in primary ==> primary[n].instances <= c)
    ensures forall n :: n in c && n in chosen ==> chosen[n].instances <= c
  {}

  lemma LeastDemands(primary: Defs, roots: set<string>, chosen: Defs, defs: Defs, c: set<string>)
    requires forall n :: n in primary ==> n in chosen && chosen[n] == primary[n]
    requires forall n :: n in Demanded(primary, roots, chosen) && n in chosen ==> n in defs && defs[n] == chosen[n]
    requires Demands(primary, roots, defs, c)
    ensures Demanded(primary, roots, chosen) <= c
  {
    hide Demanded;
    var least := Demanded(primary, roots, chosen);
    DemandedMeets(primary, roots, chosen);
    assert Demands(primary, roots, chosen, c * least);
    DemandedLeast(primary, roots, chosen, c * least);
  }

  lemma DemandedLeast(primary: Defs, roots: set<string>, chosen: Defs, c: set<string>)
    requires Demands(primary, roots, chosen, c)
    ensures Demanded(primary, roots, chosen) <= c
  {
    hide Demands;
  }

  /** The definitions of an outcome, one of them exchanged, and any on offer for the other names. */
  lemma Exchanged(files: Files, lib0: Defs, pending0: seq<string>, primary: Defs, d: Defs, n0: string, e: Definition) returns (chosen: Defs)
    requires forall n :: n in primary ==> n in d && d[n] == primary[n]
    requires forall n :: n in d && n !in primary ==> Offers(files, lib0, pending0, n, d[n])
    requires n0 !in primary && Offers(files, lib0, pending0, n0, e)
    ensures Chooses(files, lib0, pending0, primary, chosen) && n0 in chosen && chosen[n0] == e
    ensures forall n :: n in d && n != n0 ==> n in chosen && chosen[n] == d[n]
  {
    hide Offers;
    chosen := d[n0 := e];
    var rest := SuppliedNames(files, lib0, pending0);
    while rest != {}
      invariant forall n :: n in primary ==> n in chosen && chosen[n] == primary[n]
      invariant forall n :: n in chosen && n !in primary ==> Offers(files, lib0, pending0, n, chosen[n])
      invariant forall n :: Supplied(files, lib0, pending0, n) ==> n in chosen || n in rest
      invariant n0 in chosen && chosen[n0] == e && forall n :: n in d && n != n0 ==> n in chosen && chosen[n] == d[n]
      decreases rest
    {
      var n :| n in rest;
      rest := rest - {n};
      if n !in chosen && Supplied(files, lib0, pending0, n) {
        var def :| Offers(files, lib0, pending0, n, def);
        chosen := chosen[n := def];
      }
    }
  }

  /** An outcome is the only one exactly when no definition in it had a rival on offer. */
  lemma {:induction false} OrderIrrelevantIff(files: Files, lib0: Defs, pending0: seq<string>, primary: Defs, roots: set<string>, d: Defs, u: set<string>)
    requires Adoption(files, lib0, pending0, primary, roots, d, u)
    ensures (forall d2, u2 :: Adoption(files, lib0, pending0, primary, roots, d2, u2) ==> d2 == d && u2 == u)
       <==> Unambiguous(files, lib0, pending0, primary, d)
  {
    hide Adoption;
    if Unambiguous(files, lib0, pending0, primary, d) {
      forall d2, u2 | Adoption(files, lib0, pending0, primary, roots, d2, u2) ensures d2 == d && u2 == u {
        OrderIrrelevant(files, lib0, pending0, primary, roots, d, u, d2, u2);
      }
    } else {
      var n, e :| n in d && n !in primary && Offers(files, lib0, pending0, n, e) && e != d[n];
      var d2, u2 := RivalOutcome(files, lib0, pending0, primary, roots, d, u, n, e);
    }
  }

  lemma RivalOutcome(files: Files, lib0: Defs, pending0: seq<string>, primary: Defs, roots: set<string>, d: Defs, u: set<string>,
                     n0: string, e: Definition) returns (d2: Defs, u2: set<string>)
    requires Adoption(files, lib0, pending0, primary, roots, d, u)
    requires n0 in d && n0 !in primary && Offers(files, lib0, pending0, n0, e)
    ensures Adoption(files, lib0, pending0, primary, roots, d2, u2) && n0 in d2 && d2[n0] == e
  {
    hide Offers, Supplied;
    var chosen := Exchanged(files, lib0, pending0, primary, d, n0, e);
    d2, u2 := ChoiceAdopted(files, lib0, pending0, primary, roots, chosen);
    DemandedMeets(primary, roots, chosen);
    forall c: set<string> | Demands(primary, roots, chosen, c) ensures n0 in c {
      if n0 !in c {
        StillDemands(primary, roots, d, chosen, n0, c);
        var adopted := (d.Keys - primary.Keys) + u;
        var member := n0 in adopted;
      }
    }
  }

  lemma StillDemands(primary: Defs, roots: set<string>, d: Defs, chosen: Defs, n0: string, c: set<string>)
    requires Demands(primary, roots, chosen, c) && n0 !in c
    requires forall n :: n in d && n != n0 ==> n in chosen && chosen[n] == d[n]
    ensures Demands(primary, roots, d, c)
  {}

  lemma FirstSnoc(content: seq<(string, Definition)>, n: string, def: Definition, name: string)
    ensures FirstIn(content + [(n, def)], name)
         == if FirstIn(content, name).Some? then FirstIn(content, name) else if n == name then Some(def) else None
    ensures content == [] ==> FirstIn(content, name) == None
  {
    assert (content + [(n, def)])[..|content|] == content;
  }

  /** `m` in its own file and again in that of `k`: which one is adopted depends on which name is looked up first. */
  lemma {:induction false} OrderMatters()
    ensures var a, b, k := Definition("a", {}), Definition("b", {}), Definition("k", {});
      var files, pending := map["m.v" := [("m", a)], "k.v" := [("k", k), ("m", b)]], ["m.v", "k.v"];
      && Adoption(files, map[], pending, map[], {"m", "k"}, map["m" := a, "k" := k], {})
      && Adoption(files, map[], pending, map[], {"m", "k"}, map["m" := b, "k" := k], {})
  {
    var a, b, k := Definition("a", {}), Definition("b", {}), Definition("k", {});
    var mv, kv := [("m", a)], [("k", k), ("m", b)];
    var files, pending := map["m.v" := mv, "k.v" := kv], ["m.v", "k.v"];
    hide FirstIn;
    FirstSnoc([], "m", a, "m");
    FirstSnoc([], "k", k, "m");
    FirstSnoc([], "k", k, "k");
    FirstSnoc([("k", k)], "m", b, "m");
    FirstSnoc([("k", k)], "m", b, "k");
    assert [] + [("m", a)] == mv && [] + [("k", k)] == [("k", k)] && [("k", k)] + [("m", b)] == kv;
    assert Content(files, "m.v") == mv && Content(files, "k.v") == kv;
    assert pending[0] == "m.v" && pending[1] == "k.v";
  }
}
