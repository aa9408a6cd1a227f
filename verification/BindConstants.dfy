/** The constants a bind directive sees: a base, laid over and restored by an undo log. */
module BindConstants {
  import opened Names

  /* ---- the order of keys ---- */

  /** Byte order on names. */
  predicate Less(a: string, b: string) {
    b != [] && (a == [] || a[0] < b[0] || (a[0] == b[0] && Less(a[1..], b[1..])))
  }

  predicate Sorted(keys: seq<string>) {
    forall i, j :: 0 <= i < j < |keys| ==> Less(keys[i], keys[j])
  }

  lemma {:induction false} LessTransitive(a: string, b: string, c: string)
    requires Less(a, b) && Less(b, c)
    ensures Less(a, c)
  {
    if a != [] && a[0] == b[0] == c[0] { LessTransitive(a[1..], b[1..], c[1..]); }
  }

  lemma {:induction false} LessTotal(a: string, b: string)
    ensures a == b || Less(a, b) || Less(b, a)
    ensures !(Less(a, b) && Less(b, a)) && !Less(a, a)
  {
    if a != [] && b != [] {
      assert a == [a[0]] + a[1..] && b == [b[0]] + b[1..];
      LessTotal(a[1..], b[1..]);
    } else {
      LessIrreflexive(a);
    }
  }

  lemma {:induction false} LessIrreflexive(a: string)
    ensures !Less(a, a)
  {
    if a != [] { LessIrreflexive(a[1..]); }
  }

  lemma {:induction false} PrefixNotGreater(p: string, k: string)
    requires p <= k
    ensures !Less(k, p)
  {
    if p != [] { PrefixNotGreater(p[1..], k[1..]); }
  }

  /** A key between a prefix and a key with that prefix has it too. */
  lemma {:induction false} BetweenPrefixed(p: string, k: string, m: string)
    requires !Less(k, p) && Less(k, m) && p <= m
    ensures p <= k
  {
    if p != [] {
      assert k != [];
      BetweenPrefixed(p[1..], k[1..], m[1..]);
      assert p == [p[0]] + p[1..] && k == [k[0]] + k[1..];
    }
  }

  /** In sorted keys, those with a prefix are a run that starts at the partition point. */
  lemma {:induction false} PrefixRun(keys: seq<string>, p: string, start: nat, end: nat)
    requires Sorted(keys) && start <= end <= |keys|
    requires forall i :: 0 <= i < start ==> Less(keys[i], p)
    requires forall i :: start <= i < |keys| ==> !Less(keys[i], p)
    requires forall i :: start <= i < end ==> p <= keys[i]
    requires end < |keys| ==> !(p <= keys[end])
    ensures forall i :: 0 <= i < |keys| ==> (p <= keys[i] <==> start <= i < end)
  {
    forall i | 0 <= i < |keys| ensures p <= keys[i] <==> start <= i < end {
      if i < start && p <= keys[i] { PrefixNotGreater(p, keys[i]); }
      if end < i && p <= keys[i] { BetweenPrefixed(p, keys[end], keys[i]); }
    }
  }

  /** `partition_point`: the first key not below `p`. */
  method PartitionPoint(keys: seq<string>, p: string) returns (start: nat)
    requires Sorted(keys)
    ensures start <= |keys|
    ensures forall i :: 0 <= i < start ==> Less(keys[i], p)
    ensures forall i :: start <= i < |keys| ==> !Less(keys[i], p)
  {
    var lo, hi := 0, |keys|;
    while lo < hi
      invariant 0 <= lo <= hi <= |keys|
      invariant forall i :: 0 <= i < lo ==> Less(keys[i], p)
      invariant forall i :: hi <= i < |keys| ==> !Less(keys[i], p)
    {
      var mid := (lo + hi) / 2;
      if Less(keys[mid], p) {
        forall i | 0 <= i < mid ensures Less(keys[i], p) { LessTransitive(keys[i], keys[mid], p); }
        lo := mid + 1;
      } else {
        forall i | mid < i < |keys| ensures !Less(keys[i], p) {
          if Less(keys[i], p) { LessTransitive(keys[mid], keys[i], p); }
        }
        hi := mid;
      }
    }
    start := lo;
  }

  /** The dotted keys of a table, sorted. */
  method SortedKeys(all: set<string>) returns (keys: seq<string>)
    ensures Sorted(keys) && forall k :: k in keys <==> k in all && '.' in k
  {
    keys := [];
    var rest := all;
    while rest != {}
      invariant Sorted(keys) && rest <= all
      invariant forall k :: k in keys <==> k in all - rest && '.' in k
      decreases rest
    {
      var k :| k in rest;
      rest := rest - {k};
      if '.' in k { keys := InsertKey(keys, k); }
    }
  }

  method InsertKey(keys: seq<string>, k: string) returns (r: seq<string>)
    requires Sorted(keys) && k !in keys
    ensures Sorted(r) && forall x :: x in r <==> x in keys || x == k
  {
    var at := PartitionPoint(keys, k);
    forall i | at <= i < |keys| ensures Less(k, keys[i]) { LessTotal(k, keys[i]); }
    r := keys[..at] + [k] + keys[at..];
  }

  /* ---- the scope a directive sees ---- */

  /** The nearest enclosing scope that declares `local`. */
  function Nearest<V>(parameters: map<string, V>, ancestors: seq<string>, local: string): Option<V> {
    if ancestors == [] then None
    else if ancestors[0] + "." + local in parameters then Some(parameters[ancestors[0] + "." + local])
    else Nearest(parameters, ancestors[1..], local)
  }

  /** `base` with every enclosing declaration over it, the nearest winning. */
  ghost predicate IsScope<V(!new)>(m: map<string, V>, base: map<string, V>, parameters: map<string, V>, ancestors: seq<string>) {
    forall k: string ::
      match Nearest(parameters, ancestors, k)
      case Some(v) => k in m && m[k] == v
      case None => (k in m <==> k in base) && (k in m ==> m[k] == base[k])
  }

  /** A name that belongs to an instance or a package. */
  predicate Qualified(name: string) { '.' in name || HasColons(name) }

  lemma DottedInjective(top: string)
    ensures forall j: string, k: string :: top + "." + j == top + "." + k ==> j == k
  {
    forall j: string, k: string | top + "." + j == top + "." + k ensures j == k {
      assert j == (top + "." + j)[|top| + 1..] && k == (top + "." + k)[|top| + 1..];
    }
  }

  /** The base shared by all directives of one kind. */
  function Base<V>(parameters: map<string, V>, unitParams: map<string, V>, top: string, unitScope: bool): map<string, V> {
    DottedInjective(top);
    OwnNames(parameters, unitParams, unitScope) + map k | k in parameters :: top + "." + k := parameters[k]
  }

  /** The parameters a base has under their own names: all in a module, the qualified ones and `$unit`'s in `$unit`. */
  function OwnNames<V>(parameters: map<string, V>, unitParams: map<string, V>, unitScope: bool): map<string, V> {
    if unitScope then (map k | k in parameters && Qualified(k) :: parameters[k]) + unitParams else parameters
  }

  lemma {:induction false} OwnHas<V>(parameters: map<string, V>, unitParams: map<string, V>, unitScope: bool, k: string)
    ensures var own := OwnNames(parameters, unitParams, unitScope);
      if !unitScope then (k in own <==> k in parameters) && (k in own ==> own[k] == parameters[k])
      else if k in unitParams then k in own && own[k] == unitParams[k]
      else (k in own <==> k in parameters && ('.' in k || HasColons(k))) && (k in own ==> own[k] == parameters[k])
  {}

  /** A base has every parameter under the top module's name, which comes first, and the own names. */
  lemma {:induction false} BaseHas<V(!new)>(parameters: map<string, V>, unitParams: map<string, V>, top: string, unitScope: bool)
    ensures var base := Base(parameters, unitParams, top, unitScope);
      forall n :: n in parameters ==> top + "." + n in base && base[top + "." + n] == parameters[n]
    ensures var base, own := Base(parameters, unitParams, top, unitScope), OwnNames(parameters, unitParams, unitScope);
      forall k :: (forall n :: n in parameters ==> k != top + "." + n) ==> (k in base <==> k in own) && (k in base ==> base[k] == own[k])
  {
    hide OwnNames;
    DottedInjective(top);
  }

  /** Undo records, newest last. */
  type Undo<V> = seq<(string, Option<V>)>

  function Restored<V>(m: map<string, V>, undo: Undo<V>): map<string, V>
    decreases |undo|
  {
    if undo == [] then m else
      var (k, previous) := undo[|undo| - 1];
      var back := match previous case Some(v) => m[k := v] case None => m - {k};
      Restored(back, undo[..|undo| - 1])
  }

  /** Recording what a key held before it is set makes the set undoable. */
  lemma {:induction false} UndoInsert<V>(m: map<string, V>, undo: Undo<V>, k: string, v: V)
    ensures Restored(m[k := v], undo + [(k, if k in m then Some(m[k]) else None)]) == Restored(m, undo)
  {
    var previous := if k in m then Some(m[k]) else None;
    var log := undo + [(k, previous)];
    assert log[..|log| - 1] == undo;
    assert (match previous case Some(x) => m[k := v][k := x] case None => m[k := v] - {k}) == m;
  }

  /** Laying one more, nearer scope over a scope. */
  lemma LayNearer<V(!new)>(m: map<string, V>, r: map<string, V>, base: map<string, V>, parameters: map<string, V>, ancestors: seq<string>, i: nat)
    requires i < |ancestors| && IsScope(m, base, parameters, ancestors[i + 1..])
    requires forall k :: k in r <==> k in m || ancestors[i] + "." + k in parameters
    requires forall k :: k in r ==>
      r[k] == if ancestors[i] + "." + k in parameters then parameters[ancestors[i] + "." + k] else m[k]
    ensures IsScope(r, base, parameters, ancestors[i..])
  {
    assert ancestors[i..][1..] == ancestors[i + 1..] && ancestors[i..][0] == ancestors[i];
  }

  class BindConstants<V(!new)> {
    const parameters: map<string, V>
    const top: string
    const unitParams: map<string, V>
    var dotted: Option<seq<string>>
    var module_: Option<map<string, V>>
    var unit_: Option<map<string, V>>
    var entered: Option<bool>
    var undo: Undo<V>
    ghost var over: seq<string>

    function Slot(unitScope: bool): Option<map<string, V>>
      reads this
    {
      if unitScope then unit_ else module_
    }

    /** The entered base carries the scopes of `over`; the undo log takes them off; the other base is clean. */
    ghost predicate Valid()
      reads this
    {
      && (dotted.Some? ==> Sorted(dotted.value) && forall k :: k in dotted.value <==> k in parameters && '.' in k)
      && (entered.None? ==> undo == [])
      && (entered.Some? ==> Slot(entered.value).Some? && IsScope(Slot(entered.value).value, BaseOf(entered.value), parameters, over))
      && (forall u :: Slot(u).Some? ==>
            (if entered == Some(u) then Restored(Slot(u).value, undo) else Slot(u).value) == BaseOf(u))
    }

    function BaseOf(unitScope: bool): map<string, V>
    {
      Base(parameters, unitParams, top, unitScope)
    }

    constructor (parameters: map<string, V>, top: string, unitParams: map<string, V>)
      ensures Valid() && entered == None
      ensures this.parameters == parameters && this.top == top && this.unitParams == unitParams
    {
      this.parameters, this.top, this.unitParams := parameters, top, unitParams;
      dotted, module_, unit_, entered, undo, over := None, None, None, None, [], [];
    }

    method SetSlot(unitScope: bool, m: map<string, V>)
      modifies this`module_, this`unit_
      ensures Slot(unitScope) == Some(m) && Slot(!unitScope) == old(Slot(!unitScope))
    {
      if unitScope { unit_ := Some(m); } else { module_ := Some(m); }
    }

    /** The scope of a directive; laid over the base on its first call. */
    method Scope(unitScope: bool, ancestors: seq<string>) returns (constants: map<string, V>)
      requires Valid()
      requires entered.Some? ==> entered.value == unitScope && over == ancestors
      modifies this
      ensures Valid() && entered == Some(unitScope) && over == ancestors
      ensures Slot(unitScope) == Some(constants) && IsScope(constants, BaseOf(unitScope), parameters, ancestors)
    {
      hide Base, Restored, IsScope;
      if Slot(unitScope).None? { SetSlot(unitScope, BaseOf(unitScope)); }
      if entered.None? { Enter(unitScope, ancestors); }
      constants := Slot(unitScope).value;
    }

    method Enter(unitScope: bool, ancestors: seq<string>)
      requires Valid() && entered.None? && Slot(unitScope).Some?
      modifies this
      ensures Valid() && entered == Some(unitScope) && over == ancestors && Slot(unitScope).Some?
    {
      hide Base, Restored, IsScope;
      CleanSlot(unitScope);
      if dotted.None? {
        var keys := SortedKeys(parameters.Keys);
        dotted := Some(keys);
      }
      var m, log := LayOver(BaseOf(unitScope), dotted.value, ancestors);
      SetSlot(unitScope, m);
      entered, over, undo := Some(unitScope), ancestors, log;
    }

    lemma CleanSlot(unitScope: bool)
      requires Valid() && entered.None? && Slot(unitScope).Some?
      ensures Slot(unitScope).value == BaseOf(unitScope)
    {
      hide Base, Restored, IsScope;
    }

    /** Insert the declarations of every enclosing scope, farthest first. */
    method LayOver(base: map<string, V>, keys: seq<string>, ancestors: seq<string>) returns (m: map<string, V>, log: Undo<V>)
      requires Sorted(keys) && forall k :: k in keys <==> k in parameters && '.' in k
      ensures IsScope(m, base, parameters, ancestors) && Restored(m, log) == base
    {
      m, log := base, [];
      for i := |ancestors| downto 0
        invariant IsScope(m, base, parameters, ancestors[i..]) && Restored(m, log) == base
      {
        var start := PartitionPoint(keys, ancestors[i] + ".");
        var r;
        r, log := LayScope(m, log, keys, ancestors[i] + ".", start);
        LayNearer(m, r, base, parameters, ancestors, i);
        m := r;
      }
      assert ancestors[0..] == ancestors;
    }

    /** One scope: the run of keys with its prefix, from the partition point on. */
    method LayScope(m: map<string, V>, log: Undo<V>, keys: seq<string>, prefix: string, start: nat)
      returns (r: map<string, V>, log': Undo<V>)
      requires Sorted(keys) && start <= |keys| && '.' in prefix
      requires forall k :: k in keys <==> k in parameters && '.' in k
      requires forall i :: 0 <= i < start ==> Less(keys[i], prefix)
      requires forall i :: start <= i < |keys| ==> !Less(keys[i], prefix)
      ensures Restored(r, log') == Restored(m, log)
      ensures forall k :: k in r <==> k in m || prefix + k in parameters
      ensures forall k :: k in r ==> r[k] == if prefix + k in parameters then parameters[prefix + k] else m[k]
    {
      r, log' := m, log;
      var i := start;
      while i < |keys| && prefix <= keys[i]
        invariant start <= i <= |keys| && Restored(r, log') == Restored(m, log)
        invariant forall j :: start <= j < i ==> prefix <= keys[j]
        invariant forall k :: k in r <==> k in m || prefix + k in keys[start..i]
        invariant forall k :: k in r ==> r[k] == if prefix + k in keys[start..i] then parameters[prefix + k] else m[k]
      {
        var key := keys[i];
        var local := key[|prefix|..];
        UndoInsert(r, log', local, parameters[key]);
        log' := log' + [(local, if local in r then Some(r[local]) else None)];
        r := r[local := parameters[key]];
        assert keys[start..i + 1] == keys[start..i] + [key];
        assert prefix + local == key;
        i := i + 1;
      }
      PrefixRun(keys, prefix, start, i);
      forall k ensures prefix + k in keys[start..i] <==> prefix + k in parameters {
        RunHolds(keys, prefix, start, i, prefix + k);
      }
    }

    /** Take the scope off again. */
    method Leave()
      requires Valid()
      modifies this
      ensures Valid() && entered == None && undo == []
      ensures forall u :: Slot(u).Some? <==> old(Slot(u)).Some?
      ensures forall u :: Slot(u).Some? ==> Slot(u).value == BaseOf(u)
    {
      if entered.None? { return; }
      var unitScope := entered.value;
      entered := None;
      var m := Slot(unitScope).value;
      while undo != []
        invariant Restored(m, undo) == BaseOf(unitScope)
        invariant Slot(unitScope).Some? && Slot(!unitScope) == old(Slot(!unitScope)) && entered == None && dotted == old(dotted)
        decreases |undo|
      {
        var (local, previous) := undo[|undo| - 1];
        if previous.Some? { m := m[local := previous.value]; } else { m := m - {local}; }
        undo := undo[..|undo| - 1];
      }
      SetSlot(unitScope, m);
    }
  }

  lemma RunHolds(keys: seq<string>, prefix: string, start: nat, end: nat, k: string)
    requires start <= end <= |keys| && prefix <= k
    requires forall i :: 0 <= i < |keys| ==> (prefix <= keys[i] <==> start <= i < end)
    ensures k in keys[start..end] <==> k in keys
  {}
}
