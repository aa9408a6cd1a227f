/** Interned names behind weak pointers, against a plain set of live names. */
module NameRegistry {
  /* ---- the plain account ---- */

  /** `texts`: every allocation so far; `live`: those still owned; `since`: those indexed since the last reset. */
  datatype Names = Names(texts: map<nat, string>, live: set<nat>, since: set<nat>, depth: nat)

  datatype Event = Intern(text: string, id: nat) | DropName(id: nat) | Enter | Leave

  /** The live indexed names with this text. */
  ghost predicate Holds(s: Names, id: nat, text: string) {
    id in s.since && id in s.live && id in s.texts && s.texts[id] == text
  }

  function Allocate(s: Names, id: nat, text: string): Names {
    s.(texts := s.texts[id := text], live := s.live + {id})
  }

  /** What each event may do to the names. */
  ghost predicate Step(s: Names, e: Event, t: Names) {
    match e
    case Intern(text, id) =>
      if s.depth == 0 then id !in s.texts && t == Allocate(s, id, text)
      else if exists k :: Holds(s, k, text) then Holds(s, id, text) && t == s
      else id !in s.texts && t == Allocate(s, id, text).(since := s.since + {id})
    case DropName(id) => t == s.(live := s.live - {id})
    case Enter => t == s.(since := if s.depth == 0 then {} else s.since, depth := s.depth + 1)
    case Leave => s.depth > 0 && t == s.(since := if s.depth == 1 then {} else s.since, depth := s.depth - 1)
  }

  /** Two live indexed names with equal text are one allocation. */
  ghost predicate Canonical(s: Names) {
    && s.live <= s.texts.Keys && s.since <= s.texts.Keys
    && forall i, j :: i in s.since && i in s.live && j in s.since && j in s.live && s.texts[i] == s.texts[j] ==> i == j
  }

  ghost predicate Runs(states: seq<Names>, events: seq<Event>) {
    |states| == |events| + 1 && forall i :: 0 <= i < |events| ==> Step(states[i], events[i], states[i + 1])
  }

  const Start: Names := Names(map[], {}, {}, 0)

  lemma StepCanonical(s: Names, e: Event, t: Names)
    requires Canonical(s) && Step(s, e, t)
    ensures Canonical(t)
    ensures forall i :: i in s.texts ==> i in t.texts && t.texts[i] == s.texts[i]
  {
    if e.Intern? && s.depth > 0 && !(exists k :: Holds(s, k, e.text)) {
      forall i | i in s.since && i in s.live ensures s.texts[i] != e.text { assert !Holds(s, i, e.text); }
    }
  }

  /** Interning is canonical over whole runs. */
  lemma {:induction false} RunCanonical(states: seq<Names>, events: seq<Event>)
    requires Runs(states, events) && states[0] == Start
    ensures forall i :: 0 <= i < |states| ==> Canonical(states[i])
  {
    if events != [] {
      var n := |events| - 1;
      RunCanonical(states[..n + 1], events[..n]);
      assert Canonical(states[..n + 1][n]);
      StepCanonical(states[n], events[n], states[n + 1]);
      forall i | 0 <= i < |states| ensures Canonical(states[i]) {
        if i <= n { assert states[i] == states[..n + 1][i]; }
      }
    }
  }

  /** A name indexed at `i` and never freed is still found at `j` while some scope stays open. */
  lemma {:induction false} StaysFindable(states: seq<Names>, events: seq<Event>, i: nat, j: nat, id: nat, text: string)
    requires Runs(states, events) && i <= j < |states| && Canonical(states[i])
    requires Holds(states[i], id, text)
    requires forall k :: i <= k <= j ==> states[k].depth > 0 && id in states[k].live
    ensures Holds(states[j], id, text) && Canonical(states[j])
    decreases j
  {
    if i < j {
      StaysFindable(states, events, i, j - 1, id, text);
      StepCanonical(states[j - 1], events[j - 1], states[j]);
    }
  }

  /** Two interns of one text in one outermost scope return the same allocation if it lived in between. */
  lemma {:induction false} InternTwice(states: seq<Names>, events: seq<Event>, i: nat, j: nat, text: string, x: nat, y: nat)
    requires Runs(states, events) && states[0] == Start && i < j < |events|
    requires events[i] == Intern(text, x) && events[j] == Intern(text, y)
    requires forall k :: i <= k <= j ==> states[k].depth > 0 && (k > i ==> x in states[k].live)
    ensures x == y
  {
    RunCanonical(states, events);
    assert Step(states[i], events[i], states[i + 1]);
    assert Holds(states[i + 1], x, text);
    StaysFindable(states, events, i + 1, j, x, text);
    assert Step(states[j], events[j], states[j + 1]);
    assert Holds(states[j], y, text);
  }

  lemma NewNameDiffers(s: Names, id: nat, text: string)
    requires Canonical(s) && id !in s.texts && forall k :: !Holds(s, k, text)
    ensures Canonical(Allocate(s, id, text).(since := s.since + {id}))
  {
    forall i | i in s.since && i in s.live ensures s.texts[i] != text { assert !Holds(s, i, text); }
  }

  /* ---- the index ---- */

  type Hash = string -> nat
  type Primary = map<nat, nat>
  type Collisions = map<nat, seq<nat>>

  ghost predicate Indexed(hash: Hash, s: Names, id: nat, h: nat) {
    id in s.texts && id in s.since && hash(s.texts[id]) == h
  }

  /** A weak pointer under `h` leads to the allocation. */
  predicate Leads(p: Primary, c: Collisions, h: nat, id: nat) {
    h in p && (p[h] == id || (h in c && id in c[h]))
  }

  /** Every pointer is filed under its hash, a bucket implies a primary slot, and every live name is led to. */
  ghost predicate Slotted(hash: Hash, s: Names, p: Primary, c: Collisions) {
    && (forall h :: h in p ==> Indexed(hash, s, p[h], h))
    && (forall h :: h in c ==> h in p)
    && (forall h, k :: h in c && k in c[h] ==> Indexed(hash, s, k, h))
    && (forall id :: id in s.since && id in s.live ==> id in s.texts && Leads(p, c, hash(s.texts[id]), id))
  }

  /** Dropping dead pointers from a bucket, or an empty bucket, loses nothing. */
  lemma {:induction false} BucketPruned(hash: Hash, s: Names, p: Primary, c: Collisions, h: nat, kept: seq<nat>)
    requires Slotted(hash, s, p, c) && h in c && forall k :: k in kept <==> k in c[h] && k in s.live
    ensures Slotted(hash, s, p, c[h := kept])
    ensures kept == [] ==> Slotted(hash, s, p, c - {h})
  {}

  lemma {:induction false} SlotTaken(hash: Hash, s: Names, p: Primary, c: Collisions, id: nat, text: string)
    requires Slotted(hash, s, p, c) && id !in s.texts && s.since <= s.texts.Keys
    requires hash(text) !in p || p[hash(text)] !in s.live
    ensures Slotted(hash, Allocate(s, id, text).(since := s.since + {id}), p[hash(text) := id], c)
  {}

  lemma BucketGrown(hash: Hash, s: Names, p: Primary, c: Collisions, id: nat, text: string)
    requires Slotted(hash, s, p, c) && id !in s.texts && s.since <= s.texts.Keys && hash(text) in p
    ensures var h := hash(text);
      Slotted(hash, Allocate(s, id, text).(since := s.since + {id}), p, c[h := (if h in c then c[h] else []) + [id]])
  {}

  class Registry {
    var texts: map<nat, string>
    var live: set<nat>
    var primary: Primary
    var collisions: Collisions
    var depth: nat
    var nextId: nat
    ghost var since: set<nat>
    const hash: Hash

    ghost function View(): Names
      reads this
    {
      Names(texts, live, since, depth)
    }

    ghost predicate Valid()
      reads this
    {
      && Canonical(View())
      && (forall id :: id in texts ==> id < nextId)
      && Slotted(hash, View(), primary, collisions)
      && (depth == 0 ==> primary == map[] && collisions == map[] && since == {})
    }

    constructor (hash: Hash)
      ensures Valid() && View() == Start && this.hash == hash
    {
      this.hash := hash;
      texts, live, primary, collisions, depth, nextId, since := map[], {}, map[], map[], 0, 0, {};
    }

    method AllocateName(text: string) returns (id: nat)
      requires forall i :: i in texts ==> i < nextId
      modifies this`texts, this`live, this`nextId
      ensures id !in old(texts) && texts == old(texts)[id := text] && live == old(live) + {id}
      ensures forall i :: i in texts ==> i < nextId
    {
      id := nextId;
      nextId := nextId + 1;
      texts, live := texts[id := text], live + {id};
    }

    /** `bucket.retain`: drop the dead, remember a live name with this text. */
    method Retain(bucket: seq<nat>, text: string) returns (kept: seq<nat>, found: bool, existing: nat)
      requires forall k :: k in bucket ==> k in texts
      ensures forall k :: k in kept <==> k in bucket && k in live
      ensures found ==> existing in bucket && existing in live && existing in texts && texts[existing] == text
      ensures !found ==> forall k :: k in bucket && k in live ==> texts[k] != text
    {
      kept, found, existing := [], false, 0;
      for i := 0 to |bucket|
        invariant forall k :: k in kept <==> k in bucket[..i] && k in live
        invariant found ==> existing in bucket[..i] && existing in live && existing in texts && texts[existing] == text
        invariant !found ==> forall k :: k in bucket[..i] && k in live ==> texts[k] != text
      {
        assert bucket[..i + 1] == bucket[..i] + [bucket[i]];
        if bucket[i] in live {
          if texts[bucket[i]] == text { found, existing := true, bucket[i]; }
          kept := kept + [bucket[i]];
        }
      }
      assert bucket[..|bucket|] == bucket;
    }

    /** Look through the collision bucket of `h`, dropping its dead pointers. */
    method SearchBucket(h: nat, text: string) returns (found: bool, id: nat)
      requires Valid() && h in collisions
      modifies this`collisions
      ensures Valid()
      ensures found ==> Holds(View(), id, text)
      ensures !found ==> h !in collisions || forall k :: k in collisions[h] && k in live ==> texts[k] != text
    {
      hide Canonical;
      var kept;
      kept, found, id := Retain(collisions[h], text);
      BucketPruned(hash, View(), primary, collisions, h, kept);
      hide Slotted;
      if !found && kept == [] {
        collisions := collisions[h := kept];
        assert collisions - {h} == old(collisions) - {h};
        collisions := collisions - {h};
      } else {
        collisions := collisions[h := kept];
      }
    }

    /** Put a new name in the free or dead primary slot, or in the bucket. */
    method Insert(h: nat, text: string) returns (id: nat)
      requires Valid() && depth > 0 && h == hash(text) && forall k :: !Holds(View(), k, text)
      modifies this
      ensures Valid() && depth == old(depth)
      ensures id !in old(texts) && View() == Allocate(old(View()), id, text).(since := old(since) + {id})
    {
      hide Slotted;
      ghost var before := View();
      var alive := h in primary && primary[h] in live;
      id := AllocateName(text);
      since := since + {id};
      NewNameDiffers(before, id, text);
      if !alive {
        SlotTaken(hash, before, primary, collisions, id, text);
        primary := primary[h := id];
      } else {
        BucketGrown(hash, before, primary, collisions, id, text);
        collisions := collisions[h := (if h in collisions then collisions[h] else []) + [id]];
      }
    }

    /** `NameRegistry::intern`. */
    method InternHashed(text: string) returns (id: nat)
      requires Valid() && depth > 0
      modifies this
      ensures Valid() && depth == old(depth)
      ensures Step(old(View()), Intern(text, id), View())
    {
      hide Valid;
      var h := hash(text);
      ghost var before := View();
      SlotFacts(h);
      if h !in primary {
        NotIndexed(text);
        id := Insert(h, text);
        return;
      }
      var p := primary[h];
      if p in live && texts[p] == text {
        assert Holds(before, p, text);
        return p;
      }
      if h in collisions {
        var found;
        found, id := SearchBucket(h, text);
        if found {
          assert Holds(before, id, text);
          return;
        }
      }
      MissedEverywhere(text);
      id := Insert(h, text);
    }

    lemma SlotFacts(h: nat)
      requires Valid()
      ensures h in primary ==> primary[h] in texts && primary[h] in since
    {}

    lemma NotIndexed(text: string)
      requires Valid() && hash(text) !in primary
      ensures forall k :: !Holds(View(), k, text)
    {}

    lemma MissedEverywhere(text: string)
      requires Valid() && hash(text) in primary
      requires primary[hash(text)] in live ==> texts[primary[hash(text)]] != text
      requires hash(text) in collisions ==> forall k :: k in collisions[hash(text)] && k in live ==> texts[k] != text
      ensures forall k :: !Holds(View(), k, text)
    {}

    /** `SharedName::intern`: outside every scope a name is simply allocated. */
    method InternName(text: string) returns (id: nat)
      requires Valid()
      modifies this
      ensures Valid() && Step(old(View()), Intern(text, id), View())
    {
      if depth == 0 {
        id := AllocateName(text);
        return;
      }
      id := InternHashed(text);
    }

    /** The last owner of a name lets go of it. */
    method Release(id: nat)
      requires Valid()
      modifies this`live
      ensures Valid() && Step(old(View()), DropName(id), View())
    {
      live := live - {id};
    }

    method Reset()
      modifies this`primary, this`collisions, this`since
      ensures primary == map[] && collisions == map[] && since == {}
    {
      primary, collisions, since := map[], map[], {};
    }

    /** `registry_scope`. */
    method EnterScope()
      requires Valid()
      modifies this
      ensures Valid() && Step(old(View()), Enter, View())
    {
      if depth == 0 { Reset(); }
      depth := depth + 1;
    }

    /** Dropping a `RegistryScope`. */
    method LeaveScope()
      requires Valid() && depth > 0
      modifies this
      ensures Valid() && Step(old(View()), Leave, View())
    {
      depth := depth - 1;
      if depth == 0 { Reset(); }
    }
  }
}
