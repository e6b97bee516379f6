/** The tables themselves: rehashing into a larger array, and the grow-only map
    the inference pass builds its two indexes from. */
module ProbeTables {
  import opened Facts
  import opened Probing
  import opened Counting

  predicate IsTaken<K, V>(s: Slot<K, V>) { s.Taken? }

  predicate IsUsed<K, V>(s: Slot<K, V>) { !s.Vacant? }

  lemma VacancyBelow<K, V>(slots: seq<Slot<K, V>>)
    requires Count(slots, (s: Slot<K, V>) => IsUsed(s)) < |slots|
    ensures HasVacancy(slots)
  {
  }

  lemma {:induction false} AllCounted<T>(s: seq<T>, p: T -> bool)
    requires forall i :: 0 <= i < |s| ==> p(s[i])
    ensures Count(s, p) == |s|
  {
    if s != [] {
      AllCounted(s[..|s| - 1], p);
    }
  }

  /** Walk `k`'s path to its slot, or to the vacant slot that ends it. */
  method Probe<K(==), V>(a: array<Slot<K, V>>, hash: K -> nat, k: K) returns (i: nat, ghost d: nat)
    requires a.Length > 0 && WellFormed(a[..], hash) && HasVacancy(a[..])
    ensures d < a.Length && i == At(Home(hash, k, a.Length), d, a.Length)
    ensures PathFull(a[..], Home(hash, k, a.Length), d)
    ensures a[i].Taken? ==> a[i].key == k
    ensures a[i].Taken? || (a[i].Vacant? && Absent(a[..], k))
  {
    hide WellFormed, PathFull, NoMatchBefore, Absent;
    var home := Home(hash, k, a.Length);
    ghost var slots := a[..];
    ghost var hole :| 0 <= hole < a.Length && slots[hole].Vacant?;
    ghost var last := Dist(home, hole, a.Length);
    i, d := home, 0;
    PathStarts(slots, home, k);
    while !a[i].Vacant?
      invariant d <= last && i == At(home, d, a.Length)
      invariant PathFull(slots, home, d) && NoMatchBefore(slots, home, k, d)
      decreases last - d
    {
      if a[i].Taken? && a[i].key == k {
        return;
      }
      PathGoesOn(slots, home, k, d);
      i, d := (if i + 1 == a.Length then 0 else i + 1), d + 1;
    }
    ProbeMiss(slots, hash, k, d);
  }

  lemma PathStarts<K, V>(slots: seq<Slot<K, V>>, home: nat, k: K)
    requires home < |slots|
    ensures PathFull(slots, home, 0) && NoMatchBefore(slots, home, k, 0)
  {
  }

  /** A slot that is neither vacant nor the key's extends the path by one. */
  lemma PathGoesOn<K, V>(slots: seq<Slot<K, V>>, home: nat, k: K, d: nat)
    requires home < |slots| && d < |slots| && PathFull(slots, home, d) && NoMatchBefore(slots, home, k, d)
    requires var s := slots[At(home, d, |slots|)]; !s.Vacant? && !(s.Taken? && s.key == k)
    ensures PathFull(slots, home, d + 1) && NoMatchBefore(slots, home, k, d + 1)
  {
  }

  lemma DistinctPrefix<K, V>(slots: seq<Slot<K, V>>, i: nat)
    requires Distinct(slots) && i <= |slots|
    ensures Distinct(slots[..i])
  {
  }

  lemma ViewGrows<K, V>(slots: seq<Slot<K, V>>, i: nat)
    requires Distinct(slots) && i < |slots|
    ensures Distinct(slots[..i]) && Distinct(slots[..i + 1])
    ensures if slots[i].Taken?
            then Absent(slots[..i], slots[i].key) && View(slots[..i + 1])
                == View(slots[..i])[slots[i].key := slots[i].value]
            else View(slots[..i + 1]) == View(slots[..i])
  {
    var prefix, longer := slots[..i], slots[..i + 1];
    DistinctPrefix(slots, i);
    DistinctPrefix(slots, i + 1);
    var m := if slots[i].Taken? then View(prefix)[slots[i].key := slots[i].value] else View(prefix);
    forall k | k in m ensures exists j :: 0 <= j < |longer| && longer[j].Taken? && longer[j].key == k {
      if k in View(prefix) {
        var j :| 0 <= j < |prefix| && prefix[j].Taken? && prefix[j].key == k;
        assert longer[j] == prefix[j];
      } else {
        assert longer[i] == slots[i];
      }
    }
    ViewIs(longer, m);
  }

  lemma EmptyTable<K, V>(slots: seq<Slot<K, V>>, hash: K -> nat)
    requires forall i :: 0 <= i < |slots| ==> slots[i].Vacant?
    ensures WellFormed(slots, hash) && View(slots) == map[]
    ensures Count(slots, (s: Slot<K, V>) => IsUsed(s)) == 0
  {
  }

  /** What writing `k` at the slot its probe stopped at does to the table. */
  lemma Stored<K, V>(slots: seq<Slot<K, V>>, hash: K -> nat, k: K, v: V, d: nat)
    requires WellFormed(slots, hash) && d < |slots| && PathFull(slots, Home(hash, k, |slots|), d)
    requires var s := slots[At(Home(hash, k, |slots|), d, |slots|)];
             if s.Taken? then s.key == k else Absent(slots, k)
    ensures var i := At(Home(hash, k, |slots|), d, |slots|);
            var slots' := slots[i := Taken(k, v)];
            && WellFormed(slots', hash)
            && View(slots') == View(slots)[k := v]
            && (k in View(slots) <==> slots[i].Taken?)
            && Count(slots', (s: Slot<K, V>) => IsUsed(s))
               == Count(slots, (s: Slot<K, V>) => IsUsed(s)) + (if slots[i].Vacant? then 1 else 0)
  {
    hide WellFormed;
    var i := At(Home(hash, k, |slots|), d, |slots|);
    CountUpdate(slots, i, Taken(k, v), (s: Slot<K, V>) => IsUsed(s));
    WellFormedDistinct(slots, hash);
    AbsentIff(slots, k);
    if slots[i].Taken? {
      Replace(slots, hash, i, v);
    } else {
      Place(slots, hash, k, v, d);
    }
  }

  lemma WellFormedDistinct<K, V>(slots: seq<Slot<K, V>>, hash: K -> nat)
    requires WellFormed(slots, hash)
    ensures Distinct(slots)
  {
  }

  /** Move every taken slot into a larger empty array, dropping the dead ones. */
  method Rehash<K(==), V>(old': array<Slot<K, V>>, hash: K -> nat, ncap: nat) returns (a: array<Slot<K, V>>)
    requires WellFormed(old'[..], hash)
    requires Count(old'[..], (s: Slot<K, V>) => IsTaken(s)) < ncap
    ensures fresh(a) && a.Length == ncap && WellFormed(a[..], hash)
    ensures View(a[..]) == View(old'[..])
    ensures Count(a[..], (s: Slot<K, V>) => IsUsed(s)) == Count(old'[..], (s: Slot<K, V>) => IsTaken(s))
    ensures forall i :: 0 <= i < ncap ==> !a[i].Dead?
  {
    hide Reachable, Distinct, View, PathFull, Absent;
    ghost var taken, used := (s: Slot<K, V>) => IsTaken(s), (s: Slot<K, V>) => IsUsed(s);
    a := new Slot<K, V>[ncap](_ => Vacant);
    EmptyTable(a[..], hash);
    EmptyTable(old'[..][..0], hash);
    for i := 0 to old'.Length
      invariant fresh(a) && a.Length == ncap && WellFormed(a[..], hash)
      invariant Distinct(old'[..][..i]) && View(a[..]) == View(old'[..][..i])
      invariant Count(a[..], used) == Count(old'[..][..i], taken)
      invariant forall i :: 0 <= i < ncap ==> !a[i].Dead?
    {
      ViewGrows(old'[..], i);
      CountPrefix(old'[..], i, taken);
      if old'[i].Taken? {
        VacancyBelow(a[..]);
        var j, d := Probe(a, hash, old'[i].key);
        ghost var before := a[..];
        Stored(before, hash, old'[i].key, old'[i].value, d);
        a[j] := old'[i];
        assert a[..] == before[j := old'[i]];
      }
    }
    assert old'[..][..old'.Length] == old'[..];
  }

  lemma CountPrefix<T>(s: seq<T>, i: nat, p: T -> bool)
    requires i < |s|
    ensures Count(s[..i + 1], p) == Count(s[..i], p) + (if p(s[i]) then 1 else 0)
    ensures Count(s[..i + 1], p) <= Count(s, p)
    decreases |s| - i
  {
    assert s[..i + 1][..i] == s[..i];
    if i + 1 < |s| {
      CountPrefix(s, i + 1, p);
    } else {
      assert s[..i + 1] == s;
    }
  }

  /** The total weight of the taken slots: a function of the map alone. */
  ghost function SlotSum<K, V>(slots: seq<Slot<K, V>>, w: (K, V) -> nat): nat
  {
    if slots == [] then 0 else SlotSum(slots[..|slots| - 1], w) + SlotWeight(slots[|slots| - 1], w)
  }

  ghost function SlotWeight<K, V>(s: Slot<K, V>, w: (K, V) -> nat): nat { if s.Taken? then w(s.key, s.value) else 0 }

  lemma {:induction false} SumUpdate<K, V>(slots: seq<Slot<K, V>>, i: nat, s: Slot<K, V>, w: (K, V) -> nat)
    requires i < |slots|
    ensures SlotSum(slots[i := s], w) == SlotSum(slots, w) - SlotWeight(slots[i], w) + SlotWeight(s, w)
  {
    var front := slots[..|slots| - 1];
    if i == |slots| - 1 {
      assert slots[i := s][..|slots| - 1] == front;
    } else {
      assert slots[i := s][..|slots| - 1] == front[i := s];
      SumUpdate(front, i, s, w);
    }
  }

  lemma {:induction false} SumNone<K, V>(slots: seq<Slot<K, V>>, w: (K, V) -> nat)
    requires forall i :: 0 <= i < |slots| ==> !slots[i].Taken?
    ensures SlotSum(slots, w) == 0
  {
    if slots != [] {
      SumNone(slots[..|slots| - 1], w);
    }
  }

  /** Peel a key off both tables at once. */
  lemma PeelKey<K, V>(a: seq<Slot<K, V>>, b: seq<Slot<K, V>>) returns (j: nat)
    requires Distinct(a) && Distinct(b) && View(a) == View(b) && a != [] && a[|a| - 1].Taken?
    ensures j < |b| && b[j] == a[|a| - 1]
    ensures Distinct(a[..|a| - 1]) && Distinct(b[j := Slot<K, V>.Dead])
    ensures View(b[j := Slot<K, V>.Dead]) == View(a[..|a| - 1])
  {
    hide Distinct;
    var last := a[|a| - 1];
    ViewGrows(a, |a| - 1);
    assert a[..|a|] == a;
    AbsentIff(a[..|a| - 1], last.key);
    assert last.key in View(b);
    j :| 0 <= j < |b| && b[j].Taken? && b[j].key == last.key;
    ViewDrop(b, j);
    assert View(b) - {last.key} == View(a[..|a| - 1]);
  }

  lemma {:induction false} SumOfView<K, V>(a: seq<Slot<K, V>>, b: seq<Slot<K, V>>, w: (K, V) -> nat)
    requires Distinct(a) && Distinct(b) && View(a) == View(b)
    ensures SlotSum(a, w) == SlotSum(b, w)
  {
    hide Distinct, View;
    if a == [] {
      NothingTaken(a, b);
      SumNone(b, w);
    } else if a[|a| - 1].Taken? {
      var j := PeelKey(a, b);
      SumUpdate(b, j, Slot<K, V>.Dead, w);
      SumOfView(a[..|a| - 1], b[j := Slot<K, V>.Dead], w);
    } else {
      ViewGrows(a, |a| - 1);
      assert a[..|a|] == a;
      SumOfView(a[..|a| - 1], b, w);
    }
  }

  lemma NothingTaken<K, V>(a: seq<Slot<K, V>>, b: seq<Slot<K, V>>)
    requires Distinct(a) && Distinct(b) && View(a) == View(b) && a == []
    ensures forall i :: 0 <= i < |b| ==> !b[i].Taken?
  {
  }

  /** A map that only grows: the shape of the pass's triple set and adjacency. */
  class GrowMap<K(==), V> {
    const hash: K -> nat
    var slots: array<Slot<K, V>>
    var n: nat
    ghost var view: map<K, V>

    ghost predicate Valid()
      reads this, slots
    {
      && WellFormed(slots[..], hash)
      && view == View(slots[..])
      && n == Count(slots[..], (s: Slot<K, V>) => IsUsed(s))
      && (forall i :: 0 <= i < slots.Length ==> !slots[i].Dead?)
      && (slots.Length == 0 || slots.Length >= 64)
      && (slots.Length > 0 ==> n < slots.Length)
    }

    constructor (hash: K -> nat)
      ensures Valid() && fresh(slots) && view == map[] && this.hash == hash
    {
      this.hash := hash;
      slots := new Slot<K, V>[0];
      n := 0;
      view := map[];
    }

    /** The value stored under `k`, if any. */
    method Find(k: K) returns (v: Option<V>)
      requires Valid()
      ensures v == if k in view then Some(view[k]) else None
    {
      if slots.Length == 0 {
        AbsentIff(slots[..], k);
        return None;
      }
      VacancyBelow(slots[..]);
      var i, d := Probe(slots, hash, k);
      AbsentIff(slots[..], k);
      v := if slots[i].Taken? then Some(slots[i].value) else None;
    }

    /** Double the table (from nothing to 64) at three quarters full. */
    method Reserve()
      requires Valid()
      modifies this
      ensures Valid() && view == old(view) && n == old(n)
      ensures n * 4 < slots.Length * 3
      ensures slots == old(slots) || fresh(slots)
    {
      if n * 4 >= slots.Length * 3 {
        CountSame(slots[..], (s: Slot<K, V>) => IsUsed(s), (s: Slot<K, V>) => IsTaken(s));
        CountBound(slots[..], (s: Slot<K, V>) => IsUsed(s));
        slots := Rehash(slots, hash, if slots.Length > 0 then slots.Length * 2 else 64);
      }
    }

    /** Store `v` under `k`, replacing any previous value. */
    method Put(k: K, v: V)
      requires Valid()
      modifies this, slots
      ensures Valid() && view == old(view)[k := v]
      ensures slots == old(slots) || fresh(slots)
    {
      hide WellFormed, View;
      Reserve();
      VacancyBelow(slots[..]);
      var i, d := Probe(slots, hash, k);
      ghost var before := slots[..];
      Stored(before, hash, k, v, d);
      if !slots[i].Taken? {
        n := n + 1;
      }
      slots[i] := Taken(k, v);
      view := view[k := v];
      assert slots[..] == before[i := Taken(k, v)];
    }
  }
}
