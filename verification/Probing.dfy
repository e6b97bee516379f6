/** Open addressing with linear probing, as every in-memory table of the server
    uses it. A table is a sequence of slots; a key's probe path starts at its
    hash modulo the capacity and walks forward, wrapping round. Nothing here
    depends on the hash function. */
module Probing {

  datatype Slot<+K, +V> =
    | Vacant               // never used: ends every probe path
    | Dead                 // a retired slot: probing walks past it
    | Taken(key: K, value: V)

  /** The slot `d` steps along the path that starts at `home`, wrapping once. */
  function At(home: nat, d: nat, cap: nat): (i: nat)
    requires home < cap && d < cap
    ensures i < cap
  {
    if home + d < cap then home + d else home + d - cap
  }

  /** How far along the path from `home` slot `i` lies. */
  function Dist(home: nat, i: nat, cap: nat): (d: nat)
    requires home < cap && i < cap
    ensures d < cap && At(home, d, cap) == i
  {
    if home <= i then i - home else i + cap - home
  }

  function Home<K>(hash: K -> nat, k: K, cap: nat): (h: nat)
    requires cap > 0
    ensures h < cap
  {
    hash(k) % cap
  }

  /** No slot on the path before step `d` is vacant. */
  ghost predicate PathFull<K, V>(slots: seq<Slot<K, V>>, home: nat, d: nat)
    requires home < |slots| && d <= |slots|
  {
    forall e :: 0 <= e < d ==> !slots[At(home, e, |slots|)].Vacant?
  }

  ghost predicate Distinct<K, V>(slots: seq<Slot<K, V>>)
  {
    forall i, j :: 0 <= i < j < |slots| && slots[i].Taken? && slots[j].Taken? ==> slots[i].key != slots[j].key
  }

  /** Every key is reachable: its path to its slot meets no vacant slot. */
  ghost predicate Reachable<K, V>(slots: seq<Slot<K, V>>, hash: K -> nat)
  {
    forall i :: 0 <= i < |slots| && slots[i].Taken? ==>
      var h := Home(hash, slots[i].key, |slots|);
      PathFull(slots, h, Dist(h, i, |slots|))
  }

  ghost predicate HasVacancy<K, V>(slots: seq<Slot<K, V>>) { exists i :: 0 <= i < |slots| && slots[i].Vacant? }

  ghost predicate WellFormed<K, V>(slots: seq<Slot<K, V>>, hash: K -> nat)
  {
    Distinct(slots) && Reachable(slots, hash)
  }

  /** The map a table stands for. */
  ghost function View<K, V>(slots: seq<Slot<K, V>>): (m: map<K, V>)
    requires Distinct(slots)
    ensures forall i :: 0 <= i < |slots| && slots[i].Taken? ==> slots[i].key in m && m[slots[i].key] == slots[i].value
    ensures forall k :: k in m ==> exists i :: 0 <= i < |slots| && slots[i].Taken? && slots[i].key == k
  {
    map i | 0 <= i < |slots| && slots[i].Taken? :: slots[i].key := slots[i].value
  }

  lemma ViewIs<K, V>(slots: seq<Slot<K, V>>, m: map<K, V>)
    requires Distinct(slots)
    requires forall i :: 0 <= i < |slots| && slots[i].Taken? ==> slots[i].key in m && m[slots[i].key] == slots[i].value
    requires forall k :: k in m ==> exists i :: 0 <= i < |slots| && slots[i].Taken? && slots[i].key == k
    ensures View(slots) == m
  {
  }

  ghost predicate Absent<K, V>(slots: seq<Slot<K, V>>, k: K)
  {
    forall i :: 0 <= i < |slots| && slots[i].Taken? ==> slots[i].key != k
  }

  lemma AbsentIff<K, V>(slots: seq<Slot<K, V>>, k: K)
    requires Distinct(slots)
    ensures Absent(slots, k) <==> k !in View(slots)
  {
  }

  ghost predicate NoMatchBefore<K, V>(slots: seq<Slot<K, V>>, home: nat, k: K, d: nat)
    requires home < |slots| && d <= |slots|
  {
    forall e :: 0 <= e < d ==> var s := slots[At(home, e, |slots|)]; !(s.Taken? && s.key == k)
  }

  /** A vacant slot before any match, or a full lap, means the key is absent. */
  lemma ProbeMiss<K, V>(slots: seq<Slot<K, V>>, hash: K -> nat, k: K, d: nat)
    requires WellFormed(slots, hash) && 0 < |slots| && d <= |slots|
    requires NoMatchBefore(slots, Home(hash, k, |slots|), k, d)
    requires d < |slots| ==> slots[At(Home(hash, k, |slots|), d, |slots|)].Vacant?
    ensures Absent(slots, k)
  {
  }

  /** Overwriting one slot without vacating any keeps every path full. */
  lemma PathsKept<K, V>(slots: seq<Slot<K, V>>, hash: K -> nat, i: nat, slot: Slot<K, V>)
    requires Reachable(slots, hash) && i < |slots| && !slot.Vacant?
    requires slot.Taken? ==>
               var h := Home(hash, slot.key, |slots|); PathFull(slots, h, Dist(h, i, |slots|))
    ensures Reachable(slots[i := slot], hash)
  {
  }

  lemma ViewPut<K, V>(slots: seq<Slot<K, V>>, i: nat, k: K, v: V)
    requires Distinct(slots) && i < |slots|
    requires if slots[i].Taken? then slots[i].key == k else Absent(slots, k)
    ensures Distinct(slots[i := Taken(k, v)])
    ensures View(slots[i := Taken(k, v)]) == View(slots)[k := v]
  {
    var slots' := slots[i := Taken(k, v)];
    assert forall j :: 0 <= j < |slots| && slots[j].Taken? && j != i ==> slots[j].key != k;
    assert Distinct(slots');
    var m := View(slots)[k := v];
    forall x | x in m
      ensures exists j :: 0 <= j < |slots'| && slots'[j].Taken? && slots'[j].key == x
    {
      if x == k {
        assert slots'[i].key == k;
      } else {
        var j :| 0 <= j < |slots| && slots[j].Taken? && slots[j].key == x;
        assert slots'[j].key == x;
      }
    }
    ViewIs(slots', m);
  }

  /** Taking a free slot on an absent key's path, before any vacant one. */
  lemma Place<K, V>(slots: seq<Slot<K, V>>, hash: K -> nat, k: K, v: V, d: nat)
    requires WellFormed(slots, hash) && d < |slots| && Absent(slots, k)
    requires var h := Home(hash, k, |slots|); PathFull(slots, h, d) && !slots[At(h, d, |slots|)].Taken?
    ensures var slots' := slots[At(Home(hash, k, |slots|), d, |slots|) := Taken(k, v)];
            WellFormed(slots', hash) && View(slots') == View(slots)[k := v]
  {
    var h := Home(hash, k, |slots|);
    var i := At(h, d, |slots|);
    assert Dist(h, i, |slots|) == d;
    PathsKept(slots, hash, i, Taken(k, v));
    ViewPut(slots, i, k, v);
  }

  /** A new value for a key that has a slot. */
  lemma Replace<K, V>(slots: seq<Slot<K, V>>, hash: K -> nat, i: nat, v: V)
    requires WellFormed(slots, hash) && i < |slots| && slots[i].Taken?
    ensures var slots' := slots[i := Taken(slots[i].key, v)];
            WellFormed(slots', hash) && View(slots') == View(slots)[slots[i].key := v]
  {
    PathsKept(slots, hash, i, Taken(slots[i].key, v));
    ViewPut(slots, i, slots[i].key, v);
  }

  lemma ViewDrop<K, V>(slots: seq<Slot<K, V>>, i: nat)
    requires Distinct(slots) && i < |slots| && slots[i].Taken?
    ensures Distinct(slots[i := Dead]) && View(slots[i := Dead]) == View(slots) - {slots[i].key}
  {
    var slots' := slots[i := Slot<K, V>.Dead];
    assert Distinct(slots');
    var m := View(slots) - {slots[i].key};
    forall x | x in m ensures exists j :: 0 <= j < |slots'| && slots'[j].Taken? && slots'[j].key == x {
      var j :| 0 <= j < |slots| && slots[j].Taken? && slots[j].key == x;
      assert slots'[j].key == x;
    }
    ViewIs(slots', m);
  }

  /** Retiring a slot leaves every other key reachable. */
  lemma Retire<K, V>(slots: seq<Slot<K, V>>, hash: K -> nat, i: nat)
    requires WellFormed(slots, hash) && i < |slots| && slots[i].Taken?
    ensures WellFormed(slots[i := Dead], hash) && View(slots[i := Dead]) == View(slots) - {slots[i].key}
  {
    PathsKept(slots, hash, i, Slot<K, V>.Dead);
    ViewDrop(slots, i);
  }
}
