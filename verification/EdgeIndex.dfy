/** The reverse relationship index: for each target, the sorted list of the
    sources pointing at it, in an open-addressed table with tombstones. */
module EdgeIndex {
  import opened Facts
  import opened Counting
  import opened Probing
  import opened ProbeTables

  const KIND_NONE := 0            // an edge stored without a kind
  const KIND_UNKNOWN := 65535     // a kind that could not be interned
  const MAX_KINDS := 4096

  /** One incoming edge: its source, and the interned id of its kind. */
  datatype Post = Post(src: nat, kind: nat)

  // ----- posting lists ------------------------------------------------------------

  predicate Before(a: Post, b: Post) { a.src < b.src || (a.src == b.src && a.kind < b.kind) }

  predicate Ascending(ps: seq<Post>) { forall i, j :: 0 <= i < j < |ps| ==> Before(ps[i], ps[j]) }

  predicate LowerBoundAt(ps: seq<Post>, key: Post, pos: nat)
  {
    && pos <= |ps|
    && (forall i :: 0 <= i < pos ==> Before(ps[i], key))
    && (forall i :: pos <= i < |ps| ==> !Before(ps[i], key))
  }

  method LowerBound(ps: seq<Post>, key: Post) returns (lo: nat)
    requires Ascending(ps)
    ensures LowerBoundAt(ps, key, lo)
    ensures key in ps <==> lo < |ps| && ps[lo] == key
  {
    lo := 0;
    var hi := |ps|;
    while lo < hi
      invariant 0 <= lo <= hi <= |ps|
      invariant forall i :: 0 <= i < lo ==> Before(ps[i], key)
      invariant forall i :: hi <= i < |ps| ==> !Before(ps[i], key)
    {
      var mid := lo + (hi - lo) / 2;
      if Before(ps[mid], key) {
        lo := mid + 1;
      } else {
        hi := mid;
      }
    }
    forall i | lo < i < |ps| ensures ps[i] != key {
      assert Before(ps[lo], ps[i]);
    }
  }

  /** Postings with kind id `k`. */
  ghost function KindOf(ps: seq<Post>, k: nat): nat
  {
    if ps == [] then 0 else KindOf(ps[..|ps| - 1], k) + (if ps[|ps| - 1].kind == k then 1 else 0)
  }

  lemma {:induction false} KindConcat(a: seq<Post>, b: seq<Post>, k: nat)
    ensures KindOf(a + b, k) == KindOf(a, k) + KindOf(b, k)
  {
    if b == [] {
      assert a + b == a;
    } else {
      assert (a + b)[..|a + b| - 1] == a + b[..|b| - 1];
      KindConcat(a, b[..|b| - 1], k);
    }
  }

  lemma {:induction false} KindAbsent(ps: seq<Post>, k: nat)
    requires forall i :: 0 <= i < |ps| ==> ps[i].kind != k
    ensures KindOf(ps, k) == 0
  {
    if ps != [] {
      KindAbsent(ps[..|ps| - 1], k);
    }
  }

  function Inserted(ps: seq<Post>, p: Post, pos: nat): seq<Post>
    requires pos <= |ps|
  {
    ps[..pos] + [p] + ps[pos..]
  }

  function Removed(ps: seq<Post>, pos: nat): seq<Post>
    requires pos < |ps|
  {
    ps[..pos] + ps[pos + 1..]
  }

  /** The list stays strictly ascending, and gains exactly `p`. */
  lemma InsertPost(ps: seq<Post>, p: Post, pos: nat)
    requires Ascending(ps) && LowerBoundAt(ps, p, pos) && p !in ps
    ensures Ascending(Inserted(ps, p, pos))
    ensures forall q :: q in Inserted(ps, p, pos) <==> q in ps || q == p
  {
  }

  lemma InsertKinds(ps: seq<Post>, p: Post, pos: nat, k: nat)
    requires pos <= |ps|
    ensures KindOf(Inserted(ps, p, pos), k) == KindOf(ps, k) + (if p.kind == k then 1 else 0)
  {
    assert ps == ps[..pos] + ps[pos..];
    KindConcat(ps[..pos] + [p], ps[pos..], k);
    KindConcat(ps[..pos], ps[pos..], k);
    KindConcat(ps[..pos], [p], k);
    assert [p][..0] == [];
  }

  lemma RemoveKinds(ps: seq<Post>, pos: nat, k: nat)
    requires pos < |ps|
    ensures KindOf(ps, k) == KindOf(Removed(ps, pos), k) + (if ps[pos].kind == k then 1 else 0)
  {
    assert ps == Inserted(Removed(ps, pos), ps[pos], pos);
    InsertKinds(Removed(ps, pos), ps[pos], pos, k);
  }

  // ----- kinds -----------------------------------------------------------------------

  predicate Internable(kind: string) { 0 < |kind| <= MAX_KIND_LEN }

  /** The id the table gives a kind: 0 for none, one past its position, or unknown. */
  function KindId(names: seq<string>, kind: string): nat
  {
    if kind == "" then KIND_NONE
    else if kind in names then NameIndex(names, kind) + 1
    else KIND_UNKNOWN
  }

  function NameIndex(names: seq<string>, kind: string): (i: nat)
    requires kind in names
    ensures i < |names| && names[i] == kind
  {
    if names[0] == kind then 0 else NameIndex(names[1..], kind) + 1
  }

  ghost predicate NamesOk(names: seq<string>)
  {
    && |names| <= MAX_KINDS
    && (forall i, j :: 0 <= i < j < |names| ==> names[i] != names[j])
    && (forall i :: 0 <= i < |names| ==> Internable(names[i]))
  }

  predicate KnownKind(k: nat, n: nat) { k == KIND_NONE || k == KIND_UNKNOWN || 1 <= k <= n }

  // ----- the table's invariants --------------------------------------------------------

  type Slots = seq<Slot<nat, seq<Post>>>

  ghost predicate TableOk(slots: Slots, hash: nat -> nat, used: nat, live: nat)
  {
    && WellFormed(slots, hash)
    && used == Count(slots, (s: Slot<nat, seq<Post>>) => IsUsed(s))
    && live == Count(slots, (s: Slot<nat, seq<Post>>) => IsTaken(s))
    && (|slots| == 0 || |slots| >= 64)
    && (|slots| > 0 ==> used * 4 < |slots| * 3)
  }

  ghost predicate PostsOk(slots: Slots, nkinds: nat)
  {
    forall i :: 0 <= i < |slots| && slots[i].Taken? ==> ListOk(slots[i].value, nkinds)
  }

  ghost predicate ListOk(ps: seq<Post>, nkinds: nat)
  {
    ps != [] && Ascending(ps) && forall j :: 0 <= j < |ps| ==> KnownKind(ps[j].kind, nkinds)
  }

  ghost function Fanin(): (nat, seq<Post>) -> nat { (t, ps) => |ps| }

  ghost function KindWeight(k: nat): (nat, seq<Post>) -> nat { (t, ps) => KindOf(ps, k) }

  predicate InUse(u: nat) { u > 0 }

  /** Every counter is the true count. */
  ghost predicate CountsOk(slots: Slots, edges: nat, uses: seq<nat>, kindsLive: nat)
  {
    && edges == SlotSum(slots, Fanin())
    && (forall i :: 0 <= i < |uses| ==> uses[i] == SlotSum(slots, KindWeight(i + 1)))
    && kindsLive == Count(uses, InUse)
  }

  lemma {:induction false} KindUnused(slots: Slots, n: nat, k: nat)
    requires PostsOk(slots, n) && n < k < KIND_UNKNOWN
    ensures SlotSum(slots, KindWeight(k)) == 0
  {
    if slots != [] {
      var last := slots[|slots| - 1];
      KindUnused(slots[..|slots| - 1], n, k);
      if last.Taken? {
        assert ListOk(last.value, n);
        KindAbsent(last.value, k);
      }
    }
  }

  ghost function PostsFor(m: map<nat, seq<Post>>, d: nat): seq<Post> { if d in m then m[d] else [] }

  /** Only `d`'s list changed, and by exactly the posting `p`. */
  ghost predicate Gains(m: map<nat, seq<Post>>, m': map<nat, seq<Post>>, d: nat, p: Post)
  {
    && (forall t :: t != d ==> PostsFor(m', t) == PostsFor(m, t))
    && (forall q :: q in PostsFor(m', d) <==> q in PostsFor(m, d) || q == p)
  }

  ghost predicate Loses(m: map<nat, seq<Post>>, m': map<nat, seq<Post>>, d: nat, p: Post)
  {
    && (forall t :: t != d ==> PostsFor(m', t) == PostsFor(m, t))
    && (forall q :: q in PostsFor(m', d) <==> q in PostsFor(m, d) && q != p)
  }

  /** Find `k`'s slot, or the first free one on its path: a tombstone if the probe
      passed one, else the vacant slot that ended it. */
  method FreeOrOwn(a: array<Slot<nat, seq<Post>>>, hash: nat -> nat, k: nat) returns (i: nat, ghost d: nat)
    requires a.Length > 0 && WellFormed(a[..], hash) && HasVacancy(a[..])
    ensures d < a.Length && i == At(Home(hash, k, a.Length), d, a.Length)
    ensures PathFull(a[..], Home(hash, k, a.Length), d)
    ensures if a[i].Taken? then a[i].key == k else Absent(a[..], k)
  {
    hide WellFormed;
    var home := Home(hash, k, a.Length);
    ghost var hole :| 0 <= hole < a.Length && a[..][hole].Vacant?;
    ghost var last := Dist(home, hole, a.Length);
    var reuse: Option<nat> := None;
    ghost var dr := 0;
    var probe := 0;
    while true
      invariant 0 <= probe <= last
      invariant PathFull(a[..], home, probe) && NoMatchBefore(a[..], home, k, probe)
      invariant reuse.Some? ==> dr < probe && reuse.value == At(home, dr, a.Length) && a[reuse.value].Dead?
      decreases last - probe
    {
      i, d := At(home, probe, a.Length), probe;
      if a[i].Taken? {
        if a[i].key == k {
          return;
        }
      } else if a[i].Dead? {
        if reuse.None? {
          reuse, dr := Some(i), probe;
        }
      } else {
        ProbeMiss(a[..], hash, k, probe);
        if reuse.Some? {
          i, d := reuse.value, dr;
        }
        return;
      }
      assert probe != last;
      probe := probe + 1;
    }
  }

  // ----- effects on the table, on values -------------------------------------------------

  /** Writing a posting list at the slot its probe chose. */
  lemma WriteList(slots: Slots, hash: nat -> nat, used: nat, live: nat, nkinds: nat, dst: nat, d: nat, ps: seq<Post>)
    requires TableOk(slots, hash, used, live) && PostsOk(slots, nkinds) && ListOk(ps, nkinds)
    requires d < |slots| && PathFull(slots, Home(hash, dst, |slots|), d)
    requires var s := slots[At(Home(hash, dst, |slots|), d, |slots|)];
             && (if s.Taken? then s.key == dst else Absent(slots, dst))
             && (s.Vacant? ==> (used + 1) * 4 < |slots| * 3)
    ensures var i := At(Home(hash, dst, |slots|), d, |slots|);
            var slots' := slots[i := Taken(dst, ps)];
            && TableOk(slots', hash, used + (if slots[i].Vacant? then 1 else 0),
                live + (if slots[i].Taken? then 0 else 1))
            && PostsOk(slots', nkinds)
            && View(slots') == View(slots)[dst := ps]
            && PostsFor(View(slots), dst) == (if slots[i].Taken? then slots[i].value else [])
  {
    hide WellFormed, ListOk;
    var i := At(Home(hash, dst, |slots|), d, |slots|);
    WellFormedDistinct(slots, hash);
    Stored(slots, hash, dst, ps, d);
    CountUpdate(slots, i, Taken(dst, ps), (s: Slot<nat, seq<Post>>) => IsTaken(s));
  }

  /** Retiring a slot whose last edge went away. */
  lemma RetireList(slots: Slots, hash: nat -> nat, used: nat, live: nat, nkinds: nat, i: nat)
    requires TableOk(slots, hash, used, live) && PostsOk(slots, nkinds) && i < |slots| && slots[i].Taken?
    ensures var slots' := slots[i := Dead];
            live > 0 && TableOk(slots', hash, used, live - 1) && PostsOk(slots', nkinds)
                && View(slots') == View(slots) - {slots[i].key}
  {
    hide WellFormed, ListOk;
    WellFormedDistinct(slots, hash);
    Retire(slots, hash, i);
    CountUpdate(slots, i, Slot<nat, seq<Post>>.Dead, (s: Slot<nat, seq<Post>>) => IsTaken(s));
    CountUpdate(slots, i, Slot<nat, seq<Post>>.Dead, (s: Slot<nat, seq<Post>>) => IsUsed(s));
  }

  class Index {
    const hash: nat -> nat
    var targets: array<Slot<nat, seq<Post>>>
    var tgtLive: nat     // targets with at least one edge
    var tgtUsed: nat     // live + dead slots
    var edges: nat       // total postings
    var names: seq<string>  // interned kinds; never shrinks
    var uses: seq<nat>      // postings carrying each
    var kindsLive: nat      // kinds with at least one posting

    ghost predicate Valid()
      reads this, targets
    {
      && TableOk(targets[..], hash, tgtUsed, tgtLive)
      && PostsOk(targets[..], |names|)
      && CountsOk(targets[..], edges, uses, kindsLive)
      && NamesOk(names) && |uses| == |names|
    }

    /** The map from target to posting list that the table stands for. */
    ghost function Map(): map<nat, seq<Post>>
      requires Valid()
      reads this, targets
    {
      View(targets[..])
    }

    constructor (hash: nat -> nat)
      ensures Valid() && fresh(targets) && Map() == map[] && names == [] && this.hash == hash
    {
      this.hash := hash;
      targets := new Slot<nat, seq<Post>>[0];
      tgtLive, tgtUsed, edges, names, uses, kindsLive := 0, 0, 0, [], [], 0;
    }

    /** kind_lookup: the chain walk, without minting. */
    method KindLookup(kind: string) returns (k: nat)
      ensures k == KindId(names, kind)
    {
      if kind == "" {
        return KIND_NONE;
      }
      assert names[0..] == names;
      for i := 0 to |names|
        invariant kind !in names[..i]
        invariant kind in names <==> kind in names[i..]
        invariant kind in names ==> NameIndex(names, kind) == i + NameIndex(names[i..], kind)
      {
        assert names[i..] == [names[i]] + names[i + 1..] && names[i..][1..] == names[i + 1..];
        assert names[..i + 1] == names[..i] + [names[i]];
        if names[i] == kind {
          return i + 1;
        }
      }
      return KIND_UNKNOWN;
    }

    /** kind_intern: the kind's id, minting one while there is room. */
    method KindIntern(kind: string) returns (k: nat)
      requires Valid()
      modifies this`names, this`uses
      ensures Valid() && Map() == old(Map()) && KnownKind(k, |names|) && k == KindId(names, kind)
      ensures names == if Internable(kind) && kind !in old(names) && |old(names)| < MAX_KINDS then old(names) + [kind]
                else old(names)
    {
      hide TableOk, PostsOk, CountsOk, View;
      if kind == "" {
        return KIND_NONE;
      }
      k := KindLookup(kind);
      if k != KIND_UNKNOWN || |kind| > MAX_KIND_LEN || |names| >= MAX_KINDS {
        return;
      }
      k := |names| + 1;
      NewKind(targets[..], |names|, edges, uses, kindsLive);
      NewNameId(names, kind);
      names := names + [kind];
      uses := uses + [0];
    }

    /** kind_use: a posting carrying `k` was added or dropped. */
    method KindUse(k: nat, up: bool)
      requires |uses| == |names| && |names| <= MAX_KINDS && kindsLive == Count(uses, InUse)
      requires !up && 1 <= k <= |uses| ==> uses[k - 1] > 0
      modifies this`uses, this`kindsLive
      ensures |uses| == |old(uses)| && kindsLive == Count(uses, InUse)
      ensures forall i :: 0 <= i < |uses| ==>
                uses[i] == if i + 1 == k then (if up then old(uses)[i] + 1 else old(uses)[i] - 1) else old(uses)[i]
    {
      if k == KIND_NONE || k == KIND_UNKNOWN || k > |names| {
        return;
      }
      var u := uses[k - 1];
      CountUpdate(uses, k - 1, if up then u + 1 else u - 1, InUse);
      if up {
        if u == 0 { kindsLive := kindsLive + 1; }
        uses := uses[k - 1 := u + 1];
      } else {
        if u == 1 { kindsLive := kindsLive - 1; }
        uses := uses[k - 1 := u - 1];
      }
    }

    /** tgt_find: the slot of a target, or none. */
    method Find(dst: nat) returns (at: Option<nat>)
      requires Valid()
      ensures at.Some? ==> at.value < targets.Length && targets[at.value].Taken? && targets[at.value].key == dst
      ensures at.Some? ==> dst in Map() && Map()[dst] == targets[at.value].value
      ensures at.None? ==> dst !in Map()
    {
      hide PostsOk, CountsOk, NamesOk;
      AbsentIff(targets[..], dst);
      if targets.Length == 0 {
        return None;
      }
      VacancyBelow(targets[..]);
      var i, _ := Probe(targets, hash, dst);
      return if targets[i].Taken? then Some(i) else None;
    }

    /** Rehash into twice the slots (64 to begin with) when the next insert would
        reach three quarters. The rehash is also what drops the tombstones. */
    method Reserve()
      requires Valid()
      modifies this`targets, this`tgtUsed
      ensures Valid() && Map() == old(Map())
      ensures (tgtUsed + 1) * 4 < targets.Length * 3
      ensures targets == old(targets) || fresh(targets)
    {
      hide CountsOk, PostsOk, WellFormed;
      if targets.Length == 0 || (tgtUsed + 1) * 4 >= targets.Length * 3 {
        ghost var before := targets[..];
        LiveWithin(before, hash, tgtUsed, tgtLive);
        var ncap := if targets.Length == 0 then 64 else targets.Length * 2;
        targets := Rehash(targets, hash, ncap);
        tgtUsed := tgtLive;
        Rehashed(before, targets[..], hash, tgtLive, |names|, edges, uses, kindsLive);
      }
    }

    /** edge_index_add: idempotent, and otherwise one more posting for `dst`. */
    method Add(src: nat, dst: nat, kind: string)
      requires Valid()
      modifies this, targets
      ensures Valid() && (targets == old(targets) || fresh(targets))
      ensures names == if Internable(kind) && kind !in old(names) && |old(names)| < MAX_KINDS then old(names) + [kind]
                else old(names)
      ensures var p := Post(src, KindId(names, kind));
              Gains(old(Map()), Map(), dst, p) && edges == old(edges)
                  + (if p in PostsFor(old(Map()), dst) then 0 else 1)
    {
      hide TableOk, PostsOk, CountsOk, NamesOk, Gains;
      ghost var m := Map();
      var k := KindIntern(kind);
      Reserve();
      Put(Post(src, k), dst);
    }

    /** The posting side of an add, once the kind has its id and there is room. */
    method Put(p: Post, dst: nat)
      requires Valid() && KnownKind(p.kind, |names|) && (tgtUsed + 1) * 4 < targets.Length * 3
      modifies this`tgtLive, this`tgtUsed, this`edges, this`uses, this`kindsLive, targets
      ensures Valid() && Gains(old(Map()), Map(), dst, p)
      ensures edges == old(edges) + (if p in PostsFor(old(Map()), dst) then 0 else 1)
    {
      hide TableOk, PostsOk, CountsOk, NamesOk, WellFormed, PathFull, Absent, Distinct, Gains, Inserted, ListOk, View,
          PostsFor, LowerBoundAt, Ascending, KnownKind;
      ProbeReady(targets[..], hash, tgtUsed, tgtLive);
      var i, d := FreeOrOwn(targets, hash, dst);
      ghost var before := targets[..];
      var ps := if targets[i].Taken? then targets[i].value else [];
      OwnList(before, hash, |names|, dst, i);
      EmptyAscends();
      var pos := LowerBound(ps, p);
      if pos < |ps| && ps[pos] == p {
        AlreadyGained(before, dst, p);
        return;
      }
      Splice(dst, i, d, ps, p, pos);
    }

    /** Shift the list's tail right and write the posting; count it. */
    method Splice(dst: nat, i: nat, ghost d: nat, ps: seq<Post>, p: Post, pos: nat)
      requires Valid() && KnownKind(p.kind, |names|) && (tgtUsed + 1) * 4 < targets.Length * 3
      requires d < targets.Length && i == At(Home(hash, dst, targets.Length), d, targets.Length)
      requires PathFull(targets[..], Home(hash, dst, targets.Length), d)
      requires if targets[i].Taken? then targets[i].key == dst else Absent(targets[..], dst)
      requires ps == (if targets[i].Taken? then targets[i].value else []) && pos <= |ps| && LowerBoundAt(ps, p, pos)
               && p !in ps
      modifies this`tgtLive, this`tgtUsed, this`edges, this`uses, this`kindsLive, targets
      ensures Valid() && Gains(old(Map()), Map(), dst, p) && edges == old(edges) + 1
    {
      hide TableOk, PostsOk, CountsOk, NamesOk, WellFormed, PathFull, Absent, Distinct, Gains, Inserted, View,
          LowerBoundAt, KnownKind;
      ghost var before := targets[..];
      ghost var after := before[i := Taken(dst, Inserted(ps, p, pos))];
      PutList(before, hash, tgtUsed, tgtLive, |names|, dst, i, d, ps, p, pos, after);
      CountsLive(before, edges, uses, kindsLive);
      NamesShort(names);
      if targets[i].Vacant? { tgtUsed := tgtUsed + 1; }
      if !targets[i].Taken? { tgtLive := tgtLive + 1; }
      targets[i] := Taken(dst, Inserted(ps, p, pos));
      edges := edges + 1;
      KindUse(p.kind, true);
      assert targets[..] == after;
      CountsInserted(before, i, dst, ps, p, pos, old(edges), old(uses), old(kindsLive), uses, kindsLive);
    }

    /** edge_index_remove: drop the posting an add of this edge would have written. */
    method Remove(src: nat, dst: nat, kind: string)
      requires Valid()
      modifies this`tgtLive, this`edges, this`uses, this`kindsLive, targets
      ensures Valid() && names == old(names)
      ensures var p := Post(src, KindId(names, kind));
              Loses(old(Map()), Map(), dst, p) && edges
                  == old(edges) - (if p in PostsFor(old(Map()), dst) then 1 else 0)
    {
      hide TableOk, PostsOk, CountsOk, NamesOk, ListOk, View, Ascending, LowerBoundAt;
      var at := Find(dst);
      if at.None? {
        return;
      }
      var k := KindLookup(kind);
      var i := at.value;
      var ps := targets[i].value;
      SlotList(targets[..], |names|, i);
      var pos := LowerBound(ps, Post(src, k));
      if pos < |ps| && ps[pos] == Post(src, k) {
        Cut(dst, i, pos);
      }
    }

    /** Shift the list's tail left, uncount the posting, retire an emptied slot. */
    method Cut(dst: nat, i: nat, pos: nat)
      requires Valid() && i < targets.Length && targets[i].Taken? && targets[i].key == dst && pos < |targets[i].value|
      modifies this`tgtLive, this`edges, this`uses, this`kindsLive, targets
      ensures Valid() && Loses(old(Map()), Map(), dst, old(targets[i].value[pos])) && edges == old(edges) - 1
    {
      hide TableOk, PostsOk, CountsOk, NamesOk, WellFormed, Distinct, Loses, Removed, View;
      ghost var before := targets[..];
      var ps := targets[i].value;
      var ps' := Removed(ps, pos);
      ghost var after := before[i := if ps' == [] then Dead else Taken(dst, ps')];
      CutList(before, hash, tgtUsed, tgtLive, |names|, i, pos, after);
      CountsLive(before, edges, uses, kindsLive);
      NamesShort(names);
      CountedOnce(before, i, pos, edges, uses, kindsLive);
      edges := edges - 1;
      KindUse(ps[pos].kind, false);
      if ps' == [] {
        targets[i] := Dead;
        tgtLive := tgtLive - 1;
      } else {
        targets[i] := Taken(dst, ps');
      }
      assert targets[..] == after;
      CountsRemoved(before, i, pos, after, old(edges), old(uses), old(kindsLive), uses, kindsLive);
    }

    /** edge_index_remove_target: drop every edge pointing at `dst`. */
    method RemoveTarget(dst: nat)
      requires Valid()
      modifies this`tgtLive, this`edges, this`uses, this`kindsLive, targets
      ensures Valid() && names == old(names) && Map() == old(Map()) - {dst}
      ensures edges == old(edges) - |PostsFor(old(Map()), dst)|
    {
      hide TableOk, PostsOk, CountsOk, NamesOk, WellFormed, View;
      var at := Find(dst);
      if at.None? {
        return;
      }
      var i := at.value;
      ghost var before := targets[..];
      var ps := targets[i].value;
      TableDistinct(before, hash, tgtUsed, tgtLive);
      CountsCover(before, i, edges, uses, kindsLive);
      UncountAll(ps);
      edges := edges - |ps|;
      RetireList(before, hash, tgtUsed, tgtLive, |names|, i);
      targets[i] := Dead;
      tgtLive := tgtLive - 1;
      assert targets[..] == before[i := Slot<nat, seq<Post>>.Dead];
      TableDistinct(targets[..], hash, tgtUsed, tgtLive);
      CountsDropped(before, i, old(edges), old(uses), old(kindsLive), uses, kindsLive);
    }

    /** kind_use(-1) for every posting of a list. */
    method UncountAll(ps: seq<Post>)
      requires |uses| == |names| && NamesOk(names) && kindsLive == Count(uses, InUse)
      requires forall i :: 0 <= i < |uses| ==> uses[i] >= KindOf(ps, i + 1)
      modifies this`uses, this`kindsLive
      ensures |uses| == |names| && kindsLive == Count(uses, InUse)
      ensures forall i :: 0 <= i < |uses| ==> uses[i] + KindOf(ps, i + 1) == old(uses)[i]
    {
      hide NamesOk;
      NamesShort(names);
      assert ps[..|ps|] == ps;
      for j := 0 to |ps|
        invariant |uses| == |names| && kindsLive == Count(uses, InUse)
        invariant forall i :: 0 <= i < |uses| ==> uses[i] + KindOf(ps[..j], i + 1) == old(uses)[i]
      {
        forall k ensures KindOf(ps[..j + 1], k) == KindOf(ps[..j], k) + (if ps[j].kind == k then 1 else 0) {
          assert ps[..j + 1][..j] == ps[..j];
        }
        KindPrefix(ps, j + 1, ps[j].kind);
        KindUse(ps[j].kind, false);
      }
    }
  }

  lemma KindPrefix(ps: seq<Post>, j: nat, k: nat)
    requires j <= |ps|
    ensures KindOf(ps[..j], k) <= KindOf(ps, k)
  {
    KindConcat(ps[..j], ps[j..], k);
    assert ps == ps[..j] + ps[j..];
  }

  lemma CountsCover(slots: Slots, i: nat, edges: nat, uses: seq<nat>, kindsLive: nat)
    requires CountsOk(slots, edges, uses, kindsLive) && i < |slots| && slots[i].Taken?
    ensures edges >= |slots[i].value| && kindsLive == Count(uses, InUse)
    ensures forall j :: 0 <= j < |uses| ==> uses[j] >= KindOf(slots[i].value, j + 1)
  {
    SumAtLeast(slots, i, Fanin());
    forall j | 0 <= j < |uses| ensures uses[j] >= KindOf(slots[i].value, j + 1) {
      SumAtLeast(slots, i, KindWeight(j + 1));
    }
  }

  lemma CountsDropped(slots: Slots, i: nat, edges: nat, uses: seq<nat>, kindsLive: nat, uses': seq<nat>,
                      kindsLive': nat)
    requires i < |slots| && slots[i].Taken? && CountsOk(slots, edges, uses, kindsLive) && edges >= |slots[i].value|
    requires |uses'| == |uses| && kindsLive' == Count(uses', InUse)
    requires forall j :: 0 <= j < |uses| ==> uses'[j] + KindOf(slots[i].value, j + 1) == uses[j]
    ensures CountsOk(slots[i := Slot<nat, seq<Post>>.Dead], edges - |slots[i].value|, uses', kindsLive')
  {
    hide SlotSum;
    var dead := Slot<nat, seq<Post>>.Dead;
    SumUpdate(slots, i, dead, Fanin());
    forall j | 0 <= j < |uses| ensures uses'[j] == SlotSum(slots[i := dead], KindWeight(j + 1)) {
      SumUpdate(slots, i, dead, KindWeight(j + 1));
    }
  }

  lemma SlotList(slots: Slots, nkinds: nat, i: nat)
    requires PostsOk(slots, nkinds) && i < |slots| && slots[i].Taken?
    ensures Ascending(slots[i].value)
  {
  }

  lemma LosesByWrite(m: map<nat, seq<Post>>, dst: nat, ps': seq<Post>, p: Post)
    requires forall q :: q in ps' <==> q in PostsFor(m, dst) && q != p
    ensures Loses(m, m[dst := ps'], dst, p)
    ensures ps' == [] ==> Loses(m, m - {dst}, dst, p)
  {
  }

  /** Replacing a list in place. */
  lemma ReplaceList(slots: Slots, hash: nat -> nat, used: nat, live: nat, nkinds: nat, i: nat, ps: seq<Post>)
    requires TableOk(slots, hash, used, live) && PostsOk(slots, nkinds) && i < |slots| && slots[i].Taken?
             && ListOk(ps, nkinds)
    ensures var slots' := slots[i := Taken(slots[i].key, ps)];
            TableOk(slots', hash, used, live) && PostsOk(slots', nkinds)
                && View(slots') == View(slots)[slots[i].key := ps]
  {
    hide WellFormed, ListOk;
    WellFormedDistinct(slots, hash);
    Replace(slots, hash, i, ps);
    CountUpdate(slots, i, Taken(slots[i].key, ps), (s: Slot<nat, seq<Post>>) => IsTaken(s));
    CountUpdate(slots, i, Taken(slots[i].key, ps), (s: Slot<nat, seq<Post>>) => IsUsed(s));
  }

  lemma RemovedOk(slots: Slots, nkinds: nat, i: nat, pos: nat)
    requires PostsOk(slots, nkinds) && i < |slots| && slots[i].Taken? && pos < |slots[i].value|
    ensures var ps' := Removed(slots[i].value, pos); ps' == [] || ListOk(ps', nkinds)
    ensures forall q :: q in Removed(slots[i].value, pos) <==> q in slots[i].value && q != slots[i].value[pos]
  {
  }

  /** A list with its posting at `pos` taken out, or no list at all. */
  lemma CutList(slots: Slots, hash: nat -> nat, used: nat, live: nat, nkinds: nat, i: nat, pos: nat, slots': Slots)
    requires TableOk(slots, hash, used, live) && PostsOk(slots, nkinds)
    requires i < |slots| && slots[i].Taken? && pos < |slots[i].value|
    requires var ps' := Removed(slots[i].value, pos);
             slots' == slots[i := if ps' == [] then Dead else Taken(slots[i].key, ps')]
    ensures Distinct(slots) && Distinct(slots') && PostsOk(slots', nkinds)
    ensures if Removed(slots[i].value, pos) == [] then live > 0 && TableOk(slots', hash, used, live - 1)
              else TableOk(slots', hash, used, live)
    ensures Loses(View(slots), View(slots'), slots[i].key, slots[i].value[pos])
  {
    hide TableOk, PostsOk, ListOk, Distinct, Loses, View, Removed;
    var ps' := Removed(slots[i].value, pos);
    TableDistinct(slots, hash, used, live);
    RemovedOk(slots, nkinds, i, pos);
    SlotInView(slots, i);
    LosesByWrite(View(slots), slots[i].key, ps', slots[i].value[pos]);
    if ps' == [] {
      RetireList(slots, hash, used, live, nkinds, i);
      TableDistinct(slots', hash, used, live - 1);
    } else {
      ReplaceList(slots, hash, used, live, nkinds, i, ps');
      TableDistinct(slots', hash, used, live);
    }
  }

  lemma SlotInView(slots: Slots, i: nat)
    requires Distinct(slots) && i < |slots| && slots[i].Taken?
    ensures slots[i].key in View(slots) && View(slots)[slots[i].key] == slots[i].value
  {
  }

  lemma SumAtLeast(slots: Slots, i: nat, w: (nat, seq<Post>) -> nat)
    requires i < |slots|
    ensures SlotSum(slots, w) >= SlotWeight(slots[i], w)
  {
  }

  lemma CountedOnce(slots: Slots, i: nat, pos: nat, edges: nat, uses: seq<nat>, kindsLive: nat)
    requires CountsOk(slots, edges, uses, kindsLive) && i < |slots| && slots[i].Taken? && pos < |slots[i].value|
    ensures edges > 0
    ensures var k := slots[i].value[pos].kind; 1 <= k <= |uses| ==> uses[k - 1] > 0
  {
    var k := slots[i].value[pos].kind;
    SumAtLeast(slots, i, Fanin());
    SumAtLeast(slots, i, KindWeight(k));
    RemoveKinds(slots[i].value, pos, k);
  }

  lemma CountsRemoved(slots: Slots, i: nat, pos: nat, slots': Slots,
                      edges: nat, uses: seq<nat>, kindsLive: nat, uses': seq<nat>, kindsLive': nat)
    requires i < |slots| && slots[i].Taken? && pos < |slots[i].value|
    requires var ps' := Removed(slots[i].value, pos);
             slots' == slots[i := if ps' == [] then Dead else Taken(slots[i].key, ps')]
    requires CountsOk(slots, edges, uses, kindsLive) && edges > 0
    requires |uses'| == |uses| && kindsLive' == Count(uses', InUse)
    requires forall j :: 0 <= j < |uses| ==> uses'[j] + (if j + 1 == slots[i].value[pos].kind then 1 else 0) == uses[j]
    ensures CountsOk(slots', edges - 1, uses', kindsLive')
  {
    hide SlotSum;
    SumUpdate(slots, i, slots'[i], Fanin());
    forall j | 0 <= j < |uses| ensures uses'[j] == SlotSum(slots', KindWeight(j + 1)) {
      SumUpdate(slots, i, slots'[i], KindWeight(j + 1));
      RemoveKinds(slots[i].value, pos, j + 1);
    }
  }

  lemma ProbeReady(slots: Slots, hash: nat -> nat, used: nat, live: nat)
    requires TableOk(slots, hash, used, live) && |slots| > 0
    ensures WellFormed(slots, hash) && Distinct(slots) && HasVacancy(slots)
  {
    VacancyBelow(slots);
  }

  lemma EmptyAscends()
    ensures Ascending([])
  {
  }

  lemma NamesShort(names: seq<string>)
    requires NamesOk(names)
    ensures |names| <= MAX_KINDS
  {
  }

  lemma CountsLive(slots: Slots, edges: nat, uses: seq<nat>, kindsLive: nat)
    requires CountsOk(slots, edges, uses, kindsLive)
    ensures kindsLive == Count(uses, InUse)
  {
  }

  lemma AlreadyGained(slots: Slots, dst: nat, p: Post)
    requires Distinct(slots) && p in PostsFor(View(slots), dst)
    ensures Gains(View(slots), View(slots), dst, p)
  {
  }

  lemma GainsByWrite(m: map<nat, seq<Post>>, dst: nat, ps': seq<Post>, p: Post)
    requires forall q :: q in ps' <==> q in PostsFor(m, dst) || q == p
    ensures Gains(m, m[dst := ps'], dst, p)
  {
  }

  /** Inserting a new posting at its place in the list of the slot a probe chose. */
  lemma PutList(slots: Slots, hash: nat -> nat, used: nat, live: nat, nkinds: nat, dst: nat, i: nat, d: nat,
                ps: seq<Post>, p: Post, pos: nat, slots': Slots)
    requires TableOk(slots, hash, used, live) && PostsOk(slots, nkinds) && KnownKind(p.kind, nkinds)
    requires d < |slots| && i == At(Home(hash, dst, |slots|), d, |slots|)
    requires PathFull(slots, Home(hash, dst, |slots|), d) && (used + 1) * 4 < |slots| * 3
    requires if slots[i].Taken? then slots[i].key == dst else Absent(slots, dst)
    requires ps == (if slots[i].Taken? then slots[i].value else [])
    requires LowerBoundAt(ps, p, pos) && pos <= |ps| && p !in ps
             && slots' == slots[i := Taken(dst, Inserted(ps, p, pos))]
    ensures Distinct(slots) && Distinct(slots')
    ensures TableOk(slots', hash, used + (if slots[i].Vacant? then 1 else 0), live + (if slots[i].Taken? then 0 else 1))
    ensures PostsOk(slots', nkinds) && Gains(View(slots), View(slots'), dst, p)
  {
    hide TableOk, PostsOk, WellFormed, PathFull, Absent, Distinct, Inserted, ListOk, View, Gains, PostsFor,
        LowerBoundAt, Ascending;
    ProbeReady(slots, hash, used, live);
    OwnList(slots, hash, nkinds, dst, i);
    EmptyAscends();
    InsertPost(ps, p, pos);
    InsertedOk(ps, p, pos, nkinds);
    WriteList(slots, hash, used, live, nkinds, dst, d, Inserted(ps, p, pos));
    TableDistinct(slots', hash, used + (if slots[i].Vacant? then 1 else 0), live + (if slots[i].Taken? then 0 else 1));
    GainsByWrite(View(slots), dst, Inserted(ps, p, pos), p);
  }

  lemma TableDistinct(slots: Slots, hash: nat -> nat, used: nat, live: nat)
    requires TableOk(slots, hash, used, live)
    ensures Distinct(slots)
  {
  }

  /** What the slot a probe chose says about the target's list. */
  lemma OwnList(slots: Slots, hash: nat -> nat, nkinds: nat, dst: nat, i: nat)
    requires WellFormed(slots, hash) && PostsOk(slots, nkinds) && i < |slots|
    requires if slots[i].Taken? then slots[i].key == dst else Absent(slots, dst)
    ensures Distinct(slots)
    ensures PostsFor(View(slots), dst) == (if slots[i].Taken? then slots[i].value else [])
    ensures slots[i].Taken? ==> ListOk(slots[i].value, nkinds) && Ascending(slots[i].value)
  {
  }

  lemma InsertedOk(ps: seq<Post>, p: Post, pos: nat, nkinds: nat)
    requires pos <= |ps| && KnownKind(p.kind, nkinds) && Ascending(Inserted(ps, p, pos))
    requires ps == [] || ListOk(ps, nkinds)
    ensures ListOk(Inserted(ps, p, pos), nkinds)
  {
  }

  lemma CountsInserted(slots: Slots, i: nat, dst: nat, ps: seq<Post>, p: Post, pos: nat,
                       edges: nat, uses: seq<nat>, kindsLive: nat, uses': seq<nat>, kindsLive': nat)
    requires i < |slots| && ps == (if slots[i].Taken? then slots[i].value else []) && pos <= |ps|
    requires CountsOk(slots, edges, uses, kindsLive)
    requires |uses'| == |uses| && kindsLive' == Count(uses', InUse)
    requires forall j :: 0 <= j < |uses| ==> uses'[j] == if j + 1 == p.kind then uses[j] + 1 else uses[j]
    ensures CountsOk(slots[i := Taken(dst, Inserted(ps, p, pos))], edges + 1, uses', kindsLive')
  {
    hide SlotSum;
    var slot := Taken(dst, Inserted(ps, p, pos));
    SumUpdate(slots, i, slot, Fanin());
    forall j | 0 <= j < |uses| ensures uses'[j] == SlotSum(slots[i := slot], KindWeight(j + 1)) {
      SumUpdate(slots, i, slot, KindWeight(j + 1));
      InsertKinds(ps, p, pos, j + 1);
    }
  }

  lemma LiveWithin(slots: Slots, hash: nat -> nat, used: nat, live: nat)
    requires TableOk(slots, hash, used, live)
    ensures live <= used && WellFormed(slots, hash) && Distinct(slots)
    ensures live == Count(slots, (s: Slot<nat, seq<Post>>) => IsTaken(s))
  {
    CountMore(slots, (s: Slot<nat, seq<Post>>) => IsTaken(s), (s: Slot<nat, seq<Post>>) => IsUsed(s));
  }

  lemma {:induction false} CountMore<T>(s: seq<T>, p: T -> bool, q: T -> bool)
    requires forall i :: 0 <= i < |s| ==> p(s[i]) ==> q(s[i])
    ensures Count(s, p) <= Count(s, q)
  {
    if s != [] {
      CountMore(s[..|s| - 1], p, q);
    }
  }

  /** The counters and the list invariants depend on the map alone. */
  lemma Rehashed(a: Slots, b: Slots, hash: nat -> nat, live: nat, nkinds: nat, edges: nat, uses: seq<nat>,
                 kindsLive: nat)
    requires Distinct(a) && WellFormed(b, hash) && View(a) == View(b)
    requires PostsOk(a, nkinds) && CountsOk(a, edges, uses, kindsLive)
    requires forall i :: 0 <= i < |b| ==> !b[i].Dead?
    requires live == Count(b, (s: Slot<nat, seq<Post>>) => IsUsed(s))
    ensures PostsOk(b, nkinds) && CountsOk(b, edges, uses, kindsLive)
    ensures live == Count(b, (s: Slot<nat, seq<Post>>) => IsTaken(s))
  {
    hide ListOk, Reachable;
    SumOfView(a, b, Fanin());
    forall i | 0 <= i < |uses| ensures uses[i] == SlotSum(b, KindWeight(i + 1)) {
      SumOfView(a, b, KindWeight(i + 1));
    }
    forall i | 0 <= i < |b| && b[i].Taken? ensures ListOk(b[i].value, nkinds) {
      assert b[i].key in View(a) && View(a)[b[i].key] == b[i].value;
      var j :| 0 <= j < |a| && a[j].Taken? && a[j].key == b[i].key;
    }
    CountSame(b, (s: Slot<nat, seq<Post>>) => IsUsed(s), (s: Slot<nat, seq<Post>>) => IsTaken(s));
  }

  /** A kind minted but not yet used changes no count. */
  lemma NewKind(slots: Slots, n: nat, edges: nat, uses: seq<nat>, kindsLive: nat)
    requires PostsOk(slots, n) && CountsOk(slots, edges, uses, kindsLive) && |uses| == n < MAX_KINDS
    ensures PostsOk(slots, n + 1) && CountsOk(slots, edges, uses + [0], kindsLive)
  {
    KindUnused(slots, n, n + 1);
    assert (uses + [0])[..|uses|] == uses;
  }

  lemma NewNameId(names: seq<string>, kind: string)
    requires kind !in names && kind != ""
    ensures KindId(names + [kind], kind) == |names| + 1
  {
  }

}
