/** The merge as it runs: choose the survivor and what it will assert, fold the agreeing
    members into it, note and repoint each loser, then tombstone it. */
module Consolidation {
  import opened Facts
  import opened Merging

  /** `a` was updated later, or at the same time under a greater id. */
  predicate Beats(a: Record, b: Record) { a.updated > b.updated || (a.updated == b.updated && a.id > b.id) }

  predicate Newest(recs: seq<Record>, sv: nat)
  {
    sv < |recs| && forall j :: 0 <= j < |recs| && j != sv ==> Beats(recs[sv], recs[j])
  }

  predicate DistinctIds(recs: seq<Record>) { forall i, j :: 0 <= i < j < |recs| ==> recs[i].id != recs[j].id }

  method ChooseSurvivor(recs: seq<Record>) returns (sv: nat)
    requires recs != [] && DistinctIds(recs)
    ensures Newest(recs, sv)
  {
    sv := 0;
    for i := 1 to |recs|
      invariant sv < i && forall j :: 0 <= j < i && j != sv ==> Beats(recs[sv], recs[j])
    {
      if Beats(recs[i], recs[sv]) {
        sv := i;
      }
    }
  }

  // ----- what the survivor will assert ---------------------------------------------------

  /** How many of the first `n` members, the survivor aside, assert `f`. */
  function Votes(recs: seq<Record>, sv: nat, f: Triple, n: nat): nat
    requires n <= |recs|
  {
    if n == 0 then 0
    else Votes(recs, sv, f, n - 1) + (if n - 1 != sv && recs[n - 1].fact == Some(f) then 1 else 0)
  }

  /** Member `i` asserts `f`, and no earlier member's fact has as many votes. */
  ghost predicate FirstWith(recs: seq<Record>, sv: nat, f: Triple, i: nat)
  {
    && i < |recs| && i != sv && recs[i].fact == Some(f)
    && forall j :: 0 <= j < i && j != sv && recs[j].fact.Some? ==>
         Votes(recs, sv, recs[j].fact.value, |recs|) < Votes(recs, sv, f, |recs|)
  }

  /** Its own fact; failing that, the one most members assert, ties to the earliest. */
  ghost predicate Chosen(recs: seq<Record>, sv: nat, fact: Option<Triple>)
    requires sv < |recs|
  {
    if recs[sv].fact.Some? then fact == recs[sv].fact
    else
      && (fact.Some? ==> exists i :: FirstWith(recs, sv, fact.value, i))
      && (forall i :: 0 <= i < |recs| && i != sv && recs[i].fact.Some? ==>
            fact.Some? && Votes(recs, sv, recs[i].fact.value, |recs|) <= Votes(recs, sv, fact.value, |recs|))
  }

  lemma {:induction false} VotesSome(recs: seq<Record>, sv: nat, f: Triple, n: nat, i: nat)
    requires n <= |recs| && i < n && i != sv && recs[i].fact == Some(f)
    ensures Votes(recs, sv, f, n) > 0
  {
    if i < n - 1 {
      VotesSome(recs, sv, f, n - 1, i);
    }
  }

  method ChooseFact(recs: seq<Record>, sv: nat) returns (fact: Option<Triple>)
    requires sv < |recs|
    ensures Chosen(recs, sv, fact)
  {
    if recs[sv].fact.Some? {
      return recs[sv].fact;
    }
    fact := None;
    var best := 0;
    for i := 0 to |recs|
      invariant fact.Some? ==> best == Votes(recs, sv, fact.value, |recs|) > 0
      invariant fact.Some? ==> exists k :: FirstWith(recs, sv, fact.value, k)
      invariant fact.None? ==> best == 0
      invariant forall k :: 0 <= k < i && k != sv && recs[k].fact.Some? ==>
                  Votes(recs, sv, recs[k].fact.value, |recs|) <= best
      invariant forall k :: 0 <= k < i && k != sv && recs[k].fact.Some? ==> fact.Some?
    {
      if i == sv || recs[i].fact.None? {
        continue;
      }
      var votes := 0;
      for j := 0 to |recs|
        invariant votes == Votes(recs, sv, recs[i].fact.value, j)
      {
        if j != sv && recs[j].fact == recs[i].fact {
          votes := votes + 1;
        }
      }
      VotesSome(recs, sv, recs[i].fact.value, |recs|, i);
      if votes > best {
        assert FirstWith(recs, sv, recs[i].fact.value, i);
        best, fact := votes, recs[i].fact;
      }
    }
  }

  // ----- who folds -------------------------------------------------------------------------

  /** Members that assert nothing the survivor will not. */
  predicate Agrees(r: Record, fact: Option<Triple>) { r.fact.None? || r.fact == fact }

  method Partition(recs: seq<Record>, sv: nat, fact: Option<Triple>) returns (keep: seq<bool>, folding: nat)
    requires sv < |recs|
    ensures |keep| == |recs| && forall i :: 0 <= i < |recs| ==> (keep[i] <==> i == sv || Agrees(recs[i], fact))
    ensures folding == |Losers(recs, keep, sv, |recs|)|
  {
    keep, folding := [], 0;
    for i := 0 to |recs|
      invariant |keep| == i && forall j :: 0 <= j < i ==> (keep[j] <==> j == sv || Agrees(recs[j], fact))
      invariant folding == |Losers(recs, keep, sv, i)|
    {
      ghost var before := keep;
      keep := keep + [i == sv || recs[i].fact.None? || recs[i].fact == fact];
      LosersSame(recs, before, keep, sv, i);
      if i != sv && keep[i] {
        folding := folding + 1;
      }
    }
  }

  /** The ids to tombstone, in cluster order. */
  function Losers(recs: seq<Record>, keep: seq<bool>, sv: nat, n: nat): (ls: seq<nat>)
    requires n <= |recs| && n <= |keep|
  {
    if n == 0 then []
    else if n - 1 != sv && keep[n - 1] then Losers(recs, keep, sv, n - 1) + [recs[n - 1].id]
    else Losers(recs, keep, sv, n - 1)
  }

  lemma {:induction false} LosersSame(recs: seq<Record>, a: seq<bool>, b: seq<bool>, sv: nat, n: nat)
    requires n <= |recs| && n <= |a| && n <= |b| && a[..n] == b[..n]
    ensures Losers(recs, a, sv, n) == Losers(recs, b, sv, n)
  {
    if n > 0 {
      assert a[n - 1] == a[..n][n - 1] == b[n - 1];
      assert a[..n - 1] == a[..n][..n - 1] == b[..n - 1];
      LosersSame(recs, a, b, sv, n - 1);
    }
  }

  ghost predicate IsLoser(recs: seq<Record>, keep: seq<bool>, sv: nat, n: nat, l: nat)
    requires n <= |recs| && n <= |keep|
  {
    exists i :: 0 <= i < n && i != sv && keep[i] && recs[i].id == l
  }

  lemma {:induction false} LosersAre(recs: seq<Record>, keep: seq<bool>, sv: nat, n: nat)
    requires sv < |recs| && n <= |recs| && n <= |keep| && DistinctIds(recs)
    ensures var ls := Losers(recs, keep, sv, n);
            && (forall l :: l in ls <==> IsLoser(recs, keep, sv, n, l))
            && (forall i, j :: 0 <= i < j < |ls| ==> ls[i] != ls[j])
            && recs[sv].id !in ls
  {
    if n > 0 {
      LosersAre(recs, keep, sv, n - 1);
      var before, ls := Losers(recs, keep, sv, n - 1), Losers(recs, keep, sv, n);
      forall l ensures l in ls <==> IsLoser(recs, keep, sv, n, l) {
        if IsLoser(recs, keep, sv, n - 1, l) {
          assert l in before;
        }
      }
      forall i | 0 <= i < |before| ensures before[i] != recs[n - 1].id {
        assert IsLoser(recs, keep, sv, n - 1, before[i]);
      }
    }
  }

  // ----- what the survivor takes on ----------------------------------------------------------

  predicate Holds(recs: seq<Record>, keep: seq<bool>, n: nat, tag: string)
    requires n <= |recs| && n <= |keep|
  {
    exists i :: 0 <= i < n && keep[i] && tag in recs[i].tags
  }

  /** The folded fields: tags united, weights the greatest of the folding members'. */
  ghost predicate TookOn(recs: seq<Record>, keep: seq<bool>, tags: seq<string>, imp: real, conf: real)
    requires |keep| == |recs|
  {
    && (forall t :: t in tags <==> Holds(recs, keep, |recs|, t))
    && (forall i :: 0 <= i < |recs| && keep[i] ==> recs[i].importance <= imp && recs[i].confidence <= conf)
    && (imp == 0.0 || exists i :: 0 <= i < |recs| && keep[i] && recs[i].importance == imp)
    && (conf == 0.0 || exists i :: 0 <= i < |recs| && keep[i] && recs[i].confidence == conf)
  }

  ghost predicate Took(recs: seq<Record>, keep: seq<bool>, r: Record)
    requires |keep| == |recs|
  {
    TookOn(recs, keep, r.tags, r.importance, r.confidence)
  }

  method FoldFields(recs: seq<Record>, keep: seq<bool>) returns (tags: seq<string>, imp: real, conf: real)
    requires |keep| == |recs|
    ensures TookOn(recs, keep, tags, imp, conf)
    ensures forall i, j :: 0 <= i < j < |tags| ==> tags[i] != tags[j]
  {
    tags, imp, conf := [], 0.0, 0.0;
    for i := 0 to |recs|
      invariant forall t :: t in tags <==> Holds(recs, keep, i, t)
      invariant forall a, b :: 0 <= a < b < |tags| ==> tags[a] != tags[b]
      invariant forall k :: 0 <= k < i && keep[k] ==> recs[k].importance <= imp && recs[k].confidence <= conf
      invariant imp == 0.0 || exists k :: 0 <= k < i && keep[k] && recs[k].importance == imp
      invariant conf == 0.0 || exists k :: 0 <= k < i && keep[k] && recs[k].confidence == conf
    {
      ghost var before := tags;
      if !keep[i] {
        continue;
      }
      if recs[i].importance > imp {
        imp := recs[i].importance;
      }
      if recs[i].confidence > conf {
        conf := recs[i].confidence;
      }
      for t := 0 to |recs[i].tags|
        invariant forall x :: x in tags <==> x in before || x in recs[i].tags[..t]
        invariant forall a, b :: 0 <= a < b < |tags| ==> tags[a] != tags[b]
      {
        if recs[i].tags[t] !in tags {
          tags := tags + [recs[i].tags[t]];
        }
      }
      assert recs[i].tags[..|recs[i].tags|] == recs[i].tags;
    }
  }

  // ----- the corpus ---------------------------------------------------------------------------

  predicate Cites(r: Record, id: nat) { Rel(id, DERIVED_FROM) in r.rels }

  /** Only relationships were added, and the clock moved. */
  predicate Grown(a: Record, b: Record) { a.rels <= b.rels && b == a.(rels := b.rels, updated := b.updated) }

  ghost predicate AllGrown(a: Live, b: Live) { b.Keys <= a.Keys && forall id :: id in b ==> Grown(a[id], b[id]) }

  lemma GrownTrans(a: Live, b: Live, c: Live)
    requires AllGrown(a, b) && AllGrown(b, c)
    ensures AllGrown(a, c)
  {
  }

  /** Which relationships the other limits on a record would admit. */
  type Admits = (nat, nat, string) -> bool

  class Corpus {
    var live: Live
    var notes: seq<Note>
    var queue: seq<nat>

    /** What holds even between noting a merge and deleting the loser. */
    ghost predicate Sane()
      reads this
    {
      |notes| <= MAX_NOTES && forall id :: id in live ==> live[id].id == id
    }

    ghost predicate Valid()
      reads this
    {
      Sane() && NotesOk(live, notes)
    }

    method Relate(from: nat, to: nat, kind: string, admits: Admits, now: nat)
      requires Sane()
      modifies this`live
      ensures Sane() && live.Keys == old(live.Keys) && AllGrown(old(live), live)
      ensures from != to && from in live && to in live && admits(from, to, kind) ==> Rel(to, kind) in live[from].rels
    {
      if from == to || from !in live || to !in live {
        return;
      }
      if Rel(to, kind) in live[from].rels || !admits(from, to, kind) {
        return;
      }
      var r := live[from];
      live := live[from := r.(rels := r.rels + [Rel(to, kind)], updated := now)];
    }

    method Citers(id: nat) returns (ids: seq<nat>)
      ensures forall x :: x in ids <==> x in live && Cites(live[x], id)
    {
      ids := [];
      var left := set x | x in live && Cites(live[x], id);
      while left != {}
        invariant forall x :: x in ids || x in left <==> x in live && Cites(live[x], id)
      {
        var x :| x in left;
        ids, left := ids + [x], left - {x};
      }
    }

    /** Every conclusion citing the record is queued for judgement before it goes. */
    method Delete(id: nat)
      requires Sane()
      modifies this`live, this`queue
      ensures Sane() && live == old(live) - {id} && old(queue) <= queue
      ensures id in old(live) ==> forall x :: x in old(live) && Cites(old(live)[x], id) ==> x in queue
    {
      if id !in live {
        return;
      }
      var citers := Citers(id);
      queue := queue + citers;
      live := live - {id};
    }

    method SupersedeNote(gone: nat, heir: nat)
      requires |notes| <= MAX_NOTES
      modifies this`notes
      ensures notes == if gone != heir && |old(notes)| < MAX_NOTES then old(notes) + [Note(gone, heir)] else old(notes)
    {
      if gone != heir && |notes| < MAX_NOTES {
        notes := notes + [Note(gone, heir)];
      }
    }

    /** Conclusions citing the loser cite its heir as well. */
    method Repoint(gone: nat, heir: nat, admits: Admits, now: nat)
      requires Sane()
      modifies this`live
      ensures Sane() && live.Keys == old(live.Keys) && AllGrown(old(live), live)
      ensures forall x ::
                x in live && heir in live && x != heir && Cites(old(live)[x], gone) && admits(x, heir, DERIVED_FROM) ==>
                Cites(live[x], heir)
    {
      var citers := Citers(gone);
      ghost var before := live;
      for i := 0 to |citers|
        invariant Sane() && live.Keys == before.Keys && AllGrown(before, live)
        invariant forall j ::
                    0 <= j < i && heir in live && citers[j] != heir && admits(citers[j], heir, DERIVED_FROM) ==>
                    citers[j] in live && Cites(live[citers[j]], heir)
      {
        ghost var was := live;
        Relate(citers[i], heir, DERIVED_FROM, admits, now);
        GrownTrans(before, was, live);
      }
    }

    /** Lineage, note, repointing, tombstone: one loser. */
    method AbsorbOne(loser: nat, survivor: nat, admits: Admits, now: nat)
      requires Valid() && loser in live && survivor in live && loser != survivor
      modifies this
      ensures Valid() && live.Keys == old(live.Keys) - {loser} && AllGrown(old(live), live)
      ensures notes == Noted(old(notes), [loser], survivor)
      ensures old(queue) <= queue && forall x :: x in live && Cites(old(live)[x], loser) ==> x in queue
      ensures forall x ::
                x in live && x != survivor && Cites(old(live)[x], loser) && admits(x, survivor, DERIVED_FROM) ==>
                Cites(live[x], survivor)
    {
      ghost var start := live;
      Relate(survivor, loser, SUPERSEDES, admits, now);
      SupersedeNote(loser, survivor);
      assert [loser][..0] == [];
      ghost var linked := live;
      Repoint(loser, survivor, admits, now);
      GrownTrans(start, linked, live);
      ghost var pointed := live;
      Delete(loser);
      assert AllGrown(pointed, live);
      GrownTrans(start, pointed, live);
    }

    /** The survivor takes on the folded fields; the outcome of the write's own limits
        is the caller's `accept`. */
    method Update(id: nat, tags: seq<string>, imp: real, conf: real, fact: Option<Triple>, accept: bool, now: nat)
        returns (ok: bool)
      requires Sane() && id in live
      modifies this`live
      ensures Sane() && (ok <==> accept && (fact.None? || old(live)[id].fact.None?))
      ensures live == if ok
                      then old(live)[id := old(live)[id].(tags := tags, importance := imp, confidence := conf,
                          updated := now,
                                                          fact := if fact.Some? then fact else old(live)[id].fact)]
                      else old(live)
    {
      var r := live[id];
      if (fact.Some? && r.fact.Some?) || !accept {
        return false;
      }
      live := live[id := r.(tags := tags, importance := imp, confidence := conf, updated := now,
                            fact := if fact.Some? then fact else r.fact)];
      ok := true;
    }

    /** The losers' relationships, onto the survivor. */
    method Migrate(recs: seq<Record>, keep: seq<bool>, sv: nat, admits: Admits, now: nat)
      requires Sane() && |keep| == |recs| && sv < |recs| && recs[sv].id in live
      modifies this`live
      ensures Sane() && live.Keys == old(live.Keys) && AllGrown(old(live), live)
      ensures Inherits(old(live), recs, keep, sv, |recs|, live[recs[sv].id].rels, admits)
    {
      hide AllGrown, Inherits;
      ghost var start := live;
      Unmoved(live);
      NothingInherited(live, recs, keep, sv, live[recs[sv].id].rels, admits);
      for i := 0 to |recs|
        invariant Sane() && live.Keys == start.Keys && AllGrown(start, live)
        invariant Inherits(start, recs, keep, sv, i, live[recs[sv].id].rels, admits)
      {
        ghost var before := live;
        if keep[i] && i != sv {
          MigrateOne(recs[i].rels, recs[sv].id, admits, now);
          GrownTrans(start, before, live);
          RelsKept(before, live, recs[sv].id);
        }
        InheritsNext(start, recs, keep, sv, i, before[recs[sv].id].rels, live[recs[sv].id].rels, admits);
      }
    }

    method MigrateOne(rels: seq<Rel>, survivor: nat, admits: Admits, now: nat)
      requires Sane() && survivor in live
      modifies this`live
      ensures Sane() && live.Keys == old(live.Keys) && AllGrown(old(live), live)
      ensures forall k :: 0 <= k < |rels| ==> Given(old(live), survivor, rels[k], live[survivor].rels, admits)
    {
      hide AllGrown;
      ghost var start := live;
      Unmoved(live);
      for r := 0 to |rels|
        invariant Sane() && live.Keys == start.Keys && AllGrown(start, live)
        invariant forall k :: 0 <= k < r ==> Given(start, survivor, rels[k], live[survivor].rels, admits)
      {
        ghost var was := live;
        Relate(survivor, rels[r].to, rels[r].kind, admits, now);
        GrownTrans(start, was, live);
        RelsKept(was, live, survivor);
        assert Rel(rels[r].to, rels[r].kind) == rels[r];
      }
    }

    /** The survivor takes on what the members bring: fields, a fact, relationships. */
    method TakeOn(recs: seq<Record>, sv: nat, fact: Option<Triple>, keep: seq<bool>, accept: bool, admits: Admits,
                  now: nat)
      returns (ok: bool)
      requires Valid() && Loaded(live, recs) && Planned(recs, sv, fact, keep)
      modifies this`live
      ensures Valid() && ok == accept
      ensures if ok then Readied(old(live), live, recs, sv, fact, keep) else live == old(live)
      ensures ok ==> recs[sv].id in live && Inherits(old(live), recs, keep, sv, |recs|, live[recs[sv].id].rels, admits)
    {
      hide NotesOk, Planned, Loaded, TookOn, AllGrown, Readied, Inherits;
      var survivor := recs[sv].id;
      var tags, imp, conf := FoldFields(recs, keep);
      ghost var live0 := live;
      PlannedAt(live, recs, sv, fact, keep);
      ok := Update(survivor, tags, imp, conf, if recs[sv].fact.None? then fact else None, accept, now);
      if !ok {
        return;
      }
      ghost var updated := live;
      Migrate(recs, keep, sv, admits, now);
      NotesSameKeys(live0, live, notes);
      ReadiedFrom(live0, updated, live, recs, sv, fact, keep);
      InheritsSame(live0, updated, recs, keep, sv, live[survivor].rels, admits);
    }

    /** Once the survivor has taken them on, the folding members are absorbed. */
    method FoldInto(recs: seq<Record>, sv: nat, fact: Option<Triple>, keep: seq<bool>, accept: bool, admits: Admits,
                    now: nat)
      returns (merged: nat)
      requires Valid() && Loaded(live, recs) && Planned(recs, sv, fact, keep)
      modifies this
      ensures Valid() && merged == if accept then |Losers(recs, keep, sv, |recs|)| else 0
      ensures !accept ==> live == old(live) && notes == old(notes) && queue == old(queue)
      ensures accept ==>
              && Folded(old(live), live, recs[sv].id, Losers(recs, keep, sv, |recs|))
              && notes == Noted(old(notes), Losers(recs, keep, sv, |recs|), recs[sv].id)
              && live[recs[sv].id].fact == fact
              && Took(recs, keep, live[recs[sv].id])
              && Inherits(old(live), recs, keep, sv, |recs|, live[recs[sv].id].rels, admits)
              && Requeued(old(live), live, queue, recs[sv].id, Losers(recs, keep, sv, |recs|), admits)
    {
      hide NotesOk, Noted, Folded, Losers, Planned, TookOn, AllGrown, Requeued, Readied, Loaded, Inherits;
      ghost var live0 := live;
      var ok := TakeOn(recs, sv, fact, keep, accept, admits, now);
      if !ok {
        return 0;
      }
      ghost var mid := live;
      ReadiedIds(live0, mid, recs, sv, fact, keep);
      merged := AbsorbAll(recs, keep, sv, admits, now);
      FoldedFrom(live0, mid, live, queue, recs, sv, fact, keep, admits);
      RelsKept(mid, live, recs[sv].id);
      InheritsMore(live0, recs, keep, sv, mid[recs[sv].id].rels, live[recs[sv].id].rels, admits);
    }

    /** The whole merge. Nothing is written unless some member folds and the survivor
        can take what it brings. What the live records state is the same either way; what
        they assert of their own accord, exactly when the merge is safe for it. */
    method MergeCluster(recs: seq<Record>, accept: bool, admits: Admits, now: nat)
      returns (merged: nat, ghost sv: nat, ghost fact: Option<Triple>, ghost keep: seq<bool>)
      requires Valid() && Loaded(live, recs)
      modifies this
      ensures Valid() && Planned(recs, sv, fact, keep)
      ensures merged == if accept then |Losers(recs, keep, sv, |recs|)| else 0
      ensures merged == 0 ==> live == old(live) && notes == old(notes) && queue == old(queue)
      ensures merged > 0 ==>
              && Folded(old(live), live, recs[sv].id, Losers(recs, keep, sv, |recs|))
              && notes == Noted(old(notes), Losers(recs, keep, sv, |recs|), recs[sv].id)
              && live[recs[sv].id].fact == fact
              && Took(recs, keep, live[recs[sv].id])
              && Inherits(old(live), recs, keep, sv, |recs|, live[recs[sv].id].rels, admits)
              && Requeued(old(live), live, queue, recs[sv].id, Losers(recs, keep, sv, |recs|), admits)
      ensures forall t :: Stated(live, t) <==> Stated(old(live), t)
      ensures merged > 0 ==>
              (SameBase(old(live), live) <==> BaseSafe(old(live), recs[sv].id, Losers(recs, keep, sv, |recs|), fact))
    {
      hide NotesOk, Noted, Folded, Losers, Newest, Chosen, Stated, TookOn, Requeued, Inherits, InBase, BaseSafe,
          SameBase;
      var s := ChooseSurvivor(recs);
      var f := ChooseFact(recs, s);
      var k, folding := Partition(recs, s, f);
      sv, fact, keep := s, f, k;
      if folding == 0 {
        return 0, sv, fact, keep;
      }
      ghost var live0 := live;
      merged := FoldInto(recs, s, f, k, accept, admits, now);
      if merged > 0 {
        BaseExactly(live0, live, recs[s].id, Losers(recs, k, s, |recs|));
      }
      forall t ensures Stated(live, t) <==> Stated(live0, t) {
        if accept {
          StatedKept(live0, live, recs[s].id, Losers(recs, k, s, |recs|), t);
        }
      }
    }

    /** Absorb the folding members one after another. */
    method AbsorbAll(recs: seq<Record>, keep: seq<bool>, sv: nat, admits: Admits, now: nat) returns (merged: nat)
      requires Valid() && |keep| == |recs| && sv < |recs| && DistinctIds(recs)
      requires forall i :: 0 <= i < |recs| ==> recs[i].id in live
      modifies this
      ensures Valid() && merged == |Losers(recs, keep, sv, |recs|)|
      ensures Absorbed(old(live), old(notes), old(queue), live, notes, queue, recs[sv].id,
                  Losers(recs, keep, sv, |recs|), admits)
    {
      hide NotesOk, Noted, Requeued, AllGrown;
      merged := 0;
      ghost var live0, notes0, queue0 := live, notes, queue;
      var survivor := recs[sv].id;
      NothingAbsorbed(live, notes, queue, survivor, admits);
      for i := 0 to |recs|
        invariant Valid() && merged == |Losers(recs, keep, sv, i)|
        invariant Absorbed(live0, notes0, queue0, live, notes, queue, survivor, Losers(recs, keep, sv, i), admits)
      {
        if !keep[i] || i == sv {
          continue;
        }
        LosersAre(recs, keep, sv, i);
        ghost var ls := Losers(recs, keep, sv, i);
        StillThere(recs, keep, sv, i);
        ghost var live1, notes1, queue1 := live, notes, queue;
        AbsorbOne(recs[i].id, survivor, admits, now);
        AbsorbedMore(live0, notes0, queue0, live1, notes1, queue1, live, notes, queue, survivor, ls, recs[i].id,
            admits);
        merged := merged + 1;
      }
    }
  }

  /** The cluster as loaded: distinct live records, unchanged since. */
  predicate Loaded(live: Live, recs: seq<Record>)
  {
    recs != [] && DistinctIds(recs) && forall i :: 0 <= i < |recs| ==> recs[i].id in live && recs[i] == live[recs[i].id]
  }

  /** Who survives, and who is absorbed: the newest member, and every other that
      asserts nothing or what the newest does, or adopts. */
  ghost predicate Planned(recs: seq<Record>, sv: nat, fact: Option<Triple>, keep: seq<bool>)
    ensures Planned(recs, sv, fact, keep) ==> sv < |recs| && |keep| == |recs|
  {
    && Newest(recs, sv) && Chosen(recs, sv, fact) && |keep| == |recs|
    && forall i :: 0 <= i < |recs| ==> (keep[i] <==> i == sv || Agrees(recs[i], fact))
  }

  lemma NotesSameKeys(a: Live, b: Live, notes: seq<Note>)
    requires NotesOk(a, notes) && a.Keys == b.Keys
    ensures NotesOk(b, notes)
  {
  }

  /** Every conclusion citing a loser is queued for judgement and, where its limits
      admit, cites the heir. */
  ghost predicate Requeued(live: Live, live': Live, queue': seq<nat>, survivor: nat, losers: seq<nat>, admits: Admits)
    requires live'.Keys <= live.Keys
  {
    && (forall l, x :: l in losers && x in live' && Cites(live[x], l) ==> x in queue')
    && (forall l, x ::
         l in losers && x in live' && x != survivor && Cites(live[x], l) && admits(x, survivor, DERIVED_FROM) ==>
           Cites(live'[x], survivor))
  }

  lemma RequeuedFrom(live: Live, mid: Live, live': Live, queue': seq<nat>, survivor: nat, losers: seq<nat>,
                     admits: Admits)
    requires live'.Keys <= live.Keys && mid.Keys == live.Keys && Requeued(mid, live', queue', survivor, losers, admits)
    requires forall id :: id in live ==> live[id].rels <= mid[id].rels
    ensures Requeued(live, live', queue', survivor, losers, admits)
  {
  }

  lemma PlannedAt(live: Live, recs: seq<Record>, sv: nat, fact: Option<Triple>, keep: seq<bool>)
    requires Loaded(live, recs) && Planned(recs, sv, fact, keep)
    ensures recs[sv].id in live && recs[sv] == live[recs[sv].id] && (recs[sv].fact.Some? ==> fact == recs[sv].fact)
  {
  }

  /** The survivor has the relationship, if its target is another live record and its
      limits admit it. */
  predicate Given(live: Live, survivor: nat, rel: Rel, rels: seq<Rel>, admits: Admits)
  {
    rel.to in live && rel.to != survivor && admits(survivor, rel.to, rel.kind) ==> rel in rels
  }

  /** The survivor holds the relationships of the first `n` members that fold. */
  ghost predicate Inherits(live: Live, recs: seq<Record>, keep: seq<bool>, sv: nat, n: nat, rels: seq<Rel>,
                           admits: Admits)
    requires n <= |recs| && |keep| == |recs| && sv < |recs|
  {
    forall i, k :: 0 <= i < n && keep[i] && i != sv && 0 <= k < |recs[i].rels| ==>
      Given(live, recs[sv].id, recs[i].rels[k], rels, admits)
  }

  lemma NothingInherited(live: Live, recs: seq<Record>, keep: seq<bool>, sv: nat, rels: seq<Rel>, admits: Admits)
    requires |keep| == |recs| && sv < |recs|
    ensures Inherits(live, recs, keep, sv, 0, rels, admits)
  {
  }

  lemma InheritsNext(live: Live, recs: seq<Record>, keep: seq<bool>, sv: nat, i: nat, before: seq<Rel>, rels: seq<Rel>,
                     admits: Admits)
    requires i < |recs| && |keep| == |recs| && sv < |recs| && Inherits(live, recs, keep, sv, i, before, admits)
             && before <= rels
    requires keep[i] && i != sv ==> forall k :: 0 <= k < |recs[i].rels| ==>
               Given(live, recs[sv].id, recs[i].rels[k], rels, admits)
    ensures Inherits(live, recs, keep, sv, i + 1, rels, admits)
  {
    forall x | x in before ensures x in rels {
      var j :| 0 <= j < |before| && before[j] == x;
      assert rels[j] == x;
    }
  }

  lemma InheritsMore(live: Live, recs: seq<Record>, keep: seq<bool>, sv: nat, before: seq<Rel>, rels: seq<Rel>,
                     admits: Admits)
    requires |keep| == |recs| && sv < |recs| && Inherits(live, recs, keep, sv, |recs|, before, admits) && before <= rels
    ensures Inherits(live, recs, keep, sv, |recs|, rels, admits)
  {
    forall x | x in before ensures x in rels {
      var j :| 0 <= j < |before| && before[j] == x;
      assert rels[j] == x;
    }
  }

  lemma InheritsSame(a: Live, b: Live, recs: seq<Record>, keep: seq<bool>, sv: nat, rels: seq<Rel>, admits: Admits)
    requires a.Keys == b.Keys && |keep| == |recs| && sv < |recs| && Inherits(b, recs, keep, sv, |recs|, rels, admits)
    ensures Inherits(a, recs, keep, sv, |recs|, rels, admits)
  {
  }

  lemma Unmoved(live: Live)
    ensures AllGrown(live, live)
  {
  }

  lemma RelsKept(a: Live, b: Live, id: nat)
    requires AllGrown(a, b) && id in b
    ensures id in a && a[id].rels <= b[id].rels && forall x :: x in a[id].rels ==> x in b[id].rels
  {
    forall x | x in a[id].rels ensures x in b[id].rels {
      var j :| 0 <= j < |a[id].rels| && a[id].rels[j] == x;
      assert b[id].rels[j] == x;
    }
  }

  /** The survivor has taken on its members; nothing else was rewritten. */
  ghost predicate Readied(live: Live, mid: Live, recs: seq<Record>, sv: nat, fact: Option<Triple>, keep: seq<bool>)
    requires sv < |recs| && |keep| == |recs|
  {
    && mid.Keys == live.Keys && recs[sv].id in live
    && mid[recs[sv].id].fact == fact && mid[recs[sv].id].routes == recs[sv].routes && Took(recs, keep, mid[recs[sv].id])
    && (forall id :: id in live ==> live[id].rels <= mid[id].rels)
    && (forall id :: id in live && id != recs[sv].id ==>
         mid[id].fact == live[id].fact && mid[id].routes == live[id].routes)
  }

  lemma ReadiedFrom(live: Live, updated: Live, mid: Live, recs: seq<Record>, sv: nat, fact: Option<Triple>,
                    keep: seq<bool>)
    requires sv < |recs| && |keep| == |recs| && recs[sv].id in live && updated.Keys == live.Keys == mid.Keys
    requires var id := recs[sv].id;
             && updated == live[id := updated[id]] && updated[id].fact == fact && Took(recs, keep, updated[id])
             && updated[id].routes == recs[sv].routes && updated[id].rels == live[id].rels
    requires AllGrown(updated, mid)
    ensures Readied(live, mid, recs, sv, fact, keep)
  {
  }

  lemma ReadiedIds(live: Live, mid: Live, recs: seq<Record>, sv: nat, fact: Option<Triple>, keep: seq<bool>)
    requires Loaded(live, recs) && sv < |recs| && |keep| == |recs| && Readied(live, mid, recs, sv, fact, keep)
    ensures DistinctIds(recs) && forall i :: 0 <= i < |recs| ==> recs[i].id in mid
  {
  }

  lemma FoldedFrom(live: Live, mid: Live, live': Live, queue': seq<nat>, recs: seq<Record>, sv: nat,
                   fact: Option<Triple>,
                   keep: seq<bool>, admits: Admits)
    requires Loaded(live, recs) && Planned(recs, sv, fact, keep) && Readied(live, mid, recs, sv, fact, keep)
    requires var losers := Losers(recs, keep, sv, |recs|);
             && live'.Keys == mid.Keys - (set l | l in losers) && AllGrown(mid, live')
             && Requeued(mid, live', queue', recs[sv].id, losers, admits)
    ensures var losers := Losers(recs, keep, sv, |recs|);
            && Folded(live, live', recs[sv].id, losers) && recs[sv].id in live'
            && live'[recs[sv].id].fact == fact && Took(recs, keep, live'[recs[sv].id])
            && Requeued(live, live', queue', recs[sv].id, losers, admits)
  {
    hide Losers, Folded, Requeued, TookOn, AllGrown;
    LosersAre(recs, keep, sv, |recs|);
    SurvivorKeeps(mid, live', recs[sv].id);
    PlanFolds(live, mid, live', recs, sv, fact, keep);
    RequeuedFrom(live, mid, live', queue', recs[sv].id, Losers(recs, keep, sv, |recs|), admits);
  }

  lemma SurvivorKeeps(a: Live, b: Live, survivor: nat)
    requires AllGrown(a, b) && survivor in b
    ensures b[survivor] == a[survivor].(rels := b[survivor].rels, updated := b[survivor].updated)
  {
  }

  lemma PlanFolds(live: Live, mid: Live, live': Live, recs: seq<Record>, sv: nat, fact: Option<Triple>, keep: seq<bool>)
    requires Loaded(live, recs) && Planned(recs, sv, fact, keep)
    requires mid.Keys == live.Keys && mid[recs[sv].id].fact == fact && mid[recs[sv].id].routes == recs[sv].routes
    requires forall id :: id in mid && id != recs[sv].id ==>
               mid[id].fact == live[id].fact && mid[id].routes == live[id].routes
    requires live'.Keys == mid.Keys - (set l | l in Losers(recs, keep, sv, |recs|)) && AllGrown(mid, live')
    ensures Folded(live, live', recs[sv].id, Losers(recs, keep, sv, |recs|))
  {
    hide Losers, Newest, DistinctIds;
    var ls, survivor := Losers(recs, keep, sv, |recs|), recs[sv].id;
    LosersAre(recs, keep, sv, |recs|);
    forall l | l in ls ensures l in live && (live[l].fact.None? || live[l].fact == fact) {
      assert IsLoser(recs, keep, sv, |recs|, l);
    }
    assert survivor in live' && live'[survivor].fact == fact;
    Adoption(recs, sv, fact, keep);
  }

  /** A fact the survivor adopts comes from a member that folds. */
  lemma Adoption(recs: seq<Record>, sv: nat, fact: Option<Triple>, keep: seq<bool>)
    requires Planned(recs, sv, fact, keep) && DistinctIds(recs)
    ensures fact != recs[sv].fact ==>
              recs[sv].fact.None?
              && exists i :: 0 <= i < |recs| && recs[i].fact == fact && recs[i].id in Losers(recs, keep, sv, |recs|)
  {
    hide Losers, Newest;
    LosersAre(recs, keep, sv, |recs|);
    if fact != recs[sv].fact {
      var i: nat :| FirstWith(recs, sv, fact.value, i);
      assert IsLoser(recs, keep, sv, |recs|, recs[i].id);
    }
  }

  /** What absorbing `losers` leaves: they are gone and noted, their citers queued and
      repointed, and nothing else is rewritten. */
  ghost predicate Absorbed(live: Live, notes: seq<Note>, queue: seq<nat>, live': Live, notes': seq<Note>,
                           queue': seq<nat>,
                           survivor: nat, losers: seq<nat>, admits: Admits)
  {
    && live'.Keys == live.Keys - (set l | l in losers) && AllGrown(live, live')
    && notes' == Noted(notes, losers, survivor) && queue <= queue'
    && Requeued(live, live', queue', survivor, losers, admits)
  }

  lemma NothingAbsorbed(live: Live, notes: seq<Note>, queue: seq<nat>, survivor: nat, admits: Admits)
    ensures Absorbed(live, notes, queue, live, notes, queue, survivor, [], admits)
  {
  }

  lemma StillThere(recs: seq<Record>, keep: seq<bool>, sv: nat, i: nat)
    requires i < |recs| && sv < |recs| && |keep| == |recs| && i != sv && DistinctIds(recs)
    ensures recs[i].id !in Losers(recs, keep, sv, i) && recs[i].id != recs[sv].id
            && recs[sv].id !in Losers(recs, keep, sv, i)
  {
    LosersAre(recs, keep, sv, i);
  }

  lemma AbsorbedMore(live: Live, notes: seq<Note>, queue: seq<nat>, live1: Live, notes1: seq<Note>, queue1: seq<nat>,
                     live2: Live, notes2: seq<Note>, queue2: seq<nat>, survivor: nat, losers: seq<nat>, loser: nat,
                         admits: Admits)
    requires Absorbed(live, notes, queue, live1, notes1, queue1, survivor, losers, admits)
    requires live2.Keys == live1.Keys - {loser} && AllGrown(live1, live2) && loser !in losers
    requires notes2 == Noted(notes1, [loser], survivor) && queue1 <= queue2
    requires forall x :: x in live2 && Cites(live1[x], loser) ==> x in queue2
    requires forall x :: x in live2 && x != survivor && Cites(live1[x], loser) && admits(x, survivor, DERIVED_FROM) ==>
               Cites(live2[x], survivor)
    ensures Absorbed(live, notes, queue, live2, notes2, queue2, survivor, losers + [loser], admits)
  {
    GrownTrans(live, live1, live2);
    assert [loser][..0] == [];
    assert (losers + [loser])[..|losers|] == losers;
    assert (set l | l in losers + [loser]) == (set l | l in losers) + {loser};
    forall x | x in queue1 ensures x in queue2 {
      var i :| 0 <= i < |queue1| && queue1[i] == x;
      assert queue2[i] == x;
    }
    forall x, l | x in live2 && Cites(live[x], l) ensures Cites(live1[x], l) {
      GrownCites(live[x], live1[x], l);
    }
    forall x, l | x in live2 && Cites(live1[x], l) ensures Cites(live2[x], l) {
      GrownCites(live1[x], live2[x], l);
    }
  }

  lemma GrownCites(a: Record, b: Record, id: nat)
    requires Grown(a, b) && Cites(a, id)
    ensures Cites(b, id)
  {
  }
}
