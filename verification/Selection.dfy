/** Ranking search candidates: a bounded heap of indices keeps the best `k`, against
    the full sort it stands in for, and the pages cut from it. */
module Selection {
  import opened Facts

  const MAX_OFFSET := 100000
  const DEFAULT_TOP_K := 10

  datatype Cand = Cand(id: nat, created: nat, score: real)

  datatype Order = ByScore | ByCreated

  /** Negative when `a` ranks before `b`: higher scores first, or older records first;
      ties go to the lower id. */
  function Compare(o: Order, a: Cand, b: Cand): int
  {
    if o == ByScore && a.score < b.score then 1
    else if o == ByScore && a.score > b.score then -1
    else if o == ByCreated && a.created < b.created then -1
    else if o == ByCreated && a.created > b.created then 1
    else if a.id < b.id then -1 else if a.id > b.id then 1 else 0
  }

  lemma CompareTotal(o: Order, a: Cand, b: Cand, c: Cand)
    ensures Compare(o, a, b) < 0 <==> Compare(o, b, a) > 0
    ensures Compare(o, a, b) == 0 ==> a.id == b.id
    ensures Compare(o, a, b) <= 0 && Compare(o, b, c) <= 0 ==> Compare(o, a, c) <= 0
    ensures Compare(o, a, b) < 0 && Compare(o, b, c) <= 0 ==> Compare(o, a, c) < 0
    ensures Compare(o, a, b) <= 0 && Compare(o, b, c) < 0 ==> Compare(o, a, c) < 0
    ensures Compare(o, a, a) == 0
  {
  }

  predicate Distinct(cs: seq<Cand>) { forall i, j :: 0 <= i < j < |cs| ==> cs[i].id != cs[j].id }

  predicate Ascending(o: Order, s: seq<Cand>) { forall i, j :: 0 <= i < j < |s| ==> Compare(o, s[i], s[j]) < 0 }

  // ----- the full sort ------------------------------------------------------------------

  function Place(o: Order, s: seq<Cand>, c: Cand): (at: nat)
    ensures at <= |s|
    ensures forall i :: 0 <= i < at ==> Compare(o, s[i], c) < 0
    ensures at < |s| ==> Compare(o, s[at], c) >= 0
  {
    if s == [] || Compare(o, s[0], c) >= 0 then 0 else 1 + Place(o, s[1..], c)
  }

  function Inserted(o: Order, s: seq<Cand>, c: Cand): seq<Cand>
  {
    var at := Place(o, s, c); s[..at] + [c] + s[at..]
  }

  /** The candidates in rank order. */
  function Ranked(o: Order, cs: seq<Cand>): (s: seq<Cand>)
    ensures |s| == |cs|
  {
    if cs == [] then [] else Inserted(o, Ranked(o, cs[..|cs| - 1]), cs[|cs| - 1])
  }

  lemma {:induction false} RankedSorts(o: Order, cs: seq<Cand>)
    requires Distinct(cs)
    ensures Ascending(o, Ranked(o, cs))
    ensures forall c :: c in Ranked(o, cs) <==> c in cs
  {
    if cs != [] {
      var front, c := cs[..|cs| - 1], cs[|cs| - 1];
      RankedSorts(o, front);
      assert cs == front + [c];
      forall x | x in front ensures Compare(o, x, c) != 0 {
        var i :| 0 <= i < |front| && front[i] == x;
        assert cs[i].id != cs[|cs| - 1].id;
      }
      InsertedSorts(o, Ranked(o, front), c);
    }
  }

  lemma InsertedSorts(o: Order, s: seq<Cand>, c: Cand)
    requires Ascending(o, s) && forall x :: x in s ==> Compare(o, x, c) != 0
    ensures Ascending(o, Inserted(o, s, c))
    ensures forall x :: x in Inserted(o, s, c) <==> x in s || x == c
  {
    hide Compare;
    var at := Place(o, s, c);
    forall i | at <= i < |s| ensures Compare(o, c, s[i]) < 0 {
      assert s[at] in s;
      CompareTotal(o, s[at], c, c);
      CompareTotal(o, c, s[at], s[i]);
    }
    SpliceSorts(o, s, c, at);
  }

  lemma SpliceSorts(o: Order, s: seq<Cand>, c: Cand, at: nat)
    requires Ascending(o, s) && at <= |s|
    requires forall i :: 0 <= i < at ==> Compare(o, s[i], c) < 0
    requires forall i :: at <= i < |s| ==> Compare(o, c, s[i]) < 0
    ensures Ascending(o, s[..at] + [c] + s[at..])
    ensures forall x :: x in s[..at] + [c] + s[at..] <==> x in s || x == c
  {
  }

  /** The library sort; any method meeting this contract gives the same order. */
  method Sort(o: Order, cs: seq<Cand>) returns (s: seq<Cand>)
    requires Distinct(cs)
    ensures Ascending(o, s) && |s| == |cs| && forall c :: c in s <==> c in cs
  {
    RankedSorts(o, cs);
    s := Ranked(o, cs);
  }

  /** A sorted list that contains everything ranking before any of its own is the
      front of the full ranking. */
  lemma {:induction false} FrontOfRanking(o: Order, all: seq<Cand>, best: seq<Cand>, n: nat)
    requires Ascending(o, all) && Ascending(o, best) && n <= |best|
    requires forall c :: c in best ==> c in all
    requires forall a, b :: a in all && b in best && Compare(o, a, b) <= 0 ==> a in best
    ensures n <= |all| && all[..n] == best[..n]
  {
    hide Compare, Ascending;
    if n > 0 {
      var i := n - 1;
      FrontOfRanking(o, all, best, i);
      assert best[i] in best && best[i] in all;
      var j :| 0 <= j < |all| && all[j] == best[i];
      NotEarlier(o, all, best, i, j);
      if i < j {
        assert Compare(o, all[i], all[j]) < 0 by { AscendingAt(o, all, i, j); }
        assert all[i] in all && all[i] in best;
        var k :| 0 <= k < |best| && best[k] == all[i];
        NotEarlier(o, best, all, i, k);
        if i < k {
          AscendingAt(o, best, i, k);
          CompareTotal(o, all[i], best[i], best[i]);
        } else {
          CompareTotal(o, all[i], all[i], all[i]);
        }
      }
      assert all[..n] == all[..i] + [all[i]] && best[..n] == best[..i] + [best[i]];
    }
  }

  lemma AscendingAt(o: Order, s: seq<Cand>, i: nat, j: nat)
    requires Ascending(o, s) && i < j < |s|
    ensures Compare(o, s[i], s[j]) < 0
  {
  }

  /** Past a shared front, an element of one list sits at or after it in the other. */
  lemma NotEarlier(o: Order, all: seq<Cand>, best: seq<Cand>, i: nat, j: nat)
    requires Ascending(o, best) && i <= |all| && i < |best| && all[..i] == best[..i]
    requires j < |all| && all[j] == best[i]
    ensures i <= j
  {
  }

  // ----- the heap of indices ------------------------------------------------------------

  function Up(i: nat): nat requires i > 0 { (i - 1) / 2 }

  /** Every slot of `s` is an index into `cs`. */
  predicate Indices(cs: seq<Cand>, s: seq<nat>) { forall i :: 0 <= i < |s| ==> s[i] < |cs| }

  predicate NoRepeat(s: seq<nat>) { forall i, j :: 0 <= i < j < |s| ==> s[i] != s[j] }

  /** How the candidates at two slots compare. */
  function At(o: Order, cs: seq<Cand>, s: seq<nat>, i: nat, j: nat): int
    requires Indices(cs, s) && i < |s| && j < |s|
  {
    Compare(o, cs[s[i]], cs[s[j]])
  }

  /** The worst kept candidate is at the root. */
  ghost predicate Heap(o: Order, cs: seq<Cand>, s: seq<nat>)
    requires Indices(cs, s)
  {
    forall j :: 0 < j < |s| ==> At(o, cs, s, j, Up(j)) <= 0
  }

  /** A heap but for slot `i` against its parent. */
  ghost predicate HeapUp(o: Order, cs: seq<Cand>, s: seq<nat>, i: nat)
    requires Indices(cs, s) && i < |s|
  {
    && (forall j :: 0 < j < |s| && j != i ==> At(o, cs, s, j, Up(j)) <= 0)
    && (forall j :: 0 < j < |s| && Up(j) == i && i > 0 ==> At(o, cs, s, j, Up(i)) <= 0)
  }

  /** A heap but for slot `i` against its children. */
  ghost predicate HeapDown(o: Order, cs: seq<Cand>, s: seq<nat>, i: nat)
    requires Indices(cs, s) && i < |s|
  {
    && (forall j :: 0 < j < |s| && Up(j) != i ==> At(o, cs, s, j, Up(j)) <= 0)
    && (forall j :: 0 < j < |s| && Up(j) == i && i > 0 ==> At(o, cs, s, j, Up(i)) <= 0)
  }

  function Swapped(s: seq<nat>, i: nat, j: nat): seq<nat>
    requires i < |s| && j < |s|
  {
    s[i := s[j]][j := s[i]]
  }

  lemma SwapKeeps(cs: seq<Cand>, s: seq<nat>, i: nat, j: nat)
    requires i < |s| && j < |s| && i != j
    ensures NoRepeat(s) ==> NoRepeat(Swapped(s, i, j))
    ensures forall x :: x in Swapped(s, i, j) <==> x in s
    ensures Indices(cs, s) ==> Indices(cs, Swapped(s, i, j))
  {
    var t := Swapped(s, i, j);
    assert s[i] == t[j] && s[j] == t[i];
    forall x ensures x in t <==> x in s {
      if x in s {
        var k :| 0 <= k < |s| && s[k] == x;
        assert t[if k == i then j else if k == j then i else k] == x;
      }
      if x in t {
        var k :| 0 <= k < |t| && t[k] == x;
        assert s[if k == i then j else if k == j then i else k] == x;
      }
    }
  }

  lemma UpStep(o: Order, cs: seq<Cand>, s: seq<nat>, i: nat)
    requires Indices(cs, s) && 0 < i < |s| && HeapUp(o, cs, s, i) && At(o, cs, s, i, Up(i)) > 0
    ensures Indices(cs, Swapped(s, i, Up(i))) && HeapUp(o, cs, Swapped(s, i, Up(i)), Up(i))
  {
    hide Compare;
    var p := Up(i);
    var t := Swapped(s, i, p);
    SwapKeeps(cs, s, i, p);
    CompareTotal(o, cs[s[i]], cs[s[p]], cs[s[p]]);
    CompareTotal(o, cs[s[p]], cs[s[i]], cs[s[i]]);
    forall j | 0 < j < |t| && j != p ensures At(o, cs, t, j, Up(j)) <= 0 {
      if j != i && Up(j) == p {
        assert At(o, cs, s, j, p) <= 0;
        CompareTotal(o, cs[s[j]], cs[s[p]], cs[s[i]]);
      } else if j != i && Up(j) == i {
        assert At(o, cs, s, j, p) <= 0;
      } else if j != i {
        assert At(o, cs, s, j, Up(j)) <= 0;
      }
    }
    forall j | 0 < j < |t| && Up(j) == p && p > 0 ensures At(o, cs, t, j, Up(p)) <= 0 {
      assert At(o, cs, s, p, Up(p)) <= 0;
      if j != i {
        assert At(o, cs, s, j, p) <= 0;
        CompareTotal(o, cs[s[j]], cs[s[p]], cs[s[Up(p)]]);
      }
    }
  }

  lemma DownStep(o: Order, cs: seq<Cand>, s: seq<nat>, i: nat, worst: nat)
    requires Indices(cs, s) && i < |s| && HeapDown(o, cs, s, i)
    requires 0 < worst < |s| && Up(worst) == i && At(o, cs, s, worst, i) > 0
    requires forall j :: 0 < j < |s| && Up(j) == i ==> At(o, cs, s, j, worst) <= 0
    ensures Indices(cs, Swapped(s, i, worst)) && HeapDown(o, cs, Swapped(s, i, worst), worst)
  {
    hide Compare;
    var t := Swapped(s, i, worst);
    SwapKeeps(cs, s, i, worst);
    CompareTotal(o, cs[s[i]], cs[s[worst]], cs[s[worst]]);
    CompareTotal(o, cs[s[worst]], cs[s[i]], cs[s[i]]);
    forall j | 0 < j < |t| && Up(j) != worst ensures At(o, cs, t, j, Up(j)) <= 0 {
      if j == i {
        assert At(o, cs, s, worst, Up(i)) <= 0;
      } else if Up(j) == i && j != worst {
        assert At(o, cs, s, j, worst) <= 0;
      } else if Up(j) != i {
        assert At(o, cs, s, j, Up(j)) <= 0;
      }
    }
    forall j | 0 < j < |t| && Up(j) == worst && worst > 0 ensures At(o, cs, t, j, Up(worst)) <= 0 {
      assert At(o, cs, s, j, worst) <= 0;
    }
  }

  /** What a sift leaves: a heap of the same indices. */
  ghost predicate Sifted(o: Order, cs: seq<Cand>, was: seq<nat>, s: seq<nat>)
  {
    && |s| == |was| && NoRepeat(s) && Indices(cs, s) && Heap(o, cs, s)
    && forall x :: x in s <==> x in was
  }

  method SiftUp(h: array<nat>, n: nat, cs: seq<Cand>, o: Order)
    requires n < h.Length && Indices(cs, h[..n + 1]) && NoRepeat(h[..n + 1]) && HeapUp(o, cs, h[..n + 1], n)
    modifies h
    ensures Sifted(o, cs, old(h[..n + 1]), h[..n + 1])
  {
    hide Compare, HeapUp, Heap, NoRepeat;
    var i := n;
    ghost var was := h[..n + 1];
    while i > 0
      invariant 0 <= i <= n && Indices(cs, h[..n + 1]) && NoRepeat(h[..n + 1]) && HeapUp(o, cs, h[..n + 1], i)
      invariant forall x :: x in h[..n + 1] <==> x in was
    {
      var pa := (i - 1) / 2;
      ghost var s := h[..n + 1];
      assert s[i] == h[i] && s[pa] == h[pa];
      if Compare(o, cs[h[i]], cs[h[pa]]) <= 0 {
        break;
      }
      UpStep(o, cs, s, i);
      SwapKeeps(cs, s, i, pa);
      h[i], h[pa] := h[pa], h[i];
      assert h[..n + 1] == Swapped(s, i, pa);
      i := pa;
    }
    UpDone(o, cs, h[..n + 1], i);
  }

  lemma UpDone(o: Order, cs: seq<Cand>, s: seq<nat>, i: nat)
    requires Indices(cs, s) && i < |s| && HeapUp(o, cs, s, i) && (i > 0 ==> At(o, cs, s, i, Up(i)) <= 0)
    ensures Heap(o, cs, s)
  {
  }

  method SiftDown(h: array<nat>, n: nat, cs: seq<Cand>, o: Order)
    requires 0 < n <= h.Length && Indices(cs, h[..n]) && NoRepeat(h[..n]) && HeapDown(o, cs, h[..n], 0)
    modifies h
    ensures Sifted(o, cs, old(h[..n]), h[..n])
  {
    hide Compare, HeapDown, Heap, NoRepeat;
    var i := 0;
    ghost var was := h[..n];
    while true
      invariant 0 <= i < n && Indices(cs, h[..n]) && NoRepeat(h[..n]) && HeapDown(o, cs, h[..n], i)
      invariant forall x :: x in h[..n] <==> x in was
      decreases n - i
    {
      ghost var s := h[..n];
      var l, r, worst := 2 * i + 1, 2 * i + 2, i;
      assert forall j :: 0 <= j < n ==> s[j] == h[j];
      if l < n && Compare(o, cs[h[l]], cs[h[worst]]) > 0 {
        worst := l;
      }
      if r < n && Compare(o, cs[h[r]], cs[h[worst]]) > 0 {
        worst := r;
      }
      WorstOfThree(o, cs, s, i, worst);
      if worst == i {
        DownDone(o, cs, s, i);
        break;
      }
      DownStep(o, cs, s, i, worst);
      SwapKeeps(cs, s, i, worst);
      h[i], h[worst] := h[worst], h[i];
      assert h[..n] == Swapped(s, i, worst);
      i := worst;
    }
  }

  lemma DownDone(o: Order, cs: seq<Cand>, s: seq<nat>, i: nat)
    requires Indices(cs, s) && i < |s| && HeapDown(o, cs, s, i)
    requires forall j :: 0 < j < |s| && Up(j) == i ==> At(o, cs, s, j, i) <= 0
    ensures Heap(o, cs, s)
  {
  }

  /** No child ranks after the slot chosen. */
  lemma WorstOfThree(o: Order, cs: seq<Cand>, s: seq<nat>, i: nat, worst: nat)
    requires Indices(cs, s) && i < |s|
    requires var l := 2 * i + 1; var r := l + 1;
             var first := if l < |s| && At(o, cs, s, l, i) > 0 then l else i;
             worst == if r < |s| && At(o, cs, s, r, first) > 0 then r else first
    ensures worst < |s| && forall j :: 0 < j < |s| && Up(j) == i ==> At(o, cs, s, j, worst) <= 0
    ensures worst != i ==> worst > 0 && Up(worst) == i && At(o, cs, s, worst, i) > 0
  {
  }

  lemma {:induction false} RootIsWorst(o: Order, cs: seq<Cand>, s: seq<nat>, j: nat)
    requires Indices(cs, s) && Heap(o, cs, s) && j < |s|
    ensures At(o, cs, s, j, 0) <= 0
  {
    hide Compare;
    if j == 0 {
      CompareTotal(o, cs[s[0]], cs[s[0]], cs[s[0]]);
    } else {
      RootIsWorst(o, cs, s, Up(j));
      CompareTotal(o, cs[s[j]], cs[s[Up(j)]], cs[s[0]]);
    }
  }

  // ----- the selection ------------------------------------------------------------------------

  /** Of the first `n` candidates, those not kept rank after every one kept. */
  ghost predicate KeepsBest(o: Order, cs: seq<Cand>, s: seq<nat>, n: nat)
    requires Indices(cs, s) && n <= |cs|
  {
    && (forall i :: 0 <= i < |s| ==> s[i] < n)
    && (forall x, i :: 0 <= x < n && x !in s && 0 <= i < |s| ==> Compare(o, cs[s[i]], cs[x]) < 0)
  }

  /** While there is room nothing is left out. */
  ghost predicate KeepsAll(s: seq<nat>, n: nat) { forall x :: 0 <= x < n ==> x in s }

  lemma KeepMore(o: Order, cs: seq<Cand>, s: seq<nat>, n: nat, s': seq<nat>)
    requires n < |cs| && Indices(cs, s) && KeepsBest(o, cs, s, n) && KeepsAll(s, n)
    requires Sifted(o, cs, s + [n], s')
    ensures KeepsBest(o, cs, s', n + 1) && KeepsAll(s', n + 1)
  {
    forall x | 0 <= x < n + 1 ensures x in s' {
      assert x in s + [n];
    }
    forall i | 0 <= i < |s'| ensures s'[i] < n + 1 {
      assert s'[i] in s + [n];
    }
  }

  /** Evicting the root for a better candidate keeps the best. */
  lemma Evict(o: Order, cs: seq<Cand>, s: seq<nat>, n: nat, s': seq<nat>)
    requires n < |cs| && s != [] && Indices(cs, s) && Heap(o, cs, s) && NoRepeat(s) && KeepsBest(o, cs, s, n)
    requires Distinct(cs) && Compare(o, cs[n], cs[s[0]]) < 0
    requires Sifted(o, cs, s[0 := n], s')
    ensures KeepsBest(o, cs, s', n + 1)
  {
    hide Compare, Heap;
    var was := s[0 := n];
    var root := s[0];
    assert was[0] == n && n in was;
    forall i | 0 <= i < |s'| ensures s'[i] < n + 1 {
      assert s'[i] in was;
    }
    forall x, i | 0 <= x < n + 1 && x !in s' && 0 <= i < |s'| ensures Compare(o, cs[s'[i]], cs[x]) < 0 {
      assert s'[i] in was && x !in was;
      var k :| 0 <= k < |was| && was[k] == s'[i];
      OnlyRootLeaves(s, n, x);
      if x in s {
        if k > 0 {
          RootIsWorst(o, cs, s, k);
          CompareTotal(o, cs[s[k]], cs[root], cs[root]);
          assert s[0] != s[k];
        }
      } else {
        assert Compare(o, cs[root], cs[x]) < 0;
        if k > 0 {
          assert Compare(o, cs[s[k]], cs[x]) < 0;
        } else {
          CompareTotal(o, cs[n], cs[root], cs[x]);
        }
      }
    }
  }

  lemma OnlyRootLeaves(s: seq<nat>, n: nat, x: nat)
    requires s != []
    ensures x in s && x !in s[0 := n] ==> x == s[0]
  {
    if x in s && x != s[0] {
      var j :| 0 <= j < |s| && s[j] == x;
      assert s[0 := n][j] == x;
    }
  }

  lemma Reject(o: Order, cs: seq<Cand>, s: seq<nat>, n: nat)
    requires n < |cs| && s != [] && Indices(cs, s) && Heap(o, cs, s) && KeepsBest(o, cs, s, n)
    requires Distinct(cs) && Compare(o, cs[n], cs[s[0]]) >= 0
    ensures KeepsBest(o, cs, s, n + 1)
  {
    hide Compare, Heap;
    assert cs[n].id != cs[s[0]].id;
    CompareTotal(o, cs[n], cs[s[0]], cs[n]);
    CompareTotal(o, cs[s[0]], cs[n], cs[n]);
    forall i | 0 <= i < |s| ensures Compare(o, cs[s[i]], cs[n]) < 0 {
      RootIsWorst(o, cs, s, i);
      CompareTotal(o, cs[s[i]], cs[s[0]], cs[n]);
    }
  }

  /** The heap holds the best `k` of what has been scanned. */
  method KeepBest(o: Order, cs: seq<Cand>, k: nat) returns (h: array<nat>)
    requires Distinct(cs) && 0 < k < |cs|
    ensures h.Length == k && Indices(cs, h[..]) && NoRepeat(h[..]) && KeepsBest(o, cs, h[..], |cs|)
  {
    hide Compare, Heap, KeepsBest, KeepsAll, NoRepeat, Distinct;
    h := new nat[k](i => 0);
    var hn := 0;
    NothingKept(o, cs, h[..0]);
    for i := 0 to |cs|
      invariant hn == if i < k then i else k
      invariant Indices(cs, h[..hn]) && NoRepeat(h[..hn]) && Heap(o, cs, h[..hn]) && KeepsBest(o, cs, h[..hn], i)
      invariant hn < k ==> KeepsAll(h[..hn], i)
    {
      ghost var s := h[..hn];
      if hn < k {
        h[hn] := i;
        assert h[..hn + 1] == s + [i];
        Appended(o, cs, s, i);
        SiftUp(h, hn, cs, o);
        hn := hn + 1;
        KeepMore(o, cs, s, i, h[..hn]);
      } else if Compare(o, cs[i], cs[h[0]]) < 0 {
        h[0] := i;
        assert h[..hn] == s[0 := i];
        Replaced(o, cs, s, i);
        SiftDown(h, hn, cs, o);
        Evict(o, cs, s, i, h[..hn]);
      } else {
        Reject(o, cs, s, i);
      }
    }
    assert h[..k] == h[..];
  }

  lemma NothingKept(o: Order, cs: seq<Cand>, s: seq<nat>)
    requires s == []
    ensures Indices(cs, s) && NoRepeat(s) && Heap(o, cs, s) && KeepsBest(o, cs, s, 0) && KeepsAll(s, 0)
  {
  }

  lemma Appended(o: Order, cs: seq<Cand>, s: seq<nat>, n: nat)
    requires n < |cs| && Indices(cs, s) && NoRepeat(s) && Heap(o, cs, s) && KeepsBest(o, cs, s, n)
    ensures Indices(cs, s + [n]) && NoRepeat(s + [n]) && HeapUp(o, cs, s + [n], |s|)
  {
  }

  lemma Replaced(o: Order, cs: seq<Cand>, s: seq<nat>, n: nat)
    requires n < |cs| && s != [] && Indices(cs, s) && NoRepeat(s) && Heap(o, cs, s) && KeepsBest(o, cs, s, n)
    ensures Indices(cs, s[0 := n]) && NoRepeat(s[0 := n]) && HeapDown(o, cs, s[0 := n], 0)
  {
  }

  function Chosen(cs: seq<Cand>, s: seq<nat>): (top: seq<Cand>)
    requires Indices(cs, s)
    ensures |top| == |s| && forall i :: 0 <= i < |s| ==> top[i] == cs[s[i]]
  {
    seq(|s|, i requires 0 <= i < |s| => cs[s[i]])
  }

  lemma ChosenFront(o: Order, cs: seq<Cand>, s: seq<nat>, sorted: seq<Cand>)
    requires Distinct(cs) && Indices(cs, s) && KeepsBest(o, cs, s, |cs|)
    requires Ascending(o, sorted) && |sorted| == |s| && forall c :: c in sorted <==> c in Chosen(cs, s)
    ensures |s| <= |cs| && sorted == Ranked(o, cs)[..|s|]
  {
    hide Compare;
    var all := Ranked(o, cs);
    RankedSorts(o, cs);
    forall a, b | a in all && b in sorted && Compare(o, a, b) <= 0 ensures a in sorted {
      var x :| 0 <= x < |cs| && cs[x] == a;
      var i :| 0 <= i < |s| && Chosen(cs, s)[i] == b;
      if x !in s {
        CompareTotal(o, b, a, b);
      } else {
        var k :| 0 <= k < |s| && s[k] == x;
        assert Chosen(cs, s)[k] == a;
      }
    }
    FrontOfRanking(o, all, sorted, |sorted|);
    assert sorted[..|s|] == sorted;
  }

  lemma SortIsRanking(o: Order, cs: seq<Cand>, sorted: seq<Cand>)
    requires Distinct(cs) && Ascending(o, sorted) && |sorted| == |cs| && forall c :: c in sorted <==> c in cs
    ensures sorted == Ranked(o, cs)
  {
    hide Compare, Ranked;
    RankedSorts(o, cs);
    FrontOfRanking(o, Ranked(o, cs), sorted, |sorted|);
    assert sorted[..|sorted|] == sorted && Ranked(o, cs)[..|cs|] == Ranked(o, cs);
  }

  lemma ChosenDistinct(cs: seq<Cand>, s: seq<nat>)
    requires Distinct(cs) && Indices(cs, s) && NoRepeat(s)
    ensures Distinct(Chosen(cs, s))
  {
  }

  /** The selection is the front of the full ranking. */
  method SelectTop(o: Order, cs: seq<Cand>, k: nat) returns (top: seq<Cand>)
    requires Distinct(cs) && (k > 0 || cs == [])
    ensures top == Ranked(o, cs)[..if k < |cs| then k else |cs|]
  {
    hide Compare, Distinct, KeepsBest, NoRepeat, Ascending, Ranked;
    if k >= |cs| {
      top := Sort(o, cs);
      SortIsRanking(o, cs, top);
      assert top[..|cs|] == top;
      return;
    }
    var heap := KeepBest(o, cs, k);
    ChosenDistinct(cs, heap[..]);
    top := Sort(o, Chosen(cs, heap[..]));
    ChosenFront(o, cs, heap[..], top);
  }

  // ----- paging -----------------------------------------------------------------------------

  /** The slice of the ranking that a page at `offset` means. */
  function Slice(o: Order, cs: seq<Cand>, offset: nat, k: nat): seq<Cand>
  {
    Ranked(o, cs)[Min(offset, |cs|)..Min(offset + k, |cs|)]
  }

  /** The page the server gives at an offset. */
  function Given(o: Order, cs: seq<Cand>, offset: nat, k: nat): seq<Cand> { Slice(o, cs, Min(offset, MAX_OFFSET), k) }

  /** One page: select enough to reach past the offset, then drop the head. */
  method Page(o: Order, cs: seq<Cand>, offset: nat, topK: nat) returns (page: seq<Cand>)
    requires Distinct(cs)
    ensures page == Given(o, cs, offset, if topK == 0 then DEFAULT_TOP_K else topK)
  {
    var k := if topK == 0 then DEFAULT_TOP_K else topK;
    var from := Min(offset, MAX_OFFSET);
    var n := Min(from + k, |cs|);
    var ranked := SelectTop(o, cs, n);
    page := ranked[Min(from, n)..n];
    assert ranked == Ranked(o, cs)[..n];
    if from >= |cs| {
      assert page == [] == Ranked(o, cs)[|cs|..|cs|];
    } else {
      assert page == Ranked(o, cs)[from..n];
    }
  }

  /** Past the largest offset the page repeats one already given, so paging is exact
      just when the offset is in range or the list is short enough not to notice. */
  lemma PageExactly(o: Order, cs: seq<Cand>, offset: nat, k: nat)
    requires Distinct(cs) && k > 0
    ensures Given(o, cs, offset, k) == Slice(o, cs, offset, k) <==> offset <= MAX_OFFSET || |cs| <= MAX_OFFSET
  {
    hide Compare, Ranked;
    var all := Ranked(o, cs);
    RankedSorts(o, cs);
    if offset > MAX_OFFSET && |cs| > MAX_OFFSET {
      var near, far := Slice(o, cs, MAX_OFFSET, k), Slice(o, cs, offset, k);
      assert near[0] == all[MAX_OFFSET];
      if offset < |cs| {
        assert far[0] == all[offset] && Compare(o, all[MAX_OFFSET], all[offset]) < 0;
        CompareTotal(o, all[offset], all[offset], all[offset]);
      }
    } else if offset > MAX_OFFSET {
      assert Slice(o, cs, MAX_OFFSET, k) == [] == Slice(o, cs, offset, k);
    }
  }

  /** The first `n` pages of `k`, laid end to end. */
  function Pages(o: Order, cs: seq<Cand>, k: nat, n: nat): seq<Cand>
  {
    if n == 0 then [] else Pages(o, cs, k, n - 1) + Given(o, cs, (n - 1) * k, k)
  }

  /** The last of `n` pages starts where the server can still reach. */
  predicate InRange(cs: seq<Cand>, k: nat, n: nat)
  {
    n == 0 || (n - 1) * k <= MAX_OFFSET || |cs| <= MAX_OFFSET
  }

  /** Pages tile the ranking, nothing repeated and nothing left out, exactly as long as
      the last one starts in range or the list is short enough not to notice. */
  lemma PagesTile(o: Order, cs: seq<Cand>, k: nat, n: nat)
    requires Distinct(cs) && k > 0
    ensures Pages(o, cs, k, n) == Ranked(o, cs)[..Min(n * k, |cs|)] <==> InRange(cs, k, n)
  {
    hide Ranked, Distinct;
    if InRange(cs, k, n) {
      InRangeTiles(o, cs, k, n);
    } else {
      OutOfRangeRepeats(o, cs, k, n);
    }
  }

  lemma {:induction false} InRangeTiles(o: Order, cs: seq<Cand>, k: nat, n: nat)
    requires Distinct(cs) && k > 0 && InRange(cs, k, n)
    ensures Pages(o, cs, k, n) == Ranked(o, cs)[..Min(n * k, |cs|)]
  {
    hide Ranked, Distinct, Slice;
    var all := Ranked(o, cs);
    if n > 0 {
      var a, b := (n - 1) * k, n * k;
      assert b == a + k;
      if n > 1 {
        assert (n - 2) * k <= a;
      }
      InRangeTiles(o, cs, k, n - 1);
      PageExactly(o, cs, a, k);
      SliceExtends(o, cs, a, k);
    }
  }

  lemma SliceExtends(o: Order, cs: seq<Cand>, a: nat, k: nat)
    ensures Ranked(o, cs)[..Min(a + k, |cs|)] == Ranked(o, cs)[..Min(a, |cs|)] + Slice(o, cs, a, k)
  {
    hide Ranked;
  }

  lemma {:induction false} PagesGrow(o: Order, cs: seq<Cand>, k: nat, m: nat, n: nat)
    requires m <= n
    ensures Pages(o, cs, k, m) <= Pages(o, cs, k, n)
    decreases n
  {
    hide Given;
    if m < n {
      PagesGrow(o, cs, k, m, n - 1);
    }
  }

  /** The number of pages that start in range. */
  function Honest(k: nat): (p: nat)
    requires k > 0
    ensures p > 0 && (p - 1) * k <= MAX_OFFSET < p * k
  {
    var p := MAX_OFFSET / k + 1;
    assert MAX_OFFSET == k * (MAX_OFFSET / k) + MAX_OFFSET % k;
    p
  }

  lemma TimesGrows(a: nat, b: nat, k: nat)
    ensures a <= b ==> a * k <= b * k
  {
  }

  /** Past that, the candidate at the largest offset comes up again. */
  lemma OutOfRangeRepeats(o: Order, cs: seq<Cand>, k: nat, n: nat)
    requires Distinct(cs) && k > 0 && !InRange(cs, k, n)
    ensures Pages(o, cs, k, n) != Ranked(o, cs)[..Min(n * k, |cs|)]
  {
    hide Ranked, Distinct, Compare, Slice;
    var all, p := Ranked(o, cs), Honest(k);
    assert p < n by { TimesGrows(n - 1, p - 1, k); }
    InRangeTiles(o, cs, k, p);
    PagesGrow(o, cs, k, p + 1, n);
    var first, pages := Pages(o, cs, k, p), Pages(o, cs, k, n);
    var again := Given(o, cs, p * k, k);
    assert again != [] && again[0] == all[MAX_OFFSET] by { SliceStarts(o, cs, k); }
    assert Pages(o, cs, k, p + 1) == first + again;
    assert |first| > MAX_OFFSET && first[MAX_OFFSET] == all[MAX_OFFSET];
    assert pages[MAX_OFFSET] == first[MAX_OFFSET] && pages[|first|] == again[0];
    if pages == all[..Min(n * k, |cs|)] {
      RankedSorts(o, cs);
      assert Compare(o, all[MAX_OFFSET], all[|first|]) < 0;
      CompareTotal(o, all[MAX_OFFSET], all[MAX_OFFSET], all[MAX_OFFSET]);
    }
  }

  lemma SliceStarts(o: Order, cs: seq<Cand>, k: nat)
    requires k > 0 && |cs| > MAX_OFFSET
    ensures Slice(o, cs, MAX_OFFSET, k) != [] && Slice(o, cs, MAX_OFFSET, k)[0] == Ranked(o, cs)[MAX_OFFSET]
  {
    hide Ranked;
  }

  /** One more candidate than the largest offset. */
  function LongList(): (cs: seq<Cand>)
    ensures |cs| == MAX_OFFSET + 1 && Distinct(cs)
  {
    seq(MAX_OFFSET + 1, (i: nat) => Cand(i, i, 0.0))
  }

  /** On it, the page after the last repeats the last instead of being empty. */
  lemma LongListRepeats(o: Order)
    ensures var cs := LongList();
            && Given(o, cs, MAX_OFFSET, 1) == Given(o, cs, MAX_OFFSET + 1, 1) == [Ranked(o, cs)[MAX_OFFSET]]
            && Slice(o, cs, MAX_OFFSET + 1, 1) == []
  {
    hide Ranked, LongList;
    SliceStarts(o, LongList(), 1);
  }
}
