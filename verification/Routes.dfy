/** Justifications of a derived record: their order, and the sorted set of at
    most four that a record keeps. The inference pass attaches a confidence to
    each route (`note`); a stored record does not. */
module Routes {
  import opened Facts

  const MAX_ROUTES := 4

  datatype Route<+X> = Route(rule: Rule, depth: nat, premises: seq<nat>, note: X)

  function RuleCode(r: Rule): nat
  {
    match r
    case Transitive => 1
    case Symmetric => 2
    case Inverse => 3
  }

  /** Premise ids first, then how many, then the rule; depth and note are not part
      of a route's identity. */
  function Cmp<X>(a: Route<X>, b: Route<X>): int
  {
    var c := LexCmp(a.premises, b.premises);
    if c != 0 then c
    else if RuleCode(a.rule) != RuleCode(b.rule) then (if RuleCode(a.rule) < RuleCode(b.rule) then -1 else 1)
    else 0
  }

  function LexCmp(a: seq<nat>, b: seq<nat>): (c: int)
    ensures c == 0 <==> a == b
  {
    if a == [] || b == [] then (if a == b then 0 else if a == [] then -1 else 1)
    else if a[0] != b[0] then (if a[0] < b[0] then -1 else 1)
    else
      assert a == [a[0]] + a[1..] && b == [b[0]] + b[1..];
      LexCmp(a[1..], b[1..])
  }

  lemma {:induction false} LexOrder(a: seq<nat>, b: seq<nat>, c: seq<nat>)
    ensures LexCmp(a, b) < 0 <==> LexCmp(b, a) > 0
    ensures LexCmp(a, b) <= 0 && LexCmp(b, c) <= 0 ==> LexCmp(a, c) <= 0
  {
    if a != [] && b != [] && a[0] == b[0] {
      LexOrder(a[1..], b[1..], if c == [] then [] else c[1..]);
    }
  }

  /** The order is total. */
  lemma CmpOrder<X>(a: Route<X>, b: Route<X>, c: Route<X>)
    ensures Cmp(a, b) == 0 <==> a.premises == b.premises && a.rule == b.rule
    ensures Cmp(a, b) < 0 <==> Cmp(b, a) > 0
    ensures Cmp(a, b) < 0 && Cmp(b, c) < 0 ==> Cmp(a, c) < 0
    ensures Cmp(a, b) == 0 ==> (Cmp(a, c) < 0 <==> Cmp(b, c) < 0) && (Cmp(c, a) < 0 <==> Cmp(c, b) < 0)
  {
    LexOrder(a.premises, b.premises, c.premises);
    LexOrder(b.premises, c.premises, a.premises);
    LexOrder(c.premises, a.premises, b.premises);
  }

  /** The comparison as written: common prefix, then lengths, then rules. */
  method RouteCmp<X>(a: Route<X>, b: Route<X>) returns (c: int)
    ensures c == Cmp(a, b)
  {
    var n := if |a.premises| < |b.premises| then |a.premises| else |b.premises|;
    assert a.premises[0..] == a.premises && b.premises[0..] == b.premises;
    for i := 0 to n
      invariant LexCmp(a.premises, b.premises) == LexCmp(a.premises[i..], b.premises[i..])
    {
      if a.premises[i] != b.premises[i] {
        return if a.premises[i] < b.premises[i] then -1 else 1;
      }
      assert a.premises[i..][1..] == a.premises[i + 1..] && b.premises[i..][1..] == b.premises[i + 1..];
    }
    if |a.premises| != |b.premises| {
      return if |a.premises| < |b.premises| then -1 else 1;
    }
    if RuleCode(a.rule) != RuleCode(b.rule) {
      return if RuleCode(a.rule) < RuleCode(b.rule) then -1 else 1;
    }
    return 0;
  }

  predicate Sorted<X>(rs: seq<Route<X>>) { forall i, j :: 0 <= i < j < |rs| ==> Cmp(rs[i], rs[j]) < 0 }

  /** Where `rt` belongs: the first kept route not below it. */
  function Position<X>(rs: seq<Route<X>>, rt: Route<X>): (at: nat)
    ensures at <= |rs|
    ensures forall i :: 0 <= i < at ==> Cmp(rt, rs[i]) > 0
    ensures at < |rs| ==> Cmp(rt, rs[at]) <= 0
  {
    if rs == [] || Cmp(rt, rs[0]) <= 0 then 0 else 1 + Position(rs[1..], rt)
  }

  function Insert<X>(rs: seq<Route<X>>, rt: Route<X>): seq<Route<X>>
  {
    var at := Position(rs, rt);
    if at < |rs| && Cmp(rt, rs[at]) == 0 then rs
    else if |rs| < MAX_ROUTES then rs[..at] + [rt] + rs[at..]
    else if at < MAX_ROUTES then rs[..at] + [rt] + rs[at..|rs| - 1]
    else rs
  }

  /** The kept set accounts for `r`: it is there, or the set is full of lower ones. */
  ghost predicate Covers<X>(rs: seq<Route<X>>, r: Route<X>)
  {
    || (exists i :: 0 <= i < |rs| && Cmp(r, rs[i]) == 0)
    || (|rs| == MAX_ROUTES && Cmp(rs[MAX_ROUTES - 1], r) < 0)
  }

  lemma SpliceSorted<X>(rs: seq<Route<X>>, rt: Route<X>, at: nat, hi: nat)
    requires Sorted(rs) && at <= hi <= |rs|
    requires forall i :: 0 <= i < at ==> Cmp(rs[i], rt) < 0
    requires forall i :: at <= i < hi ==> Cmp(rt, rs[i]) < 0
    ensures Sorted(rs[..at] + [rt] + rs[at..hi])
  {
  }

  lemma InsertSorted<X>(rs: seq<Route<X>>, rt: Route<X>)
    requires Sorted(rs) && |rs| <= MAX_ROUTES
    ensures Sorted(Insert(rs, rt)) && 0 < |Insert(rs, rt)| <= MAX_ROUTES
  {
    hide Cmp;
    var at := Position(rs, rt);
    if at < |rs| && Cmp(rt, rs[at]) == 0 {
      return;
    }
    forall i | at <= i < |rs| ensures Cmp(rt, rs[i]) < 0 {
      CmpOrder(rt, rs[at], rs[i]);
    }
    forall i | 0 <= i < at ensures Cmp(rs[i], rt) < 0 {
      CmpOrder(rs[i], rt, rt);
    }
    if |rs| < MAX_ROUTES {
      SpliceSorted(rs, rt, at, |rs|);
    } else if at < MAX_ROUTES {
      SpliceSorted(rs, rt, at, |rs| - 1);
    }
  }

  lemma InsertMembers<X>(rs: seq<Route<X>>, rt: Route<X>)
    ensures forall r :: r in Insert(rs, rt) ==> r in rs || r == rt
  {
  }

  lemma InsertCovers<X>(rs: seq<Route<X>>, rt: Route<X>, r: Route<X>)
    requires Sorted(rs) && |rs| <= MAX_ROUTES
    requires Covers(rs, r) || r == rt
    ensures Covers(Insert(rs, rt), r)
  {
    hide Cmp, Insert, Covers;
    if Insert(rs, rt) == rs {
      UnchangedCovers(rs, rt);
    } else if r == rt {
      InsertedAt(rs, rt);
      CmpOrder(rt, rt, rt);
      CoveredBy(Insert(rs, rt), rt, Position(rs, rt));
    } else {
      OldCovered(rs, rt, r);
    }
  }

  lemma CoveredBy<X>(rs: seq<Route<X>>, r: Route<X>, i: nat)
    requires i < |rs| && Cmp(r, rs[i]) == 0
    ensures Covers(rs, r)
  {
  }

  /** A route that leaves the set as it is was there, or ranks past a full set. */
  lemma UnchangedCovers<X>(rs: seq<Route<X>>, rt: Route<X>)
    requires Sorted(rs) && |rs| <= MAX_ROUTES && Insert(rs, rt) == rs
    ensures Covers(rs, rt)
  {
    hide Cmp;
    var at := Position(rs, rt);
    if !(at < |rs| && Cmp(rt, rs[at]) == 0) {
      assert |rs| < MAX_ROUTES ==> |Insert(rs, rt)| == |rs| + 1;
      InsertedOrLast(rs, rt);
      CmpOrder(rs[MAX_ROUTES - 1], rt, rt);
    }
  }

  lemma InsertedOrLast<X>(rs: seq<Route<X>>, rt: Route<X>)
    requires |rs| == MAX_ROUTES && Insert(rs, rt) == rs
             && !(Position(rs, rt) < |rs| && Cmp(rt, rs[Position(rs, rt)]) == 0)
    ensures Position(rs, rt) == MAX_ROUTES
  {
  }

  lemma InsertedAt<X>(rs: seq<Route<X>>, rt: Route<X>)
    requires |rs| <= MAX_ROUTES && Insert(rs, rt) != rs
    ensures var at := Position(rs, rt); at < |Insert(rs, rt)| && Insert(rs, rt)[at] == rt
    ensures forall i :: 0 <= i < |rs| ==>
              var j := if i < Position(rs, rt) then i else i + 1; j < |Insert(rs, rt)| ==> Insert(rs, rt)[j] == rs[i]
    ensures |Insert(rs, rt)| == if |rs| < MAX_ROUTES then |rs| + 1 else |rs|
    ensures |rs| == MAX_ROUTES ==> Position(rs, rt) < MAX_ROUTES
  {
    hide Cmp, Position;
    var at := Position(rs, rt);
    if |rs| < MAX_ROUTES {
      SpliceAt(rs, rt, at, |rs|);
    } else {
      SpliceAt(rs, rt, at, |rs| - 1);
    }
  }

  lemma SpliceAt<X>(rs: seq<Route<X>>, rt: Route<X>, at: nat, hi: nat)
    requires at <= hi <= |rs|
    ensures var out := rs[..at] + [rt] + rs[at..hi];
            && |out| == hi + 1 && out[at] == rt
            && (forall i :: 0 <= i < at ==> out[i] == rs[i]) && (forall i :: at <= i < hi ==> out[i + 1] == rs[i])
  {
  }

  lemma OldCovered<X>(rs: seq<Route<X>>, rt: Route<X>, r: Route<X>)
    requires Sorted(rs) && |rs| <= MAX_ROUTES && Covers(rs, r) && Insert(rs, rt) != rs
    ensures Covers(Insert(rs, rt), r)
  {
    hide Cmp, Insert;
    var at := Position(rs, rt);
    InsertedAt(rs, rt);
    if i :| 0 <= i < |rs| && Cmp(r, rs[i]) == 0 {
      var j := if i < at then i else i + 1;
      if j < |Insert(rs, rt)| {
        CoveredBy(Insert(rs, rt), r, j);
      } else {
        Displaced(rs, rt, r);
      }
    } else {
      Displaced(rs, rt, r);
    }
  }

  /** A route at or above the last of a full set stays accounted for when a lower
      one pushes that last route out. */
  lemma Displaced<X>(rs: seq<Route<X>>, rt: Route<X>, r: Route<X>)
    requires Sorted(rs) && |rs| == MAX_ROUTES && Position(rs, rt) < MAX_ROUTES && Insert(rs, rt) != rs
    requires Cmp(rs[MAX_ROUTES - 1], r) < 0 || Cmp(r, rs[MAX_ROUTES - 1]) == 0
    ensures Covers(Insert(rs, rt), r)
  {
    var at := Position(rs, rt);
    var last := rs[MAX_ROUTES - 1];
    var new' := Insert(rs, rt)[MAX_ROUTES - 1];
    assert Cmp(new', last) < 0 by {
      if at == MAX_ROUTES - 1 {
        assert new' == rt;
      } else {
        assert new' == rs[MAX_ROUTES - 2];
      }
    }
    CmpOrder(new', last, r);
    CmpOrder(r, last, new');
  }

  /** Find the position, then shift the tail right, dropping it past the cap. */
  method RoutesInsert<X>(rs: seq<Route<X>>, rt: Route<X>) returns (out: seq<Route<X>>, changed: bool)
    requires |rs| <= MAX_ROUTES
    ensures out == Insert(rs, rt) && (changed <==> out != rs)
  {
    var at := |rs|;
    assert rs[0..] == rs;
    for i := 0 to |rs|
      invariant at == |rs| && Position(rs, rt) == i + Position(rs[i..], rt)
    {
      var c := RouteCmp(rt, rs[i]);
      if c == 0 {
        return rs, false;
      }
      if c < 0 {
        at := i;
        break;
      }
      assert rs[i..][1..] == rs[i + 1..];
    }
    if |rs| >= MAX_ROUTES {
      if at >= MAX_ROUTES {
        return rs, false;
      }
      out := rs[..at] + [rt] + rs[at..|rs| - 1];
    } else {
      out := rs[..at] + [rt] + rs[at..];
    }
    changed := true;
    CmpOrder(rt, rt, rt);
    assert out[at] == rt;
    assert at < |rs| ==> Cmp(rt, rs[at]) < 0;
  }

  lemma NotBelow<X>(a: seq<Route<X>>, b: seq<Route<X>>, i: nat)
    requires Sorted(a) && Sorted(b) && |b| <= MAX_ROUTES
    requires i < |a| && i < |b| && a[..i] == b[..i] && Covers(b, a[i])
    ensures Cmp(a[i], b[i]) >= 0
  {
    hide Cmp;
    if j :| 0 <= j < |b| && Cmp(a[i], b[j]) == 0 {
      CmpOrder(a[i], b[j], b[i]);
      CmpOrder(b[i], b[j], a[i]);
      if j < i {
        assert b[j] == b[..i][j] == a[j];
        CmpOrder(a[j], a[i], b[j]);
      }
    } else {
      CmpOrder(b[MAX_ROUTES - 1], a[i], b[i]);
      CmpOrder(b[MAX_ROUTES - 1], b[i], b[i]);
      CmpOrder(b[i], b[i], b[i]);
    }
  }

  /** Both sets keep a route of `pool` and account for all of it. */
  ghost predicate Keeps<X(!new)>(rs: seq<Route<X>>, pool: iset<Route<X>>)
  {
    && Sorted(rs) && |rs| <= MAX_ROUTES
    && (forall r :: r in rs ==> r in pool)
    && (forall r :: r in pool ==> Covers(rs, r))
  }

  lemma {:induction false} KeptPrefix<X(!new)>(a: seq<Route<X>>, b: seq<Route<X>>, pool: iset<Route<X>>, i: nat)
    requires Keeps(a, pool) && Keeps(b, pool) && i <= |a| && i <= |b|
    requires forall r, q :: r in pool && q in pool && Cmp(r, q) == 0 ==> r == q
    ensures a[..i] == b[..i]
  {
    hide Cmp, Covers;
    if i > 0 {
      KeptPrefix(a, b, pool, i - 1);
      NotBelow(a, b, i - 1);
      NotBelow(b, a, i - 1);
      CmpOrder(a[i - 1], b[i - 1], a[i - 1]);
      assert a[..i] == a[..i - 1] + [a[i - 1]] && b[..i] == b[..i - 1] + [b[i - 1]];
    }
  }

  /** A kept set is no longer than another of the same pool. */
  lemma KeptNoLonger<X(!new)>(a: seq<Route<X>>, b: seq<Route<X>>, pool: iset<Route<X>>)
    requires Keeps(a, pool) && Keeps(b, pool)
    requires forall r, q :: r in pool && q in pool && Cmp(r, q) == 0 ==> r == q
    ensures |b| <= |a|
  {
    hide Cmp;
    if |a| < |b| {
      KeptPrefix(a, b, pool, |a|);
      var extra := b[|a|];
      assert Covers(a, extra);
      var j :| 0 <= j < |a| && Cmp(extra, a[j]) == 0;
      assert a[j] == b[..|a|][j] == b[j];
      CmpOrder(b[j], extra, extra);
    }
  }

  /** A kept set is determined by the routes it was offered, in whatever order, as
      long as routes of the same identity are the same route. */
  lemma KeptUnique<X(!new)>(a: seq<Route<X>>, b: seq<Route<X>>, pool: iset<Route<X>>)
    requires Keeps(a, pool) && Keeps(b, pool)
    requires forall r, q :: r in pool && q in pool && Cmp(r, q) == 0 ==> r == q
    ensures a == b
  {
    hide Cmp, Keeps;
    KeptNoLonger(a, b, pool);
    KeptNoLonger(b, a, pool);
    KeptPrefix(a, b, pool, |a|);
    assert a[..|a|] == a && b[..|b|] == b;
  }
}
