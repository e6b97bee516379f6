/** The vocabulary of typed facts: triples, the predicate registry's relational
    declarations, and what it means for a triple to follow by one rule. */
module Facts {

  datatype Option<+T> = None | Some(value: T)

  type Byte = x: nat | x < 256

  function Min(a: nat, b: nat): nat { if a < b then a else b }

  /** A relationship as its record lists it; the empty kind is no kind. */
  datatype Rel = Rel(to: nat, kind: string)

  /** The longest relationship kind `relate` accepts and the reverse index can intern. */
  const MAX_KIND_LEN := 64

  /** Outgoing relationships one record may hold. */
  const MAX_RELATIONSHIPS := 4096

  datatype Object = IdObj(id: nat) | TextObj(text: string)

  datatype Triple = Triple(subject: nat, pred: string, obj: Object)

  datatype Rule = Transitive | Symmetric | Inverse

  /** The part of a predicate's declaration that inference reads. */
  datatype Spec = Spec(symmetric: bool, transitive: bool, inverseOf: Option<string>)

  type Registry = map<string, Spec>

  /** `conclusion` follows from `premises` by one application of `rule`. Only
      facts whose object is a record id take part in any rule. */
  predicate Instance(reg: Registry, rule: Rule, premises: seq<Triple>, conclusion: Triple)
  {
    && |premises| == (if rule.Transitive? then 2 else 1)
    && var f := premises[0];
    && f.obj.IdObj?
    && f.pred in reg
    && match rule
       case Symmetric =>
         && reg[f.pred].symmetric
         && conclusion == Triple(f.obj.id, f.pred, IdObj(f.subject))
       case Inverse =>
         && reg[f.pred].inverseOf.Some?
         && conclusion == Triple(f.obj.id, reg[f.pred].inverseOf.value, IdObj(f.subject))
       case Transitive =>
         var g := premises[1];
         && reg[f.pred].transitive
         && g.obj.IdObj?
         && g.subject == f.obj.id
         && g.pred == f.pred
         && conclusion == Triple(f.subject, f.pred, g.obj)
  }

  /** The triples that follow from `base` by rule applications nested at most
      `n` deep: the logical closure is the union over all `n`. */
  ghost predicate Derivable(reg: Registry, base: set<Triple>, n: nat, t: Triple)
    decreases n, 1
  {
    || t in base
    || (n > 0 && exists rule: Rule, ps: seq<Triple> :: DerivableBy(reg, base, n, rule, ps, t))
  }

  ghost predicate DerivableBy(reg: Registry, base: set<Triple>, n: nat, rule: Rule,
                              ps: seq<Triple>, t: Triple)
    requires n > 0
    decreases n, 0
  {
    && Instance(reg, rule, ps, t)
    && forall k :: 0 <= k < |ps| ==> Derivable(reg, base, n - 1, ps[k])
  }

  ghost predicate InClosure(reg: Registry, base: set<Triple>, t: Triple)
  {
    exists n: nat :: Derivable(reg, base, n, t)
  }

  lemma {:induction false} DerivableMonotone(reg: Registry, base: set<Triple>, m: nat, n: nat, t: Triple)
    requires m <= n && Derivable(reg, base, m, t)
    ensures Derivable(reg, base, n, t)
    decreases m
  {
    if t !in base {
      var rule, ps :| DerivableBy(reg, base, m, rule, ps, t);
      forall k | 0 <= k < |ps| ensures Derivable(reg, base, n - 1, ps[k]) {
        DerivableMonotone(reg, base, m - 1, n - 1, ps[k]);
      }
      assert DerivableBy(reg, base, n, rule, ps, t);
    }
  }

  /** The closure is closed: a rule applied to members yields a member. */
  lemma ClosureStep(reg: Registry, base: set<Triple>, rule: Rule, ps: seq<Triple>, t: Triple)
    requires Instance(reg, rule, ps, t)
    requires forall k :: 0 <= k < |ps| ==> InClosure(reg, base, ps[k])
    ensures InClosure(reg, base, t)
  {
    var n0: nat :| Derivable(reg, base, n0, ps[0]);
    var n1: nat := n0;
    if |ps| == 2 {
      n1 :| Derivable(reg, base, n1, ps[1]);
    }
    var n := (if n0 < n1 then n1 else n0) + 1;
    DerivableMonotone(reg, base, n0, n - 1, ps[0]);
    if |ps| == 2 {
      DerivableMonotone(reg, base, n1, n - 1, ps[1]);
    }
    assert DerivableBy(reg, base, n, rule, ps, t);
    assert Derivable(reg, base, n, t);
  }
}
