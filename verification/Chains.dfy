/** Repeated application of a partial deterministic step. */
module Chains {
  import opened Text

  /** `b` comes from `a` by exactly n steps. */
  ghost predicate Reaches<T(!new)>(next: T -> Option<T>, a: T, b: T, n: nat) {
    if n == 0 then a == b else next(a).Some? && Reaches(next, next(a).value, b, n - 1)
  }

  ghost predicate Leads<T(!new)>(next: T -> Option<T>, a: T, b: T) {
    exists n: nat :: Reaches(next, a, b, n)
  }

  lemma {:induction false} ReachesThen<T(!new)>(next: T -> Option<T>, a: T, b: T, c: T, n: nat, m: nat)
    requires Reaches(next, a, b, n) && Reaches(next, b, c, m)
    ensures Reaches(next, a, c, n + m)
  {
    if n > 0 {
      ReachesThen(next, next(a).value, b, c, n - 1, m);
    }
  }

  lemma LeadsThen<T(!new)>(next: T -> Option<T>, a: T, b: T, c: T)
    requires Leads(next, a, b) && Leads(next, b, c)
    ensures Leads(next, a, c)
  {
    var n: nat :| Reaches(next, a, b, n);
    var m: nat :| Reaches(next, b, c, m);
    ReachesThen(next, a, b, c, n, m);
  }

  lemma LeadsSelf<T(!new)>(next: T -> Option<T>, a: T)
    ensures Leads(next, a, a)
  {
    assert Reaches(next, a, a, 0);
  }

  lemma LeadsOne<T(!new)>(next: T -> Option<T>, a: T, b: T)
    requires next(b).Some? && Leads(next, a, b)
    ensures Leads(next, a, next(b).value)
  {
    var c := next(b).value;
    assert Reaches(next, c, c, 0);
    assert Reaches(next, b, c, 1);
    LeadsThen(next, a, b, c);
  }

  /** Two ways from one start that both end where no step is left end at the same place. */
  lemma {:induction false} EndsAgree<T(!new)>(next: T -> Option<T>, a: T, b: T, c: T, n: nat, m: nat)
    requires Reaches(next, a, b, n) && Reaches(next, a, c, m)
    requires next(b).None? && next(c).None?
    ensures b == c
  {
    if n > 0 && m > 0 {
      EndsAgree(next, next(a).value, b, c, n - 1, m - 1);
    }
  }
}
