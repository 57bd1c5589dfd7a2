/**
 * Path costs of the D* Lite planner.  The planner only ever stores the
 * float values 1.0f and +infinity as step costs, and starts every g and rhs
 * value at +infinity (or 0 for the goal), so every value it computes is a
 * natural number or infinity.  ExtNat models those floats exactly.
 */
module Costs {

  datatype ExtNat = Fin(n: nat) | Inf

  /** Float addition restricted to naturals and infinity. */
  function Add(a: ExtNat, b: ExtNat): (r: ExtNat)
    ensures r.Inf? <==> a.Inf? || b.Inf?
  {
    if a.Inf? || b.Inf? then Inf else Fin(a.n + b.n)
  }

  /** Float `<`: infinity is not below itself. */
  predicate Less(a: ExtNat, b: ExtNat)
  {
    match (a, b)
    case (Fin(x), Fin(y)) => x < y
    case (Fin(_), Inf) => true
    case (Inf, _) => false
  }

  /** std::min(a, b), which returns `a` unless `b < a`. */
  function Min(a: ExtNat, b: ExtNat): (r: ExtNat)
    ensures r == a || r == b
    ensures !Less(a, r) && !Less(b, r)
  {
    if Less(b, a) then b else a
  }

  lemma LessIsStrictTotalOrder(a: ExtNat, b: ExtNat, c: ExtNat)
    ensures !Less(a, a)
    ensures Less(a, b) && Less(b, c) ==> Less(a, c)
    ensures a == b || Less(a, b) || Less(b, a)
    ensures !(Less(a, b) && Less(b, a))
  {
  }

  /** A queue key: the pair<float, float> of calculateKey. */
  datatype Key = Key(primary: ExtNat, secondary: ExtNat)

  /** Lexicographic std::pair `<`, which is also the order in which the
      priority queue's comparator puts its smallest element on top. */
  predicate KeyLess(a: Key, b: Key)
  {
    Less(a.primary, b.primary) || (a.primary == b.primary && Less(a.secondary, b.secondary))
  }

  lemma KeyLessIsStrictOrder(a: Key, b: Key, c: Key)
    ensures !KeyLess(a, a)
    ensures KeyLess(a, b) && KeyLess(b, c) ==> KeyLess(a, c)
    ensures a == b || KeyLess(a, b) || KeyLess(b, a)
  {
    LessIsStrictTotalOrder(a.primary, b.primary, c.primary);
    LessIsStrictTotalOrder(a.secondary, b.secondary, c.secondary);
  }
}
