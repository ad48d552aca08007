/**
 * Integers extended with -inf and +inf: the search's initial max_eval and
 * min_eval and the alpha-beta window start at math.inf, which is only ever
 * used as a sentinel below or above every score.
 */
module Extended {

  datatype ExtInt = NegInf | Fin(value: int) | PosInf

  predicate Less(a: ExtInt, b: ExtInt)
  {
    match a
    case NegInf => !b.NegInf?
    case Fin(x) => b.PosInf? || (b.Fin? && x < b.value)
    case PosInf => false
  }

  predicate LessEq(a: ExtInt, b: ExtInt)
  {
    !Less(b, a)
  }

  /** a is strictly better than b for the maximising (or the minimising) side. */
  predicate Better(maximizing: bool, a: ExtInt, b: ExtInt)
  {
    if maximizing then Less(b, a) else Less(a, b)
  }

  /** No element of vals is strictly better than w. */
  predicate NoneBetter(maximizing: bool, vals: seq<int>, w: ExtInt)
  {
    forall j :: 0 <= j < |vals| ==> !Better(maximizing, Fin(vals[j]), w)
  }

  /** Keeping the better of w and v keeps every element, v included, no better than the kept one. */
  lemma NoneBetterStep(maximizing: bool, vals: seq<int>, w: ExtInt, v: int)
    requires NoneBetter(maximizing, vals, w)
    ensures NoneBetter(maximizing, vals + [v], if Better(maximizing, Fin(v), w) then Fin(v) else w)
  {
  }

  /** The running best after seeing v: v if it is strictly better than best, else best. */
  function Keep(maximizing: bool, best: ExtInt, v: ExtInt): (r: ExtInt)
    ensures r == (if maximizing then Max(best, v) else Min(best, v))
  {
    if Better(maximizing, v, best) then v else best
  }

  /** Python's max(a, b): b when a < b, else a. */
  function Max(a: ExtInt, b: ExtInt): (r: ExtInt)
    ensures LessEq(a, r) && LessEq(b, r) && (r == a || r == b)
  {
    if Less(a, b) then b else a
  }

  /** Python's min(a, b): b when b < a, else a. */
  function Min(a: ExtInt, b: ExtInt): (r: ExtInt)
    ensures LessEq(r, a) && LessEq(r, b) && (r == a || r == b)
  {
    if Less(b, a) then b else a
  }

  /** v forced into the window [lo, hi]. */
  function Clamp(v: ExtInt, lo: ExtInt, hi: ExtInt): ExtInt
  {
    Max(lo, Min(hi, v))
  }

  /** With the window (-inf, +inf) a finite value is left as it is. */
  lemma ClampUnbounded(v: int)
    ensures Clamp(Fin(v), NegInf, PosInf) == Fin(v)
  {
  }

  /**
   * One maximising step of a fail-soft alpha-beta loop keeps the running
   * maximum m in agreement (within [lo, hi]) with the true maximum w, when
   * the child was searched with the window [max(lo, m), hi] and its result r
   * agrees with its true value v within that window.
   */
  lemma ClampMaxStep(lo: ExtInt, hi: ExtInt, m: ExtInt, w: ExtInt, r: ExtInt, v: ExtInt)
    requires Less(lo, hi) && Less(Max(lo, m), hi)
    requires Clamp(m, lo, hi) == Clamp(w, lo, hi)
    requires Clamp(r, Max(lo, m), hi) == Clamp(v, Max(lo, m), hi)
    ensures Clamp(Max(m, r), lo, hi) == Clamp(Max(w, v), lo, hi)
  {
    assert Max(lo, m) == Max(lo, w);
  }

  /** The mirror image of ClampMaxStep for a minimising loop. */
  lemma ClampMinStep(lo: ExtInt, hi: ExtInt, m: ExtInt, w: ExtInt, r: ExtInt, v: ExtInt)
    requires Less(lo, hi) && Less(lo, Min(hi, m))
    requires Clamp(m, lo, hi) == Clamp(w, lo, hi)
    requires Clamp(r, lo, Min(hi, m)) == Clamp(v, lo, Min(hi, m))
    ensures Clamp(Min(m, r), lo, hi) == Clamp(Min(w, v), lo, hi)
  {
    assert Min(hi, m) == Min(hi, w);
  }

  /**
   * A maximising cutoff: once max(lo, m) reaches hi, every value t at least
   * the true running maximum w agrees with it within [lo, hi].
   */
  lemma ClampMaxCutoff(lo: ExtInt, hi: ExtInt, m: ExtInt, w: ExtInt, t: ExtInt)
    requires Less(lo, hi) && LessEq(hi, Max(lo, m))
    requires Clamp(m, lo, hi) == Clamp(w, lo, hi)
    requires LessEq(w, t)
    ensures Clamp(t, lo, hi) == Clamp(w, lo, hi)
  {
  }

  /** A minimising cutoff: min(hi, m) has fallen to lo. */
  lemma ClampMinCutoff(lo: ExtInt, hi: ExtInt, m: ExtInt, w: ExtInt, t: ExtInt)
    requires Less(lo, hi) && LessEq(Min(hi, m), lo)
    requires Clamp(m, lo, hi) == Clamp(w, lo, hi)
    requires LessEq(t, w)
    ensures Clamp(t, lo, hi) == Clamp(w, lo, hi)
  {
  }

  /**
   * The window of the alpha-beta loop for either side: alpha raised to the
   * running best when maximising, beta lowered to it when minimising.
   */
  predicate InWindow(maximizing: bool, lo: ExtInt, hi: ExtInt, best: ExtInt, a: ExtInt, b: ExtInt)
  {
    if maximizing then a == Max(lo, best) && b == hi else a == lo && b == Min(hi, best)
  }

  /**
   * Raising alpha to v when maximising, or lowering beta to v when
   * minimising, keeps the window in step with the running best.
   */
  lemma WindowNext(maximizing: bool, lo: ExtInt, hi: ExtInt, best: ExtInt, a: ExtInt, b: ExtInt, v: ExtInt)
    requires InWindow(maximizing, lo, hi, best, a, b)
    ensures InWindow(maximizing, lo, hi, Keep(maximizing, best, v),
                     if maximizing then Max(a, v) else a, if maximizing then b else Min(b, v))
  {
  }

  /** One loop step of either side keeps the running best in agreement with the true best. */
  lemma WindowStep(maximizing: bool, lo: ExtInt, hi: ExtInt, best: ExtInt, w: ExtInt, a: ExtInt, b: ExtInt, r: ExtInt, v: ExtInt)
    requires Less(lo, hi) && InWindow(maximizing, lo, hi, best, a, b) && Less(a, b)
    requires Clamp(best, lo, hi) == Clamp(w, lo, hi)
    requires Clamp(r, a, b) == Clamp(v, a, b)
    ensures Clamp(Keep(maximizing, best, r), lo, hi) == Clamp(Keep(maximizing, w, v), lo, hi)
  {
    if maximizing {
      ClampMaxStep(lo, hi, best, w, r, v);
    } else {
      ClampMinStep(lo, hi, best, w, r, v);
    }
  }

  /** At a cutoff every value t at least as good as the true best w agrees with w within [lo, hi]. */
  lemma WindowCutoff(maximizing: bool, lo: ExtInt, hi: ExtInt, best: ExtInt, w: ExtInt, a: ExtInt, b: ExtInt, t: ExtInt)
    requires Less(lo, hi) && InWindow(maximizing, lo, hi, best, a, b) && LessEq(b, a)
    requires Clamp(best, lo, hi) == Clamp(w, lo, hi)
    requires !Better(maximizing, w, t)
    ensures Clamp(t, lo, hi) == Clamp(w, lo, hi)
  {
    if maximizing {
      ClampMaxCutoff(lo, hi, best, w, t);
    } else {
      ClampMinCutoff(lo, hi, best, w, t);
    }
  }
  /**
   * The running best of the first n values of vals for the side to move,
   * starting from the sentinel -inf (maximising) or +inf (minimising), as
   * max_eval and min_eval are kept.
   */
  function BestOf(maximizing: bool, vals: seq<int>, n: nat): (r: ExtInt)
    requires n <= |vals|
    ensures n == 0 <==> r == (if maximizing then NegInf else PosInf)
    decreases n
  {
    if n == 0 then (if maximizing then NegInf else PosInf)
    else Keep(maximizing, BestOf(maximizing, vals, n - 1), Fin(vals[n - 1]))
  }

  /**
   * After at least one value the running best is one of the first n values,
   * and none of them is strictly better.
   */
  lemma {:induction false} BestOfAttained(maximizing: bool, vals: seq<int>, n: nat)
    requires 0 < n <= |vals|
    ensures exists k :: 0 <= k < n && BestOf(maximizing, vals, n) == Fin(vals[k])
    ensures forall j :: 0 <= j < n ==> !Better(maximizing, Fin(vals[j]), BestOf(maximizing, vals, n))
  {
    if n == 1 {
      assert BestOf(maximizing, vals, 1) == Fin(vals[0]);
    } else {
      BestOfAttained(maximizing, vals, n - 1);
      var k :| 0 <= k < n - 1 && BestOf(maximizing, vals, n - 1) == Fin(vals[k]);
      if !Better(maximizing, Fin(vals[n - 1]), Fin(vals[k])) {
        assert BestOf(maximizing, vals, n) == Fin(vals[k]);
      } else {
        assert BestOf(maximizing, vals, n) == Fin(vals[n - 1]);
      }
    }
  }

  /** If no value is strictly better than t, neither is their running best. */
  lemma {:induction false} BestOfBounded(maximizing: bool, vals: seq<int>, n: nat, t: ExtInt)
    requires n <= |vals| && t.Fin?
    requires forall j :: 0 <= j < n ==> !Better(maximizing, Fin(vals[j]), t)
    ensures !Better(maximizing, BestOf(maximizing, vals, n), t)
  {
    if n > 0 {
      BestOfBounded(maximizing, vals, n - 1, t);
    }
  }
}
