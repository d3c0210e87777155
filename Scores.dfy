/**
 * Scores of the search. The source computes them as doubles, but every finite
 * score is an integer combination (20 * distance + 10 * freedom plus integer
 * penalties), so an integer extended with the two infinities is exact.
 */
module Scores {
  import opened Sets

  datatype Score = NegInf | Fin(v: int) | PosInf

  predicate Le(a: Score, b: Score)
  {
    a.NegInf? || b.PosInf? || (a.Fin? && b.Fin? && a.v <= b.v)
  }

  predicate Lt(a: Score, b: Score)
  {
    Le(a, b) && a != b
  }

  /** Math.max on scores. */
  function Max(a: Score, b: Score): (r: Score)
    ensures Le(a, r) && Le(b, r)
    ensures r == a || r == b
  {
    if Le(a, b) then b else a
  }

  /** Math.min on scores. */
  function Min(a: Score, b: Score): (r: Score)
    ensures Le(r, a) && Le(r, b)
    ensures r == a || r == b
  {
    if Le(a, b) then a else b
  }

  /** Adding a finite penalty: the infinities absorb it, as in IEEE doubles. */
  function Add(s: Score, p: int): (r: Score)
    ensures r.Fin? <==> s.Fin?
    ensures s.Fin? ==> r.v == s.v + p
    ensures p == 0 ==> r == s
  {
    match s
    case Fin(x) => Fin(x + p)
    case _ => s
  }

  /** Le is a total order on scores. */
  lemma LeTotalOrder(a: Score, b: Score, c: Score)
    ensures Le(a, a)
    ensures Le(a, b) || Le(b, a)
    ensures Le(a, b) && Le(b, a) ==> a == b
    ensures Le(a, b) && Le(b, c) ==> Le(a, c)
  {
  }

  /** The fail-soft alpha-beta contract of a search result r against the true
      value v in the window (alpha, beta): a result at or below alpha is an
      upper bound of v, one at or above beta a lower bound, and one strictly
      inside the window is exact. */
  predicate FailSoft(r: Score, alpha: Score, beta: Score, v: Score)
  {
    && (Le(r, alpha) ==> Le(v, r))
    && (Le(beta, r) ==> Le(r, v))
    && (Lt(alpha, r) && Lt(r, beta) ==> r == v)
  }

  /** In the full window (-inf, +inf) the fail-soft contract means exactness. */
  lemma FailSoftFullWindow(r: Score, v: Score)
    requires FailSoft(r, NegInf, PosInf, v)
    ensures r == v
  {
  }

  /** One step of a maximising ply: the child's result e, searched in the
      window (a, beta) with a == Max(alpha, maxEval), is folded into maxEval
      and a. Without a cut-off the new maximum bounds the child's value c, and
      equals it when it rose above alpha; with a cut-off the new maximum is e,
      at least beta and a lower bound of c. */
  lemma MaxPlyStep(alpha: Score, beta: Score, a: Score, maxEval: Score, e: Score, c: Score)
    requires a == Max(alpha, maxEval) && Lt(a, beta) && FailSoft(e, a, beta, c)
    ensures Max(a, e) == Max(alpha, Max(maxEval, e))
    ensures !Le(beta, Max(a, e)) ==>
      && Lt(Max(a, e), beta)
      && Le(c, Max(maxEval, e))
      && (Lt(alpha, Max(maxEval, e)) && Max(maxEval, e) != maxEval ==> c == Max(maxEval, e))
    ensures Le(beta, Max(a, e)) ==> Max(maxEval, e) == e && Le(beta, e) && Le(e, c)
  {
  }

  /** The dual step of a minimising ply, in the window (alpha, bt) with
      bt == Min(beta, minEval). */
  lemma MinPlyStep(alpha: Score, beta: Score, bt: Score, minEval: Score, e: Score, c: Score)
    requires bt == Min(beta, minEval) && Lt(alpha, bt) && FailSoft(e, alpha, bt, c)
    ensures Min(bt, e) == Min(beta, Min(minEval, e))
    ensures !Le(Min(bt, e), alpha) ==>
      && Lt(alpha, Min(bt, e))
      && Le(Min(minEval, e), c)
      && (Lt(Min(minEval, e), beta) && Min(minEval, e) != minEval ==> c == Min(minEval, e))
    ensures Le(Min(bt, e), alpha) ==> Min(minEval, e) == e && Le(e, alpha) && Le(c, e)
  {
  }

  /** A ply cut off at or above beta returns a lower bound of its value. */
  lemma CutHigh(alpha: Score, beta: Score, r: Score, v: Score)
    requires Lt(alpha, beta) && Le(beta, r) && Le(r, v)
    ensures FailSoft(r, alpha, beta, v)
  {
  }

  /** A ply cut off at or below alpha returns an upper bound of its value. */
  lemma CutLow(alpha: Score, beta: Score, r: Score, v: Score)
    requires Lt(alpha, beta) && Le(r, alpha) && Le(v, r)
    ensures FailSoft(r, alpha, beta, v)
  {
  }

  /** The largest of the scores f[t] for t in ts (-infinity for none). */
  ghost function MaxOf<T>(f: map<T, Score>, ts: set<T>): Score
    requires ts <= f.Keys
    decreases ts
  {
    if ts == {} then NegInf
    else
      SetHasElement(ts);
      var t :| t in ts;
      Max(f[t], MaxOf(f, ts - {t}))
  }

  /** The smallest of the scores f[t] for t in ts (+infinity for none). */
  ghost function MinOf<T>(f: map<T, Score>, ts: set<T>): Score
    requires ts <= f.Keys
    decreases ts
  {
    if ts == {} then PosInf
    else
      SetHasElement(ts);
      var t :| t in ts;
      Min(f[t], MinOf(f, ts - {t}))
  }

  /** MaxOf is the maximum: it bounds every score and, unless ts is empty,
      is one of them. */
  lemma {:induction false} MaxOfSpec<T>(f: map<T, Score>, ts: set<T>)
    requires ts <= f.Keys
    ensures forall t :: t in ts ==> Le(f[t], MaxOf(f, ts))
    ensures ts == {} ==> MaxOf(f, ts) == NegInf
    ensures ts != {} ==> exists t :: t in ts && MaxOf(f, ts) == f[t]
    decreases ts
  {
    if ts != {} {
      assert exists t :: (t in ts && MaxOf(f, ts) == Max(f[t], MaxOf(f, ts - {t})));
      var t :| t in ts && MaxOf(f, ts) == Max(f[t], MaxOf(f, ts - {t}));
      MaxOfSpec(f, ts - {t});
      forall t' | t' in ts ensures Le(f[t'], MaxOf(f, ts)) {
        if t' != t {
          LeTotalOrder(f[t'], MaxOf(f, ts - {t}), MaxOf(f, ts));
        }
      }
    }
  }

  /** MinOf is the minimum, dually. */
  lemma {:induction false} MinOfSpec<T>(f: map<T, Score>, ts: set<T>)
    requires ts <= f.Keys
    ensures forall t :: t in ts ==> Le(MinOf(f, ts), f[t])
    ensures ts == {} ==> MinOf(f, ts) == PosInf
    ensures ts != {} ==> exists t :: t in ts && MinOf(f, ts) == f[t]
    decreases ts
  {
    if ts != {} {
      assert exists t :: (t in ts && MinOf(f, ts) == Min(f[t], MinOf(f, ts - {t})));
      var t :| t in ts && MinOf(f, ts) == Min(f[t], MinOf(f, ts - {t}));
      MinOfSpec(f, ts - {t});
      forall t' | t' in ts ensures Le(MinOf(f, ts), f[t']) {
        if t' != t {
          LeTotalOrder(MinOf(f, ts), MinOf(f, ts - {t}), f[t']);
        }
      }
    }
  }

  /** MaxOf does not depend on the order the elements are taken in: adding
      one adds its score to the maximum. */
  lemma MaxOfInsert<T>(f: map<T, Score>, ts: set<T>, t: T)
    requires ts <= f.Keys && t in f && t !in ts
    ensures MaxOf(f, ts + {t}) == Max(f[t], MaxOf(f, ts))
  {
    var big := MaxOf(f, ts + {t});
    var small := MaxOf(f, ts);
    MaxOfSpec(f, ts);
    MaxOfSpec(f, ts + {t});
    if ts != {} {
      var w :| w in ts && small == f[w];
      assert Le(small, big);
    }
    var w' :| w' in ts + {t} && big == f[w'];
    if w' != t {
      assert Le(big, small);
    }
    LeTotalOrder(big, Max(f[t], small), small);
  }

  /** MinOf does not depend on the order the elements are taken in. */
  lemma MinOfInsert<T>(f: map<T, Score>, ts: set<T>, t: T)
    requires ts <= f.Keys && t in f && t !in ts
    ensures MinOf(f, ts + {t}) == Min(f[t], MinOf(f, ts))
  {
    var big := MinOf(f, ts + {t});
    var small := MinOf(f, ts);
    MinOfSpec(f, ts);
    MinOfSpec(f, ts + {t});
    if ts != {} {
      var w :| w in ts && small == f[w];
      assert Le(big, small);
    }
    var w' :| w' in ts + {t} && big == f[w'];
    if w' != t {
      assert Le(small, big);
    }
    LeTotalOrder(big, Min(f[t], small), small);
  }

  /** One child of a maximising ply over the scores f: the moves done so far
      gave maxEval, fail-soft against their MaxOf, and the child t was
      searched in (Max(alpha, maxEval), beta). Without a cut-off that stays
      true with t added; with one, the child's result is fail-soft against
      the MaxOf of all the children. */
  lemma MaxPlyAdvance<T>(f: map<T, Score>, all: set<T>, alpha: Score, beta: Score,
                         maxEval: Score, done: set<T>, t: T, e: Score)
    requires all <= f.Keys && done <= all && t in all && t !in done
    requires Lt(alpha, beta) && Lt(Max(alpha, maxEval), beta)
    requires FailSoft(maxEval, alpha, beta, MaxOf(f, done))
    requires FailSoft(e, Max(alpha, maxEval), beta, f[t])
    ensures Max(Max(alpha, maxEval), e) == Max(alpha, Max(maxEval, e))
    ensures !Le(beta, Max(alpha, Max(maxEval, e))) ==>
      FailSoft(Max(maxEval, e), alpha, beta, MaxOf(f, done + {t}))
    ensures Le(beta, Max(alpha, Max(maxEval, e))) ==>
      Max(maxEval, e) == e && FailSoft(e, alpha, beta, MaxOf(f, all))
  {
    MaxPlyStep(alpha, beta, Max(alpha, maxEval), maxEval, e, f[t]);
    if Le(beta, Max(alpha, Max(maxEval, e))) {
      MaxOfSpec(f, all);
      LeTotalOrder(e, f[t], MaxOf(f, all));
      CutHigh(alpha, beta, e, MaxOf(f, all));
    } else {
      MaxOfInsert(f, done, t);
    }
  }

  /** One child of a minimising ply, dually. */
  lemma MinPlyAdvance<T>(f: map<T, Score>, all: set<T>, alpha: Score, beta: Score,
                         minEval: Score, done: set<T>, t: T, e: Score)
    requires all <= f.Keys && done <= all && t in all && t !in done
    requires Lt(alpha, beta) && Lt(alpha, Min(beta, minEval))
    requires FailSoft(minEval, alpha, beta, MinOf(f, done))
    requires FailSoft(e, alpha, Min(beta, minEval), f[t])
    ensures Min(Min(beta, minEval), e) == Min(beta, Min(minEval, e))
    ensures !Le(Min(beta, Min(minEval, e)), alpha) ==>
      FailSoft(Min(minEval, e), alpha, beta, MinOf(f, done + {t}))
    ensures Le(Min(beta, Min(minEval, e)), alpha) ==>
      Min(minEval, e) == e && FailSoft(e, alpha, beta, MinOf(f, all))
  {
    MinPlyStep(alpha, beta, Min(beta, minEval), minEval, e, f[t]);
    if Le(Min(beta, Min(minEval, e)), alpha) {
      MinOfSpec(f, all);
      LeTotalOrder(MinOf(f, all), f[t], e);
      CutLow(alpha, beta, e, MinOf(f, all));
    } else {
      MinOfInsert(f, done, t);
    }
  }

  /** (s, key) is the lexicographic maximum of the pairs (f[t], g[t]) over
      done: no t in done has a higher f, nor an equal f and a higher g. */
  ghost predicate LexBest<T>(f: map<T, Score>, g: map<T, Score>, done: set<T>, s: Score, key: Score)
    requires done <= f.Keys && done <= g.Keys
  {
    forall t :: t in done ==> Le(f[t], s) && (f[t] == s ==> Le(g[t], key))
  }

  /** A single candidate is its own lexicographic maximum. */
  lemma LexBestSingleton<T>(f: map<T, Score>, g: map<T, Score>, t: T)
    requires t in f && t in g
    ensures LexBest(f, g, {t}, f[t], g[t])
  {
    LeTotalOrder(f[t], f[t], f[t]);
    LeTotalOrder(g[t], g[t], g[t]);
  }

  /** Folding in one more candidate t: it replaces the maximum exactly when it
      is strictly greater, first by f and then by g. */
  lemma LexBestInsert<T>(f: map<T, Score>, g: map<T, Score>, done: set<T>, s: Score, key: Score, t: T)
    requires done <= f.Keys && done <= g.Keys && t in f && t in g
    requires LexBest(f, g, done, s, key)
    ensures var better := Lt(s, f[t]) || (f[t] == s && Lt(key, g[t]));
      LexBest(f, g, done + {t}, if better then f[t] else s, if better then g[t] else key)
  {
    var better := Lt(s, f[t]) || (f[t] == s && Lt(key, g[t]));
    var s' := if better then f[t] else s;
    var key' := if better then g[t] else key;
    forall u | u in done + {t} ensures Le(f[u], s') && (f[u] == s' ==> Le(g[u], key')) {
      LeTotalOrder(f[u], s, f[t]);
      LeTotalOrder(g[u], key, g[t]);
      LeTotalOrder(s, f[t], f[u]);
    }
  }

  /** The lexicographic maximum's first component is the MaxOf of f. */
  lemma LexBestIsMaxOf<T>(f: map<T, Score>, g: map<T, Score>, ts: set<T>, best: T)
    requires ts <= f.Keys && ts <= g.Keys && best in ts
    requires LexBest(f, g, ts, f[best], g[best])
    ensures f[best] == MaxOf(f, ts)
  {
    MaxOfSpec(f, ts);
    var t :| t in ts && MaxOf(f, ts) == f[t];
    assert Le(f[t], f[best]);
    LeTotalOrder(f[best], f[t], f[t]);
  }

  /** The maximum Stream.max returns: a t of ts whose pair (f[t], g[t]) is
      lexicographically greatest. A candidate replaces the current one only
      when strictly greater, so of two equal pairs the first scanned stays. */
  method LexArgMax<T>(f: map<T, Score>, g: map<T, Score>, ts: set<T>) returns (best: T)
    requires ts != {} && ts <= f.Keys && ts <= g.Keys
    ensures best in ts && LexBest(f, g, ts, f[best], g[best])
  {
    var todo := ts;
    SetHasElement(todo);
    best :| best in todo;
    todo := todo - {best};
    ghost var done := {best};
    LexBestSingleton(f, g, best);
    while todo != {}
      invariant todo + done == ts && todo !! done && best in done
      invariant LexBest(f, g, done, f[best], g[best])
      decreases todo
    {
      SetHasElement(todo);
      var t :| t in todo;
      LexBestInsert(f, g, done, f[best], g[best], t);
      if Lt(f[best], f[t]) || (f[t] == f[best] && Lt(g[best], g[t])) {
        best := t;
      }
      done := done + {t};
      todo := todo - {t};
    }
  }
}
