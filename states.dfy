/**
 * The distribution of one window (`States` for `HashMap<ArcToken<T>, usize>`):
 * counting an observed next slot (`add`) and the weighted draw (`next`).
 *
 * The hash map's iteration order is implementation-defined, so the draw is
 * stated over an explicit scan order: a sequence of (slot, weight) entries that
 * enumerates the map. The random number is a parameter `draw`; the generator's
 * `gen_range(0, sum)` is modelled as `draw % sum`, which takes every value of
 * `[0, sum)` as `draw` ranges over the naturals.
 */
module States {
  import opened Tokens

  /** One entry of a distribution as the scan visits it: a slot and its weight. */
  type Entry<T> = (Option<T>, nat)

  /** The weight of `t` in `d`, zero when `t` has never been counted. */
  function Weight<T(==,!new)>(d: Dist<T>, t: Option<T>): nat
  {
    if t in d then d[t] else 0
  }

  /** Every slot present in the distribution has been counted at least once. */
  ghost predicate Positive<T(!new)>(d: Dist<T>)
  {
    forall t :: t in d ==> d[t] > 0
  }

  /** `e` lists every entry of `d` exactly once, with its weight. */
  ghost predicate Enumerates<T(!new)>(e: seq<Entry<T>>, d: Dist<T>)
  {
    && (forall i :: 0 <= i < |e| ==> e[i].0 in d && e[i].1 == d[e[i].0])
    && (forall i, j :: 0 <= i < j < |e| ==> e[i].0 != e[j].0)
    && (forall t :: t in d ==> exists i :: 0 <= i < |e| && e[i].0 == t)
  }

  /**
   * `add`: an existing slot's count goes up by exactly one, a new slot is
   * inserted with count one, and every other count is left as it was.
   */
  function Add<T(==,!new)>(d: Dist<T>, t: Option<T>): (r: Dist<T>)
    ensures r.Keys == d.Keys + {t}
    ensures forall u :: Weight(r, u) == Weight(d, u) + (if u == t then 1 else 0)
    ensures Positive(d) ==> Positive(r)
  {
    if t in d then d[t := d[t] + 1] else d[t := 1]
  }

  /** The total weight of the entries, accumulated from the front. */
  function Sum<T>(e: seq<Entry<T>>): nat
  {
    if e == [] then 0 else Sum(e[..|e| - 1]) + e[|e| - 1].1
  }

  lemma SumSnoc<T>(e: seq<Entry<T>>, i: nat)
    requires i < |e|
    ensures Sum(e[..i + 1]) == Sum(e[..i]) + e[i].1
  {
    assert e[..i + 1][..i] == e[..i];
  }

  /** Running totals never go down along the scan. */
  lemma {:induction false} SumPrefixMono<T>(e: seq<Entry<T>>, i: nat, j: nat)
    requires i <= j <= |e|
    ensures Sum(e[..i]) <= Sum(e[..j])
  {
    if i < j {
      SumPrefixMono(e, i, j - 1);
      SumSnoc(e, j - 1);
    }
  }

  /** The total weight is positive exactly when some entry has a positive weight. */
  lemma {:induction false} SumPositiveIff<T>(e: seq<Entry<T>>)
    ensures Sum(e) > 0 <==> exists i :: 0 <= i < |e| && e[i].1 > 0
  {
    if e != [] {
      var n := |e| - 1;
      SumPositiveIff(e[..n]);
      if Sum(e[..n]) > 0 {
        var i :| 0 <= i < n && e[..n][i].1 > 0;
        assert e[i].1 > 0;
      }
      if exists i :: 0 <= i < |e| && e[i].1 > 0 {
        var i :| 0 <= i < |e| && e[i].1 > 0;
        if i < n {
          assert e[..n][i].1 > 0;
        }
      }
    }
  }

  /**
   * A distribution built only by `add` can be drawn from exactly when it is not
   * empty: on an empty one `gen_range(0, 0)` has no value to return.
   */
  lemma DrawableIffNonEmpty<T(!new)>(e: seq<Entry<T>>, d: Dist<T>)
    requires Enumerates(e, d) && Positive(d)
    ensures Sum(e) > 0 <==> d != map[]
  {
    SumPositiveIff(e);
    if d != map[] {
      var t :| t in d;
      var i :| 0 <= i < |e| && e[i].0 == t;
      assert e[i].1 > 0;
    }
    if Sum(e) > 0 {
      var i :| 0 <= i < |e| && e[i].1 > 0;
      assert e[i].0 in d;
    }
  }

  /**
   * The entry the scan stops at for `cap`: the first one whose running total
   * exceeds `cap`. Its weight is positive.
   */
  function Select<T>(e: seq<Entry<T>>, cap: nat): (i: nat)
    requires cap < Sum(e)
    ensures i < |e|
    ensures Sum(e[..i]) <= cap < Sum(e[..i + 1])
    ensures e[i].1 > 0
  {
    assert e[..|e|] == e;
    var i := SelectFrom(e, cap, 0);
    SumSnoc(e, i);
    i
  }

  function SelectFrom<T>(e: seq<Entry<T>>, cap: nat, j: nat): (i: nat)
    requires cap < Sum(e) && j < |e|
    requires forall k :: 0 < k <= j ==> Sum(e[..k]) <= cap
    ensures j <= i < |e|
    ensures Sum(e[..i]) <= cap < Sum(e[..i + 1])
    ensures forall k :: 0 < k <= i ==> Sum(e[..k]) <= cap
    decreases |e| - j
  {
    if cap < Sum(e[..j + 1]) then j
    else
      assert e[..|e|] == e;
      SelectFrom(e, cap, j + 1)
  }

  /** Conversely, the entry whose running-total interval holds `cap` is the one selected. */
  lemma SelectBracket<T>(e: seq<Entry<T>>, i: nat, cap: nat)
    requires i < |e| && Sum(e[..i]) <= cap < Sum(e[..i + 1])
    ensures cap < Sum(e) && Select(e, cap) == i
  {
    SumPrefixMono(e, i + 1, |e|);
    assert e[..|e|] == e;
    var s := Select(e, cap);
    if s < i {
      SumPrefixMono(e, s + 1, i);
    }
  }

  /**
   * `next`: sum the weights, reduce the draw into `[0, sum)`, and scan for the
   * first entry whose running total exceeds it.
   */
  method Next<T>(e: seq<Entry<T>>, draw: nat) returns (t: Option<T>)
    requires Sum(e) > 0
    ensures t == e[Select(e, draw % Sum(e))].0
  {
    var sum := 0;
    for i := 0 to |e|
      invariant sum == Sum(e[..i])
    {
      SumSnoc(e, i);
      sum := sum + e[i].1;
    }
    assert e[..|e|] == e;
    var cap := draw % sum;
    sum := 0;
    for i := 0 to |e|
      invariant sum == Sum(e[..i]) <= cap
    {
      SumSnoc(e, i);
      sum := sum + e[i].1;
      if sum > cap {
        SelectBracket(e, i, cap);
        return e[i].0;
      }
    }
    assert false;
  }

  /** The naturals in `[a, b)`. */
  function Interval(a: nat, b: nat): (r: set<nat>)
    ensures forall c :: c in r <==> a <= c < b
    decreases b
  {
    if b <= a then {} else Interval(a, b - 1) + {b - 1}
  }

  lemma {:induction false} IntervalSize(a: nat, b: nat)
    requires a <= b
    ensures |Interval(a, b)| == b - a
    decreases b
  {
    if a < b {
      IntervalSize(a, b - 1);
    }
  }

  /**
   * Of the `Sum(e)` equally likely values of the cap, exactly `e[i].1` select
   * entry `i`, whatever the scan order: the draw picks an entry with
   * probability weight / sum.
   */
  lemma SelectCount<T>(e: seq<Entry<T>>, i: nat)
    requires i < |e|
    ensures |set c: nat | c < Sum(e) && Select(e, c) == i| == e[i].1
  {
    SumSnoc(e, i);
    SumPrefixMono(e, i + 1, |e|);
    assert e[..|e|] == e;
    var lo, hi := Sum(e[..i]), Sum(e[..i + 1]);
    var hits := set c: nat | c < Sum(e) && Select(e, c) == i;
    forall c: nat | c < Sum(e) && Select(e, c) == i
      ensures lo <= c < hi
    {
    }
    forall c: nat | lo <= c < hi
      ensures c < Sum(e) && Select(e, c) == i
    {
      SelectBracket(e, i, c);
    }
    assert hits == Interval(lo, hi);
    IntervalSize(lo, hi);
  }

  /**
   * The same statement for a slot of the distribution: of the `Sum(e)` values
   * of the cap, exactly `d[t]` make `next` return `t`.
   */
  lemma DrawCount<T(!new)>(e: seq<Entry<T>>, d: Dist<T>, t: Option<T>)
    requires Enumerates(e, d) && t in d
    ensures |set c: nat | c < Sum(e) && e[Select(e, c)].0 == t| == d[t]
  {
    var i :| 0 <= i < |e| && e[i].0 == t;
    forall c: nat | c < Sum(e)
      ensures e[Select(e, c)].0 == t <==> Select(e, c) == i
    {
    }
    assert (set c: nat | c < Sum(e) && e[Select(e, c)].0 == t)
        == (set c: nat | c < Sum(e) && Select(e, c) == i);
    SelectCount(e, i);
  }

  // A stock arithmetic fact, kept as its own lemma so the proofs that use it stay cheap.
  lemma ModBelow(c: nat, n: nat)
    requires c < n
    ensures c % n == c
  {
  }

  /** A draw that makes `next` return the slot `t`: the running total before `t`'s entry. */
  ghost function DrawFor<T(!new)>(e: seq<Entry<T>>, d: Dist<T>, t: Option<T>): (c: nat)
    requires Enumerates(e, d) && Positive(d) && t in d
    ensures c < Sum(e) && c % Sum(e) == c && e[Select(e, c)].0 == t
  {
    var i :| 0 <= i < |e| && e[i].0 == t;
    assert e[i].1 == d[t] > 0;
    SumSnoc(e, i);
    SelectBracket(e, i, Sum(e[..i]));
    ModBelow(Sum(e[..i]), Sum(e));
    Sum(e[..i])
  }

  /** What `next` returns is a slot of the distribution with a positive weight. */
  lemma SelectInSupport<T(!new)>(e: seq<Entry<T>>, d: Dist<T>, cap: nat)
    requires Enumerates(e, d) && cap < Sum(e)
    ensures e[Select(e, cap)].0 in d && d[e[Select(e, cap)].0] > 0
  {
  }
}
