/**
 * The transition table of an order-N chain and what `feed` does to it.
 *
 * The table maps a window of `order` slots to the distribution of the slot
 * observed after it. Feeding a sequence pads it with `order` leading sentinels
 * and one trailing sentinel and counts every window of width `order + 1` of the
 * padded sequence: its first `order` slots are the key, its last slot is the
 * observed next slot.
 */
module Table {
  import opened Tokens
  import opened States

  type Table<T(==)> = map<Window<T>, Dist<T>>

  /** One observed transition: a key window and the slot that followed it. */
  type Transition<T> = (Window<T>, Option<T>)

  /** How often `t` has been observed after `k`; zero when never. */
  function Count<T(==,!new)>(tb: Table<T>, k: Window<T>, t: Option<T>): nat
  {
    if k in tb then Weight(tb[k], t) else 0
  }

  /** The window `k` followed by `t`, with its first slot dropped. */
  function Successor<T>(k: Window<T>, t: Option<T>): (s: Window<T>)
    requires |k| > 0
    ensures |s| == |k|
  {
    k[1..] + [t]
  }

  /** Sliding a window of `n` slots one place onto `t`, as the generating loop does, is `Successor`. */
  lemma SlideIsSuccessor<T>(w: Window<T>, n: nat, t: Option<T>)
    requires |w| == n > 0
    ensures w[1..n] + [t] == Successor(w, t) && (w[1..n] + [t])[n - 1] == t
  {
    assert w[1..n] == w[1..];
  }

  /** Every distribution of the table holds only counted slots. */
  ghost predicate AllPositive<T(!new)>(tb: Table<T>)
  {
    forall k :: k in tb ==> Positive(tb[k])
  }

  /**
   * Whenever a real token was observed after `k`, the window it leads to is a
   * key: a walk never looks up a missing key.
   */
  ghost predicate Closed<T(!new)>(tb: Table<T>)
  {
    forall k, t :: k in tb && t in tb[k] && t.Some? && |k| > 0 ==> Successor(k, t) in tb
  }

  /** Only an all-sentinel key can hold an empty distribution. */
  ghost predicate EmptyOnlyAtStart<T(!new)>(tb: Table<T>)
  {
    forall k :: k in tb && tb[k] == map[] ==> AllSentinels(k)
  }

  /** What a walk through the table relies on, whatever the order. */
  ghost predicate Walkable<T(!new)>(tb: Table<T>)
  {
    AllPositive(tb) && Closed(tb) && EmptyOnlyAtStart(tb)
  }

  /**
   * The invariant every table built by `new`, `order` and `feed` keeps, for the
   * chain's current order.
   */
  ghost predicate ValidTable<T(!new)>(tb: Table<T>, order: nat)
  {
    order > 0 && Sentinels(order) in tb && Walkable(tb)
  }

  /**
   * The window a real token leads to is a key with a non-empty distribution,
   * since its last slot is not the sentinel.
   */
  lemma SuccessorLive<T(!new)>(tb: Table<T>, k: Window<T>, t: Option<T>)
    requires Walkable(tb)
    requires k in tb && t in tb[k] && t.Some? && |k| > 0
    ensures Successor(k, t) in tb && tb[Successor(k, t)] != map[]
  {
    var s := Successor(k, t);
    assert s[|s| - 1].Some?;
  }

  /** The distribution under `k`, or a fresh empty one when `k` is not yet a key. */
  function Lookup<T(==,!new)>(tb: Table<T>, k: Window<T>): Dist<T>
  {
    if k in tb then tb[k] else map[]
  }

  /**
   * One window of `feed`: make `k` a key if it is not one, then `add` the
   * observed slot to its distribution.
   */
  function Observe<T(==,!new)>(tb: Table<T>, k: Window<T>, t: Option<T>): (r: Table<T>)
    ensures r.Keys == tb.Keys + {k}
    ensures forall k', u :: Count(r, k', u) == Count(tb, k', u) + (if k' == k && u == t then 1 else 0)
  {
    tb[k := Add(Lookup(tb, k), t)]
  }

  /**
   * `Observe` done in place as `feed` does it: first make `k` a key with an
   * empty distribution if it is not one, then `add` to the distribution stored there.
   */
  lemma ObserveInPlace<T(!new)>(tb: Table<T>, mid: Table<T>, k: Window<T>, t: Option<T>)
    requires mid == if k in tb then tb else tb[k := map[]]
    ensures k in mid && mid[k := Add(mid[k], t)] == Observe(tb, k, t)
  {
  }

  /** The windows of `toks` of width `w + 1`, each split into key and observed slot. */
  function Windows<T>(toks: seq<Option<T>>, w: nat): (ws: seq<Transition<T>>)
    requires w <= |toks|
    ensures |ws| == |toks| - w
    ensures forall j :: 0 <= j < |ws| ==> ws[j] == (toks[j..j + w], toks[j + w])
  {
    seq(|toks| - w, j requires 0 <= j < |toks| - w => (toks[j..j + w], toks[j + w]))
  }

  /** Window `i` is the slice of width `w + 1` at `i`, split after its first `w` slots. */
  lemma WindowAt<T>(toks: seq<Option<T>>, w: nat, i: nat)
    requires i + w < |toks|
    ensures toks[i..i + w + 1][..w] == Windows(toks, w)[i].0
    ensures toks[i..i + w + 1][w] == Windows(toks, w)[i].1
  {
  }

  /** The tokens with `order` leading sentinels and one trailing sentinel. */
  function Padded<T>(order: nat, tokens: seq<T>): seq<Option<T>>
  {
    Sentinels(order) + Wrap(tokens) + [None]
  }

  /** The transitions one `feed` of `tokens` counts, in the order it counts them. */
  function Observations<T>(order: nat, tokens: seq<T>): seq<Transition<T>>
  {
    if tokens == [] then [] else Windows(Padded(order, tokens), order)
  }

  /** The table after counting each transition of `ws` in turn. */
  function Record<T(==,!new)>(tb: Table<T>, ws: seq<Transition<T>>): Table<T>
  {
    if ws == [] then tb
    else
      var last := ws[|ws| - 1];
      Observe(Record(tb, ws[..|ws| - 1]), last.0, last.1)
  }

  /** Recording one more transition observes it on top of what came before. */
  lemma RecordStep<T(!new)>(tb: Table<T>, ws: seq<Transition<T>>, i: nat)
    requires i < |ws|
    ensures Record(tb, ws[..i + 1]) == Observe(Record(tb, ws[..i]), ws[i].0, ws[i].1)
  {
    assert ws[..i + 1][..i] == ws[..i];
  }

  /** One in-place step of the counting loop records the next transition. */
  lemma RecordInPlace<T(!new)>(tb: Table<T>, ws: seq<Transition<T>>, i: nat, prev: Table<T>, mid: Table<T>, k: Window<T>, t: Option<T>)
    requires i < |ws|
    requires prev == Record(tb, ws[..i])
    requires k == ws[i].0
    requires t == ws[i].1
    requires mid == if k in prev then prev else prev[k := map[]]
    ensures k in mid && mid[k := Add(mid[k], t)] == Record(tb, ws[..i + 1])
  {
    ObserveInPlace(prev, mid, k, t);
    RecordStep(tb, ws, i);
  }

  /** The table after `feed(tokens)` at the given order. */
  function FeedTable<T(==,!new)>(tb: Table<T>, order: nat, tokens: seq<T>): Table<T>
  {
    Record(tb, Observations(order, tokens))
  }

  /** Recording adds one to a count for every occurrence of that transition, and nothing else. */
  lemma {:induction false} RecordCount<T(!new)>(tb: Table<T>, ws: seq<Transition<T>>, k: Window<T>, t: Option<T>)
    ensures Count(Record(tb, ws), k, t) == Count(tb, k, t) + multiset(ws)[(k, t)]
  {
    if ws != [] {
      var n := |ws| - 1;
      RecordCount(tb, ws[..n], k, t);
      assert ws == ws[..n] + [ws[n]];
      assert multiset(ws) == multiset(ws[..n]) + multiset{ws[n]};
    }
  }

  /** Recording never removes a key. */
  lemma {:induction false} RecordKeys<T(!new)>(tb: Table<T>, ws: seq<Transition<T>>)
    ensures tb.Keys <= Record(tb, ws).Keys
  {
    if ws != [] {
      RecordKeys(tb, ws[..|ws| - 1]);
    }
  }

  /**
   * Recording keeps weights positive and leaves no key it creates empty:
   * every recorded key holds the slot recorded after it.
   */
  lemma {:induction false} RecordKeeps<T(!new)>(tb: Table<T>, ws: seq<Transition<T>>)
    requires AllPositive(tb) && EmptyOnlyAtStart(tb)
    ensures AllPositive(Record(tb, ws)) && EmptyOnlyAtStart(Record(tb, ws))
    ensures forall j :: 0 <= j < |ws| ==>
      ws[j].0 in Record(tb, ws) && ws[j].1 in Record(tb, ws)[ws[j].0]
  {
    forall j | 0 <= j < |ws|
      ensures ws[j].0 in Record(tb, ws) && ws[j].1 in Record(tb, ws)[ws[j].0]
    {
      RecordCount(tb, ws, ws[j].0, ws[j].1);
      assert ws[j] in multiset(ws);
    }
    if ws != [] {
      var n := |ws| - 1;
      RecordKeeps(tb, ws[..n]);
      var before := Record(tb, ws[..n]);
      var after := Record(tb, ws);
      assert after[ws[n].0] == Add(Lookup(before, ws[n].0), ws[n].1);
    }
  }

  /**
   * How a feed changes the counts: every count goes up by the number of times
   * its transition occurs among the windows, and by nothing else.
   */
  lemma FeedCount<T(!new)>(tb: Table<T>, order: nat, tokens: seq<T>, k: Window<T>, t: Option<T>)
    ensures Count(FeedTable(tb, order, tokens), k, t)
         == Count(tb, k, t) + multiset(Observations(order, tokens))[(k, t)]
  {
    RecordCount(tb, Observations(order, tokens), k, t);
  }

  /**
   * A feed of `k >= 1` tokens counts exactly `k + 1` transitions: one per
   * width-`(order + 1)` window of the padded sequence; a feed of no tokens
   * counts none.
   */
  lemma ObservationsShape<T>(order: nat, tokens: seq<T>)
    ensures tokens == [] ==> Observations(order, tokens) == []
    ensures tokens != [] ==> |Observations(order, tokens)| == |tokens| + 1
    ensures forall j :: 0 <= j < |Observations(order, tokens)| ==>
      Observations(order, tokens)[j] ==
        (Padded(order, tokens)[j..j + order], Padded(order, tokens)[j + order])
  {
  }

  /** A feed never removes a key and never lowers a weight. */
  lemma FeedMonotone<T(!new)>(tb: Table<T>, order: nat, tokens: seq<T>, k: Window<T>, t: Option<T>)
    ensures Count(tb, k, t) <= Count(FeedTable(tb, order, tokens), k, t)
    ensures tb.Keys <= FeedTable(tb, order, tokens).Keys
  {
    FeedCount(tb, order, tokens, k, t);
    RecordKeys(tb, Observations(order, tokens));
  }

  /** Each transition a feed observed is present in the table afterwards. */
  lemma FeedRecords<T(!new)>(tb: Table<T>, order: nat, tokens: seq<T>, j: nat)
    requires j < |Observations(order, tokens)|
    ensures Observations(order, tokens)[j].0 in FeedTable(tb, order, tokens)
    ensures Observations(order, tokens)[j].1 in FeedTable(tb, order, tokens)[Observations(order, tokens)[j].0]
  {
    var ws := Observations(order, tokens);
    FeedCount(tb, order, tokens, ws[j].0, ws[j].1);
    assert ws[j] in multiset(ws);
  }

  /** After feeding a non-empty sequence the start window's distribution is not empty. */
  lemma FeedFillsStart<T(!new)>(tb: Table<T>, order: nat, tokens: seq<T>)
    requires tokens != []
    ensures Sentinels(order) in FeedTable(tb, order, tokens)
    ensures Some(tokens[0]) in FeedTable(tb, order, tokens)[Sentinels(order)]
  {
    var P := Padded(order, tokens);
    assert P[0..order] == Sentinels(order);
    assert P[order] == Some(tokens[0]);
    FeedRecords(tb, order, tokens, 0);
  }

  /** The window after window `j` of a padded sequence is window `j`'s successor. */
  lemma WindowStep<T>(P: seq<Option<T>>, w: nat, j: nat)
    requires 0 < w && j + 1 + w < |P|
    ensures P[j + 1..j + 1 + w] == Successor(P[j..j + w], P[j + w])
  {
  }

  /** A transition a feed added leads to a window the same feed made a key. */
  lemma FeedClosedAt<T(!new)>(tb: Table<T>, order: nat, tokens: seq<T>, k: Window<T>, t: Option<T>)
    requires ValidTable(tb, order)
    requires k in FeedTable(tb, order, tokens) && t in FeedTable(tb, order, tokens)[k]
    requires t.Some? && |k| > 0
    ensures Successor(k, t) in FeedTable(tb, order, tokens)
  {
    var ws := Observations(order, tokens);
    var F := FeedTable(tb, order, tokens);
    var s := Successor(k, t);
    RecordKeeps(tb, ws);
    assert Positive(F[k]);
    FeedCount(tb, order, tokens, k, t);
    if Count(tb, k, t) > 0 {
      assert k in tb && t in tb[k];
      assert s in tb;
      RecordKeys(tb, ws);
    } else {
      assert multiset(ws)[(k, t)] > 0;
      assert (k, t) in ws;
      var j :| 0 <= j < |ws| && ws[j] == (k, t);
      var P := Padded(order, tokens);
      ObservationsShape(order, tokens);
      assert P[|P| - 1] == None;
      assert j + 1 < |ws|;
      assert k == P[j..j + order] && t == P[j + order];
      WindowStep(P, order, j);
      assert ws[j + 1].0 == s;
      FeedRecords(tb, order, tokens, j + 1);
    }
  }

  /** Feeding preserves the table invariant. */
  lemma FeedPreservesValid<T(!new)>(tb: Table<T>, order: nat, tokens: seq<T>)
    requires ValidTable(tb, order)
    ensures ValidTable(FeedTable(tb, order, tokens), order)
  {
    var ws := Observations(order, tokens);
    var F := FeedTable(tb, order, tokens);
    RecordKeys(tb, ws);
    RecordKeeps(tb, ws);
    forall k: Window<T>, t: Option<T> | k in F && t in F[k] && t.Some? && |k| > 0
      ensures Successor(k, t) in F
    {
      FeedClosedAt(tb, order, tokens, k, t);
    }
  }
}
