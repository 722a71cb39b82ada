/**
 * `ArcChain`: the transition table and the order it is currently used at, with
 * the operations that build it (`new`, `order`, `feed`) and read it
 * (`is_empty`, `generate`, `generate_from_token`), and the bounded iterator
 * over generated sequences.
 */
module Chain {
  import opened Tokens
  import opened States
  import opened Table
  import opened Synthesis

  class ArcChain<T(==,!new)> {
    var table: Table<T>
    var order: nat

    ghost predicate Valid()
      reads this
    {
      ValidTable(table, order)
    }

    /** `new`: order 1, and a single key, the one-sentinel window, with an empty distribution. */
    constructor ()
      ensures Valid()
      ensures order == 1 && table == map[[None] := map[]]
      ensures IsEmpty()
    {
      table := map[Sentinels(1) := map[]];
      order := 1;
      assert Sentinels<T>(1) == [None];
    }

    /**
     * `is_empty`: nothing has been observed after the start window of the
     * current order.
     */
    function IsEmpty(): (b: bool)
      reads this
      requires Valid()
      ensures b <==> forall t :: Count(table, Sentinels(order), t) == 0
    {
      if table[Sentinels(order)] == map[] then true
      else
        var t :| t in table[Sentinels(order)];
        assert Count(table, Sentinels(order), t) > 0;
        false
    }

    /**
     * `order(n)`: the order becomes `n`, and the start window of that order is
     * (re)inserted with an empty distribution, replacing whatever it held.
     * Keys of other lengths stay in the table.
     */
    method SetOrder(n: nat)
      requires Valid()
      requires n > 0
      modifies this
      ensures Valid()
      ensures order == n && table == old(table)[Sentinels(n) := map[]]
      ensures IsEmpty()
    {
      ghost var before := table;
      order := n;
      table := table[Sentinels(order) := map[]];
      forall k, t | k in table && t in table[k] && t.Some? && |k| > 0
        ensures Successor(k, t) in table
      {
        var s := Successor(k, t);
        assert s[|s| - 1] == t;
        assert s != Sentinels(n);
        assert k in before && t in before[k];
      }
    }

    /**
     * `feed`: count, for every width-`(order + 1)` window of the tokens padded
     * with `order` sentinels in front and one behind, the window's last slot
     * under the key made of its first `order` slots. No tokens: no change.
     */
    method Feed(tokens: seq<T>)
      requires Valid()
      modifies this`table
      ensures Valid()
      ensures table == FeedTable(old(table), order, tokens)
      ensures tokens == [] ==> table == old(table)
      ensures tokens != [] ==> !IsEmpty()
    {
      if tokens == [] {
        return;
      }
      var toks := Sentinels(order) + Wrap(tokens) + [None];
      ghost var before := table;
      CountWindows(toks);
      FeedPreservesValid(before, order, tokens);
      FeedFillsStart(before, order, tokens);
      assert Count(table, Sentinels(order), Some(tokens[0])) > 0;
    }

    /**
     * The loop of `feed`: for each window of width `order + 1` of `toks`, make
     * its first `order` slots a key if they are not one, and `add` its last slot there.
     */
    method CountWindows(toks: seq<Option<T>>)
      requires order <= |toks|
      modifies this`table
      ensures table == Record(old(table), Windows(toks, order))
    {
      ghost var ws := Windows(toks, order);
      var i := 0;
      while i + order < |toks|
        invariant 0 <= i <= |toks| - order
        invariant table == Record(old(table), ws[..i])
      {
        var p := toks[i..i + order + 1];
        ghost var prev := table;
        WindowAt(toks, order, i);
        if p[..order] !in table {
          table := table[p[..order] := map[]];
        }
        RecordInPlace(old(table), ws, i, prev, table, p[..order], p[order]);
        table := table[p[..order] := Add(table[p[..order]], p[order])];
        i := i + 1;
      }
      assert ws[..i] == ws;
    }

    /**
     * The loop `generate` and `generate_from_token` share: from `start`, draw,
     * slide the window, keep real tokens after `prefix`, stop on the sentinel.
     */
    method Run(scan: Scan<T>, start: Window<T>, prefix: seq<T>, draws: seq<nat>) returns (r: Outcome<T>)
      requires Walkable(table) && ScanFits(table, scan) && order > 0
      requires |start| == order && start in table && table[start] != map[]
      ensures r == Prepend(prefix, Walk(table, scan, start, draws))
    {
      var ret := prefix;
      var curs := start;
      var i := 0;
      while i < |draws|
        invariant i <= |draws|
        invariant |curs| == order && curs in table && table[curs] != map[]
        invariant Prepend(prefix, Walk(table, scan, start, draws)) == Prepend(ret, Walk(table, scan, curs, draws[i..]))
      {
        DrawableIffNonEmpty(scan(curs), table[curs]);
        var next := Next(scan(curs), draws[i]);
        WalkSlide(table, scan, curs, draws, i, next, ret);
        SlideIsSuccessor(curs, order, next);
        curs := curs[1..order] + [next];
        if next.Some? {
          ret := ret + [next.value];
        }
        if curs[order - 1].None? {
          return Done(ret);
        }
        i := i + 1;
      }
      return OutOfDraws;
    }

    /**
     * `generate`: the walk from the start window. Its tokens, followed by the
     * sentinel, are a walk through observed transitions.
     */
    method Generate(scan: Scan<T>, draws: seq<nat>) returns (r: Outcome<T>)
      requires Valid() && ScanFits(table, scan)
      requires !IsEmpty()
      ensures table[Sentinels(order)] != map[]
      ensures r == Walk(table, scan, Sentinels(order), draws)
      ensures r.Done? ==> ValidWalk(table, Sentinels(order), r.tokens)
    {
      r := Run(scan, Sentinels(order), [], draws);
      match Walk(table, scan, Sentinels(order), draws)
      case Done(ts) => assert [] + ts == ts;
      case OutOfDraws =>
    }

    /**
     * `generate_from_token`: empty when the window of `order` copies of `token`
     * is not a key; otherwise `token` followed by the walk from that window.
     */
    method GenerateFromToken(scan: Scan<T>, token: T, draws: seq<nat>) returns (r: Outcome<T>)
      requires Valid() && ScanFits(table, scan)
      ensures r == WalkFromToken(table, scan, order, token, draws)
      ensures Seed(token, order) !in table ==> r == Done([])
    {
      var seed := Seed(token, order);
      if seed !in table {
        return Done([]);
      }
      assert seed[0] == Some(token);
      r := Run(scan, seed, [token], draws);
    }
  }

  /**
   * `SizedChainIterator`, made by `iter_for(size)`: yields a generated sequence
   * on each of the first `size` pulls and nothing afterwards.
   */
  class SizedChainIterator<T(==,!new)> {
    const chain: ArcChain<T>
    var size: nat
    /** The count it was made with, and how many sequences it has yielded so far. */
    ghost const total: nat
    ghost var yielded: nat

    ghost predicate Valid()
      reads this
    {
      size + yielded == total
    }

    /** `iter_for(size)`. */
    constructor (chain: ArcChain<T>, size: nat)
      ensures Valid() && this.chain == chain && this.size == size
      ensures total == size && yielded == 0
    {
      this.chain := chain;
      this.size := size;
      total := size;
      yielded := 0;
    }

    /** `next`: while the count is positive, decrement it and generate. */
    method Next(scan: Scan<T>, draws: seq<nat>) returns (item: Option<Outcome<T>>)
      requires Valid() && chain.Valid() && ScanFits(chain.table, scan)
      requires size > 0 ==> !chain.IsEmpty()
      modifies this
      ensures Valid()
      ensures item.Some? <==> old(yielded) < total
      ensures size == if old(size) > 0 then old(size) - 1 else 0
      ensures yielded == if item.Some? then old(yielded) + 1 else old(yielded)
      ensures item.Some? ==> chain.table[Sentinels(chain.order)] != map[]
      ensures item.Some? ==> item.value == Walk(chain.table, scan, Sentinels(chain.order), draws)
    {
      if size > 0 {
        size := size - 1;
        yielded := yielded + 1;
        var out := chain.Generate(scan, draws);
        item := Some(out);
      } else {
        item := None;
      }
    }

    /** `size_hint`: the number of sequences still to come, as both bounds. */
    function SizeHint(): (r: (nat, Option<nat>))
      reads this
      requires Valid()
      ensures r.0 == total - yielded && r.1 == Some(r.0)
    {
      (size, Some(size))
    }
  }
}
