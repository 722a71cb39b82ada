/**
 * Sequence synthesis: the walk `generate` and `generate_from_token` take
 * through the table.
 *
 * From the current window, draw the next slot from the window's distribution,
 * slide the window one slot forward onto it, keep it if it is a real token,
 * and stop as soon as the sentinel is drawn. The random numbers are a finite
 * sequence `draws`, one per step; a walk that uses them all up before drawing
 * the sentinel ends in `OutOfDraws` (the program would keep drawing).
 */
module Synthesis {
  import opened Tokens
  import opened States
  import opened Table

  /** The iteration order of the distribution stored under each key. */
  type Scan<!T> = Window<T> -> seq<Entry<T>>

  /** `scan` lists, for each key of the table, exactly the entries of its distribution. */
  ghost predicate ScanFits<T(!new)>(tb: Table<T>, scan: Scan<T>)
  {
    forall k :: k in tb ==> Enumerates(scan(k), tb[k])
  }

  datatype Outcome<T> = Done(tokens: seq<T>) | OutOfDraws

  /** The outcome with `prefix` put in front of the tokens, if there are any. */
  function Prepend<T>(prefix: seq<T>, o: Outcome<T>): Outcome<T>
  {
    match o
    case Done(ts) => Done(prefix + ts)
    case OutOfDraws => OutOfDraws
  }

  /**
   * `out` followed by the sentinel can be produced from window `w`: every
   * step goes from a key of the table to a slot observed after it, and the
   * window slides onto that slot.
   */
  ghost predicate ValidWalk<T(!new)>(tb: Table<T>, w: Window<T>, out: seq<T>)
    decreases |out|
  {
    && |w| > 0
    && w in tb
    && if out == [] then None in tb[w]
       else Some(out[0]) in tb[w] && ValidWalk(tb, Successor(w, Some(out[0])), out[1..])
  }

  /**
   * The walk from window `w`, one draw per step. Whatever it returns is a valid
   * walk from `w`, and it used one draw more than the tokens it returns.
   */
  function Walk<T(==,!new)>(tb: Table<T>, scan: Scan<T>, w: Window<T>, draws: seq<nat>): (r: Outcome<T>)
    requires Walkable(tb) && ScanFits(tb, scan)
    requires |w| > 0 && w in tb && tb[w] != map[]
    ensures r.Done? ==> ValidWalk(tb, w, r.tokens) && |r.tokens| < |draws|
    decreases |draws|
  {
    if draws == [] then OutOfDraws
    else
      var e := scan(w);
      DrawableIffNonEmpty(e, tb[w]);
      var t := e[Select(e, draws[0] % Sum(e))].0;
      SelectInSupport(e, tb[w], draws[0] % Sum(e));
      if t.Some? then SuccessorLive(tb, w, t); Prepend([t.value], Walk(tb, scan, Successor(w, t), draws[1..]))
      else Done([])
  }

  /**
   * Conversely, every valid walk is what some draws produce: at each step the
   * running total before the wanted slot's entry.
   */
  ghost function DrawsFor<T(!new)>(tb: Table<T>, scan: Scan<T>, w: Window<T>, out: seq<T>): (draws: seq<nat>)
    requires Walkable(tb) && ScanFits(tb, scan)
    requires ValidWalk(tb, w, out)
    ensures tb[w] != map[]
    ensures |draws| == |out| + 1 && Walk(tb, scan, w, draws) == Done(out)
    decreases |out|
  {
    var t := if out == [] then None else Some(out[0]);
    assert t in tb[w];
    var e := scan(w);
    var d := DrawFor(e, tb[w], t);
    if out == [] then
      WalkStep(tb, scan, w, [d]);
      [d]
    else
      var s := Successor(w, t);
      SuccessorLive(tb, w, t);
      var rest := DrawsFor(tb, scan, s, out[1..]);
      var draws := [d] + rest;
      assert draws[1..] == rest;
      WalkStep(tb, scan, w, draws);
      HeadTail(out);
      draws
  }

  // A stock sequence fact, kept as its own lemma so the proof that uses it stays cheap.
  lemma HeadTail<T>(s: seq<T>)
    requires s != []
    ensures [s[0]] + s[1..] == s
  {
  }

  /** One step of the walk: the first draw picks the slot, the rest continue from its successor. */
  lemma WalkStep<T(!new)>(tb: Table<T>, scan: Scan<T>, w: Window<T>, draws: seq<nat>)
    requires Walkable(tb) && ScanFits(tb, scan)
    requires |w| > 0 && w in tb && tb[w] != map[] && draws != []
    ensures Sum(scan(w)) > 0
    ensures
      var e := scan(w);
      var t := e[Select(e, draws[0] % Sum(e))].0;
      && t in tb[w]
      && (t.Some? ==> Successor(w, t) in tb && tb[Successor(w, t)] != map[])
      && Walk(tb, scan, w, draws) ==
           if t.None? then Done([]) else Prepend([t.value], Walk(tb, scan, Successor(w, t), draws[1..]))
  {
    var e := scan(w);
    DrawableIffNonEmpty(e, tb[w]);
    var t := e[Select(e, draws[0] % Sum(e))].0;
    SelectInSupport(e, tb[w], draws[0] % Sum(e));
    if t.Some? {
      SuccessorLive(tb, w, t);
    }
  }

  /**
   * One step of the walk seen from the loop that runs it: `t`, the slot the
   * first draw selects, either ends the walk or is appended to the tokens so
   * far, and the walk continues from the successor window on the rest.
   */
  lemma WalkSlide<T(!new)>(tb: Table<T>, scan: Scan<T>, w: Window<T>, draws: seq<nat>, i: nat, t: Option<T>, ret: seq<T>)
    requires Walkable(tb) && ScanFits(tb, scan)
    requires |w| > 0 && w in tb && tb[w] != map[] && i < |draws|
    requires Sum(scan(w)) > 0 && t == scan(w)[Select(scan(w), draws[i] % Sum(scan(w)))].0
    ensures t.None? ==> Prepend(ret, Walk(tb, scan, w, draws[i..])) == Done(ret)
    ensures t.Some? ==> Successor(w, t) in tb && tb[Successor(w, t)] != map[]
    ensures t.Some? ==>
      Prepend(ret, Walk(tb, scan, w, draws[i..])) == Prepend(ret + [t.value], Walk(tb, scan, Successor(w, t), draws[i + 1..]))
  {
    WalkStep(tb, scan, w, draws[i..]);
    assert draws[i..][1..] == draws[i + 1..];
    if t.Some? {
      PrependTwice(ret, [t.value], Walk(tb, scan, Successor(w, t), draws[i + 1..]));
    } else {
      assert ret + [] == ret;
    }
  }

  // A stock fact about prepending, kept as its own lemma so the proofs that use it stay cheap.
  lemma PrependTwice<T>(a: seq<T>, b: seq<T>, o: Outcome<T>)
    ensures Prepend(a, Prepend(b, o)) == Prepend(a + b, o)
  {
    if o.Done? {
      assert a + (b + o.tokens) == (a + b) + o.tokens;
    }
  }

  /** The outputs the walk can produce from `w` are exactly the valid walks from `w`. */
  lemma WalkOutputs<T(!new)>(tb: Table<T>, scan: Scan<T>, w: Window<T>, out: seq<T>)
    requires Walkable(tb) && ScanFits(tb, scan)
    requires |w| > 0 && w in tb && tb[w] != map[]
    ensures ValidWalk(tb, w, out) <==> exists draws :: Walk(tb, scan, w, draws) == Done(out)
  {
    if ValidWalk(tb, w, out) {
      var draws := DrawsFor(tb, scan, w, out);
      assert Walk(tb, scan, w, draws) == Done(out);
    }
    if exists draws :: Walk(tb, scan, w, draws) == Done(out) {
      var draws :| Walk(tb, scan, w, draws) == Done(out);
      assert Walk(tb, scan, w, draws).tokens == out;
    }
  }

  /**
   * `generate_from_token`: nothing when the seed window of `order` copies of
   * `t` is not a key; otherwise `t` followed by the walk from the seed window.
   */
  function WalkFromToken<T(==,!new)>(tb: Table<T>, scan: Scan<T>, order: nat, t: T, draws: seq<nat>): (r: Outcome<T>)
    requires ValidTable(tb, order) && ScanFits(tb, scan)
    ensures Seed(t, order) !in tb ==> r == Done([])
    ensures Seed(t, order) in tb && r.Done? ==>
      r.tokens != [] && r.tokens[0] == t && ValidWalk(tb, Seed(t, order), r.tokens[1..])
  {
    var seed := Seed(t, order);
    if seed !in tb then Done([])
    else
      assert seed[0] == Some(t);
      var rest := Walk(tb, scan, seed, draws);
      if rest.Done? then
        assert ([t] + rest.tokens)[1..] == rest.tokens;
        Done([t] + rest.tokens)
      else OutOfDraws
  }

  /** The walk a feed leaves behind from window `j` of the padded sequence onwards. */
  lemma {:induction false} FedSuffixIsWalk<T(!new)>(tb: Table<T>, order: nat, tokens: seq<T>, j: nat)
    requires order > 0 && tokens != [] && j <= |tokens|
    ensures ValidWalk(FeedTable(tb, order, tokens), Padded(order, tokens)[j..j + order], tokens[j..])
    decreases |tokens| - j
  {
    var P := Padded(order, tokens);
    var F := FeedTable(tb, order, tokens);
    ObservationsShape(order, tokens);
    FeedRecords(tb, order, tokens, j);
    if j < |tokens| {
      assert P[j + order] == Some(tokens[j]);
      WindowStep(P, order, j);
      FedSuffixIsWalk(tb, order, tokens, j + 1);
      assert tokens[j..][1..] == tokens[j + 1..];
    } else {
      assert P[j + order] == None;
    }
  }

  /** Every sequence fed to the chain is a walk the table now allows from the start window. */
  lemma FedSequenceIsWalk<T(!new)>(tb: Table<T>, order: nat, tokens: seq<T>)
    requires order > 0 && tokens != []
    ensures ValidWalk(FeedTable(tb, order, tokens), Sentinels(order), tokens)
  {
    FedSuffixIsWalk(tb, order, tokens, 0);
    assert Padded(order, tokens)[0..order] == Sentinels(order);
    assert tokens[0..] == tokens;
  }

  /** After a feed of `tokens`, some draws make `generate` return exactly `tokens`. */
  lemma FedSequenceGeneratable<T(!new)>(tb: Table<T>, scan: Scan<T>, order: nat, tokens: seq<T>)
    requires ValidTable(tb, order) && tokens != []
    requires ScanFits(FeedTable(tb, order, tokens), scan)
    ensures ValidTable(FeedTable(tb, order, tokens), order)
    ensures FeedTable(tb, order, tokens)[Sentinels(order)] != map[]
    ensures exists draws :: Walk(FeedTable(tb, order, tokens), scan, Sentinels(order), draws) == Done(tokens)
  {
    FeedPreservesValid(tb, order, tokens);
    FedSequenceIsWalk(tb, order, tokens);
    var draws := DrawsFor(FeedTable(tb, order, tokens), scan, Sentinels(order), tokens);
  }
}
