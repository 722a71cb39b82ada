/**
 * The adapters of a chain of strings: `feed_str` cuts its text at every
 * single space and feeds the pieces, and `vec_to_string` glues generated
 * words back together with single spaces.
 */
module Strings {
  import opened Table
  import opened Chain

  /**
   * `split(' ')`: the pieces of `s` between single spaces, in order. Empty
   * pieces are kept: a leading, trailing or doubled space yields one.
   */
  function Split(s: string): (r: seq<string>)
    ensures |r| >= 1
    decreases |s|
  {
    if s == [] then [""]
    else
      var rest := Split(s[1..]);
      if s[0] == ' ' then [""] + rest
      else [[s[0]] + rest[0]] + rest[1..]
  }

  /** There is one piece more than there are spaces in the text. */
  lemma {:induction false} SplitCount(s: string)
    ensures |Split(s)| == multiset(s)[' '] + 1
    decreases |s|
  {
    if s != [] {
      SplitCount(s[1..]);
      assert s == [s[0]] + s[1..];
    }
  }

  /** No piece holds a space. */
  lemma {:induction false} SplitSpaceFree(s: string)
    ensures forall i :: 0 <= i < |Split(s)| ==> ' ' !in Split(s)[i]
    decreases |s|
  {
    if s != [] {
      SplitSpaceFree(s[1..]);
      var rest := Split(s[1..]);
      if s[0] != ' ' {
        assert ' ' !in rest[0];
      }
    }
  }

  /** The words with a single space between neighbours and none at either end. */
  function Join(xs: seq<string>): string
  {
    if xs == [] then ""
    else if |xs| == 1 then xs[0]
    else xs[0] + " " + Join(xs[1..])
  }

  /** Appending a word adds a space and the word to the end of the join. */
  lemma {:induction false} JoinSnoc(xs: seq<string>, x: string)
    requires xs != []
    ensures Join(xs + [x]) == Join(xs) + " " + x
    decreases |xs|
  {
    if |xs| == 1 {
      assert (xs + [x])[1..] == [x];
    } else {
      assert (xs + [x])[1..] == xs[1..] + [x];
      JoinSnoc(xs[1..], x);
    }
  }

  /** Putting a character in front of the first word puts it in front of the join. */
  lemma JoinConsFirst(c: char, xs: seq<string>)
    requires xs != []
    ensures Join([[c] + xs[0]] + xs[1..]) == [c] + Join(xs)
  {
    var ys := [[c] + xs[0]] + xs[1..];
    assert ys[1..] == xs[1..];
  }

  /** Splitting and joining again gives back the text: no character is lost or added. */
  lemma {:induction false} JoinSplit(s: string)
    ensures Join(Split(s)) == s
    decreases |s|
  {
    if s != [] {
      var rest := Split(s[1..]);
      JoinSplit(s[1..]);
      if s[0] == ' ' {
        assert ([""] + rest)[1..] == rest;
      } else {
        JoinConsFirst(s[0], rest);
      }
    }
  }

  // A stock sequence fact, kept as its own lemma so the proof that uses it stays cheap.
  lemma AppendAssoc(a: string, b: string, c: string)
    ensures a + (b + c) == (a + b) + c
  {
  }

  /** A space-free word `w` in front of the text glues onto its first piece. */
  lemma {:induction false} SplitWordPrefix(w: string, t: string)
    requires ' ' !in w
    ensures Split(w + t) == [w + Split(t)[0]] + Split(t)[1..]
    decreases |w|
  {
    var S := Split(t);
    if w == [] {
      assert w + t == t && w + S[0] == S[0];
      assert S == [S[0]] + S[1..];
    } else {
      var s := w + t;
      assert s[0] == w[0] && s[1..] == w[1..] + t;
      SplitWordPrefix(w[1..], t);
      var R := Split(s[1..]);
      assert R[0] == w[1..] + S[0] && R[1..] == S[1..];
      AppendAssoc([w[0]], w[1..], S[0]);
      assert [w[0]] + w[1..] == w;
    }
  }

  /**
   * Joining words that contain no space and splitting again gives back the
   * words. A non-empty list is needed: `Join([])` and `Join([""])` are both
   * the empty text, which splits to `[""]`.
   */
  lemma {:induction false} SplitJoin(xs: seq<string>)
    requires xs != []
    requires forall i :: 0 <= i < |xs| ==> ' ' !in xs[i]
    ensures Split(Join(xs)) == xs
    decreases |xs|
  {
    if |xs| == 1 {
      SplitWordPrefix(xs[0], "");
      assert xs[0] + "" == xs[0];
    } else {
      var tail := Join(xs[1..]);
      SplitJoin(xs[1..]);
      assert xs[0] + " " + tail == xs[0] + (" " + tail);
      SplitWordPrefix(xs[0], " " + tail);
      assert (" " + tail)[1..] == tail;
      assert Split(" " + tail) == [""] + xs[1..];
      assert xs[0] + "" == xs[0];
      assert xs == [xs[0]] + xs[1..];
    }
  }

  /**
   * `vec_to_string`: push every word followed by a space, then cut the last
   * character if there is one. The result is the join: no separator after the
   * last word, and the empty text for no words.
   */
  method VecToString(xs: seq<string>) returns (r: string)
    ensures r == Join(xs)
    ensures xs == [] ==> r == ""
    ensures xs != [] && (forall i :: 0 <= i < |xs| ==> ' ' !in xs[i]) ==> Split(r) == xs
  {
    r := "";
    for i := 0 to |xs|
      invariant r == if i == 0 then "" else Join(xs[..i]) + " "
    {
      if i > 0 {
        JoinSnoc(xs[..i], xs[i]);
        assert xs[..i] + [xs[i]] == xs[..i + 1];
      }
      r := r + xs[i];
      r := r + " ";
    }
    var len := |r|;
    if len > 0 {
      r := r[..len - 1];
    }
    assert xs[..|xs|] == xs;
    if xs != [] && (forall i :: 0 <= i < |xs| ==> ' ' !in xs[i]) {
      SplitJoin(xs);
    }
  }

  /**
   * `feed_str`: feed the pieces of the text between single spaces. There is
   * always at least one piece, so afterwards the chain is never empty, even
   * for the empty text (which feeds one empty word).
   */
  method FeedStr(chain: ArcChain<string>, s: string)
    requires chain.Valid()
    modifies chain`table
    ensures chain.Valid()
    ensures chain.table == FeedTable(old(chain.table), chain.order, Split(s))
    ensures !chain.IsEmpty()
  {
    chain.Feed(Split(s));
  }
}
