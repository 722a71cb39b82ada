/**
 * Tokens, windows and distributions of the order-N Markov chain.
 *
 * A slot of a window holds either a real token (`Some`) or the boundary
 * sentinel (`None`), which marks both the start and the end of a sequence.
 */
module Tokens {

  datatype Option<T> = None | Some(value: T)

  /** A context window: the `order` slots preceding the next token; the keys of the table. */
  type Window<T> = seq<Option<T>>

  /** A frequency distribution over the slot that follows a window. */
  type Dist<T(==)> = map<Option<T>, nat>

  /** `n` sentinels: the start window of an order-`n` chain. */
  function Sentinels<T>(n: nat): (w: Window<T>)
    ensures |w| == n
    ensures forall j :: 0 <= j < n ==> w[j] == None
  {
    seq(n, _ => None)
  }

  /** `n` copies of the real token `t`: the seed window of a generation from `t`. */
  function Seed<T>(t: T, n: nat): (w: Window<T>)
    ensures |w| == n
    ensures forall j :: 0 <= j < n ==> w[j] == Some(t)
  {
    seq(n, _ => Some(t))
  }

  /** True when every slot of `w` is the sentinel. */
  predicate AllSentinels<T>(w: Window<T>)
  {
    forall j :: 0 <= j < |w| ==> w[j].None?
  }

  /** The tokens, each wrapped as a real slot. */
  function Wrap<T>(ts: seq<T>): (w: Window<T>)
    ensures |w| == |ts|
    ensures forall j :: 0 <= j < |ts| ==> w[j] == Some(ts[j])
  {
    seq(|ts|, j requires 0 <= j < |ts| => Some(ts[j]))
  }
}
