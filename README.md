# An order-N Markov chain over arbitrary tokens, in Dafny

This project models `ArcChain`, the Markov chain of `src/arc/mod.rs`, and proves
properties of the model. A chain holds a transition table and an order `n`.
The table maps a window of `n` slots to the distribution of the slot seen after
it. A slot is a token (`Some`) or the boundary sentinel (`None`). The model
covers the following operations:

- `new`, `order(n)` and `is_empty`;
- `feed`, which counts every width-`n + 1` window of the tokens padded with
  `n` sentinels in front and one behind;
- the two operations on a distribution, `add` and the weighted draw `next`;
- the synthesis loops `generate` and `generate_from_token`;
- the bounded iterator made by `iter_for`;
- the string adapters `feed_str` (its split on single spaces) and `vec_to_string`.

Layout, one module per part of the file:

- `tokens.dfy` (`Tokens`): slots, windows, distributions, the all-sentinel
  start window and the seed window of `generate_from_token`.
- `states.dfy` (`States`): `add` on a distribution, and the weighted scan of
  `next` as the method `Next` with both of its loops.
- `table.dfy` (`Table`): the table, the specification of one feed (`FeedTable`,
  a fold of `Observe` over the padded windows) and the table invariant.
- `synthesis.dfy` (`Synthesis`): the walk `generate` takes, stated as the
  function `Walk`. It is proved sound and complete against `ValidWalk`, the
  walks that follow observed transitions only.
- `chain.dfy` (`Chain`): the class `ArcChain`, whose `table` and `order` fields
  the methods update, and the class `SizedChainIterator`.
- `strings.dfy` (`Strings`): `Split`, `Join`, `VecToString` and `FeedStr`.

What the program leaves to its environment becomes a parameter:

- The random number in `next` is a parameter `draw`, and `gen_range(0, sum)` is
  modelled as `draw % sum`.
- The iteration order of a distribution's hash map is a parameter `scan`. For
  each key it gives a sequence of (slot, weight) entries that lists that key's
  distribution exactly once (`ScanFits`).
- A generation is given a finite sequence `draws`, one draw per step. If the
  draws run out before the sentinel is drawn, the result is `OutOfDraws`;
  the program itself would keep drawing.

The table invariant `ValidTable` is kept by `new`, `order` and `feed`. It says:

- the start window of the current order is a key;
- every stored weight is positive;
- a real token observed after a key leads to a window that is itself a key;
- only an all-sentinel key can hold an empty distribution.

Under this invariant every window a generation reaches is a key with a
non-empty distribution. So the lookups and draws of `generate` never fail once
the start distribution is non-empty.

Changing the order does not keep what the start key of the new order held.
`order(n)` inserts the all-sentinel key of length `n` with an empty
distribution, which overwrites any counts that key had collected while the
chain was used at order `n` before. The model follows the code (`SetOrder`), so
afterwards `is_empty()` is true again. Keys of other lengths stay in the table.

## Model

| member | source | states |
|---|---|---|
| Tokens.Sentinels | src/arc/mod.rs:43 | the start window of order `n` has `n` slots, all of them the sentinel |
| Tokens.Seed | src/arc/mod.rs:92-93 | the seed window of `generate_from_token` has `order` slots, each holding the token |
| States.Add | src/arc/mod.rs:227-232 | `add` makes the slot a key and raises its count by exactly one (a new slot starts at one); every other count is unchanged; positive counts stay positive |
| States.SumPositiveIff | src/arc/mod.rs:235-238 | the summed weight is positive exactly when some entry's weight is positive |
| States.SumPrefixMono | src/arc/mod.rs:241-244 | the running total never decreases along the scan |
| States.DrawableIffNonEmpty | src/arc/mod.rs:235-240 | for a distribution built by `add`, the weights sum to a positive number (so `gen_range(0, sum)` has a value) exactly when the distribution is not empty |
| States.Select | src/arc/mod.rs:241-247 | for `cap < sum` the scan stops at an entry whose running total before it is at most `cap` and after it exceeds `cap`; that entry has a positive weight |
| States.SelectBracket | src/arc/mod.rs:241-247 | conversely, the entry whose running-total interval contains `cap` is the one selected: the first entry whose running total exceeds `cap` |
| States.Next | src/arc/mod.rs:234-249 | the two loops of `next` return the slot of the entry `Select` picks for `draw % sum`; the unreachable end is never reached |
| States.SelectCount | src/arc/mod.rs:239-247 | of the `sum` possible caps, exactly as many as an entry's weight select that entry, whatever the scan order |
| States.DrawCount | src/arc/mod.rs:239-247 | of the `sum` possible caps, exactly `d[t]` make `next` return slot `t` |
| States.DrawFor | src/arc/mod.rs:240-246 | every slot of a positive distribution is returned by some cap below the sum |
| States.SelectInSupport | src/arc/mod.rs:242-246 | what `next` returns is a slot of the distribution with a positive weight |
| Table.SlideIsSuccessor | src/arc/mod.rs:77-78 | dropping the window's first slot and pushing the drawn slot gives the successor window, whose last slot is the drawn one |
| Table.SuccessorLive | src/arc/mod.rs:76-78 | in a table that keeps the invariant, a real token observed after a key leads to a key with a non-empty distribution |
| Table.Observe | src/arc/mod.rs:64-65 | counting one window makes its key a key of the table and raises exactly one count, the one of its last slot under its key, by one |
| Table.ObserveInPlace | src/arc/mod.rs:64-65 | inserting an empty distribution when the key is missing and then adding to the stored distribution is `Observe` |
| Table.Windows | src/arc/mod.rs:63 | there is one width-`w + 1` window per start position, split into its first `w` slots and its last slot |
| Table.WindowAt | src/arc/mod.rs:63-65 | the key and observed slot of window `i` are the first `order` slots and the last slot of the slice at `i` |
| Table.RecordInPlace | src/arc/mod.rs:63-65 | one in-place step of the window loop extends the record of the windows done so far by the next window |
| Table.RecordCount | src/arc/mod.rs:63-66 | counting a list of windows raises each count by the number of times its transition occurs in the list, and by nothing else |
| Table.RecordKeys | src/arc/mod.rs:63-66 | counting windows never removes a key |
| Table.RecordKeeps | src/arc/mod.rs:63-66 | counting windows keeps every weight positive, leaves only an all-sentinel key empty, and leaves every counted key holding the slot counted after it |
| Table.FeedCount | src/arc/mod.rs:56-67 | after `feed` every count equals its old value plus the occurrences of that transition among the padded windows |
| Table.ObservationsShape | src/arc/mod.rs:57-63 | no tokens count no window; `k >= 1` tokens count exactly `k + 1` windows, window `j` being slots `j..j+order` of the padded sequence with slot `j+order` observed |
| Table.FeedMonotone | src/arc/mod.rs:56-67 | `feed` never lowers a count and never removes a key |
| Table.FeedRecords | src/arc/mod.rs:63-66 | every window a feed counted is present in the table afterwards |
| Table.FeedFillsStart | src/arc/mod.rs:56-66 | after feeding a non-empty sequence, its first token is observed after the start window |
| Table.FeedClosedAt | src/arc/mod.rs:56-66 | after `feed`, a real token observed after a key leads to a window that is a key |
| Table.FeedPreservesValid | src/arc/mod.rs:56-67 | `feed` preserves the table invariant |
| Synthesis.Walk | src/arc/mod.rs:73-84 | a walk that ends is a valid walk from its start window and used fewer tokens than draws |
| Synthesis.DrawsFor | src/arc/mod.rs:73-84 | every valid walk is produced by some draws, one per token plus one for the sentinel |
| Synthesis.WalkStep | src/arc/mod.rs:76-81 | one step: the first draw picks a slot of the current distribution; the sentinel ends the walk, a token is kept and the walk continues from the successor window, which is a key with a non-empty distribution |
| Synthesis.WalkSlide | src/arc/mod.rs:76-81 | the same step as the generating loop sees it, with the tokens collected so far in front |
| Synthesis.WalkOutputs | src/arc/mod.rs:73-84 | the token sequences a walk can return are exactly the valid walks from its start window |
| Synthesis.WalkFromToken | src/arc/mod.rs:90-103 | empty when the seed window is not a key; otherwise a finished result starts with the token, and the rest is a valid walk from the seed window |
| Synthesis.FedSuffixIsWalk | src/arc/mod.rs:56-66 | after a feed, every suffix of the fed tokens is a valid walk from the padded window in front of it |
| Synthesis.FedSequenceIsWalk | src/arc/mod.rs:56-66 | after a feed, the fed sequence is a valid walk from the start window |
| Synthesis.FedSequenceGeneratable | src/arc/mod.rs:56-84 | after a feed, some draws make `generate` return exactly the fed sequence |
| Chain.ArcChain.constructor | src/arc/mod.rs:27-36 | `new` gives order 1, the one-sentinel key with an empty distribution as the only key, an empty chain, and the table invariant |
| Chain.ArcChain.IsEmpty | src/arc/mod.rs:49-51 | the chain is empty exactly when nothing has been observed after the start window of the current order |
| Chain.ArcChain.SetOrder | src/arc/mod.rs:40-45 | `order(n)` sets the order and overwrites the start key of that order with an empty distribution; nothing else changes, the chain is empty and the invariant holds |
| Chain.ArcChain.Feed | src/arc/mod.rs:56-68 | the new table is `FeedTable` of the old one; no tokens change nothing; otherwise the chain is no longer empty; the invariant is kept |
| Chain.ArcChain.CountWindows | src/arc/mod.rs:58-66 | the window loop of `feed` leaves the table with every width-`order + 1` window counted, in order |
| Chain.ArcChain.Run | src/arc/mod.rs:74-83 | the generating loop returns the given prefix followed by `Walk` from the start window; the window keeps `order` slots throughout (loop invariant) |
| Chain.ArcChain.Generate | src/arc/mod.rs:73-84 | `generate` returns the walk from the start window, which is a valid walk whenever it ends |
| Chain.ArcChain.GenerateFromToken | src/arc/mod.rs:90-103 | `generate_from_token` returns `WalkFromToken`: empty when the seed window is not a key |
| Chain.SizedChainIterator.constructor | src/arc/mod.rs:111-113 | `iter_for(size)` starts with `size` sequences to come and none yielded |
| Chain.SizedChainIterator.Next | src/arc/mod.rs:187-194 | a sequence is yielded exactly while fewer than `size` have been; each pull lowers the count by one until it reaches zero; the item is the chain's generated walk |
| Chain.SizedChainIterator.SizeHint | src/arc/mod.rs:196-198 | both bounds are the number of sequences still to come |
| Strings.Split | src/arc/mod.rs:118-120 | the split always has at least one piece |
| Strings.SplitCount | src/arc/mod.rs:118-120 | the split has one piece more than the text has spaces: empty pieces are kept |
| Strings.SplitSpaceFree | src/arc/mod.rs:118-120 | no piece contains the separator |
| Strings.JoinSplit | src/arc/mod.rs:118-120 | joining the pieces with single spaces gives back the text |
| Strings.JoinSnoc | src/arc/mod.rs:140-143 | appending a word to the list appends a space and the word to the joined text |
| Strings.SplitJoin | src/arc/mod.rs:138-149 | splitting the joined text of a non-empty list of space-free words gives back the words |
| Strings.VecToString | src/arc/mod.rs:138-149 | the push loop and the truncation give the words joined by single spaces, with no separator after the last word and the empty text for no words; for a non-empty list of words without spaces, the result splits back into the words |
| Strings.FeedStr | src/arc/mod.rs:118-120 | `feed_str` feeds the pieces of the split; afterwards the chain is never empty, since even the empty text feeds one empty word |

## Left out

- `feed_file` reads a file line by line. The file I/O is not part of this model, and neither is its per-line `split_whitespace` filter.
- `InfiniteChainIterator`, `iter`, `str_iter`, `str_iter_for` and the `Map`-typed iterator aliases only forward to `generate` and `vec_to_string`. They are not modelled separately.
- `generate_str` and `generate_str_from_token` are `vec_to_string` applied to `generate` and `generate_from_token`. They are not modelled separately.
- `Arc` reference counting and sharing across threads are not modelled: tokens are plain values.
- The `Chainable` trait is not part of this model. Tokens need only equality (and, in the table, hashing, which a Dafny map provides).
- The random number generator is not modelled. Each draw is a parameter, and `gen_range(0, sum)` is `draw % sum`, a cap in `[0, sum)`. The lemmas `SelectCount` and `DrawCount` count, for each entry, the caps in `[0, sum)` that select it; the distribution of `gen_range` itself is not modelled.
- Hash-map iteration order is not modelled. It is the parameter `scan`, required only to list each distribution exactly once.
- Chain.ArcChain.Generate: a generation that never draws the sentinel is not modelled. `generate` could loop for ever; the model stops after the supplied draws, with `OutOfDraws`.
- Chain.ArcChain.Generate: it requires a non-empty chain. On an empty one, `gen_range(0, 0)` in `next` panics.
- Chain.SizedChainIterator.Next: it requires a non-empty chain while sequences are still due, for the same reason.
- Chain.ArcChain.SetOrder: it requires `n > 0`, which the code asserts.
- Chain.ArcChain.Feed: counts, sums and `order + 1` are unbounded naturals. A `usize` overflow, which would panic in a debug build or wrap in a release build, is not modelled.
- States.Add: it is a function from the old distribution to the new one, not an in-place update of a hash map. `feed` stores the result back under the key. The in-place update is modelled by the reassignment of the chain's `table` field.
- States.Next: `next` sums `values()` and scans `iter()`. Both are modelled by the one scan order, since an unchanged hash map iterates its values and its entries in the same order.
