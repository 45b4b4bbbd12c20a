# skiplist — a verified model of a skip-list ordered map

`skiplist.hpp` is a C++ ordered map with unique keys, built as a skip list. It has:

- two full-height sentinels, `head_` and `tail_`;
- nodes whose heights are drawn at random;
- one forward link per level and node, plus a single backward link;
- a bidirectional iterator whose steps are guarded by `assert`.

This project models that header in Dafny and proves that every operation keeps the list well formed and does what an ordered map promises.

## How the model is built

- **Arena (`Layout`).** The nodes live in a map from ids to node records.
  - Id 0 plays `nullptr`, id 1 is `head_` and id 2 is `tail_`.
  - A fresh id comes from a counter, which plays `new`.
  - Keys are integers. The mapped type is a type parameter, and its value-initialised `T()` is a field of the list.
- **What `Valid` says.**
  - The sentinels have full height and every element has a height in `[1, kMaxHeight - 1]`.
  - Keys are unique.
  - Forward link `i` of a node leads to the next node in key order that takes part in level `i`, with `tail_` last. This makes level 0 strictly increasing and makes every level a sub-list of level 0.
  - The backward link is the exact inverse of the level-0 link.
  - `size_` is the number of elements.
- **Contents.** `Abs(s)` is the map from keys to values that the list represents. The public operations (`Container`) are stated against it.
- **Search (`Search`).** The top-down walk of `find_greater_or_equal` is a loop with invariants. Its result is characterised completely: on every level, `prevs[i]` is the last node with a key below the searched one, and the returned node is the first one at or above it.
- **Links (`Insertion`, `Removal`).**
  - The splice loop of `insert` and the unlink loop of `erase` are loops over the arena.
  - Their invariants say exactly which links and backward links have changed so far.
  - Lemmas show that the finished loops give a valid list whose contents are `Abs(s)[k := v]` and `Abs(s) - {k}` respectively.
- **Iterators (`Iterators`, `Traversal`).**
  - An iterator is the pair (owning list, node).
  - A step whose `assert` fails yields `AssertionFailure`.
  - Lemmas show that:
    - `++` and `--` undo each other;
    - `--` is refused at `begin()`, and from `end()` it is refused exactly on an empty list;
    - `size()` applications of `++` from `begin()` pass through elements only and reach `end()`.
- **Heights (`Height`).** `random_height` takes a stream `draws` of generator outputs in place of the seeded Mersenne twister. It is modelled twice: as written, and as corrected (see Findings).

The model follows the header as it stands. It has no `clear`, `empty` or `emplace`, and its `erase(iterator)` returns nothing rather than the position after the erased pair; so neither does the model.

## Model

| member | source | states |
|---|---|---|
| Nodes.NewNode | skiplist.hpp:92-97 | a new node holds the pair and the height it is given, with one null forward link per level and a null backward link |
| Nodes.SetForward | skiplist.hpp:104-107 | writing link `i` (which must exist) changes that link only; the node keeps its pair, its height, its other links and its backward link |
| Nodes.Forward | skiplist.hpp:99-102 | reading link `i` is allowed only when the node has that link, which is the `assert` of `forward` as a precondition |
| Nodes.SetBackward | skiplist.hpp:113-115 | the backward link changes and nothing else does |
| Search.WalkLevel | skiplist.hpp:425-427 | the walk along level `i` stops at the last node of that level whose key is below `k` (the head if there is none), never moving backwards |
| Search.StopIsLast | skiplist.hpp:425-427 | when the next node on the level is the tail or has a key `>= k`, the current node is the last one on the level below `k` |
| Search.LastGivesFirst | skiplist.hpp:432 | the level-0 successor of the last node below `k` is the first element with a key `>= k`, or the tail |
| Search.FindGreaterOrEqual | skiplist.hpp:417-433 | `prevs[i]` is the last node on level `i` below `k` for every level, and the result is the first element with key `>= k` (the tail if none), reached as `prevs[0]`'s level-0 link |
| Container.New | skiplist.hpp:215-229 | the constructed list is valid and empty with size 0; the head links to the tail on every level; the tail's backward link is the head; `begin() == end()` |
| Container.FreshValid | skiplist.hpp:215-229 | the sentinel layout the constructor builds satisfies every invariant and represents the empty map |
| Container.Size | skiplist.hpp:411-413 | `size()` equals the number of pairs held |
| Layout.AbsSize | skiplist.hpp:81-82 | the maintained counter equals the number of distinct keys of the contents |
| Container.LowerBound | skiplist.hpp:365-369 | the result is `end()` exactly when every key is `< k`; otherwise it is at the least key `>= k`, with that key's value |
| Container.FirstAtLeastIsLowerBound | skiplist.hpp:365-369 | the search's result is the tail exactly when every key is below `k`, and otherwise holds the least key `>= k` of the contents |
| Container.Find | skiplist.hpp:355-362 | the result differs from `end()` exactly when `k` is held, and then it is at `(k, value of k)` |
| Container.UpperBound | skiplist.hpp:372-380 | the result is `end()` exactly when every key is `<= k`; otherwise it is at the least key `> k`, with its value |
| Container.NextIsUpperBound | skiplist.hpp:375-377 | one `++` past an element reaches the least greater key, or `end()` exactly when no greater key exists |
| Container.Insert | skiplist.hpp:293-317 | inserts exactly when `k` is absent, and the list stays valid. A new key gives contents `Abs[k := v]` and size + 1. A present key leaves the list unchanged. Either way the returned iterator is at `k` with its stored value. A new node's height is `random_height`'s (corrected). Every element already held stays at its id with the same pair, so iterators at other elements remain usable and dereference as before. |
| Insertion.AbsentWhenMissed | skiplist.hpp:297-300 | a search whose result is the tail or holds another key proves that no element holds `k` |
| Insertion.Allocate | skiplist.hpp:302-307 | the new node has key, value and height as given, null forward links and backward link `prevs[0]`; the old successor's backward link now leads to it; no other node changes |
| Insertion.SpliceStep | skiplist.hpp:310-311 | one turn of the loop gives the new node `prevs[i]`'s old level-`i` link and makes `prevs[i]` link to the new node, changing nothing else |
| Insertion.SpliceLevels | skiplist.hpp:309-312 | after the loop the new node sits after `prevs[i]` on exactly the levels `0 .. height-1`; every other link is unchanged |
| Insertion.SpliceValid | skiplist.hpp:302-316 | the finished splice, with the size incremented, is a valid list whose contents are the old ones plus `k -> v` |
| Insertion.Link | skiplist.hpp:302-316 | after a search that missed `k`, linking a node of height `h` gives a valid list with contents `Abs[k := v]` and size + 1; every old element keeps its id and pair |
| Container.Index | skiplist.hpp:320-323 | a present key yields its value and leaves the list unchanged; an absent key is inserted with `T()`, and `T()` is returned; every old element keeps its id and pair |
| Container.Assign | skiplist.hpp:161-167 | a write through the pair `*it` or `it->` refers to (`it->second = w`) at an element keeps the list valid with the same identity and size, sets the contents at that element's key to `w` and nowhere else, and leaves every other element's id and pair as they were; the iterator still dereferences to its key, now with `w` |
| Container.SetValueValid | skiplist.hpp:161-163 | replacing the mapped value stored at an element keeps every invariant: shape, distinct keys, ordered forward links and backward links |
| Container.SetValueAbs | skiplist.hpp:161-163 | replacing the mapped value stored at an element changes the contents exactly at that element's key, which then maps to the new value |
| Container.IndexAssign | skiplist.hpp:320-323 | `m[k] = w` leaves a valid list with the same identity whose contents are `Abs[k := w]`, whether or not `k` was present; the size grows by one exactly when `k` was absent |
| Container.Erase | skiplist.hpp:326-345 | the list stays valid and the contents become `Abs - {k}`; an absent key leaves the list unchanged; the size drops by one exactly when `k` was present; the list keeps its identity; every element with another key keeps its id and pair, so only iterators at the erased node are invalidated |
| Removal.UnspliceStart | skiplist.hpp:335-336 | patching the successor's backward link to the erased node's changes only that link, and no `prevs` entry is the erased node itself |
| Removal.FoundAfterPrev | skiplist.hpp:337-338 | on every level the found node takes part in, it is the level successor of that level's `prevs` entry, so the unlink loop removes exactly it |
| Removal.UnspliceStep | skiplist.hpp:338 | one turn of the loop gives `prevs[i]` the erased node's level-`i` link and changes nothing else |
| Removal.UnspliceLevels | skiplist.hpp:337-339 | after the loop, `prevs[i]` bypasses the erased node on every level below its height; no other link changes |
| Removal.UnspliceValid | skiplist.hpp:335-344 | the finished unlinking, with the node released and the size decremented, is a valid list with contents `Abs - {k}` |
| Removal.Unlink | skiplist.hpp:335-344 | after a search that found `k`, the successor takes over the erased node's backward link, every level bypasses the node, and the node is released: a valid list with contents `Abs - {k}` and size − 1, in which every element with another key keeps its id and pair |
| Container.EraseAt | skiplist.hpp:348-352 | refused exactly for an iterator of another list or for `end()`; otherwise the pair at the iterator is removed, the list stays valid with the same identity, the size drops by one, and every other element keeps its id and pair |
| Container.InsertThenFind | skiplist.hpp:355-362 | `find(k)` right after `insert((k, v))` lands on `k`, with `v` if `k` was new and with the old value if not |
| Container.EraseThenFind | skiplist.hpp:355-362 | `find(k)` right after `erase(k)` is `end()` |
| Iterators.Begin | skiplist.hpp:243-245 | `begin()` belongs to the list; `Iterators.BeginIsFirst` states where it is |
| Iterators.BeginIsFirst | skiplist.hpp:243-245 | `begin() == end()` exactly when the contents are empty; otherwise `begin()` is at the element with the least key |
| Iterators.Detached | skiplist.hpp:152-155 | the default iterator belongs to no list and is at no node; by the contracts of `Increment`, `Decrement` and `Equal` every step from it is refused, and so is every comparison with an iterator of a list |
| Iterators.Deref | skiplist.hpp:161-167 | `*it` is the pair stored at the node; at an element of a list with unique keys that pair belongs to the contents |
| Iterators.End | skiplist.hpp:263-265 | `end()` belongs to the list and is at the tail |
| Iterators.Increment | skiplist.hpp:169-174 | `++` is refused exactly on a detached iterator and at `end()`; otherwise the iterator stays with its list |
| Iterators.Decrement | skiplist.hpp:183-188 | `--` is refused exactly on a detached iterator and where the backward link is the head; otherwise the iterator stays with its list |
| Iterators.Equal | skiplist.hpp:197-200 | refused exactly for iterators of different lists; `true` exactly for the same list and node |
| Iterators.NotEqual | skiplist.hpp:201-204 | refused exactly for iterators of different lists; `true` exactly for the same list and different nodes; for iterators of one list it is the negation of `operator==` |
| Iterators.IncrementIsNext | skiplist.hpp:169-174 | `++` from an element moves strictly forward in key order to an element or `end()`, with no element in between |
| Iterators.BackwardIsPrevious | skiplist.hpp:183-188 | the node a backward link leads to precedes the node in key order, and its level-0 link leads back |
| Iterators.IncrementThenDecrement | skiplist.hpp:169-188 | `--` after `++` from an element returns to the same position |
| Iterators.DecrementThenIncrement | skiplist.hpp:169-188 | an allowed `--` reaches an element, and `++` from there returns to the same position |
| Iterators.DecrementRefusedAtBegin | skiplist.hpp:183-188 | `--` at `begin()` is refused, on an empty list and on any other |
| Iterators.BeforeTailIsLast | skiplist.hpp:183-188 | the tail's backward link leads to the element with the greatest key, or to the head when the list is empty (the invariant that `--` from `end()` reads, maintained by the backward patches at 306-307 and 336) |
| Iterators.EmptyIffHeadBeforeTail | skiplist.hpp:228 | the tail's backward link is the head exactly when the contents are empty |
| Iterators.DecrementFromEnd | skiplist.hpp:183-188 | `--` from `end()` is allowed exactly when the list is not empty, and then reaches the element with the greatest key |
| Traversal.IncrementShrinksRest | skiplist.hpp:169-174 | `++` from an element leaves exactly one element fewer ahead of the iterator |
| Traversal.WalkToEnd | skiplist.hpp:169-174 | from an element or `end()`, one `++` per remaining element reaches `end()`, passing only elements |
| Traversal.ForwardTraversal | skiplist.hpp:243-245 | `size()` applications of `++` from `begin()` reach `end()`, and every earlier step is at an element |
| Height.RandomHeight | skiplist.hpp:436-447 | the corrected height lies in `[1, kMaxHeight - 1]`. It grows once for each leading draw that is a multiple of 4, and it stops at the first draw that is not, or at `kMaxHeight - 1` |
| Height.RandomHeightAsWritten | skiplist.hpp:436-441 | the loop as written returns a height in `[1, kMaxHeight]` with the same characterisation, capped at `kMaxHeight` |
| Height.AsWrittenBreaksAssertedBound | skiplist.hpp:439-444 | with every draw a multiple of 4, the loop as written returns `kMaxHeight`, which the assertion `height < kMaxHeight` rejects |
| Height.RandomHeightAgrees | skiplist.hpp:436-447 | the corrected and the as-written height agree wherever the latter meets its own bound; where it does not, the corrected height is `kMaxHeight - 1` |

## Left out

- Memory management is not modelled. `new`, `delete` and the destructor's walk over the chain become allocation and removal of arena ids, and ownership is not verified as such.
- The `std::mt19937` generator (seeded with `0xdeadbeef`) becomes a stream `draws` of its outputs. This is because the generator's output is a foreign computation; the geometric distribution of heights is not reasoned about.
- The expected logarithmic cost is not modelled: it is a probabilistic claim.
- The `const` overloads of `begin`, `end`, `find`, `lower_bound` and `upper_bound`, and `cbegin`/`cend`, are not modelled separately: each has the same body as its modelled counterpart.
- The reverse iterators (`rbegin`/`rend`) and the `Ptr`/`Ref` template parameters of the iterator are left out. They are adaptors over the modelled steps.
- The postfix `++`/`--` are left out. They check the same assertions and take the same step as the prefix forms, which are modelled, and return the former position.
- Other uses of the references `operator*`, `operator->` and `operator[]` return than assigning the mapped value (keeping a pointer to the stored pair past an `erase`, say) are outside the modelled operations.
- Keys are integers rather than any type with `operator<`, and `size_t` is unbounded. No list reaches its width.
- Iterators left dangling by an erase are not modelled. Operations are given iterators of their own list that are at a live node or at `end()`.
- The unused `cur_height` local of the search and the stored `max_height_` are left out. The latter always equals `kMaxHeight`, which the model uses directly.
- Iterators.Begin: its own contract states only ownership. Where `begin()` is is stated by `Iterators.BeginIsFirst`, not by an `ensures` that restates the body.
- Container.Insert: the model uses the corrected `random_height`, so new nodes never reach height `kMaxHeight`. The as-written height is kept apart in `Height` (see Findings).

## Findings

| source | as written | input that shows it | evidently intended | confidence | as-written member | corrected member |
|---|---|---|---|---|---|---|
| skiplist.hpp:439-444 | the loop keeps growing the height while it is below `kMaxHeight`, so it can stop at `kMaxHeight` itself, which the assertion `height < kMaxHeight` right after it rejects | a generator whose first 19 outputs are all multiples of 4 (probability 4^-19 per call) | the guard `height < kMaxHeight - 1`, so that heights lie in `[1, kMaxHeight - 1]` as asserted | not executed | Height.AsWrittenBreaksAssertedBound | Height.RandomHeight |
