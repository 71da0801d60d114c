# QP-trie nodes and prefix iterator

A Dafny model of two parts of `rust-qptrie`, the compressed radix trie
("QP-trie") that the pk3 archive source carries for name lookups. The trie maps
byte-string keys to values and branches on nibbles of the keys.

- `node.dfy` (module `Nodes`) models the trie's structural unit. A `Node` is
  `Empty`, `Internal` or `Leaf`. `Internal` holds a nibble position (`index`) and
  its children by nibble value. `Leaf` holds one key and its value. The module
  also has the three variant tests, the "assume-the-variant" accessors and the
  writes through the mutable accessors. The accessors are unreachable on the
  wrong variant in `rust-qptrie`, so they are partial functions guarded by
  `requires`.
- `iterator.dfy` (module `PrefixIterators`) models `TriePrefixIterator`. Its
  state is the trie, the prefix, a work list of nodes and the one-shot
  `include_prefix` flag. The module models construction, the `include_prefix`
  builder and `next` as pure state transitions. It also models `Run`, which is
  `n` successive `next` calls.
- `options.dfy` (module `Options`) is Rust's `Option`.

Keys are `seq<bv8>`, the bytes `rust-qptrie` reads through `AsRef<[u8]>`.
Values are a type parameter. The children of an `Internal` node are an abstract
`map` from nibble value (0 to 15, plus 16 for "the key has ended") to child.
`rust-qptrie` packs them in a `SparseArray`.

The traversal proper, `Trie::prefix_find_next`, is a parameter `step` of type
`Step<V>`. It receives the trie, the prefix, the work list and the flag, and
returns the leaf found (if any) and the new work list. Only the lemmas that need
it assume its documented promise (`StepHonoursPrefix`):
- every yielded key starts with the prefix;
- a key equal to the prefix is yielded only while `include_prefix` is set.

The trie is seen only through `root()`, as an optional root node.

## Model

| member | source | states |
|---|---|---|
| Nodes.Default | zip-rs/rust-qptrie/src/node.rs:22-26 | the default node is `Empty`, so neither a branch nor a leaf |
| Nodes.IsInternal | zip-rs/rust-qptrie/src/node.rs:29-35 | true exactly for the `Internal` variant |
| Nodes.IsLeaf | zip-rs/rust-qptrie/src/node.rs:53-59 | true exactly for the `Leaf` variant |
| Nodes.IsEmpty | zip-rs/rust-qptrie/src/node.rs:77-83 | true exactly for the `Empty` variant |
| Nodes.VariantsExclusive | zip-rs/rust-qptrie/src/node.rs:15-20 | every node passes exactly one of the three variant tests |
| Nodes.AsInternal | zip-rs/rust-qptrie/src/node.rs:37-43 | callable only on a branch; rewrapping the result gives back the node, so `index` and `nibbles` are the wrapped ones unchanged |
| Nodes.AsLeaf | zip-rs/rust-qptrie/src/node.rs:61-67 | callable only on a leaf; rewrapping the result gives back the node, so `key` and `val` are the wrapped ones unchanged |
| Nodes.SetInternal | zip-rs/rust-qptrie/src/node.rs:45-51 | a write through the mutable branch accessor needs a branch, keeps it a branch, and reads back as the value written |
| Nodes.SetLeaf | zip-rs/rust-qptrie/src/node.rs:69-75 | a write through the mutable leaf accessor needs a leaf, keeps it a leaf, and reads back as the value written |
| Nodes.SetInternalLaws | zip-rs/rust-qptrie/src/node.rs:38-51 | writing back what `as_internal` read changes nothing; of two writes only the last is visible |
| Nodes.SetLeafLaws | zip-rs/rust-qptrie/src/node.rs:62-75 | writing back what `as_leaf` read changes nothing; of two writes only the last is visible |
| PrefixIterators.New | zip-rs/rust-qptrie/src/iterator.rs:19-30 | trie, prefix and flag are stored unchanged; the work list is empty exactly when the trie has no root, and otherwise holds the root alone |
| PrefixIterators.IncludePrefix | zip-rs/rust-qptrie/src/iterator.rs:34-39 | the flag becomes true; trie, prefix and work list are unchanged |
| PrefixIterators.IncludePrefixIdempotent | zip-rs/rust-qptrie/src/iterator.rs:19-39 | applying the builder twice equals applying it once, and on a fresh iterator it equals construction with the flag set |
| PrefixIterators.Next | zip-rs/rust-qptrie/src/iterator.rs:49-60 | the step gets the current prefix, work list and flag; the work list becomes the step's; a found leaf is returned as its key and value and clears the flag; nothing found returns `None` and keeps the flag; trie and prefix never change |
| PrefixIterators.NextNeverRearms | zip-rs/rust-qptrie/src/iterator.rs:54-57 | one `next` never turns the flag from false to true |
| PrefixIterators.NextYieldsPrefixed | zip-rs/rust-qptrie/src/iterator.rs:5-5 | under the step's promise, an item of `next` has the prefix, and equals it only if the flag was set |
| PrefixIterators.Run | zip-rs/rust-qptrie/src/iterator.rs:49-60 | `n` calls of `next` give `n` answers and leave trie and prefix unchanged |
| PrefixIterators.RunFlag | zip-rs/rust-qptrie/src/iterator.rs:54-57 | after any number of `next` calls the flag is set exactly when it was set at the start and no item has been yielded |
| PrefixIterators.RunFlagMonotone | zip-rs/rust-qptrie/src/iterator.rs:49-60 | the flag is monotone non-increasing across any sequence of `next` calls |
| PrefixIterators.RunYieldsPrefixedOnce | zip-rs/rust-qptrie/src/iterator.rs:34-34 | under the step's promise, every item of any run has the prefix, and an item equal to the prefix needs the flag at the start and no earlier item |
| PrefixIterators.PrefixKeyAtMostOnce | zip-rs/rust-qptrie/src/iterator.rs:34-34 | under the step's promise, a key equal to the prefix is never yielded after another item, so at most once within one run of `next` calls |
| PrefixIterators.WithoutFlagPrefixNeverYielded | zip-rs/rust-qptrie/src/iterator.rs:19-34 | an iterator built without the flag never yields a key equal to its prefix |

## Left out

- `Trie::prefix_find_next` is not part of this model. It is the parameter
  `step`, and only its documented promise is assumed. Its pruning, its child
  order and whether it ever ends are not modelled. So nothing is proved about
  which keys are found, in what order, or that iteration terminates.
- `SparseArray` is not part of this model. Its bitmap packing and order-keeping
  insertion are replaced by a `map` from nibble value to child.
- `Trie` lookup, insert and remove are not part of this model. Neither are the
  branch invariants they keep, such as "at least two children".
- The archive reader in `src/lib.rs` is left out. It is file and archive I/O
  behind a mutex, plus name resolution through the zip library's
  `by_name`/`starting_with`/`by_index` and `Path` stem and extension handling.
- Borrowing and lifetimes are left out. So are the `unsafe`
  `debug_unreachable!` arms, which become `requires` guards, and the derived
  `Clone`/`Debug`.
- The `index` of an internal node is a `nat`. Its `usize` width is not
  modelled, because no modelled operation does arithmetic on it.
- PrefixIterators.Run: this is a fixed number of `next` calls that keeps
  calling after a `None`. Rust iterators allow this. The model says nothing
  about fused behaviour, because the step is abstract.
- PrefixIterators.PrefixKeyAtMostOnce: covers one run of `next` calls only.
  The builder `include_prefix` may be called again after `next`, which sets
  the flag anew, and then the exact-prefix key can be yielded a second time.
  The model allows this; it does not promise "at most once per iterator".
- The documented promise that a key equal to the prefix is included when the
  flag is set holds only if the step finds that leaf before any other match.
  `next` clears the flag on every yield, so an exact-prefix leaf found after
  another item is skipped. Which leaf comes first is decided by the step,
  whose order is not modelled, so the model does not promise inclusion.
