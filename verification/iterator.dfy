/**
 The prefix iterator of the QP-trie: a work list of nodes still to visit, the
 prefix being enumerated and a one-shot flag saying whether a key equal to the
 prefix itself may still be yielded.

 The traversal proper (the trie's `prefix_find_next`) is not part of this
 model: it is a parameter `step`, and the only thing assumed of it is what its
 documentation promises (see `StepHonoursPrefix`). What is verified is the
 bookkeeping the iterator does around that step.
 */
module PrefixIterators {
  import opened Options
  import opened Nodes

  /** The trie as the iterator observes it: only its optional root. */
  datatype Trie<V> = Trie(root: Option<Node<V>>)

  /** What one traversal step hands back: the next leaf found, if any, and the updated work list. */
  datatype Found<V> = Found(leaf: Option<LeafNode<V>>, todo: seq<Node<V>>)

  /** The traversal step, taking the trie, the prefix, the work list and the flag. */
  type Step<!V> = (Trie<V>, Key, seq<Node<V>>, bool) -> Found<V>

  datatype PrefixIter<V> = PrefixIter(trie: Trie<V>, prefix: Key, todo: seq<Node<V>>, includePrefix: bool)

  /** A yielded entry: the leaf's key and value. */
  type Item<V> = (Key, V)

  /** The result of one call of `next`: the item (if any) and the iterator afterwards. */
  datatype Advanced<V> = Advanced(item: Option<Item<V>>, iter: PrefixIter<V>)

  /** The outcome of a sequence of `next` calls: every answer in order, and the final iterator. */
  datatype Drained<V> = Drained(items: seq<Option<Item<V>>>, last: PrefixIter<V>)

  /** `key` starts with the bytes of `prefix`. */
  predicate HasPrefix(key: Key, prefix: Key) {
    |prefix| <= |key| && key[..|prefix|] == prefix
  }

  /** A leaf the step may yield for `prefix` while the flag is `flag`. */
  predicate MayYield<V>(prefix: Key, flag: bool, leaf: LeafNode<V>) {
    HasPrefix(leaf.key, prefix) && (leaf.key == prefix ==> flag)
  }

  /**
   What the traversal step promises: every leaf it yields has the prefix, and
   one whose key equals the prefix is yielded only while the flag is set.
   */
  ghost predicate StepHonoursPrefix<V(!new)>(step: Step<V>) {
    forall t, prefix, todo, flag ::
      step(t, prefix, todo, flag).leaf.Some? ==>
        MayYield(prefix, flag, step(t, prefix, todo, flag).leaf.value)
  }

  /** Construction: the work list starts as the root alone, or empty for a trie without one. */
  function New<V>(trie: Trie<V>, key: Key, includePrefix: bool): (it: PrefixIter<V>)
    ensures it.trie == trie && it.prefix == key && it.includePrefix == includePrefix
    ensures |it.todo| <= 1
    ensures it.todo == [] <==> trie.root.None?
    ensures forall i :: 0 <= i < |it.todo| ==> trie.root == Some(it.todo[i])
  {
    var todo := match trie.root
      case None => []
      case Some(root) => [root];
    PrefixIter(trie, key, todo, includePrefix)
  }

  /** The builder that asks for a key equal to the prefix to be included. */
  function IncludePrefix<V>(it: PrefixIter<V>): (r: PrefixIter<V>)
    ensures r.includePrefix
    ensures r.trie == it.trie && r.prefix == it.prefix && r.todo == it.todo
  {
    it.(includePrefix := true)
  }

  /** Asking twice is the same as asking once, and the builder is `New` with the flag set. */
  lemma IncludePrefixIdempotent<V>(it: PrefixIter<V>, trie: Trie<V>, key: Key, flag: bool)
    ensures IncludePrefix(IncludePrefix(it)) == IncludePrefix(it)
    ensures IncludePrefix(New(trie, key, flag)) == New(trie, key, true)
  {
  }

  /**
   One call of `next`: run the step on the current state; a leaf found is
   returned as its key and value and consumes the flag, nothing found leaves
   the flag as it was.
   */
  function Next<V>(it: PrefixIter<V>, step: Step<V>): (r: Advanced<V>)
    ensures r.iter.trie == it.trie && r.iter.prefix == it.prefix
    ensures r.iter.todo == step(it.trie, it.prefix, it.todo, it.includePrefix).todo
    ensures r.item.None? <==> step(it.trie, it.prefix, it.todo, it.includePrefix).leaf.None?
    ensures r.item.Some? ==>
      var leaf := step(it.trie, it.prefix, it.todo, it.includePrefix).leaf.value;
      r.item.value == (leaf.key, leaf.val) && !r.iter.includePrefix
    ensures r.item.None? ==> r.iter.includePrefix == it.includePrefix
  {
    var found := step(it.trie, it.prefix, it.todo, it.includePrefix);
    match found.leaf
    case None => Advanced(None, it.(todo := found.todo))
    case Some(leaf) => Advanced(Some((leaf.key, leaf.val)), it.(todo := found.todo, includePrefix := false))
  }

  /** The flag is never re-armed by `next`. */
  lemma NextNeverRearms<V>(it: PrefixIter<V>, step: Step<V>)
    ensures Next(it, step).iter.includePrefix ==> it.includePrefix
  {
  }

  /** Under the step's promise, whatever `next` yields has the prefix, and equals it only while the flag was set. */
  lemma NextYieldsPrefixed<V(!new)>(it: PrefixIter<V>, step: Step<V>)
    requires StepHonoursPrefix(step)
    ensures Next(it, step).item.Some? ==> HasPrefix(Next(it, step).item.value.0, it.prefix)
    ensures Next(it, step).item.Some? && Next(it, step).item.value.0 == it.prefix ==> it.includePrefix
  {
  }

  /** `n` successive calls of `next`, recording every answer. */
  function Run<V>(it: PrefixIter<V>, step: Step<V>, n: nat): (r: Drained<V>)
    ensures |r.items| == n
    ensures r.last.trie == it.trie && r.last.prefix == it.prefix
    decreases n
  {
    if n == 0 then Drained([], it)
    else
      var first := Next(it, step);
      var rest := Run(first.iter, step, n - 1);
      Drained([first.item] + rest.items, rest.last)
  }

  /** No item at all among the first `k` answers. */
  predicate NoneYielded<V>(items: seq<Option<Item<V>>>, k: int)
    requires 0 <= k <= |items|
  {
    forall i :: 0 <= i < k ==> items[i].None?
  }

  /**
   After any sequence of `next` calls the flag is still set exactly when it was
   set at the start and nothing has been yielded: it is consumed by the first
   item and never re-armed.
   */
  lemma {:induction false} RunFlag<V>(it: PrefixIter<V>, step: Step<V>, n: nat)
    ensures Run(it, step, n).last.includePrefix <==>
      it.includePrefix && NoneYielded(Run(it, step, n).items, n)
    decreases n
  {
    if n > 0 {
      var first := Next(it, step);
      RunFlag(first.iter, step, n - 1);
      var r := Run(it, step, n);
      var rest := Run(first.iter, step, n - 1);
      assert r.items == [first.item] + rest.items;
      if first.item.None? {
        assert NoneYielded(r.items, n) <==> NoneYielded(rest.items, n - 1) by {
          forall i | 0 <= i < n - 1 ensures r.items[i + 1] == rest.items[i] {}
        }
      } else {
        assert !NoneYielded(r.items, n) by { assert r.items[0].Some?; }
      }
    }
  }

  /** The flag is monotone non-increasing across any sequence of `next` calls. */
  lemma RunFlagMonotone<V>(it: PrefixIter<V>, step: Step<V>, n: nat)
    ensures Run(it, step, n).last.includePrefix ==> it.includePrefix
  {
    RunFlag(it, step, n);
  }

  /**
   Under the step's promise, every item of any sequence of `next` calls has the
   prefix, and an item equal to the prefix can only be the first item yielded,
   and only if the flag was set at the start: within one run it is never yielded twice.
   */
  lemma {:induction false} RunYieldsPrefixedOnce<V(!new)>(it: PrefixIter<V>, step: Step<V>, n: nat)
    requires StepHonoursPrefix(step)
    ensures forall i :: 0 <= i < n && Run(it, step, n).items[i].Some? ==>
      HasPrefix(Run(it, step, n).items[i].value.0, it.prefix)
    ensures forall i :: 0 <= i < n && Run(it, step, n).items[i].Some? ==>
      (Run(it, step, n).items[i].value.0 == it.prefix ==>
        it.includePrefix && NoneYielded(Run(it, step, n).items, i))
    decreases n
  {
    if n > 0 {
      var first := Next(it, step);
      var rest := Run(first.iter, step, n - 1);
      var items := Run(it, step, n).items;
      assert items == [first.item] + rest.items;
      NextYieldsPrefixed(it, step);
      RunYieldsPrefixedOnce(first.iter, step, n - 1);
      forall i | 0 < i < n && items[i].Some?
        ensures HasPrefix(items[i].value.0, it.prefix)
        ensures items[i].value.0 == it.prefix ==> it.includePrefix && NoneYielded(items, i)
      {
        assert items[i] == rest.items[i - 1];
        if items[i].value.0 == it.prefix {
          assert first.iter.includePrefix && NoneYielded(rest.items, i - 1);
          assert first.item.None?;
          forall j | 0 <= j < i ensures items[j].None? {
            if j > 0 { assert items[j] == rest.items[j - 1]; }
          }
        }
      }
    }
  }

  /**
   Within one run of `next` calls the exact-prefix key is never yielded twice.
   Calling the builder again between calls re-arms the flag and is outside this run.
   */
  lemma PrefixKeyAtMostOnce<V(!new)>(it: PrefixIter<V>, step: Step<V>, n: nat, i: nat, j: nat)
    requires StepHonoursPrefix(step)
    requires i < j < n
    requires Run(it, step, n).items[i].Some? && Run(it, step, n).items[j].Some?
    ensures Run(it, step, n).items[j].value.0 != it.prefix
  {
    RunYieldsPrefixedOnce(it, step, n);
  }

  /** An iterator built without the flag never yields a key equal to its prefix. */
  lemma WithoutFlagPrefixNeverYielded<V(!new)>(trie: Trie<V>, key: Key, step: Step<V>, n: nat)
    requires StepHonoursPrefix(step)
    ensures forall i :: 0 <= i < n && Run(New(trie, key, false), step, n).items[i].Some? ==>
      Run(New(trie, key, false), step, n).items[i].value.0 != key
  {
    RunYieldsPrefixedOnce(New(trie, key, false), step, n);
  }
}
