/**
 * An indexed binary min-heap: a vector of items kept in heap order, plus a
 * map from each item's key to the slot that holds it, so that an item can be
 * found by key and moved up or down when its value decreases or increases.
 */
module BinaryHeap {

  /** What `Push` does when an item with the same key is already stored. */
  datatype PushAction = Keep | DecreaseKey | IncreaseKey

  /**
   * A heap item: its identity `key`, its priority `value`, and whatever else
   * the caller carries along with it (`data`).
   */
  datatype Item<K, D> = Item(key: K, value: int, data: D)

  datatype Option<T> = None | Some(value: T)

  /** Slot `c` is a child of slot `p`: the children of `p` are `2p + 1` and `2p + 2`. */
  predicate IsChild(p: nat, c: nat)
  {
    c == 2 * p + 1 || c == 2 * p + 2
  }

  /** No item has a smaller value than the item in its parent slot. */
  ghost predicate HeapOrdered<K, D>(s: seq<Item<K, D>>)
  {
    forall p, c {:trigger IsChild(p, c)} :: 0 <= p < c < |s| && IsChild(p, c) ==> s[p].value <= s[c].value
  }

  /**
   * Heap order everywhere except between slot `k` and its parent, and the
   * parent of `k` is no greater than the children of `k` (what `SiftUp` needs).
   */
  ghost predicate HeapOrderedExceptUp<K, D>(s: seq<Item<K, D>>, k: nat)
  {
    && (forall p, c {:trigger IsChild(p, c)} :: 0 <= p < c < |s| && IsChild(p, c) && c != k ==> s[p].value <= s[c].value)
    && (forall g, c {:trigger IsChild(g, k), IsChild(k, c)} :: 0 <= g < k < c < |s| && IsChild(g, k) && IsChild(k, c) ==> s[g].value <= s[c].value)
  }

  /**
   * Heap order everywhere except between slot `k` and its children, and the
   * parent of `k` is no greater than the children of `k` (what `SiftDown` needs).
   */
  ghost predicate HeapOrderedExceptDown<K, D>(s: seq<Item<K, D>>, k: nat)
  {
    && (forall p, c {:trigger IsChild(p, c)} :: 0 <= p < c < |s| && IsChild(p, c) && p != k ==> s[p].value <= s[c].value)
    && (forall g, c {:trigger IsChild(g, k), IsChild(k, c)} :: 0 <= g < k < c < |s| && IsChild(g, k) && IsChild(k, c) ==> s[g].value <= s[c].value)
  }

  /** The key-to-slot map and the item vector agree in both directions. */
  ghost predicate IndexAgrees<K, D>(items: seq<Item<K, D>>, indices: map<K, nat>)
  {
    && (forall i :: 0 <= i < |items| ==> items[i].key in indices && indices[items[i].key] == i)
    && (forall k :: k in indices ==> indices[k] < |items| && items[indices[k]].key == k)
  }

  /** `contents` gives, for every key of the map, the item in that key's slot. */
  ghost predicate ContentsAgree<K, D>(items: seq<Item<K, D>>, indices: map<K, nat>, contents: map<K, Item<K, D>>)
  {
    && IndexAgrees(items, indices)
    && contents.Keys == indices.Keys
    && (forall k :: k in contents ==> contents[k] == items[indices[k]])
  }

  /** The root of a heap-ordered vector holds a minimum value. */
  lemma {:induction false} RootIsMinimum<K, D>(s: seq<Item<K, D>>, i: nat)
    requires HeapOrdered(s) && i < |s|
    ensures s[0].value <= s[i].value
  {
    if i > 0 {
      var p := (i - 1) / 2;
      RootIsMinimum(s, p);
      assert IsChild(p, i) && s[p].value <= s[i].value;
    }
  }

  /** One step of `SiftUp`: exchanging slot `k` with a parent that is not smaller moves the fault up. */
  lemma SiftUpStep<K, D>(s: seq<Item<K, D>>, k: nat, p: nat)
    requires p < k < |s| && IsChild(p, k) && HeapOrderedExceptUp(s, k)
    requires !(s[p].value < s[k].value)
    ensures HeapOrderedExceptUp(Swap(s, k, p), p)
  {
    var t := Swap(s, k, p);
    forall q, c | 0 <= q < c < |t| && IsChild(q, c) && c != p
      ensures t[q].value <= t[c].value
    {
      if c == k {
      } else if q == k {
        assert s[p].value <= s[c].value;
      } else if q == p {
        assert s[p].value <= s[c].value;
      }
    }
    forall g, c | 0 <= g < p < c < |t| && IsChild(g, p) && IsChild(p, c)
      ensures t[g].value <= t[c].value
    {
      assert s[g].value <= s[p].value;
      if c != k {
        assert s[p].value <= s[c].value;
      }
    }
  }

  /** One step of `SiftDown`: exchanging slot `k` with a child no larger than its sibling moves the fault down. */
  lemma SiftDownStep<K, D>(s: seq<Item<K, D>>, k: nat, child: nat)
    requires k < child < |s| && IsChild(k, child) && HeapOrderedExceptDown(s, k)
    requires forall c :: k < c < |s| && IsChild(k, c) ==> s[child].value <= s[c].value
    requires !(s[k].value < s[child].value)
    ensures HeapOrderedExceptDown(Swap(s, k, child), child)
  {
    var t := Swap(s, k, child);
    forall q, c | 0 <= q < c < |t| && IsChild(q, c) && q != child
      ensures t[q].value <= t[c].value
    {
      if q == k {
      } else if c == k {
        assert s[q].value <= s[child].value;
      }
    }
    forall g, c | 0 <= g < child < c < |t| && IsChild(g, child) && IsChild(child, c)
      ensures t[g].value <= t[c].value
    {
      assert g == k;
      assert s[child].value <= s[c].value;
    }
  }

  /**
   * The child of `k` that `SiftDown` compares against: the left one, unless
   * the right one exists and is not larger. Requires that `k` has a child.
   */
  function SmallerChild<K, D>(s: seq<Item<K, D>>, k: nat): (child: nat)
    requires 2 * k + 1 < |s|
    ensures k < child < |s| && IsChild(k, child)
    ensures forall c :: k < c < |s| && IsChild(k, c) ==> s[child].value <= s[c].value
  {
    if 2 * k + 2 < |s| && !(s[2 * k + 1].value < s[2 * k + 2].value) then 2 * k + 2 else 2 * k + 1
  }

  /** `SiftUp` stops at the root or below a strictly smaller parent: the vector is then in heap order. */
  lemma SiftUpDone<K, D>(s: seq<Item<K, D>>, k: nat)
    requires k < |s| && HeapOrderedExceptUp(s, k)
    requires k == 0 || s[(k - 1) / 2].value < s[k].value
    ensures HeapOrdered(s)
  {
    forall p, c | 0 <= p < c < |s| && IsChild(p, c)
      ensures s[p].value <= s[c].value
    {
      if c == k {
        assert p == (k - 1) / 2;
      }
    }
  }

  /** `SiftDown` stops at a leaf or above a strictly larger child: the vector is then in heap order. */
  lemma SiftDownDone<K, D>(s: seq<Item<K, D>>, k: nat)
    requires k < |s| && HeapOrderedExceptDown(s, k)
    requires 2 * k + 1 < |s| ==> s[k].value < s[SmallerChild(s, k)].value
    ensures HeapOrdered(s)
  {
    forall p, c | 0 <= p < c < |s| && IsChild(p, c)
      ensures s[p].value <= s[c].value
    {
      if p == k {
        assert s[SmallerChild(s, k)].value <= s[c].value;
      }
    }
  }

  /** Exchanging two slots and writing both new slot numbers to the map keeps the abstract value. */
  lemma SwapAgrees<K, D>(items: seq<Item<K, D>>, indices: map<K, nat>, contents: map<K, Item<K, D>>, i: nat, j: nat)
    requires ContentsAgree(items, indices, contents) && i < |items| && j < |items|
    ensures ContentsAgree(Swap(items, i, j), indices[items[i].key := j][items[j].key := i], contents)
  {
  }

  /** Exchanging slots `i` and `j` of a vector. */
  function Swap<T>(s: seq<T>, i: nat, j: nat): (r: seq<T>)
    requires i < |s| && j < |s|
    ensures |r| == |s| && r[i] == s[j] && r[j] == s[i]
    ensures forall m :: 0 <= m < |s| && m != i && m != j ==> r[m] == s[m]
  {
    s[i := s[j]][j := s[i]]
  }

  /** Lowering the value in slot `i` leaves the heap out of order only above `i`. */
  lemma LowerAt<K, D>(s: seq<Item<K, D>>, i: nat, x: Item<K, D>)
    requires HeapOrdered(s) && i < |s| && x.value <= s[i].value
    ensures HeapOrderedExceptUp(s[i := x], i)
  {
  }

  /** Raising the value in slot `i` leaves the heap out of order only below `i`. */
  lemma RaiseAt<K, D>(s: seq<Item<K, D>>, i: nat, x: Item<K, D>)
    requires HeapOrdered(s) && i < |s| && s[i].value <= x.value
    ensures HeapOrderedExceptDown(s[i := x], i)
  {
  }

  /** Appending an item leaves the heap out of order only above the new last slot. */
  lemma AppendAt<K, D>(s: seq<Item<K, D>>, x: Item<K, D>)
    requires HeapOrdered(s)
    ensures HeapOrderedExceptUp(s + [x], |s|)
  {
  }

  /** Moving the last item to the root leaves the heap out of order only below the root. */
  lemma LastToRoot<K, D>(s: seq<Item<K, D>>)
    requires HeapOrdered(s) && 1 < |s|
    ensures HeapOrderedExceptDown(s[0 := s[|s| - 1]][..|s| - 1], 0)
  {
    var t := s[0 := s[|s| - 1]][..|s| - 1];
    forall p, c | 0 <= p < c < |t| && IsChild(p, c) && p != 0
      ensures t[p].value <= t[c].value
    {
      assert t[p] == s[p] && t[c] == s[c];
    }
  }

  /** Replacing the item of a stored key in its own slot keeps map and vector in agreement. */
  lemma ReplaceAgrees<K, D>(items: seq<Item<K, D>>, indices: map<K, nat>, contents: map<K, Item<K, D>>, x: Item<K, D>)
    requires ContentsAgree(items, indices, contents) && x.key in indices
    ensures ContentsAgree(items[indices[x.key] := x], indices, contents[x.key := x])
  {
  }

  /** Appending the item of a new key, mapped to the new last slot, keeps map and vector in agreement. */
  lemma AppendAgrees<K, D>(items: seq<Item<K, D>>, indices: map<K, nat>, contents: map<K, Item<K, D>>, x: Item<K, D>)
    requires ContentsAgree(items, indices, contents) && x.key !in indices
    ensures ContentsAgree(items + [x], indices[x.key := |items|], contents[x.key := x])
  {
  }

  /**
   * Removing the root (the last item takes its slot, and the map entry of the
   * moved item is set to 0) keeps map and vector in agreement.
   */
  lemma RemoveRootAgrees<K, D>(items: seq<Item<K, D>>, indices: map<K, nat>, contents: map<K, Item<K, D>>)
    requires ContentsAgree(items, indices, contents) && 0 < |items|
    ensures var last := |items| - 1;
      var s := items[0 := items[last]][..last];
      var m := indices - {items[0].key};
      ContentsAgree(s, if |s| > 0 then m[s[0].key := 0] else m, contents - {items[0].key})
  {
    var last := |items| - 1;
    var s := items[0 := items[last]][..last];
    var m := indices - {items[0].key};
    var m' := if |s| > 0 then m[s[0].key := 0] else m;
    forall i | 0 <= i < |s| ensures s[i].key in m' && m'[s[i].key] == i {
      if i == 0 {
      } else {
        assert s[i] == items[i];
      }
    }
    forall k | k in m' ensures m'[k] < |s| && s[m'[k]].key == k {
      if |s| > 0 && k == s[0].key {
      } else {
        assert k in indices && indices[k] != 0 && indices[k] != last;
        assert s[indices[k]] == items[indices[k]];
      }
    }
  }

  /** In a heap the root's value is no greater than the value of any stored key. */
  lemma RootIsMinimumOfContents<K, D>(items: seq<Item<K, D>>, indices: map<K, nat>, contents: map<K, Item<K, D>>)
    requires ContentsAgree(items, indices, contents) && HeapOrdered(items) && 0 < |items|
    ensures forall k :: k in contents ==> items[0].value <= contents[k].value
  {
    forall k | k in contents ensures items[0].value <= contents[k].value {
      RootIsMinimum(items, indices[k]);
    }
  }

  /** What holds at the head of each `SiftUp` iteration. */
  ghost predicate SiftUpInvariant<K, D>(items: seq<Item<K, D>>, indices: map<K, nat>, contents: map<K, Item<K, D>>, k: nat)
  {
    k < |items| && ContentsAgree(items, indices, contents) && HeapOrderedExceptUp(items, k)
  }

  /** What holds at the head of each `SiftDown` iteration. */
  ghost predicate SiftDownInvariant<K, D>(items: seq<Item<K, D>>, indices: map<K, nat>, contents: map<K, Item<K, D>>, k: nat)
  {
    k < |items| && ContentsAgree(items, indices, contents) && HeapOrderedExceptDown(items, k)
  }

  /** A `SiftUp` exchange with the parent `p` keeps the iteration invariant, now at `p`. */
  lemma SiftUpMove<K, D>(items: seq<Item<K, D>>, indices: map<K, nat>, contents: map<K, Item<K, D>>, k: nat, p: nat)
    requires SiftUpInvariant(items, indices, contents, k) && 0 < k && p == (k - 1) / 2
    requires !(items[p].value < items[k].value)
    ensures SiftUpInvariant(Swap(items, k, p), indices[items[k].key := p][items[p].key := k], contents, p)
  {
    SwapAgrees(items, indices, contents, k, p);
    SiftUpStep(items, k, p);
  }

  /** A `SiftDown` exchange with the smaller child keeps the iteration invariant, now at that child. */
  lemma SiftDownMove<K, D>(items: seq<Item<K, D>>, indices: map<K, nat>, contents: map<K, Item<K, D>>, k: nat)
    requires SiftDownInvariant(items, indices, contents, k) && 2 * k + 1 < |items|
    requires !(items[k].value < items[SmallerChild(items, k)].value)
    ensures var child := SmallerChild(items, k);
      SiftDownInvariant(Swap(items, k, child), indices[items[k].key := child][items[child].key := k], contents, child)
  {
    var child := SmallerChild(items, k);
    SwapAgrees(items, indices, contents, k, child);
    SiftDownStep(items, k, child);
  }

  /**
   * Bookkeeping of popping a heap whose contents were `original` down to
   * `contents`, with `popped` taken out so far and `next` just taken out:
   * each popped item is the item stored under its key, no key is popped
   * twice, and every original key is still stored, is `next`, or was popped.
   */
  ghost predicate Drained<K, D>(original: map<K, Item<K, D>>, contents: map<K, Item<K, D>>,
                                popped: seq<Item<K, D>>, next: Option<Item<K, D>>)
  {
    && (forall i :: 0 <= i < |popped| ==> popped[i].key in original && popped[i] == original[popped[i].key])
    && (forall i, j :: 0 <= i < j < |popped| ==> popped[i].key != popped[j].key)
    && (forall i :: 0 <= i < |popped| ==> popped[i].key !in contents)
    && (forall k :: k in contents ==> k in original && contents[k] == original[k])
    && (next.Some? ==>
          && next.value.key in original && next.value == original[next.value.key]
          && next.value.key !in contents
          && forall i :: 0 <= i < |popped| ==> popped[i].key != next.value.key)
    && (forall k :: k in original ==>
          || k in contents
          || (next.Some? && k == next.value.key)
          || exists i :: 0 <= i < |popped| && popped[i].key == k)
  }

  /** The first pop of a heap starts the bookkeeping with nothing popped. */
  lemma DrainStart<K, D>(original: map<K, Item<K, D>>, contents: map<K, Item<K, D>>, next: Option<Item<K, D>>)
    requires next.None? ==> contents == original
    requires next.Some? ==>
      && next.value.key in original && original[next.value.key] == next.value
      && contents == original - {next.value.key}
    ensures Drained(original, contents, [], next)
  {
  }

  /** Moving `x` to the popped items and popping once more keeps the bookkeeping. */
  lemma DrainStep<K, D>(original: map<K, Item<K, D>>, contents: map<K, Item<K, D>>, popped: seq<Item<K, D>>,
                        x: Item<K, D>, contents': map<K, Item<K, D>>, next: Option<Item<K, D>>)
    requires Drained(original, contents, popped, Some(x))
    requires next.None? ==> contents' == contents
    requires next.Some? ==>
      && next.value.key in contents && contents[next.value.key] == next.value
      && contents' == contents - {next.value.key}
    ensures Drained(original, contents', popped + [x], next)
  {
    var p := popped + [x];
    forall k | k in original
      ensures || k in contents'
              || (next.Some? && k == next.value.key)
              || exists i :: 0 <= i < |p| && p[i].key == k
    {
      if k == x.key {
        assert p[|popped|].key == k;
      } else if k !in contents {
        var i :| 0 <= i < |popped| && popped[i].key == k;
        assert p[i].key == k;
      }
    }
  }

  /**
   * The popped values never decrease, `next` is no smaller than the last of
   * them, and no value still stored is smaller than `next`.
   */
  ghost predicate PoppedInOrder<K, D>(contents: map<K, Item<K, D>>, popped: seq<Item<K, D>>, next: Option<Item<K, D>>)
  {
    && (forall i :: 0 < i < |popped| ==> popped[i - 1].value <= popped[i].value)
    && (next.Some? && popped != [] ==> popped[|popped| - 1].value <= next.value.value)
    && (next.Some? ==> forall k :: k in contents ==> next.value.value <= contents[k].value)
  }

  /** Moving `x` to the popped items and popping a minimum of the rest keeps the order. */
  lemma OrderStep<K, D>(contents: map<K, Item<K, D>>, popped: seq<Item<K, D>>, x: Item<K, D>,
                        contents': map<K, Item<K, D>>, next: Option<Item<K, D>>)
    requires PoppedInOrder(contents, popped, Some(x))
    requires next.None? ==> contents' == contents
    requires next.Some? ==>
      && next.value.key in contents && contents[next.value.key] == next.value
      && contents' == contents - {next.value.key}
      && forall k :: k in contents' ==> next.value.value <= contents'[k].value
    ensures PoppedInOrder(contents', popped + [x], next)
  {
  }

  class BinaryHashHeap<K(==), D> {
    var items: seq<Item<K, D>>
    var indices: map<K, nat>
    /** The abstract value of the heap: the stored item of every key. */
    ghost var contents: map<K, Item<K, D>>

    /** The map and the vector agree, `contents` describes them, and the vector is in heap order. */
    ghost predicate Valid()
      reads this
    {
      ContentsAgree(items, indices, contents) && HeapOrdered(items)
    }

    constructor ()
      ensures Valid() && contents == map[] && items == []
    {
      items := [];
      indices := map[];
      contents := map[];
    }

    /**
     * Moves the item at slot `k0` toward the root until its parent is
     * strictly smaller, writing each moved item's new slot to the map.
     */
    method SiftUp(k0: nat)
      requires k0 < |items| && ContentsAgree(items, indices, contents) && HeapOrderedExceptUp(items, k0)
      modifies this`items, this`indices
      ensures Valid()
      ensures |items| == old(|items|)
    {
      var k: nat := k0;
      while k != 0
        invariant |items| == old(|items|) && SiftUpInvariant(items, indices, contents, k)
      {
        var parent := (k - 1) / 2;
        if items[parent].value < items[k].value {
          SiftUpDone(items, k);
          return;
        }
        SiftUpMove(items, indices, contents, k, parent);
        indices := indices[items[k].key := parent][items[parent].key := k];
        items := Swap(items, k, parent);
        k := parent;
      }
      SiftUpDone(items, k);
    }

    /**
     * Moves the item at slot `k0` toward the leaves, each time exchanging it
     * with its smaller child (the right one on a tie), until it is strictly
     * smaller than that child or has no child.
     */
    method SiftDown(k0: nat)
      requires k0 < |items| && ContentsAgree(items, indices, contents) && HeapOrderedExceptDown(items, k0)
      modifies this`items, this`indices
      ensures Valid()
      ensures |items| == old(|items|)
    {
      var k: nat := k0;
      while 2 * k + 1 < |items|
        invariant |items| == old(|items|) && SiftDownInvariant(items, indices, contents, k)
        decreases |items| - k
      {
        // A vector has no right child where the left one is missing, so the
        // loop guard covers both "no child" cases of the source.
        var child := SmallerChild(items, k);
        if items[k].value < items[child].value {
          SiftDownDone(items, k);
          return;
        }
        SiftDownMove(items, indices, contents, k);
        indices := indices[items[k].key := child][items[child].key := k];
        items := Swap(items, k, child);
        k := child;
      }
      SiftDownDone(items, k);
    }

    /**
     * Inserts `item`. A new key is always inserted. For a stored key,
     * `Keep` leaves the heap alone, `DecreaseKey` replaces the stored item
     * only by a strictly smaller value and `IncreaseKey` only by a strictly
     * larger one. Returns whether the heap changed.
     */
    method Push(action: PushAction, item: Item<K, D>) returns (pushed: bool)
      requires Valid()
      modifies this
      ensures Valid()
      ensures item.key !in old(contents) ==>
        && pushed
        && contents == old(contents)[item.key := item]
        && |items| == old(|items|) + 1
      ensures item.key in old(contents) ==>
        && pushed == (match action
                        case Keep => false
                        case DecreaseKey => item.value < old(contents)[item.key].value
                        case IncreaseKey => item.value > old(contents)[item.key].value)
        && contents == (if pushed then old(contents)[item.key := item] else old(contents))
        && |items| == old(|items|)
      ensures !pushed ==> items == old(items) && indices == old(indices) && contents == old(contents)
    {
      if item.key in indices {
        var index := indices[item.key];
        match action {
          case Keep =>
            return false;
          case DecreaseKey =>
            if items[index].value <= item.value {
              return false;
            }
            LowerAt(items, index, item);
            ReplaceAgrees(items, indices, contents, item);
            items := items[index := item];
            contents := contents[item.key := item];
            SiftUp(index);
          case IncreaseKey =>
            if items[index].value >= item.value {
              return false;
            }
            RaiseAt(items, index, item);
            ReplaceAgrees(items, indices, contents, item);
            items := items[index := item];
            contents := contents[item.key := item];
            SiftDown(index);
        }
      } else {
        var index := |items|;
        AppendAt(items, item);
        AppendAgrees(items, indices, contents, item);
        indices := indices[item.key := index];
        items := items + [item];
        contents := contents[item.key := item];
        SiftUp(index);
      }
      return true;
    }

    /**
     * Removes and returns an item of minimum value: the root is replaced by
     * the last item, whose slot is then restored by `SiftDown`. Returns
     * `None`, changing nothing, on an empty heap.
     */
    method Pop() returns (r: Option<Item<K, D>>)
      requires Valid()
      modifies this
      ensures Valid()
      ensures r.None? <==> old(|items|) == 0
      ensures r.None? ==> items == old(items) && indices == old(indices) && contents == old(contents) == map[]
      ensures r.Some? ==>
        && r.value.key in old(contents)
        && old(contents)[r.value.key] == r.value
        && contents == old(contents) - {r.value.key}
        && |items| == old(|items|) - 1
        && (forall k :: k in contents ==> r.value.value <= contents[k].value)
    {
      if |items| == 0 {
        return None;
      }
      var result := items[0];
      RootIsMinimumOfContents(items, indices, contents);
      RemoveRootAgrees(items, indices, contents);
      if 1 < |items| {
        LastToRoot(items);
      }
      var last := |items| - 1;
      items := items[0 := items[last]][..last];
      indices := indices - {result.key};
      contents := contents - {result.key};
      if |items| > 0 {
        indices := indices[items[0].key := 0];
        SiftDown(0);
      }
      return Some(result);
    }

    /**
     * Pops until the heap is empty, returning the items in the order popped:
     * every stored item comes out exactly once, and the values never
     * decrease.
     */
    method DrainInOrder() returns (popped: seq<Item<K, D>>)
      requires Valid()
      modifies this
      ensures Valid() && contents == map[]
      ensures |popped| == old(|items|)
      ensures forall i :: 0 < i < |popped| ==> popped[i - 1].value <= popped[i].value
      ensures forall i :: 0 <= i < |popped| ==> popped[i].key in old(contents) && popped[i] == old(contents)[popped[i].key]
      ensures forall i, j :: 0 <= i < j < |popped| ==> popped[i].key != popped[j].key
      ensures forall k :: k in old(contents) ==> exists i :: 0 <= i < |popped| && popped[i].key == k
    {
      popped := [];
      var next := Pop();
      DrainStart(old(contents), contents, next);
      assert PoppedInOrder(contents, popped, next);
      while next.Some?
        invariant Valid()
        invariant next.Some? ==> |popped| + |items| + 1 == old(|items|)
        invariant next.None? ==> |popped| == old(|items|) && |items| == 0
        invariant PoppedInOrder(contents, popped, next)
        invariant Drained(old(contents), contents, popped, next)
        decreases |items| + (if next.Some? then 1 else 0)
      {
        ghost var before, earlier := contents, popped;
        var x := next.value;
        popped := popped + [x];
        next := Pop();
        DrainStep(old(contents), before, earlier, x, contents, next);
        OrderStep(before, earlier, x, contents, next);
      }
    }
  }
}
