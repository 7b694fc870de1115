/**
 * The circular doubly-linked list of the kernel-style `list.h`, stated over
 * the `next` and `prev` fields of an arena of nodes: slot 0 is the sentinel,
 * the other slots are element nodes. `Linked(nx, pv, order)` says that
 * following `next` from the sentinel visits the element slots of `order`, in
 * that order, and comes back to the sentinel, and that `prev` runs the same
 * cycle backwards.
 */
module ListLinks {

  /** The slot of the sentinel `list_head`. */
  const HEAD: int := 0

  /**
   * `s[i]` under a name of its own: the distinctness quantifier below is
   * triggered by it, so it is only instantiated where a proof names it.
   */
  function At(s: seq<int>, i: int): int
    requires 0 <= i < |s|
  {
    s[i]
  }

  /** No slot occurs twice. */
  predicate Distinct(s: seq<int>)
  {
    forall i, j :: 0 <= i < j < |s| ==> At(s, i) != At(s, j)
  }

  /** `head->next` of a list whose elements are `order`. */
  function First(order: seq<int>): int
  {
    if order == [] then HEAD else order[0]
  }

  /** `head->prev` of a list whose elements are `order`. */
  function Last(order: seq<int>): int
  {
    if order == [] then HEAD else order[|order| - 1]
  }

  /**
   * The cycle HEAD, order[0], ..., order[|order| - 1], HEAD is linked both
   * ways in `nx` / `pv`: the sentinel (slot 0) links to the first and the
   * last element, and every element links to its successor and its
   * predecessor on the cycle. The cycle holds each element slot once, and
   * the sentinel is not among the elements, so it has exactly one sentinel.
   */
  ghost predicate Linked(nx: seq<int>, pv: seq<int>, order: seq<int>)
  {
    |nx| == |pv| > 0 &&
    (forall i :: 0 <= i < |order| ==> 0 < order[i] < |nx|) &&
    Distinct(order) &&
    nx[HEAD] == First(order) && pv[HEAD] == Last(order) &&
    (forall i :: 0 <= i < |order| ==> nx[At(order, i)] == SuccAt(order, i) && pv[At(order, i)] == PredAt(order, i))
  }

  /** Element slots outside `nodes` keep their links. */
  ghost predicate LinksKept(nx: seq<int>, pv: seq<int>, nx': seq<int>, pv': seq<int>, nodes: seq<int>)
    requires |nx| == |pv| == |nx'| == |pv'|
  {
    forall p :: 0 < p < |nx| && p !in nodes ==> nx'[p] == nx[p] && pv'[p] == pv[p]
  }

  /** The successor along `next` of the element at index `i`. */
  function SuccAt(order: seq<int>, i: int): int
    requires 0 <= i < |order|
  {
    if i + 1 < |order| then order[i + 1] else HEAD
  }

  /** The predecessor along `prev` of the element at index `i`. */
  function PredAt(order: seq<int>, i: int): int
    requires 0 <= i < |order|
  {
    if i > 0 then order[i - 1] else HEAD
  }

  /** The links of the element at index `i` of a linked cycle. */
  lemma LinkedAt(nx: seq<int>, pv: seq<int>, order: seq<int>, i: int)
    requires Linked(nx, pv, order) && 0 <= i < |order|
    ensures 0 < order[i] < |nx|
    ensures nx[order[i]] == SuccAt(order, i) && pv[order[i]] == PredAt(order, i)
  {
    assert At(order, i) == order[i];
  }

  /** Two indexes of a cycle name the same slot only when they are equal. */
  lemma DistinctAt(order: seq<int>, i: int, j: int)
    requires Distinct(order) && 0 <= i < |order| && 0 <= j < |order| && i != j
    ensures order[i] != order[j]
  {
    if i < j {
      assert At(order, i) != At(order, j);
    } else {
      assert At(order, j) != At(order, i);
    }
  }

  /**
   * The doubly-linked invariant: for every node `n` of the cycle, sentinel or
   * element, `n.next.prev == n` and `n.prev.next == n`.
   */
  lemma LinkedNeighbours(nx: seq<int>, pv: seq<int>, order: seq<int>, n: int)
    requires Linked(nx, pv, order) && (n == HEAD || n in order)
    ensures 0 <= nx[n] < |nx| && 0 <= pv[n] < |nx|
    ensures pv[nx[n]] == n && nx[pv[n]] == n
  {
    if n == HEAD {
      if order != [] {
        LinkedAt(nx, pv, order, 0);
        LinkedAt(nx, pv, order, |order| - 1);
      }
    } else {
      var i :| 0 <= i < |order| && order[i] == n;
      LinkedAt(nx, pv, order, i);
      if i + 1 < |order| {
        LinkedAt(nx, pv, order, i + 1);
      }
      if i > 0 {
        LinkedAt(nx, pv, order, i - 1);
      }
    }
  }

  /** `list_add(node, head)` on a linked cycle puts `node` first. */
  lemma LinkedPushFront(nx: seq<int>, pv: seq<int>, order: seq<int>, node: int)
    requires Linked(nx, pv, order) && 0 < node < |nx| && node !in order
    ensures
      var b := nx[HEAD];
      Linked(nx[node := b][HEAD := node], pv[b := node][node := HEAD], [node] + order)
  {
    var b := nx[HEAD];
    var nx', pv', o' := nx[node := b][HEAD := node], pv[b := node][node := HEAD], [node] + order;
    forall i | 0 <= i < |o'| ensures 0 < o'[i] < |nx'| {
      if i > 0 { assert o'[i] == order[i - 1]; }
    }
    forall i, j | 0 <= i < j < |o'| ensures At(o', i) != At(o', j) {
      assert o'[j] == order[j - 1];
      if i > 0 {
        assert o'[i] == order[i - 1];
        DistinctAt(order, i - 1, j - 1);
      }
    }
    forall i | 0 <= i < |o'| ensures nx'[At(o', i)] == SuccAt(o', i) && pv'[At(o', i)] == PredAt(o', i) {
      if i > 0 {
        assert o'[i] == order[i - 1];
        LinkedAt(nx, pv, order, i - 1);
        if i > 1 {
          assert o'[i - 1] == order[i - 2];
          DistinctAt(order, 0, i - 1);
        }
      }
    }
  }

  /** `list_add_tail(node, head)` on a linked cycle puts `node` last. */
  lemma LinkedPushBack(nx: seq<int>, pv: seq<int>, order: seq<int>, node: int)
    requires Linked(nx, pv, order) && 0 < node < |nx| && node !in order
    ensures
      var a := pv[HEAD];
      Linked(nx[a := node][node := HEAD], pv[node := a][HEAD := node], order + [node])
  {
    var a := pv[HEAD];
    var nx', pv', o' := nx[a := node][node := HEAD], pv[node := a][HEAD := node], order + [node];
    forall i | 0 <= i < |o'| ensures 0 < o'[i] < |nx'| {
      if i < |order| { assert o'[i] == order[i]; }
    }
    forall i, j | 0 <= i < j < |o'| ensures At(o', i) != At(o', j) {
      assert o'[i] == order[i];
      if j < |order| {
        assert o'[j] == order[j];
        DistinctAt(order, i, j);
      }
    }
    forall i | 0 <= i < |o'| ensures nx'[At(o', i)] == SuccAt(o', i) && pv'[At(o', i)] == PredAt(o', i) {
      if i < |order| {
        assert o'[i] == order[i];
        LinkedAt(nx, pv, order, i);
        if i + 1 < |order| {
          assert o'[i + 1] == order[i + 1];
          DistinctAt(order, i, |order| - 1);
        }
      }
    }
  }

  /** The elements of `order` with index `j` taken out, by index. */
  lemma RemoveAt<T>(order: seq<T>, j: int)
    requires 0 <= j < |order|
    ensures var o' := order[..j] + order[j + 1..];
      |o'| == |order| - 1 &&
      (forall i :: 0 <= i < j ==> o'[i] == order[i]) &&
      (forall i :: j <= i < |o'| ==> o'[i] == order[i + 1])
  {
  }

  /** Taking an element out keeps the other slots in range and distinct. */
  lemma DeleteKeepsSlots(n: int, order: seq<int>, j: int)
    requires 0 <= j < |order| && Distinct(order)
    requires forall i :: 0 <= i < |order| ==> 0 < order[i] < n
    ensures var o' := order[..j] + order[j + 1..];
      Distinct(o') && forall i :: 0 <= i < |o'| ==> 0 < o'[i] < n
  {
    var o' := order[..j] + order[j + 1..];
    RemoveAt(order, j);
    forall i, k | 0 <= i < k < |o'| ensures At(o', i) != At(o', k) {
      var i0 := if i < j then i else i + 1;
      var k0 := if k < j then k else k + 1;
      assert o'[i] == order[i0] && o'[k] == order[k0];
      DistinctAt(order, i0, k0);
    }
  }

  /**
   * After unlinking the element at index `j`, the element that was at index
   * `k` is at index `i` of the shorter cycle and is linked to its new
   * neighbours there.
   */
  lemma DeleteLinksAt(nx: seq<int>, pv: seq<int>, order: seq<int>, j: int, i: int)
    requires Linked(nx, pv, order) && 0 <= j < |order| && 0 <= i < |order| - 1
    ensures
      var a, b, o' := PredAt(order, j), SuccAt(order, j), order[..j] + order[j + 1..];
      nx[a := b][o'[i]] == SuccAt(o', i) && pv[b := a][o'[i]] == PredAt(o', i)
  {
    var a, b, o' := PredAt(order, j), SuccAt(order, j), order[..j] + order[j + 1..];
    RemoveAt(order, j);
    var k := if i < j then i else i + 1;
    assert o'[i] == order[k];
    LinkedAt(nx, pv, order, k);
    if j > 0 && k != j - 1 {
      DistinctAt(order, k, j - 1);
    }
    if j + 1 < |order| && k != j + 1 {
      DistinctAt(order, k, j + 1);
    }
  }

  /** After unlinking the element at index `j`, the sentinel closes the shorter cycle. */
  lemma DeleteEnds(nx: seq<int>, pv: seq<int>, order: seq<int>, j: int)
    requires Linked(nx, pv, order) && 0 <= j < |order|
    ensures
      var a, b, o' := PredAt(order, j), SuccAt(order, j), order[..j] + order[j + 1..];
      nx[a := b][HEAD] == First(o') && pv[b := a][HEAD] == Last(o')
  {
    var a, b, o' := PredAt(order, j), SuccAt(order, j), order[..j] + order[j + 1..];
    RemoveAt(order, j);
    if j > 0 {
      LinkedAt(nx, pv, order, j - 1);
    }
    if j + 1 < |order| {
      LinkedAt(nx, pv, order, j + 1);
    }
  }

  /**
   * `list_del` of the element at index `j`: its neighbours are linked to each
   * other, and the cycle is the old one without that element.
   */
  lemma LinkedDelete(nx: seq<int>, pv: seq<int>, order: seq<int>, j: int)
    requires Linked(nx, pv, order) && 0 <= j < |order|
    ensures 0 < order[j] < |nx|
    ensures nx[order[j]] == SuccAt(order, j) && pv[order[j]] == PredAt(order, j)
    ensures
      var a, b := PredAt(order, j), SuccAt(order, j);
      Linked(nx[a := b], pv[b := a], order[..j] + order[j + 1..])
  {
    var a, b, o' := PredAt(order, j), SuccAt(order, j), order[..j] + order[j + 1..];
    LinkedAt(nx, pv, order, j);
    DeleteKeepsSlots(|nx|, order, j);
    DeleteEnds(nx, pv, order, j);
    forall i | 0 <= i < |o'| ensures nx[a := b][At(o', i)] == SuccAt(o', i) && pv[b := a][At(o', i)] == PredAt(o', i) {
      DeleteLinksAt(nx, pv, order, j, i);
    }
  }
}
