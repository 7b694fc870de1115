/**
 * The string queue of queue.c: a circular doubly-linked list threaded
 * through a sentinel `list_head`, whose elements (`element_t`) each embed a
 * link pair and own a heap copy of a string.
 *
 * Memory is modelled as an arena (class `Arena`): slot `HEAD` (0) is the
 * sentinel, every other slot is one `element_t` with its links in `next` /
 * `prev` and its `value` pointer in `value`. An element's string is a
 * character buffer of its own, NUL-terminated as in C. `pool` lists the slots
 * `malloc` can still hand out; whether a call to `malloc` succeeds is a
 * parameter of the operation that calls it.
 *
 * A queue handle is an `Arena?`: `null` stands for the NULL `list_head *`.
 */
module Queue {
  import opened CString
  import opened ListLinks
  import opened QueueState

  datatype Option<T> = None | Some(value: T)

  /** The sequence read back to front. */
  function Reverse<T>(s: seq<T>): seq<T>
  {
    if s == [] then [] else Reverse(s[1..]) + [s[0]]
  }

  lemma {:induction false} ReverseLength<T>(s: seq<T>)
    ensures |Reverse(s)| == |s|
  {
    if s != [] {
      ReverseLength(s[1..]);
    }
  }

  lemma {:induction false} ReverseAt<T>(s: seq<T>, i: int)
    requires 0 <= i < |s|
    ensures |Reverse(s)| == |s| && Reverse(s)[i] == s[|s| - 1 - i]
  {
    ReverseLength(s);
    if i < |s| - 1 {
      ReverseAt(s[1..], i);
    } else {
      ReverseLength(s[1..]);
    }
  }

  /** Reversing twice gives back the original order. */
  lemma ReverseReverse<T>(s: seq<T>)
    ensures Reverse(Reverse(s)) == s
  {
    ReverseLength(s);
    ReverseLength(Reverse(s));
    forall i | 0 <= i < |s| ensures Reverse(Reverse(s))[i] == s[i] {
      ReverseAt(Reverse(s), i);
      ReverseAt(s, |s| - 1 - i);
    }
  }

  /** Reversing keeps every element, as often as it occurs. */
  lemma {:induction false} ReverseMultiset<T>(s: seq<T>)
    ensures multiset(Reverse(s)) == multiset(s)
  {
    if s != [] {
      ReverseMultiset(s[1..]);
      assert s == [s[0]] + s[1..];
    }
  }

  /** An element occurs in the reversed sequence exactly when it occurs in the original. */
  lemma ReverseIn<T>(s: seq<T>, x: T)
    ensures x in Reverse(s) <==> x in s
  {
    ReverseMultiset(s);
    assert x in multiset(Reverse(s)) <==> x in multiset(s);
  }

  /**
   * Moving the first of the elements still to be visited onto the front of
   * those already visited keeps `Reverse(rest) + done` the same: the
   * accumulator step of q_reverse and q_free.
   */
  lemma ReverseStep<T>(rest: seq<T>, done: seq<T>)
    requires rest != []
    ensures Reverse(rest[1..]) + ([rest[0]] + done) == Reverse(rest) + done
  {
    assert Reverse(rest) == Reverse(rest[1..]) + [rest[0]];
  }

  /**
   * The strings of a queue are determined by its order of elements: listing
   * the elements in reverse lists their strings in reverse.
   */
  lemma ListedReverse(order: seq<int>, live: set<int>, text: map<int, string>, contents: seq<string>, c': seq<string>)
    requires Listed(order, live, text, contents) && Listed(Reverse(order), live, text, c')
    ensures c' == Reverse(contents)
  {
    ReverseLength(order);
    ReverseLength(contents);
    forall i | 0 <= i < |c'| ensures c'[i] == Reverse(contents)[i] {
      ReverseAt(order, i);
      ReverseAt(contents, i);
      ListedAt(Reverse(order), live, text, c', i);
      ListedAt(order, live, text, contents, |order| - 1 - i);
    }
  }

  /** `live` with every slot of `ps` taken out, one at a time, from the last one of `ps` to the first. */
  function Without(live: set<int>, ps: seq<int>): set<int>
  {
    if ps == [] then live else Without(live, ps[1..]) - {ps[0]}
  }

  lemma {:induction false} WithoutIn(live: set<int>, ps: seq<int>, x: int)
    ensures x in Without(live, ps) <==> x in live && x !in ps
  {
    if ps != [] {
      WithoutIn(live, ps[1..], x);
      assert ps == [ps[0]] + ps[1..];
    }
  }

  /** `v` with `v[p] := x` done for every in-range `p` of `ps`, from the last one of `ps` to the first. */
  function SetAll<T>(v: seq<T>, ps: seq<int>, x: T): (w: seq<T>)
    ensures |w| == |v|
  {
    if ps == [] then v
    else
      var w := SetAll(v, ps[1..], x);
      if 0 <= ps[0] < |w| then w[ps[0] := x] else w
  }

  lemma {:induction false} SetAllAt<T>(v: seq<T>, ps: seq<int>, x: T, p: int)
    requires 0 <= p < |v|
    ensures SetAll(v, ps, x)[p] == if p in ps then x else v[p]
  {
    if ps != [] {
      SetAllAt(v, ps[1..], x, p);
      assert ps == [ps[0]] + ps[1..];
    }
  }

  /**
   * Releasing `it` after the elements of `done` (the accumulator step of
   * q_free): the pool gains `it` at its front, and `it` is taken out of the
   * allocated slots and its buffer reference cleared, on top of those of
   * `done`.
   */
  lemma ReleasedStep<T>(live: set<int>, value: seq<T>, pool: seq<int>, done: seq<int>, it: int, x: T)
    ensures [it] + (done + pool) == ([it] + done) + pool
    ensures Without(live, [it] + done) == Without(live, done) - {it}
    ensures 0 <= it < |value| ==> SetAll(value, [it] + done, x) == SetAll(value, done, x)[it := x]
  {
    assert ([it] + done)[0] == it && ([it] + done)[1..] == done;
  }

  class Arena {
    /** `list.next` of every slot. */
    var next: seq<int>
    /** `list.prev` of every slot. */
    var prev: seq<int>
    /** `value` of every element slot: its string buffer, or null once freed. */
    var value: seq<array?<char>>
    /** The element slots that `malloc` can still return, in the order it returns them. */
    var pool: seq<int>

    /** The slots currently allocated: the sentinel, the listed elements and removed ones their caller owns. */
    ghost var live: set<int>
    /** The string each allocated element holds. */
    ghost var text: map<int, string>
    /** The string buffers allocated so far. */
    ghost var Bufs: set<array<char>>
    /** The element slots in list order, from `head->next` on. */
    ghost var order: seq<int>
    /** The strings of the queue, in list order. */
    ghost var contents: seq<string>

    /** The allocator's bookkeeping over link and value tables of one size. */
    ghost predicate HeapOk()
      reads this
    {
      |next| == |prev| == |value| > 0 && Allocator(|next|, pool, live)
    }

    /**
     * The queue invariant: the sentinel is allocated, the list is a circular
     * doubly-linked cycle through it over allocated elements, listed in
     * `order`, whose strings `contents` lists, and every allocated element
     * owns a buffer holding its string.
     */
    ghost predicate Valid()
      reads this, Bufs
    {
      |value| == |next| &&
      Inv(next, prev, pool, live, text, order, contents) &&
      Owns(value, live, text, Bufs)
    }

    /** A heap of `size` slots in which only the sentinel is allocated; its links are not yet set. */
    constructor (size: nat)
      requires size > 0
      ensures HeapOk() && Owns(value, live, text, Bufs) && Listed(order, live, text, contents)
      ensures |next| == size && live == {HEAD} && order == [] && contents == []
      ensures pool == seq(size - 1, i => i + 1) && Bufs == {} && text == map[]
    {
      next := seq(size, i => 0);
      prev := seq(size, i => 0);
      value := seq(size, i => null);
      pool := seq(size - 1, i => i + 1);
      live := {HEAD};
      text := map[];
      Bufs := {};
      order := [];
      contents := [];
    }

    /** `next` and `prev` of the element at index `i`, read off the invariant. */
    lemma NextAt(i: int)
      requires Valid() && 0 <= i < |order|
      ensures 0 < order[i] < |next|
      ensures next[order[i]] == SuccAt(order, i) && prev[order[i]] == PredAt(order, i)
    {
      LinkedAt(next, prev, order, i);
    }

    /** Every listed element is an element slot of the arena. */
    lemma InArena(x: int)
      requires Valid() && x in order
      ensures 0 < x < |next|
    {
      var i :| 0 <= i < |order| && order[i] == x;
      LinkedAt(next, prev, order, i);
    }

    /** `INIT_LIST_HEAD(h)`: `h` links to itself both ways. */
    method InitListHead(h: int)
      requires 0 <= h < |next| == |prev|
      modifies this`next, this`prev
      ensures next == old(next)[h := h] && prev == old(prev)[h := h]
    {
      next := next[h := h];
      prev := prev[h := h];
    }

    /** `list_empty(head)` on the sentinel. */
    function ListEmpty(): (r: bool)
      reads this, Bufs
      requires Valid()
      ensures r <==> contents == []
    {
      next[HEAD] == HEAD
    }

    /**
     * `list_add(node, head)` with `head` the sentinel: links the allocated,
     * unlisted element `node` between the sentinel and the first element, so
     * that it becomes the first element of the queue.
     */
    method ListAdd(node: int)
      requires Valid() && 0 < node < |next| && node in live && node in text && node !in order
      modifies this`next, this`prev, this`order, this`contents
      ensures Valid()
      ensures var b := old(next[HEAD]);
        next == old(next)[node := b][HEAD := node] && prev == old(prev)[b := node][node := HEAD]
      ensures order == [node] + old(order) && contents == [text[node]] + old(contents)
      ensures LinksKept(old(next), old(prev), next, prev, order)
    {
      InvPushFront(next, prev, pool, live, text, order, contents, node, text[node]);
      var nx := next[HEAD];
      prev := prev[nx := node];
      next := next[node := nx];
      prev := prev[node := HEAD];
      next := next[HEAD := node];
      order, contents := [node] + order, [text[node]] + contents;
    }

    /**
     * `list_add_tail(node, head)` with `head` the sentinel: links the
     * allocated, unlisted element `node` between the last element and the
     * sentinel, so that it becomes the last element of the queue.
     */
    method ListAddTail(node: int)
      requires Valid() && 0 < node < |next| && node in live && node in text && node !in order
      modifies this`next, this`prev, this`order, this`contents
      ensures Valid()
      ensures var a := old(prev[HEAD]);
        next == old(next)[a := node][node := HEAD] && prev == old(prev)[node := a][HEAD := node]
      ensures order == old(order) + [node] && contents == old(contents) + [text[node]]
      ensures LinksKept(old(next), old(prev), next, prev, order)
    {
      InvPushBack(next, prev, pool, live, text, order, contents, node, text[node]);
      var pv := prev[HEAD];
      next := next[pv := node];
      next := next[node := HEAD];
      prev := prev[node := pv];
      prev := prev[HEAD := node];
      order, contents := order + [node], contents + [text[node]];
    }

    /**
     * `list_del(node)` of the element at index `j` of the queue: links its
     * neighbours to each other and leaves the links of `node` itself as they
     * are. The element stays allocated and keeps its string.
     */
    method ListDel(node: int, ghost j: int)
      requires Valid() && 0 <= j < |order| && order[j] == node
      modifies this`next, this`prev, this`order, this`contents
      ensures Valid()
      ensures old(next[node]) == SuccAt(old(order), j) && old(prev[node]) == PredAt(old(order), j)
      ensures next == old(next)[old(prev[node]) := old(next[node])]
      ensures prev == old(prev)[old(next[node]) := old(prev[node])]
      ensures order == old(order)[..j] + old(order)[j + 1..] && contents == old(contents)[..j] + old(contents)[j + 1..]
      ensures node in live && node != HEAD && node !in order && node in text && text[node] == old(contents)[j]
      ensures value[node] != null && value[node] in Bufs && value[node][..] == old(contents)[j] + [NUL]
      ensures NUL !in old(contents)[j]
      ensures LinksKept(old(next), old(prev), next, prev, old(order))
    {
      InvDelete(next, prev, pool, live, text, order, contents, j);
      OwnsAt(value, live, text, Bufs, node);
      var nx := next[node];
      var pv := prev[node];
      prev := prev[nx := pv];
      next := next[pv := nx];
      order, contents := order[..j] + order[j + 1..], contents[..j] + contents[j + 1..];
    }

    /**
     * `list_move(node, head)` with `head` the sentinel, of the element at
     * index `j`: `list_del(node)` followed by `list_add(node, head)`, which
     * makes it the first element of the queue.
     */
    method ListMove(node: int, ghost j: int)
      requires Valid() && 0 <= j < |order| && order[j] == node
      modifies this`next, this`prev, this`order, this`contents
      ensures Valid()
      ensures order == [node] + old(order)[..j] + old(order)[j + 1..]
      ensures contents == [old(contents)[j]] + old(contents)[..j] + old(contents)[j + 1..]
      ensures LinksKept(old(next), old(prev), next, prev, old(order))
    {
      ghost var n0, p0, o := next, prev, order;
      ListDel(node, j);
      ghost var n1, p1 := next, prev;
      ListAdd(node);
      LinksKeptTrans(n0, p0, n1, p1, next, prev, o, order);
    }

    /**
     * One round of the `q_reverse` loop: the queue is the elements already
     * visited (`done`, now in reverse) followed by those still to visit
     * (`rest`), and `it`, the first of `rest`, is moved to the front. The
     * `next` the deletion-safe iterator saved beforehand is the element to
     * visit after it, or the sentinel.
     */
    method MoveVisited(it: int, ghost done: seq<int>, ghost rest: seq<int>)
      requires Valid() && order == done + rest && rest != [] && it == rest[0]
      modifies this`next, this`prev, this`order, this`contents
      ensures Valid()
      ensures order == ([it] + done) + rest[1..]
      ensures old(next[it]) == First(rest[1..]) && 0 <= old(next[it]) < |next| == |old(next)|
      ensures LinksKept(old(next), old(prev), next, prev, old(order))
    {
      assert (done + rest)[|done|] == rest[0];
      assert (done + rest)[..|done|] == done && (done + rest)[|done| + 1..] == rest[1..];
      assert |rest| > 1 ==> (done + rest)[|done| + 1] == rest[1];
      NextAt(|done|);
      ListMove(it, |done|);
      if |rest| > 1 {
        InArena(rest[1]);
      }
    }

    /** `malloc` of one `element_t`: fails when `ok` is false or no slot is left. */
    method Malloc(ok: bool) returns (p: Option<int>)
      modifies this`pool, this`live
      ensures p.Some? <==> ok && old(pool) != []
      ensures p.Some? ==> p.value == old(pool)[0] && pool == old(pool)[1..] && live == old(live) + {p.value}
      ensures p.None? ==> pool == old(pool) && live == old(live)
    {
      if !ok || pool == [] {
        return None;
      }
      p := Some(pool[0]);
      pool := pool[1..];
      live := live + {p.value};
    }

    /** `free` of an element slot: it goes back to the front of the pool. */
    method Free(p: int)
      modifies this`pool, this`live
      ensures pool == [p] + old(pool) && live == old(live) - {p}
    {
      pool := [p] + pool;
      live := live - {p};
    }

    /** `q_release_element(e)`: frees the string of a detached element, then the element. */
    method ReleaseElement(p: int)
      requires Valid() && p in live && p != HEAD && p !in order
      modifies this`pool, this`live, this`value
      ensures Valid()
      ensures live == old(live) - {p} && pool == [p] + old(pool) && value == old(value)[p := null]
    {
      InvRelease(next, prev, pool, live, text, order, contents, p);
      OwnsRelease(value, live, text, Bufs, p);
      value := value[p := null];
      Free(p);
    }

    /**
     * One round of the `q_free` loop: `list_del` of the first element `it`
     * and `q_release_element(it)`. The `next` the deletion-safe iterator
     * saved beforehand is the new first element, or the sentinel.
     */
    method DeleteFirst(it: int)
      requires Valid() && order != [] && it == order[0]
      modifies this`next, this`prev, this`order, this`contents, this`pool, this`live, this`value
      ensures Valid()
      ensures order == old(order)[1..]
      ensures pool == [it] + old(pool) && live == old(live) - {it} && value == old(value)[it := null]
      ensures old(next[it]) == First(order) && 0 <= old(next[it]) < |next| == |old(next)|
    {
      NextAt(0);
      ListDel(it, 0);
      ReleaseElement(it);
      if order != [] {
        InArena(order[0]);
      }
    }

    /**
     * The element construction `q_insert_head` and `q_insert_tail` share:
     * `malloc` of an `element_t`, `malloc` of `strlen(s) + 1` characters and
     * `strncpy` of `s` into them. When the string's `malloc` fails, the
     * element is freed again and nothing has changed. The new element is
     * allocated and holds `s`, but is not listed yet.
     */
    method NewElement(s: string, nodeOk: bool, strOk: bool) returns (e: Option<int>)
      requires Valid() && NUL !in s
      modifies this`pool, this`live, this`text, this`Bufs, this`value
      ensures e.Some? <==> nodeOk && old(pool) != [] && strOk
      ensures e.None? ==> unchanged(this)
      ensures e.Some? ==>
        e.value == old(pool)[0] && 0 < e.value < |next| == |value| && e.value !in old(live) && e.value !in order &&
        pool == old(pool)[1..] && live == old(live) + {e.value} && text == old(text)[e.value := s] &&
        value == old(value)[e.value := value[e.value]] && Bufs == old(Bufs) + {value[e.value]} &&
        value[e.value] != null && fresh(value[e.value]) && value[e.value][..] == s + [NUL] &&
        Inv(next, prev, pool, live, text, order, contents) && Owns(value, live, text, Bufs)
    {
      if nodeOk && pool != [] {
        InvAlloc(next, prev, pool, live, text, order, contents, s);
      }
      e := Malloc(nodeOk);
      if e.None? {
        return;
      }
      var p := e.value;
      var str := NewString(s, strOk);
      if str == null {
        Free(p);
        assert pool == old(pool) && live == old(live);
        return None;
      }
      OwnsAdd(value, old(live), text, Bufs, p, str, s);
      value, Bufs, text := value[p := str], Bufs + {str}, text[p := s];
    }
  }

  /** `q_new`: a fresh empty queue, or NULL when `malloc` of the sentinel fails. */
  method QNew(size: nat, ok: bool) returns (q: Arena?)
    ensures q == null <==> !ok || size == 0
    ensures q != null ==> fresh(q) && q.Valid() && q.contents == [] && q.order == [] && q.live == {HEAD}
    ensures q != null ==> q.next[HEAD] == HEAD && q.prev[HEAD] == HEAD
    ensures q != null ==> |q.next| == size && q.pool == seq(size - 1, i => i + 1) && q.Bufs == {}
  {
    if !ok || size == 0 {
      return null;
    }
    q := new Arena(size);
    q.InitListHead(HEAD);
  }

  /**
   * `q_size`: walks `next` from the sentinel back round to it and counts the
   * nodes on the way; 0 for a NULL queue.
   */
  method QSize(q: Arena?) returns (len: int)
    requires q != null ==> q.Valid()
    ensures len == if q == null then 0 else |q.contents|
  {
    if q == null {
      return 0;
    }
    len := 0;
    var li := q.next[HEAD];
    while li != HEAD
      invariant 0 <= len <= |q.order|
      invariant li == if len < |q.order| then q.order[len] else HEAD
      decreases |q.order| - len
    {
      q.NextAt(len);
      len := len + 1;
      li := q.next[li];
    }
  }

  /**
   * `q_insert_head`: links a new element holding a copy of `s` right after
   * the sentinel. `nodeOk` / `strOk` say whether the `malloc` of the element
   * and of its string succeed; on a NULL queue or a failed `malloc` nothing
   * changes.
   */
  method QInsertHead(q: Arena?, s: string, nodeOk: bool, strOk: bool) returns (ok: bool)
    requires NUL !in s
    requires q != null ==> q.Valid()
    modifies q
    ensures q != null ==> q.Valid() && |q.next| == |old(q.next)|
    ensures ok <==> q != null && nodeOk && old(q.pool) != [] && strOk
    ensures !ok && q != null ==> unchanged(q)
    ensures ok ==>
      |q.order| == |old(q.order)| + 1 &&
      var e := q.order[0];
      q.order == [e] + old(q.order) && q.contents == [s] + old(q.contents) &&
      e !in old(q.live) && q.live == old(q.live) + {e} && q.pool == old(q.pool)[1..] &&
      fresh(q.value[e]) && q.value[e][..] == s + [NUL] && q.Bufs == old(q.Bufs) + {q.value[e]} &&
      q.text == old(q.text)[e := s] && q.value == old(q.value)[e := q.value[e]]
    ensures q != null ==> LinksKept(old(q.next), old(q.prev), q.next, q.prev, q.order)
  {
    if q == null {
      return false;
    }
    var element := q.NewElement(s, nodeOk, strOk);
    if element.None? {
      return false;
    }
    q.ListAdd(element.value);
    return true;
  }

  /**
   * `q_insert_tail`: as `q_insert_head`, but the new element is linked right
   * before the sentinel, at the end of the queue.
   */
  method QInsertTail(q: Arena?, s: string, nodeOk: bool, strOk: bool) returns (ok: bool)
    requires NUL !in s
    requires q != null ==> q.Valid()
    modifies q
    ensures q != null ==> q.Valid() && |q.next| == |old(q.next)|
    ensures ok <==> q != null && nodeOk && old(q.pool) != [] && strOk
    ensures !ok && q != null ==> unchanged(q)
    ensures ok ==>
      |q.order| == |old(q.order)| + 1 &&
      var e := q.order[|q.order| - 1];
      q.order == old(q.order) + [e] && q.contents == old(q.contents) + [s] &&
      e !in old(q.live) && q.live == old(q.live) + {e} && q.pool == old(q.pool)[1..] &&
      fresh(q.value[e]) && q.value[e][..] == s + [NUL] && q.Bufs == old(q.Bufs) + {q.value[e]} &&
      q.text == old(q.text)[e := s] && q.value == old(q.value)[e := q.value[e]]
    ensures q != null ==> LinksKept(old(q.next), old(q.prev), q.next, q.prev, q.order)
  {
    if q == null {
      return false;
    }
    var element := q.NewElement(s, nodeOk, strOk);
    if element.None? {
      return false;
    }
    q.ListAddTail(element.value);
    return true;
  }

  /**
   * `q_remove_head`: unlinks the first element and copies its string, cut
   * to `bufsize - 1` characters and NUL-terminated, into `sp`. The element
   * is returned still allocated, for its caller to release; NULL on a NULL
   * or empty queue, and then `sp` is not written.
   */
  method QRemoveHead(q: Arena?, sp: array<char>, bufsize: nat) returns (e: Option<int>)
    requires q != null ==> q.Valid() && sp !in q.Bufs
    requires 1 <= bufsize <= sp.Length
    modifies q, sp
    ensures q != null ==> q.Valid() && |q.next| == |old(q.next)|
    ensures e.None? <==> q == null || old(q.contents) == []
    ensures e.None? ==> sp[..] == old(sp[..]) && (q != null ==> unchanged(q))
    ensures e.Some? ==>
      |old(q.order)| > 0 && e.value == old(q.order)[0] &&
      q.order == old(q.order)[1..] && q.contents == old(q.contents)[1..] &&
      e.value in q.live && q.live == old(q.live) && q.pool == old(q.pool) && q.value == old(q.value) &&
      q.text == old(q.text) && q.Bufs == old(q.Bufs) &&
      q.value[e.value] != null && q.value[e.value][..] == old(q.contents)[0] + [NUL] &&
      sp[..bufsize] == Padded(old(q.contents)[0], bufsize - 1) + [NUL] &&
      sp[bufsize..] == old(sp[bufsize..])
    ensures q != null ==> LinksKept(old(q.next), old(q.prev), q.next, q.prev, old(q.order))
  {
    if q == null || q.ListEmpty() {
      return None;
    }
    var element := q.next[HEAD];
    ghost var v := q.contents[0];
    q.ListDel(element, 0);
    assert q.order == old(q.order)[1..];
    TextOfTerminated(v);
    CopyOut(sp, q.value[element][..], bufsize);
    return Some(element);
  }

  /**
   * `q_remove_tail`: as `q_remove_head`, for the last element, the one
   * right before the sentinel.
   */
  method QRemoveTail(q: Arena?, sp: array<char>, bufsize: nat) returns (e: Option<int>)
    requires q != null ==> q.Valid() && sp !in q.Bufs
    requires 1 <= bufsize <= sp.Length
    modifies q, sp
    ensures q != null ==> q.Valid() && |q.next| == |old(q.next)|
    ensures e.None? <==> q == null || old(q.contents) == []
    ensures e.None? ==> sp[..] == old(sp[..]) && (q != null ==> unchanged(q))
    ensures e.Some? ==>
      |old(q.order)| > 0 && e.value == old(q.order)[|old(q.order)| - 1] &&
      q.order == old(q.order)[..|old(q.order)| - 1] &&
      q.contents == old(q.contents)[..|old(q.contents)| - 1] &&
      e.value in q.live && q.live == old(q.live) && q.pool == old(q.pool) && q.value == old(q.value) &&
      q.text == old(q.text) && q.Bufs == old(q.Bufs) &&
      q.value[e.value] != null && q.value[e.value][..] == old(q.contents)[|old(q.contents)| - 1] + [NUL] &&
      sp[..bufsize] == Padded(old(q.contents)[|old(q.contents)| - 1], bufsize - 1) + [NUL] &&
      sp[bufsize..] == old(sp[bufsize..])
    ensures q != null ==> LinksKept(old(q.next), old(q.prev), q.next, q.prev, old(q.order))
  {
    if q == null || q.ListEmpty() {
      return None;
    }
    var element := q.prev[HEAD];
    ghost var last := |q.order| - 1;
    ghost var v := q.contents[last];
    q.ListDel(element, last);
    assert q.order == old(q.order)[..last];
    assert q.contents == old(q.contents)[..last];
    TextOfTerminated(v);
    CopyOut(sp, q.value[element][..], bufsize);
    return Some(element);
  }

  /**
   * The slow/fast walk of `q_delete_mid` on a queue of `n >= 3` elements:
   * `slow` moves one element and `fast` two per round, starting from the
   * first element, until `fast->next` or `fast->next->next` is the
   * sentinel. It stops at index `(n - 1) / 2`: the middle element when `n`
   * is odd, and the lower of the two middle elements when `n` is even.
   */
  method MidNode(q: Arena) returns (slow: int)
    requires q.Valid() && |q.order| >= 3
    ensures slow == q.order[(|q.order| - 1) / 2]
  {
    ghost var n := |q.order|;
    var fast := q.next[HEAD];
    slow := q.next[HEAD];
    q.NextAt(0);
    q.NextAt(1);
    slow := q.next[slow];
    fast := q.next[q.next[fast]];
    ghost var k := 1;
    q.NextAt(2);
    if 3 < n {
      q.NextAt(3);
    }
    while q.next[fast] != HEAD && q.next[q.next[fast]] != HEAD
      invariant 1 <= k && 2 * k < n && slow == q.order[k] && fast == q.order[2 * k]
      invariant q.next[fast] == SuccAt(q.order, 2 * k)
      invariant 2 * k + 1 < n ==> q.next[q.next[fast]] == SuccAt(q.order, 2 * k + 1)
      decreases n - 2 * k
    {
      q.NextAt(k);
      slow := q.next[slow];
      fast := q.next[q.next[fast]];
      k := k + 1;
      q.NextAt(2 * k);
      if 2 * k + 1 < n {
        q.NextAt(2 * k + 1);
      }
    }
  }

  /**
   * `q_delete_mid`: false on a NULL or empty queue; otherwise unlinks the
   * element the slow/fast walk stops at, index `(n - 1) / 2`, releases it
   * and its string, and returns true. On a queue of one or two elements the
   * walk stops at the sentinel, so those queues are excluded.
   */
  method QDeleteMid(q: Arena?) returns (ok: bool)
    requires q != null ==> q.Valid() && (|q.order| == 0 || |q.order| >= 3)
    modifies q
    ensures ok <==> q != null && old(q.order) != []
    ensures q != null ==> q.Valid() && q.text == old(q.text) && q.Bufs == old(q.Bufs)
    ensures q != null && !ok ==> unchanged(q)
    ensures ok ==>
      var m := (|old(q.order)| - 1) / 2;
      var mid := old(q.order)[m];
      q.order == old(q.order)[..m] + old(q.order)[m + 1..] &&
      q.contents == old(q.contents)[..m] + old(q.contents)[m + 1..] &&
      q.live == old(q.live) - {mid} && q.pool == [mid] + old(q.pool) && q.value == old(q.value)[mid := null]
    ensures q != null ==> LinksKept(old(q.next), old(q.prev), q.next, q.prev, old(q.order))
  {
    if q == null || q.ListEmpty() {
      return false;
    }
    var slow := MidNode(q);
    ghost var m := (|q.order| - 1) / 2;
    q.ListDel(slow, m);
    q.ReleaseElement(slow);
    return true;
  }

  /**
   * `q_reverse`: walks the queue with the deletion-safe iterator and moves
   * every element to the front in turn, which reverses the queue. On a NULL
   * or empty queue it does nothing. No element is allocated or released.
   */
  method QReverse(q: Arena?)
    requires q != null ==> q.Valid()
    modifies q
    ensures q != null ==>
      q.Valid() && q.order == Reverse(old(q.order)) && q.contents == Reverse(old(q.contents))
    ensures q != null ==> unchanged(q`pool, q`live, q`text, q`value, q`Bufs)
    ensures q != null && old(q.order) == [] ==> unchanged(q)
    ensures q != null ==> LinksKept(old(q.next), old(q.prev), q.next, q.prev, old(q.order))
  {
    if q == null || q.ListEmpty() {
      return;
    }
    ghost var o, c, live0, text0 := q.order, q.contents, q.live, q.text;
    ghost var n0, p0 := q.next, q.prev;
    // the elements visited so far, now in reverse, and those still to visit
    ghost var done, rest: seq<int> := [], o;
    assert HEAD !in o;
    var it := q.next[HEAD];
    var safe := q.next[it];
    while it != HEAD
      invariant q.Valid() && |q.next| == |n0|
      invariant q.order == done + rest && Reverse(rest) + done == Reverse(o)
      invariant it == First(rest) && 0 <= it < |q.next| && safe == q.next[it]
      invariant forall x :: x in done + rest ==> x in o
      invariant LinksKept(n0, p0, q.next, q.prev, o)
      modifies q`next, q`prev, q`order, q`contents
      decreases |rest|
    {
      ghost var n1, p1 := q.next, q.prev;
      ReverseStep(rest, done);
      q.MoveVisited(it, done, rest);
      LinksKeptTrans(n0, p0, n1, p1, q.next, q.prev, o, done + rest);
      done, rest := [it] + done, rest[1..];
      it := safe;
      safe := q.next[it];
    }
    assert q.order == Reverse(o);
    ListedReverse(o, live0, text0, c, q.contents);
  }

  /**
   * `q_free`: nothing on a NULL queue; otherwise walks the queue with the
   * deletion-safe iterator, unlinks and releases every element and its
   * string, each exactly once and in list order, and finally frees the
   * sentinel. Elements removed earlier and still held by their callers are
   * not touched.
   */
  method QFree(q: Arena?)
    requires q != null ==> q.Valid()
    modifies q
    ensures q != null ==>
      q.HeapOk() && q.order == [] && q.contents == [] &&
      q.pool == Reverse(old(q.order)) + old(q.pool) &&
      (forall p :: p in q.live <==> p in old(q.live) && p != HEAD && p !in old(q.order)) &&
      |q.value| == |old(q.value)| &&
      (forall p :: 0 <= p < |q.value| ==> q.value[p] == if p in old(q.order) then null else old(q.value)[p]) &&
      Owns(q.value, q.live, q.text, q.Bufs)
    ensures q != null ==> unchanged(q`text, q`Bufs)
  {
    if q == null {
      return;
    }
    ghost var o, live0, pool0, value0 := q.order, q.live, q.pool, q.value;
    // the elements released so far, the last one first, and those still to visit
    ghost var done, rest: seq<int> := [], o;
    var it := q.next[HEAD];
    var safe := q.next[it];
    while it != HEAD
      invariant q.Valid() && q.order == rest
      invariant q.pool == done + pool0 && Reverse(rest) + done == Reverse(o)
      invariant q.live == Without(live0, done) && q.value == SetAll(value0, done, null)
      invariant it == First(rest) && 0 <= it < |q.next| && safe == q.next[it]
      modifies q`next, q`prev, q`order, q`contents, q`pool, q`live, q`value
      decreases |rest|
    {
      ReverseStep(rest, done);
      ReleasedStep(live0, value0, pool0, done, it, null);
      q.DeleteFirst(it);
      done, rest := [it] + done, rest[1..];
      it := safe;
      safe := q.next[it];
    }
    assert rest == [] && done == Reverse(o);
    // free(l)
    OwnsSubset(q.value, q.live, q.live - {HEAD}, q.text, q.Bufs);
    q.live := q.live - {HEAD};
    forall p ensures p in q.live <==> p in live0 && p != HEAD && p !in o {
      ReverseIn(o, p);
      WithoutIn(live0, done, p);
    }
    forall p | 0 <= p < |q.value| ensures q.value[p] == if p in o then null else value0[p] {
      ReverseIn(o, p);
      SetAllAt(value0, done, null, p);
    }
  }
}
