/**
 * The invariant of a queue held in an arena, stated over plain values: the
 * `next` / `prev` tables, the allocator's pool of free element slots, the
 * set of allocated slots, the string each allocated element holds, and the
 * queue's elements and strings in list order. Each list operation of
 * queue.c comes with a lemma saying how it carries the invariant over.
 */
module QueueState {
  import opened CString
  import opened ListLinks

  /**
   * The slots `malloc` can hand out are distinct element slots that are not
   * allocated, and every allocated slot lies inside the arena.
   */
  ghost predicate Allocator(size: int, pool: seq<int>, live: set<int>)
  {
    Distinct(pool) &&
    (forall i :: 0 <= i < |pool| ==> 0 < pool[i] < size && pool[i] !in live) &&
    (forall p :: p in live ==> 0 <= p < size)
  }

  /** The listed elements are allocated and `contents` holds their strings, in list order. */
  ghost predicate Listed(order: seq<int>, live: set<int>, text: map<int, string>, contents: seq<string>)
  {
    |contents| == |order| &&
    forall i {:trigger At(order, i)} :: 0 <= i < |order| ==>
      At(order, i) in live && At(order, i) in text && contents[i] == text[At(order, i)]
  }

  /**
   * `p in live` under a name of its own: the ownership quantifier below is
   * triggered by it, so it is only instantiated where a proof names it.
   */
  predicate IsLive(live: set<int>, p: int)
  {
    p in live
  }

  /**
   * The queue invariant without the string buffers: the sentinel is
   * allocated and the list is a circular doubly-linked cycle through it over
   * allocated elements, listed in `order`, whose strings `contents` lists.
   */
  ghost predicate Inv(next: seq<int>, prev: seq<int>, pool: seq<int>, live: set<int>,
                      text: map<int, string>, order: seq<int>, contents: seq<string>)
  {
    |next| == |prev| > 0 && Allocator(|next|, pool, live) && HEAD in live &&
    Linked(next, prev, order) && Listed(order, live, text, contents)
  }

  /**
   * Every allocated element slot points at a character buffer of its own
   * kind, which holds the element's text followed by a NUL and nothing more
   * (it was allocated with `strlen(s) + 1` characters).
   */
  ghost predicate Owns(value: seq<array?<char>>, live: set<int>, text: map<int, string>, bufs: set<array<char>>)
    reads bufs
  {
    forall p {:trigger IsLive(live, p)} :: IsLive(live, p) && p != HEAD ==>
      0 <= p < |value| && p in text && NUL !in text[p] &&
      value[p] != null && value[p] in bufs && value[p][..] == text[p] + [NUL]
  }

  /** What `Owns` says about one allocated element. */
  lemma OwnsAt(value: seq<array?<char>>, live: set<int>, text: map<int, string>, bufs: set<array<char>>, p: int)
    requires Owns(value, live, text, bufs) && p in live && p != HEAD
    ensures 0 <= p < |value| && p in text && NUL !in text[p]
    ensures value[p] != null && value[p] in bufs && value[p][..] == text[p] + [NUL]
  {
    assert IsLive(live, p);
  }

  /** What `Listed` says about the element at index `i`. */
  lemma ListedAt(order: seq<int>, live: set<int>, text: map<int, string>, contents: seq<string>, i: int)
    requires Listed(order, live, text, contents) && 0 <= i < |order|
    ensures order[i] in live && order[i] in text && contents[i] == text[order[i]]
  {
    assert At(order, i) == order[i];
  }

  /**
   * `malloc` of an element takes the first free slot, which is a fresh
   * element slot; giving it the string `s` keeps the invariant.
   */
  lemma InvAlloc(next: seq<int>, prev: seq<int>, pool: seq<int>, live: set<int>,
                 text: map<int, string>, order: seq<int>, contents: seq<string>, s: string)
    requires Inv(next, prev, pool, live, text, order, contents) && pool != []
    ensures 0 < pool[0] < |next| && pool[0] !in live && pool[0] !in order
    ensures Inv(next, prev, pool[1..], live + {pool[0]}, text[pool[0] := s], order, contents)
  {
    var p := pool[0];
    forall i | 0 <= i < |order| ensures order[i] != p {
      ListedAt(order, live, text, contents, i);
    }
    forall i | 0 <= i < |order| ensures At(order, i) in live + {p} && At(order, i) in text[p := s] &&
        contents[i] == text[p := s][At(order, i)] {
      ListedAt(order, live, text, contents, i);
    }
    forall i | 0 <= i < |pool| - 1 ensures pool[1..][i] != p {
      assert pool[1..][i] == pool[i + 1] && At(pool, 0) != At(pool, i + 1);
    }
    forall i, j | 0 <= i < j < |pool| - 1 ensures At(pool[1..], i) != At(pool[1..], j) {
      assert pool[1..][i] == pool[i + 1] && pool[1..][j] == pool[j + 1];
      assert At(pool, i + 1) != At(pool, j + 1);
    }
  }

  /** `free` of an element slot that is not listed puts it back at the front of the pool. */
  lemma InvRelease(next: seq<int>, prev: seq<int>, pool: seq<int>, live: set<int>,
                   text: map<int, string>, order: seq<int>, contents: seq<string>, p: int)
    requires Inv(next, prev, pool, live, text, order, contents)
    requires p in live && p != HEAD && p !in order
    ensures Inv(next, prev, [p] + pool, live - {p}, text, order, contents)
  {
    var pool' := [p] + pool;
    forall i | 0 <= i < |pool'| ensures 0 < pool'[i] < |next| && pool'[i] !in live - {p} {
      if i > 0 { assert pool'[i] == pool[i - 1]; }
    }
    forall i, j | 0 <= i < j < |pool'| ensures At(pool', i) != At(pool', j) {
      assert pool'[j] == pool[j - 1];
      if i > 0 { assert pool'[i] == pool[i - 1] && At(pool, i - 1) != At(pool, j - 1); }
    }
    forall i | 0 <= i < |order| ensures At(order, i) in live - {p} {
      ListedAt(order, live, text, contents, i);
    }
  }

  /** `list_add(e, head)` of an allocated, unlisted element holding `s` makes it the first of the queue. */
  lemma InvPushFront(next: seq<int>, prev: seq<int>, pool: seq<int>, live: set<int>,
                     text: map<int, string>, order: seq<int>, contents: seq<string>, e: int, s: string)
    requires Inv(next, prev, pool, live, text, order, contents)
    requires 0 < e < |next| && e in live && e !in order && e in text && text[e] == s
    ensures
      var b := next[HEAD];
      var next', prev' := next[e := b][HEAD := e], prev[b := e][e := HEAD];
      Inv(next', prev', pool, live, text, [e] + order, [s] + contents) &&
      LinksKept(next, prev, next', prev', [e] + order)
  {
    LinkedPushFront(next, prev, order, e);
    var o', c' := [e] + order, [s] + contents;
    forall i | 0 <= i < |o'| ensures At(o', i) in live && At(o', i) in text && c'[i] == text[At(o', i)] {
      if i > 0 {
        assert o'[i] == order[i - 1] && c'[i] == contents[i - 1];
        ListedAt(order, live, text, contents, i - 1);
      }
    }
  }

  /** `list_add_tail(e, head)` of an allocated, unlisted element holding `s` makes it the last of the queue. */
  lemma InvPushBack(next: seq<int>, prev: seq<int>, pool: seq<int>, live: set<int>,
                    text: map<int, string>, order: seq<int>, contents: seq<string>, e: int, s: string)
    requires Inv(next, prev, pool, live, text, order, contents)
    requires 0 < e < |next| && e in live && e !in order && e in text && text[e] == s
    ensures
      var a := prev[HEAD];
      var next', prev' := next[a := e][e := HEAD], prev[e := a][HEAD := e];
      Inv(next', prev', pool, live, text, order + [e], contents + [s]) &&
      LinksKept(next, prev, next', prev', order + [e])
  {
    LinkedPushBack(next, prev, order, e);
    var o', c' := order + [e], contents + [s];
    forall i | 0 <= i < |o'| ensures At(o', i) in live && At(o', i) in text && c'[i] == text[At(o', i)] {
      if i < |order| {
        assert o'[i] == order[i] && c'[i] == contents[i];
        ListedAt(order, live, text, contents, i);
      }
    }
  }

  /**
   * `list_del` of the element at index `j`: its links are read off the
   * invariant, and unlinking it leaves the queue without that element and
   * its string, and the element no longer listed.
   */
  lemma InvDelete(next: seq<int>, prev: seq<int>, pool: seq<int>, live: set<int>,
                  text: map<int, string>, order: seq<int>, contents: seq<string>, j: int)
    requires Inv(next, prev, pool, live, text, order, contents) && 0 <= j < |order|
    ensures next[order[j]] == SuccAt(order, j) && prev[order[j]] == PredAt(order, j)
    ensures order[j] in live && order[j] in text && contents[j] == text[order[j]] && order[j] != HEAD
    ensures order[j] !in order[..j] + order[j + 1..]
    ensures
      var a, b := PredAt(order, j), SuccAt(order, j);
      var next', prev' := next[a := b], prev[b := a];
      Inv(next', prev', pool, live, text, order[..j] + order[j + 1..], contents[..j] + contents[j + 1..]) &&
      LinksKept(next, prev, next', prev', order)
  {
    LinkedDelete(next, prev, order, j);
    var o', c' := order[..j] + order[j + 1..], contents[..j] + contents[j + 1..];
    RemoveAt(order, j);
    RemoveAt(contents, j);
    ListedAt(order, live, text, contents, j);
    forall i | 0 <= i < |o'| ensures At(o', i) in live && At(o', i) in text && c'[i] == text[At(o', i)] {
      if i < j {
        assert o'[i] == order[i] && c'[i] == contents[i];
        ListedAt(order, live, text, contents, i);
      } else {
        assert o'[i] == order[i + 1] && c'[i] == contents[i + 1];
        ListedAt(order, live, text, contents, i + 1);
      }
    }
    forall i | 0 <= i < |o'| ensures o'[i] != order[j] {
      if i < j {
        assert o'[i] == order[i] && At(order, i) != At(order, j);
      } else {
        assert o'[i] == order[i + 1] && At(order, j) != At(order, i + 1);
      }
    }
  }

  /**
   * Two relinkings in a row, the second touching only slots the first was
   * allowed to touch, together keep the links of every other slot.
   */
  lemma LinksKeptTrans(n0: seq<int>, p0: seq<int>, n1: seq<int>, p1: seq<int>, n2: seq<int>, p2: seq<int>,
                       o: seq<int>, o1: seq<int>)
    requires |n0| == |p0| == |n1| == |p1| == |n2| == |p2|
    requires LinksKept(n0, p0, n1, p1, o) && LinksKept(n1, p1, n2, p2, o1)
    requires forall x :: x in o1 ==> x in o
    ensures LinksKept(n0, p0, n2, p2, o)
  {
  }

  /** Giving a freshly allocated element a buffer holding `s` and a NUL keeps every element owning its string. */
  lemma OwnsAdd(value: seq<array?<char>>, live: set<int>, text: map<int, string>, bufs: set<array<char>>,
                p: int, str: array<char>, s: string)
    requires Owns(value, live, text, bufs) && p !in live && 0 < p < |value|
    requires NUL !in s && str[..] == s + [NUL]
    ensures Owns(value[p := str], live + {p}, text[p := s], bufs + {str})
  {
    forall x | IsLive(live + {p}, x) && x != HEAD
      ensures 0 <= x < |value[p := str]| && x in text[p := s] && NUL !in text[p := s][x] &&
        value[p := str][x] != null && value[p := str][x] in bufs + {str} &&
        value[p := str][x][..] == text[p := s][x] + [NUL]
    {
      if x != p {
        OwnsAt(value, live, text, bufs, x);
      }
    }
  }

  /** Freeing an element's string together with the element keeps the others owning theirs. */
  lemma OwnsRelease(value: seq<array?<char>>, live: set<int>, text: map<int, string>, bufs: set<array<char>>,
                    p: int)
    requires Owns(value, live, text, bufs) && 0 <= p < |value|
    ensures Owns(value[p := null], live - {p}, text, bufs)
  {
    forall x | IsLive(live - {p}, x) && x != HEAD
      ensures 0 <= x < |value[p := null]| && x in text && NUL !in text[x] &&
        value[p := null][x] != null && value[p := null][x] in bufs && value[p := null][x][..] == text[x] + [NUL]
    {
      OwnsAt(value, live, text, bufs, x);
    }
  }

  /** Fewer allocated elements own their strings all the same. */
  lemma OwnsSubset(value: seq<array?<char>>, live: set<int>, live': set<int>, text: map<int, string>,
                   bufs: set<array<char>>)
    requires Owns(value, live, text, bufs) && live' <= live
    ensures Owns(value, live', text, bufs)
  {
    forall x | IsLive(live', x) && x != HEAD
      ensures 0 <= x < |value| && x in text && NUL !in text[x] &&
        value[x] != null && value[x] in bufs && value[x][..] == text[x] + [NUL]
    {
      OwnsAt(value, live, text, bufs, x);
    }
  }
}
