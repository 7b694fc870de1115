/**
 * Properties of queue.c that span several calls: a queue filled with
 * `q_insert_tail` and drained with `q_remove_head` gives its strings back in
 * insertion order (FIFO), filled with `q_insert_head` instead it gives them
 * back in reverse (LIFO), and `q_reverse` applied twice restores the queue.
 * The FIFO property also holds of a queue that `q_new` has just made.
 */
module QueueProperties {
  import opened CString
  import opened ListLinks
  import opened QueueState
  import opened Queue

  /** Strings a caller can pass as C strings and read back whole through a buffer of `bufsize` characters. */
  predicate Fits(xs: seq<string>, bufsize: nat)
  {
    forall i :: 0 <= i < |xs| ==> NUL !in xs[i] && |xs[i]| < bufsize
  }

  /**
   * What a caller reads back from the buffer `q_remove_head` or
   * `q_remove_tail` filled with the text `v`: `v` itself, when it fits in
   * `bufsize - 1` characters.
   */
  lemma ReadBack(sp: array<char>, bufsize: nat, v: string)
    requires 1 <= bufsize <= sp.Length && NUL !in v && |v| < bufsize
    requires sp[..bufsize] == Padded(v, bufsize - 1) + [NUL]
    ensures Terminated(sp[..bufsize]) && Text(sp[..bufsize]) == v
  {
    PaddedText(v, bufsize - 1);
  }

  /**
   * `q_size`, then `q_remove_head` as many times as it counted, each string
   * read back from `sp`: the strings come out first to last.
   */
  method DrainHead(q: Arena, sp: array<char>, bufsize: nat) returns (drained: seq<string>)
    requires q.Valid() && sp !in q.Bufs && 1 <= bufsize <= sp.Length && Fits(q.contents, bufsize)
    modifies q, sp
    ensures q.Valid() && q.contents == [] && drained == old(q.contents)
  {
    ghost var xs := q.contents;
    var n := QSize(q);
    drained := [];
    var i := 0;
    while i < n
      invariant n == |xs| && 0 <= i <= n && q.Valid() && sp !in q.Bufs
      invariant q.contents == xs[i..] && drained == xs[..i]
      decreases |xs| - i
    {
      var e := QRemoveHead(q, sp, bufsize);
      assert e.Some?;
      ReadBack(sp, bufsize, xs[i]);
      drained := drained + [Text(sp[..bufsize])];
      assert xs[i..][1..] == xs[i + 1..];
      i := i + 1;
    }
  }

  /**
   * `q_insert_tail` of every string of `xs`, in order, when every `malloc`
   * succeeds and the arena has room: the queue ends with `xs`.
   */
  method FillTail(q: Arena, xs: seq<string>)
    requires q.Valid() && |q.pool| >= |xs| && forall i :: 0 <= i < |xs| ==> NUL !in xs[i]
    modifies q
    ensures q.Valid() && q.contents == old(q.contents) + xs
    ensures forall b :: b in q.Bufs ==> b in old(q.Bufs) || fresh(b)
  {
    var i := 0;
    while i < |xs|
      invariant 0 <= i <= |xs| && q.Valid() && |q.pool| >= |xs| - i
      invariant q.contents == old(q.contents) + xs[..i]
      invariant forall b :: b in q.Bufs ==> b in old(q.Bufs) || fresh(b)
      decreases |xs| - i
    {
      var ok := QInsertTail(q, xs[i], true, true);
      assert xs[..i + 1] == xs[..i] + [xs[i]];
      i := i + 1;
    }
  }

  /**
   * `q_insert_head` of every string of `xs`, in order, when every `malloc`
   * succeeds and the arena has room: the queue starts with `xs` reversed.
   */
  method FillHead(q: Arena, xs: seq<string>)
    requires q.Valid() && |q.pool| >= |xs| && forall i :: 0 <= i < |xs| ==> NUL !in xs[i]
    modifies q
    ensures q.Valid() && q.contents == Reverse(xs) + old(q.contents)
    ensures forall b :: b in q.Bufs ==> b in old(q.Bufs) || fresh(b)
  {
    var i := 0;
    while i < |xs|
      invariant 0 <= i <= |xs| && q.Valid() && |q.pool| >= |xs| - i
      invariant q.contents == Reverse(xs[..i]) + old(q.contents)
      invariant forall b :: b in q.Bufs ==> b in old(q.Bufs) || fresh(b)
      decreases |xs| - i
    {
      var ok := QInsertHead(q, xs[i], true, true);
      ReverseStep(xs[..i + 1], []);
      assert xs[..i + 1][1..] == xs[1..i + 1];
      ReverseSnoc(xs[..i], xs[i]);
      assert xs[..i + 1] == xs[..i] + [xs[i]];
      i := i + 1;
    }
    assert xs[..|xs|] == xs;
  }

  /** Appending an element puts it at the front of the reversal. */
  lemma {:induction false} ReverseSnoc<T>(s: seq<T>, x: T)
    ensures Reverse(s + [x]) == [x] + Reverse(s)
  {
    if s == [] {
      assert Reverse([x]) == Reverse([x][1..]) + [x];
    } else {
      assert (s + [x])[1..] == s[1..] + [x];
      ReverseSnoc(s[1..], x);
    }
  }

  /**
   * FIFO: on an empty queue, `q_insert_tail` of every string of `xs` and
   * then `q_remove_head` until the queue is empty read the strings back in
   * insertion order.
   */
  method TailThenHead(q: Arena, xs: seq<string>, sp: array<char>, bufsize: nat) returns (drained: seq<string>)
    requires q.Valid() && q.contents == [] && |q.pool| >= |xs| && Fits(xs, bufsize)
    requires sp !in q.Bufs && 1 <= bufsize <= sp.Length
    modifies q, sp
    ensures q.Valid() && q.contents == [] && drained == xs
  {
    FillTail(q, xs);
    assert q.contents == xs;
    drained := DrainHead(q, sp, bufsize);
  }

  /**
   * LIFO: on an empty queue, `q_insert_head` of every string of `xs` and
   * then `q_remove_head` until the queue is empty read the strings back in
   * reverse insertion order.
   */
  method HeadThenHead(q: Arena, xs: seq<string>, sp: array<char>, bufsize: nat) returns (drained: seq<string>)
    requires q.Valid() && q.contents == [] && |q.pool| >= |xs| && Fits(xs, bufsize)
    requires sp !in q.Bufs && 1 <= bufsize <= sp.Length
    modifies q, sp
    ensures q.Valid() && q.contents == [] && drained == Reverse(xs)
  {
    FillHead(q, xs);
    assert q.contents == Reverse(xs);
    ReverseLength(xs);
    forall i | 0 <= i < |Reverse(xs)| ensures NUL !in Reverse(xs)[i] && |Reverse(xs)[i]| < bufsize {
      ReverseAt(xs, i);
    }
    drained := DrainHead(q, sp, bufsize);
  }

  /**
   * FIFO from `q_new` on: a queue made with room for `xs` (every `malloc`
   * succeeding), filled with `q_insert_tail` and drained with
   * `q_remove_head` into a caller buffer that existed before, reads the
   * strings back in insertion order.
   */
  method NewTailThenHead(size: nat, xs: seq<string>, sp: array<char>, bufsize: nat) returns (drained: seq<string>)
    requires |xs| < size && Fits(xs, bufsize) && 1 <= bufsize <= sp.Length
    modifies sp
    ensures drained == xs
  {
    var q := QNew(size, true);
    assert |q.pool| == size - 1;
    drained := TailThenHead(q, xs, sp, bufsize);
  }

  /** `q_reverse` twice gives back the queue's elements, and their strings, in their original order. */
  method ReverseTwice(q: Arena?)
    requires q != null ==> q.Valid()
    modifies q
    ensures q != null ==> q.Valid() && q.order == old(q.order) && q.contents == old(q.contents)
    ensures q != null ==> unchanged(q`pool, q`live, q`text, q`value, q`Bufs)
  {
    QReverse(q);
    QReverse(q);
    if q != null {
      ReverseReverse(old(q.order));
      ReverseReverse(old(q.contents));
    }
  }
}
