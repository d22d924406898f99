/** A field's buffer: `deque(maxlen=_MAX_ITEMS)`, held as the sequence of its
    elements from oldest to newest. */
module BoundedDeque {
  import opened Basics

  /** `_MAX_ITEMS`, the capacity of every field buffer. */
  const MaxItems: nat := 200

  /** `append` on a deque with `maxlen == MaxItems`: when the deque is full the
      oldest element is dropped; the new element always becomes the newest. */
  function Push<T>(buf: seq<T>, x: T): (b: seq<T>)
    ensures |b| > 0 && b[|b| - 1] == x
    ensures |buf| <= MaxItems ==> |b| == Min(|buf| + 1, MaxItems)
  {
    if |buf| < MaxItems then buf + [x] else buf[1..] + [x]
  }

  /** Appending to a full buffer drops its oldest element. */
  lemma PushFull<T>(buf: seq<T>, x: T)
    requires |buf| == MaxItems
    ensures Push(buf, x) == buf[1..] + [x]
  {
  }

  /** After an append a bounded buffer holds the newest `MaxItems` elements. */
  lemma PushWindow<T>(buf: seq<T>, x: T)
    requires |buf| <= MaxItems
    ensures Push(buf, x) == LastN(buf + [x], MaxItems)
  {
    LastNSuffix(buf + [x], MaxItems);
    if |buf| == MaxItems {
      assert buf[1..] + [x] == (buf + [x])[1..];
    }
  }

  /** The buffer after appending each of `xs` in turn. */
  function PushAll<T>(buf: seq<T>, xs: seq<T>): seq<T>
  {
    if xs == [] then buf else Push(PushAll(buf, xs[..|xs| - 1]), xs[|xs| - 1])
  }

  lemma LastNOfWindow<T>(s: seq<T>, x: T)
    ensures LastN(LastN(s, MaxItems) + [x], MaxItems) == LastN(s + [x], MaxItems)
  {
    var w := LastN(s, MaxItems);
    LastNSuffix(s, MaxItems);
    LastNSuffix(w + [x], MaxItems);
    LastNSuffix(s + [x], MaxItems);
    if |s| >= MaxItems {
      assert w + [x] == (s + [x])[|s| - MaxItems..];
      assert (w + [x])[1..] == (s + [x])[|s| + 1 - MaxItems..];
    }
  }

  /** A bounded buffer always holds exactly the newest `MaxItems` elements of
      everything appended to it, in arrival order. */
  lemma {:induction false} PushAllWindow<T>(buf: seq<T>, xs: seq<T>)
    requires |buf| <= MaxItems
    ensures PushAll(buf, xs) == LastN(buf + xs, MaxItems)
  {
    if xs == [] {
      assert buf + xs == buf;
    } else {
      var init, x := xs[..|xs| - 1], xs[|xs| - 1];
      PushAllWindow(buf, init);
      var w := PushAll(buf, init);
      LastNSuffix(buf + init, MaxItems);
      assert |w| <= MaxItems;
      PushWindow(w, x);
      LastNOfWindow(buf + init, x);
      assert buf + init + [x] == buf + xs;
    }
  }

  /** After `MaxItems + 1` appends to an empty buffer it holds exactly
      `MaxItems` elements: the first one appended is gone and the rest remain, in order. */
  lemma OverflowEvictsFirst<T>(xs: seq<T>)
    requires |xs| == MaxItems + 1
    ensures |PushAll([], xs)| == MaxItems
    ensures PushAll([], xs) == xs[1..]
    ensures PushAll([], xs)[MaxItems - 1] == xs[MaxItems]
  {
    var b := PushAll([], xs);
    PushAllWindow([], xs);
    assert [] + xs == xs;
    LastNSuffix(xs, MaxItems);
    assert Min(MaxItems, |xs|) == MaxItems;
    assert b == xs[1..];
  }
}
