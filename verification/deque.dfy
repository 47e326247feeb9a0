/** `collections.deque` with a `maxlen`, as far as the tail reader uses it:
    a window that keeps the most recent elements appended to it. */
module Deque {

  function Min(a: nat, b: nat): nat
  {
    if a <= b then a else b
  }

  /** The last `k` elements of `s`, or all of `s` when it is shorter. */
  function Last<T>(s: seq<T>, k: nat): seq<T>
  {
    s[|s| - Min(|s|, k)..]
  }

  /** `Last` keeps at most `k` elements, the newest ones, in their order,
      and everything when there are no more than `k`. */
  lemma LastSpec<T>(s: seq<T>, k: nat)
    ensures |Last(s, k)| <= k
    ensures |Last(s, k)| == if |s| <= k then |s| else k
    ensures Last(s, k) == s[|s| - |Last(s, k)|..]
    ensures |s| <= k ==> Last(s, k) == s
  {
  }

  /** Keeping the last `k` after each new element is keeping the last `k`
      of everything: the window law that makes a bounded deque enough. */
  lemma LastAppend<T>(s: seq<T>, x: T, k: nat)
    ensures Last(Last(s, k) + [x], k) == Last(s + [x], k)
  {
    var w := Last(s, k);
    var n := Min(|s| + 1, k);
    assert |Last(w + [x], k)| == n;
    forall i | 0 <= i < n
      ensures Last(w + [x], k)[i] == Last(s + [x], k)[i]
    {
      if i < n - 1 {
        assert Last(w + [x], k)[i] == w[|w| + 1 - n + i];
      }
    }
  }

  /** `LastAppend` on consecutive prefixes of `s`. */
  lemma LastPrefixStep<T>(s: seq<T>, i: nat, k: nat)
    requires i < |s|
    ensures Last(s[..i + 1], k) == Last(Last(s[..i], k) + [s[i]], k)
  {
    assert s[..i + 1] == s[..i] + [s[i]];
    LastAppend(s[..i], s[i], k);
  }

  /** Appending to a window of at most `k` elements, and dropping the
      oldest when it overflows, keeps the last `k`. */
  lemma WindowStep<T>(w: seq<T>, x: T, k: nat)
    requires |w| <= k
    ensures Last(w + [x], k) == if |w| < k then w + [x] else (w + [x])[1..]
  {
  }

  /** One step of the tail loop: a window holding the last `k` of the
      first `i` elements, after the deque's append, holds the last `k` of
      the first `i + 1`. */
  lemma TailStep<T>(s: seq<T>, i: nat, k: nat)
    requires i < |s|
    ensures var w := Last(s[..i], k);
      |w| <= k &&
      Last(s[..i + 1], k) == if |w| < k then w + [s[i]] else (w + [s[i]])[1..]
  {
    LastPrefixStep(s, i, k);
    WindowStep(Last(s[..i], k), s[i], k);
  }

  /** `collections.deque` with a `maxlen`: appending to a full deque drops
      the element at the left end. */
  class BoundedDeque<T> {
    var items: seq<T>
    const maxlen: nat

    ghost predicate Valid()
      reads this
    {
      |items| <= maxlen
    }

    constructor (maxlen: nat)
      ensures Valid()
      ensures this.maxlen == maxlen && items == []
    {
      this.maxlen := maxlen;
      items := [];
    }

    /** `append`: add on the right, then trim one from the left if the deque
        has grown past `maxlen`. */
    method Append(x: T)
      requires Valid()
      modifies this
      ensures Valid()
      ensures items == if |old(items)| < maxlen then old(items) + [x] else (old(items) + [x])[1..]
    {
      items := items + [x];
      if |items| > maxlen {
        items := items[1..];
      }
    }
  }

  /** `deque(lines, maxlen=k)`: every line is appended in turn; the deque
      ends with the last `k` lines, oldest first. */
  method Tail<T>(lines: seq<T>, k: nat) returns (window: seq<T>)
    ensures window == Last(lines, k)
  {
    var dq := new BoundedDeque<T>(k);
    for i := 0 to |lines|
      invariant dq.maxlen == k && |dq.items| <= k
      invariant dq.items == Last(lines[..i], k)
      modifies dq
    {
      TailStep(lines, i, k);
      dq.Append(lines[i]);
    }
    assert lines[..|lines|] == lines;
    window := dq.items;
  }
}
