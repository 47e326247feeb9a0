/** Filtering one value out of a list of integers (test.py, lines 43-47):
    a loop appends to a fresh list every element that differs from the
    value (21 in the script). */
module ListFilter {

  /** The elements of `a` other than `x`, in their order in `a`. */
  function Without(a: seq<int>, x: int): seq<int>
  {
    if a == [] then []
    else (if a[0] == x then [] else [a[0]]) + Without(a[1..], x)
  }

  /** `x` is gone, every other value keeps its number of occurrences, and
      the list is shorter by the number of copies of `x`. */
  lemma {:induction false} WithoutCounts(a: seq<int>, x: int)
    ensures x !in Without(a, x)
    ensures multiset(Without(a, x)) == multiset(a)[x := 0]
    ensures |Without(a, x)| == |a| - multiset(a)[x]
  {
    if a != [] {
      assert a == [a[0]] + a[1..];
      WithoutCounts(a[1..], x);
    }
  }

  /** Filtering distributes over concatenation. */
  lemma {:induction false} WithoutAppend(a: seq<int>, c: seq<int>, x: int)
    ensures Without(a + c, x) == Without(a, x) + Without(c, x)
  {
    if a == [] {
      assert a + c == c;
    } else {
      assert (a + c)[0] == a[0];
      assert (a + c)[1..] == a[1..] + c;
      WithoutAppend(a[1..], c, x);
    }
  }

  /** A list without `x` is left as it is. */
  lemma {:induction false} WithoutAbsent(a: seq<int>, x: int)
    requires x !in a
    ensures Without(a, x) == a
  {
    if a != [] {
      WithoutAbsent(a[1..], x);
    }
  }

  /** The result is the subsequence of `a` at exactly the positions that do
      not hold `x`: `idx` lists those positions in increasing order, and
      the result holds `a` at each of them. */
  lemma {:induction false} WithoutKeepsOrder(a: seq<int>, x: int) returns (idx: seq<nat>)
    ensures |idx| == |Without(a, x)|
    ensures forall i, j | 0 <= i < j < |idx| :: idx[i] < idx[j]
    ensures forall i | 0 <= i < |idx| :: idx[i] < |a| && Without(a, x)[i] == a[idx[i]]
    ensures forall p | 0 <= p < |a| :: a[p] != x <==> p in idx
  {
    if a == [] {
      idx := [];
    } else {
      var init, y := a[..|a| - 1], a[|a| - 1];
      assert a == init + [y];
      var idx' := WithoutKeepsOrder(init, x);
      WithoutAppend(init, [y], x);
      assert Without([y], x) == if y == x then [] else [y] by {
        assert [y][1..] == [];
      }
      var b, b' := Without(a, x), Without(init, x);
      if y == x {
        idx := idx';
        assert b == b';
      } else {
        idx := idx' + [|init|];
        assert b == b' + [y];
        forall i | 0 <= i < |idx|
          ensures idx[i] < |a| && b[i] == a[idx[i]]
        {
          if i < |idx'| {
            assert idx[i] == idx'[i] && b[i] == b'[i];
          }
        }
      }
      forall p | 0 <= p < |a|
        ensures a[p] != x <==> p in idx
      {
        if p < |init| {
          assert a[p] == init[p];
          assert p in idx <==> p in idx';
        }
      }
    }
  }

  /** The loop of lines 44-47, with the value to drop as a parameter. */
  method FilterOut(a: seq<int>, x: int) returns (b: seq<int>)
    ensures b == Without(a, x)
    ensures x !in b
    ensures multiset(b) == multiset(a)[x := 0]
    ensures |b| == |a| - multiset(a)[x]
  {
    b := [];
    for i := 0 to |a|
      invariant b == Without(a[..i], x)
    {
      assert a[..i + 1] == a[..i] + [a[i]];
      WithoutAppend(a[..i], [a[i]], x);
      if a[i] != x {
        b := b + [a[i]];
      }
    }
    assert a[..|a|] == a;
    WithoutCounts(a, x);
  }

  /** One step of the filter: the head is kept unless it is `x`. */
  lemma WithoutCons(h: int, t: seq<int>, x: int)
    ensures Without([h] + t, x) == (if h == x then [] else [h]) + Without(t, x)
  {
    assert ([h] + t)[1..] == t;
  }

  /** The list of line 43 loses both copies of 21. */
  lemma ScriptExample()
    ensures Without([12, 21, 38, 42, 56, 69, 16, 21], 21) == [12, 38, 42, 56, 69, 16]
  {
    WithoutCons(21, [], 21);
    WithoutCons(16, [21], 21);
    WithoutCons(69, [16, 21], 21);
    WithoutCons(56, [69, 16, 21], 21);
    WithoutCons(42, [56, 69, 16, 21], 21);
    WithoutCons(38, [42, 56, 69, 16, 21], 21);
    WithoutCons(21, [38, 42, 56, 69, 16, 21], 21);
    WithoutCons(12, [21, 38, 42, 56, 69, 16, 21], 21);
  }
}
