/** Frequency counting and mode selection over a list (test.py, lines 14-29).

    A Python dict remembers the order in which its keys were first inserted,
    and both `max(freq, key=freq.get)` and the comprehension that collects the
    modes walk the dict in that order. The dict is therefore modelled as a
    `FreqTable`: its keys in insertion order plus the map from key to count. */
module Frequency {
  import opened Wrappers

  /** Index of the first occurrence of `x` in `s`. */
  function FirstIndex<T(==)>(s: seq<T>, x: T): (i: nat)
    requires x in s
    ensures i < |s| && s[i] == x && x !in s[..i]
  {
    if s[0] == x then 0
    else
      var j := FirstIndex(s[1..], x);
      assert s[..j + 1] == [s[0]] + s[1..][..j];
      j + 1
  }

  /** `s` holds no element twice. */
  ghost predicate NoDuplicates<T>(s: seq<T>)
  {
    forall i, j | 0 <= i < j < |s| :: s[i] != s[j]
  }

  /** Every element of `r` occurs in `s`, and the elements of `r` are listed
      in the order of their first occurrence in `s` (so none is repeated). */
  ghost predicate OrderedBy<T>(r: seq<T>, s: seq<T>)
  {
    && (forall i | 0 <= i < |r| :: r[i] in s)
    && (forall i, j | 0 <= i < j < |r| ::
          r[i] in s && r[j] in s && FirstIndex(s, r[i]) < FirstIndex(s, r[j]))
  }

  /** The first occurrence of `x` is the only index before which `x` does not occur. */
  lemma FirstIndexUnique<T>(s: seq<T>, x: T, i: nat)
    requires i < |s| && s[i] == x && x !in s[..i]
    ensures FirstIndex(s, x) == i
  {
    var f := FirstIndex(s, x);
    assert forall p | 0 <= p < i :: s[..i][p] == s[p];
    assert forall p | 0 <= p < f :: s[..f][p] == s[p];
  }

  /** Appending to `s` keeps the first occurrences of what `s` already holds,
      and a new element takes the last place. */
  lemma OrderedBySnoc<T>(r: seq<T>, s: seq<T>, x: T)
    requires OrderedBy(r, s)
    ensures OrderedBy(r, s + [x])
    ensures x !in s ==> OrderedBy(r + [x], s + [x])
  {
    forall y | y in s
      ensures FirstIndex(s + [x], y) == FirstIndex(s, y)
    {
      var f := FirstIndex(s, y);
      assert (s + [x])[..f] == s[..f];
      FirstIndexUnique(s + [x], y, f);
    }
    if x !in s {
      assert (s + [x])[..|s|] == s;
      FirstIndexUnique(s + [x], x, |s|);
      var r' := r + [x];
      forall i, j | 0 <= i < j < |r'|
        ensures r'[i] in s + [x] && r'[j] in s + [x]
        ensures FirstIndex(s + [x], r'[i]) < FirstIndex(s + [x], r'[j])
      {
        if j < |r| {
          assert r'[i] == r[i] && r'[j] == r[j];
        } else {
          assert r'[i] == r[i] && r[i] in s;
        }
      }
    }
  }

  /** An order on a sub-list that follows an order on `s`, which in turn
      follows the first occurrences in `t`, follows `t`. */
  lemma OrderedByTrans<T>(r: seq<T>, s: seq<T>, t: seq<T>)
    requires OrderedBy(r, s) && OrderedBy(s, t)
    ensures OrderedBy(r, t)
  {
    forall i | 0 <= i < |r|
      ensures r[i] in t
    {
      var p := FirstIndex(s, r[i]);
      assert s[p] in t;
    }
    forall i, j | 0 <= i < j < |r|
      ensures FirstIndex(t, r[i]) < FirstIndex(t, r[j])
    {
      var p, q := FirstIndex(s, r[i]), FirstIndex(s, r[j]);
      assert s[p] == r[i] && s[q] == r[j];
    }
  }

  /** The distinct elements of `s`: a pass from left to right that keeps an
      element when it has not been met before. */
  function Distinct<T(==)>(s: seq<T>): seq<T>
  {
    if s == [] then []
    else
      var init, x := s[..|s| - 1], s[|s| - 1];
      if x in init then Distinct(init) else Distinct(init) + [x]
  }

  /** `Distinct(s)` holds exactly the elements of `s`, each once, in the
      order of their first occurrence in `s`. */
  lemma {:induction false} DistinctSpec<T>(s: seq<T>)
    ensures forall k | k in Distinct(s) :: k in s
    ensures forall k | k in s :: k in Distinct(s)
    ensures OrderedBy(Distinct(s), s)
  {
    if s != [] {
      var init, x := s[..|s| - 1], s[|s| - 1];
      assert s == init + [x];
      DistinctSpec(init);
      OrderedBySnoc(Distinct(init), init, x);
    }
  }

  /** Appending an element adds it at the end of the distinct elements
      unless it was already there. */
  lemma DistinctSnoc<T>(s: seq<T>, x: T)
    ensures Distinct(s + [x]) == if x in s then Distinct(s) else Distinct(s) + [x]
  {
    assert (s + [x])[..|s|] == s;
  }

  /** A Python dict from element to count: `keys` in insertion order, `count`
      the value stored for each key. */
  datatype FreqTable<T> = FreqTable(keys: seq<T>, count: map<T, nat>)
  {
    ghost predicate Valid()
    {
      && NoDuplicates(keys)
      && (forall k | k in count :: k in keys)
      && (forall k | k in keys :: k in count)
    }
  }

  /** Each element of `lst` mapped to its number of occurrences, counted in
      one pass from left to right. */
  function Counts<T(==)>(lst: seq<T>): map<T, nat>
  {
    if lst == [] then map[]
    else
      var c, x := Counts(lst[..|lst| - 1]), lst[|lst| - 1];
      c[x := if x in c then c[x] + 1 else 1]
  }

  /** The keys of `Counts(lst)` are the elements of `lst`, and each is mapped
      to its number of occurrences. */
  lemma {:induction false} CountsSpec<T>(lst: seq<T>)
    ensures forall k | k in Counts(lst) :: k in lst
    ensures forall k | k in lst :: k in Counts(lst)
    ensures forall k | k in Counts(lst) :: Counts(lst)[k] == multiset(lst)[k]
  {
    if lst != [] {
      var init, x := lst[..|lst| - 1], lst[|lst| - 1];
      assert lst == init + [x];
      CountsSpec(init);
      assert multiset(lst) == multiset(init) + multiset{x};
    }
  }

  /** What `dict(Counter(lst))` holds: the distinct elements of `lst` with
      their numbers of occurrences. */
  function Counter<T(==)>(lst: seq<T>): FreqTable<T>
  {
    FreqTable(Distinct(lst), Counts(lst))
  }

  /** `Counter(lst)` is a well-formed dict whose keys are exactly the
      elements of `lst` in the order of first occurrence, each mapped to its
      number of occurrences. */
  lemma CounterSpec<T>(lst: seq<T>)
    ensures Counter(lst).Valid()
    ensures OrderedBy(Counter(lst).keys, lst)
    ensures forall k :: k in Counter(lst).count <==> k in lst
    ensures forall k | k in Counter(lst).count :: Counter(lst).count[k] == multiset(lst)[k]
  {
    DistinctSpec(lst);
    CountsSpec(lst);
    forall k | k in Counts(lst)
      ensures k in Distinct(lst)
    {
      assert k in lst;
    }
  }

  /** One more element raises its own count by one, or inserts it with
      count 1, and leaves every other count alone. */
  lemma CountsSnoc<T>(lst: seq<T>, x: T)
    ensures Counts(lst + [x]) ==
      Counts(lst)[x := if x in Counts(lst) then Counts(lst)[x] + 1 else 1]
  {
    assert (lst + [x])[..|lst|] == lst;
  }

  /** The reference tally after one more element is what one pass of the
      counting loop makes of the tally before it. */
  lemma CounterSnoc<T>(lst: seq<T>, x: T)
    ensures Counter(lst + [x]) ==
      var t := Counter(lst);
      if x in t.count then FreqTable(t.keys, t.count[x := t.count[x] + 1])
      else FreqTable(t.keys + [x], t.count[x := 1])
  {
    CountsSnoc(lst, x);
    DistinctSnoc(lst, x);
    CountsSpec(lst);
  }

  /** The counting loop: a key seen before has its count raised by one, a
      new key is inserted with count 1. */
  method CountFreq<T(==)>(lst: seq<T>) returns (freq: FreqTable<T>)
    ensures freq == Counter(lst)
    ensures freq.Valid()
    ensures forall k :: k in freq.count <==> k in lst
    ensures forall k | k in freq.count :: freq.count[k] == multiset(lst)[k]
    ensures OrderedBy(freq.keys, lst)
  {
    freq := FreqTable([], map[]);
    for n := 0 to |lst|
      invariant freq == Counter(lst[..n])
    {
      var i := lst[n];
      assert lst[..n + 1] == lst[..n] + [i];
      CounterSnoc(lst[..n], i);
      if i in freq.count {
        freq := freq.(count := freq.count[i := freq.count[i] + 1]);
      } else {
        freq := FreqTable(freq.keys + [i], freq.count[i := 1]);
      }
    }
    assert lst[..|lst|] == lst;
    CounterSpec(lst);
  }

  /** The largest count among `keys`. */
  function MaxCount<T(==)>(keys: seq<T>, count: map<T, nat>): (m: nat)
    requires keys != []
    requires forall k | k in keys :: k in count
    ensures forall k | k in keys :: count[k] <= m
    ensures exists k | k in keys :: count[k] == m
  {
    var last := keys[|keys| - 1];
    if |keys| == 1 then count[last]
    else
      var init := keys[..|keys| - 1];
      assert keys == init + [last];
      var m := MaxCount(init, count);
      if count[last] > m then count[last] else m
  }

  /** `max(freq.values())`; `None` where Python raises ValueError on an empty dict. */
  function MaxFreq<T(==)>(t: FreqTable<T>): (r: Option<nat>)
    requires t.Valid()
    ensures r.None? <==> t.keys == []
    ensures r.Some? ==> forall k | k in t.count :: t.count[k] <= r.value
    ensures r.Some? ==> exists k | k in t.count :: t.count[k] == r.value
  {
    if t.keys == [] then None else Some(MaxCount(t.keys, t.count))
  }

  /** The index that `max(keys, key=count.get)` settles on: a left-to-right
      scan that replaces its candidate only by a strictly larger count, so
      the first key with the largest count wins. */
  function ArgMaxIndex<T(==)>(keys: seq<T>, count: map<T, nat>): (i: nat)
    requires keys != []
    requires forall k | k in keys :: k in count
    ensures i < |keys|
    ensures forall j | 0 <= j < |keys| :: count[keys[j]] <= count[keys[i]]
    ensures forall j | 0 <= j < i :: count[keys[j]] < count[keys[i]]
  {
    if |keys| == 1 then 0
    else
      var n := |keys| - 1;
      var init := keys[..n];
      assert forall j | 0 <= j < n :: init[j] == keys[j];
      var b := ArgMaxIndex(init, count);
      if count[keys[n]] > count[keys[b]] then n else b
  }

  /** `max(freq, key=freq.get)`; `None` where Python raises ValueError. */
  function ArgMax<T(==)>(t: FreqTable<T>): (r: Option<T>)
    requires t.Valid()
    ensures r.None? <==> t.keys == []
    ensures r.Some? ==> r.value in t.count && Some(t.count[r.value]) == MaxFreq(t)
    ensures r.Some? ==> exists i | 0 <= i < |t.keys| ::
      && t.keys[i] == r.value
      && forall j | 0 <= j < i :: t.count[t.keys[j]] < t.count[r.value]
  {
    if t.keys == [] then None
    else
      var i := ArgMaxIndex(t.keys, t.count);
      var m := MaxCount(t.keys, t.count);
      assert t.count[t.keys[i]] == m by {
        var k :| k in t.keys && t.count[k] == m;
        var p :| 0 <= p < |t.keys| && t.keys[p] == k;
      }
      Some(t.keys[i])
  }

  /** `[k for k, v in freq.items() if v == m]`: the keys whose count is `m`,
      in the order in which they appear in `keys`. */
  function KeysWithCount<T(==)>(keys: seq<T>, count: map<T, nat>, m: nat): (r: seq<T>)
    requires NoDuplicates(keys)
    requires forall k | k in keys :: k in count
    ensures forall k | k in r :: k in keys && count[k] == m
    ensures forall k | k in keys && count[k] == m :: k in r
    ensures OrderedBy(r, keys)
  {
    if keys == [] then []
    else
      var init, last := keys[..|keys| - 1], keys[|keys| - 1];
      assert keys == init + [last];
      var p := KeysWithCount(init, count, m);
      OrderedBySnoc(p, init, last);
      if count[last] == m then p + [last] else p
  }

  /** No key has count `m`: the comprehension collects nothing. */
  lemma {:induction false} KeysWithCountNone<T>(keys: seq<T>, count: map<T, nat>, m: nat)
    requires NoDuplicates(keys)
    requires forall k | k in keys :: k in count && count[k] != m
    ensures KeysWithCount(keys, count, m) == []
  {
    if keys != [] {
      var init := keys[..|keys| - 1];
      assert forall k | k in init :: k in keys;
      KeysWithCountNone(init, count, m);
    }
  }

  /** The first key with count `m` is the head of the keys with count `m`. */
  lemma {:induction false} KeysWithCountHead<T>(keys: seq<T>, count: map<T, nat>, m: nat, i: nat)
    requires NoDuplicates(keys)
    requires forall k | k in keys :: k in count
    requires i < |keys| && count[keys[i]] == m
    requires forall j | 0 <= j < i :: count[keys[j]] != m
    ensures KeysWithCount(keys, count, m) != []
    ensures KeysWithCount(keys, count, m)[0] == keys[i]
  {
    var n := |keys| - 1;
    var init := keys[..n];
    assert keys == init + [keys[n]];
    if i == n {
      forall k | k in init
        ensures count[k] != m
      {
        var p :| 0 <= p < n && init[p] == k;
        assert keys[p] == k;
      }
      KeysWithCountNone(init, count, m);
      assert KeysWithCount(keys, count, m) == [] + [keys[n]];
    } else {
      assert forall j | 0 <= j <= i :: init[j] == keys[j];
      KeysWithCountHead(init, count, m, i);
      var r := KeysWithCount(init, count, m);
      assert KeysWithCount(keys, count, m) == if count[keys[n]] == m then r + [keys[n]] else r;
    }
  }

  /** `max(freq, key=freq.get)` names the first entry of the list of modes. */
  lemma ArgMaxIsFirstMode<T>(t: FreqTable<T>)
    requires t.Valid() && t.keys != []
    ensures ArgMax(t) == Some(KeysWithCount(t.keys, t.count, MaxFreq(t).value)[0])
  {
    var i := ArgMaxIndex(t.keys, t.count);
    var m := MaxFreq(t).value;
    assert ArgMax(t) == Some(t.keys[i]);
    KeysWithCountHead(t.keys, t.count, m, i);
  }

  /** Lines 14-29 as a whole: count, then pick one mode, the largest count
      and every mode. On an empty list Python stops with ValueError at
      `max`; here `top` and `maxFreq` are `None` and no modes are listed. */
  method MostFrequent<T(==)>(lst: seq<T>) returns (top: Option<T>, maxFreq: Option<nat>, result: seq<T>)
    ensures top.None? <==> lst == []
    ensures maxFreq.None? <==> lst == []
    ensures maxFreq.Some? ==> forall k | k in lst :: multiset(lst)[k] <= maxFreq.value
    ensures maxFreq.Some? ==> exists k | k in lst :: multiset(lst)[k] == maxFreq.value
    ensures forall k :: k in result <==> k in lst && Some(multiset(lst)[k]) == maxFreq
    ensures OrderedBy(result, lst)
    ensures lst != [] ==> result != [] && top == Some(result[0])
  {
    var freq := CountFreq(lst);
    assert lst != [] ==> lst[0] in freq.count;
    top := ArgMax(freq);
    maxFreq := MaxFreq(freq);
    if maxFreq.Some? {
      result := KeysWithCount(freq.keys, freq.count, maxFreq.value);
      ArgMaxIsFirstMode(freq);
      OrderedByTrans(result, freq.keys, lst);
      CounterSpec(lst);
    } else {
      result := [];
    }
  }

  /** The largest count and `max`'s key for the tally of `ScriptShapeTally`. */
  lemma ScriptShapeMax<T>(cat: T, dog: T, lion: T, hen: T)
    requires cat != dog && cat != lion && cat != hen && dog != lion && dog != hen && lion != hen
    ensures var count := map[cat := 3, dog := 3, lion := 2, hen := 1];
      && MaxCount([cat, dog, lion, hen], count) == 3
      && ArgMaxIndex([cat, dog, lion, hen], count) == 0
  {
    var k1, k2, k3, k4 := [cat], [cat, dog], [cat, dog, lion], [cat, dog, lion, hen];
    var count := map[cat := 3, dog := 3, lion := 2, hen := 1];
    assert k4[..3] == k3 && k3[..2] == k2 && k2[..1] == k1;
    assert ArgMaxIndex(k2, count) == 0;
    assert ArgMaxIndex(k3, count) == 0;
  }

  /** The modes the comprehension collects from that tally. */
  lemma ScriptShapeModes<T>(cat: T, dog: T, lion: T, hen: T)
    requires cat != dog && cat != lion && cat != hen && dog != lion && dog != hen && lion != hen
    ensures var count := map[cat := 3, dog := 3, lion := 2, hen := 1];
      KeysWithCount([cat, dog, lion, hen], count, 3) == [cat, dog]
  {
    var k1, k2, k3, k4 := [cat], [cat, dog], [cat, dog, lion], [cat, dog, lion, hen];
    var count := map[cat := 3, dog := 3, lion := 2, hen := 1];
    assert k4[..3] == k3 && k3[..2] == k2 && k2[..1] == k1;
    assert KeysWithCount([], count, 3) == [];
    assert [] + [cat] == k1;
    assert KeysWithCount(k1, count, 3) == [cat];
    assert KeysWithCount(k2, count, 3) == [cat, dog];
    assert KeysWithCount(k3, count, 3) == [cat, dog];
  }

  /** Counting `x` after `lst`, whose tally `t` is known, gives `t1`. */
  lemma CountOne<T>(lst: seq<T>, t: FreqTable<T>, x: T, t1: FreqTable<T>)
    requires Counter(lst) == t
    requires t1 == if x in t.count then FreqTable(t.keys, t.count[x := t.count[x] + 1])
                   else FreqTable(t.keys + [x], t.count[x := 1])
    ensures Counter(lst + [x]) == t1
  {
    CounterSnoc(lst, x);
  }

  /** Counting `x`, `y`, `z` after `lst`, whose tally `t` is known, passes
      through the tallies `t1`, `t2`, `t3`. */
  lemma CountThree<T>(lst: seq<T>, t: FreqTable<T>, x: T, y: T, z: T,
                      t1: FreqTable<T>, t2: FreqTable<T>, t3: FreqTable<T>)
    requires Counter(lst) == t
    requires t1 == if x in t.count then FreqTable(t.keys, t.count[x := t.count[x] + 1])
                   else FreqTable(t.keys + [x], t.count[x := 1])
    requires t2 == if y in t1.count then FreqTable(t1.keys, t1.count[y := t1.count[y] + 1])
                   else FreqTable(t1.keys + [y], t1.count[y := 1])
    requires t3 == if z in t2.count then FreqTable(t2.keys, t2.count[z := t2.count[z] + 1])
                   else FreqTable(t2.keys + [z], t2.count[z := 1])
    ensures Counter(lst + [x] + [y] + [z]) == t3
  {
    CountOne(lst, t, x, t1);
    CountOne(lst + [x], t1, y, t2);
    CountOne(lst + [x] + [y], t2, z, t3);
  }

  /** The dict that lines 17-21 build from the list of line 14, with any
      four distinct values in place of 'cat', 'dog', 'lion' and 'hen',
      proved three elements at a time. */
  lemma ScriptShapeTally<T>(cat: T, dog: T, lion: T, hen: T)
    requires cat != dog && cat != lion && cat != hen && dog != lion && dog != hen && lion != hen
    ensures Counter([cat, dog, lion, cat, lion, dog, hen, cat, dog])
      == FreqTable([cat, dog, lion, hen], map[cat := 3, dog := 3, lion := 2, hen := 1])
  {
    var p3 := [] + [cat] + [dog] + [lion];
    var p6 := p3 + [cat] + [lion] + [dog];
    var p9 := p6 + [hen] + [cat] + [dog];
    ScriptShapeFirstThree(cat, dog, lion);
    ScriptShapeNextThree(p3, cat, dog, lion);
    ScriptShapeLastThree(p6, cat, dog, lion, hen);
    assert p9 == [cat, dog, lion, cat, lion, dog, hen, cat, dog];
  }

  lemma ScriptShapeFirstThree<T>(cat: T, dog: T, lion: T)
    requires cat != dog && cat != lion && dog != lion
    ensures Counter([] + [cat] + [dog] + [lion])
      == FreqTable([cat, dog, lion], map[cat := 1, dog := 1, lion := 1])
  {
    assert Counter<T>([]) == FreqTable([], map[]);
    CountThree([], FreqTable([], map[]), cat, dog, lion,
      FreqTable([cat], map[cat := 1]), FreqTable([cat, dog], map[cat := 1, dog := 1]),
      FreqTable([cat, dog, lion], map[cat := 1, dog := 1, lion := 1]));
  }

  lemma ScriptShapeNextThree<T>(lst: seq<T>, cat: T, dog: T, lion: T)
    requires cat != dog && cat != lion && dog != lion
    requires Counter(lst) == FreqTable([cat, dog, lion], map[cat := 1, dog := 1, lion := 1])
    ensures Counter(lst + [cat] + [lion] + [dog])
      == FreqTable([cat, dog, lion], map[cat := 2, dog := 2, lion := 2])
  {
    var k3 := [cat, dog, lion];
    CountThree(lst, FreqTable(k3, map[cat := 1, dog := 1, lion := 1]), cat, lion, dog,
      FreqTable(k3, map[cat := 2, dog := 1, lion := 1]), FreqTable(k3, map[cat := 2, dog := 1, lion := 2]),
      FreqTable(k3, map[cat := 2, dog := 2, lion := 2]));
  }

  lemma ScriptShapeLastThree<T>(lst: seq<T>, cat: T, dog: T, lion: T, hen: T)
    requires cat != dog && cat != lion && cat != hen && dog != lion && dog != hen && lion != hen
    requires Counter(lst) == FreqTable([cat, dog, lion], map[cat := 2, dog := 2, lion := 2])
    ensures Counter(lst + [hen] + [cat] + [dog])
      == FreqTable([cat, dog, lion, hen], map[cat := 3, dog := 3, lion := 2, hen := 1])
  {
    var k4 := [cat, dog, lion, hen];
    CountThree(lst, FreqTable([cat, dog, lion], map[cat := 2, dog := 2, lion := 2]), hen, cat, dog,
      FreqTable(k4, map[cat := 2, dog := 2, lion := 2, hen := 1]),
      FreqTable(k4, map[cat := 3, dog := 2, lion := 2, hen := 1]),
      FreqTable(k4, map[cat := 3, dog := 3, lion := 2, hen := 1]));
  }

  /** Lines 14-29 on the list of line 14: 'cat' and 'dog' both occur three
      times, 'lion' twice and 'hen' once; `max` with `key=freq.get` names
      'cat', which is met first. */
  lemma ScriptExample()
    ensures var t := Counter(["cat", "dog", "lion", "cat", "lion", "dog", "hen", "cat", "dog"]);
      && t.keys == ["cat", "dog", "lion", "hen"]
      && t.count == map["cat" := 3, "dog" := 3, "lion" := 2, "hen" := 1]
      && MaxFreq(t) == Some(3)
      && KeysWithCount(t.keys, t.count, 3) == ["cat", "dog"]
      && ArgMax(t) == Some("cat")
  {
    var cat, dog, lion, hen := "cat", "dog", "lion", "hen";
    assert cat[0] == 'c' && dog[0] == 'd' && lion[0] == 'l' && hen[0] == 'h';
    ScriptShapeTally(cat, dog, lion, hen);
    ScriptShapeMax(cat, dog, lion, hen);
    ScriptShapeModes(cat, dog, lion, hen);
  }
}
