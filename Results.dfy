/**
 * Reading the ranking out (main.py): the first column of the ranked matrix,
 * paired with the labels and sorted by score.
 */
module Results {
  import opened Wrappers
  import opened Sums
  import opened Matrices

  /** `results[:, 0]` on a matrix without columns. */
  datatype IndexError = NoColumn

  /** `isolate_results`: column 0 of the ranked matrix. */
  function IsolateResults(m: Matrix): (r: Result<seq<real>, IndexError>)
    requires IsRectangular(m)
    ensures r.Success? <==> Width(m) > 0
    ensures r.Success? ==> |r.value| == |m| && forall i :: 0 <= i < |m| ==> r.value[i] == Get(m, i, 0)
  {
    if Width(m) == 0 then Failure(NoColumn)
    else Success(seq(|m|, i requires 0 <= i < |m| => m[i][0]))
  }

  /** The scores of a list, indexed from 0, and 0 past its end. */
  function Entries(v: seq<real>): nat -> real
  {
    (k: nat) => if k < |v| then v[k] else 0.0
  }

  /** The total of a list of scores. */
  function Total(v: seq<real>): real
  {
    Sum(|v|, Entries(v))
  }

  /** The scores read from a column-stochastic matrix add up to 1 and are never negative. */
  lemma IsolateResultsDistribution(m: Matrix)
    requires IsColumnStochastic(m) && IsNonNegative(m) && Width(m) > 0
    ensures var r := IsolateResults(m);
            && r.Success?
            && Total(r.value) == 1.0
            && forall i :: 0 <= i < |r.value| ==> r.value[i] >= 0.0
  {
    var v := IsolateResults(m).value;
    SumExt(|m|, Entries(v), ColumnOf(m, 0));
    assert ColumnSum(m, 0) == 1.0;
  }

  /** `append_labels`: `zip(labels, results)`, which stops at the shorter list. */
  function AppendLabels<L>(results: seq<real>, labels: seq<L>): (r: seq<(L, real)>)
    ensures |r| == if |results| < |labels| then |results| else |labels|
    ensures forall i :: 0 <= i < |r| ==> r[i] == (labels[i], results[i])
  {
    if results == [] || labels == [] then []
    else [(labels[0], results[0])] + AppendLabels(results[1..], labels[1..])
  }

  /** The labels of a list of pairs. */
  function Labels<L>(pairs: seq<(L, real)>): (r: seq<L>)
    ensures |r| == |pairs| && forall i :: 0 <= i < |r| ==> r[i] == pairs[i].0
  {
    seq(|pairs|, i requires 0 <= i < |pairs| => pairs[i].0)
  }

  /** The scores of a list of pairs. */
  function Scores<L>(pairs: seq<(L, real)>): (r: seq<real>)
    ensures |r| == |pairs| && forall i :: 0 <= i < |r| ==> r[i] == pairs[i].1
  {
    seq(|pairs|, i requires 0 <= i < |pairs| => pairs[i].1)
  }

  /** Pairing is undone by taking the pairs apart, when no label or score is left over. */
  lemma AppendLabelsUnzip<L>(results: seq<real>, labels: seq<L>)
    requires |results| == |labels|
    ensures Labels(AppendLabels(results, labels)) == labels
    ensures Scores(AppendLabels(results, labels)) == results
  {
  }

  /** Whether a score `x` may come before a score `y` in the output order. */
  predicate InOrder(x: real, y: real, reverse: bool)
  {
    if reverse then x >= y else x <= y
  }

  /** Whether a score `x` must come before a score `y`: strictly in order. */
  predicate Precedes(x: real, y: real, reverse: bool)
  {
    if reverse then x > y else x < y
  }

  /** Sorted by key: ascending, or descending when `reverse` holds. */
  ghost predicate Ordered<T>(s: seq<T>, reverse: bool, key: T -> real)
  {
    forall i, j :: 0 <= i < j < |s| ==> InOrder(key(s[i]), key(s[j]), reverse)
  }

  /** `x` placed just before the first element it strictly precedes, so after all its equals. */
  function Insert<T>(x: T, s: seq<T>, reverse: bool, key: T -> real): (r: seq<T>)
    ensures |r| == |s| + 1
  {
    if s == [] then [x]
    else if Precedes(key(x), key(s[0]), reverse) then [x] + s
    else [s[0]] + Insert(x, s[1..], reverse, key)
  }

  /** `sort_result`: `sorted(results, key=key, reverse=reverse)`, a stable sort. */
  function SortResult<T>(results: seq<T>, reverse: bool, key: T -> real): (r: seq<T>)
    ensures |r| == |results|
  {
    if results == [] then []
    else
      var n := |results| - 1;
      Insert(results[n], SortResult(results[..n], reverse, key), reverse, key)
  }

  /** The elements of `s` whose key is `v`, in their order in `s`. */
  function WithKey<T>(s: seq<T>, key: T -> real, v: real): seq<T>
  {
    if s == [] then []
    else (if key(s[0]) == v then [s[0]] else []) + WithKey(s[1..], key, v)
  }

  lemma {:induction false} WithKeyAppend<T>(a: seq<T>, b: seq<T>, key: T -> real, v: real)
    ensures WithKey(a + b, key, v) == WithKey(a, key, v) + WithKey(b, key, v)
  {
    if a != [] {
      assert (a + b)[1..] == a[1..] + b;
      WithKeyAppend(a[1..], b, key, v);
    } else {
      assert a + b == b;
    }
  }

  lemma {:induction false} WithKeyNone<T>(s: seq<T>, key: T -> real, v: real)
    requires forall i :: 0 <= i < |s| ==> key(s[i]) != v
    ensures WithKey(s, key, v) == []
  {
    if s != [] {
      WithKeyNone(s[1..], key, v);
    }
  }

  lemma {:induction false} InsertPermutation<T>(x: T, s: seq<T>, reverse: bool, key: T -> real)
    ensures multiset(Insert(x, s, reverse, key)) == multiset(s) + multiset{x}
  {
    if s != [] && !Precedes(key(x), key(s[0]), reverse) {
      var rest := Insert(x, s[1..], reverse, key);
      InsertPermutation(x, s[1..], reverse, key);
      assert Insert(x, s, reverse, key) == [s[0]] + rest;
      assert multiset([s[0]] + rest) == multiset([s[0]]) + multiset(rest);
      assert s == [s[0]] + s[1..];
      assert multiset(s) == multiset([s[0]]) + multiset(s[1..]);
    }
  }

  /** An element of `s` with `x` inserted is `x` or an element of `s`. */
  lemma InsertElement<T>(x: T, s: seq<T>, reverse: bool, key: T -> real, e: T)
    requires e in Insert(x, s, reverse, key)
    ensures e == x || e in s
  {
    InsertPermutation(x, s, reverse, key);
    assert e in multiset(Insert(x, s, reverse, key));
  }

  /** An element that may precede every element of a sorted sequence may be put in front of it. */
  lemma OrderedCons<T>(y: T, s: seq<T>, reverse: bool, key: T -> real)
    requires Ordered(s, reverse, key)
    requires forall e :: e in s ==> InOrder(key(y), key(e), reverse)
    ensures Ordered([y] + s, reverse, key)
  {
    var r := [y] + s;
    forall i, j | 0 <= i < j < |r|
      ensures InOrder(key(r[i]), key(r[j]), reverse)
    {
      assert r[j] == s[j - 1];
      if i > 0 {
        assert r[i] == s[i - 1];
      } else {
        assert r[j] in s;
      }
    }
  }

  /** The tail of a sorted sequence is sorted. */
  lemma OrderedTail<T>(s: seq<T>, reverse: bool, key: T -> real)
    requires Ordered(s, reverse, key) && s != []
    ensures Ordered(s[1..], reverse, key)
    ensures forall e :: e in s[1..] ==> InOrder(key(s[0]), key(e), reverse)
  {
    var t := s[1..];
    forall i, j | 0 <= i < j < |t|
      ensures InOrder(key(t[i]), key(t[j]), reverse)
    {
      assert t[i] == s[i + 1] && t[j] == s[j + 1];
    }
    forall e | e in t
      ensures InOrder(key(s[0]), key(e), reverse)
    {
      var k :| 0 <= k < |t| && t[k] == e;
      assert s[k + 1] == e;
    }
  }

  /** An element that strictly precedes the head of a sorted sequence may precede all of it. */
  lemma PrecedesAll<T>(x: T, s: seq<T>, reverse: bool, key: T -> real)
    requires Ordered(s, reverse, key) && s != []
    requires Precedes(key(x), key(s[0]), reverse)
    ensures forall e :: e in s ==> InOrder(key(x), key(e), reverse)
  {
    forall e | e in s
      ensures InOrder(key(x), key(e), reverse)
    {
      var k :| 0 <= k < |s| && s[k] == e;
      if k > 0 {
        assert InOrder(key(s[0]), key(s[k]), reverse);
      }
    }
  }

  /** The head of a sorted sequence may precede everything in its tail with `x` inserted, when it may precede `x`. */
  lemma HeadPrecedesInsert<T>(x: T, s: seq<T>, reverse: bool, key: T -> real)
    requires Ordered(s, reverse, key) && s != []
    requires InOrder(key(s[0]), key(x), reverse)
    ensures forall e :: e in Insert(x, s[1..], reverse, key) ==> InOrder(key(s[0]), key(e), reverse)
  {
    OrderedTail(s, reverse, key);
    forall e | e in Insert(x, s[1..], reverse, key)
      ensures InOrder(key(s[0]), key(e), reverse)
    {
      InsertElement(x, s[1..], reverse, key, e);
    }
  }

  lemma {:induction false} InsertOrdered<T>(x: T, s: seq<T>, reverse: bool, key: T -> real)
    requires Ordered(s, reverse, key)
    ensures Ordered(Insert(x, s, reverse, key), reverse, key)
  {
    if s == [] {
    } else if Precedes(key(x), key(s[0]), reverse) {
      PrecedesAll(x, s, reverse, key);
      OrderedCons(x, s, reverse, key);
    } else {
      OrderedTail(s, reverse, key);
      InsertOrdered(x, s[1..], reverse, key);
      HeadPrecedesInsert(x, s, reverse, key);
      OrderedCons(s[0], Insert(x, s[1..], reverse, key), reverse, key);
    }
  }

  /** Putting `x` in front of a sorted sequence whose keys it strictly precedes keeps every key's elements in order. */
  lemma InsertFrontStable<T>(x: T, s: seq<T>, reverse: bool, key: T -> real, v: real)
    requires Ordered(s, reverse, key) && s != []
    requires Precedes(key(x), key(s[0]), reverse)
    ensures WithKey([x] + s, key, v) == WithKey(s, key, v) + WithKey([x], key, v)
  {
    WithKeyAppend([x], s, key, v);
    assert WithKey([x], key, v) == (if key(x) == v then [x] else []) + WithKey([], key, v);
    if key(x) == v {
      forall i | 0 <= i < |s|
        ensures key(s[i]) != v
      {
        if i > 0 {
          assert InOrder(key(s[0]), key(s[i]), reverse);
        }
      }
      WithKeyNone(s, key, v);
    }
  }

  lemma {:induction false} InsertStable<T>(x: T, s: seq<T>, reverse: bool, key: T -> real, v: real)
    requires Ordered(s, reverse, key)
    ensures WithKey(Insert(x, s, reverse, key), key, v)
         == WithKey(s, key, v) + WithKey([x], key, v)
  {
    if s == [] {
      assert Insert(x, s, reverse, key) == [x];
      assert WithKey([x], key, v) == (if key(x) == v then [x] else []) + WithKey([], key, v);
    } else if Precedes(key(x), key(s[0]), reverse) {
      InsertFrontStable(x, s, reverse, key, v);
    } else {
      var s1 := s[1..];
      var rest := Insert(x, s1, reverse, key);
      OrderedTail(s, reverse, key);
      InsertStable(x, s1, reverse, key, v);
      assert Insert(x, s, reverse, key) == [s[0]] + rest;
      WithKeyAppend([s[0]], rest, key, v);
      WithKeyAppend([s[0]], s1, key, v);
      assert [s[0]] + s1 == s;
    }
  }

  /** The output of `sort_result` holds exactly the input's elements. */
  lemma {:induction false} SortResultPermutation<T>(results: seq<T>, reverse: bool, key: T -> real)
    ensures multiset(SortResult(results, reverse, key)) == multiset(results)
  {
    if results != [] {
      var n := |results| - 1;
      SortResultPermutation(results[..n], reverse, key);
      InsertPermutation(results[n], SortResult(results[..n], reverse, key), reverse, key);
      assert results == results[..n] + [results[n]];
    }
  }

  /** The output of `sort_result` is descending by key when `reverse` holds, ascending otherwise. */
  lemma {:induction false} SortResultOrdered<T>(results: seq<T>, reverse: bool, key: T -> real)
    ensures Ordered(SortResult(results, reverse, key), reverse, key)
  {
    if results != [] {
      var n := |results| - 1;
      SortResultOrdered(results[..n], reverse, key);
      InsertOrdered(results[n], SortResult(results[..n], reverse, key), reverse, key);
    }
  }

  /** Elements with equal keys keep their input order, in both directions. */
  lemma {:induction false} SortResultStable<T>(results: seq<T>, reverse: bool, key: T -> real, v: real)
    ensures WithKey(SortResult(results, reverse, key), key, v) == WithKey(results, key, v)
  {
    if results != [] {
      var n := |results| - 1;
      var sorted := SortResult(results[..n], reverse, key);
      SortResultStable(results[..n], reverse, key, v);
      SortResultOrdered(results[..n], reverse, key);
      InsertStable(results[n], sorted, reverse, key, v);
      WithKeyAppend(results[..n], [results[n]], key, v);
      assert results == results[..n] + [results[n]];
    }
  }

  /** Two sequences sorted the same way that hold the same elements of every key, in the same order, are equal. */
  lemma {:induction false} OrderedUnique<T>(a: seq<T>, b: seq<T>, reverse: bool, key: T -> real)
    requires Ordered(a, reverse, key) && Ordered(b, reverse, key)
    requires forall v :: WithKey(a, key, v) == WithKey(b, key, v)
    ensures a == b
  {
    if a == [] && b == [] {
    } else if a == [] || b == [] {
      WithKeyFirst(a, key);
      WithKeyFirst(b, key);
      assert false;
    } else {
      var ka, kb := key(a[0]), key(b[0]);
      if Precedes(ka, kb, reverse) {
        WithKeyFirst(a, key);
        FirstKeyBefore(b, reverse, key, ka);
        assert false;
      } else if Precedes(kb, ka, reverse) {
        WithKeyFirst(b, key);
        FirstKeyBefore(a, reverse, key, kb);
        assert false;
      } else {
        assert ka == kb;
        var x, y := WithKey(a[1..], key, ka), WithKey(b[1..], key, ka);
        assert [a[0]] + x == WithKey(a, key, ka) == WithKey(b, key, ka) == [b[0]] + y;
        assert a[0] == ([a[0]] + x)[0];
        forall v
          ensures WithKey(a[1..], key, v) == WithKey(b[1..], key, v)
        {
          var x, y := WithKey(a[1..], key, v), WithKey(b[1..], key, v);
          var h := if v == ka then [a[0]] else [];
          assert h + x == WithKey(a, key, v) == WithKey(b, key, v) == h + y;
          assert (h + x)[|h|..] == x && (h + y)[|h|..] == y;
        }
        OrderedTail(a, reverse, key);
        OrderedTail(b, reverse, key);
        OrderedUnique(a[1..], b[1..], reverse, key);
        assert a == [a[0]] + a[1..] && b == [b[0]] + b[1..];
      }
    }
  }

  /** The first element of a non-empty sequence is among the elements of its key. */
  lemma WithKeyFirst<T>(s: seq<T>, key: T -> real)
    ensures s != [] ==> WithKey(s, key, key(s[0])) != [] && WithKey(s, key, key(s[0]))[0] == s[0]
  {
  }

  /** A key strictly before the first key of a sorted sequence is not in it. */
  lemma FirstKeyBefore<T>(s: seq<T>, reverse: bool, key: T -> real, v: real)
    ensures Ordered(s, reverse, key) && s != [] && Precedes(v, key(s[0]), reverse) ==> WithKey(s, key, v) == []
  {
    if Ordered(s, reverse, key) && s != [] && Precedes(v, key(s[0]), reverse) {
      forall i | 0 <= i < |s|
        ensures key(s[i]) != v
      {
        if i > 0 {
          assert InOrder(key(s[0]), key(s[i]), reverse);
        }
      }
      WithKeyNone(s, key, v);
    }
  }

  /** `sort_result` is the only sorted arrangement that keeps the input order among equal keys. */
  lemma SortResultUnique<T>(results: seq<T>, reverse: bool, key: T -> real, s: seq<T>)
    requires Ordered(s, reverse, key)
    requires forall v :: WithKey(s, key, v) == WithKey(results, key, v)
    ensures s == SortResult(results, reverse, key)
  {
    var r := SortResult(results, reverse, key);
    SortResultOrdered(results, reverse, key);
    forall v
      ensures WithKey(s, key, v) == WithKey(r, key, v)
    {
      SortResultStable(results, reverse, key, v);
    }
    OrderedUnique(s, r, reverse, key);
  }

  /** `s` back to front. */
  function Reverse<T>(s: seq<T>): (r: seq<T>)
    ensures |r| == |s|
    ensures forall i :: 0 <= i < |s| ==> r[i] == s[|s| - 1 - i]
  {
    if s == [] then [] else Reverse(s[1..]) + [s[0]]
  }

  lemma ReverseAppend<T>(a: seq<T>, b: seq<T>)
    ensures Reverse(a + b) == Reverse(b) + Reverse(a)
  {
    var l, r := Reverse(a + b), Reverse(b) + Reverse(a);
    forall i | 0 <= i < |l|
      ensures l[i] == r[i]
    {
      if i < |b| {
        assert r[i] == b[|b| - 1 - i];
      } else {
        assert r[i] == a[|a| - 1 - (i - |b|)];
      }
    }
  }

  /** Reversing a sequence reverses the elements of each key. */
  lemma {:induction false} WithKeyReverse<T>(s: seq<T>, key: T -> real, v: real)
    ensures WithKey(Reverse(s), key, v) == Reverse(WithKey(s, key, v))
  {
    if s != [] {
      var head, tail := WithKey([s[0]], key, v), WithKey(s[1..], key, v);
      WithKeyReverse(s[1..], key, v);
      assert Reverse(s) == Reverse(s[1..]) + [s[0]];
      WithKeyAppend(Reverse(s[1..]), [s[0]], key, v);
      assert [s[0]] + s[1..] == s;
      WithKeyAppend([s[0]], s[1..], key, v);
      ReverseAppend(head, tail);
      assert head == (if key(s[0]) == v then [s[0]] else []) + WithKey([], key, v);
      assert Reverse(head) == head;
    }
  }

  /** A sequence sorted from the highest key reads, back to front, from the lowest. */
  lemma ReverseOrdered<T>(s: seq<T>, key: T -> real)
    requires Ordered(s, true, key)
    ensures Ordered(Reverse(s), false, key)
  {
    var r := Reverse(s);
    forall i, j | 0 <= i < j < |r|
      ensures InOrder(key(r[i]), key(r[j]), false)
    {
      assert InOrder(key(s[|s| - 1 - j]), key(s[|s| - 1 - i]), true);
    }
  }

  /** No two elements share a key. */
  predicate DistinctKeys<T>(s: seq<T>, key: T -> real)
  {
    forall i, j :: 0 <= i < j < |s| ==> key(s[i]) != key(s[j])
  }

  /** With distinct keys, each key has at most one element. */
  lemma {:induction false} WithKeyDistinct<T>(s: seq<T>, key: T -> real, v: real)
    requires DistinctKeys(s, key)
    ensures |WithKey(s, key, v)| <= 1
  {
    if s != [] {
      var t := s[1..];
      forall i, j | 0 <= i < j < |t|
        ensures key(t[i]) != key(t[j])
      {
        assert t[i] == s[i + 1] && t[j] == s[j + 1];
      }
      if key(s[0]) == v {
        forall i | 0 <= i < |t|
          ensures key(t[i]) != v
        {
          assert t[i] == s[i + 1];
        }
        WithKeyNone(t, key, v);
      } else {
        WithKeyDistinct(t, key, v);
      }
    }
  }

  /** With distinct keys, sorting with `reverse` gives the ascending order back to front. */
  lemma SortResultReverse<T>(results: seq<T>, key: T -> real)
    requires DistinctKeys(results, key)
    ensures SortResult(results, false, key) == Reverse(SortResult(results, true, key))
  {
    var up, down := SortResult(results, false, key), SortResult(results, true, key);
    SortResultOrdered(results, true, key);
    ReverseOrdered(down, key);
    forall v
      ensures WithKey(Reverse(down), key, v) == WithKey(results, key, v)
    {
      SortResultStable(results, true, key, v);
      WithKeyReverse(down, key, v);
      WithKeyDistinct(results, key, v);
      var w := WithKey(results, key, v);
      assert Reverse(w) == w;
    }
    SortResultUnique(results, false, key, Reverse(down));
  }

  /** The default key of `sort_result`: the score of a (label, score) pair. */
  function Score<L>(pair: (L, real)): real
  {
    pair.1
  }

  /** With the default arguments the pairs come out from the best score to the worst. */
  lemma SortResultBestFirst<L>(pairs: seq<(L, real)>)
    ensures var r := SortResult(pairs, true, Score);
            && multiset(r) == multiset(pairs)
            && forall i, j :: 0 <= i < j < |r| ==> r[i].1 >= r[j].1
  {
    var r := SortResult(pairs, true, Score);
    SortResultPermutation(pairs, true, Score);
    SortResultOrdered(pairs, true, Score);
    forall i, j | 0 <= i < j < |r|
      ensures r[i].1 >= r[j].1
    {
      assert InOrder(Score(r[i]), Score(r[j]), true);
    }
  }
}
