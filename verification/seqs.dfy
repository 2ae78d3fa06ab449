/** Order-preserving selection and flattening of sequences, the two list
    idioms (`df[mask]`, `[i for sub in lst for i in sub]`) the pipeline
    uses throughout. */
module Seqs {
  import opened Wrappers

  /** The elements of `s` that satisfy `p`, in their original order. */
  function Filter<T(!new)>(s: seq<T>, p: T -> bool): (r: seq<T>)
    ensures |r| <= |s|
    ensures forall x :: x in r <==> x in s && p(x)
  {
    if |s| == 0 then []
    else
      assert s == [s[0]] + s[1..];
      (if p(s[0]) then [s[0]] else []) + Filter(s[1..], p)
  }

  /** Selection distributes over concatenation, so it keeps relative order. */
  lemma {:induction false} FilterConcat<T(!new)>(a: seq<T>, b: seq<T>, p: T -> bool)
    ensures Filter(a + b, p) == Filter(a, p) + Filter(b, p)
    decreases |a|
  {
    if |a| == 0 {
      assert a + b == b;
    } else {
      var head := if p(a[0]) then [a[0]] else [];
      assert (a + b)[0] == a[0];
      assert (a + b)[1..] == a[1..] + b;
      FilterConcat(a[1..], b, p);
      assert Filter(a + b, p) == head + (Filter(a[1..], p) + Filter(b, p));
      assert Filter(a, p) == head + Filter(a[1..], p);
    }
  }

  /** Selecting everything changes nothing; selecting nothing gives nothing. */
  lemma {:induction false} FilterAllOrNone<T(!new)>(s: seq<T>, p: T -> bool)
    ensures (forall x :: x in s ==> p(x)) ==> Filter(s, p) == s
    ensures (forall x :: x in s ==> !p(x)) ==> Filter(s, p) == []
    decreases |s|
  {
    if |s| > 0 {
      assert s[0] in s;
      FilterAllOrNone(s[1..], p);
      assert s == [s[0]] + s[1..];
    }
  }

  /** The concatenation of a list of lists. */
  function Flatten<T>(ss: seq<seq<T>>): (r: seq<T>)
    ensures |ss| == 0 ==> r == []
  {
    if |ss| == 0 then [] else ss[0] + Flatten(ss[1..])
  }

  lemma {:induction false} FlattenConcat<T>(a: seq<seq<T>>, b: seq<seq<T>>)
    ensures Flatten(a + b) == Flatten(a) + Flatten(b)
    decreases |a|
  {
    if |a| == 0 {
      assert a + b == b;
    } else {
      assert (a + b)[0] == a[0];
      assert (a + b)[1..] == a[1..] + b;
      FlattenConcat(a[1..], b);
    }
  }

  /** Every element of a flattened list comes from one of the lists, and
      every element of every list is in the flattening. */
  lemma {:induction false} FlattenMembers<T>(ss: seq<seq<T>>)
    ensures forall x :: x in Flatten(ss) <==> exists i :: 0 <= i < |ss| && x in ss[i]
    decreases |ss|
  {
    if |ss| > 0 {
      FlattenMembers(ss[1..]);
      forall x
        ensures x in Flatten(ss) <==> exists i :: 0 <= i < |ss| && x in ss[i]
      {
        if exists i :: 0 <= i < |ss| && x in ss[i] {
          var i :| 0 <= i < |ss| && x in ss[i];
          if i > 0 {
            assert ss[1..][i - 1] == ss[i];
          }
        }
        if x in Flatten(ss[1..]) {
          var i :| 0 <= i < |ss[1..]| && x in ss[1..][i];
          assert ss[i + 1] == ss[1..][i];
        }
      }
    }
  }

  /** Applying a step that may raise to every element in order: the values
      when every step succeeds, otherwise the error of the first step that
      raises. */
  function Traverse<A, B(==), E(==)>(xs: seq<A>, f: A -> Result<B, E>): (r: Result<seq<B>, E>)
    ensures r.Success? <==> forall i :: 0 <= i < |xs| ==> f(xs[i]).Success?
    ensures r.Success? ==> |r.value| == |xs| && forall i :: 0 <= i < |xs| ==> f(xs[i]) == Success(r.value[i])
    ensures r.Failure? ==> exists k :: 0 <= k < |xs| && f(xs[k]) == Failure(r.error) && forall i :: 0 <= i < k ==> f(xs[i]).Success?
  {
    if |xs| == 0 then Success([])
    else
      var head := f(xs[0]);
      var rest := Traverse(xs[1..], f);
      assert forall i :: 1 <= i < |xs| ==> xs[i] == xs[1..][i - 1];
      if head.Failure? then Failure(head.error)
      else if rest.Failure? then
        var k :| 0 <= k < |xs[1..]| && f(xs[1..][k]) == Failure(rest.error) && forall i :: 0 <= i < k ==> f(xs[1..][i]).Success?;
        assert forall i :: 0 <= i < k + 1 ==> f(xs[i]).Success? by {
          forall i | 0 <= i < k + 1
            ensures f(xs[i]).Success?
          {
            if i > 0 {
              assert xs[i] == xs[1..][i - 1];
            }
          }
        }
        Failure(rest.error)
      else Success([head.value] + rest.value)
  }

  /** When every step succeeds with a known value, so does the whole. */
  lemma TraverseOfValues<A, B, E>(xs: seq<A>, f: A -> Result<B, E>, ys: seq<B>)
    requires |xs| == |ys|
    requires forall i :: 0 <= i < |xs| ==> f(xs[i]) == Success(ys[i])
    ensures Traverse(xs, f) == Success(ys)
  {
    var r := Traverse(xs, f);
    assert r.Success?;
    assert r.value == ys;
  }

  /** Every value of a successful traversal comes from some element, and
      every element's value is among them. */
  lemma TraverseMembers<A, B, E>(xs: seq<A>, f: A -> Result<B, E>)
    requires Traverse(xs, f).Success?
    ensures forall y :: y in Traverse(xs, f).value ==> exists x :: x in xs && f(x) == Success(y)
    ensures forall x :: x in xs ==> f(x).Success? && f(x).value in Traverse(xs, f).value
  {
    var ys := Traverse(xs, f).value;
    forall y | y in ys
      ensures exists x :: x in xs && f(x) == Success(y)
    {
      var i :| 0 <= i < |ys| && ys[i] == y;
      assert f(xs[i]) == Success(y);
    }
    forall x | x in xs
      ensures f(x).Success? && f(x).value in ys
    {
      var i :| 0 <= i < |xs| && xs[i] == x;
      assert ys[i] in ys;
    }
  }

  /** Selecting by a predicate and by its negation splits the elements
      between the two results. */
  lemma {:induction false} FilterPartition<T(!new)>(s: seq<T>, p: T -> bool, q: T -> bool)
    requires forall x :: q(x) == !p(x)
    ensures multiset(Filter(s, p)) + multiset(Filter(s, q)) == multiset(s)
    decreases |s|
  {
    if |s| > 0 {
      FilterPartition(s[1..], p, q);
      var hp: seq<T> := if p(s[0]) then [s[0]] else [];
      var hq: seq<T> := if q(s[0]) then [s[0]] else [];
      var fp, fq := Filter(s[1..], p), Filter(s[1..], q);
      assert Filter(s, p) == hp + fp && Filter(s, q) == hq + fq;
      assert s == [s[0]] + s[1..];
      var a, b, c := multiset(hp + fp), multiset(hq + fq), multiset([s[0]] + s[1..]);
      forall x
        ensures a[x] + b[x] == c[x]
      {
        assert multiset(fp)[x] + multiset(fq)[x] == multiset(s[1..])[x];
      }
      MultisetSum(a, b, c);
    }
  }

  /** Multisets add up when their counts do. */
  lemma MultisetSum<T>(a: multiset<T>, b: multiset<T>, c: multiset<T>)
    requires forall x :: a[x] + b[x] == c[x]
    ensures a + b == c
  {
  }

  /** The position of the first occurrence of `x` in `s`. */
  function IndexOf<T(==)>(s: seq<T>, x: T): (i: nat)
    requires x in s
    ensures i < |s| && s[i] == x
    ensures forall j :: 0 <= j < i ==> s[j] != x
  {
    if s[0] == x then 0 else 1 + IndexOf(s[1..], x)
  }

  /** `pd.unique` / `drop_duplicates`: each element once, at its first
      occurrence. */
  function Dedup<T(==,!new)>(s: seq<T>): (d: seq<T>)
    ensures forall x :: x in d <==> x in s
    ensures forall i, j :: 0 <= i < j < |d| ==> d[i] != d[j]
    ensures |d| <= |s|
  {
    if |s| == 0 then []
    else
      var init := s[..|s| - 1];
      var d := Dedup(init);
      assert s == init + [s[|s| - 1]];
      if s[|s| - 1] in d then d else d + [s[|s| - 1]]
  }

  /** The elements are kept in the order of their first occurrence. */
  lemma {:induction false} DedupFirstAppearance<T(!new)>(s: seq<T>)
    ensures forall i, j :: 0 <= i < j < |Dedup(s)| ==> IndexOf(s, Dedup(s)[i]) < IndexOf(s, Dedup(s)[j])
    decreases |s|
  {
    if |s| > 0 {
      var init := s[..|s| - 1];
      var x := s[|s| - 1];
      DedupFirstAppearance(init);
      assert s == init + [x];
      assert forall y :: y in init ==> IndexOf(s, y) == IndexOf(init, y) by {
        forall y | y in init
          ensures IndexOf(s, y) == IndexOf(init, y)
        {
          IndexOfPrefix(init, [x], y);
        }
      }
      if x !in init {
        assert IndexOf(s, x) == |init|;
      }
    }
  }

  lemma {:induction false} IndexOfPrefix<T>(a: seq<T>, b: seq<T>, x: T)
    requires x in a
    ensures IndexOf(a + b, x) == IndexOf(a, x)
    decreases |a|
  {
    if a[0] != x {
      assert (a + b)[1..] == a[1..] + b;
      IndexOfPrefix(a[1..], b, x);
    }
  }

  /** A list without repetitions is its own deduplication. */
  lemma {:induction false} DedupDistinct<T(!new)>(s: seq<T>)
    requires forall i, j :: 0 <= i < j < |s| ==> s[i] != s[j]
    ensures Dedup(s) == s
    decreases |s|
  {
    if |s| > 0 {
      var init := s[..|s| - 1];
      DedupDistinct(init);
      assert s == init + [s[|s| - 1]];
    }
  }

  /** `drop_duplicates(subset=..., keep="first")`: the first element for
      each key not yet in `seen`, in order. */
  function KeepFirst<T, K>(s: seq<T>, key: T -> K, seen: set<K>): (r: seq<T>)
    ensures |r| <= |s|
  {
    if |s| == 0 then []
    else if key(s[0]) in seen then KeepFirst(s[1..], key, seen)
    else [s[0]] + KeepFirst(s[1..], key, seen + {key(s[0])})
  }

  /** Kept elements come from the input and have keys not seen before. */
  lemma {:induction false} KeepFirstSubset<T, K>(s: seq<T>, key: T -> K, seen: set<K>, y: T)
    requires y in KeepFirst(s, key, seen)
    ensures y in s && key(y) !in seen
    decreases |s|
  {
    if key(s[0]) in seen {
      KeepFirstSubset(s[1..], key, seen, y);
    } else if y != s[0] {
      KeepFirstSubset(s[1..], key, seen + {key(s[0])}, y);
    }
  }

  /** No key is kept twice. */
  lemma {:induction false} KeepFirstDistinct<T, K>(s: seq<T>, key: T -> K, seen: set<K>)
    ensures forall i, j :: 0 <= i < j < |KeepFirst(s, key, seen)| ==> key(KeepFirst(s, key, seen)[i]) != key(KeepFirst(s, key, seen)[j])
    decreases |s|
  {
    if |s| > 0 {
      if key(s[0]) in seen {
        KeepFirstDistinct(s[1..], key, seen);
      } else {
        var seen' := seen + {key(s[0])};
        var rest := KeepFirst(s[1..], key, seen');
        KeepFirstDistinct(s[1..], key, seen');
        forall j | 0 <= j < |rest|
          ensures key(rest[j]) != key(s[0])
        {
          KeepFirstSubset(s[1..], key, seen', rest[j]);
        }
      }
    }
  }

  /** Every key of the input that was not seen before is kept. */
  lemma {:induction false} KeepFirstCovers<T, K>(s: seq<T>, key: T -> K, seen: set<K>, x: T)
    requires x in s && key(x) !in seen
    ensures exists y :: y in KeepFirst(s, key, seen) && key(y) == key(x)
    decreases |s|
  {
    if key(s[0]) in seen {
      KeepFirstCovers(s[1..], key, seen, x);
    } else if key(x) != key(s[0]) {
      KeepFirstCovers(s[1..], key, seen + {key(s[0])}, x);
      var y :| y in KeepFirst(s[1..], key, seen + {key(s[0])}) && key(y) == key(x);
      assert y in KeepFirst(s, key, seen);
    } else {
      assert s[0] in KeepFirst(s, key, seen);
    }
  }

  /** Each kept element is the first of its key. */
  lemma {:induction false} KeepFirstEarliest<T, K>(s: seq<T>, key: T -> K, seen: set<K>, y: T)
    requires y in KeepFirst(s, key, seen)
    ensures exists i :: FirstOfKey(s, key, y, i)
    decreases |s|
  {
    if key(s[0]) in seen || y != s[0] {
      var seen' := if key(s[0]) in seen then seen else seen + {key(s[0])};
      KeepFirstEarliest(s[1..], key, seen', y);
      KeepFirstSubset(s[1..], key, seen', y);
      var i :| FirstOfKey(s[1..], key, y, i);
      assert FirstOfKey(s, key, y, i + 1) by {
        forall j | 0 <= j < i + 1
          ensures key(s[j]) != key(y)
        {
          if j > 0 {
            assert s[j] == s[1..][j - 1];
          }
        }
      }
    } else {
      assert FirstOfKey(s, key, y, 0);
    }
  }

  /** `s[i]` is `y` and no earlier element has its key. */
  ghost predicate FirstOfKey<T, K>(s: seq<T>, key: T -> K, y: T, i: int)
  {
    0 <= i < |s| && s[i] == y && forall j :: 0 <= j < i ==> key(s[j]) != key(y)
  }

  /** Applying `f` to every element. */
  function Map<A, B>(s: seq<A>, f: A -> B): (r: seq<B>)
    ensures |r| == |s| && forall i :: 0 <= i < |s| ==> r[i] == f(s[i])
  {
    seq(|s|, i requires 0 <= i < |s| => f(s[i]))
  }

  lemma MapMembers<A, B>(s: seq<A>, f: A -> B)
    ensures forall y :: y in Map(s, f) <==> exists x :: x in s && f(x) == y
  {
    var r := Map(s, f);
    forall y | y in r
      ensures exists x :: x in s && f(x) == y
    {
      var i :| 0 <= i < |r| && r[i] == y;
      assert s[i] in s;
    }
    forall x | x in s
      ensures f(x) in r
    {
      var i :| 0 <= i < |s| && s[i] == x;
      assert r[i] == f(x);
    }
  }
}
