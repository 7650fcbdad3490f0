/** Generic building blocks shared by the whole model: an optional value
    (Python's `None`), order-preserving filtering and mapping of sequences
    (Python's list comprehensions), flattening, and the subsequence relation
    used to say that a filter keeps the input order. */
module Base {

  /** A value that may be absent, like a Python attribute that may be `None`. */
  datatype Option<+T> = None | Some(value: T)

  /** `[x for x in s if p(x)]`. */
  function Filter<T>(p: T -> bool, s: seq<T>): (r: seq<T>)
    ensures |r| <= |s|
    ensures forall i :: 0 <= i < |r| ==> p(r[i]) && r[i] in s
  {
    if |s| == 0 then []
    else (if p(s[0]) then [s[0]] else []) + Filter(p, s[1..])
  }

  /** An element is kept by a filter exactly when it is in the input and
      passes the predicate. */
  lemma {:induction false} FilterMembership<T>(p: T -> bool, s: seq<T>, x: T)
    ensures x in Filter(p, s) <==> x in s && p(x)
    decreases |s|
  {
    if |s| > 0 {
      FilterMembership(p, s[1..], x);
      assert s == [s[0]] + s[1..];
    }
  }

  /** `[f(x) for x in s]`. */
  function Map<T, U>(f: T -> U, s: seq<T>): (r: seq<U>)
    ensures |r| == |s|
    ensures forall i :: 0 <= i < |s| ==> r[i] == f(s[i])
  {
    if |s| == 0 then [] else [f(s[0])] + Map(f, s[1..])
  }

  /** Concatenation of all the sequences of `ss`, in order. */
  function Flatten<T>(ss: seq<seq<T>>): seq<T>
  {
    if |ss| == 0 then [] else ss[0] + Flatten(ss[1..])
  }

  /** `a` can be obtained from `b` by deleting elements, keeping the order. */
  predicate IsSubsequence<T(==)>(a: seq<T>, b: seq<T>)
    decreases |b|
  {
    if |a| == 0 then true
    else if |b| == 0 then false
    else (a[0] == b[0] && IsSubsequence(a[1..], b[1..])) || IsSubsequence(a, b[1..])
  }

  lemma {:induction false} FilterAppend<T>(p: T -> bool, a: seq<T>, b: seq<T>)
    ensures Filter(p, a + b) == Filter(p, a) + Filter(p, b)
    decreases |a|
  {
    if |a| == 0 {
      assert a + b == b;
    } else {
      assert (a + b)[0] == a[0];
      assert (a + b)[1..] == a[1..] + b;
      FilterAppend(p, a[1..], b);
    }
  }

  lemma {:induction false} MapAppend<T, U>(f: T -> U, a: seq<T>, b: seq<T>)
    ensures Map(f, a + b) == Map(f, a) + Map(f, b)
  {
    assert |Map(f, a + b)| == |Map(f, a) + Map(f, b)|;
    forall i | 0 <= i < |a| + |b|
      ensures Map(f, a + b)[i] == (Map(f, a) + Map(f, b))[i]
    {
      if i < |a| {
        assert (a + b)[i] == a[i];
      } else {
        assert (a + b)[i] == b[i - |a|];
      }
    }
  }

  lemma {:induction false} FlattenAppend<T>(a: seq<seq<T>>, b: seq<seq<T>>)
    ensures Flatten(a + b) == Flatten(a) + Flatten(b)
    decreases |a|
  {
    if |a| == 0 {
      assert a + b == b;
    } else {
      assert (a + b)[0] == a[0];
      assert (a + b)[1..] == a[1..] + b;
      FlattenAppend(a[1..], b);
    }
  }

  /** A filter whose predicate holds everywhere keeps the whole sequence. */
  lemma {:induction false} FilterKeepsAll<T>(p: T -> bool, s: seq<T>)
    requires forall i :: 0 <= i < |s| ==> p(s[i])
    ensures Filter(p, s) == s
    decreases |s|
  {
    if |s| > 0 {
      FilterKeepsAll(p, s[1..]);
    }
  }

  /** A filter whose predicate holds nowhere keeps nothing. */
  lemma {:induction false} FilterKeepsNone<T>(p: T -> bool, s: seq<T>)
    requires forall i :: 0 <= i < |s| ==> !p(s[i])
    ensures Filter(p, s) == []
    decreases |s|
  {
    if |s| > 0 {
      FilterKeepsNone(p, s[1..]);
    }
  }

  /** Filtering twice with a stronger predicate after a weaker one is filtering
      once with the stronger one. */
  lemma {:induction false} FilterOfFilter<T>(p: T -> bool, q: T -> bool, s: seq<T>)
    requires forall x :: p(x) ==> q(x)
    ensures Filter(p, Filter(q, s)) == Filter(p, s)
    decreases |s|
  {
    if |s| > 0 {
      FilterOfFilter(p, q, s[1..]);
      var head: seq<T> := if q(s[0]) then [s[0]] else [];
      assert Filter(q, s) == head + Filter(q, s[1..]);
      FilterAppend(p, head, Filter(q, s[1..]));
      if q(s[0]) {
        assert head[1..] == [];
      }
    }
  }

  /** The last element that survives a filter is the last element of the
      input whenever that element passes. */
  lemma FilterLast<T>(p: T -> bool, s: seq<T>)
    requires |s| > 0 && p(s[|s| - 1])
    ensures |Filter(p, s)| > 0 && Filter(p, s)[|Filter(p, s)| - 1] == s[|s| - 1]
  {
    var n := |s|;
    assert s == s[..n - 1] + [s[n - 1]];
    FilterAppend(p, s[..n - 1], [s[n - 1]]);
    assert Filter(p, [s[n - 1]]) == [s[n - 1]];
  }

  /** `x :: b` still contains every subsequence of `b`. */
  lemma SubsequenceCons<T>(a: seq<T>, x: T, b: seq<T>)
    requires IsSubsequence(a, b)
    ensures IsSubsequence(a, [x] + b)
  {
    assert ([x] + b)[1..] == b;
  }

  lemma {:induction false} SubsequenceRefl<T>(s: seq<T>)
    ensures IsSubsequence(s, s)
    decreases |s|
  {
    if |s| > 0 {
      SubsequenceRefl(s[1..]);
    }
  }

  /** Filtering with a predicate that implies another keeps an order-preserving
      subsequence of what the weaker filter keeps. */
  lemma {:induction false} FilterMonotone<T>(p: T -> bool, q: T -> bool, s: seq<T>)
    requires forall x :: p(x) ==> q(x)
    ensures IsSubsequence(Filter(p, s), Filter(q, s))
    decreases |s|
  {
    if |s| > 0 {
      FilterMonotone(p, q, s[1..]);
      var fp, fq := Filter(p, s[1..]), Filter(q, s[1..]);
      if p(s[0]) {
        assert Filter(p, s) == [s[0]] + fp;
        assert Filter(q, s) == [s[0]] + fq;
        assert ([s[0]] + fp)[1..] == fp;
        assert ([s[0]] + fq)[1..] == fq;
      } else if q(s[0]) {
        assert Filter(p, s) == fp;
        assert Filter(q, s) == [s[0]] + fq;
        SubsequenceCons(fp, s[0], fq);
      } else {
        assert Filter(p, s) == fp;
        assert Filter(q, s) == fq;
      }
    }
  }

  /** Every filter output is an order-preserving subsequence of its input. */
  lemma {:induction false} FilterIsSubsequence<T>(p: T -> bool, s: seq<T>)
    ensures IsSubsequence(Filter(p, s), s)
    decreases |s|
  {
    if |s| > 0 {
      FilterIsSubsequence(p, s[1..]);
      var f := Filter(p, s[1..]);
      assert s == [s[0]] + s[1..];
      if p(s[0]) {
        assert Filter(p, s) == [s[0]] + f;
        assert ([s[0]] + f)[1..] == f;
      } else {
        assert Filter(p, s) == f;
        SubsequenceCons(f, s[0], s[1..]);
      }
    }
  }

  /** Three mutually exclusive, jointly exhaustive predicates split a sequence
      into three filters whose sizes add up to the whole. */
  lemma {:induction false} FilterPartition3<T>(p: T -> bool, q: T -> bool, r: T -> bool, s: seq<T>)
    requires forall x :: (p(x) || q(x) || r(x)) && !(p(x) && q(x)) && !(p(x) && r(x)) && !(q(x) && r(x))
    ensures |Filter(p, s)| + |Filter(q, s)| + |Filter(r, s)| == |s|
    decreases |s|
  {
    if |s| > 0 {
      FilterPartition3(p, q, r, s[1..]);
    }
  }
}
