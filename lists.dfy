/** Sequences as the model of the ObjectArrayList that
    src/UniversityAllocationManager.java and the entity classes use: `add`
    appends, `remove(obj)` drops the first element identical to `obj` and
    reports whether there was one. */
module Lists {

  /** The list after `remove(x)`: the first occurrence of `x` is dropped,
      and the list is unchanged when there is none. */
  function RemoveFirst<T(==)>(xs: seq<T>, x: T): (r: seq<T>)
    ensures x in xs ==> |r| == |xs| - 1
    ensures x !in xs ==> r == xs
  {
    if xs == [] then []
    else if xs[0] == x then xs[1..]
    else [xs[0]] + RemoveFirst(xs[1..], x)
  }

  /** `xs` with every occurrence of `x` filtered out. */
  function Without<T(==)>(xs: seq<T>, x: T): (r: seq<T>)
    ensures x !in r
  {
    if xs == [] then []
    else if xs[0] == x then Without(xs[1..], x)
    else [xs[0]] + Without(xs[1..], x)
  }

  /** No element occurs twice. */
  predicate NoDup<T(==)>(xs: seq<T>) {
    forall i, j :: 0 <= i < j < |xs| ==> xs[i] != xs[j]
  }

  lemma {:induction false} RemoveFirstMultiset<T>(xs: seq<T>, x: T)
    ensures multiset(RemoveFirst(xs, x)) == multiset(xs) - multiset{x}
  {
    if xs != [] {
      assert xs == [xs[0]] + xs[1..];
      if xs[0] != x {
        RemoveFirstMultiset(xs[1..], x);
      }
    }
  }

  /** Removing keeps the other elements in their relative order. */
  lemma {:induction false} WithoutRemoveFirst<T>(xs: seq<T>, x: T)
    ensures Without(RemoveFirst(xs, x), x) == Without(xs, x)
  {
    if xs != [] && xs[0] != x {
      WithoutRemoveFirst(xs[1..], x);
      assert ([xs[0]] + RemoveFirst(xs[1..], x))[1..] == RemoveFirst(xs[1..], x);
    }
  }

  lemma {:induction false} WithoutAbsent<T>(xs: seq<T>, x: T)
    requires x !in xs
    ensures Without(xs, x) == xs
  {
    if xs != [] {
      WithoutAbsent(xs[1..], x);
      assert xs == [xs[0]] + xs[1..];
    }
  }

  /** Filtering `x` out keeps the multiplicity of every other element. */
  lemma {:induction false} WithoutMultiset<T>(xs: seq<T>, x: T)
    ensures multiset(Without(xs, x)) == multiset(xs)[x := 0]
  {
    if xs != [] {
      WithoutMultiset(xs[1..], x);
      assert xs == [xs[0]] + xs[1..];
    }
  }

  /** Appending then removing the same element gives back the same multiset:
      the list of `assign` then `remove` holds what it held before. */
  lemma {:induction false} RemoveFirstAfterAppend<T>(xs: seq<T>, x: T)
    ensures multiset(RemoveFirst(xs + [x], x)) == multiset(xs)
  {
    RemoveFirstMultiset(xs + [x], x);
  }

  /** Removing the first occurrence cuts the list at that position. */
  lemma {:induction false} RemoveFirstCut<T>(xs: seq<T>, x: T, k: nat)
    requires k < |xs| && xs[k] == x && x !in xs[..k]
    ensures RemoveFirst(xs, x) == xs[..k] + xs[k + 1..]
  {
    if k > 0 {
      assert xs[0] in xs[..k];
      assert xs[1..][..k - 1] == xs[1..k];
      RemoveFirstCut(xs[1..], x, k - 1);
      assert xs[1..][k..] == xs[k + 1..];
      assert xs[..k] == [xs[0]] + xs[1..k];
    }
  }

  lemma RemoveFirstNoDup<T>(xs: seq<T>, x: T)
    requires NoDup(xs)
    ensures NoDup(RemoveFirst(xs, x))
    ensures x !in RemoveFirst(xs, x)
  {
    if x in xs {
      var k :| 0 <= k < |xs| && xs[k] == x;
      RemoveFirstCut(xs, x, k);
      var r := xs[..k] + xs[k + 1..];
      forall i | 0 <= i < |r| ensures r[i] == xs[if i < k then i else i + 1] {
      }
    }
  }

  /** Removing never brings in a new element. */
  lemma RemoveFirstIn<T>(xs: seq<T>, x: T, y: T)
    requires y in RemoveFirst(xs, x)
    ensures y in xs
  {
    RemoveFirstMultiset(xs, x);
    assert y in multiset(RemoveFirst(xs, x));
  }

  /** Removing one occurrence of a listed element: the multiset loses
      exactly that element, and every remaining element was listed. */
  lemma RemoveFirstWithin<T>(xs: seq<T>, x: T, within: set<T>)
    requires x in xs && forall y | y in xs :: y in within
    ensures multiset(xs) == multiset(RemoveFirst(xs, x)) + multiset{x}
    ensures forall y | y in RemoveFirst(xs, x) :: y in within
  {
    RemoveFirstMultiset(xs, x);
    forall y | y in RemoveFirst(xs, x) ensures y in within {
      RemoveFirstIn(xs, x, y);
    }
  }

  /** Filtering never brings in a new element. */
  lemma WithoutIn<T>(xs: seq<T>, x: T, y: T)
    requires y in Without(xs, x)
    ensures y in xs && y != x
  {
    WithoutMultiset(xs, x);
    assert y in multiset(Without(xs, x));
  }

  /** For an element listed at most once, removing its first occurrence
      is the same as filtering it out. */
  lemma RemoveFirstSingle<T>(xs: seq<T>, x: T)
    requires multiset(xs)[x] <= 1
    ensures RemoveFirst(xs, x) == Without(xs, x)
  {
    if x in xs {
      RemoveFirstMultiset(xs, x);
      assert x !in multiset(RemoveFirst(xs, x));
      WithoutRemoveFirst(xs, x);
      WithoutAbsent(RemoveFirst(xs, x), x);
    } else {
      WithoutAbsent(xs, x);
    }
  }

  /** An element listed once has multiplicity one in a list without duplicates. */
  lemma {:induction false} NoDupCount<T>(xs: seq<T>, x: T)
    requires NoDup(xs)
    ensures multiset(xs)[x] <= 1
  {
    if xs != [] {
      assert xs == [xs[0]] + xs[1..];
      assert NoDup(xs[1..]) by {
        forall i, j | 0 <= i < j < |xs[1..]| ensures xs[1..][i] != xs[1..][j] {
          assert xs[1..][i] == xs[i + 1] && xs[1..][j] == xs[j + 1];
        }
      }
      NoDupCount(xs[1..], x);
      if xs[0] == x {
        assert x !in xs[1..] by {
          forall i | 0 <= i < |xs[1..]| ensures xs[1..][i] != x {
            assert xs[1..][i] == xs[i + 1];
          }
        }
      }
    }
  }

  /** An element listed at most once appears neither before nor after its
      position. */
  lemma SingleAt<T>(xs: seq<T>, i: nat)
    requires i < |xs| && multiset(xs)[xs[i]] <= 1
    ensures xs[i] !in xs[..i] && xs[i] !in xs[i + 1..]
  {
    assert xs == xs[..i] + [xs[i]] + xs[i + 1..];
    assert multiset(xs) == multiset(xs[..i]) + multiset{xs[i]} + multiset(xs[i + 1..]);
  }

  /** Filtering keeps a list free of duplicates. */
  lemma {:induction false} WithoutNoDup<T>(xs: seq<T>, x: T)
    requires NoDup(xs)
    ensures NoDup(Without(xs, x))
  {
    if xs != [] {
      var tail := xs[1..];
      assert NoDup(tail) by {
        forall i, j | 0 <= i < j < |tail| ensures tail[i] != tail[j] {
          assert tail[i] == xs[i + 1] && tail[j] == xs[j + 1];
        }
      }
      WithoutNoDup(tail, x);
      if xs[0] != x {
        var w := Without(tail, x);
        assert xs[0] !in tail by {
          forall k | 0 <= k < |tail| ensures tail[k] != xs[0] {
            assert tail[k] == xs[k + 1];
          }
        }
        WithoutMultiset(tail, x);
        assert xs[0] !in multiset(w);
        var r := [xs[0]] + w;
        forall i, j | 0 <= i < j < |r| ensures r[i] != r[j] {
          assert r[j] == w[j - 1] && r[j] in w;
          if i > 0 {
            assert r[i] == w[i - 1];
          }
        }
      }
    }
  }

  /** Removing an element listed exactly once, as removeStaff does on a
      list without duplicates: it is the same as filtering it out, and it
      leaves the list empty exactly when the element was alone. */
  lemma RemoveOnce<T>(xs: seq<T>, x: T)
    requires multiset(xs)[x] == 1
    ensures RemoveFirst(xs, x) == Without(xs, x)
    ensures |RemoveFirst(xs, x)| == 0 <==> xs == [x]
  {
    RemoveFirstSingle(xs, x);
    if |xs| == 1 {
      assert xs[0] in xs;
    }
  }

  /** The prefix one shorter than the next prefix. */
  lemma PrefixOfPrefix<T>(xs: seq<T>, i: nat)
    requires i < |xs|
    ensures xs[..i + 1][..i] == xs[..i] && xs[..i + 1][i] == xs[i]
  {
  }

  /** Appending an element not yet listed keeps the list free of duplicates. */
  lemma NoDupSnoc<T>(xs: seq<T>, x: T)
    requires NoDup(xs) && x !in xs
    ensures NoDup(xs + [x])
  {
    var r := xs + [x];
    forall i, j | 0 <= i < j < |r| ensures r[i] != r[j] {
      if j == |xs| {
        assert r[i] == xs[i];
      }
    }
  }

  /** The pairwise scan of addModule's staff array: every position is
      compared, by identity, with every later one. */
  method FindRepeat<T(==)>(xs: seq<T>) returns (found: bool)
    ensures found <==> !NoDup(xs)
  {
    for i := 0 to |xs|
      invariant forall p, q | 0 <= p < i && p < q < |xs| :: xs[p] != xs[q]
    {
      for j := i + 1 to |xs|
        invariant forall q | i < q < j :: xs[i] != xs[q]
      {
        if xs[i] == xs[j] {
          return true;
        }
      }
    }
    return false;
  }

  /** A list holding exactly one element once is that one-element list. */
  lemma SingletonMultiset<T>(xs: seq<T>, x: T)
    requires multiset(xs) == multiset{x}
    ensures xs == [x]
  {
    assert |multiset(xs)| == 1;
    assert xs[0] in multiset(xs);
  }
}
