/** Small shared vocabulary: optional values, error-carrying results,
    Go channels as registry keys, and a set-to-list helper used wherever
    the source ranges over a map's keys and appends them to a slice. */
module Common {

  datatype Option<+T> = None | Some(value: T)

  datatype Result<+T, +E> = Ok(value: T) | Err(error: E)

  /** The `error` return of a Go function that returns nothing else: nil is Pass. */
  datatype Outcome<+E> = Pass | Fail(error: E)

  /** A Go channel value: nil, or one particular channel (told apart by an identity). */
  datatype Chan = NilChan | Chan(id: nat)

  /** The elements of `xs` as a set. */
  function Elements<T>(xs: seq<T>): set<T>
  {
    set i | 0 <= i < |xs| :: xs[i]
  }

  /** The set holds exactly the members of the list. */
  lemma ElementsMembers<T>(xs: seq<T>)
    ensures forall x :: x in Elements(xs) <==> x in xs
  {
    forall x | x in xs
      ensures x in Elements(xs)
    {
      var i :| 0 <= i < |xs| && xs[i] == x;
    }
  }

  lemma ElementsAppend<T>(xs: seq<T>, x: T)
    ensures Elements(xs + [x]) == Elements(xs) + {x}
  {
    assert forall i :: 0 <= i < |xs| ==> (xs + [x])[i] == xs[i];
    assert (xs + [x])[|xs|] == x;
  }

  /** One more element of a list adds it to the set of its prefix. */
  lemma ElementsPrefix<T>(xs: seq<T>, i: nat)
    requires i < |xs|
    ensures Elements(xs[..i + 1]) == Elements(xs[..i]) + {xs[i]}
  {
    assert xs[..i + 1] == xs[..i] + [xs[i]];
    ElementsAppend(xs[..i], xs[i]);
  }

  lemma ElementsEmpty<T>(xs: seq<T>)
    ensures Elements(xs) == {} <==> xs == []
  {
    if xs != [] {
      assert xs[0] in Elements(xs);
    }
  }

  /** No element of `xs` occurs twice. */
  predicate Distinct<T(==)>(xs: seq<T>)
  {
    forall i, j :: 0 <= i < j < |xs| ==> xs[i] != xs[j]
  }

  lemma ElementsConcat<T>(xs: seq<T>, ys: seq<T>)
    ensures Elements(xs + ys) == Elements(xs) + Elements(ys)
  {
    forall x | x in Elements(ys)
      ensures x in Elements(xs + ys)
    {
      var j :| 0 <= j < |ys| && ys[j] == x;
      assert (xs + ys)[|xs| + j] == x;
    }
    forall x | x in Elements(xs)
      ensures x in Elements(xs + ys)
    {
      var j :| 0 <= j < |xs| && xs[j] == x;
      assert (xs + ys)[j] == x;
    }
  }

  /** A list that starts with `front` is `front` followed by the rest. */
  lemma SplitAfter<T>(xs: seq<T>, front: seq<T>)
    requires |front| <= |xs| && xs[..|front|] == front
    ensures xs == front + xs[|front|..]
  {
  }

  lemma ConcatAssoc<T>(xs: seq<T>, ys: seq<T>, zs: seq<T>)
    ensures (xs + ys) + zs == xs + (ys + zs)
  {
  }

  lemma SlicesOfConcat<T>(xs: seq<T>, ys: seq<T>)
    ensures (xs + ys)[..|xs|] == xs && (xs + ys)[|xs|..] == ys
  {
  }

  /** In a list without repeats, an element does not occur before its own position. */
  lemma DistinctNotBefore<T>(xs: seq<T>, i: nat)
    requires Distinct(xs) && i < |xs|
    ensures xs[i] !in Elements(xs[..i])
  {
    forall m | 0 <= m < i
      ensures xs[..i][m] != xs[i]
    {
      assert xs[..i][m] == xs[m];
    }
  }

  /** Two lists without repeats and with no element in common concatenate to one without repeats. */
  lemma DistinctAppend<T>(xs: seq<T>, ys: seq<T>)
    requires Distinct(xs) && Distinct(ys) && Elements(xs) !! Elements(ys)
    ensures Distinct(xs + ys)
  {
    forall i, j | 0 <= i < j < |xs + ys|
      ensures (xs + ys)[i] != (xs + ys)[j]
    {
      if i < |xs| && j >= |xs| {
        assert (xs + ys)[i] in Elements(xs);
        assert (xs + ys)[j] == ys[j - |xs|] && ys[j - |xs|] in Elements(ys);
      }
    }
  }

  /** A list without repeats has as many elements as its set. */
  lemma {:induction false} DistinctCard<T>(xs: seq<T>)
    requires Distinct(xs)
    ensures |Elements(xs)| == |xs|
  {
    if xs != [] {
      var front := xs[..|xs| - 1];
      assert xs == front + [xs[|xs| - 1]];
      DistinctCard(front);
      ElementsAppend(front, xs[|xs| - 1]);
      assert xs[|xs| - 1] !in Elements(front);
    }
  }

  /** Ranges over a Go map's keys (given as the set `s`) in an unspecified order,
      appending each key to a list: every key ends up in the list exactly once. */
  method ListOf<T(==)>(s: set<T>) returns (xs: seq<T>)
    ensures Elements(xs) == s
    ensures Distinct(xs)
    ensures |xs| == |s|
  {
    xs := [];
    var todo := s;
    while todo != {}
      invariant todo <= s
      invariant Elements(xs) == s - todo
      invariant Distinct(xs)
      invariant |xs| + |todo| == |s|
      decreases |todo|
    {
      var x :| x in todo;
      assert x !in Elements(xs);
      ElementsAppend(xs, x);
      xs := xs + [x];
      todo := todo - {x};
    }
  }
}
