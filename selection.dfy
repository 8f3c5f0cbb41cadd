/** The shape of the extractor's node loop, independent of what one node
    yields: visit a sequence in order, turn each element into an optional
    value, and keep the values that are there. A failed element adds
    nothing and does not stop the visit. */
module Selection {
  import opened Outcomes

  /** The values `f` yields on `xs`, in the order of `xs`. */
  function Select<T, U>(f: T -> Option<U>, xs: seq<T>): (ys: seq<U>)
    ensures |ys| <= |xs|
    decreases |xs|
  {
    if xs == [] then []
    else
      var before := Select(f, xs[..|xs| - 1]);
      match f(xs[|xs| - 1])
      case None => before
      case Some(y) => before + [y]
  }

  /** `idx` lists, in increasing order, exactly the positions of `xs` where
      `f` yields a value, and `ys[k]` is the value yielded at `idx[k]`. */
  ghost predicate SelectedBy<T, U>(f: T -> Option<U>, xs: seq<T>, idx: seq<nat>, ys: seq<U>) {
    |idx| == |ys|
    && (forall k :: 0 <= k < |idx| ==> idx[k] < |xs| && f(xs[idx[k]]) == Some(ys[k]))
    && (forall k, l :: 0 <= k < l < |idx| ==> idx[k] < idx[l])
    && (forall i :: 0 <= i < |xs| && f(xs[i]).Some? ==> i in idx)
  }

  /** Of three elements whose middle one yields nothing, the values of the
      outer two remain, in order. */
  lemma SelectDropsMiddle<T, U>(f: T -> Option<U>, a: T, b: T, c: T)
    requires f(a).Some? && f(b).None? && f(c).Some?
    ensures Select(f, [a, b, c]) == [f(a).value, f(c).value]
  {
    var xs := [a, b, c];
    SelectSkips(f, xs, 1);
    assert xs[..1] == [a] && xs[2..] == [c];
    SelectSingleton(f, a);
    SelectSingleton(f, c);
  }

  /** Selecting over two runs is selecting over each, one after the other. */
  lemma {:induction false} SelectAppend<T, U>(f: T -> Option<U>, a: seq<T>, b: seq<T>)
    ensures Select(f, a + b) == Select(f, a) + Select(f, b)
    decreases |b|
  {
    if b == [] {
      assert a + b == a;
    } else {
      var b' := b[..|b| - 1];
      SelectAppend(f, a, b');
      assert (a + b)[..|a + b| - 1] == a + b';
      assert (a + b)[|a + b| - 1] == b[|b| - 1];
    }
  }

  /** One element contributes its value, if it yields one. */
  lemma SelectSingleton<T, U>(f: T -> Option<U>, x: T)
    ensures Select(f, [x]) == if f(x).Some? then [f(x).value] else []
  {
    assert [x][..0] == [];
  }

  /** An element that yields nothing is as good as absent. */
  lemma SelectSkips<T, U>(f: T -> Option<U>, xs: seq<T>, i: nat)
    requires i < |xs| && f(xs[i]).None?
    ensures Select(f, xs) == Select(f, xs[..i]) + Select(f, xs[i + 1..])
    ensures Select(f, xs) == Select(f, xs[..i] + xs[i + 1..])
  {
    var one, rest := [xs[i]], xs[i + 1..];
    assert Select(f, xs[i..]) == Select(f, rest) by {
      SelectSingleton(f, xs[i]);
      SelectAppend(f, one, rest);
      assert one + rest == xs[i..];
    }
    assert Select(f, xs) == Select(f, xs[..i]) + Select(f, xs[i..]) by {
      assert xs == xs[..i] + xs[i..];
      SelectAppend(f, xs[..i], xs[i..]);
    }
    SelectAppend(f, xs[..i], rest);
  }

  /** `Select` keeps one value per yielding element, in order. */
  lemma {:induction false} SelectIsSelection<T, U>(f: T -> Option<U>, xs: seq<T>)
    ensures exists idx: seq<nat> :: SelectedBy(f, xs, idx, Select(f, xs))
    decreases |xs|
  {
    if xs == [] {
      var none: seq<nat> := [];
      assert SelectedBy(f, xs, none, Select(f, xs));
    } else {
      var n := |xs| - 1;
      SelectIsSelection(f, xs[..n]);
      var idx: seq<nat> :| SelectedBy(f, xs[..n], idx, Select(f, xs[..n]));
      var idx' := SelectionExtend(f, xs, idx, Select(f, xs[..n]));
    }
  }

  /** One more element extends a selection of the elements before it. */
  lemma SelectionExtend<T, U>(f: T -> Option<U>, xs: seq<T>, idx: seq<nat>, ys: seq<U>)
      returns (idx': seq<nat>)
    requires xs != [] && SelectedBy(f, xs[..|xs| - 1], idx, ys)
    ensures SelectedBy(f, xs, idx', ys + (if f(xs[|xs| - 1]).Some? then [f(xs[|xs| - 1]).value] else []))
    ensures ys == Select(f, xs[..|xs| - 1]) ==> SelectedBy(f, xs, idx', Select(f, xs))
  {
    var n := |xs| - 1;
    var prefix := xs[..n];
    assert forall k :: 0 <= k < |idx| ==> xs[idx[k]] == prefix[idx[k]];
    assert forall i :: 0 <= i < n ==> xs[i] == prefix[i];
    if f(xs[n]).Some? {
      idx' := idx + [n];
    } else {
      idx' := idx;
    }
  }

  /** A selection determines its values: they are those of `Select`. */
  lemma {:induction false} SelectionIsSelect<T, U>(f: T -> Option<U>, xs: seq<T>, idx: seq<nat>, ys: seq<U>)
    requires SelectedBy(f, xs, idx, ys)
    ensures ys == Select(f, xs)
    decreases |xs|
  {
    if xs == [] {
      assert |idx| == 0;
    } else {
      var n := |xs| - 1;
      var prefix := xs[..n];
      assert forall i :: 0 <= i < n ==> xs[i] == prefix[i];
      match f(xs[n])
      case None =>
        assert forall k :: 0 <= k < |idx| ==> idx[k] < n by {
          forall k | 0 <= k < |idx| ensures idx[k] < n {
            assert f(xs[idx[k]]).Some?;
          }
        }
        SelectionIsSelect(f, prefix, idx, ys);
      case Some(y) =>
        SelectionDropLast(f, xs, idx, ys);
        var m := |idx| - 1;
        SelectionIsSelect(f, prefix, idx[..m], ys[..m]);
        assert ys == ys[..m] + [y];
    }
  }

  /** When the last element yields a value, it is the last one selected, and
      dropping both leaves a selection of the elements before it. */
  lemma SelectionDropLast<T, U>(f: T -> Option<U>, xs: seq<T>, idx: seq<nat>, ys: seq<U>)
    requires xs != [] && f(xs[|xs| - 1]).Some? && SelectedBy(f, xs, idx, ys)
    ensures |idx| > 0 && ys[|ys| - 1] == f(xs[|xs| - 1]).value
    ensures SelectedBy(f, xs[..|xs| - 1], idx[..|idx| - 1], ys[..|ys| - 1])
  {
    var n := |xs| - 1;
    var prefix := xs[..n];
    assert n in idx;
    var m := |idx| - 1;
    assert idx[m] == n by {
      var k :| 0 <= k < |idx| && idx[k] == n;
      assert k == m;
    }
    assert forall k :: 0 <= k < m ==> idx[k] < n by {
      forall k | 0 <= k < m ensures idx[k] < n { assert idx[k] < idx[m]; }
    }
    assert forall i :: 0 <= i < n ==> xs[i] == prefix[i];
    assert forall i :: 0 <= i < n && f(prefix[i]).Some? ==> i in idx[..m] by {
      forall i | 0 <= i < n && f(prefix[i]).Some? ensures i in idx[..m] {
        assert i in idx;
        var k :| 0 <= k < |idx| && idx[k] == i;
        assert k != m;
        assert idx[..m][k] == i;
      }
    }
  }
}
