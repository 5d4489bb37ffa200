/** Optional values, and the filter the program applies wherever it turns a
    list of possibly-missing results into the list of the present ones
    (`[r for r in results if r is not None]`, `[x for x in xs if x]`). */
module Optional {

  /** Python's `None` or a present value. */
  datatype Option<+T> = None | Some(value: T)

  /** The values carried by the `Some` entries of `xs`, in their order in `xs`. */
  function KeepSome<T>(xs: seq<Option<T>>): (r: seq<T>)
    ensures |r| <= |xs|
    ensures forall k :: 0 <= k < |r| ==> Some(r[k]) in xs
    ensures forall i :: 0 <= i < |xs| && xs[i].Some? ==> xs[i].value in r
  {
    if |xs| == 0 then []
    else
      var init := KeepSome(xs[..|xs| - 1]);
      assert xs == xs[..|xs| - 1] + [xs[|xs| - 1]];
      match xs[|xs| - 1]
      case None => init
      case Some(v) => init + [v]
  }

  /** The positions of the `Some` entries of `xs`, in increasing order. */
  function SomePositions<T>(xs: seq<Option<T>>): seq<nat>
  {
    if |xs| == 0 then []
    else if xs[|xs| - 1].Some? then SomePositions(xs[..|xs| - 1]) + [|xs| - 1]
    else SomePositions(xs[..|xs| - 1])
  }

  /** `ps` lists, strictly increasing, exactly the positions of the `Some`
      entries of `xs`, and `r` holds their values in that order. */
  ghost predicate SelectsSome<T>(xs: seq<Option<T>>, ps: seq<nat>, r: seq<T>)
  {
    && |ps| == |r|
    && (forall k :: 0 <= k < |ps| ==> ps[k] < |xs| && xs[ps[k]] == Some(r[k]))
    && (forall k, l :: 0 <= k < l < |ps| ==> ps[k] < ps[l])
    && (forall i :: 0 <= i < |xs| && xs[i].Some? ==> i in ps)
  }

  /** The filter keeps every present value, drops every missing one, and
      keeps the survivors in their original order. */
  lemma {:induction false} KeepSomeIsOrderedSelection<T>(xs: seq<Option<T>>)
    ensures SelectsSome(xs, SomePositions(xs), KeepSome(xs))
  {
    if |xs| > 0 {
      var init := xs[..|xs| - 1];
      KeepSomeIsOrderedSelection(init);
      var ps, r := SomePositions(init), KeepSome(init);
      if xs[|xs| - 1].Some? {
        SelectsSomeExtendPresent(xs, ps, r);
      } else {
        SelectsSomeExtendMissing(xs, ps, r);
      }
    }
  }

  lemma SelectsSomeExtendPresent<T>(xs: seq<Option<T>>, ps: seq<nat>, r: seq<T>)
    requires |xs| > 0 && xs[|xs| - 1].Some?
    requires SelectsSome(xs[..|xs| - 1], ps, r)
    ensures SelectsSome(xs, ps + [|xs| - 1], r + [xs[|xs| - 1].value])
  {
    var init := xs[..|xs| - 1];
    var ps' := ps + [|xs| - 1];
    assert forall k :: 0 <= k < |ps| ==> ps[k] < |init| && xs[ps[k]] == init[ps[k]];
    forall i | 0 <= i < |xs| && xs[i].Some?
      ensures i in ps'
    {
      if i < |xs| - 1 {
        assert init[i] == xs[i];
        assert i in ps;
      } else {
        assert ps'[|ps|] == i;
      }
    }
  }

  lemma SelectsSomeExtendMissing<T>(xs: seq<Option<T>>, ps: seq<nat>, r: seq<T>)
    requires |xs| > 0 && xs[|xs| - 1].None?
    requires SelectsSome(xs[..|xs| - 1], ps, r)
    ensures SelectsSome(xs, ps, r)
  {
    var init := xs[..|xs| - 1];
    assert forall k :: 0 <= k < |ps| ==> ps[k] < |init| && xs[ps[k]] == init[ps[k]];
    forall i | 0 <= i < |xs| && xs[i].Some?
      ensures i in ps
    {
      assert i < |xs| - 1 && init[i] == xs[i];
    }
  }

  /** Filtering a concatenation filters each part independently. */
  lemma {:induction false} KeepSomeAppend<T>(a: seq<Option<T>>, b: seq<Option<T>>)
    ensures KeepSome(a + b) == KeepSome(a) + KeepSome(b)
    decreases |b|
  {
    if |b| > 0 {
      var b' := b[..|b| - 1];
      assert (a + b)[..|a + b| - 1] == a + b';
      KeepSomeAppend(a, b');
    } else {
      assert a + b == a;
    }
  }

  /** Filtering one more entry appends its value, if it has one. */
  lemma KeepSomeSnoc<T>(xs: seq<Option<T>>, x: Option<T>)
    ensures KeepSome(xs + [x]) == KeepSome(xs) + (if x.Some? then [x.value] else [])
  {
    assert (xs + [x])[..|xs|] == xs;
  }

  /** Nothing is dropped exactly when every entry is present. */
  lemma {:induction false} KeepSomeKeepsAll<T>(xs: seq<Option<T>>)
    ensures |KeepSome(xs)| == |xs| <==> forall i :: 0 <= i < |xs| ==> xs[i].Some?
  {
    if |xs| > 0 {
      var init := xs[..|xs| - 1];
      KeepSomeKeepsAll(init);
      assert forall i :: 0 <= i < |init| ==> init[i] == xs[i];
    }
  }
}
