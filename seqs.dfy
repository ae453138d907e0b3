/** Order-preserving selection: the shape of every Python loop in the core
    that walks a list and appends a value for some of its elements. */
module Seqs {
  import opened Wrappers

  /** The values `f` gives for the elements of `xs` it maps to `Some`, in
      the order of `xs`. Defined on the prefix, as a loop builds it. */
  function FilterMap<T, U>(xs: seq<T>, f: T -> Option<U>): (r: seq<U>)
    ensures |r| <= |xs|
  {
    if xs == [] then []
    else FilterMap(xs[..|xs| - 1], f) + Emit(f(xs[|xs| - 1]))
  }

  /** What one element contributes: its value, or nothing. */
  function Emit<U>(o: Option<U>): seq<U> {
    match o
    case Some(y) => [y]
    case None => []
  }

  /** The indices of `xs` whose element `f` maps to `Some`, in increasing order. */
  ghost function SomeIndices<T, U>(xs: seq<T>, f: T -> Option<U>): seq<nat>
  {
    if xs == [] then []
    else SomeIndices(xs[..|xs| - 1], f) + (if f(xs[|xs| - 1]).Some? then [|xs| - 1] else [])
  }

  /** `r` holds, in order and one each, the values `f` gives for exactly
      the indices `idx` of `xs`, and `idx` lists every index `f` maps to
      `Some` in strictly increasing order. */
  ghost predicate SelectedAt<T, U>(xs: seq<T>, f: T -> Option<U>, idx: seq<nat>, r: seq<U>) {
    && |r| == |idx|
    && (forall k :: 0 <= k < |idx| ==> idx[k] < |xs| && f(xs[idx[k]]) == Some(r[k]))
    && (forall k, l :: 0 <= k < l < |idx| ==> idx[k] < idx[l])
    && (forall i :: 0 <= i < |xs| ==> (f(xs[i]).Some? <==> i in idx))
  }

  /** FilterMap keeps exactly the elements `f` maps to `Some`, once each,
      in their original order. */
  lemma {:induction false} FilterMapSelects<T, U>(xs: seq<T>, f: T -> Option<U>)
    ensures SelectedAt(xs, f, SomeIndices(xs, f), FilterMap(xs, f))
  {
    if xs != [] {
      var n := |xs| - 1;
      var p := xs[..n];
      FilterMapSelects(p, f);
      var idx, r := SomeIndices(p, f), FilterMap(p, f);
      assert SomeIndices(xs, f) == idx + (if f(xs[n]).Some? then [n] else []);
      assert FilterMap(xs, f) == r + Emit(f(xs[n]));
      forall k | 0 <= k < |idx| ensures idx[k] < n && xs[idx[k]] == p[idx[k]] {
      }
      forall i | 0 <= i < n ensures xs[i] == p[i] && (i in idx <==> f(p[i]).Some?) {
      }
      if f(xs[n]).Some? {
        var idx', r' := idx + [n], r + [f(xs[n]).value];
        assert forall k :: 0 <= k < |idx| ==> idx'[k] == idx[k] && r'[k] == r[k];
        assert forall i :: 0 <= i < |xs| ==> (i in idx' <==> i in idx || i == n);
        assert SelectedAt(xs, f, idx', r');
      } else {
        assert forall i :: 0 <= i < |xs| ==> (i in idx <==> i < n && i in idx);
        assert SelectedAt(xs, f, idx, r);
      }
    }
  }

  /** Nothing is selected exactly when `f` maps every element to `None`. */
  lemma {:induction false} FilterMapEmpty<T, U>(xs: seq<T>, f: T -> Option<U>)
    ensures FilterMap(xs, f) == [] <==> forall i :: 0 <= i < |xs| ==> f(xs[i]).None?
  {
    if xs != [] {
      var n := |xs| - 1;
      FilterMapEmpty(xs[..n], f);
      assert forall i :: 0 <= i < n ==> xs[i] == xs[..n][i];
    }
  }

  /** One more element: the loop step behind FilterMap. */
  lemma FilterMapSnoc<T, U>(xs: seq<T>, i: nat, f: T -> Option<U>)
    requires i < |xs|
    ensures FilterMap(xs[..i + 1], f) == FilterMap(xs[..i], f) + Emit(f(xs[i]))
  {
    assert xs[..i + 1][..i] == xs[..i];
  }

  /** The union of `f` over the elements of `xs`: the shape of a loop that
      adds to a set. Defined on the prefix, as the loop builds it. */
  function UnionOver<T, U>(xs: seq<T>, f: T -> set<U>): set<U> {
    if xs == [] then {}
    else UnionOver(xs[..|xs| - 1], f) + f(xs[|xs| - 1])
  }

  lemma {:induction false} UnionOverMembers<T, U>(xs: seq<T>, f: T -> set<U>, c: U)
    ensures c in UnionOver(xs, f) <==> exists j :: 0 <= j < |xs| && c in f(xs[j])
  {
    if xs != [] {
      var n := |xs| - 1;
      UnionOverMembers(xs[..n], f, c);
      assert forall j :: 0 <= j < n ==> xs[..n][j] == xs[j];
    }
  }

  lemma UnionOverSnoc<T, U>(xs: seq<T>, i: nat, f: T -> set<U>)
    requires i < |xs|
    ensures UnionOver(xs[..i + 1], f) == UnionOver(xs[..i], f) + f(xs[i])
  {
    assert xs[..i + 1][..i] == xs[..i];
  }

  /** A string variable that starts empty and, while still empty, takes the
      value `f` gives for the next element. Defined on the prefix. */
  function FirstNonEmpty<T>(xs: seq<T>, f: T -> string): string {
    if xs == [] then ""
    else
      var e := FirstNonEmpty(xs[..|xs| - 1], f);
      if e == "" then f(xs[|xs| - 1]) else e
  }

  /** It ends as the first non-empty value `f` gives, or "" when there is
      none. */
  lemma {:induction false} FirstNonEmptyIsFirst<T>(xs: seq<T>, f: T -> string)
    ensures var e := FirstNonEmpty(xs, f);
            && (e == "" <==> forall i :: 0 <= i < |xs| ==> f(xs[i]) == "")
            && (e != "" ==> exists i :: && 0 <= i < |xs| && f(xs[i]) == e
                                        && forall j :: 0 <= j < i ==> f(xs[j]) == "")
  {
    if xs != [] {
      var n := |xs| - 1;
      FirstNonEmptyIsFirst(xs[..n], f);
      assert forall i :: 0 <= i < n ==> xs[..n][i] == xs[i];
    }
  }

  lemma FirstNonEmptySnoc<T>(xs: seq<T>, i: nat, f: T -> string)
    requires i < |xs|
    ensures FirstNonEmpty(xs[..i + 1], f) ==
            if FirstNonEmpty(xs[..i], f) == "" then f(xs[i]) else FirstNonEmpty(xs[..i], f)
  {
    assert xs[..i + 1][..i] == xs[..i];
  }

  /** Python's `any(p(x) for x in xs)`, or a flag loop that is set once
      some element satisfies `p`. Defined on the prefix. */
  predicate AnyOf<T>(xs: seq<T>, p: T -> bool) {
    xs != [] && (AnyOf(xs[..|xs| - 1], p) || p(xs[|xs| - 1]))
  }

  lemma {:induction false} AnyOfIff<T>(xs: seq<T>, p: T -> bool)
    ensures AnyOf(xs, p) <==> exists j :: 0 <= j < |xs| && p(xs[j])
  {
    if xs != [] {
      var n := |xs| - 1;
      AnyOfIff(xs[..n], p);
      assert forall j :: 0 <= j < n ==> xs[..n][j] == xs[j];
    }
  }

  lemma AnyOfSnoc<T>(xs: seq<T>, i: nat, p: T -> bool)
    requires i < |xs|
    ensures AnyOf(xs[..i + 1], p) == (AnyOf(xs[..i], p) || p(xs[i]))
  {
    assert xs[..i + 1][..i] == xs[..i];
  }
}
