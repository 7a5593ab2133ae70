/** The host language's `sorted`, over any total preorder. */
module Sorting {

  ghost predicate TotalPreorder<T(!new)>(le: (T, T) -> bool) {
    && (forall a, b :: le(a, b) || le(b, a))
    && (forall a, b, c :: le(a, b) && le(b, c) ==> le(a, c))
  }

  ghost predicate Ascending<T(!new)>(s: seq<T>, le: (T, T) -> bool) {
    forall i, j :: 0 <= i < j < |s| ==> le(s[i], s[j])
  }

  ghost predicate Distinct<T(!new)>(s: seq<T>) {
    forall i, j :: 0 <= i < j < |s| ==> s[i] != s[j]
  }

  function Insert<T(!new)>(x: T, s: seq<T>, le: (T, T) -> bool): (r: seq<T>)
    requires TotalPreorder(le) && Ascending(s, le)
    ensures Ascending(r, le) && |r| == |s| + 1
    ensures forall y :: y in r <==> y == x || y in s
    ensures x !in s && Distinct(s) ==> Distinct(r)
  {
    if s == [] then [x]
    else if le(x, s[0]) then [x] + s
    else
      var rest := Insert(x, s[1..], le);
      assert forall y :: y in s <==> y == s[0] || y in s[1..];
      assert forall y <- rest :: le(s[0], y);
      assert Distinct(s) ==> Distinct(s[1..]) && s[0] !in s[1..];
      [s[0]] + rest
  }

  function Sorted<T(!new)>(s: seq<T>, le: (T, T) -> bool): (r: seq<T>)
    requires TotalPreorder(le)
    ensures Ascending(r, le) && |r| == |s|
    ensures forall y :: y in r <==> y in s
    ensures Distinct(s) ==> Distinct(r)
  {
    if s == [] then []
    else
      assert forall y :: y in s <==> y == s[0] || y in s[1..];
      Insert(s[0], Sorted(s[1..], le), le)
  }

  lemma {:induction false} DistinctSize<T(!new)>(s: seq<T>)
    requires Distinct(s)
    ensures |set t | t in s| == |s|
  {
    if s != [] {
      var n := |s| - 1;
      DistinctSize(s[..n]);
      assert (set t | t in s) == (set t | t in s[..n]) + {s[n]};
      assert s[n] !in s[..n];
    }
  }

  /** The members of a set, each once, in some order. */
  method Listing<T(==, !new)>(values: set<T>) returns (listed: seq<T>)
    ensures Distinct(listed) && |listed| == |values|
    ensures forall x :: x in listed <==> x in values
  {
    listed := [];
    var rest := values;
    while rest != {}
      invariant rest <= values && Distinct(listed) && |listed| + |rest| == |values|
      invariant forall x :: x in listed <==> x in values - rest
      decreases |rest|
    {
      var x :| x in rest;
      assert x !in listed;
      listed := listed + [x];
      rest := rest - {x};
    }
  }

  // ---------------------------------------------------------------- strings

  /** Code-point order, the order Python sorts strings by. */
  predicate StringLe(a: string, b: string) {
    a == "" || (b != "" && (a[0] < b[0] || (a[0] == b[0] && StringLe(a[1..], b[1..]))))
  }

  /** A prefix comes first, and otherwise the first difference decides. */
  lemma {:induction false} StringLeIs(a: string, b: string)
    ensures StringLe(a, b) <==> a <= b || exists i :: FirstDifference(a, b, i) && a[i] < b[i]
  {
    if a != "" && b != "" && a[0] == b[0] {
      StringLeIs(a[1..], b[1..]);
      assert a == [a[0]] + a[1..] && b == [b[0]] + b[1..];
      assert a <= b <==> a[1..] <= b[1..];
      hide FirstDifference;
      if i :| FirstDifference(a, b, i) && a[i] < b[i] {
        DifferenceMoves(a, b, i - 1);
      }
      if i :| FirstDifference(a[1..], b[1..], i) && a[1..][i] < b[1..][i] {
        DifferenceMoves(a, b, i);
      }
    } else if a != "" && b != "" {
      assert FirstDifference(a, b, 0);
      forall i
        ensures FirstDifference(a, b, i) ==> i == 0
      {
        AgreeAtStart(a, b, i);
      }
    }
  }

  lemma AgreeAtStart(a: string, b: string, i: int)
    ensures FirstDifference(a, b, i) && i > 0 ==> a[0] == b[0]
  {
    if FirstDifference(a, b, i) && i > 0 {
      assert a[0] == a[..i][0] && b[0] == b[..i][0];
    }
  }

  lemma DifferenceMoves(a: string, b: string, i: int)
    requires a != "" && b != "" && a[0] == b[0]
    ensures FirstDifference(a, b, i + 1) <==> FirstDifference(a[1..], b[1..], i)
    ensures FirstDifference(a, b, i + 1) ==> a[i + 1] == a[1..][i] && b[i + 1] == b[1..][i]
    ensures !FirstDifference(a, b, 0)
  {
    if 0 <= i < |a| - 1 && i < |b| - 1 {
      assert a[..i + 1] == [a[0]] + a[1..][..i] && b[..i + 1] == [b[0]] + b[1..][..i];
      assert a[1..][..i] == a[..i + 1][1..] && b[1..][..i] == b[..i + 1][1..];
    }
  }

  /** The texts agree up to here and differ here. */
  ghost predicate FirstDifference(a: string, b: string, i: int) {
    0 <= i < |a| && i < |b| && a[..i] == b[..i] && a[i] != b[i]
  }

  lemma {:induction false} StringTotal(a: string, b: string)
    ensures StringLe(a, b) || StringLe(b, a)
    ensures StringLe(a, b) && StringLe(b, a) ==> a == b
  {
    if a != "" && b != "" && a[0] == b[0] {
      StringTotal(a[1..], b[1..]);
      assert a == [a[0]] + a[1..] && b == [b[0]] + b[1..];
    }
  }

  lemma {:induction false} StringTransitive(a: string, b: string, c: string)
    requires StringLe(a, b) && StringLe(b, c)
    ensures StringLe(a, c)
  {
    if a != "" && a[0] == b[0] && b[0] == c[0] {
      StringTransitive(a[1..], b[1..], c[1..]);
    }
  }

  function ByText(): (string, string) -> bool {
    (a: string, b: string) => StringLe(a, b)
  }

  lemma ByTextIsOrder()
    ensures TotalPreorder(ByText())
  {
    forall a, b
      ensures ByText()(a, b) || ByText()(b, a)
    {
      StringTotal(a, b);
    }
    forall a, b, c | ByText()(a, b) && ByText()(b, c)
      ensures ByText()(a, c)
    {
      StringTransitive(a, b, c);
    }
  }

  /** Sorted without repeats, so the only list with its members. */
  ghost predicate Strict(s: seq<string>) {
    forall i, j :: 0 <= i < j < |s| ==> StringLe(s[i], s[j]) && s[i] != s[j]
  }

  /** `sorted(a_set)`. */
  method SortedSet(values: set<string>) returns (r: seq<string>)
    ensures Strict(r)
    ensures forall x :: x in r <==> x in values
  {
    ByTextIsOrder();
    var listed := Listing(values);
    r := Sorted(listed, ByText());
    assert forall i, j :: 0 <= i < j < |r| ==> ByText()(r[i], r[j]);
  }

  lemma BothEmpty(a: seq<string>, b: seq<string>)
    requires forall x :: x in a <==> x in b
    ensures |a| == 0 <==> |b| == 0
  {
    if |a| > 0 {
      assert a[0] in b;
    }
    if |b| > 0 {
      assert b[0] in a;
    }
  }

  /** Sorted lists without repeats are equal as soon as their members are. */
  lemma {:induction false} StrictIsUnique(a: seq<string>, b: seq<string>)
    requires Strict(a) && Strict(b) && forall x :: x in a <==> x in b
    ensures a == b
  {
    BothEmpty(a, b);
    if a != [] {
      assert a[0] in b && b[0] in a;
      StringTotal(a[0], b[0]);
      assert a[0] == b[0];
      forall x
        ensures x in a[1..] <==> x in b[1..]
      {
        assert x in a <==> x == a[0] || x in a[1..];
        assert x in b <==> x == b[0] || x in b[1..];
        assert a[0] !in a[1..] && b[0] !in b[1..];
      }
      StrictIsUnique(a[1..], b[1..]);
    }
  }
}
