/** Go's sort.Strings and sort.Slice: any sort by a strict total order gives the
    same sequence, so one is written out here. */
module Sorting {
  import opened Common

  /** Go's string order. */
  predicate CharsLess(a: string, b: string) {
    if b == [] then false
    else if a == [] then true
    else a[0] < b[0] || (a[0] == b[0] && CharsLess(a[1..], b[1..]))
  }

  /** At k the texts differ for the first time, and a is the smaller: it ends, or
      has the smaller character. */
  predicate FirstDifference(a: string, b: string, k: nat) {
    && k <= |a| && k < |b| && a[..k] == b[..k]
    && (k == |a| || a[k] < b[k])
  }

  /** The order of texts: by the first difference. */
  lemma {:induction false} CharsLessIs(a: string, b: string)
    ensures CharsLess(a, b) <==> exists k :: FirstDifference(a, b, k)
    decreases |a|
  {
    if b == [] {
    } else if a == [] {
      assert FirstDifference(a, b, 0);
    } else {
      CharsLessIs(a[1..], b[1..]);
      assert a == [a[0]] + a[1..] && b == [b[0]] + b[1..];
      if a[0] < b[0] {
        assert FirstDifference(a, b, 0);
      }
      if k: nat :| a[0] == b[0] && FirstDifference(a[1..], b[1..], k) {
        assert a[..k + 1] == [a[0]] + a[1..][..k] && b[..k + 1] == [b[0]] + b[1..][..k];
        assert FirstDifference(a, b, k + 1);
      }
      if k: nat :| k > 0 && FirstDifference(a, b, k) {
        assert a[0] == a[..k][0] == b[..k][0] == b[0];
        assert a[1..][..k - 1] == a[..k][1..] && b[1..][..k - 1] == b[..k][1..];
        assert FirstDifference(a[1..], b[1..], k - 1);
      }
    }
  }

  lemma {:induction false} CharsTotal(a: string, b: string)
    ensures !CharsLess(a, a)
    ensures CharsLess(a, b) || CharsLess(b, a) || a == b
    decreases |a|
  {
    if a != [] && b != [] {
      assert a == [a[0]] + a[1..] && b == [b[0]] + b[1..];
      CharsTotal(a[1..], b[1..]);
    } else if a != [] {
      CharsTotal(a[1..], []);
    }
  }

  lemma {:induction false} CharsTransitive(a: string, b: string, c: string)
    requires CharsLess(a, b) && CharsLess(b, c)
    ensures CharsLess(a, c)
    decreases |a|
  {
    if a != [] && a[0] == b[0] == c[0] {
      CharsTransitive(a[1..], b[1..], c[1..]);
    }
  }

  ghost predicate StrictOrder<T(!new)>(less: (T, T) -> bool) {
    && (forall x :: !less(x, x))
    && (forall x, y :: less(x, y) || less(y, x) || x == y)
    && (forall x, y, z :: less(x, y) && less(y, z) ==> less(x, z))
  }

  lemma CharsOrder()
    ensures StrictOrder(CharsLess)
  {
    forall x, y ensures !CharsLess(x, x) && (CharsLess(x, y) || CharsLess(y, x) || x == y) { CharsTotal(x, y); }
    forall x, y, z | CharsLess(x, y) && CharsLess(y, z) ensures CharsLess(x, z) { CharsTransitive(x, y, z); }
  }

  predicate Sorted<T(!new)>(less: (T, T) -> bool, s: seq<T>) {
    forall i, j :: 0 <= i < j < |s| ==> !less(s[j], s[i])
  }

  lemma SameHead<T(!new)>(less: (T, T) -> bool, s: seq<T>, t: seq<T>)
    requires StrictOrder(less) && Sorted(less, s) && Sorted(less, t) && multiset(s) == multiset(t)
    requires s != [] && t != []
    ensures s[0] == t[0]
  {
    assert s[0] in multiset(t) && t[0] in multiset(s);
    var i :| 0 <= i < |t| && t[i] == s[0];
    var j :| 0 <= j < |s| && s[j] == t[0];
    assert !less(t[i], t[0]) || i == 0;
    assert !less(s[j], s[0]) || j == 0;
  }

  lemma DropHead<T>(s: seq<T>)
    requires s != []
    ensures s == [s[0]] + s[1..] && multiset(s[1..]) == multiset(s) - multiset{s[0]}
  {
    assert s == [s[0]] + s[1..];
  }

  lemma SortedTail<T(!new)>(less: (T, T) -> bool, s: seq<T>)
    requires Sorted(less, s) && s != []
    ensures Sorted(less, s[1..])
  {
  }

  /** However it sorts, a sort has only one result. */
  lemma {:induction false} SortedUnique<T(!new)>(less: (T, T) -> bool, s: seq<T>, t: seq<T>)
    requires StrictOrder(less) && Sorted(less, s) && Sorted(less, t) && multiset(s) == multiset(t)
    ensures s == t
  {
    hide StrictOrder, Sorted;
    if s == [] {
      assert |multiset(t)| == 0;
    } else {
      assert |multiset(s)| == |multiset(t)|;
      SameHead(less, s, t);
      DropHead(s);
      DropHead(t);
      SortedTail(less, s);
      SortedTail(less, t);
      SortedUnique(less, s[1..], t[1..]);
    }
  }

  function Insert<T>(less: (T, T) -> bool, x: T, s: seq<T>): seq<T> {
    if s == [] then [x]
    else if less(x, s[0]) then [x] + s
    else [s[0]] + Insert(less, x, s[1..])
  }

  function SortBy<T>(less: (T, T) -> bool, s: seq<T>): seq<T> {
    if s == [] then [] else Insert(less, s[0], SortBy(less, s[1..]))
  }

  lemma {:induction false} InsertSorts<T(!new)>(less: (T, T) -> bool, x: T, s: seq<T>)
    requires StrictOrder(less) && Sorted(less, s)
    ensures multiset(Insert(less, x, s)) == multiset(s) + multiset{x}
    ensures Sorted(less, Insert(less, x, s))
  {
    if s == [] {
    } else {
      assert s == [s[0]] + s[1..];
      if less(x, s[0]) {
        var head := s[0];
        forall j | 0 <= j < |s| ensures !less(s[j], x) {
          var y := s[j];
          assert less(y, x) ==> less(y, head);
        }
      } else {
        InsertSorts(less, x, s[1..]);
        var r := Insert(less, x, s[1..]);
        forall j | 0 <= j < |r| ensures !less(r[j], s[0]) {
          assert r[j] in multiset(r);
          assert r[j] == x || r[j] in s[1..];
        }
      }
    }
  }

  lemma {:induction false} SortBySorts<T(!new)>(less: (T, T) -> bool, s: seq<T>)
    requires StrictOrder(less)
    ensures multiset(SortBy(less, s)) == multiset(s) && Sorted(less, SortBy(less, s))
  {
    if s == [] {
    } else {
      assert s == [s[0]] + s[1..];
      SortBySorts(less, s[1..]);
      InsertSorts(less, s[0], SortBy(less, s[1..]));
    }
  }

  // ---- the keys of a map, sorted ----

  /** Walk a map's keys in an order the language leaves open. */
  method CollectNames(services: set<string>) returns (names: seq<string>)
    ensures multiset(names) == multiset(services)
  {
    names := [];
    var rest := services;
    while rest != {}
      invariant rest <= services && multiset(names) == multiset(services - rest)
      decreases rest
    {
      var s :| s in rest;
      assert services - (rest - {s}) == (services - rest) + {s};
      rest := rest - {s};
      names := names + [s];
    }
    assert services - rest == services;
  }

  lemma SameNames(services: set<string>, names: seq<string>, order: seq<string>)
    requires multiset(names) == multiset(services) == multiset(order)
    ensures |order| == |services| && (forall s :: s in order <==> s in services)
    ensures Distinct(order)
  {
    assert |multiset(order)| == |order| && |multiset(services)| == |services|;
    forall s ensures s in order <==> s in services {
      assert s in multiset(order) <==> s in multiset(services);
    }
    CountsDistinct(order);
  }

  /** Collect the keys and sort them. */
  method SortedNames(services: set<string>) returns (order: seq<string>)
    ensures |order| == |services| && Distinct(order) && Sorted(CharsLess, order)
    ensures forall s :: s in order <==> s in services
  {
    hide CharsLess, SortBy, StrictOrder, Sorted;
    var names := CollectNames(services);
    CharsOrder();
    SortBySorts(CharsLess, names);
    order := SortBy(CharsLess, names);
    SameNames(services, names, order);
  }

  /** Sorting keeps the names and their number. */
  lemma SortKeeps(s: seq<string>)
    ensures var r := SortBy(CharsLess, s); Sorted(CharsLess, r) && Items(r) == Items(s) && (Distinct(s) ==> Distinct(r))
  {
    CharsOrder();
    SortBySorts(CharsLess, s);
    var r := SortBy(CharsLess, s);
    assert forall x :: (x in r <==> x in multiset(r)) && (x in s <==> x in multiset(s));
    if Distinct(s) {
      DistinctCounts(s);
      CountsDistinct(r);
    }
  }

  lemma NoItems()
    ensures Items<string>([]) == {}
  {
    assert forall x: string :: x !in Items<string>([]);
  }

  lemma OneMoreItem(names: seq<string>, i: nat)
    requires i < |names| && Distinct(names)
    ensures names[i] !in Items(names[..i]) && Items(names[..i + 1]) == Items(names[..i]) + {names[i]}
  {
    assert names[..i + 1] == names[..i] + [names[i]];
  }

  lemma CountsDistinct(s: seq<string>)
    requires forall x :: multiset(s)[x] <= 1
    ensures Distinct(s)
  {
    forall i, j | 0 <= i < j < |s| ensures s[i] != s[j] {
      assert s == s[..j] + s[j..] && s[..j][i] == s[i] && s[j..][0] == s[j];
      assert multiset(s) == multiset(s[..j]) + multiset(s[j..]);
      assert s[i] in multiset(s[..j]) && s[j] in multiset(s[j..]);
      assert multiset(s)[s[i]] == multiset(s[..j])[s[i]] + multiset(s[j..])[s[i]];
    }
  }

  lemma {:induction false} DistinctCounts(s: seq<string>)
    requires Distinct(s)
    ensures forall x :: multiset(s)[x] <= 1
  {
    if s == [] {
    } else {
      var init, last := s[..|s| - 1], s[|s| - 1];
      assert s == init + [last];
      DistinctCounts(init);
      assert last !in init;
    }
  }
}
