/** The list derivation the component runs on every render: keep the fetched products whose
    name contains the search term, sort a copy newest first, and cut out the current page. */
module ProductList {
  import opened Text
  import opened Paging

  /** A product as far as the list logic looks at it: its name and its creation time. */
  datatype Product = Product(name: string, createdAt: int)

  /** `filter`: the elements of `s` that satisfy `keep`, in their original order. */
  function Filter<T(!new)>(s: seq<T>, keep: T -> bool): (r: seq<T>)
    ensures |r| <= |s|
    ensures forall x :: x in r <==> x in s && keep(x)
  {
    if s == [] then []
    else
      var init, last := Filter(s[..|s| - 1], keep), s[|s| - 1];
      assert s == s[..|s| - 1] + [last];
      if keep(last) then init + [last] else init
  }

  /** The positions of `s` that `Filter` keeps, in increasing order. */
  function KeptPositions<T>(s: seq<T>, keep: T -> bool): seq<int>
  {
    if s == [] then []
    else KeptPositions(s[..|s| - 1], keep) + (if keep(s[|s| - 1]) then [|s| - 1] else [])
  }

  /** `Filter` selects an order-preserving subsequence: its k-th element is the element of `s`
      at the k-th kept position, the kept positions increase, and a position is kept exactly
      when its element satisfies `keep`. */
  lemma FilterIsOrderedSelection<T(!new)>(s: seq<T>, keep: T -> bool)
    ensures var r, pos := Filter(s, keep), KeptPositions(s, keep);
      |pos| == |r| &&
      (forall k :: 0 <= k < |pos| ==> 0 <= pos[k] < |s| && r[k] == s[pos[k]]) &&
      (forall k, l :: 0 <= k < l < |pos| ==> pos[k] < pos[l]) &&
      (forall i :: 0 <= i < |s| ==> (i in pos <==> keep(s[i])))
  {
    FilterTakesKeptPositions(s, keep);
    KeptPositionsIncrease(s, keep);
    KeptPositionsExact(s, keep);
  }

  /** The k-th element of `Filter` is the element at the k-th kept position. */
  lemma {:induction false} FilterTakesKeptPositions<T(!new)>(s: seq<T>, keep: T -> bool)
    ensures |KeptPositions(s, keep)| == |Filter(s, keep)|
    ensures forall k :: 0 <= k < |KeptPositions(s, keep)| ==>
              0 <= KeptPositions(s, keep)[k] < |s| && Filter(s, keep)[k] == s[KeptPositions(s, keep)[k]]
  {
    if s != [] {
      var n := |s| - 1;
      var init := s[..n];
      FilterTakesKeptPositions(init, keep);
      var r0, pos0 := Filter(init, keep), KeptPositions(init, keep);
      var r, pos := Filter(s, keep), KeptPositions(s, keep);
      assert pos == pos0 + (if keep(s[n]) then [n] else []);
      assert r == r0 + (if keep(s[n]) then [s[n]] else []);
      forall k | 0 <= k < |pos|
        ensures 0 <= pos[k] < |s| && r[k] == s[pos[k]]
      {
        if k < |pos0| {
          assert pos[k] == pos0[k] && r[k] == r0[k] && init[pos0[k]] == s[pos0[k]];
        }
      }
    }
  }

  /** The kept positions lie inside the list and increase strictly. */
  lemma {:induction false} KeptPositionsIncrease<T>(s: seq<T>, keep: T -> bool)
    ensures forall k :: 0 <= k < |KeptPositions(s, keep)| ==> 0 <= KeptPositions(s, keep)[k] < |s|
    ensures forall k, l :: 0 <= k < l < |KeptPositions(s, keep)| ==>
              KeptPositions(s, keep)[k] < KeptPositions(s, keep)[l]
  {
    if s != [] {
      var n := |s| - 1;
      var init := s[..n];
      KeptPositionsIncrease(init, keep);
      var pos0 := KeptPositions(init, keep);
      var pos := KeptPositions(s, keep);
      assert pos == pos0 + (if keep(s[n]) then [n] else []);
      forall k | 0 <= k < |pos|
        ensures 0 <= pos[k] < |s|
      {
        if k < |pos0| {
          assert pos[k] == pos0[k];
        }
      }
      forall k, l | 0 <= k < l < |pos|
        ensures pos[k] < pos[l]
      {
        assert pos[k] == pos0[k];
        if l < |pos0| {
          assert pos[l] == pos0[l];
        }
      }
    }
  }

  /** A position is kept exactly when its element satisfies `keep`. */
  lemma {:induction false} KeptPositionsExact<T>(s: seq<T>, keep: T -> bool)
    ensures forall i :: 0 <= i < |s| ==> (i in KeptPositions(s, keep) <==> keep(s[i]))
  {
    if s != [] {
      var n := |s| - 1;
      var init := s[..n];
      KeptPositionsExact(init, keep);
      KeptPositionsIncrease(init, keep);
      var pos0 := KeptPositions(init, keep);
      var pos := KeptPositions(s, keep);
      assert pos == pos0 + (if keep(s[n]) then [n] else []);
      assert n !in pos0 by {
        assert forall k :: 0 <= k < |pos0| ==> pos0[k] != n;
      }
      forall i | 0 <= i < n
        ensures i in pos <==> keep(s[i])
      {
        assert init[i] == s[i];
      }
    }
  }

  /** `filter` distributes over concatenation. */
  lemma {:induction false} FilterAppend<T(!new)>(a: seq<T>, b: seq<T>, keep: T -> bool)
    ensures Filter(a + b, keep) == Filter(a, keep) + Filter(b, keep)
    decreases |b|
  {
    if b == [] {
      assert a + b == a;
    } else {
      var n := |b| - 1;
      assert (a + b)[..|a + b| - 1] == a + b[..n];
      FilterAppend(a, b[..n], keep);
    }
  }

  /** The search test: the lower-cased name contains the lower-cased search term. A term longer
      than the name never matches; the empty term and the name itself always do. */
  predicate Matches(p: Product, term: string)
    ensures Matches(p, term) ==> |term| <= |p.name|
    ensures term == [] ==> Matches(p, term)
    ensures term == p.name ==> Matches(p, term)
  {
    Includes(ToLower(p.name), ToLower(term))
  }

  /** The search test as the callback handed to `filter`. */
  function MatchesTerm(term: string): Product -> bool
  {
    (p: Product) => Matches(p, term)
  }

  /** The fetched products that pass the search, in fetched order. */
  function MatchingProducts(products: seq<Product>, term: string): (r: seq<Product>)
    ensures |r| <= |products|
    ensures forall p :: p in r <==> p in products && Matches(p, term)
  {
    Filter(products, MatchesTerm(term))
  }

  /** A product passes the search exactly when its lower-cased name has the lower-cased term at
      some position. */
  lemma MatchesIffOccurs(p: Product, term: string)
    ensures Matches(p, term) <==> exists i :: OccursAt(ToLower(p.name), ToLower(term), i)
  {
    IncludesIffOccurs(ToLower(p.name), ToLower(term));
  }

  /** The search ignores the case of the term: lower-casing the term first changes nothing. */
  lemma MatchesIgnoresTermCase(p: Product, term: string)
    ensures Matches(p, ToLower(term)) == Matches(p, term)
  {
    ToLowerIdempotent(term);
  }

  /** The search ignores case on both sides: two products whose names are equal up to ASCII
      case, searched with two terms equal up to ASCII case, either both match or neither does. */
  lemma MatchesIgnoresCase(p: Product, q: Product, a: string, b: string)
    requires EqualIgnoringCase(p.name, q.name) && EqualIgnoringCase(a, b)
    ensures Matches(p, a) == Matches(q, b)
  {
    ToLowerEqualIffEqualIgnoringCase(p.name, q.name);
    ToLowerEqualIffEqualIgnoringCase(a, b);
  }

  /** For instance, "SHOE" and "shoe" find the same products. */
  lemma TermCaseExample(p: Product)
    ensures Matches(p, "SHOE") == Matches(p, "shoe")
  {
    assert EqualIgnoringCase(p.name, p.name);
    assert SameIgnoringCase('S', 's') && SameIgnoringCase('H', 'h');
    assert SameIgnoringCase('O', 'o') && SameIgnoringCase('E', 'e');
    MatchesIgnoresCase(p, p, "SHOE", "shoe");
  }

  /** An empty search term keeps every fetched product, in order. */
  lemma {:induction false} EmptyTermKeepsAll(products: seq<Product>)
    ensures MatchingProducts(products, "") == products
  {
    if products != [] {
      var n := |products| - 1;
      EmptyTermKeepsAll(products[..n]);
      assert Matches(products[n], "");
      assert ToLower("") == "";
      assert products == products[..n] + [products[n]];
    }
  }

  /** Newest first: `createdAt` never increases along the list. */
  predicate NewestFirst(s: seq<Product>)
  {
    forall i, j :: 0 <= i < j < |s| ==> s[i].createdAt >= s[j].createdAt
  }

  /** Places `x` in front of the first product that is not newer than it. */
  function Insert(x: Product, s: seq<Product>): (r: seq<Product>)
    ensures |r| == |s| + 1
    ensures multiset(r) == multiset(s) + multiset{x}
  {
    if s == [] || s[0].createdAt <= x.createdAt then
      [x] + s
    else
      assert s == [s[0]] + s[1..];
      [s[0]] + Insert(x, s[1..])
  }

  /** No product of `s` was created after time `t`. */
  predicate NoNewerThan(s: seq<Product>, t: int)
  {
    forall i :: 0 <= i < |s| ==> s[i].createdAt <= t
  }

  /** A product no older than any product of a newest-first list can go in front of it. */
  lemma PrependNewest(a: Product, s: seq<Product>)
    requires NewestFirst(s) && NoNewerThan(s, a.createdAt)
    ensures NewestFirst([a] + s)
  {
    var r := [a] + s;
    forall i, j | 0 <= i < j < |r|
      ensures r[i].createdAt >= r[j].createdAt
    {
      assert r[j] == s[j - 1];
      if i > 0 {
        assert r[i] == s[i - 1];
      }
    }
  }

  /** Inserting a product no newer than `t` into a list no newer than `t` gives such a list. */
  lemma InsertNoNewerThan(x: Product, s: seq<Product>, t: int)
    requires NoNewerThan(s, t) && x.createdAt <= t
    ensures NoNewerThan(Insert(x, s), t)
  {
    var r := Insert(x, s);
    forall i | 0 <= i < |r|
      ensures r[i].createdAt <= t
    {
      assert r[i] in multiset(r);
      if r[i] != x {
        assert r[i] in multiset(s);
        var j :| 0 <= j < |s| && s[j] == r[i];
      }
    }
  }

  /** Inserting into a newest-first list keeps it newest first. */
  lemma {:induction false} InsertKeepsNewestFirst(x: Product, s: seq<Product>)
    requires NewestFirst(s)
    ensures NewestFirst(Insert(x, s))
  {
    if s != [] && s[0].createdAt > x.createdAt {
      var tail := s[1..];
      assert NewestFirst(tail) && NoNewerThan(tail, s[0].createdAt) by {
        assert forall i :: 0 <= i < |tail| ==> tail[i] == s[i + 1];
      }
      InsertKeepsNewestFirst(x, tail);
      InsertNoNewerThan(x, tail, s[0].createdAt);
      PrependNewest(s[0], Insert(x, tail));
    }
  }

  /** The comparator sort `(a, b) => b.createdAt - a.createdAt` on a copy of the list: the
      result is a permutation of the list, newest first. */
  function SortNewestFirst(s: seq<Product>): (r: seq<Product>)
    ensures |r| == |s|
    ensures multiset(r) == multiset(s)
    ensures NewestFirst(r)
  {
    if s == [] then []
    else
      assert s == [s[0]] + s[1..];
      var rest := SortNewestFirst(s[1..]);
      InsertKeepsNewestFirst(s[0], rest);
      Insert(s[0], rest)
  }

  /** Selects the products created at time `t`. */
  function CreatedAtIs(t: int): Product -> bool
  {
    (p: Product) => p.createdAt == t
  }

  /** `filter` on a list with a first element. */
  lemma FilterCons<T(!new)>(a: T, s: seq<T>, keep: T -> bool)
    ensures Filter([a] + s, keep) == (if keep(a) then [a] else []) + Filter(s, keep)
  {
    FilterAppend([a], s, keep);
    assert [a][..0] == [];
  }

  /** Inserting keeps `x` in front of every product with the same creation time. */
  lemma {:induction false} InsertIsStable(x: Product, s: seq<Product>, t: int)
    ensures Filter(Insert(x, s), CreatedAtIs(t)) == Filter([x], CreatedAtIs(t)) + Filter(s, CreatedAtIs(t))
  {
    var same := CreatedAtIs(t);
    var added := if same(x) then [x] else [];
    FilterCons(x, [], same);
    assert Filter([x], same) == added;
    if s == [] || s[0].createdAt <= x.createdAt {
      assert Insert(x, s) == [x] + s;
      FilterCons(x, s, same);
    } else {
      var tail := s[1..];
      var older := if same(s[0]) then [s[0]] else [];
      var rest := Filter(tail, same);
      assert s == [s[0]] + tail;
      assert Insert(x, s) == [s[0]] + Insert(x, tail);
      InsertIsStable(x, tail, t);
      FilterCons(s[0], Insert(x, tail), same);
      FilterCons(s[0], tail, same);
      assert Filter(Insert(x, s), same) == older + (added + rest);
      assert Filter(s, same) == older + rest;
      // s[0] is strictly newer than x, so at most one of them was created at time t
      if older == [] {
        assert older + (added + rest) == added + rest;
        assert older + rest == rest;
      } else {
        assert added == [];
        assert added + rest == rest;
        assert added + (older + rest) == older + rest;
      }
    }
  }

  /** The sort is stable, as the language's `sort` is: products created at the same time keep
      their relative order. */
  lemma {:induction false} SortIsStable(s: seq<Product>, t: int)
    ensures Filter(SortNewestFirst(s), CreatedAtIs(t)) == Filter(s, CreatedAtIs(t))
  {
    if s != [] {
      SortIsStable(s[1..], t);
      InsertIsStable(s[0], SortNewestFirst(s[1..]), t);
      FilterCons(s[0], [], CreatedAtIs(t));
      FilterCons(s[0], s[1..], CreatedAtIs(t));
      assert s == [s[0]] + s[1..];
    }
  }

  /** A contiguous run of a list is newest first when the list is, and takes each product no
      more often than the list holds it. */
  lemma RunOfList(r: seq<Product>, s: seq<Product>, from: int)
    requires IsRunAt(r, s, from)
    ensures NewestFirst(s) ==> NewestFirst(r)
    ensures multiset(r) <= multiset(s)
  {
    assert forall i :: 0 <= i < |r| ==> r[i] == s[from + i];
    assert s == s[..from] + r + s[from + |r|..];
  }

  /** The products shown: the matching products, newest first, cut to the page's window. They
      form one contiguous run of the sorted matches. */
  function VisibleProducts(products: seq<Product>, term: string, page: int, size: int): (r: seq<Product>)
    ensures exists from :: IsRunAt(r, SortNewestFirst(MatchingProducts(products, term)), from)
  {
    PageWindow(SortNewestFirst(MatchingProducts(products, term)), page, size)
  }

  /** Whatever the page: at most a page of products is shown, newest first, and each shown
      product is a fetched product that passes the search, shown no more often than it was
      fetched. */
  lemma VisibleProductsSpec(products: seq<Product>, term: string, page: int, size: int)
    requires size >= 0
    ensures var r := VisibleProducts(products, term, page, size);
      |r| <= size &&
      NewestFirst(r) &&
      multiset(r) <= multiset(MatchingProducts(products, term)) &&
      (forall p :: p in r ==> p in products && Matches(p, term))
  {
    var matching := MatchingProducts(products, term);
    var sorted := SortNewestFirst(matching);
    var r := VisibleProducts(products, term, page, size);
    PageWindowSpec(sorted, page, size);
    var from :| IsRunAt(r, sorted, from);
    RunOfList(r, sorted, from);
    forall p | p in r
      ensures p in products && Matches(p, term)
    {
      assert p in multiset(r);
      assert p in multiset(matching);
    }
  }

  /** From page 1 on, the shown products are the page's window of the sorted matches, and
      nothing once the window starts past the last match. */
  lemma VisibleProductsWindow(products: seq<Product>, term: string, page: int, size: int)
    requires page >= 1 && size >= 0
    ensures var sorted := SortNewestFirst(MatchingProducts(products, term));
      VisibleProducts(products, term, page, size) ==
      sorted[Min(PageStart(page, size), |sorted|)..Min(PageEnd(page, size), |sorted|)]
    ensures PageStart(page, size) >= |MatchingProducts(products, term)| ==>
              VisibleProducts(products, term, page, size) == []
  {
    var sorted := SortNewestFirst(MatchingProducts(products, term));
    PageWindowSpec(sorted, page, size);
    assert VisibleProducts(products, term, page, size) == PageWindow(sorted, page, size);
  }

  /** The fetched list is already one page of the server's results. When it holds at most a
      page of products, page 1 shows all of its matches newest first and every later page shows
      nothing, because the local window is cut again from that one fetched page. */
  lemma ServerPageShownOnlyOnFirstPage(products: seq<Product>, term: string, page: int, size: int)
    requires size >= 0 && |products| <= size
    ensures page == 1 ==>
              VisibleProducts(products, term, page, size) ==
              SortNewestFirst(MatchingProducts(products, term))
    ensures page >= 2 ==> VisibleProducts(products, term, page, size) == []
  {
    var sorted := SortNewestFirst(MatchingProducts(products, term));
    if page == 1 {
      VisibleProductsWindow(products, term, page, size);
      assert sorted[0..|sorted|] == sorted;
    } else if page >= 2 {
      MulAtLeast(page - 1, size);
      VisibleProductsWindow(products, term, page, size);
    }
  }
}
