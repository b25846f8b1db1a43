/** The order of Go strings and sorting without ties (sort.Slice, sort.Strings). */
module Sorting {

  /** Lexicographic comparison. */
  predicate LexLess<T(==)>(a: seq<T>, b: seq<T>, less: (T, T) -> bool) {
    if b == [] then false
    else if a == [] then true
    else less(a[0], b[0]) || (a[0] == b[0] && LexLess(a[1..], b[1..], less))
  }

  /** A strict order on all values of a type. */
  ghost predicate TotalLess<T(!new)>(less: (T, T) -> bool) {
    && (forall x, y :: x == y || less(x, y) || less(y, x))
    && (forall x, y :: less(x, y) ==> x != y && !less(y, x))
    && (forall x, y, z :: less(x, y) && less(y, z) ==> less(x, z))
  }

  lemma {:induction false} LexLessTotal<T(!new)>(a: seq<T>, b: seq<T>, less: (T, T) -> bool)
    requires TotalLess(less)
    ensures a == b || LexLess(a, b, less) || LexLess(b, a, less)
    ensures !(LexLess(a, b, less) && LexLess(b, a, less))
    decreases |a|
  {
    if a != [] && b != [] {
      LexLessTotal(a[1..], b[1..], less);
      if a[0] == b[0] && a[1..] == b[1..] {
        assert a == [a[0]] + a[1..] == [b[0]] + b[1..] == b;
      }
    }
  }

  lemma {:induction false} LexLessTransitive<T(!new)>(a: seq<T>, b: seq<T>, c: seq<T>, less: (T, T) -> bool)
    requires TotalLess(less) && LexLess(a, b, less) && LexLess(b, c, less)
    ensures LexLess(a, c, less)
    decreases |a|
  {
    if a != [] && a[0] == b[0] && b[0] == c[0] {
      LexLessTransitive(a[1..], b[1..], c[1..], less);
    }
  }

  /** b is longer and begins with a, or a has the smaller element where they first differ, at k. */
  predicate LessAt<T(==)>(a: seq<T>, b: seq<T>, less: (T, T) -> bool, k: nat) {
    k <= |a| && k < |b| && a[..k] == b[..k] && (k == |a| || less(a[k], b[k]))
  }

  /** That is when a stands before b. */
  lemma {:induction false} LexLessExactly<T(!new)>(a: seq<T>, b: seq<T>, less: (T, T) -> bool)
    requires forall x :: !less(x, x)
    ensures LexLess(a, b, less) <==> exists k: nat :: LessAt(a, b, less, k)
    decreases |a|
  {
    if a == [] || b == [] {
      assert b != [] ==> LessAt(a, b, less, 0);
    } else {
      LexLessExactly(a[1..], b[1..], less);
      assert LessAt(a, b, less, 0) <==> less(a[0], b[0]);
      forall k: nat ensures LessAt(a, b, less, k + 1) <==> a[0] == b[0] && LessAt(a[1..], b[1..], less, k) {
        LessLater(a, b, less, k);
      }
      if LexLess(a[1..], b[1..], less) && a[0] == b[0] {
        var k: nat :| LessAt(a[1..], b[1..], less, k);
        assert LessAt(a, b, less, k + 1);
      }
      if k: nat :| LessAt(a, b, less, k) && k != 0 {
        LessLater(a, b, less, k - 1);
      }
    }
  }

  lemma LessLater<T(!new)>(a: seq<T>, b: seq<T>, less: (T, T) -> bool, k: nat)
    requires a != [] && b != []
    ensures LessAt(a, b, less, k + 1) <==> a[0] == b[0] && LessAt(a[1..], b[1..], less, k)
  {
    if k + 1 <= |a| && k + 1 <= |b| {
      assert a[..k + 1] == [a[0]] + a[1..][..k];
      assert b[..k + 1] == [b[0]] + b[1..][..k];
    }
  }

  predicate CharLess(x: char, y: char) {
    x < y
  }

  /** Go's < on strings. */
  predicate StringLess(a: string, b: string) {
    LexLess(a, b, CharLess)
  }

  lemma StringLessTotal(a: string, b: string)
    ensures a == b || StringLess(a, b) || StringLess(b, a)
    ensures !(StringLess(a, b) && StringLess(b, a))
    ensures !StringLess(a, a)
  {
    LexLessTotal(a, b, CharLess);
    LexLessTotal(a, a, CharLess);
  }

  lemma StringLessTransitive(a: string, b: string, c: string)
    requires StringLess(a, b) && StringLess(b, c)
    ensures StringLess(a, c)
  {
    LexLessTransitive(a, b, c, CharLess);
  }

  predicate ByteLess(x: bv8, y: bv8) {
    x < y
  }

  /** bytes.Compare(a, b) < 0. */
  predicate BytesLess(a: seq<bv8>, b: seq<bv8>) {
    LexLess(a, b, ByteLess)
  }

  lemma BytesLessTotal(a: seq<bv8>, b: seq<bv8>)
    ensures a == b || BytesLess(a, b) || BytesLess(b, a)
    ensures !(BytesLess(a, b) && BytesLess(b, a))
    ensures !BytesLess(a, a)
  {
    ByteLessIsTotal();
    LexLessTotal(a, b, ByteLess);
    LexLessTotal(a, a, ByteLess);
  }

  lemma BytesLessTransitive(a: seq<bv8>, b: seq<bv8>, c: seq<bv8>)
    requires BytesLess(a, b) && BytesLess(b, c)
    ensures BytesLess(a, c)
  {
    ByteLessIsTotal();
    LexLessTransitive(a, b, c, ByteLess);
  }

  lemma ByteLessIsTotal()
    ensures TotalLess(ByteLess)
  {}

  ghost predicate StrictlySorted<T>(s: seq<T>, less: (T, T) -> bool) {
    forall i, j :: 0 <= i < j < |s| ==> less(s[i], s[j])
  }

  /** `less` orders the elements of `s` strictly and without ties. */
  ghost predicate StrictOrderOn<T(!new)>(s: set<T>, less: (T, T) -> bool) {
    && (forall a :: a in s ==> !less(a, a))
    && (forall a, b :: a in s && b in s && a != b ==> less(a, b) || less(b, a))
    && (forall a, b, c :: a in s && b in s && c in s && less(a, b) && less(b, c) ==> less(a, c))
  }

  function Elements<T>(s: seq<T>): set<T> {
    set x | x in s
  }

  ghost predicate Distinct<T>(s: seq<T>) {
    forall i, j :: 0 <= i < j < |s| ==> s[i] != s[j]
  }

  lemma NoElements<T>(s: seq<T>)
    ensures Elements(s) == {} <==> s == []
  {
    if s != [] {
      assert s[0] in Elements(s);
    }
  }

  /** The sorted listing of a set is unique, so sorting forgets the order the elements came in. */
  lemma {:induction false} SortedListingUnique<T(!new)>(a: seq<T>, b: seq<T>, less: (T, T) -> bool)
    requires StrictlySorted(a, less) && StrictlySorted(b, less)
    requires Elements(a) == Elements(b) && StrictOrderOn(Elements(a), less)
    ensures a == b
    decreases |a|
  {
    if a == [] {
      NoElements(b);
    } else {
      assert a[0] in Elements(a) && a[0] in b;
      var i :| 0 <= i < |b| && b[i] == a[0];
      assert b[0] in Elements(b) && b[0] in a;
      var j :| 0 <= j < |a| && a[j] == b[0];
      assert i == 0;
      var ta, tb := a[1..], b[1..];
      forall x | x in ta ensures x in tb { assert x in Elements(a) && x in b && x != a[0]; }
      forall x | x in tb ensures x in ta { assert x in Elements(b) && x in a && x != b[0]; }
      assert Elements(ta) == Elements(tb) && Elements(ta) <= Elements(a);
      SortedListingUnique(ta, tb, less);
      assert a == [a[0]] + ta == [b[0]] + tb == b;
    }
  }

  lemma SortedIsDistinct<T(!new)>(a: seq<T>, less: (T, T) -> bool)
    requires StrictlySorted(a, less) && StrictOrderOn(Elements(a), less)
    ensures Distinct(a)
  {
    forall i, j | 0 <= i < j < |a| ensures a[i] != a[j] {
      assert a[i] in Elements(a) && less(a[i], a[j]);
    }
  }

  lemma {:induction false} DistinctSize<T>(s: seq<T>)
    requires Distinct(s)
    ensures |Elements(s)| == |s|
  {
    if s != [] {
      var init, last := s[..|s| - 1], s[|s| - 1];
      DistinctSize(init);
      assert Elements(s) == Elements(init) + {last};
      assert last !in Elements(init);
    }
  }

  lemma {:induction false} SubsetSize<T>(a: set<T>, b: set<T>)
    requires a <= b
    ensures |a| <= |b|
    ensures |a| == |b| ==> a == b
    decreases |a|
  {
    if a == {} {
      assert |b| == 0 ==> b == {};
    } else {
      var x := SomeElement(a);
      SubsetSize(a - {x}, b - {x});
      if |a| == |b| {
        assert a == (a - {x}) + {x} == (b - {x}) + {x} == b;
      }
    }
  }

  lemma SomeElement<T>(s: set<T>) returns (x: T)
    requires s != {}
    ensures x in s
  {
    x :| x in s;
  }

  /** The next element of a range loop over a set or map: any of those left. */
  method Pick<T(==)>(s: set<T>) returns (x: T)
    requires s != {}
    ensures x in s
  {
    x :| x in s;
  }

  /** Put one more element into a sorted listing. */
  method Insert<T(==, !new)>(sorted: seq<T>, x: T, less: (T, T) -> bool) returns (out: seq<T>)
    requires StrictlySorted(sorted, less) && x !in sorted
    requires StrictOrderOn(Elements(sorted) + {x}, less)
    ensures StrictlySorted(out, less) && Elements(out) == Elements(sorted) + {x}
  {
    var i := 0;
    while i < |sorted| && less(sorted[i], x)
      invariant 0 <= i <= |sorted|
      invariant forall k :: 0 <= k < i ==> less(sorted[k], x)
    {
      i := i + 1;
    }
    out := sorted[..i] + [x] + sorted[i..];
    forall k | i <= k < |sorted| ensures less(x, sorted[k]) {
      assert sorted[i] in Elements(sorted) && sorted[k] in Elements(sorted);
      assert less(x, sorted[i]);
      if k > i { assert less(sorted[i], sorted[k]); }
    }
    InsertedElements(sorted, i, x);
  }

  lemma InsertedElements<T>(sorted: seq<T>, i: nat, x: T)
    requires i <= |sorted|
    ensures Elements(sorted[..i] + [x] + sorted[i..]) == Elements(sorted) + {x}
  {
    assert sorted == sorted[..i] + sorted[i..];
  }

  /** sort.Slice on distinct elements that the order tells apart. */
  method Sort<T(==, !new)>(s: seq<T>, less: (T, T) -> bool) returns (out: seq<T>)
    requires Distinct(s) && StrictOrderOn(Elements(s), less)
    ensures StrictlySorted(out, less) && Elements(out) == Elements(s) && |out| == |s|
  {
    out := [];
    for k := 0 to |s|
      invariant StrictlySorted(out, less) && Elements(out) == Elements(s[..k])
    {
      assert s[..k + 1] == s[..k] + [s[k]];
      assert s[k] !in s[..k] && s[k] !in Elements(out);
      assert Elements(out) + {s[k]} == Elements(s[..k + 1]) <= Elements(s);
      out := Insert(out, s[k], less);
    }
    assert s[..|s|] == s;
    SortedIsDistinct(out, less);
    DistinctSize(out);
    DistinctSize(s);
  }
}
