/** The `java.util.List` and JavaScript array operations the modelled code applies
    to lists of identifiers and file names. */
module Lists {

  /** No element occurs twice. */
  predicate Distinct<T(==)>(s: seq<T>)
  {
    forall i, j :: 0 <= i < j < |s| ==> s[i] != s[j]
  }

  /** Appending to a concatenation appends to its second part. */
  lemma AppendTwice<T>(a: seq<T>, b: seq<T>, c: seq<T>)
    ensures (a + b) + c == a + (b + c)
  {
  }

  /** A new element at the end keeps a list free of duplicates. */
  lemma DistinctSnoc<T>(s: seq<T>, x: T)
    requires Distinct(s) && x !in s
    ensures Distinct(s + [x])
  {
  }

  /** A new element at the front keeps a list free of duplicates. */
  lemma DistinctCons<T>(x: T, s: seq<T>)
    requires Distinct(s) && x !in s
    ensures Distinct([x] + s)
  {
    forall i, j | 0 <= i < j < |[x] + s| ensures ([x] + s)[i] != ([x] + s)[j] {
      if i > 0 {
        assert ([x] + s)[i] == s[i - 1];
      } else {
        assert ([x] + s)[j] in s;
      }
    }
  }

  /** The head of a list free of duplicates is not in its tail, and the tail has none. */
  lemma DistinctTail<T>(s: seq<T>)
    requires s != [] && Distinct(s)
    ensures s[0] !in s[1..] && Distinct(s[1..])
  {
    forall j | 1 <= j < |s| ensures s[j] != s[0] { }
  }

  /** An element of a list free of duplicates is not among those before it. */
  lemma DistinctPrefix<T>(s: seq<T>, i: nat)
    requires Distinct(s) && i < |s|
    ensures s[i] !in s[..i]
  {
  }

  /** The elements of a list, as a set. */
  function Elements<T(==)>(s: seq<T>): set<T>
  {
    set x | x in s
  }

  lemma ElementsAppend<T>(s: seq<T>, x: T)
    ensures Elements(s + [x]) == Elements(s) + {x}
  {
  }

  /** One more element of a prefix adds that element to its set. */
  lemma ElementsPrefix<T>(s: seq<T>, i: nat)
    requires i < |s|
    ensures Elements(s[..i + 1]) == Elements(s[..i]) + {s[i]}
  {
    assert s[..i + 1] == s[..i] + [s[i]];
  }

  /** `List.remove(Object)`: the first occurrence of `x` leaves the list. */
  function RemoveFirst<T(==)>(s: seq<T>, x: T): (r: seq<T>)
    ensures x !in s ==> r == s
    ensures x in s ==> |r| == |s| - 1
  {
    if s == [] then []
    else if s[0] == x then s[1..]
    else [s[0]] + RemoveFirst(s[1..], x)
  }

  /** The elements of `s` outside `gone`, in their order (a filter). */
  function Without<T(==,!new)>(s: seq<T>, gone: set<T>): (r: seq<T>)
    ensures |r| <= |s|
    ensures forall y :: y in r <==> y in s && y !in gone
  {
    if s == [] then [] else (if s[0] in gone then [] else [s[0]]) + Without(s[1..], gone)
  }

  /** `r` is `s` with some elements left out, the others keeping their order. */
  predicate Subsequence<T(==)>(r: seq<T>, s: seq<T>)
  {
    if r == [] then true
    else if s == [] then false
    else if r[0] == s[0] then Subsequence(r[1..], s[1..])
    else Subsequence(r, s[1..])
  }

  lemma {:induction false} WithoutIsSubsequence<T(!new)>(s: seq<T>, gone: set<T>)
    ensures Subsequence(Without(s, gone), s)
  {
    if s != [] {
      WithoutIsSubsequence(s[1..], gone);
      if s[0] !in gone {
        assert Without(s, gone) == [s[0]] + Without(s[1..], gone);
        assert Without(s, gone)[1..] == Without(s[1..], gone);
      } else {
        assert Without(s, gone) == Without(s[1..], gone);
        SkipHead(Without(s[1..], gone), s);
      }
    }
  }

  /** A subsequence of the tail is a subsequence of the whole list. */
  lemma {:induction false} SkipHead<T>(r: seq<T>, s: seq<T>)
    requires s != [] && Subsequence(r, s[1..])
    ensures Subsequence(r, s)
    decreases |s|, 0
  {
    if r != [] && r[0] == s[0] {
      SubsequenceTail(r, s[1..]);
    }
  }

  lemma {:induction false} SubsequenceTail<T>(r: seq<T>, s: seq<T>)
    requires r != [] && Subsequence(r, s)
    ensures Subsequence(r[1..], s)
    decreases |s|, 1
  {
    if r[0] == s[0] {
      if r[1..] != [] { SkipHead(r[1..], s); }
    } else {
      SubsequenceTail(r, s[1..]);
      SkipHead(r[1..], s);
    }
  }

  lemma {:induction false} WithoutDistinct<T(!new)>(s: seq<T>, gone: set<T>)
    requires Distinct(s)
    ensures Distinct(Without(s, gone))
  {
    if s != [] {
      WithoutDistinct(s[1..], gone);
      assert s[0] !in s[1..] by {
        forall j | 1 <= j < |s| ensures s[j] != s[0] { }
      }
    }
  }

  lemma {:induction false} WithoutTwice<T(!new)>(s: seq<T>, a: set<T>, b: set<T>)
    ensures Without(Without(s, a), b) == Without(s, a + b)
  {
    if s != [] {
      WithoutTwice(s[1..], a, b);
      var once := Without(s, a);
      if s[0] in a {
        assert once == Without(s[1..], a);
      } else {
        assert once == [s[0]] + Without(s[1..], a);
        assert once[1..] == Without(s[1..], a);
      }
    }
  }

  lemma {:induction false} WithoutNothing<T(!new)>(s: seq<T>, gone: set<T>)
    requires forall x :: x in s ==> x !in gone
    ensures Without(s, gone) == s
  {
    if s != [] {
      WithoutNothing(s[1..], gone);
    }
  }

  /** In a list without duplicates, removing the first occurrence removes them all. */
  lemma {:induction false} RemoveFirstDistinct<T(!new)>(s: seq<T>, x: T)
    requires Distinct(s)
    ensures RemoveFirst(s, x) == Without(s, {x})
  {
    if s != [] {
      if s[0] == x {
        assert x !in s[1..] by {
          forall j | 1 <= j < |s| ensures s[j] != x { }
        }
        WithoutNothing(s[1..], {x});
      } else {
        RemoveFirstDistinct(s[1..], x);
      }
    }
  }

  /** A list without duplicates has as many elements as the set of its elements. */
  lemma {:induction false} DistinctCardinality<T>(s: seq<T>)
    requires Distinct(s)
    ensures |set x | x in s| == |s|
  {
    if s != [] {
      DistinctCardinality(s[1..]);
      assert s[0] !in s[1..] by {
        forall j | 1 <= j < |s| ensures s[j] != s[0] { }
      }
      assert (set x | x in s) == (set x | x in s[1..]) + {s[0]};
    }
  }
}
