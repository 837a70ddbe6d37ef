/** `Array.prototype.sort(compare)`, which ECMAScript (2019 edition onward) requires to be
    stable, modelled as a stable insertion sort over a comparator returning a number
    whose sign orders its two arguments. */
module Sorting {

  /** Swapping the arguments flips the sign of the comparison. */
  ghost predicate SignFlips<T>(cmp: (T, T) -> int, a: T, b: T) {
    cmp(a, b) < 0 <==> cmp(b, a) > 0
  }

  /** "Not after" is transitive through `b`. */
  ghost predicate ChainsThrough<T>(cmp: (T, T) -> int, a: T, b: T, c: T) {
    cmp(a, b) <= 0 && cmp(b, c) <= 0 ==> cmp(a, c) <= 0
  }

  /** What a comparator must satisfy for `sort` to be well defined (a total preorder).
      The two facts are instantiated only through `Flip` and `Chain`. */
  ghost predicate ValidComparator<T(!new)>(cmp: (T, T) -> int) {
    && (forall a, b :: SignFlips(cmp, a, b))
    && (forall a, b, c :: ChainsThrough(cmp, a, b, c))
  }

  lemma Flip<T(!new)>(cmp: (T, T) -> int, a: T, b: T)
    requires ValidComparator(cmp)
    ensures cmp(a, b) < 0 <==> cmp(b, a) > 0
    ensures cmp(a, b) == 0 <==> cmp(b, a) == 0
    ensures cmp(a, b) <= 0 <==> cmp(b, a) >= 0
  {
    assert SignFlips(cmp, a, b) && SignFlips(cmp, b, a);
  }

  lemma Chain<T(!new)>(cmp: (T, T) -> int, a: T, b: T, c: T)
    requires ValidComparator(cmp)
    requires cmp(a, b) <= 0 && cmp(b, c) <= 0
    ensures cmp(a, c) <= 0
  {
    assert ChainsThrough(cmp, a, b, c);
  }

  /** A strict step followed by a non-strict one stays strict. */
  lemma ChainStrict<T(!new)>(cmp: (T, T) -> int, a: T, b: T, c: T)
    requires ValidComparator(cmp)
    requires cmp(a, b) < 0 && cmp(b, c) <= 0
    ensures cmp(a, c) < 0
  {
    if cmp(a, c) >= 0 {
      Flip(cmp, a, c);
      Chain(cmp, b, c, a);
      Flip(cmp, a, b);
    }
  }

  ghost predicate SortedBy<T>(cmp: (T, T) -> int, s: seq<T>) {
    forall i, j :: 0 <= i < j < |s| ==> cmp(s[i], s[j]) <= 0
  }

  /** Places `x` after every leading element it does not precede. */
  function Insert<T>(cmp: (T, T) -> int, x: T, s: seq<T>): (r: seq<T>)
    ensures |r| == |s| + 1
    ensures multiset(r) == multiset(s) + multiset{x}
  {
    if s == [] then [x]
    else if cmp(x, s[0]) < 0 then [x] + s
    else
      assert s == [s[0]] + s[1..];
      [s[0]] + Insert(cmp, x, s[1..])
  }

  /** The sorted copy `[...s].sort(cmp)`: every element is kept, with its multiplicity. */
  function SortBy<T>(cmp: (T, T) -> int, s: seq<T>): (r: seq<T>)
    ensures multiset(r) == multiset(s)
    ensures |r| == |s|
  {
    if s == [] then []
    else
      assert s == s[..|s| - 1] + [s[|s| - 1]];
      Insert(cmp, s[|s| - 1], SortBy(cmp, s[..|s| - 1]))
  }

  lemma {:induction false} InsertSorted<T(!new)>(cmp: (T, T) -> int, x: T, s: seq<T>)
    requires ValidComparator(cmp)
    requires SortedBy(cmp, s)
    ensures SortedBy(cmp, Insert(cmp, x, s))
  {
    if s == [] {
    } else if cmp(x, s[0]) < 0 {
      SortedCons(cmp, x, s);
    } else {
      InsertSorted(cmp, x, s[1..]);
      Flip(cmp, x, s[0]);
      var rest := Insert(cmp, x, s[1..]);
      forall k | 0 <= k < |rest| ensures cmp(s[0], rest[k]) <= 0 {
        assert rest[k] in multiset(rest);
        if rest[k] != x {
          assert rest[k] in multiset(s[1..]);
          assert rest[k] in s[1..];
        }
      }
      SortedConsHead(cmp, s[0], rest);
    }
  }

  /** An element before the head of a sorted sequence can go first. */
  lemma SortedCons<T(!new)>(cmp: (T, T) -> int, x: T, s: seq<T>)
    requires ValidComparator(cmp)
    requires SortedBy(cmp, s) && s != [] && cmp(x, s[0]) < 0
    ensures SortedBy(cmp, [x] + s)
  {
    forall k | 0 <= k < |s| ensures cmp(x, s[k]) <= 0 {
      if k > 0 { Chain(cmp, x, s[0], s[k]); }
    }
    SortedConsHead(cmp, x, s);
  }

  /** An element not after any element of a sorted sequence can go first. */
  lemma SortedConsHead<T>(cmp: (T, T) -> int, x: T, s: seq<T>)
    requires SortedBy(cmp, s)
    requires forall k :: 0 <= k < |s| ==> cmp(x, s[k]) <= 0
    ensures SortedBy(cmp, [x] + s)
  {
    var r := [x] + s;
    forall i, j | 0 <= i < j < |r| ensures cmp(r[i], r[j]) <= 0 {
      assert r[j] == s[j - 1];
      if i > 0 { assert r[i] == s[i - 1]; }
    }
  }

  /** With a valid comparator the result is ordered. */
  lemma {:induction false} SortBySorted<T(!new)>(cmp: (T, T) -> int, s: seq<T>)
    requires ValidComparator(cmp)
    ensures SortedBy(cmp, SortBy(cmp, s))
  {
    if s != [] {
      SortBySorted(cmp, s[..|s| - 1]);
      InsertSorted(cmp, s[|s| - 1], SortBy(cmp, s[..|s| - 1]));
    }
  }

  /** The elements of `s` that the comparator ties with `x`, in their order in `s`. */
  function Ties<T>(cmp: (T, T) -> int, s: seq<T>, x: T): seq<T> {
    if s == [] then []
    else (if cmp(s[0], x) == 0 then [s[0]] else []) + Ties(cmp, s[1..], x)
  }

  lemma {:induction false} TiesAppend<T>(cmp: (T, T) -> int, a: seq<T>, b: seq<T>, x: T)
    ensures Ties(cmp, a + b, x) == Ties(cmp, a, x) + Ties(cmp, b, x)
  {
    if a == [] {
      assert a + b == b;
    } else {
      var h := if cmp(a[0], x) == 0 then [a[0]] else [];
      TiesAppend(cmp, a[1..], b, x);
      calc {
        Ties(cmp, a + b, x);
        { assert (a + b)[0] == a[0] && (a + b)[1..] == a[1..] + b; }
        h + Ties(cmp, a[1..] + b, x);
        h + (Ties(cmp, a[1..], x) + Ties(cmp, b, x));
        Ties(cmp, a, x) + Ties(cmp, b, x);
      }
    }
  }

  lemma {:induction false} NoTies<T>(cmp: (T, T) -> int, s: seq<T>, x: T)
    requires forall k :: 0 <= k < |s| ==> cmp(s[k], x) != 0
    ensures Ties(cmp, s, x) == []
  {
    if s != [] {
      NoTies(cmp, s[1..], x);
    }
  }

  lemma {:induction false} TiesInsert<T(!new)>(cmp: (T, T) -> int, y: T, s: seq<T>, x: T)
    requires ValidComparator(cmp)
    requires SortedBy(cmp, s)
    ensures Ties(cmp, Insert(cmp, y, s), x) == Ties(cmp, s, x) + (if cmp(y, x) == 0 then [y] else [])
  {
    var tail := if cmp(y, x) == 0 then [y] else [];
    if s == [] {
      TiesCons(cmp, y, s, x);
      assert Ties(cmp, s, x) == [];
    } else if cmp(y, s[0]) < 0 {
      TiesInsertFront(cmp, y, s, x);
    } else {
      var head := if cmp(s[0], x) == 0 then [s[0]] else [];
      assert SortedBy(cmp, s[1..]);
      calc {
        Ties(cmp, Insert(cmp, y, s), x);
        Ties(cmp, [s[0]] + Insert(cmp, y, s[1..]), x);
        { TiesCons(cmp, s[0], Insert(cmp, y, s[1..]), x); }
        head + Ties(cmp, Insert(cmp, y, s[1..]), x);
        { TiesInsert(cmp, y, s[1..], x); }
        head + (Ties(cmp, s[1..], x) + tail);
        (head + Ties(cmp, s[1..], x)) + tail;
        { TiesCons(cmp, s[0], s[1..], x); assert s == [s[0]] + s[1..]; }
        Ties(cmp, s, x) + tail;
      }
    }
  }

  /** Inserted in front, an element that ties with `x` is the only tie. */
  lemma TiesInsertFront<T(!new)>(cmp: (T, T) -> int, y: T, s: seq<T>, x: T)
    requires ValidComparator(cmp)
    requires SortedBy(cmp, s) && s != [] && cmp(y, s[0]) < 0
    ensures Ties(cmp, Insert(cmp, y, s), x) == Ties(cmp, s, x) + (if cmp(y, x) == 0 then [y] else [])
  {
    assert Insert(cmp, y, s) == [y] + s;
    TiesCons(cmp, y, s, x);
    if cmp(y, x) == 0 {
      SmallerThanTie(cmp, y, s, x);
      NoTies(cmp, s, x);
    }
  }

  /** The ties of a sequence with a first element put in front. */
  lemma TiesCons<T>(cmp: (T, T) -> int, y: T, s: seq<T>, x: T)
    ensures Ties(cmp, [y] + s, x) == (if cmp(y, x) == 0 then [y] else []) + Ties(cmp, s, x)
  {
    assert ([y] + s)[0] == y && ([y] + s)[1..] == s;
  }

  /** Nothing after an element that is strictly before a tie of `x` ties with `x`. */
  lemma SmallerThanTie<T(!new)>(cmp: (T, T) -> int, y: T, s: seq<T>, x: T)
    requires ValidComparator(cmp)
    requires SortedBy(cmp, s) && s != [] && cmp(y, s[0]) < 0 && cmp(y, x) == 0
    ensures forall k :: 0 <= k < |s| ==> cmp(s[k], x) != 0
  {
    forall k | 0 <= k < |s| ensures cmp(s[k], x) != 0 {
      if k > 0 { ChainStrict(cmp, y, s[0], s[k]); }
      if cmp(s[k], x) == 0 {
        Flip(cmp, y, x);
        Chain(cmp, s[k], x, y);
        Flip(cmp, s[k], y);
      }
    }
  }

  /** Stability: elements the comparator ties keep their original relative order. */
  lemma {:induction false} SortByStable<T(!new)>(cmp: (T, T) -> int, s: seq<T>, x: T)
    requires ValidComparator(cmp)
    ensures Ties(cmp, SortBy(cmp, s), x) == Ties(cmp, s, x)
  {
    if s != [] {
      var init, last := s[..|s| - 1], s[|s| - 1];
      var tail := if cmp(last, x) == 0 then [last] else [];
      assert Ties(cmp, [last], x) == tail by {
        assert Ties(cmp, [last], x) == tail + Ties(cmp, [], x);
      }
      calc {
        Ties(cmp, SortBy(cmp, s), x);
        Ties(cmp, Insert(cmp, last, SortBy(cmp, init)), x);
        { InsertKeepsTies(cmp, last, init, x); }
        Ties(cmp, SortBy(cmp, init), x) + tail;
        { SortByStable(cmp, init, x); }
        Ties(cmp, init, x) + Ties(cmp, [last], x);
        { TiesAppend(cmp, init, [last], x); }
        Ties(cmp, init + [last], x);
        { assert s == init + [last]; }
        Ties(cmp, s, x);
      }
    }
  }

  lemma InsertKeepsTies<T(!new)>(cmp: (T, T) -> int, y: T, s: seq<T>, x: T)
    requires ValidComparator(cmp)
    ensures Ties(cmp, Insert(cmp, y, SortBy(cmp, s)), x)
         == Ties(cmp, SortBy(cmp, s), x) + (if cmp(y, x) == 0 then [y] else [])
  {
    SortBySorted(cmp, s);
    TiesInsert(cmp, y, SortBy(cmp, s), x);
  }
}
