/**
 * Turning a directory or archive listing into the ordered collection:
 * Python's string order and `sorted` (for folders), and the extension filter
 * that keeps image entries in their listing order.
 */
module Listing {
  import opened PathNames

  /** Python's `a <= b` on strings: code point by code point, a prefix first. */
  predicate LexLe(a: string, b: string)
    ensures a <= b ==> LexLe(a, b)
    decreases |a|
  {
    |a| == 0 || (|b| > 0 && (a[0] < b[0] || (a[0] == b[0] && LexLe(a[1..], b[1..]))))
  }

  lemma {:induction false} LexLeTotal(a: string, b: string)
    ensures LexLe(a, b) || LexLe(b, a)
    decreases |a|
  {
    if |a| > 0 && |b| > 0 && a[0] == b[0] {
      LexLeTotal(a[1..], b[1..]);
    }
  }

  lemma {:induction false} LexLeTransitive(a: string, b: string, c: string)
    requires LexLe(a, b) && LexLe(b, c)
    ensures LexLe(a, c)
    decreases |a|
  {
    if |a| > 0 && a[0] == b[0] && b[0] == c[0] {
      LexLeTransitive(a[1..], b[1..], c[1..]);
    }
  }

  lemma {:induction false} LexLeAntisymmetric(a: string, b: string)
    requires LexLe(a, b) && LexLe(b, a)
    ensures a == b
    decreases |a|
  {
    if |a| > 0 {
      LexLeAntisymmetric(a[1..], b[1..]);
      assert a == [a[0]] + a[1..] && b == [b[0]] + b[1..];
    }
  }

  predicate Sorted(s: seq<string>) {
    forall i, j :: 0 <= i < j < |s| ==> LexLe(s[i], s[j])
  }

  /** Insert `x` before the first element it does not exceed. */
  function Insert(x: string, s: seq<string>): (r: seq<string>)
    ensures multiset(r) == multiset(s) + multiset{x}
  {
    if s == [] then [x]
    else if LexLe(x, s[0]) then [x] + s
    else
      assert s == [s[0]] + s[1..];
      [s[0]] + Insert(x, s[1..])
  }

  /** Python's `sorted` on a list of strings. */
  function Sort(s: seq<string>): (r: seq<string>)
    ensures multiset(r) == multiset(s)
  {
    if s == [] then []
    else
      assert s == [s[0]] + s[1..];
      Insert(s[0], Sort(s[1..]))
  }

  lemma {:induction false} InsertSorted(x: string, s: seq<string>)
    requires Sorted(s)
    ensures Sorted(Insert(x, s))
  {
    if s == [] {
    } else if LexLe(x, s[0]) {
      var r := [x] + s;
      forall i, j | 0 <= i < j < |r| ensures LexLe(r[i], r[j]) {
        if i == 0 && j > 1 {
          LexLeTransitive(x, s[0], s[j - 1]);
        }
      }
    } else {
      LexLeTotal(x, s[0]);
      var tail := Insert(x, s[1..]);
      InsertSorted(x, s[1..]);
      var r := [s[0]] + tail;
      forall i, j | 0 <= i < j < |r| ensures LexLe(r[i], r[j]) {
        if i == 0 {
          var y := tail[j - 1];
          assert y in multiset(tail);
          if y != x {
            assert y in multiset(s[1..]);
            var m :| 0 <= m < |s[1..]| && s[1..][m] == y;
            assert s[m + 1] == y;
          }
        }
      }
    }
  }

  /** The folder loader's `sorted(...)` yields the listing in ascending order. */
  lemma {:induction false} SortSorted(s: seq<string>)
    ensures Sorted(Sort(s))
  {
    if s != [] {
      SortSorted(s[1..]);
      InsertSorted(s[0], Sort(s[1..]));
    }
  }

  lemma MultisetTail(s: seq<string>)
    requires s != []
    ensures multiset(s[1..]) == multiset(s) - multiset{s[0]}
  {
    assert s == [s[0]] + s[1..];
  }

  /** In an ascending sequence the first element is at most every element. */
  lemma SortedHeadLeast(s: seq<string>, x: string)
    requires Sorted(s) && x in s
    ensures LexLe(s[0], x)
  {
    var k :| 0 <= k < |s| && s[k] == x;
    if k == 0 { LexLeTotal(x, x); }
  }

  /**
   * Sorting determines the order completely: any ascending arrangement of the
   * same entries is the sorted listing.
   */
  lemma {:induction false} SortedUnique(a: seq<string>, b: seq<string>)
    requires Sorted(a) && Sorted(b) && multiset(a) == multiset(b)
    ensures a == b
    decreases |a|
  {
    if a == [] {
      assert |multiset(b)| == 0;
    } else {
      assert |b| == |a| by {
        assert |multiset(a)| == |a| && |multiset(b)| == |b|;
      }
      var x, y := a[0], b[0];
      assert x in multiset(b) && y in multiset(a);
      SortedHeadLeast(a, y);
      SortedHeadLeast(b, x);
      LexLeAntisymmetric(x, y);
      MultisetTail(a);
      MultisetTail(b);
      SortedUnique(a[1..], b[1..]);
      assert a == [x] + a[1..] && b == [y] + b[1..];
    }
  }

  /** `Sort` agrees with every other way of sorting the same entries. */
  lemma SortIsTheSortedPermutation(s: seq<string>, t: seq<string>)
    requires Sorted(t) && multiset(t) == multiset(s)
    ensures t == Sort(s)
  {
    SortSorted(s);
    SortedUnique(t, Sort(s));
  }

  /** The entries of a listing the loader keeps, in listing order. */
  function Filter(s: seq<string>): (r: seq<string>)
    ensures |r| <= |s|
  {
    if s == [] then []
    else
      var init, last := s[..|s| - 1], s[|s| - 1];
      assert s == init + [last];
      if IsImageName(last) then Filter(init) + [last] else Filter(init)
  }

  /** Appending one entry to a listing appends it to the kept entries exactly when it is an image. */
  lemma FilterSnoc(s: seq<string>, x: string)
    ensures Filter(s + [x]) == if IsImageName(x) then Filter(s) + [x] else Filter(s)
  {
    assert (s + [x])[..|s + [x]| - 1] == s;
  }

  /** One more step of a loop over a listing: the entry at `i` is kept exactly when it is an image name. */
  lemma FilterStep(s: seq<string>, i: nat)
    requires i < |s|
    ensures Filter(s[..i + 1]) == if IsImageName(s[i]) then Filter(s[..i]) + [s[i]] else Filter(s[..i])
  {
    assert s[..i + 1] == s[..i] + [s[i]];
    FilterSnoc(s[..i], s[i]);
  }

  /** Sorting neither adds nor drops entries. */
  lemma SortKeepsEntries(s: seq<string>, x: string)
    ensures x in Sort(s) <==> x in s
  {
    assert x in Sort(s) <==> x in multiset(Sort(s));
  }

  /** Every kept entry comes from the listing and is an image name. */
  lemma {:induction false} FilterKeepsOnlyListed(s: seq<string>, x: string)
    requires x in Filter(s)
    ensures x in s && IsImageName(x)
  {
    FilterKeepsExactlyImages(s, x);
    assert x in multiset(Filter(s));
  }

  /** Filtering a concatenation filters each part: kept entries keep their relative order. */
  lemma {:induction false} FilterAppend(a: seq<string>, b: seq<string>)
    ensures Filter(a + b) == Filter(a) + Filter(b)
    decreases |b|
  {
    if b == [] {
      assert a + b == a;
    } else {
      var init, last := b[..|b| - 1], b[|b| - 1];
      assert (a + b)[..|a + b| - 1] == a + init;
      FilterAppend(a, init);
    }
  }

  /** An entry is kept exactly when it is an image name, as often as it occurs. */
  lemma {:induction false} FilterKeepsExactlyImages(s: seq<string>, x: string)
    ensures multiset(Filter(s))[x] == if IsImageName(x) then multiset(s)[x] else 0
    decreases |s|
  {
    if s != [] {
      var init, last := s[..|s| - 1], s[|s| - 1];
      assert s == init + [last];
      FilterKeepsExactlyImages(init, x);
    }
  }

  /** A listing made of N image entries and M other entries, in any order, yields exactly N entries. */
  lemma FilterCount(s: seq<string>, images: seq<string>, others: seq<string>)
    requires forall x :: x in images ==> IsImageName(x)
    requires forall x :: x in others ==> !IsImageName(x)
    requires multiset(s) == multiset(images) + multiset(others)
    ensures |Filter(s)| == |images|
  {
    forall x ensures multiset(Filter(s))[x] == multiset(images)[x] {
      FilterKeepsExactlyImages(s, x);
      if IsImageName(x) {
        assert x !in others;
      } else {
        assert x !in images;
      }
    }
    assert multiset(Filter(s)) == multiset(images);
    assert |multiset(Filter(s))| == |Filter(s)| && |multiset(images)| == |images|;
  }

  /** Filtering an ascending listing keeps it ascending: folder images stay in file-name order. */
  lemma {:induction false} FilterSorted(s: seq<string>)
    requires Sorted(s)
    ensures Sorted(Filter(s))
    decreases |s|
  {
    if s != [] {
      var init, last := s[..|s| - 1], s[|s| - 1];
      assert Sorted(init);
      FilterSorted(init);
      if IsImageName(last) {
        var f := Filter(init);
        var r := f + [last];
        assert Filter(s) == r;
        forall i, j | 0 <= i < j < |r| ensures LexLe(r[i], r[j]) {
          if j == |f| {
            FilterKeepsOnlyListed(init, f[i]);
            var m :| 0 <= m < |init| && init[m] == f[i];
            assert s[m] == f[i] && m < |s| - 1;
          }
        }
      }
    }
  }
}
