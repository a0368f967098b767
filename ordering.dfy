/** The iteration order of the ordered maps and sets the configuration is
    built from: keys are visited from the least to the greatest. */
module Ordering {

  /** `less` is a strict total order on the elements of `s`. */
  ghost predicate StrictTotalOrderOn<T>(less: (T, T) -> bool, s: set<T>)
  {
    && (forall a :: a in s ==> !less(a, a))
    && (forall a, b, c :: a in s && b in s && c in s && less(a, b) && less(b, c) ==> less(a, c))
    && (forall a, b :: a in s && b in s && a != b ==> less(a, b) || less(b, a))
  }

  /** Every element of `r` comes strictly before every later one. */
  ghost predicate Increasing<T>(r: seq<T>, less: (T, T) -> bool)
  {
    forall i, j :: 0 <= i < j < |r| ==> less(r[i], r[j])
  }

  /** An order on a set is an order on each of its subsets. */
  lemma OrderOnSubset<T>(less: (T, T) -> bool, s: set<T>, t: set<T>)
    requires StrictTotalOrderOn(less, s) && t <= s
    ensures StrictTotalOrderOn(less, t)
  {
  }

  /** A non-empty finite set has a least element. */
  lemma {:induction false} Minimum<T>(s: set<T>, less: (T, T) -> bool) returns (m: T)
    requires s != {}
    requires StrictTotalOrderOn(less, s)
    ensures m in s && forall x :: x in s && x != m ==> less(m, x)
    decreases s
  {
    var y :| y in s;
    if s == {y} {
      m := y;
    } else {
      var rest := s - {y};
      OrderOnSubset(less, s, rest);
      var n := Minimum(rest, less);
      if less(n, y) {
        m := n;
        forall x | x in s && x != m ensures less(m, x) {
          if x != y { assert x in rest; }
        }
      } else {
        m := y;
        assert less(y, n);
        forall x | x in s && x != y ensures less(y, x) {
          if x != n {
            assert x in rest && less(n, x);
          }
        }
      }
    }
  }

  lemma MinimumExists<T>(s: set<T>, less: (T, T) -> bool)
    requires s != {}
    requires StrictTotalOrderOn(less, s)
    ensures exists m :: m in s && forall x :: x in s && x != m ==> less(m, x)
  {
    var m := Minimum(s, less);
  }

  /** The elements of `s` in increasing order: the order in which an ordered
      map walks its keys, or an ordered set its members. */
  function SortedBy<T(==,!new)>(s: set<T>, less: (T, T) -> bool): (r: seq<T>)
    requires StrictTotalOrderOn(less, s)
    ensures |r| == |s|
    ensures forall x :: x in r <==> x in s
    ensures Increasing(r, less)
    decreases s
  {
    if s == {} then []
    else
      MinimumExists(s, less);
      var m :| m in s && forall x :: x in s && x != m ==> less(m, x);
      OrderOnSubset(less, s, s - {m});
      [m] + SortedBy(s - {m}, less)
  }

  /** An increasing sequence repeats no element. */
  lemma IncreasingDistinct<T>(r: seq<T>, less: (T, T) -> bool, s: set<T>)
    requires StrictTotalOrderOn(less, s)
    requires forall x :: x in r ==> x in s
    requires Increasing(r, less)
    ensures forall i, j :: 0 <= i < j < |r| ==> r[i] != r[j]
  {
    forall i, j | 0 <= i < j < |r| ensures r[i] != r[j] {
      assert r[i] in s && less(r[i], r[j]);
    }
  }

  /** Strings compared code point by code point, a proper prefix first: the
      order of Rust's `String` (byte-wise UTF-8 order agrees with it). */
  predicate StrLess(a: string, b: string)
    decreases |a|
  {
    if |a| == 0 then |b| > 0
    else if |b| == 0 then false
    else if a[0] != b[0] then a[0] < b[0]
    else StrLess(a[1..], b[1..])
  }

  lemma {:induction false} StrLessIrreflexive(a: string)
    ensures !StrLess(a, a)
    decreases |a|
  {
    if |a| > 0 {
      StrLessIrreflexive(a[1..]);
    }
  }

  lemma {:induction false} StrLessTransitive(a: string, b: string, c: string)
    requires StrLess(a, b) && StrLess(b, c)
    ensures StrLess(a, c)
    decreases |a|
  {
    if |a| > 0 && a[0] == b[0] && b[0] == c[0] {
      StrLessTransitive(a[1..], b[1..], c[1..]);
    }
  }

  lemma {:induction false} StrLessTotal(a: string, b: string)
    requires a != b
    ensures StrLess(a, b) || StrLess(b, a)
    decreases |a|
  {
    if |a| > 0 && |b| > 0 && a[0] == b[0] {
      assert a == [a[0]] + a[1..] && b == [b[0]] + b[1..];
      StrLessTotal(a[1..], b[1..]);
    }
  }

  lemma StrLessIsOrder(s: set<string>)
    ensures StrictTotalOrderOn(StrLess, s)
  {
    forall a | a in s ensures !StrLess(a, a) {
      StrLessIrreflexive(a);
    }
    forall a, b, c | a in s && b in s && c in s && StrLess(a, b) && StrLess(b, c)
      ensures StrLess(a, c)
    {
      StrLessTransitive(a, b, c);
    }
    forall a, b | a in s && b in s && a != b ensures StrLess(a, b) || StrLess(b, a) {
      StrLessTotal(a, b);
    }
  }

  /** The keys of an ordered map in the order it visits them. */
  function SortedKeys(s: set<string>): (r: seq<string>)
    ensures |r| == |s|
    ensures forall k :: k in r <==> k in s
    ensures forall i, j :: 0 <= i < j < |r| ==> StrLess(r[i], r[j])
    ensures forall i, j :: 0 <= i < j < |r| ==> r[i] != r[j]
  {
    StrLessIsOrder(s);
    var r := SortedBy(s, StrLess);
    IncreasingDistinct(r, StrLess, s);
    r
  }
}
