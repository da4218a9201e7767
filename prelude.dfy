/** Option and Result wrappers and generic facts about filtering sequences.
    Query sets and table scans in the rest of the model are filters over
    sequences, so the lemmas here are shared by every module. */
module Prelude {

  datatype Option<T> = None | Some(value: T)

  datatype Result<T, E> = Ok(value: T) | Err(error: E)

  /** The elements of `s` that satisfy `p`, in their original order. */
  function Filter<T(!new)>(p: T -> bool, s: seq<T>): (r: seq<T>)
    ensures |r| <= |s|
    ensures forall x :: x in r <==> x in s && p(x)
    decreases |s|
  {
    if s == [] then []
    else if p(s[0]) then [s[0]] + Filter(p, s[1..])
    else Filter(p, s[1..])
  }

  /** No element occurs twice. */
  ghost predicate Unique<T>(s: seq<T>) {
    forall i, j :: 0 <= i < j < |s| ==> s[i] != s[j]
  }

  /** `le` holds between every element and every later one. */
  ghost predicate Sorted<T>(s: seq<T>, le: (T, T) -> bool) {
    forall i, j :: 0 <= i < j < |s| ==> le(s[i], s[j])
  }

  /** The predicate "differs from `x`". */
  function Other<T(==)>(x: T): T -> bool {
    y => y != x
  }

  /** The set of the elements of a sequence (Python's `set(value)`). */
  function Elements<T>(s: seq<T>): set<T> {
    set x | x in s
  }

  lemma {:induction false} FilterAppend<T(!new)>(p: T -> bool, a: seq<T>, b: seq<T>)
    ensures Filter(p, a + b) == Filter(p, a) + Filter(p, b)
    decreases |a|
  {
    if a == [] {
      assert a + b == b;
    } else {
      assert (a + b)[1..] == a[1..] + b;
      FilterAppend(p, a[1..], b);
    }
  }

  /** Filtering with a predicate every element satisfies changes nothing. */
  lemma {:induction false} FilterKeepsAll<T(!new)>(p: T -> bool, s: seq<T>)
    requires forall x :: x in s ==> p(x)
    ensures Filter(p, s) == s
    decreases |s|
  {
    if s != [] {
      FilterKeepsAll(p, s[1..]);
    }
  }

  /** Filtering with a predicate no element satisfies leaves nothing. */
  lemma FilterKeepsNone<T(!new)>(p: T -> bool, s: seq<T>)
    requires forall x :: x in s ==> !p(x)
    ensures Filter(p, s) == []
  {
    if Filter(p, s) != [] {
      assert Filter(p, s)[0] in Filter(p, s);
    }
  }

  lemma IndexIsMember<T>(s: seq<T>, i: nat)
    requires i < |s|
    ensures s[i] in s
  {}

  /** A sequence without members is empty. */
  lemma NothingIn<T>(s: seq<T>)
    requires forall x :: x !in s
    ensures s == []
  {
    if |s| > 0 {
      IndexIsMember(s, 0);
    }
  }

  /** Two predicates that agree on every element filter alike. */
  lemma {:induction false} FilterAgrees<T(!new)>(p: T -> bool, q: T -> bool, s: seq<T>)
    requires forall x :: x in s ==> p(x) == q(x)
    ensures Filter(p, s) == Filter(q, s)
    decreases |s|
  {
    if s != [] {
      assert s[0] in s;
      FilterAgrees(p, q, s[1..]);
    }
  }

  /** Filtering by a predicate that implies the first filter's predicate
      makes the first filter redundant. */
  lemma {:induction false} FilterNarrower<T(!new)>(p: T -> bool, q: T -> bool, s: seq<T>)
    requires forall x :: x in s && p(x) ==> q(x)
    ensures Filter(p, Filter(q, s)) == Filter(p, s)
    decreases |s|
  {
    if s != [] {
      FilterNarrower(p, q, s[1..]);
    }
  }

  lemma {:induction false} FilterKeepsUnique<T(!new)>(p: T -> bool, s: seq<T>)
    requires Unique(s)
    ensures Unique(Filter(p, s))
    decreases |s|
  {
    if s != [] {
      assert Unique(s[1..]) by {
        forall i, j | 0 <= i < j < |s[1..]| ensures s[1..][i] != s[1..][j] {
          assert s[1..][i] == s[i + 1] && s[1..][j] == s[j + 1];
        }
      }
      FilterKeepsUnique(p, s[1..]);
      var t := Filter(p, s[1..]);
      if p(s[0]) {
        assert s[0] !in s[1..] by {
          forall k | 0 <= k < |s[1..]| ensures s[1..][k] != s[0] {
            assert s[1..][k] == s[k + 1];
          }
        }
        assert s[0] !in t;
        UniqueCons(s[0], t);
      }
    }
  }

  lemma UniqueSnoc<T>(t: seq<T>, x: T)
    requires x !in t && Unique(t)
    ensures Unique(t + [x])
  {
    var s := t + [x];
    forall i, j | 0 <= i < j < |s| ensures s[i] != s[j] {
      assert s[i] == t[i];
      if j < |t| {
        assert s[j] == t[j];
      }
    }
  }

  lemma UniqueCons<T>(x: T, t: seq<T>)
    requires x !in t && Unique(t)
    ensures Unique([x] + t)
  {
    var s := [x] + t;
    forall i, j | 0 <= i < j < |s| ensures s[i] != s[j] {
      assert s[j] == t[j - 1];
      if i > 0 {
        assert s[i] == t[i - 1];
      }
    }
  }

  lemma {:induction false} FilterKeepsSorted<T(!new)>(p: T -> bool, s: seq<T>, le: (T, T) -> bool)
    requires Sorted(s, le)
    ensures Sorted(Filter(p, s), le)
    decreases |s|
  {
    if s != [] {
      assert Sorted(s[1..], le) by {
        forall i, j | 0 <= i < j < |s[1..]| ensures le(s[1..][i], s[1..][j]) {
          assert s[1..][i] == s[i + 1] && s[1..][j] == s[j + 1];
        }
      }
      FilterKeepsSorted(p, s[1..], le);
      var t := Filter(p, s[1..]);
      if p(s[0]) {
        var r := [s[0]] + t;
        forall i, j | 0 <= i < j < |r| ensures le(r[i], r[j]) {
          if i == 0 {
            assert r[j] in s[1..];
            var k :| 0 <= k < |s[1..]| && s[1..][k] == r[j];
            assert s[1..][k] == s[k + 1];
          } else {
            assert r[i] == t[i - 1] && r[j] == t[j - 1];
          }
        }
      }
    }
  }

  /** A sequence without repeats has as many distinct elements as entries,
      and only such a sequence does. */
  lemma {:induction false} ElementsCount<T>(s: seq<T>)
    ensures |Elements(s)| <= |s|
    ensures |Elements(s)| == |s| <==> Unique(s)
    decreases |s|
  {
    if s == [] {
    } else {
      var t := s[1..];
      ElementsCount(t);
      assert s == [s[0]] + t;
      assert Elements(s) == {s[0]} + Elements(t);
      if s[0] in t {
        assert Elements(s) == Elements(t);
        var k :| 0 <= k < |t| && t[k] == s[0];
        assert s[k + 1] == s[0];
        assert !Unique(s);
      } else {
        assert s[0] !in Elements(t);
        assert |Elements(s)| == 1 + |Elements(t)|;
        if Unique(t) {
          UniqueCons(s[0], t);
        } else {
          var i, j :| 0 <= i < j < |t| && t[i] == t[j];
          assert s[i + 1] == s[j + 1];
        }
      }
    }
  }
}
