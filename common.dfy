/** Small value types shared by the order and table-group modules, and the
    counting fact behind every "found as many as were asked for" check. */
module Common {

  /** A value that may be absent: a nullable Java reference. */
  datatype Option<+T> = None | Some(value: T)

  /** The outcome of an operation that returns a value or is rejected. */
  datatype Result<+R, +E> = Success(value: R) | Failure(error: E)

  /** The outcome of an operation that returns nothing or is rejected. */
  datatype Outcome<+E> = Pass | Fail(error: E)

  /** No element occurs twice. */
  predicate Distinct<T(==)>(s: seq<T>)
  {
    forall i, j :: 0 <= i < j < |s| ==> s[i] != s[j]
  }

  /** The elements of `s` that a repository holds: what an "IN (...)" lookup returns. */
  function Present<T(==)>(s: seq<T>, known: set<T>): set<T>
  {
    set x | x in s && x in known
  }

  lemma DistinctCons<T>(s: seq<T>)
    requires s != []
    ensures Distinct(s) <==> s[0] !in s[1..] && Distinct(s[1..])
  {
    if s[0] in s[1..] {
      var j :| 0 <= j < |s[1..]| && s[1..][j] == s[0];
      assert s[0] == s[j + 1];
    }
    if s[0] !in s[1..] && Distinct(s[1..]) {
      forall i, j | 0 <= i < j < |s| ensures s[i] != s[j] {
        if i == 0 {
          assert s[j] == s[1..][j - 1];
        } else {
          assert s[i] == s[1..][i - 1] && s[j] == s[1..][j - 1];
        }
      }
    }
  }

  lemma PresentCons<T>(s: seq<T>, known: set<T>)
    requires s != []
    ensures Present(s, known) == Present(s[1..], known) + (if s[0] in known then {s[0]} else {})
  {
    assert s == [s[0]] + s[1..];
  }

  lemma AllKnownCons<T>(s: seq<T>, known: set<T>)
    requires s != []
    ensures (forall i :: 0 <= i < |s| ==> s[i] in known)
        <==> s[0] in known && forall i :: 0 <= i < |s[1..]| ==> s[1..][i] in known
  {
    if s[0] in known && forall i :: 0 <= i < |s[1..]| ==> s[1..][i] in known {
      forall i | 0 <= i < |s| ensures s[i] in known {
        if i > 0 { assert s[i] == s[1..][i - 1]; }
      }
    }
  }

  /** A lookup finds at most as many elements as were asked for, and exactly as
      many precisely when the request names no element twice and every element
      it names is known. */
  lemma {:induction false} PresentCountIff<T>(s: seq<T>, known: set<T>)
    ensures |Present(s, known)| <= |s|
    ensures |Present(s, known)| == |s| <==> Distinct(s) && forall i :: 0 <= i < |s| ==> s[i] in known
  {
    if s == [] {
      assert Present(s, known) == {};
    } else {
      var x, rest := s[0], s[1..];
      PresentCountIff(rest, known);
      PresentCons(s, known);
      DistinctCons(s);
      AllKnownCons(s, known);
      if x in known && x in rest {
        assert x in Present(rest, known);
      }
    }
  }

  /** The distinct elements a request names. */
  function Elements<T(==)>(s: seq<T>): set<T>
  {
    set x | x in s
  }

  lemma ElementsSnoc<T>(front: seq<T>, last: T)
    ensures Elements(front + [last]) == Elements(front) + {last}
  {
    var s := front + [last];
    forall x | x in Elements(s) ensures x in Elements(front) + {last} {
      var k :| 0 <= k < |s| && s[k] == x;
      if k < |front| { assert front[k] == x; }
    }
    assert s[|front|] == last;
  }

  lemma DistinctSnoc<T>(front: seq<T>, last: T)
    requires Distinct(front) && last !in front
    ensures Distinct(front + [last])
  {
    var s := front + [last];
    forall i, j | 0 <= i < j < |s| ensures s[i] != s[j] {
      if j == |front| {
        assert s[i] == front[i];
      } else {
        assert s[i] == front[i] && s[j] == front[j];
      }
    }
  }

  /** The request without repeats, each element kept at its first occurrence. */
  function Dedup<T(==)>(s: seq<T>): (r: seq<T>)
    ensures Distinct(r)
    ensures Elements(r) == Elements(s)
  {
    if s == [] then []
    else
      var front, last := s[..|s| - 1], s[|s| - 1];
      assert s == front + [last];
      var rest := Dedup(front);
      ElementsSnoc(front, last);
      if last in front then
        assert last in Elements(front);
        rest
      else
        assert last !in Elements(rest);
        DistinctSnoc(rest, last);
        ElementsSnoc(rest, last);
        rest + [last]
  }

  lemma SubsetCardinality<T>(a: set<T>, b: set<T>)
    requires a <= b
    ensures |a| <= |b|
    ensures |a| == |b| ==> a == b
  {
    if a != b {
      var x :| x in b && x !in a;
      SubsetCardinality(a, b - {x});
    }
  }

  /** A lookup finds as many elements as the request names distinct ones
      exactly when every element the request names is known; repeats in the
      request do not matter. */
  lemma PresentCoversRequest<T>(s: seq<T>, known: set<T>)
    ensures |Present(s, known)| <= |Elements(s)|
    ensures |Present(s, known)| == |Elements(s)| <==> forall i :: 0 <= i < |s| ==> s[i] in known
  {
    SubsetCardinality(Present(s, known), Elements(s));
    if forall i :: 0 <= i < |s| ==> s[i] in known {
      assert Present(s, known) == Elements(s);
    } else {
      var i :| 0 <= i < |s| && s[i] !in known;
      assert s[i] in s;
      assert s[i] in Elements(s);
      assert s[i] !in Present(s, known);
      assert Present(s, known) != Elements(s);
    }
  }
}
