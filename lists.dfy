/**
 * Operations of the .NET collections the source relies on, written over
 * sequences: `List<T>.Remove` (drops the first occurrence) and
 * `HashSet<T>.Add` (adds only when absent; a set that was never shrunk
 * enumerates in insertion order, which is what a sequence records).
 */
module Lists {

  /** No element occurs twice: the shape of a dictionary's keys or a hash set. */
  predicate Distinct<T(==)>(s: seq<T>) {
    forall i, j :: 0 <= i < j < |s| ==> s[i] != s[j]
  }

  /** Appending keeps a sequence without repetitions exactly when the new element is fresh. */
  lemma DistinctSnoc<T>(s: seq<T>, x: T)
    ensures Distinct(s + [x]) <==> Distinct(s) && x !in s
  {
    var r := s + [x];
    if Distinct(r) {
      assert forall i :: 0 <= i < |s| ==> r[i] == s[i];
      forall k | 0 <= k < |s| ensures s[k] != x {
        assert r[k] != r[|s|];
      }
    }
    if Distinct(s) && x !in s {
      forall i, j | 0 <= i < j < |r| ensures r[i] != r[j] {
        if j < |s| { assert r[i] == s[i] && r[j] == s[j]; } else { assert r[i] == s[i]; }
      }
    }
  }

  /** The position of the first occurrence of `x`. */
  function IndexOf<T(==)>(s: seq<T>, x: T): (i: nat)
    requires x in s
    ensures i < |s| && s[i] == x
    ensures x !in s[..i]
  {
    if s[0] == x then 0 else IndexOf(s[1..], x) + 1
  }

  /** `List<T>.Remove(x)`: drops the first occurrence of `x`, if there is one. */
  function RemoveFirst<T(==)>(s: seq<T>, x: T): (r: seq<T>)
    ensures x !in s ==> r == s
    ensures x in s ==> |r| == |s| - 1
  {
    if s == [] then []
    else if s[0] == x then s[1..]
    else [s[0]] + RemoveFirst(s[1..], x)
  }

  /** Removing the first occurrence cuts the sequence at that occurrence and keeps the order of the rest. */
  lemma {:induction false} RemoveFirstAt<T>(s: seq<T>, x: T)
    requires x in s
    ensures RemoveFirst(s, x) == s[..IndexOf(s, x)] + s[IndexOf(s, x) + 1..]
  {
    if s[0] != x {
      var t := s[1..];
      RemoveFirstAt(t, x);
      var i := IndexOf(t, x);
      assert IndexOf(s, x) == i + 1;
      calc {
        RemoveFirst(s, x);
        [s[0]] + RemoveFirst(t, x);
        [s[0]] + (t[..i] + t[i + 1..]);
        { assert [s[0]] + t[..i] == s[..i + 1]; assert t[i + 1..] == s[i + 2..]; }
        s[..i + 1] + s[i + 2..];
      }
    }
  }

  /**
   * Removing what was just appended takes out its earlier occurrence if
   * there is one, and otherwise undoes the append.
   */
  lemma {:induction false} RemoveFirstSnoc<T>(s: seq<T>, x: T)
    ensures x in s ==> RemoveFirst(s + [x], x) == RemoveFirst(s, x) + [x]
    ensures x !in s ==> RemoveFirst(s + [x], x) == s
  {
    if s == [] {
      assert [] + [x] == [x];
    } else {
      assert (s + [x])[1..] == s[1..] + [x];
      RemoveFirstSnoc(s[1..], x);
      if s[0] != x {
        assert x in s ==> x in s[1..];
        assert [s[0]] + s[1..] == s;
      }
    }
  }

  /** Cutting out position `i` shifts every later element down by one. */
  lemma DropIndex<T>(s: seq<T>, i: nat, k: nat)
    requires i < |s| && k < |s| - 1
    ensures (s[..i] + s[i + 1..])[k] == s[if k < i then k else k + 1]
  {
  }

  /** Cutting one element out of a sequence without repetitions leaves exactly the other elements, once each. */
  lemma DropDistinct<T>(s: seq<T>, i: nat)
    requires Distinct(s) && i < |s|
    ensures Distinct(s[..i] + s[i + 1..])
    ensures forall y :: y in s[..i] + s[i + 1..] <==> y in s && y != s[i]
  {
    var r := s[..i] + s[i + 1..];
    forall a, b | 0 <= a < b < |r| ensures r[a] != r[b] {
      DropIndex(s, i, a);
      DropIndex(s, i, b);
    }
    forall y | y in s && y != s[i] ensures y in r {
      var k :| 0 <= k < |s| && s[k] == y;
      if k < i {
        DropIndex(s, i, k);
      } else {
        DropIndex(s, i, k - 1);
      }
    }
    forall y | y in r ensures y in s && y != s[i] {
      var k :| 0 <= k < |r| && r[k] == y;
      DropIndex(s, i, k);
    }
  }

  /** On a sequence without repetitions, removing `x` leaves exactly the other elements. */
  lemma RemoveFirstDistinct<T>(s: seq<T>, x: T)
    requires Distinct(s)
    ensures Distinct(RemoveFirst(s, x))
    ensures forall y :: y in RemoveFirst(s, x) <==> y in s && y != x
  {
    if x in s {
      RemoveFirstAt(s, x);
      DropDistinct(s, IndexOf(s, x));
    }
  }

  /** Cutting one element out of a sequence without repetitions is removing its first occurrence, and keeps it without repetitions. */
  lemma DropAtDistinct<T>(s: seq<T>, i: nat)
    requires Distinct(s) && i < |s|
    ensures RemoveFirst(s, s[i]) == s[..i] + s[i + 1..]
    ensures Distinct(s[..i] + s[i + 1..])
  {
    assert IndexOf(s, s[i]) == i by {
      var k := IndexOf(s, s[i]);
      assert s[k] == s[i];
    }
    RemoveFirstAt(s, s[i]);
    DropDistinct(s, i);
  }

  /** `HashSet<T>.Add(x)`: appends `x` unless it is already present. */
  function AddIfAbsent<T(==, !new)>(s: seq<T>, x: T): (r: seq<T>)
    ensures Distinct(s) ==> Distinct(r)
    ensures forall y :: y in r <==> y in s || y == x
    ensures r == s <==> x in s
    ensures |s| <= |r| && r[..|s|] == s
  {
    if x in s then s else s + [x]
  }

  /** Adds every element of `xs`, in order, with set semantics. */
  function AddAll<T(==, !new)>(s: seq<T>, xs: seq<T>): (r: seq<T>)
    ensures Distinct(s) ==> Distinct(r)
    ensures forall y :: y in r <==> y in s || y in xs
    ensures |s| <= |r| && r[..|s|] == s
    ensures r == s <==> forall y :: y in xs ==> y in s
  {
    if xs == [] then s
    else
      var prev := AddAll(s, xs[..|xs| - 1]);
      assert forall y :: y in xs <==> y in xs[..|xs| - 1] || y == xs[|xs| - 1];
      assert prev[..|s|] == s;
      AddIfAbsent(prev, xs[|xs| - 1])
  }
}
