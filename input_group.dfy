/**
 * A priority group (input_group.py): a fixed id and the ordered list of
 * member zones, compared by identity.
 */
module InputGroups {
  import opened InputZones

  /** Position of the first occurrence of x in s (what `list.remove` looks for). */
  function IndexOf<T(==)>(s: seq<T>, x: T): (i: nat)
    requires x in s
    ensures i < |s| && s[i] == x
    ensures x !in s[..i]
  {
    if s[0] == x then 0 else 1 + IndexOf(s[1..], x)
  }

  /** `list.remove(x)`: deletes the first occurrence of x and keeps the order of the rest. */
  function RemoveFirst<T(==)>(s: seq<T>, x: T): (r: seq<T>)
    requires x in s
    ensures |r| == |s| - 1
    ensures multiset(r) == multiset(s) - multiset{x}
  {
    var i := IndexOf(s, x);
    assert s == s[..i] + [x] + s[i+1..];
    s[..i] + s[i+1..]
  }

  /** Removing a member of a duplicate-free list leaves exactly the other members, still distinct. */
  lemma RemoveFirstDistinct<T>(s: seq<T>, x: T)
    requires x in s
    requires forall i, j :: 0 <= i < j < |s| ==> s[i] != s[j]
    ensures forall y :: y in RemoveFirst(s, x) <==> y in s && y != x
    ensures forall i, j :: 0 <= i < j < |RemoveFirst(s, x)| ==> RemoveFirst(s, x)[i] != RemoveFirst(s, x)[j]
  {
    var i := IndexOf(s, x);
    assert RemoveFirst(s, x) == Cut(s, i);
    CutMembers(s, i);
    CutDistinct(s, i);
  }

  /** The list without its slot i. */
  function Cut<T>(s: seq<T>, i: nat): seq<T>
    requires i < |s|
  {
    s[..i] + s[i+1..]
  }

  /** Cutting slot i out of a duplicate-free list leaves exactly the other elements. */
  lemma CutMembers<T>(s: seq<T>, i: nat)
    requires i < |s|
    requires forall a, b :: 0 <= a < b < |s| ==> s[a] != s[b]
    ensures forall y :: y in Cut(s, i) <==> y in s && y != s[i]
  {
    var r := Cut(s, i);
    forall y ensures y in r <==> y in s && y != s[i] {
      if y in r {
        var k :| 0 <= k < |r| && r[k] == y;
        if k < i { assert s[k] == y; } else { assert s[k+1] == y; }
      }
      if y in s && y != s[i] {
        var k :| 0 <= k < |s| && s[k] == y;
        if k < i { assert r[k] == y; } else { assert r[k-1] == y; }
      }
    }
  }

  /** Cutting a slot out of a duplicate-free list keeps it duplicate-free. */
  lemma CutDistinct<T>(s: seq<T>, i: nat)
    requires i < |s|
    requires forall a, b :: 0 <= a < b < |s| ==> s[a] != s[b]
    ensures forall a, b :: 0 <= a < b < |Cut(s, i)| ==> Cut(s, i)[a] != Cut(s, i)[b]
  {
    var r := Cut(s, i);
    forall a, b | 0 <= a < b < |r| ensures r[a] != r[b] {
      var a' := if a < i then a else a + 1;
      var b' := if b < i then b else b + 1;
      assert r[a] == s[a'] && r[b] == s[b'];
    }
  }

  /** In a duplicate-free list, removing the element at position i cuts out exactly that slot. */
  lemma RemoveFirstAt<T>(s: seq<T>, i: nat)
    requires i < |s|
    requires forall a, b :: 0 <= a < b < |s| ==> s[a] != s[b]
    ensures RemoveFirst(s, s[i]) == s[..i] + s[i+1..]
  {
    assert IndexOf(s, s[i]) == i;
  }

  /** Appending a non-member and then removing it restores the list. */
  lemma {:induction false} AddThenRemove<T>(s: seq<T>, x: T)
    requires x !in s
    ensures RemoveFirst(s + [x], x) == s
  {
    var t := s + [x];
    var i := IndexOf(t, x);
    assert t[..|s|] == s;
    if i < |s| {
      assert false;
    }
    assert t[..i] == s;
  }

  /** The list with every element of r left out, the order of the rest kept. */
  function Without<T(==)>(s: seq<T>, r: set<T>): (t: seq<T>)
    ensures |t| <= |s|
    ensures forall i :: 0 <= i < |t| ==> t[i] in s && t[i] !in r
  {
    if s == [] then [] else (if s[0] in r then [] else [s[0]]) + Without(s[1..], r)
  }

  /** The elements kept are exactly those of the list outside r. */
  lemma {:induction false} WithoutMembers<T>(s: seq<T>, r: set<T>)
    ensures forall y :: y in Without(s, r) <==> y in s && y !in r
  {
    if s != [] {
      WithoutMembers(s[1..], r);
      assert s == [s[0]] + s[1..];
    }
  }

  /** Leaving out elements the list does not hold changes nothing. */
  lemma {:induction false} WithoutNothing<T>(s: seq<T>, r: set<T>)
    requires forall y :: y in s ==> y !in r
    ensures Without(s, r) == s
  {
    if s != [] {
      WithoutNothing(s[1..], r);
      assert s == [s[0]] + s[1..];
    }
  }

  /** Leaving out A and then B is leaving out both at once. */
  lemma {:induction false} WithoutTwice<T>(s: seq<T>, a: set<T>, b: set<T>)
    ensures Without(Without(s, a), b) == Without(s, a + b)
  {
    if s != [] {
      WithoutTwice(s[1..], a, b);
      var head := if s[0] in a then [] else [s[0]];
      assert Without(s, a) == head + Without(s[1..], a);
      WithoutConcat(head, Without(s[1..], a), b);
    }
  }

  /** Leaving elements out of a concatenation leaves them out of each part. */
  lemma {:induction false} WithoutConcat<T>(s: seq<T>, t: seq<T>, r: set<T>)
    ensures Without(s + t, r) == Without(s, r) + Without(t, r)
  {
    if s != [] {
      WithoutConcat(s[1..], t, r);
      assert (s + t)[1..] == s[1..] + t;
    } else {
      assert s + t == t;
    }
  }

  /** The tail of a duplicate-free list is duplicate-free and does not hold the head. */
  lemma DistinctTail<T>(s: seq<T>)
    requires s != [] && forall i, j :: 0 <= i < j < |s| ==> s[i] != s[j]
    ensures forall i, j :: 0 <= i < j < |s[1..]| ==> s[1..][i] != s[1..][j]
    ensures s[0] !in s[1..]
  {
    forall i, j | 0 <= i < j < |s[1..]|
      ensures s[1..][i] != s[1..][j]
    {
      assert s[1..][i] == s[i + 1] && s[1..][j] == s[j + 1];
    }
    forall k | 0 <= k < |s[1..]|
      ensures s[1..][k] != s[0]
    {
      assert s[1..][k] == s[k + 1];
    }
  }

  /** In a duplicate-free list, removing the first occurrence of x is leaving x out. */
  lemma {:induction false} RemoveFirstIsWithout<T>(s: seq<T>, x: T)
    requires x in s
    requires forall i, j :: 0 <= i < j < |s| ==> s[i] != s[j]
    ensures RemoveFirst(s, x) == Without(s, {x})
  {
    var t := s[1..];
    DistinctTail(s);
    if s[0] == x {
      WithoutNothing(t, {x});
      assert IndexOf(s, x) == 0;
    } else {
      RemoveFirstTail(s, x);
      RemoveFirstIsWithout(t, x);
    }
  }

  /** Removing an element other than the head removes it from the tail. */
  lemma RemoveFirstTail<T>(s: seq<T>, x: T)
    requires x in s && s[0] != x
    ensures x in s[1..] && RemoveFirst(s, x) == [s[0]] + RemoveFirst(s[1..], x)
  {
    var t := s[1..];
    assert x in t by {
      var k :| 0 <= k < |s| && s[k] == x;
      assert t[k - 1] == x;
    }
    var i := IndexOf(t, x);
    assert IndexOf(s, x) == i + 1;
    assert s[..i+1] == [s[0]] + t[..i];
    assert s[i+2..] == t[i+1..];
  }

  class InputGroup {
    const id: int
    var zones: seq<InputZone>

    /** A new group has the given id and no members. */
    constructor (id: int)
      ensures this.id == id && zones == []
    {
      this.id := id;
      zones := [];
    }

    /** Appends a member at the end. */
    method AddZone(zone: InputZone)
      modifies this`zones
      ensures zones == old(zones) + [zone]
    {
      zones := zones + [zone];
    }

    /** Deletes the first occurrence of the member; a non-member makes `list.remove` raise. */
    method RemoveZone(zone: InputZone)
      requires zone in zones
      modifies this`zones
      ensures zones == RemoveFirst(old(zones), zone)
      ensures var i := IndexOf(old(zones), zone); zones == old(zones)[..i] + old(zones)[i+1..]
    {
      var i := 0;
      while zones[i] != zone
        invariant 0 <= i <= IndexOf(zones, zone)
        invariant zone !in zones[..i]
        decreases |zones| - i
      {
        i := i + 1;
      }
      zones := zones[..i] + zones[i+1..];
    }
  }
}
