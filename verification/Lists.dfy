/** Duplicate-free lists, as Go's container/list is used: move to front, push, remove. */
module Lists {

  ghost predicate NoDuplicates<T>(s: seq<T>) { forall i, j :: 0 <= i < j < |s| ==> s[i] != s[j] }

  function Remove<T(==)>(s: seq<T>, x: T): seq<T>
  {
    if s == [] then []
    else if s[0] == x then Remove(s[1..], x)
    else [s[0]] + Remove(s[1..], x)
  }

  function ToFront<T(==)>(s: seq<T>, x: T): seq<T> { [x] + Remove(s, x) }

  lemma NoDuplicatesSnoc<T>(s: seq<T>, x: T)
    requires NoDuplicates(s) && x !in s
    ensures NoDuplicates(s + [x])
  {
    forall i | 0 <= i < |s| ensures s[i] != x { assert s[i] in s; }
  }

  lemma {:induction false} InRemove<T>(s: seq<T>, x: T, y: T)
    ensures y in Remove(s, x) <==> y in s && y != x
  {
    if s != [] {
      InRemove(s[1..], x, y);
      assert y in s <==> y == s[0] || y in s[1..];
    }
  }

  lemma {:induction false} RemoveAbsent<T>(s: seq<T>, x: T)
    requires x !in s
    ensures Remove(s, x) == s
  {
    if s != [] {
      RemoveAbsent(s[1..], x);
    }
  }

  /** Removing the one occurrence of `x`. */
  lemma {:induction false} RemoveMiddle<T>(a: seq<T>, x: T, b: seq<T>)
    requires NoDuplicates(a + [x] + b)
    ensures Remove(a + [x] + b, x) == a + b
  {
    var s := a + [x] + b;
    if a == [] {
      assert s[1..] == b;
      assert x !in b by {
        forall i | 0 <= i < |b| ensures b[i] != x { assert s[0] == x && s[i + 1] == b[i]; }
      }
      RemoveAbsent(b, x);
    } else {
      assert s[1..] == a[1..] + [x] + b;
      assert s[0] == a[0] && s[|a|] == x;
      RemoveMiddle(a[1..], x, b);
    }
  }

  lemma SplitAt<T>(s: seq<T>, x: T) returns (a: seq<T>, b: seq<T>)
    requires x in s
    ensures s == a + [x] + b
  {
    var i :| 0 <= i < |s| && s[i] == x;
    a, b := s[..i], s[i + 1..];
  }

  lemma NoDuplicatesPart<T>(a: seq<T>, x: T, b: seq<T>)
    requires NoDuplicates(a + [x] + b)
    ensures NoDuplicates(a + b) && x !in a && x !in b
  {
    var s := a + [x] + b;
    forall i | 0 <= i < |a| ensures a[i] != x { assert s[i] == a[i] && s[|a|] == x; }
    forall i | 0 <= i < |b| ensures b[i] != x { assert s[|a| + 1 + i] == b[i] && s[|a|] == x; }
    forall i, j | 0 <= i < j < |a + b| ensures (a + b)[i] != (a + b)[j] {
      var i', j' := if i < |a| then i else i + 1, if j < |a| then j else j + 1;
      assert s[i'] == (a + b)[i] && s[j'] == (a + b)[j];
    }
  }

  /** Moving an element to the front keeps the list duplicate-free, with the same elements. */
  lemma ToFrontKeeps<T>(s: seq<T>, x: T)
    requires NoDuplicates(s) && x in s
    ensures NoDuplicates(ToFront(s, x)) && |ToFront(s, x)| == |s|
    ensures forall y :: y in ToFront(s, x) <==> y in s
  {
    var a, b := SplitAt(s, x);
    RemoveMiddle(a, x, b);
    NoDuplicatesPart(a, x, b);
    forall y ensures y in ToFront(s, x) <==> y in s { InRemove(s, x, y); }
  }

  lemma RemoveAt<T>(s: seq<T>, i: nat, x: T)
    requires NoDuplicates(s) && i < |s| && x == s[i]
    ensures Remove(s, x) == s[..i] + s[i + 1..]
  {
    var a, b := s[..i], s[i + 1..];
    assert s == a + [x] + b;
    RemoveMiddle(a, x, b);
  }
}
