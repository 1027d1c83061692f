/** OAuth scope normalisation of auth/scopes.go, over any implication table: the transitive walk,
    the pass that deletes from the set it is iterating, and the header round trip. */
module Scopes {
  import opened Strings
  import opened Lists
  import opened Sorting

  type Scope = string

  // A parent scope and the children it grants.
  type Table = map<Scope, seq<Scope>>

  function Children(t: Table, s: Scope): seq<Scope> { if s in t then t[s] else [] }

  predicate Edge(t: Table, a: Scope, b: Scope) { b in Children(t, a) }

  /** A chain of grants from the first scope to the last. */
  predicate Chain(t: Table, p: seq<Scope>) {
    |p| >= 2 && forall i :: 0 <= i < |p| - 1 ==> Edge(t, p[i], p[i + 1])
  }

  ghost predicate Reaches(t: Table, a: Scope, b: Scope) {
    exists p :: Chain(t, p) && p[0] == a && p[|p| - 1] == b
  }

  ghost predicate Acyclic(t: Table) { forall a :: !Reaches(t, a, a) }

  /** Every scope some other grants. */
  function Universe(t: Table): set<Scope> { set a, b | a in t && b in t[a] :: b }

  lemma EdgeReaches(t: Table, a: Scope, b: Scope)
    requires Edge(t, a, b)
    ensures Reaches(t, a, b)
  {
    assert Chain(t, [a, b]);
  }

  lemma ReachesTransitive(t: Table, a: Scope, b: Scope, c: Scope)
    requires Reaches(t, a, b) && Reaches(t, b, c)
    ensures Reaches(t, a, c)
  {
    var p :| Chain(t, p) && p[0] == a && p[|p| - 1] == b;
    var q :| Chain(t, q) && q[0] == b && q[|q| - 1] == c;
    var r := p + q[1..];
    forall i | 0 <= i < |r| - 1 ensures Edge(t, r[i], r[i + 1]) {
      if i < |p| - 1 {
        assert Edge(t, p[i], p[i + 1]);
      } else {
        assert Edge(t, q[i - |p| + 1], q[i - |p| + 2]);
      }
    }
    assert Chain(t, r);
  }

  /** A set that holds the children of `s` and of its own members holds all that `s` reaches. */
  lemma {:induction false} ClosedHoldsReachable(t: Table, s: Scope, closed: set<Scope>, p: seq<Scope>)
    requires forall b :: Edge(t, s, b) ==> b in closed
    requires forall a, b :: a in closed && Edge(t, a, b) ==> b in closed
    requires Chain(t, p) && p[0] == s
    ensures p[|p| - 1] in closed
    decreases |p|
  {
    assert Edge(t, p[0], p[1]);
    if |p| > 2 {
      var q := p[..|p| - 1];
      assert Chain(t, q) by {
        forall i | 0 <= i < |q| - 1 ensures Edge(t, q[i], q[i + 1]) { assert Edge(t, p[i], p[i + 1]); }
      }
      ClosedHoldsReachable(t, s, closed, q);
      assert Edge(t, p[|p| - 2], p[|p| - 1]);
    }
  }

  // ---- allImplied ----

  /** The walk's shared state: what has been seen, in the order it was appended. */
  class Walker {
    const table: Table
    var out: seq<Scope>
    var seen: set<Scope>

    ghost predicate Valid()
      reads this
    {
      && seen <= Universe(table)
      && (forall x :: x in out <==> x in seen)
      && NoDuplicates(out)
    }

    constructor (t: Table)
      ensures table == t && Valid() && out == [] && seen == {}
    {
      table, out, seen := t, [], {};
    }

    /** Since `start`, only scopes reached from `s` were seen, and their children were seen too. */
    ghost predicate Explored(s: Scope, start: set<Scope>)
      reads this
    {
      && start <= seen
      && (forall a, b :: a in seen && a !in start && Edge(table, a, b) ==> b in seen)
      && (forall x :: x in seen && x !in start ==> Reaches(table, s, x))
    }

    /** The children of `s` and everything reached from it are seen afterwards. */
    method Walk(s: Scope)
      requires Valid()
      modifies this
      ensures Valid() && Explored(s, old(seen))
      ensures forall b :: Edge(table, s, b) ==> b in seen
      decreases |Universe(table) - seen|, 1
    {
      var children := Children(table, s);
      for i := 0 to |children|
        invariant Valid() && Explored(s, old(seen))
        invariant forall b :: b in children[..i] ==> b in seen
      {
        var child := children[i];
        assert children[..i + 1] == children[..i] + [child];
        if child !in seen {
          SmallerSet(Universe(table) - seen, Universe(table) - old(seen));
          Visit(s, child, old(seen));
        }
      }
      assert children[..|children|] == children;
    }

    method Visit(s: Scope, child: Scope, ghost start: set<Scope>)
      requires Valid() && child !in seen && Edge(table, s, child) && Explored(s, start)
      modifies this
      ensures Valid() && Explored(s, start) && child in seen && old(seen) <= seen
      decreases |Universe(table) - seen|, 0
    {
      EdgeReaches(table, s, child);
      assert child in Universe(table);
      NoDuplicatesSnoc(out, child);
      seen := seen + {child};
      out := out + [child];
      assert child in old(Universe(table) - seen) && child !in Universe(table) - seen;
      SmallerSet(Universe(table) - seen, old(Universe(table) - seen));
      label before:
      Walk(child);
      forall x | x in seen && x !in start ensures Reaches(table, s, x) {
        if x !in old@before(seen) {
          ReachesTransitive(table, s, child, x);
        }
      }
    }
  }

  lemma SmallerSet<T>(a: set<T>, b: set<T>)
    requires a <= b
    ensures |a| <= |b| && (a != b ==> |a| < |b|)
  {
    assert b == a + (b - a);
    assert |b| == |a| + |b - a|;
    assert a != b ==> b - a != {};
  }

  /** allImplied: exactly the scopes `parent` grants, directly or through others, each once. */
  method AllImplied(t: Table, parent: Scope) returns (out: seq<Scope>)
    ensures forall x :: x in out <==> Reaches(t, parent, x)
    ensures forall i, j :: 0 <= i < j < |out| ==> out[i] != out[j]
  {
    var w := new Walker(t);
    w.Walk(parent);
    out := w.out;
    forall x | Reaches(t, parent, x) ensures x in w.seen {
      var p :| Chain(t, p) && p[0] == parent && p[|p| - 1] == x;
      ClosedHoldsReachable(t, parent, w.seen, p);
    }
  }

  // ---- NormalizeScopes ----

  /** The validation set: every parent, every child, and the standalone scopes. */
  function Known(t: Table, standalone: set<Scope>): set<Scope> { t.Keys + Universe(t) + standalone }

  function Held(t: Table, standalone: set<Scope>, scopes: seq<Scope>): set<Scope> {
    set s | s in scopes && s in Known(t, standalone)
  }

  /** Held, and granted by no other held scope. */
  ghost predicate Maximal(t: Table, held: set<Scope>, s: Scope) {
    s in held && forall h :: h in held ==> !Reaches(t, h, s)
  }

  predicate StrictlySorted(s: seq<Scope>) {
    forall i, j :: 0 <= i < j < |s| ==> LexLeq(s[i], s[j]) && s[i] != s[j]
  }

  /** What NormalizeScopes promises: the maximal known scopes, sorted, each once. */
  ghost predicate Normal(t: Table, standalone: set<Scope>, input: seq<Scope>, out: seq<Scope>) {
    StrictlySorted(out) && forall s :: s in out <==> Maximal(t, Held(t, standalone, input), s)
  }

  /** Under an acyclic table every held scope is maximal or granted by one that is. */
  lemma {:induction false} MaximalAbove(t: Table, held: set<Scope>, s: Scope) returns (m: Scope)
    requires Acyclic(t) && s in held
    ensures Maximal(t, held, m) && (m == s || Reaches(t, m, s))
    decreases |Above(t, held, s)|
  {
    if Maximal(t, held, s) {
      m := s;
    } else {
      var h :| h in held && Reaches(t, h, s);
      var above, above' := Above(t, held, s), Above(t, held, h);
      forall x | x in above' ensures x in above { ReachesTransitive(t, x, h, s); }
      assert h in above && h !in above';
      SmallerSet(above', above);
      m := MaximalAbove(t, held, h);
      if m != h {
        ReachesTransitive(t, m, h, s);
      }
    }
  }

  ghost function Above(t: Table, held: set<Scope>, s: Scope): set<Scope> { set h | h in held && Reaches(t, h, s) }

  /** The deletion pass: `held` is iterated while entries are deleted from it, each present entry being
      visited at most once, in any order. */
  method DropImplied(t: Table, initial: set<Scope>) returns (held: set<Scope>)
    requires Acyclic(t)
    ensures forall s :: s in held <==> Maximal(t, initial, s)
  {
    held := initial;
    var visited: set<Scope> := {};
    while held - visited != {}
      invariant held <= initial && visited <= initial
      invariant forall s :: s in initial && s !in held ==> exists h :: h in initial && Reaches(t, h, s)
      invariant forall v, s :: v in visited && Reaches(t, v, s) ==> s !in held
      decreases |initial - visited|
    {
      var parent :| parent in held - visited;
      SmallerSet(initial - visited - {parent}, initial - visited);
      visited := visited + {parent};
      assert initial - visited == initial - (visited - {parent}) - {parent};
      var implied := AllImplied(t, parent);
      ghost var before := held;
      held := Without(held, parent, implied);
    }
    forall s | s in held ensures Maximal(t, initial, s) {
      forall h | h in initial ensures !Reaches(t, h, s) {
        if Reaches(t, h, s) {
          var m := MaximalAbove(t, initial, h);
          assert m in held && m in visited;
          if m != h {
            ReachesTransitive(t, m, h, s);
          }
        }
      }
    }
  }

  /** The inner loop: each child other than the parent itself is deleted. */
  method Without(held: set<Scope>, parent: Scope, children: seq<Scope>) returns (rest: set<Scope>)
    ensures rest == held - (set c | c in children && c != parent)
  {
    rest := held;
    for i := 0 to |children|
      invariant rest == held - (set c | c in children[..i] && c != parent)
    {
      if children[i] != parent {
        rest := rest - {children[i]};
      }
      assert children[..i + 1] == children[..i] + [children[i]];
    }
    assert children[..|children|] == children;
  }

  /** The map's keys as a slice, in whatever order the map yields them. */
  method Collect(held: set<Scope>) returns (out: seq<Scope>)
    ensures forall s :: s in out <==> s in held
    ensures NoDuplicates(out)
  {
    out := [];
    var left := held;
    while left != {}
      invariant left <= held
      invariant forall s :: s in out <==> s in held - left
      invariant NoDuplicates(out)
      decreases |left|
    {
      var s :| s in left;
      NoDuplicatesSnoc(out, s);
      left := left - {s};
      out := out + [s];
    }
  }

  method NormalizeScopes(t: Table, standalone: set<Scope>, input: seq<Scope>) returns (out: seq<Scope>)
    requires Acyclic(t)
    ensures Normal(t, standalone, input, out)
  {
    var known := Known(t, standalone);
    var held: set<Scope> := {};
    for i := 0 to |input|
      invariant held == Held(t, standalone, input[..i])
    {
      assert input[..i + 1] == input[..i] + [input[i]];
      if input[i] in known {
        held := held + {input[i]};
      }
    }
    assert input[..|input|] == input;
    held := DropImplied(t, held);
    var keys := Collect(held);
    out := Sort(Itself, keys);
    SortPermutes(Itself, keys);
    SortedKeysAreStrict(keys);
  }

  function Itself(s: string): string { s }

  lemma SortedKeysAreStrict(keys: seq<string>)
    requires NoDuplicates(keys)
    ensures StrictlySorted(Sort(Itself, keys))
  {
    var out := Sort(Itself, keys);
    SortSorts(Itself, keys);
    SortKeepsDistinct(Itself, keys);
    forall i, j | 0 <= i < j < |out| ensures LexLeq(out[i], out[j]) {
      assert LexLeq(Itself(out[i]), Itself(out[j]));
    }
  }

  /** The result does not depend on any iteration order: two normal forms of one input are equal. */
  lemma NormalUnique(t: Table, standalone: set<Scope>, input: seq<Scope>, a: seq<Scope>, b: seq<Scope>)
    requires Normal(t, standalone, input, a) && Normal(t, standalone, input, b)
    ensures a == b
  {
    SortedUnique(a, b);
  }

  /** Normalising a normal form changes nothing. */
  lemma NormalIdempotent(t: Table, standalone: set<Scope>, input: seq<Scope>, out: seq<Scope>)
    requires Normal(t, standalone, input, out)
    ensures Normal(t, standalone, out, out)
  {
    var held, again := Held(t, standalone, input), Held(t, standalone, out);
    forall s ensures Maximal(t, again, s) <==> Maximal(t, held, s) {
      if Maximal(t, held, s) {
        assert s in out;
      }
    }
  }

  // ---- Has, Header and ParseScopeParam ----

  /** The set carries `sc` itself or a scope that grants it. */
  ghost predicate Carries(t: Table, scopes: seq<Scope>, sc: Scope) {
    exists h :: h in scopes && (h == sc || Reaches(t, h, sc))
  }

  method Has(t: Table, scopes: seq<Scope>, sc: Scope) returns (r: bool)
    ensures r <==> Carries(t, scopes, sc)
  {
    for i := 0 to |scopes|
      invariant forall j :: 0 <= j < i ==> scopes[j] != sc && !Reaches(t, scopes[j], sc)
    {
      assert scopes[i] in scopes;
      if scopes[i] == sc {
        return true;
      }
      var implied := AllImplied(t, scopes[i]);
      if sc in implied {
        return true;
      }
    }
    return false;
  }

  /** Normalising keeps Has for every known scope. */
  lemma NormalKeepsHas(t: Table, standalone: set<Scope>, input: seq<Scope>, out: seq<Scope>, sc: Scope)
    requires Acyclic(t) && Normal(t, standalone, input, out) && sc in Known(t, standalone)
    ensures Carries(t, input, sc) <==> Carries(t, out, sc)
  {
    var held := Held(t, standalone, input);
    if Carries(t, input, sc) {
      var h :| h in input && (h == sc || Reaches(t, h, sc));
      if h != sc {
        ReachersAreParents(t, h, sc);
      }
      var m := MaximalAbove(t, held, h);
      assert m in out;
      if m != h && h != sc {
        ReachesTransitive(t, m, h, sc);
      }
    }
  }

  lemma ReachersAreParents(t: Table, a: Scope, b: Scope)
    requires Reaches(t, a, b)
    ensures a in t
  {
    var p :| Chain(t, p) && p[0] == a && p[|p| - 1] == b;
    assert Edge(t, p[0], p[1]);
  }

  predicate IsDelimiter(c: char) { c == ' ' || c == ',' || c == '+' }

  /** strings.Join(parts, ", "). */
  function Header(scopes: seq<Scope>): string {
    if scopes == [] then ""
    else if |scopes| == 1 then scopes[0]
    else scopes[0] + ", " + Header(scopes[1..])
  }

  function ParseScopeParam(s: string): seq<Scope> { FieldsFunc(s, IsDelimiter) }

  /** A rendered set reads back as it was, when its scopes are words. */
  lemma {:induction false} ParseHeader(scopes: seq<Scope>)
    requires forall i :: 0 <= i < |scopes| ==> IsWord(scopes[i], IsDelimiter)
    ensures ParseScopeParam(Header(scopes)) == scopes
  {
    if |scopes| == 1 {
      FieldsOfWord(scopes[0], "", IsDelimiter);
      assert scopes[0] + "" == scopes[0];
    } else if |scopes| > 1 {
      var tail := Header(scopes[1..]);
      ParseHeader(scopes[1..]);
      var rest := ", " + tail;
      FieldsOfWord(scopes[0], rest, IsDelimiter);
      assert scopes[0] + ", " + tail == scopes[0] + rest;
      assert rest[1..] == " " + tail && (" " + tail)[1..] == tail;
    }
  }

  /** A normal form survives its header: parsed back and normalised again, it is the same list. */
  lemma NormalSurvivesHeader(t: Table, standalone: set<Scope>, input: seq<Scope>, out: seq<Scope>, again: seq<Scope>)
    requires forall s :: s in Known(t, standalone) ==> IsWord(s, IsDelimiter)
    requires Normal(t, standalone, input, out)
    requires Normal(t, standalone, ParseScopeParam(Header(out)), again)
    ensures ParseScopeParam(Header(out)) == out && again == out
  {
    forall i | 0 <= i < |out| ensures IsWord(out[i], IsDelimiter) {
      assert out[i] in out;
      assert Maximal(t, Held(t, standalone, input), out[i]);
    }
    ParseHeader(out);
    NormalIdempotent(t, standalone, input, out);
    NormalUnique(t, standalone, out, out, again);
  }

  // ---- Reading a parameter ----

  predicate Delimiters(s: string) { forall i :: 0 <= i < |s| ==> s[i] == ' ' || s[i] == ',' || s[i] == '+' }

  /** Words with delimiters between them. */
  function Spread(words: seq<Scope>, gaps: seq<string>): string
    requires |gaps| == |words|
  {
    if words == [] then "" else words[0] + (gaps[0] + Spread(words[1..], gaps[1..]))
  }

  lemma {:induction false} DelimitersGo(d: string, s: string)
    requires Delimiters(d)
    ensures ParseScopeParam(d + s) == ParseScopeParam(s)
  {
    if d == "" {
      assert d + s == s;
    } else {
      assert (d + s)[1..] == d[1..] + s;
      DelimitersGo(d[1..], s);
    }
  }

  /** Words apart by any spaces, commas and plus signs are read one by one. */
  lemma {:induction false} ParseSpread(words: seq<Scope>, gaps: seq<string>)
    requires |gaps| == |words| && (forall i :: 0 <= i < |words| ==> IsWord(words[i], IsDelimiter) && Delimiters(gaps[i]))
    requires forall i :: 0 <= i < |words| - 1 ==> gaps[i] != ""
    ensures ParseScopeParam(Spread(words, gaps)) == words
  {
    if words != [] {
      var tail := Spread(words[1..], gaps[1..]);
      ParseSpread(words[1..], gaps[1..]);
      DelimitersGo(gaps[0], tail);
      if gaps[0] == "" {
        assert words[1..] == [] && gaps[0] + tail == "";
      }
      FieldsOfWord(words[0], gaps[0] + tail, IsDelimiter);
    }
  }

  /** One more scope goes behind a comma and a space. */
  lemma {:induction false} HeaderOfMore(scopes: seq<Scope>, s: Scope)
    ensures Header(scopes + [s]) == if scopes == [] then s else Header(scopes) + ", " + s
  {
    if scopes == [] {
      assert scopes + [s] == [s];
    } else {
      assert (scopes + [s])[1..] == scopes[1..] + [s];
      HeaderOfMore(scopes[1..], s);
      assert scopes[1..] == [] || |scopes| > 1;
    }
  }
}
