/** Small facts about sequences and finite sets of numbers that the other modules share. */
module Collections {

  datatype Option<+T> = None | Some(value: T)

  predicate NoDup<T(==)>(s: seq<T>) {
    forall i, j :: 0 <= i < j < |s| ==> s[i] != s[j]
  }

  function Elems<T>(s: seq<T>): set<T> {
    set x | x in s
  }

  predicate IsAscending(s: seq<nat>) {
    forall i, j :: 0 <= i < j < |s| ==> s[i] < s[j]
  }

  lemma MinExists(s: set<nat>)
    requires s != {}
    ensures exists m :: m in s && forall x :: x in s ==> m <= x
  {
    var a :| a in s;
    var rest := s - {a};
    if rest == {} {
      assert forall x :: x in s ==> x == a || x in rest;
      assert a in s && forall x :: x in s ==> a <= x;
    } else {
      MinExists(rest);
      var m :| m in rest && forall x :: x in rest ==> m <= x;
      LeastOfBoth(s, a, m);
    }
  }

  lemma LeastOfBoth(s: set<nat>, a: nat, m: nat)
    requires a in s && m in s && forall x :: x in s - {a} ==> m <= x
    ensures exists m :: m in s && forall x :: x in s ==> m <= x
  {
    var least := if a <= m then a else m;
    forall x | x in s ensures least <= x {
      if x != a { assert x in s - {a}; }
    }
  }

  function Min(s: set<nat>): (m: nat)
    requires s != {}
    ensures m in s && forall x :: x in s ==> m <= x
  {
    MinExists(s);
    var m :| m in s && forall x :: x in s ==> m <= x;
    m
  }

  /** The elements of a finite set in ascending order: iterating a `BTreeSet`. */
  function Ascending(s: set<nat>): (r: seq<nat>)
    ensures Elems(r) == s
    ensures IsAscending(r)
  {
    if s == {} then [] else
      var m := Min(s);
      assert s == {m} + (s - {m});
      [m] + Ascending(s - {m})
  }

  /** An ascending sequence is determined by its elements. */
  lemma {:induction false} AscendingUnique(r: seq<nat>)
    requires IsAscending(r)
    ensures Ascending(Elems(r)) == r
  {
    if r != [] {
      FirstIsMin(r);
      AscendingUnique(r[1..]);
    } else {
      assert Elems(r) == {};
    }
  }

  lemma FirstIsMin(r: seq<nat>)
    requires r != [] && IsAscending(r)
    ensures Elems(r) != {} && Min(Elems(r)) == r[0] && Elems(r) - {r[0]} == Elems(r[1..])
  {
    assert r[0] in Elems(r);
    forall x | x in Elems(r) ensures r[0] <= x && (x == r[0] || x in r[1..]) {
      var i :| 0 <= i < |r| && r[i] == x;
      if i > 0 { assert x == r[1..][i - 1]; }
    }
    assert r[0] !in r[1..];
  }

  /** The subsequence of `s` whose members lie in `keep`. */
  function Keep(s: seq<nat>, keep: set<nat>): (r: seq<nat>)
    ensures Elems(r) == Elems(s) * keep
  {
    if s == [] then [] else
      var rest := Keep(s[1..], keep);
      assert Elems(s) == {s[0]} + Elems(s[1..]) by { assert s == [s[0]] + s[1..]; }
      assert Elems([s[0]] + rest) == {s[0]} + Elems(rest);
      if s[0] in keep then [s[0]] + rest else rest
  }

  lemma {:induction false} KeepNoDup(s: seq<nat>, keep: set<nat>)
    requires NoDup(s)
    ensures NoDup(Keep(s, keep))
  {
    if s != [] {
      KeepNoDup(s[1..], keep);
      var rest := Keep(s[1..], keep);
      assert s[0] !in Elems(s[1..]);
      assert s[0] !in Elems(rest);
    }
  }

  lemma {:induction false} KeepAppend(s: seq<nat>, t: seq<nat>, keep: set<nat>)
    ensures Keep(s + t, keep) == Keep(s, keep) + Keep(t, keep)
  {
    if s == [] {
      assert s + t == t;
    } else {
      assert (s + t)[1..] == s[1..] + t;
      KeepAppend(s[1..], t, keep);
    }
  }

  lemma NoDupConcat<T>(s: seq<T>, t: seq<T>)
    requires NoDup(s) && NoDup(t)
    requires forall x :: x in s ==> x !in t
    ensures NoDup(s + t)
  {
    forall i, j | 0 <= i < j < |s + t| ensures (s + t)[i] != (s + t)[j] {
      if i < |s| <= j {
        assert s[i] in s && t[j - |s|] in t;
      }
    }
  }

  lemma ConcatAssociates<T>(a: seq<T>, b: seq<T>, c: seq<T>)
    ensures a + (b + c) == (a + b) + c
  {
  }
}
