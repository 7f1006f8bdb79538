/** Facts about sequences without repeats, as used for ordered child lists. */
module Seqs {

  ghost predicate NoDup<T>(s: seq<T>) {
    forall i, j :: 0 <= i < j < |s| ==> s[i] != s[j]
  }

  function ToSet<T>(s: seq<T>): set<T> {
    set x | x in s
  }

  /** `[y for y in s if y != x]`. */
  function Without<T(==,!new)>(s: seq<T>, x: T): (r: seq<T>)
    ensures forall y :: y in r <==> y in s && y != x
    ensures |r| <= |s|
    ensures x !in s ==> r == s
  {
    if s == [] then [] else
    (if s[0] == x then [] else [s[0]]) + Without(s[1..], x)
  }

  /** `[y for y in s if y in keep]`. */
  function Only<T(==,!new)>(s: seq<T>, keep: set<T>): (r: seq<T>)
    ensures forall y :: y in r <==> y in s && y in keep
  {
    if s == [] then [] else
    (if s[0] in keep then [s[0]] else []) + Only(s[1..], keep)
  }

  function InsertAt<T(!new)>(s: seq<T>, i: nat, x: T): (r: seq<T>)
    requires i <= |s|
    ensures |r| == |s| + 1 && r[i] == x
    ensures forall y :: y in r <==> y in s || y == x
  {
    var r := s[..i] + [x] + s[i..];
    assert forall y :: y in s ==> y in s[..i] || y in s[i..] by {
      assert s == s[..i] + s[i..];
    }
    r
  }

  function Reversed<T>(s: seq<T>): (r: seq<T>)
    ensures |r| == |s|
    ensures forall i :: 0 <= i < |s| ==> r[i] == s[|s| - 1 - i]
  {
    if s == [] then [] else Reversed(s[1..]) + [s[0]]
  }

  /** Reversing keeps the members and repeats none. */
  lemma ReversedSame<T(!new)>(s: seq<T>)
    ensures NoDup(s) ==> NoDup(Reversed(s))
    ensures forall x :: x in Reversed(s) <==> x in s
    ensures ToSet(Reversed(s)) == ToSet(s)
  {
    var r := Reversed(s);
    forall x ensures x in r <==> x in s {
      if x in s {
        var i :| 0 <= i < |s| && s[i] == x;
        assert r[|s| - 1 - i] == x;
      }
    }
  }

  lemma {:induction false} OnlyAll<T(!new)>(s: seq<T>, keep: set<T>)
    requires forall y :: y in s ==> y in keep
    ensures Only(s, keep) == s
  {
    if s != [] { OnlyAll(s[1..], keep); }
  }

  /** Every element is kept or dropped on its own, in place. */
  lemma {:induction false} OnlyConcat<T(!new)>(s: seq<T>, u: seq<T>, keep: set<T>)
    ensures Only(s + u, keep) == Only(s, keep) + Only(u, keep)
    ensures forall x :: Only([x], keep) == if x in keep then [x] else []
  {
    if s == [] {
      assert s + u == u;
    } else {
      assert (s + u)[1..] == s[1..] + u;
      OnlyConcat(s[1..], u, keep);
    }
  }

  lemma {:induction false} WithoutNoDup<T(!new)>(s: seq<T>, x: T)
    requires NoDup(s)
    ensures NoDup(Without(s, x))
  {
    if s != [] {
      assert NoDup(s[1..]);
      WithoutNoDup(s[1..], x);
      assert s[0] !in s[1..];
    }
  }

  lemma {:induction false} WithoutConcat<T(!new)>(s: seq<T>, u: seq<T>, x: T)
    ensures Without(s + u, x) == Without(s, x) + Without(u, x)
  {
    if s == [] {
      assert s + u == u;
    } else {
      assert (s + u)[1..] == s[1..] + u;
      WithoutConcat(s[1..], u, x);
    }
  }

  /** Inserting an absent element and filtering it out again is the identity. */
  lemma WithoutInsertAt<T(!new)>(s: seq<T>, i: nat, x: T)
    requires i <= |s| && x !in s
    ensures Without(InsertAt(s, i, x), x) == s
  {
    assert s == s[..i] + s[i..];
    WithoutConcat(s[..i] + [x], s[i..], x);
    WithoutConcat(s[..i], [x], x);
    assert Without([x], x) == [];
  }

  lemma InsertAtNoDup<T(!new)>(s: seq<T>, i: nat, x: T)
    requires i <= |s| && x !in s && NoDup(s)
    ensures NoDup(InsertAt(s, i, x))
  {
    var r := InsertAt(s, i, x);
    forall a, b | 0 <= a < b < |r| ensures r[a] != r[b] {
      var a' := if a < i then a else a - 1;
      var b' := if b < i then b else b - 1;
      assert a != i ==> r[a] == s[a'];
      assert b != i ==> r[b] == s[b'];
    }
  }

  lemma NoDupConcat<T(!new)>(s: seq<T>, u: seq<T>)
    requires NoDup(s) && NoDup(u)
    requires forall x :: x in s ==> x !in u
    ensures NoDup(s + u)
  {
    var r := s + u;
    forall i, j | 0 <= i < j < |r| ensures r[i] != r[j] {
      if i < |s| <= j { assert r[i] in s && r[j] in u; }
    }
  }

  lemma {:induction false} NoDupSize<T(!new)>(s: seq<T>)
    requires NoDup(s)
    ensures |ToSet(s)| == |s|
  {
    if s != [] {
      assert NoDup(s[1..]);
      NoDupSize(s[1..]);
      assert s[0] !in s[1..];
      assert ToSet(s) == {s[0]} + ToSet(s[1..]);
    }
  }

  lemma SubsetSize<T(!new)>(a: set<T>, b: set<T>)
    requires a <= b
    ensures |a| <= |b|
    ensures |a| == |b| ==> a == b
  {
    assert b == a + (b - a);
  }

  /** A sequence without repeats over a finite set is no longer than the set. */
  lemma NoDupBound<T(!new)>(s: seq<T>, b: set<T>)
    requires NoDup(s)
    requires forall x :: x in s ==> x in b
    ensures |s| <= |b|
  {
    NoDupSize(s);
    SubsetSize(ToSet(s), b);
  }

  /** One more element of a prefix. */
  lemma PrefixStep<T(!new)>(s: seq<T>, i: nat)
    requires i < |s|
    ensures ToSet(s[..i + 1]) == ToSet(s[..i]) + {s[i]}
    ensures NoDup(s) ==> s[i] !in ToSet(s[..i])
  {
    assert s[..i + 1] == s[..i] + [s[i]];
  }
}
