/** Code-point order on strings, and sorting a finite set of strings. */
module Order {
  import opened Seqs

  predicate Less(a: string, b: string) {
    b != "" && (a == "" || a[0] < b[0] || (a[0] == b[0] && Less(a[1..], b[1..])))
  }

  lemma SameHead(a: string, b: string, i: nat)
    requires i < |a| && i < |b|
    ensures a[..i] == b[..i] && i > 0 ==> a[0] == b[0]
  {
    if a[..i] == b[..i] && i > 0 { assert a[0] == a[..i][0] && b[0] == b[..i][0]; }
  }

  /** Code-point order: the shorter comes first if it starts the longer, else the
      first difference decides. */
  lemma {:induction false} LessByFirstDifference(a: string, b: string)
    ensures Less(a, b) <==>
              a < b || exists i :: 0 <= i < |a| && i < |b| && a[..i] == b[..i] && a[i] < b[i]
  {
    if a == "" || b == "" {
    } else if a[0] != b[0] {
      forall i | 0 <= i < |a| && i < |b| { SameHead(a, b, i); }
      if a[0] < b[0] { assert a[..0] == b[..0]; }
    } else {
      var x, y := a[1..], b[1..];
      LessByFirstDifference(x, y);
      assert a == [a[0]] + x && b == [a[0]] + y;
      if i :| 0 <= i < |a| && i < |b| && a[..i] == b[..i] && a[i] < b[i] {
        assert x[..i - 1] == a[..i][1..] && y[..i - 1] == b[..i][1..];
        assert x[i - 1] < y[i - 1];
      }
      if i :| 0 <= i < |x| && i < |y| && x[..i] == y[..i] && x[i] < y[i] {
        assert a[..i + 1] == [a[0]] + x[..i] && b[..i + 1] == [a[0]] + y[..i];
        assert a[i + 1] < b[i + 1];
      }
    }
  }

  lemma {:induction false} LessIrreflexive(a: string)
    ensures !Less(a, a)
  {
    if a != "" { LessIrreflexive(a[1..]); }
  }

  lemma {:induction false} LessTransitive(a: string, b: string, c: string)
    requires Less(a, b) && Less(b, c)
    ensures Less(a, c)
  {
    if a != "" && a[0] == b[0] && b[0] == c[0] { LessTransitive(a[1..], b[1..], c[1..]); }
  }

  lemma {:induction false} LessTotal(a: string, b: string)
    ensures a == b || Less(a, b) || Less(b, a)
  {
    if a != "" && b != "" && a[0] == b[0] {
      LessTotal(a[1..], b[1..]);
      assert a == [a[0]] + a[1..] && b == [b[0]] + b[1..];
    }
  }

  ghost predicate Sorted(s: seq<string>) {
    forall i, j :: 0 <= i < j < |s| ==> Less(s[i], s[j])
  }

  ghost predicate Least(m: string, names: set<string>) {
    m in names && forall y :: y in names && y != m ==> Less(m, y)
  }

  lemma {:induction false} LeastExists(names: set<string>) returns (m: string)
    requires names != {}
    ensures Least(m, names)
  {
    m :| m in names;
    var rest := names - {m};
    assert forall y :: y in names ==> y == m || y in rest;
    if rest != {} {
      var r := LeastExists(rest);
      LessTotal(m, r);
      if Less(m, r) {
        forall y | y in names && y != m ensures Less(m, y) {
          if y != r { LessTransitive(m, r, y); }
        }
      } else {
        m := r;
      }
    }
  }

  /** `sorted(names)`: the members in ascending order. */
  method SortNames(names: set<string>) returns (s: seq<string>)
    ensures Sorted(s) && NoDup(s) && forall x :: x in s <==> x in names
  {
    s := [];
    var rest := names;
    while rest != {}
      invariant rest <= names
      invariant forall x :: x in s <==> x in names && x !in rest
      invariant Sorted(s) && NoDup(s)
      invariant forall x, y :: x in s && y in rest ==> Less(x, y)
      decreases rest
    {
      ghost var least := LeastExists(rest);
      var m :| m in rest && forall y :: y in rest && y != m ==> Less(m, y);
      s := s + [m];
      rest := rest - {m};
    }
  }
}
