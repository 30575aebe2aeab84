/** Byte order on strings: git lists index paths in it, the store its entries. */
module Order {
  predicate Leq(a: string, b: string) {
    a == "" || (b != "" && (a[0] < b[0] || (a[0] == b[0] && Leq(a[1..], b[1..]))))
  }

  lemma LeqTotal(a: string, b: string)
    ensures Leq(a, b) || Leq(b, a)
    ensures Leq(a, b) && Leq(b, a) ==> a == b
  {
    if a != "" && b != "" && a[0] == b[0] {
      LeqTotal(a[1..], b[1..]);
      assert a == [a[0]] + a[1..] && b == [b[0]] + b[1..];
    }
  }

  lemma LeqTransitive(a: string, b: string, c: string)
    requires Leq(a, b) && Leq(b, c)
    ensures Leq(a, c)
  {
    if a != "" && a[0] == b[0] == c[0] {
      LeqTransitive(a[1..], b[1..], c[1..]);
    }
  }

  predicate Least(m: string, s: set<string>) {
    m in s && forall x :: x in s ==> Leq(m, x)
  }

  lemma LeastUnique(s: set<string>)
    requires s != {}
    ensures exists m :: m in s && Least(m, s)
    ensures forall m, n :: Least(m, s) && Least(n, s) ==> m == n
  {
    hide Leq;
    LeastExists(s);
    forall m, n | Least(m, s) && Least(n, s)
      ensures m == n
    {
      LeqTotal(m, n);
    }
  }

  lemma {:induction false} LeastExists(s: set<string>)
    requires s != {}
    ensures exists m :: Least(m, s)
  {
    hide Leq;
    var x :| x in s;
    var rest := s - {x};
    LeqTotal(x, x);
    if rest == {} {
      assert forall y :: y in s ==> y == x || y in rest;
      assert Least(x, s);
    } else {
      LeastExists(rest);
      var m :| Least(m, rest);
      LeqTotal(x, m);
      if Leq(x, m) {
        forall y | y in s
          ensures Leq(x, y)
        {
          if y != x {
            LeqTransitive(x, m, y);
          }
        }
        assert Least(x, s);
      } else {
        assert Least(m, s);
      }
    }
  }

  /** The strings of a set in order. */
  function Sorted(s: set<string>): (ps: seq<string>)
    ensures forall p :: p in ps <==> p in s
    ensures forall i, j :: 0 <= i < j < |ps| ==> ps[i] != ps[j]
  {
    if s == {} then []
    else
      LeastUnique(s);
      var m :| m in s && Least(m, s);
      [m] + Sorted(s - {m})
  }

  lemma SortedStep(s: set<string>)
    requires s != {}
    ensures Sorted(s) != [] && Least(Sorted(s)[0], s) && Sorted(s)[1..] == Sorted(s - {Sorted(s)[0]})
  {
    hide Least;
    LeastUnique(s);
  }

  lemma {:induction false} SortedOrder(s: set<string>, i: nat, j: nat)
    requires i < j < |Sorted(s)|
    ensures Leq(Sorted(s)[i], Sorted(s)[j])
  {
    hide Leq, Sorted;
    var ps := Sorted(s);
    assert ps[j] in ps;
    SortedStep(s);
    if i > 0 {
      SortedOrder(s - {ps[0]}, i - 1, j - 1);
      assert ps[1..][i - 1] == ps[i] && ps[1..][j - 1] == ps[j];
    }
  }
}
