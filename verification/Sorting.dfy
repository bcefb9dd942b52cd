/** The ascending enumeration of a finite set, ordered by an injective key. */
module Sorting {

  predicate Lex(a: seq<nat>, b: seq<nat>) {
    b != [] && (a == [] || a[0] < b[0] || (a[0] == b[0] && Lex(a[1..], b[1..])))
  }

  lemma {:induction false} LexIrreflexive(a: seq<nat>)
    ensures !Lex(a, a)
    decreases |a|
  {
    if a != [] { LexIrreflexive(a[1..]); }
  }

  lemma {:induction false} LexTransitive(a: seq<nat>, b: seq<nat>, c: seq<nat>)
    requires Lex(a, b) && Lex(b, c)
    ensures Lex(a, c)
    decreases |a|
  {
    if a != [] && a[0] == b[0] == c[0] { LexTransitive(a[1..], b[1..], c[1..]); }
  }

  lemma {:induction false} LexTotal(a: seq<nat>, b: seq<nat>)
    ensures a == b || Lex(a, b) || Lex(b, a)
    decreases |a|
  {
    if a != [] && b != [] && a[0] == b[0] {
      LexTotal(a[1..], b[1..]);
      if a[1..] == b[1..] { assert a == [a[0]] + a[1..] == b; }
    }
  }

  ghost predicate Injective<T(!new)>(key: T -> seq<nat>) {
    forall x, y :: key(x) == key(y) ==> x == y
  }

  predicate Least<T(==)>(s: set<T>, key: T -> seq<nat>, m: T) {
    m in s && forall x :: x in s && x != m ==> Lex(key(m), key(x))
  }

  lemma {:induction false} LeastExists<T(!new)>(s: set<T>, key: T -> seq<nat>)
    requires s != {} && Injective(key)
    ensures exists m :: Least(s, key, m)
    decreases |s|
  {
    var y :| y in s;
    var rest := s - {y};
    assert forall x :: x in s && x != y ==> x in rest;
    if rest == {} {
      assert Least(s, key, y);
    } else {
      LeastExists(rest, key);
      var m :| Least(rest, key, m);
      LexTotal(key(m), key(y));
      if Lex(key(m), key(y)) {
        assert Least(s, key, m);
      } else {
        forall x | x in s && x != y ensures Lex(key(y), key(x)) {
          if x != m { LexTransitive(key(y), key(m), key(x)); }
        }
        assert Least(s, key, y);
      }
    }
  }

  /** Strictly ascending by key. */
  ghost predicate Ascending<T>(r: seq<T>, key: T -> seq<nat>) {
    forall i, j :: 0 <= i < j < |r| ==> Lex(key(r[i]), key(r[j]))
  }

  ghost predicate Lists<T(!new)>(r: seq<T>, s: set<T>) { forall x :: x in r <==> x in s }

  lemma AscendingHead<T>(r: seq<T>, key: T -> seq<nat>, x: T)
    requires Ascending(r, key) && r != [] && x in r[1..]
    ensures Lex(key(r[0]), key(x)) && x != r[0]
  {
    var i :| 0 <= i < |r[1..]| && r[1..][i] == x;
    assert r[i + 1] == x;
    LexIrreflexive(key(x));
  }

  lemma InTail<T>(r: seq<T>, key: T -> seq<nat>, x: T)
    requires Ascending(r, key) && r != []
    ensures x in r[1..] <==> x in r && x != r[0]
  {
    assert r == [r[0]] + r[1..];
    if x in r[1..] { AscendingHead(r, key, x); }
  }

  /** A set has only one ascending enumeration. */
  lemma {:induction false} AscendingUnique<T>(a: seq<T>, b: seq<T>, key: T -> seq<nat>)
    requires Ascending(a, key) && Ascending(b, key) && forall x :: x in a <==> x in b
    ensures a == b
    decreases |a|
  {
    if b != [] { assert b[0] in a; }
    if a != [] {
      assert a[0] in b && b != [];
      if a[0] != b[0] {
        AscendingHead(a, key, b[0]);
        AscendingHead(b, key, a[0]);
        LexTransitive(key(a[0]), key(b[0]), key(a[0]));
        LexIrreflexive(key(a[0]));
      }
      forall x ensures x in a[1..] <==> x in b[1..] {
        InTail(a, key, x);
        InTail(b, key, x);
      }
      AscendingUnique(a[1..], b[1..], key);
      assert a == [a[0]] + a[1..] && b == [b[0]] + b[1..];
    }
  }

  lemma AscendingPush<T>(r: seq<T>, key: T -> seq<nat>, m: T)
    requires Ascending(r, key) && forall x :: x in r ==> Lex(key(x), key(m))
    ensures Ascending(r + [m], key)
  {
  }

  /** Repeatedly take the least remaining element. */
  method Sort<T(==, !new)>(s: set<T>, key: T -> seq<nat>) returns (r: seq<T>)
    requires Injective(key)
    ensures Ascending(r, key) && Lists(r, s)
  {
    r := [];
    var rest := s;
    while rest != {}
      invariant rest <= s && Ascending(r, key)
      invariant forall x :: x in r <==> x in s && x !in rest
      invariant forall x, y :: x in r && y in rest ==> Lex(key(x), key(y))
      decreases |rest|
    {
      LeastExists(rest, key);
      var m :| m in rest && Least(rest, key, m);
      AscendingPush(r, key, m);
      r, rest := r + [m], rest - {m};
    }
  }
}
