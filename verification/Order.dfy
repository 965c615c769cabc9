/** Lexicographic order on number sequences, and why a strictly sorted list is determined by
    its set of elements. */
module Order {

  predicate Lex(a: seq<int>, b: seq<int>) {
    if b == [] then false
    else if a == [] then true
    else a[0] < b[0] || (a[0] == b[0] && Lex(a[1..], b[1..]))
  }

  /** `a` comes first exactly when it ends, or has the smaller number, where they first differ. */
  lemma {:induction false} LexExact(a: seq<int>, b: seq<int>)
    ensures Lex(a, b) <==> exists i :: 0 <= i <= |a| && i < |b| && a[..i] == b[..i] && (i == |a| || a[i] < b[i])
  {
    if a != [] && b != [] {
      LexExact(a[1..], b[1..]);
      if Lex(a, b) {
        LexWitness(a, b);
      }
      if i :| 0 < i <= |a| && i < |b| && a[..i] == b[..i] && (i == |a| || a[i] < b[i]) {
        assert a[1..][..i - 1] == a[..i][1..] && b[1..][..i - 1] == b[..i][1..];
        assert a[..i][0] == b[..i][0];
      }
    } else if b != [] {
      assert a[..0] == b[..0];
    }
  }

  lemma LexWitness(a: seq<int>, b: seq<int>)
    requires a != [] && b != []
    requires a[0] < b[0] || (a[0] == b[0] && exists i ::
      0 <= i <= |a[1..]| && i < |b[1..]| && a[1..][..i] == b[1..][..i] && (i == |a[1..]| || a[1..][i] < b[1..][i]))
    ensures exists i :: 0 <= i <= |a| && i < |b| && a[..i] == b[..i] && (i == |a| || a[i] < b[i])
  {
    if a[0] < b[0] {
      assert a[..0] == b[..0];
    } else {
      var i :| 0 <= i <= |a[1..]| && i < |b[1..]| && a[1..][..i] == b[1..][..i] && (i == |a[1..]| || a[1..][i] < b[1..][i]);
      assert a[..i + 1] == [a[0]] + a[1..][..i] && b[..i + 1] == [b[0]] + b[1..][..i];
    }
  }

  lemma {:induction false} LexIrreflexive(a: seq<int>)
    ensures !Lex(a, a)
  {
    if a != [] {
      LexIrreflexive(a[1..]);
    }
  }

  lemma {:induction false} LexTransitive(a: seq<int>, b: seq<int>, c: seq<int>)
    requires Lex(a, b) && Lex(b, c)
    ensures Lex(a, c)
  {
    if a != [] && a[0] == b[0] == c[0] {
      LexTransitive(a[1..], b[1..], c[1..]);
    }
  }

  lemma {:induction false} LexTotal(a: seq<int>, b: seq<int>)
    ensures Lex(a, b) || Lex(b, a) || a == b
  {
    if a != [] && b != [] && a[0] == b[0] {
      LexTotal(a[1..], b[1..]);
      assert a == [a[0]] + a[1..] && b == [b[0]] + b[1..];
    }
  }

  lemma LexAsymmetric(a: seq<int>, b: seq<int>)
    requires Lex(a, b)
    ensures !Lex(b, a)
  {
    if Lex(b, a) {
      LexTransitive(a, b, a);
      LexIrreflexive(a);
    }
  }

  lemma {:induction false} LexCommonPrefix(p: seq<int>, a: seq<int>, b: seq<int>)
    ensures Lex(p + a, p + b) == Lex(a, b)
  {
    if p == [] {
      assert p + a == a && p + b == b;
    } else {
      LexCommonPrefix(p[1..], a, b);
      assert (p + a)[1..] == p[1..] + a && (p + b)[1..] == p[1..] + b;
    }
  }

  /** The first difference decides, whatever follows it. */
  lemma LexFirstDifference(a: seq<int>, b: seq<int>, i: nat, x: seq<int>, y: seq<int>)
    requires i < |a| && i < |b| && a[..i] == b[..i] && a[i] < b[i]
    ensures Lex(a + x, b + y)
  {
    LexCommonPrefix(a[..i], (a + x)[i..], (b + y)[i..]);
    assert a + x == a[..i] + (a + x)[i..];
    assert b + y == b[..i] + (b + y)[i..];
  }

  /** Strictly ascending by adjacent pairs, which is all a single pass can compare. */
  ghost predicate Adjacent<T(!new)>(s: seq<T>, rank: T -> seq<int>) {
    forall i :: 0 < i < |s| ==> Lex(rank(s[i - 1]), rank(s[i]))
  }

  /** Strictly ascending over every pair. */
  ghost predicate Ascending<T(!new)>(s: seq<T>, rank: T -> seq<int>) {
    forall i, j :: 0 <= i < j < |s| ==> Lex(rank(s[i]), rank(s[j]))
  }

  lemma {:induction false} AdjacentPair<T(!new)>(s: seq<T>, rank: T -> seq<int>, i: nat, j: nat)
    requires Adjacent(s, rank) && i < j < |s|
    ensures Lex(rank(s[i]), rank(s[j]))
  {
    if i + 1 < j {
      AdjacentPair(s, rank, i, j - 1);
      LexTransitive(rank(s[i]), rank(s[j - 1]), rank(s[j]));
    }
  }

  lemma AdjacentIsAscending<T(!new)>(s: seq<T>, rank: T -> seq<int>)
    ensures Adjacent(s, rank) <==> Ascending(s, rank)
  {
    if Adjacent(s, rank) {
      forall i, j | 0 <= i < j < |s|
        ensures Lex(rank(s[i]), rank(s[j]))
      {
        AdjacentPair(s, rank, i, j);
      }
    }
  }

  /** An ascending list repeats no rank, hence no element. */
  lemma AscendingDistinct<T(!new)>(s: seq<T>, rank: T -> seq<int>, i: nat, j: nat)
    requires Ascending(s, rank) && i < j < |s|
    ensures rank(s[i]) != rank(s[j])
  {
    LexIrreflexive(rank(s[i]));
  }

  /** Two ascending lists of the same elements are the same list. */
  lemma {:induction false} AscendingUnique<T(!new)>(a: seq<T>, b: seq<T>, rank: T -> seq<int>)
    requires Ascending(a, rank) && Ascending(b, rank)
    requires forall x :: x in a <==> x in b
    ensures a == b
  {
    assert (a == [] || a[0] in b) && (b == [] || b[0] in a);
    if a != [] {
      var i :| 0 <= i < |a| && a[i] == b[0];
      var j :| 0 <= j < |b| && b[j] == a[0];
      if i > 0 && j > 0 {
        LexAsymmetric(rank(a[0]), rank(a[i]));
      }
      assert a[0] == b[0];
      forall x
        ensures x in a[1..] <==> x in b[1..]
      {
        TailMembers(a, rank, x);
        TailMembers(b, rank, x);
      }
      AscendingUnique(a[1..], b[1..], rank);
      assert a == [a[0]] + a[1..] && b == [b[0]] + b[1..];
    }
  }

  lemma TailMembers<T(!new)>(s: seq<T>, rank: T -> seq<int>, x: T)
    requires s != [] && Ascending(s, rank)
    ensures x in s[1..] <==> x in s && x != s[0]
  {
    if x in s[1..] {
      var i :| 0 <= i < |s[1..]| && s[1..][i] == x;
      AscendingDistinct(s, rank, 0, i + 1);
    }
  }
}
