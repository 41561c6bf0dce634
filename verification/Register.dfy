/** Registers driven one step or one byte at a time, over any state type: what
    iterating an additive or injective step keeps. */
module Register {
  import opened Bytes

  /** `n` steps of `f` from `c`. */
  function Iter<T>(f: T -> T, c: T, n: nat): T {
    if n == 0 then c else f(Iter(f, c, n - 1))
  }

  /** The register after absorbing a byte string with `f`. */
  function Fold<T>(f: (T, byte) -> T, c: T, s: Block): T {
    if |s| == 0 then c else f(Fold(f, c, s[..|s| - 1]), s[|s| - 1])
  }

  ghost predicate Additive<T(!new)>(f: T -> T, plus: (T, T) -> T) {
    forall x, y :: f(plus(x, y)) == plus(f(x), f(y))
  }

  ghost predicate Injective<T(!new)>(f: T -> T) {
    forall x, y :: f(x) == f(y) ==> x == y
  }

  ghost predicate InjectivePerByte<T(!new)>(f: (T, byte) -> T) {
    forall x, y, b :: f(x, b) == f(y, b) ==> x == y
  }

  ghost predicate Associative<T(!new)>(plus: (T, T) -> T) {
    forall x, y, z :: plus(plus(x, y), z) == plus(x, plus(y, z))
  }

  lemma {:induction false} IterAdditive<T(!new)>(f: T -> T, plus: (T, T) -> T, a: T, b: T, n: nat)
    requires Additive(f, plus)
    ensures Iter(f, plus(a, b), n) == plus(Iter(f, a, n), Iter(f, b, n))
  {
    if n == 0 {
    } else {
      IterAdditive(f, plus, a, b, n - 1);
    }
  }

  lemma {:induction false} IterInjective<T(!new)>(f: T -> T, a: T, b: T, n: nat)
    requires Injective(f)
    requires Iter(f, a, n) == Iter(f, b, n)
    ensures a == b
  {
    if n == 0 {
    } else {
      IterInjective(f, a, b, n - 1);
    }
  }

  lemma {:induction false} IterSplit<T>(f: T -> T, c: T, m: nat, n: nat)
    ensures Iter(f, Iter(f, c, m), n) == Iter(f, c, m + n)
  {
    if n == 0 {
    } else {
      IterSplit(f, c, m, n - 1);
    }
  }

  lemma IterChain<T>(f: T -> T, x: seq<T>)
    requires |x| > 0
    requires forall i :: 0 <= i < |x| - 1 ==> f(x[i]) == x[i + 1]
    ensures Iter(f, x[0], |x| - 1) == x[|x| - 1]
  {
    if |x| > 1 {
      IterChain(f, x[..|x| - 1]);
    }
  }

  lemma {:induction false} FoldAppend<T>(f: (T, byte) -> T, c: T, s: Block, t: Block)
    ensures Fold(f, c, s + t) == Fold(f, Fold(f, c, s), t)
  {
    if |t| == 0 {
      assert s + t == s;
    } else {
      var u := s + t;
      assert u[..|u| - 1] == s + t[..|t| - 1];
      FoldAppend(f, c, s, t[..|t| - 1]);
    }
  }

  lemma {:induction false} FoldInjective<T(!new)>(f: (T, byte) -> T, a: T, b: T, s: Block)
    requires InjectivePerByte(f)
    requires a != b
    ensures Fold(f, a, s) != Fold(f, b, s)
  {
    if s == [] {
    } else {
      FoldInjective(f, a, b, s[..|s| - 1]);
      var x, y, last := Fold(f, a, s[..|s| - 1]), Fold(f, b, s[..|s| - 1]), s[|s| - 1];
      assert f(x, last) == f(y, last) ==> x == y;
    }
  }

  lemma {:induction false} FoldCongruent<T(!new)>(f: (T, byte) -> T, g: (T, byte) -> T, c: T, s: Block)
    requires forall x, b :: f(x, b) == g(x, b)
    ensures Fold(f, c, s) == Fold(g, c, s)
  {
    if s == [] {
    } else {
      FoldCongruent(f, g, c, s[..|s| - 1]);
    }
  }

  lemma FoldFour<T>(f: (T, byte) -> T, c: T, s: Block)
    requires |s| == 4
    ensures Fold(f, c, s) == f(f(f(f(c, s[0]), s[1]), s[2]), s[3])
  {
    assert s[..3][..2] == s[..2] && s[..2][..1] == s[..1] && s[..1][..0] == [];
    assert Fold(f, c, s[..1]) == f(c, s[0]);
    assert Fold(f, c, s[..2]) == f(f(c, s[0]), s[1]);
    assert Fold(f, c, s[..3]) == f(f(f(c, s[0]), s[1]), s[2]);
  }

  /** Four values absorbed eight steps apart act as one sum followed by 32 steps,
      each later value entering as the word that reaches it in time. */
  lemma AbsorbFour<T(!new)>(f: T -> T, plus: (T, T) -> T, c: T, v0: T, v1: T, v2: T, v3: T, p1: T, p2: T, p3: T)
    requires Additive(f, plus) && Associative(plus)
    requires Iter(f, p1, 8) == v1 && Iter(f, p2, 16) == v2 && Iter(f, p3, 24) == v3
    ensures Iter(f, plus(Iter(f, plus(Iter(f, plus(Iter(f, plus(c, v0), 8), v1), 8), v2), 8), v3), 8)
            == Iter(f, plus(c, plus(plus(plus(v0, p1), p2), p3)), 32)
  {
    var x1 := plus(c, v0);
    var x2 := plus(x1, p1);
    var x3 := plus(x2, p2);
    IterAdditive(f, plus, x1, p1, 8);
    IterSplit(f, x2, 8, 8);
    IterAdditive(f, plus, x2, p2, 16);
    IterSplit(f, x3, 16, 8);
    IterAdditive(f, plus, x3, p3, 24);
    IterSplit(f, plus(x3, p3), 24, 8);
  }
}
