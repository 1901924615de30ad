/**
  Longest common subsequences: the recurrence the dynamic programs fill in, the algebra
  that justifies splitting and trimming, and the proof that the recurrence really is the
  greatest length of a common subsequence.
 */
module Lcs {
  import opened Arithmetic

  function Init<T>(s: seq<T>): seq<T>
    requires s != []
  {
    s[..|s| - 1]
  }

  function Last<T>(s: seq<T>): T
    requires s != []
  {
    s[|s| - 1]
  }

  function LcsLen<T(==)>(a: seq<T>, b: seq<T>): nat
    decreases |a| + |b|
  {
    if a == [] || b == [] then 0
    else if Last(a) == Last(b) then LcsLen(Init(a), Init(b)) + 1
    else Max(LcsLen(a, Init(b)), LcsLen(Init(a), b))
  }

  lemma {:induction false} LcsBound<T>(a: seq<T>, b: seq<T>)
    ensures LcsLen(a, b) <= Min(|a|, |b|)
    decreases |a| + |b|
  {
    if a != [] && b != [] {
      LcsBound(Init(a), Init(b));
      LcsBound(a, Init(b));
      LcsBound(Init(a), b);
    }
  }

  /** One more element on either side adds at most one. */
  lemma {:induction false} LcsStep<T>(a: seq<T>, b: seq<T>)
    ensures a != [] ==> LcsLen(Init(a), b) <= LcsLen(a, b) <= LcsLen(Init(a), b) + 1
    ensures b != [] ==> LcsLen(a, Init(b)) <= LcsLen(a, b) <= LcsLen(a, Init(b)) + 1
    decreases |a| + |b|
  {
    if a != [] && b != [] {
      LcsStep(Init(a), b);
      LcsStep(a, Init(b));
      LcsStep(Init(a), Init(b));
    }
  }

  /** Extending either side never shortens the longest common subsequence. */
  lemma {:induction false} LcsExtend<T>(a: seq<T>, b: seq<T>, a': seq<T>, b': seq<T>)
    ensures LcsLen(a, b) <= LcsLen(a + a', b + b')
    decreases |a'| + |b'|
  {
    if a' != [] {
      LcsExtend(a, b, Init(a'), b');
      assert Init(a + a') == a + Init(a');
      LcsStep(a + a', b + b');
    } else if b' != [] {
      LcsExtend(a, b, a', Init(b'));
      assert Init(b + b') == b + Init(b');
      LcsStep(a + a', b + b');
    } else {
      assert a + a' == a && b + b' == b;
    }
  }

  /** Common subsequences of two halves concatenate. */
  lemma {:induction false} LcsConcat<T>(a: seq<T>, b: seq<T>, a': seq<T>, b': seq<T>)
    ensures LcsLen(a, b) + LcsLen(a', b') <= LcsLen(a + a', b + b')
    decreases |a'| + |b'|
  {
    if a' == [] || b' == [] {
      LcsExtend(a, b, a', b');
    } else {
      assert Init(a + a') == a + Init(a') && Last(a + a') == Last(a');
      assert Init(b + b') == b + Init(b') && Last(b + b') == Last(b');
      if Last(a') == Last(b') {
        LcsConcat(a, b, Init(a'), Init(b'));
      } else {
        LcsConcat(a, b, a', Init(b'));
        LcsConcat(a, b, Init(a'), b');
      }
    }
  }

  /** Hirschberg's observation: some split of `b` loses nothing. */
  lemma {:induction false} LcsSplit<T>(a: seq<T>, a': seq<T>, b: seq<T>) returns (k: nat)
    ensures k <= |b|
    ensures LcsLen(a + a', b) <= LcsLen(a, b[..k]) + LcsLen(a', b[k..])
    decreases |a'| + |b|
  {
    if a' == [] {
      k := |b|;
      assert a + a' == a && b[..k] == b;
    } else if b == [] {
      k := 0;
    } else {
      var c := Init(b);
      assert Init(a + a') == a + Init(a') && Last(a + a') == Last(a');
      if Last(a') == Last(b) {
        k := LcsSplit(a, Init(a'), c);
        assert b[..k] == c[..k] && Init(b[k..]) == c[k..];
      } else if LcsLen(a + a', c) >= LcsLen(a + Init(a'), b) {
        k := LcsSplit(a, a', c);
        assert b[..k] == c[..k] && Init(b[k..]) == c[k..];
        LcsStep(a', b[k..]);
      } else {
        k := LcsSplit(a, Init(a'), b);
        LcsStep(a', b[k..]);
      }
    }
  }

  // ------------------------------------------------------------------ working from the front

  lemma {:induction false} LcsSingle<T>(x: T, b: seq<T>)
    ensures LcsLen([x], b) == if x in b then 1 else 0
  {
    if b != [] {
      LcsSingle(x, Init(b));
      assert b == Init(b) + [Last(b)];
      assert Init([x]) == [];
    }
  }

  lemma LcsTail<T>(a: seq<T>, b: seq<T>)
    requires b != []
    ensures LcsLen(a, b[1..]) <= LcsLen(a, b) <= LcsLen(a, b[1..]) + 1
  {
    assert [] + a == a && [b[0]] + b[1..] == b && a + [] == a;
    LcsConcat([], [b[0]], a, b[1..]);
    FrontUpper(a, b);
  }

  lemma {:induction false} FrontUpper<T>(a: seq<T>, b: seq<T>)
    requires b != []
    ensures LcsLen(a, b) <= LcsLen(a, b[1..]) + 1
    decreases |a| + |b|
  {
    if a != [] && |b| > 1 {
      assert Init(b)[1..] == Init(b[1..]) && Last(b) == Last(b[1..]);
      FrontUpper(Init(a), Init(b));
      FrontUpper(a, Init(b));
      FrontUpper(Init(a), b);
    } else if a != [] {
      LcsBound(a, b);
    }
  }

  lemma LcsFrontLower<T>(a: seq<T>, b: seq<T>)
    requires a != [] && b != []
    ensures a[0] == b[0] ==> LcsLen(a, b) >= LcsLen(a[1..], b[1..]) + 1
    ensures LcsLen(a, b) >= Max(LcsLen(a, b[1..]), LcsLen(a[1..], b))
  {
    var x, y := a[0], b[0];
    assert [x] + a[1..] == a && [y] + b[1..] == b && [] + a == a && [] + b == b;
    LcsSingle(x, [y]);
    LcsConcat([x], [y], a[1..], b[1..]);
    LcsConcat([x], [], a[1..], b);
    LcsConcat([], [y], a, b[1..]);
  }

  /** The element `x` is matched in `[y] + c`, or not at all. */
  lemma LcsFrontUpper<T>(x: T, a: seq<T>, y: T, c: seq<T>, d: seq<T>)
    ensures LcsLen([x], [y] + c) + LcsLen(a, d) <= if x == y then LcsLen(a, c + d) + 1 else LcsLen([x] + a, c + d)
  {
    LcsSingle(x, [y] + c);
    if x == y {
      LcsConcat([], c, a, d);
      assert [] + a == a;
    } else {
      LcsSingle(x, c);
      LcsConcat([x], c, a, d);
    }
  }

  lemma LcsFrontSplit<T>(a: seq<T>, b: seq<T>, k: nat)
    requires a != [] && 0 < k <= |b|
    ensures LcsLen([a[0]], b[..k]) + LcsLen(a[1..], b[k..]) <=
            if a[0] == b[0] then LcsLen(a[1..], b[1..]) + 1 else LcsLen(a, b[1..])
  {
    LcsFrontUpper(a[0], a[1..], b[0], b[1..k], b[k..]);
    assert b[..k] == [b[0]] + b[1..k] && b[1..] == b[1..k] + b[k..];
    assert [a[0]] + a[1..] == a;
  }

  lemma LcsFrontAtMost<T>(a: seq<T>, b: seq<T>)
    requires a != [] && b != []
    ensures a[0] == b[0] ==> LcsLen(a, b) <= LcsLen(a[1..], b[1..]) + 1
    ensures a[0] != b[0] ==> LcsLen(a, b) <= Max(LcsLen(a, b[1..]), LcsLen(a[1..], b))
  {
    assert [a[0]] + a[1..] == a;
    var k := LcsSplit([a[0]], a[1..], b);
    if k > 0 {
      LcsFrontSplit(a, b, k);
    } else {
      assert b[..0] == [] && b[0..] == b;
      LcsTail(a[1..], b);
    }
  }

  /** The same recurrence from the front, which the backward rows use. */
  lemma LcsFront<T>(a: seq<T>, b: seq<T>)
    requires a != [] && b != []
    ensures LcsLen(a, b) == if a[0] == b[0] then LcsLen(a[1..], b[1..]) + 1
                            else Max(LcsLen(a, b[1..]), LcsLen(a[1..], b))
  {
    LcsFrontLower(a, b);
    LcsFrontAtMost(a, b);
  }

  /** A common prefix belongs to some longest common subsequence. */
  lemma {:induction false} LcsCommonPrefix<T>(p: seq<T>, a: seq<T>, b: seq<T>)
    ensures LcsLen(p + a, p + b) == |p| + LcsLen(a, b)
  {
    if p == [] {
      assert p + a == a && p + b == b;
    } else {
      LcsCommonPrefix(p[1..], a, b);
      assert (p + a)[1..] == p[1..] + a && (p + b)[1..] == p[1..] + b;
      LcsFront(p + a, p + b);
    }
  }

  lemma {:induction false} LcsCommonSuffix<T>(a: seq<T>, b: seq<T>, s: seq<T>)
    ensures LcsLen(a + s, b + s) == LcsLen(a, b) + |s|
  {
    if s == [] {
      assert a + s == a && b + s == b;
    } else {
      LcsCommonSuffix(a, b, Init(s));
      assert Init(a + s) == a + Init(s) && Init(b + s) == b + Init(s);
    }
  }

  // ------------------------------------------------------------------ the independent meaning

  /** `c` is obtained from `a` by dropping elements. */
  ghost predicate Subsequence<T>(c: seq<T>, a: seq<T>) {
    if c == [] then true
    else if a == [] then false
    else (Last(c) == Last(a) && Subsequence(Init(c), Init(a))) || Subsequence(c, Init(a))
  }

  lemma {:induction false} SubsequenceDrops<T>(c: seq<T>, a: seq<T>)
    requires c != [] && Subsequence(c, a)
    ensures a != [] && Subsequence(Init(c), Init(a))
  {
    if !(Last(c) == Last(a) && Subsequence(Init(c), Init(a))) {
      SubsequenceDrops(c, Init(a));
      SubsequenceGrows(Init(c), Init(a));
    }
  }

  lemma SubsequenceGrows<T>(c: seq<T>, a: seq<T>)
    requires a != [] && Subsequence(c, Init(a))
    ensures Subsequence(c, a)
  {
  }

  /** No common subsequence is longer. */
  lemma {:induction false} LcsIsUpperBound<T>(c: seq<T>, a: seq<T>, b: seq<T>)
    requires Subsequence(c, a) && Subsequence(c, b)
    ensures |c| <= LcsLen(a, b)
    decreases |a| + |b|
  {
    if c != [] {
      if Last(a) == Last(b) {
        SubsequenceDrops(c, a);
        SubsequenceDrops(c, b);
        LcsIsUpperBound(Init(c), Init(a), Init(b));
      } else if Last(c) != Last(a) {
        LcsIsUpperBound(c, Init(a), b);
      } else {
        LcsIsUpperBound(c, a, Init(b));
      }
    }
  }

  /** Some common subsequence is that long. */
  lemma {:induction false} LcsIsAttained<T>(a: seq<T>, b: seq<T>) returns (c: seq<T>)
    ensures Subsequence(c, a) && Subsequence(c, b) && |c| == LcsLen(a, b)
    decreases |a| + |b|
  {
    if a == [] || b == [] {
      c := [];
    } else if Last(a) == Last(b) {
      c := LcsIsAttained(Init(a), Init(b));
      assert Init(c + [Last(a)]) == c;
      c := c + [Last(a)];
    } else if LcsLen(a, Init(b)) >= LcsLen(Init(a), b) {
      c := LcsIsAttained(a, Init(b));
    } else {
      c := LcsIsAttained(Init(a), b);
    }
  }
}
