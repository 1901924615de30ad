/**
  The algebra of deleting characters from a text.

  `gone[c]` says that character `c` of an original text has been removed. `Kept` is what is
  left, and `Rank` is where an original gap position ends up: it loses one for every removed
  character below it. Every theorem about accepting, rejecting and projecting is stated
  over these two functions.
 */
module Survivors {
  /** Number of removed characters below gap position `p`. */
  function Below(gone: seq<bool>, p: nat): (r: nat)
    ensures r <= p
  {
    if p == 0 then 0
    else Below(gone, p - 1) + (if p - 1 < |gone| && gone[p - 1] then 1 else 0)
  }

  /** Where gap position `p` of the original lies once the `gone` characters are removed. */
  function Rank(gone: seq<bool>, p: nat): nat {
    p - Below(gone, p)
  }

  /** The first `n` characters of `text` without the removed ones. */
  function KeptTo<T>(text: seq<T>, gone: seq<bool>, n: nat): (r: seq<T>)
    requires |gone| == |text| && n <= |text|
    ensures |r| == Rank(gone, n)
  {
    if n == 0 then []
    else KeptTo(text, gone, n - 1) + (if gone[n - 1] then [] else [text[n - 1]])
  }

  function Kept<T>(text: seq<T>, gone: seq<bool>): (r: seq<T>)
    requires |gone| == |text|
    ensures |r| == Rank(gone, |text|)
  {
    KeptTo(text, gone, |text|)
  }

  /** `gone` with the characters of `[s, e)` removed as well. */
  function Erase(gone: seq<bool>, s: nat, e: nat): (r: seq<bool>)
    ensures |r| == |gone|
  {
    seq(|gone|, i requires 0 <= i < |gone| => gone[i] || s <= i < e)
  }

  function Nothing(n: nat): (r: seq<bool>)
    ensures |r| == n
  {
    seq(n, _ => false)
  }

  function Cut<T>(text: seq<T>, s: nat, e: nat): seq<T>
    requires s <= e <= |text|
  {
    text[..s] + text[e..]
  }

  // ------------------------------------------------------------------ order

  lemma {:induction false} RankMonotone(gone: seq<bool>, p: nat, q: nat)
    requires p <= q
    ensures Rank(gone, p) <= Rank(gone, q) <= Rank(gone, p) + (q - p)
    decreases q
  {
    if p < q { RankMonotone(gone, p, q - 1); }
  }

  /** A surviving character has its own slot: it separates the gaps on its two sides. */
  lemma RankSeparates(gone: seq<bool>, p: nat, c: nat)
    requires c < |gone| && !gone[c]
    ensures p <= c <==> Rank(gone, p) <= Rank(gone, c)
    ensures Rank(gone, c + 1) == Rank(gone, c) + 1
  {
    if p <= c {
      RankMonotone(gone, p, c);
    } else {
      RankMonotone(gone, c + 1, p);
    }
  }

  /** Past the end of the text every position moves by the same amount. */
  lemma {:induction false} RankBeyond(gone: seq<bool>, p: nat)
    requires p >= |gone|
    ensures Rank(gone, p) == Rank(gone, |gone|) + (p - |gone|)
    decreases p
  {
    if p > |gone| { RankBeyond(gone, p - 1); }
  }

  lemma {:induction false} RankNothing(n: nat, p: nat)
    ensures Rank(Nothing(n), p) == p
  {
    if p > 0 { RankNothing(n, p - 1); }
  }

  lemma {:induction false} KeptNothing<T>(text: seq<T>, n: nat)
    requires n <= |text|
    ensures KeptTo(text, Nothing(|text|), n) == text[..n]
  {
    if n > 0 { KeptNothing(text, n - 1); }
  }

  /** The surviving character `c` is found at its rank. */
  lemma {:induction false} KeptAt<T>(text: seq<T>, gone: seq<bool>, n: nat, c: nat)
    requires |gone| == |text| && c < n <= |text| && !gone[c]
    ensures Rank(gone, c) < Rank(gone, n)
    ensures KeptTo(text, gone, n)[Rank(gone, c)] == text[c]
  {
    RankMonotone(gone, c + 1, n);
    if c < n - 1 { KeptAt(text, gone, n - 1, c); }
  }

  /** Every character of the remaining text is a surviving original one. */
  lemma {:induction false} SurvivorAt(gone: seq<bool>, n: nat, k: nat) returns (c: nat)
    requires n <= |gone| && k < Rank(gone, n)
    ensures c < n && !gone[c] && Rank(gone, c) == k
  {
    if k == Rank(gone, n - 1) {
      c := n - 1;
    } else {
      c := SurvivorAt(gone, n - 1, k);
    }
  }

  // ------------------------------------------------------------------ removing a range

  lemma {:induction false} RankErase(gone: seq<bool>, s: nat, e: nat, p: nat)
    requires s <= e <= |gone|
    ensures Rank(Erase(gone, s, e), p) ==
            if p <= s then Rank(gone, p)
            else if p <= e then Rank(gone, s)
            else Rank(gone, p) - (Rank(gone, e) - Rank(gone, s))
  {
    if p > 0 { RankErase(gone, s, e, p - 1); }
  }

  lemma {:induction false} KeptEraseWithin<T>(text: seq<T>, gone: seq<bool>, s: nat, e: nat, n: nat)
    requires |gone| == |text| && s <= e <= |text| && n <= e
    ensures KeptTo(text, Erase(gone, s, e), n) == KeptTo(text, gone, if n <= s then n else s)
  {
    if n > 0 { KeptEraseWithin(text, gone, s, e, n - 1); }
  }

  lemma {:induction false} KeptEraseBeyond<T>(text: seq<T>, gone: seq<bool>, s: nat, e: nat, n: nat)
    requires |gone| == |text| && s <= e <= n <= |text|
    ensures Rank(gone, e) <= Rank(gone, n)
    ensures KeptTo(text, Erase(gone, s, e), n) == KeptTo(text, gone, s) + KeptTo(text, gone, n)[Rank(gone, e)..]
  {
    RankMonotone(gone, e, n);
    var erased := Erase(gone, s, e);
    if n == e {
      KeptEraseWithin(text, gone, s, e, n);
      assert KeptTo(text, gone, n)[Rank(gone, e)..] == [];
    } else {
      RankMonotone(gone, e, n - 1);
      KeptEraseBeyond(text, gone, s, e, n - 1);
      assert erased[n - 1] == gone[n - 1];
      if gone[n - 1] {
        KeptSkips(text, erased, n - 1);
        KeptSkips(text, gone, n - 1);
      } else {
        TailOfLonger(KeptTo(text, gone, s), KeptTo(text, gone, n - 1), text[n - 1], Rank(gone, e));
      }
    }
  }

  lemma TailOfLonger<T>(head: seq<T>, s: seq<T>, x: T, k: nat)
    requires k <= |s|
    ensures head + (s + [x])[k..] == head + s[k..] + [x]
  {
    assert (s + [x])[k..] == s[k..] + [x];
  }

  lemma {:induction false} KeptPrefix<T>(text: seq<T>, gone: seq<bool>, s: nat, n: nat)
    requires |gone| == |text| && s <= n <= |text|
    ensures Rank(gone, s) <= Rank(gone, n)
    ensures KeptTo(text, gone, n)[..Rank(gone, s)] == KeptTo(text, gone, s)
    decreases n
  {
    RankMonotone(gone, s, n);
    if s < n {
      KeptPrefix(text, gone, s, n - 1);
      RankMonotone(gone, s, n - 1);
    }
  }

  /** Cutting an original range out of what is left is the same as erasing it from the start. */
  lemma KeptErase<T>(text: seq<T>, gone: seq<bool>, s: nat, e: nat)
    requires |gone| == |text| && s <= e <= |text|
    ensures Rank(gone, s) <= Rank(gone, e) <= Rank(gone, |text|)
    ensures Cut(Kept(text, gone), Rank(gone, s), Rank(gone, e)) == Kept(text, Erase(gone, s, e))
  {
    RankMonotone(gone, s, e);
    RankMonotone(gone, e, |text|);
    KeptEraseBeyond(text, gone, s, e, |text|);
    KeptPrefix(text, gone, s, |text|);
  }

  /** Character `c` is in `all` exactly if it is in `gone`, or `more` has it at its rank. */
  ghost predicate InEither(gone: seq<bool>, more: seq<bool>, all: seq<bool>, c: nat)
    requires c < |gone| == |all|
  {
    if gone[c] then all[c] else Rank(gone, c) < |more| && more[Rank(gone, c)] == all[c]
  }

  /** Removing `more` from what is left after `gone` equals removing both from the start. */
  lemma {:induction false} KeptTwice<T>(text: seq<T>, gone: seq<bool>, more: seq<bool>, all: seq<bool>, n: nat)
    requires |gone| == |all| == |text| && n <= |text|
    requires |more| == Rank(gone, |text|)
    requires forall c: nat :: c < |text| ==> InEither(gone, more, all, c)
    ensures Rank(gone, n) <= |more|
    ensures KeptTo(Kept(text, gone), more, Rank(gone, n)) == KeptTo(text, all, n)
  {
    RankMonotone(gone, n, |text|);
    if n > 0 {
      KeptTwice(text, gone, more, all, n - 1);
      assert InEither(gone, more, all, n - 1);
      if gone[n - 1] {
        KeptSkips(text, all, n - 1);
        assert Rank(gone, n) == Rank(gone, n - 1);
      } else {
        KeptAt(text, gone, |text|, n - 1);
        KeptAlike(Kept(text, gone), more, Rank(gone, n - 1), text, all, n - 1);
        assert Rank(gone, n) == Rank(gone, n - 1) + 1;
      }
    }
  }

  lemma KeptSkips<T>(text: seq<T>, gone: seq<bool>, i: nat)
    requires |gone| == |text| && i < |text| && gone[i]
    ensures KeptTo(text, gone, i + 1) == KeptTo(text, gone, i)
  {
  }

  /** Two texts that keep alike so far, and alike at the next character, keep alike beyond it. */
  lemma KeptAlike<T>(s: seq<T>, p: seq<bool>, i: nat, t: seq<T>, q: seq<bool>, j: nat)
    requires |p| == |s| && i < |s| && |q| == |t| && j < |t|
    requires KeptTo(s, p, i) == KeptTo(t, q, j) && p[i] == q[j] && s[i] == t[j]
    ensures KeptTo(s, p, i + 1) == KeptTo(t, q, j + 1)
  {
  }
}
