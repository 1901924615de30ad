/**
  Edit scripts: runs of equal, deleted and inserted elements (`DiffOp` in
  crates/nisaba-core/src/review.rs) and the merging append `push_op`.
 */
module EditScripts {
  import opened Lcs

  datatype DiffOp = Equal(n: nat) | Delete(n: nat) | Insert(n: nat)

  /** `n` elements of `a` from `i` on agree with those of `b` from `j` on. */
  ghost predicate Match<T>(a: seq<T>, b: seq<T>, i: nat, j: nat, n: nat)
    requires i + n <= |a| && j + n <= |b|
  {
    n == 0 || (a[i + n - 1] == b[j + n - 1] && Match(a, b, i, j, n - 1))
  }

  /**
    The first `k` runs turn the first `i` elements of `a` into the first `j` of `b`: equal
    runs agree, deleted and inserted runs account for everything else.
   */
  ghost predicate ScriptTo<T>(ops: seq<DiffOp>, k: nat, a: seq<T>, b: seq<T>, i: nat, j: nat)
    requires k <= |ops| && i <= |a| && j <= |b|
  {
    if k == 0 then i == 0 && j == 0
    else
      match ops[k - 1]
      case Equal(n) => n <= i && n <= j && Match(a, b, i - n, j - n, n) && ScriptTo(ops, k - 1, a, b, i - n, j - n)
      case Delete(n) => n <= i && ScriptTo(ops, k - 1, a, b, i - n, j)
      case Insert(n) => n <= j && ScriptTo(ops, k - 1, a, b, i, j - n)
  }

  ghost predicate Script<T>(ops: seq<DiffOp>, a: seq<T>, b: seq<T>, i: nat, j: nat)
    requires i <= |a| && j <= |b|
  {
    ScriptTo(ops, |ops|, a, b, i, j)
  }

  function EqualsTo(ops: seq<DiffOp>, k: nat): nat
    requires k <= |ops|
  {
    if k == 0 then 0 else EqualsTo(ops, k - 1) + if ops[k - 1].Equal? then ops[k - 1].n else 0
  }

  /** How many elements a script keeps. */
  function Equals(ops: seq<DiffOp>): nat { EqualsTo(ops, |ops|) }

  function EditsTo(ops: seq<DiffOp>, k: nat): nat
    requires k <= |ops|
  {
    if k == 0 then 0 else EditsTo(ops, k - 1) + if ops[k - 1].Equal? then 0 else ops[k - 1].n
  }

  /** How many elements a script deletes or inserts. */
  function Edits(ops: seq<DiffOp>): nat { EditsTo(ops, |ops|) }

  predicate SameKind(x: DiffOp, y: DiffOp) {
    (x.Equal? && y.Equal?) || (x.Delete? && y.Delete?) || (x.Insert? && y.Insert?)
  }

  /** No empty run and no two neighbours of one kind. */
  predicate Compact(ops: seq<DiffOp>) {
    && (forall i :: 0 <= i < |ops| ==> ops[i].n > 0)
    && (forall i :: 0 < i < |ops| ==> !SameKind(ops[i - 1], ops[i]))
  }

  /** `push_op`: drop an empty run, merge into a last run of the same kind, else append. */
  function Push(ops: seq<DiffOp>, op: DiffOp): seq<DiffOp> {
    var last := |ops| - 1;
    if op.n == 0 then ops
    else if ops != [] && SameKind(ops[last], op) then ops[last := op.(n := ops[last].n + op.n)]
    else ops + [op]
  }

  // ------------------------------------------------------------------ appending a run

  lemma PushCompact(ops: seq<DiffOp>, op: DiffOp)
    requires Compact(ops)
    ensures Compact(Push(ops, op))
  {
  }

  lemma {:induction false} MatchJoin<T>(a: seq<T>, b: seq<T>, i: nat, j: nat, m: nat, n: nat)
    requires i + m + n <= |a| && j + m + n <= |b|
    requires Match(a, b, i, j, m) && Match(a, b, i + m, j + m, n)
    ensures Match(a, b, i, j, m + n)
  {
    if n > 0 { MatchJoin(a, b, i, j, m, n - 1); }
  }

  lemma {:induction false} MatchSlices<T>(a: seq<T>, b: seq<T>, i: nat, j: nat, n: nat)
    requires i + n <= |a| && j + n <= |b| && Match(a, b, i, j, n)
    ensures a[i..i + n] == b[j..j + n]
  {
    if n > 0 {
      MatchSlices(a, b, i, j, n - 1);
      assert a[i..i + n] == a[i..i + n - 1] + [a[i + n - 1]];
      assert b[j..j + n] == b[j..j + n - 1] + [b[j + n - 1]];
    }
  }

  lemma {:induction false} ScriptFrame<T>(ops: seq<DiffOp>, ops': seq<DiffOp>, k: nat, a: seq<T>, b: seq<T>, i: nat,
                                          j: nat)
    requires k <= |ops| && k <= |ops'| && i <= |a| && j <= |b|
    requires forall t :: 0 <= t < k ==> ops[t] == ops'[t]
    requires ScriptTo(ops, k, a, b, i, j)
    ensures ScriptTo(ops', k, a, b, i, j)
  {
    if k > 0 {
      var n := ops[k - 1].n;
      match ops[k - 1]
      case Equal(_) => ScriptFrame(ops, ops', k - 1, a, b, i - n, j - n);
      case Delete(_) => ScriptFrame(ops, ops', k - 1, a, b, i - n, j);
      case Insert(_) => ScriptFrame(ops, ops', k - 1, a, b, i, j - n);
    }
  }

  lemma {:induction false} EqualsFrame(ops: seq<DiffOp>, ops': seq<DiffOp>, k: nat)
    requires k <= |ops| && k <= |ops'|
    requires forall t :: 0 <= t < k ==> ops[t] == ops'[t]
    ensures EqualsTo(ops, k) == EqualsTo(ops', k)
  {
    if k > 0 { EqualsFrame(ops, ops', k - 1); }
  }

  lemma PushEquals(ops: seq<DiffOp>, op: DiffOp)
    ensures Equals(Push(ops, op)) == Equals(ops) + if op.Equal? then op.n else 0
  {
    if op.n != 0 {
      var r := Push(ops, op);
      EqualsFrame(ops, r, |r| - 1);
    }
  }

  lemma MergeEqual<T>(ops: seq<DiffOp>, r: seq<DiffOp>, a: seq<T>, b: seq<T>, i: nat, j: nat, n: nat)
    requires i + n <= |a| && j + n <= |b|
    requires Script(ops, a, b, i, j) && Match(a, b, i, j, n)
    requires ops != [] && ops[|ops| - 1].Equal? && r == ops[|ops| - 1 := Equal(ops[|ops| - 1].n + n)]
    ensures Script(r, a, b, i + n, j + n)
  {
    var k, m := |ops| - 1, ops[|ops| - 1].n;
    MatchJoin(a, b, i - m, j - m, m, n);
    ScriptFrame(ops, r, k, a, b, i - m, j - m);
  }

  lemma AppendEqual<T>(ops: seq<DiffOp>, r: seq<DiffOp>, a: seq<T>, b: seq<T>, i: nat, j: nat, n: nat)
    requires i + n <= |a| && j + n <= |b|
    requires Script(ops, a, b, i, j) && Match(a, b, i, j, n)
    requires r == ops + [Equal(n)]
    ensures Script(r, a, b, i + n, j + n)
  {
    ScriptFrame(ops, r, |ops|, a, b, i, j);
  }

  lemma PushEqual<T>(ops: seq<DiffOp>, a: seq<T>, b: seq<T>, i: nat, j: nat, n: nat)
    requires i + n <= |a| && j + n <= |b|
    requires Script(ops, a, b, i, j) && Match(a, b, i, j, n)
    ensures Script(Push(ops, Equal(n)), a, b, i + n, j + n)
  {
    if n > 0 {
      var r := Push(ops, Equal(n));
      if |r| == |ops| {
        MergeEqual(ops, r, a, b, i, j, n);
      } else {
        AppendEqual(ops, r, a, b, i, j, n);
      }
    }
  }

  lemma PushDelete<T>(ops: seq<DiffOp>, a: seq<T>, b: seq<T>, i: nat, j: nat, n: nat)
    requires i + n <= |a| && j <= |b| && Script(ops, a, b, i, j)
    ensures Script(Push(ops, Delete(n)), a, b, i + n, j)
  {
    if n > 0 {
      var r := Push(ops, Delete(n));
      var m := if |r| == |ops| then ops[|ops| - 1].n else 0;
      ScriptFrame(ops, r, |r| - 1, a, b, i - m, j);
    }
  }

  lemma PushInsert<T>(ops: seq<DiffOp>, a: seq<T>, b: seq<T>, i: nat, j: nat, n: nat)
    requires i <= |a| && j + n <= |b| && Script(ops, a, b, i, j)
    ensures Script(Push(ops, Insert(n)), a, b, i, j + n)
  {
    if n > 0 {
      var r := Push(ops, Insert(n));
      var m := if |r| == |ops| then ops[|ops| - 1].n else 0;
      ScriptFrame(ops, r, |r| - 1, a, b, i, j - m);
    }
  }

  // ------------------------------------------------------------------ what any script can keep

  lemma LcsAppendMatch<T>(a: seq<T>, b: seq<T>, i: nat, j: nat, n: nat)
    requires i + n <= |a| && j + n <= |b| && Match(a, b, i, j, n)
    ensures LcsLen(a[..i + n], b[..j + n]) == LcsLen(a[..i], b[..j]) + n
  {
    MatchSlices(a, b, i, j, n);
    LcsCommonSuffix(a[..i], b[..j], a[i..i + n]);
    assert a[..i + n] == a[..i] + a[i..i + n] && b[..j + n] == b[..j] + b[j..j + n];
  }

  lemma LcsPrefixes<T>(a: seq<T>, b: seq<T>, i: nat, j: nat, i': nat, j': nat)
    requires i <= i' <= |a| && j <= j' <= |b|
    ensures LcsLen(a[..i], b[..j]) <= LcsLen(a[..i'], b[..j'])
  {
    LcsExtend(a[..i], b[..j], a[i..i'], b[j..j']);
    assert a[..i'] == a[..i] + a[i..i'] && b[..j'] == b[..j] + b[j..j'];
  }

  /** No script keeps more than the longest common subsequence. */
  lemma {:induction false} ScriptBound<T>(ops: seq<DiffOp>, k: nat, a: seq<T>, b: seq<T>, i: nat, j: nat)
    requires k <= |ops| && i <= |a| && j <= |b| && ScriptTo(ops, k, a, b, i, j)
    ensures EqualsTo(ops, k) <= LcsLen(a[..i], b[..j])
  {
    if k > 0 {
      var n := ops[k - 1].n;
      var i' := if ops[k - 1].Insert? then i else i - n;
      var j' := if ops[k - 1].Delete? then j else j - n;
      assert EqualsTo(ops, k - 1) <= LcsLen(a[..i'], b[..j']) by { ScriptBound(ops, k - 1, a, b, i', j'); }
      if ops[k - 1].Equal? { LcsAppendMatch(a, b, i', j', n); } else { LcsPrefixes(a, b, i', j', i, j); }
    }
  }

  /** Keeping and editing are complementary, so keeping most is editing least. */
  lemma {:induction false} ScriptSizes<T>(ops: seq<DiffOp>, k: nat, a: seq<T>, b: seq<T>, i: nat, j: nat)
    requires k <= |ops| && i <= |a| && j <= |b| && ScriptTo(ops, k, a, b, i, j)
    ensures EditsTo(ops, k) + 2 * EqualsTo(ops, k) == i + j
  {
    if k > 0 {
      var n := ops[k - 1].n;
      match ops[k - 1]
      case Equal(_) => ScriptSizes(ops, k - 1, a, b, i - n, j - n);
      case Delete(_) => ScriptSizes(ops, k - 1, a, b, i - n, j);
      case Insert(_) => ScriptSizes(ops, k - 1, a, b, i, j - n);
    }
  }
}
