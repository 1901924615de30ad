/** Change lists: runs of kept, deleted and inserted text (`SnapshotChange` in crates/nisaba-core/src/review.rs). */
module ChangeLists {
  const REFINE_LIMIT_CHARS: nat := 8192

  datatype Change = Deleted(text: string) | Inserted(text: string) | Same(text: string)

  // ------------------------------------------------------------------ what a change list says

  function OldText(changes: seq<Change>, k: nat): string
    requires k <= |changes|
  {
    if k == 0 then [] else OldText(changes, k - 1) + if changes[k - 1].Inserted? then [] else changes[k - 1].text
  }

  function NewText(changes: seq<Change>, k: nat): string
    requires k <= |changes|
  {
    if k == 0 then [] else NewText(changes, k - 1) + if changes[k - 1].Deleted? then [] else changes[k - 1].text
  }

  /** Same and deleted runs, concatenated. */
  function OldSide(changes: seq<Change>): string { OldText(changes, |changes|) }

  /** Same and inserted runs, concatenated. */
  function NewSide(changes: seq<Change>): string { NewText(changes, |changes|) }

  predicate SameKindOfChange(x: Change, y: Change) {
    (x.Deleted? && y.Deleted?) || (x.Inserted? && y.Inserted?) || (x.Same? && y.Same?)
  }

  /** No two neighbouring runs share a kind. */
  predicate Merged(changes: seq<Change>) {
    forall i :: 0 < i < |changes| ==> !SameKindOfChange(changes[i - 1], changes[i])
  }

  predicate NoEmptyRun(changes: seq<Change>) {
    forall i :: 0 <= i < |changes| ==> changes[i].text != []
  }

  /** `push_change`: merge into a last run of the same kind, else append. */
  function PushChange(changes: seq<Change>, c: Change): seq<Change> {
    var last := |changes| - 1;
    if changes != [] && SameKindOfChange(changes[last], c)
    then changes[last := c.(text := changes[last].text + c.text)]
    else changes + [c]
  }

  lemma {:induction false} SidesFrame(xs: seq<Change>, ys: seq<Change>, k: nat)
    requires k <= |xs| && k <= |ys|
    requires forall t :: 0 <= t < k ==> xs[t] == ys[t]
    ensures OldText(xs, k) == OldText(ys, k) && NewText(xs, k) == NewText(ys, k)
  {
    if k > 0 { SidesFrame(xs, ys, k - 1); }
  }

  lemma PushSides(changes: seq<Change>, c: Change)
    ensures OldSide(PushChange(changes, c)) == OldSide(changes) + if c.Inserted? then [] else c.text
    ensures NewSide(PushChange(changes, c)) == NewSide(changes) + if c.Deleted? then [] else c.text
  {
    var r := PushChange(changes, c);
    SidesFrame(changes, r, |r| - 1);
  }

  lemma PushMerged(changes: seq<Change>, c: Change)
    ensures Merged(changes) ==> Merged(PushChange(changes, c))
  {
  }

  /** The run is the other one, or a longer one of its kind. */
  predicate Prolongs(x: Change, y: Change) { SameKindOfChange(x, y) && y.text <= x.text }

  /** Runs were added to `out`; of its own runs at most the last has grown. */
  ghost predicate Grows(r: seq<Change>, out: seq<Change>) {
    && |out| <= |r| && (forall k :: 0 <= k < |out| - 1 ==> r[k] == out[k])
    && (out != [] ==> Prolongs(r[|out| - 1], out[|out| - 1]))
  }

  /** No run is empty from the last of the first `n` on. */
  ghost predicate FullFrom(r: seq<Change>, n: nat) {
    forall k :: 0 <= k < |r| && n <= k + 1 ==> r[k].text != []
  }

  lemma PushGrows(changes: seq<Change>, c: Change)
    ensures Grows(PushChange(changes, c), changes)
  {
  }

  lemma GrowsThen(r: seq<Change>, mid: seq<Change>, out: seq<Change>)
    requires Grows(r, mid) && Grows(mid, out)
    ensures Grows(r, out)
  {
  }

  lemma PushFull(changes: seq<Change>, c: Change, n: nat)
    requires FullFrom(changes, n) && n <= |changes| && c.text != []
    ensures FullFrom(PushChange(changes, c), n)
  {
  }

  /** Full runs on top of full runs. */
  lemma FullThen(r: seq<Change>, mid: seq<Change>, n: nat)
    requires Grows(r, mid) && FullFrom(mid, n) && n <= |mid| && FullFrom(r, |mid|)
    ensures FullFrom(r, n)
  {
    forall k | 0 <= k < |r| && n <= k + 1 ensures r[k].text != [] {
      if k < |mid| - 1 { assert r[k] == mid[k]; }
    }
  }

  /** What a call that diffs `old` against `new` adds to the list it was given. */
  ghost predicate Adds(r: seq<Change>, out: seq<Change>, old_: string, new_: string) {
    && OldSide(r) == OldSide(out) + old_
    && NewSide(r) == NewSide(out) + new_
    && Merged(r) && Grows(r, out)
  }

  lemma SliceJoin(s: string, i: nat, j: nat, k: nat)
    requires i <= j <= k <= |s|
    ensures s[i..k] == s[i..j] + s[j..k]
  {
  }

  // ------------------------------------------------------------------ adding runs

  lemma AddsThen(r: seq<Change>, mid: seq<Change>, out: seq<Change>, old_: string, i: nat, i': nat, new_: string,
                 j: nat, j': nat)
    requires i <= i' <= |old_| && j <= j' <= |new_|
    requires Adds(mid, out, old_[..i], new_[..j]) && Adds(r, mid, old_[i..i'], new_[j..j'])
    ensures Adds(r, out, old_[..i'], new_[..j'])
  {
    assert OldSide(r) == OldSide(out) + old_[..i'] by { AddsSlice(OldSide(out), old_, i, i'); }
    assert NewSide(r) == NewSide(out) + new_[..j'] by { AddsSlice(NewSide(out), new_, j, j'); }
    GrowsThen(r, mid, out);
  }

  lemma AddsSlice(side: string, s: string, i: nat, j: nat)
    requires i <= j <= |s|
    ensures side + s[..i] + s[i..j] == side + s[..j]
  {
    SliceJoin(s, 0, i, j);
  }

  lemma AddsOne(out: seq<Change>, c: Change)
    requires Merged(out)
    ensures Adds(PushChange(out, c), out, if c.Inserted? then [] else c.text, if c.Deleted? then [] else c.text)
  {
    PushSides(out, c);
    PushMerged(out, c);
    PushGrows(out, c);
  }

  /** One replacement, whole: a delete run and an insert run, either of which may be empty. */
  function Replacement(out: seq<Change>, old_: string, new_: string): seq<Change> {
    PushChange(PushChange(out, Deleted(old_)), Inserted(new_))
  }

  lemma AddsBoth(out: seq<Change>, old_: string, new_: string)
    requires Merged(out)
    ensures Adds(Replacement(out, old_, new_), out, old_, new_)
  {
    var mid := PushChange(out, Deleted(old_));
    AddsOne(out, Deleted(old_));
    AddsOne(mid, Inserted(new_));
    GrowsThen(Replacement(out, old_, new_), mid, out);
  }

  /** The list ends with a run of text, or has no run at all. */
  ghost predicate EndsFull(out: seq<Change>) { out == [] || out[|out| - 1].text != [] }

  /** Inputs small enough to be refined add no empty run. */
  ghost predicate KeepsRunsFull(r: seq<Change>, out: seq<Change>, old_: string, new_: string) {
    EndsFull(out) && 0 < |old_| + |new_| <= REFINE_LIMIT_CHARS ==> FullFrom(r, |out|)
  }

  lemma OneFull(out: seq<Change>, c: Change)
    requires EndsFull(out) && c.text != []
    ensures FullFrom(PushChange(out, c), |out|)
  {
  }

  // ------------------------------------------------------------------ what is kept, and where

  /** The list is empty or ends with a kept run. */
  predicate EndsSame(r: seq<Change>) { r == [] || r[|r| - 1].Same? }

  /** A last run that is a change has not grown. */
  ghost predicate Settles(r: seq<Change>, out: seq<Change>) {
    Grows(r, out) && (!EndsSame(out) ==> r[|out| - 1] == out[|out| - 1])
  }

  /** Run `k` keeps `n` characters from `p` of the old side as those from `q` of the new side. */
  predicate InRun(r: seq<Change>, k: nat, p: int, q: int, n: int) {
    && k < |r| && r[k].Same?
    && |OldText(r, k)| <= p && p + n <= |OldText(r, k)| + |r[k].text|
    && p - |OldText(r, k)| == q - |NewText(r, k)|
  }

  ghost predicate Kept(r: seq<Change>, p: int, q: int, n: int) { exists k: nat :: InRun(r, k, p, q, n) }

  /** Run `k` deletes `o` whole at `p` of the old side, and the next inserts `n` at `q` of the new side. */
  predicate ReplacedIn(r: seq<Change>, k: nat, p: int, q: int, o: string, n: string) {
    && k + 1 < |r| && r[k] == Deleted(o) && r[k + 1] == Inserted(n)
    && |OldText(r, k)| == p && |NewText(r, k)| == q
  }

  ghost predicate Whole(r: seq<Change>, p: int, q: int, o: string, n: string) {
    exists k: nat :: ReplacedIn(r, k, p, q, o, n)
  }

  lemma KeptStays(r': seq<Change>, r: seq<Change>, p: int, q: int, n: int)
    requires Grows(r', r) && Kept(r, p, q, n)
    ensures Kept(r', p, q, n)
  {
    var k: nat :| InRun(r, k, p, q, n);
    SidesFrame(r, r', k);
    assert InRun(r', k, p, q, n);
  }

  lemma WholeStays(r': seq<Change>, r: seq<Change>, p: int, q: int, o: string, n: string)
    requires Settles(r', r) && Whole(r, p, q, o, n)
    ensures Whole(r', p, q, o, n)
  {
    var k: nat :| ReplacedIn(r, k, p, q, o, n);
    SidesFrame(r, r', k);
    assert ReplacedIn(r', k, p, q, o, n);
  }

  /** A run that is pushed is kept at the ends of both sides. */
  lemma PushedIsKept(r: seq<Change>, x: string)
    ensures Kept(PushChange(r, Same(x)), |OldSide(r)|, |NewSide(r)|, |x|)
  {
    var r' := PushChange(r, Same(x));
    var k: nat := |r'| - 1;
    SidesFrame(r, r', k);
    if k < |r| {
      assert |OldSide(r)| == |OldText(r, k)| + |r[k].text| && |NewSide(r)| == |NewText(r, k)| + |r[k].text|;
    }
    assert InRun(r', k, |OldSide(r)|, |NewSide(r)|, |x|);
  }

  lemma ReplacementIsWhole(r: seq<Change>, o: string, n: string)
    requires EndsSame(r)
    ensures Whole(Replacement(r, o, n), |OldSide(r)|, |NewSide(r)|, o, n)
  {
    var r' := Replacement(r, o, n);
    assert r' == r + [Deleted(o), Inserted(n)];
    SidesFrame(r, r', |r|);
    assert ReplacedIn(r', |r|, |OldSide(r)|, |NewSide(r)|, o, n);
  }

  /** How many characters the first `k` runs keep. */
  function SameCount(r: seq<Change>, k: nat): nat
    requires k <= |r|
  {
    if k == 0 then 0 else SameCount(r, k - 1) + if r[k - 1].Same? then |r[k - 1].text| else 0
  }

  function SameChars(r: seq<Change>): nat { SameCount(r, |r|) }

  lemma {:induction false} SameCountFrame(xs: seq<Change>, ys: seq<Change>, k: nat)
    requires k <= |xs| && k <= |ys| && forall t :: 0 <= t < k ==> xs[t] == ys[t]
    ensures SameCount(xs, k) == SameCount(ys, k)
  {
    if k > 0 { SameCountFrame(xs, ys, k - 1); }
  }

  lemma PushSameChars(r: seq<Change>, c: Change)
    ensures SameChars(PushChange(r, c)) == SameChars(r) + if c.Same? then |c.text| else 0
  {
    var r' := PushChange(r, c);
    SameCountFrame(r, r', |r'| - 1);
  }

  // ------------------------------------------------------------------ neighbouring changes

  predicate NoCommon(x: string, y: string) { forall c <- x :: c !in y }

  /** Two neighbouring changes, small enough to be refined, share no character. */
  predicate ApartFrom(x: Change, y: Change) {
    !x.Same? && !y.Same? && |x.text| + |y.text| <= REFINE_LIMIT_CHARS ==> NoCommon(x.text, y.text)
  }

  ghost predicate Apart(r: seq<Change>) { forall i :: 0 < i < |r| ==> ApartFrom(r[i - 1], r[i]) }

  /** Pushing keeps neighbours apart if what is pushed next to a change is apart from it. */
  lemma PushApart(r: seq<Change>, c: Change)
    requires Apart(r) && (r != [] ==> ApartFrom(r[|r| - 1], c))
    requires r != [] && SameKindOfChange(r[|r| - 1], c) ==> c.Same?
    ensures Apart(PushChange(r, c))
  {
    var r' := PushChange(r, c);
    forall i | 0 < i < |r'| ensures ApartFrom(r'[i - 1], r'[i]) {
      if i < |r| { assert ApartFrom(r[i - 1], r[i]); }
    }
  }

  lemma ReplacementApart(r: seq<Change>, o: string, n: string)
    requires Apart(r) && EndsSame(r) && |o| + |n| > REFINE_LIMIT_CHARS
    ensures Apart(Replacement(r, o, n))
  {
    PushApart(r, Deleted(o));
    PushApart(PushChange(r, Deleted(o)), Inserted(n));
  }
}
