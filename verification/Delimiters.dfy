/**
  The delimiter classifier and the marker style checks of the redline
  (crates/nisaba-core/src/redline.rs).

  The classifier keeps three bracket depths and two counts in one loop. They do not
  interact, so each is a function of its own here: a depth that falls below zero stays
  at -1, which is the early return of the source.
 */
module Delimiters {
  datatype ReplacedReason = UnbalancedBrackets | UnbalancedMath | UnbalancedRaw

  datatype InlineSafety = InlineSafe | BlockReplaced(reason: ReplacedReason)

  /** Nesting depth after the first `k` characters, entered at depth `d`; -1 once it has gone negative. */
  function DepthTo(d: int, s: string, k: nat, open: char, close: char): (r: int)
    requires k <= |s| && d >= -1
    ensures r >= -1
  {
    if k == 0 then d
    else
      var before := DepthTo(d, s, k - 1, open, close);
      if before < 0 then -1
      else if s[k - 1] == open then before + 1
      else if s[k - 1] == close then before - 1
      else before
  }

  function Depth(d: int, s: string, open: char, close: char): (r: int)
    requires d >= -1
    ensures r >= -1
  {
    DepthTo(d, s, |s|, open, close)
  }

  function CountTo(s: string, k: nat, c: char): nat
    requires k <= |s|
  {
    if k == 0 then 0 else CountTo(s, k - 1, c) + if s[k - 1] == c then 1 else 0
  }

  function Count(s: string, c: char): nat { CountTo(s, |s|, c) }

  /** The verdict from the three depths and the two counts. */
  function Verdict(sq: int, cu: int, pa: int, dollars: nat, ticks: nat): InlineSafety {
    if sq != 0 || cu != 0 || pa != 0 then BlockReplaced(UnbalancedBrackets)
    else if dollars % 2 != 0 then BlockReplaced(UnbalancedMath)
    else if ticks % 2 != 0 then BlockReplaced(UnbalancedRaw)
    else InlineSafe
  }

  function Classify(s: string): InlineSafety {
    Verdict(Depth(0, s, '[', ']'), Depth(0, s, '{', '}'), Depth(0, s, '(', ')'), Count(s, '$'), Count(s, '`'))
  }

  // ------------------------------------------------------------------ algebra of one counter

  lemma {:induction false} DepthSticks(d: int, s: string, k: nat, n: nat, open: char, close: char)
    requires k <= n <= |s| && d >= -1 && DepthTo(d, s, k, open, close) < 0
    ensures DepthTo(d, s, n, open, close) < 0
    decreases n
  {
    if k < n { DepthSticks(d, s, k, n - 1, open, close); }
  }

  lemma {:induction false} DepthConcat(d: int, s: string, t: string, k: nat, open: char, close: char)
    requires d >= -1 && k <= |t|
    ensures DepthTo(d, s + t, |s| + k, open, close) == DepthTo(Depth(d, s, open, close), t, k, open, close)
  {
    if k > 0 {
      DepthConcat(d, s, t, k - 1, open, close);
    } else {
      DepthPrefix(d, s, t, |s|, open, close);
    }
  }

  lemma {:induction false} DepthPrefix(d: int, s: string, t: string, k: nat, open: char, close: char)
    requires d >= -1 && k <= |s|
    ensures DepthTo(d, s + t, k, open, close) == DepthTo(d, s, k, open, close)
  {
    if k > 0 { DepthPrefix(d, s, t, k - 1, open, close); }
  }

  /** Entering deeper only shifts a scan that never dipped. */
  lemma {:induction false} DepthShift(base: nat, d: nat, s: string, k: nat, open: char, close: char)
    requires base <= d && k <= |s| && DepthTo(base, s, k, open, close) >= 0
    ensures DepthTo(d, s, k, open, close) == d - base + DepthTo(base, s, k, open, close)
  {
    if k > 0 { DepthShift(base, d, s, k - 1, open, close); }
  }

  lemma {:induction false} DepthBelow(s: string, k: nat, open: char, close: char)
    requires k <= |s|
    ensures DepthTo(-1, s, k, open, close) == -1
  {
    if k > 0 { DepthBelow(s, k - 1, open, close); }
  }

  /** A text that is neutral from zero is neutral from anywhere. */
  lemma NeutralDepth(d: int, s: string, open: char, close: char)
    requires d >= -1 && Depth(0, s, open, close) == 0
    ensures Depth(d, s, open, close) == d
  {
    if d < 0 { DepthBelow(s, |s|, open, close); } else { DepthShift(0, d, s, |s|, open, close); }
  }

  lemma {:induction false} CountConcat(s: string, t: string, k: nat, c: char)
    requires k <= |t|
    ensures CountTo(s + t, |s| + k, c) == Count(s, c) + CountTo(t, k, c)
  {
    if k > 0 { CountConcat(s, t, k - 1, c); } else { CountPrefix(s, t, |s|, c); }
  }

  lemma {:induction false} CountPrefix(s: string, t: string, k: nat, c: char)
    requires k <= |s|
    ensures CountTo(s + t, k, c) == CountTo(s, k, c)
  {
    if k > 0 { CountPrefix(s, t, k - 1, c); }
  }

  // ------------------------------------------------------------------ the loops of the source

  method ClassifyInlineSafety(span: string) returns (r: InlineSafety)
    ensures r == Classify(span)
  {
    var sq, cu, pa := 0, 0, 0;
    var dollars, ticks := 0, 0;
    for i := 0 to |span|
      invariant sq == DepthTo(0, span, i, '[', ']') >= 0
      invariant cu == DepthTo(0, span, i, '{', '}') >= 0
      invariant pa == DepthTo(0, span, i, '(', ')') >= 0
      invariant dollars == CountTo(span, i, '$') && ticks == CountTo(span, i, '`')
    {
      match span[i]
      case '[' => sq := sq + 1;
      case ']' =>
        sq := sq - 1;
        if sq < 0 {
          DepthSticks(0, span, i + 1, |span|, '[', ']');
          return BlockReplaced(UnbalancedBrackets);
        }
      case '{' => cu := cu + 1;
      case '}' =>
        cu := cu - 1;
        if cu < 0 {
          DepthSticks(0, span, i + 1, |span|, '{', '}');
          return BlockReplaced(UnbalancedBrackets);
        }
      case '(' => pa := pa + 1;
      case ')' =>
        pa := pa - 1;
        if pa < 0 {
          DepthSticks(0, span, i + 1, |span|, '(', ')');
          return BlockReplaced(UnbalancedBrackets);
        }
      case '$' => dollars := dollars + 1;
      case '`' => ticks := ticks + 1;
      case _ =>
    }
    r := Verdict(sq, cu, pa, dollars, ticks);
  }

  /** `open` leaves one content block open and `close` closes exactly that one. */
  predicate WrapsOneBlock(open: string, close: string) {
    Depth(0, open, '[', ']') == 1 && Depth(1, close, '[', ']') == 0
  }

  /** Everything but square brackets is balanced inside `s`. */
  predicate CleanButSquares(s: string) {
    && Depth(0, s, '{', '}') == 0 && Depth(0, s, '(', ')') == 0
    && Count(s, '$') % 2 == 0 && Count(s, '`') % 2 == 0
  }

  /** One of the two scanning loops of `opens_one_content_block`. */
  method SquareDepth(start: nat, s: string) returns (d: int)
    ensures d == Depth(start, s, '[', ']')
  {
    d := start;
    for i := 0 to |s|
      invariant d == DepthTo(start, s, i, '[', ']') >= 0
    {
      if s[i] == '[' {
        d := d + 1;
      } else if s[i] == ']' {
        d := d - 1;
        if d < 0 {
          DepthSticks(start, s, i + 1, |s|, '[', ']');
          return -1;
        }
      }
    }
  }

  method OpensOneContentBlock(open: string, close: string) returns (r: bool)
    ensures r <==> WrapsOneBlock(open, close)
  {
    var d := SquareDepth(0, open);
    if d != 1 {
      return false;
    }
    d := SquareDepth(1, close);
    r := d == 0;
  }

  method NonSquareDelimitersClean(s: string) returns (r: bool)
    ensures r <==> CleanButSquares(s)
  {
    var cu, pa := 0, 0;
    var dollars, ticks := 0, 0;
    for i := 0 to |s|
      invariant cu == DepthTo(0, s, i, '{', '}') >= 0
      invariant pa == DepthTo(0, s, i, '(', ')') >= 0
      invariant dollars == CountTo(s, i, '$') && ticks == CountTo(s, i, '`')
    {
      match s[i]
      case '{' => cu := cu + 1;
      case '}' =>
        cu := cu - 1;
        if cu < 0 {
          DepthSticks(0, s, i + 1, |s|, '{', '}');
          return false;
        }
      case '(' => pa := pa + 1;
      case ')' =>
        pa := pa - 1;
        if pa < 0 {
          DepthSticks(0, s, i + 1, |s|, '(', ')');
          return false;
        }
      case '$' => dollars := dollars + 1;
      case '`' => ticks := ticks + 1;
      case _ =>
    }
    r := cu == 0 && pa == 0 && dollars % 2 == 0 && ticks % 2 == 0;
  }
}
