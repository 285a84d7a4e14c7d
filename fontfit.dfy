/** The font-size search of `watermark_text` (watermark.py): grow the point size
    by 2 until the text is too tall, then shrink by 1 until it fits again, then
    take one point less. Font metrics are a parameter. */
module FontFit {
  import opened Imaging

  /** Measured height of `text` in the bundled TrueType face at `size` points. */
  function TextHeight(metrics: (Font, string) -> Size, text: string, size: int): nat
  {
    metrics(TrueType(size), text).h
  }

  /** The search's acceptance test: the text is at most one twentieth of the
      image height (the source compares against 0.05 times the height). */
  predicate Fits(metrics: (Font, string) -> Size, text: string, imageHeight: nat, size: int)
  {
    20 * TextHeight(metrics, text, size) <= imageHeight
  }

  /** A larger point size never renders the text shorter. */
  ghost predicate Monotone(metrics: (Font, string) -> Size, text: string)
  {
    forall a: int, b: int :: a <= b ==> TextHeight(metrics, text, a) <= TextHeight(metrics, text, b)
  }

  /** What the model assumes of the font: heights are monotone in the size, a
      size of 0 draws nothing, and a size of `s` points is at least `s / 20`
      pixels tall (so the growing phase ends on every image). */
  ghost predicate FontMetricsLaw(metrics: (Font, string) -> Size, text: string)
  {
    Monotone(metrics, text) && TextHeight(metrics, text, 0) == 0 &&
    forall s: int :: 1 <= s ==> s <= 20 * TextHeight(metrics, text, s)
  }

  /** Under the law, size 0 fits and `imageHeight + 1` does not. */
  lemma LawBoundsSearch(metrics: (Font, string) -> Size, text: string, imageHeight: nat)
    requires FontMetricsLaw(metrics, text)
    ensures Fits(metrics, text, imageHeight, 0)
    ensures !Fits(metrics, text, imageHeight, imageHeight + 1)
  {
    assert 1 <= imageHeight + 1;
  }

  /** The sizes the growing phase tries: 1, 3, 5, ..., 2n-1 (see OddsAreOdd). */
  function Odds(n: nat): (r: seq<int>)
    ensures |r| == n
  {
    if n == 0 then [] else Odds(n - 1) + [2 * n - 1]
  }

  lemma {:induction false} OddsAreOdd(n: nat)
    ensures forall i :: 0 <= i < n ==> Odds(n)[i] == 2 * i + 1
  {
    if n > 0 {
      OddsAreOdd(n - 1);
      assert forall i :: 0 <= i < n - 1 ==> Odds(n)[i] == Odds(n - 1)[i];
    }
  }

  /** The sizes the shrinking phase tries: from, from-1, ..., downTo (see
      DescentCountsDown). */
  function Descent(from: int, downTo: int): (r: seq<int>)
    decreases from - downTo + 1
    ensures |r| == if downTo > from then 0 else from - downTo + 1
  {
    if downTo > from then [] else Descent(from, downTo + 1) + [downTo]
  }

  lemma {:induction false} DescentCountsDown(from: int, downTo: int)
    decreases from - downTo + 1
    ensures forall i :: 0 <= i < |Descent(from, downTo)| ==> Descent(from, downTo)[i] == from - i
  {
    if downTo <= from {
      DescentCountsDown(from, downTo + 1);
      assert forall i :: 0 <= i < from - downTo ==> Descent(from, downTo)[i] == Descent(from, downTo + 1)[i];
    }
  }

  /** One more step of the count down appends its size. */
  lemma DescentExtend(from: int, downTo: int)
    requires downTo <= from
    ensures Descent(from, downTo) == Descent(from, downTo + 1) + [downTo]
  {
  }

  /** The largest fitting size at or above a fitting size `s`. */
  ghost function LargestFitFrom(metrics: (Font, string) -> Size, text: string, imageHeight: nat, bound: int, s: int): (r: int)
    requires Monotone(metrics, text)
    requires !Fits(metrics, text, imageHeight, bound) && Fits(metrics, text, imageHeight, s)
    decreases bound - s
    ensures s <= r
    ensures Fits(metrics, text, imageHeight, r) && !Fits(metrics, text, imageHeight, r + 1)
  {
    if Fits(metrics, text, imageHeight, s + 1) then LargestFitFrom(metrics, text, imageHeight, bound, s + 1) else s
  }

  /** The largest point size whose text fits: the reference the search is
      compared with. */
  ghost function LargestFit(metrics: (Font, string) -> Size, text: string, imageHeight: nat, bound: int): (r: int)
    requires Monotone(metrics, text)
    requires Fits(metrics, text, imageHeight, 0) && !Fits(metrics, text, imageHeight, bound)
    ensures 0 <= r
    ensures forall t :: Fits(metrics, text, imageHeight, t) <==> t <= r
  {
    LargestFitFrom(metrics, text, imageHeight, bound, 0)
  }

  /** Every odd size below the `rounds`-th one fits. */
  ghost predicate OddsFit(metrics: (Font, string) -> Size, text: string, imageHeight: nat, rounds: nat)
  {
    forall i :: 0 <= i < rounds ==> Fits(metrics, text, imageHeight, 2 * i + 1)
  }

  /** The search in its growing phase: `rounds` odd sizes have fitted, the next
      one is about to be measured, and none of them is past `bound`. */
  ghost predicate Growing(metrics: (Font, string) -> Size, text: string, imageHeight: nat, bound: int,
                          fontsize: int, rounds: nat, grown: seq<int>)
  {
    fontsize == 2 * rounds + 1 <= bound + 1 && grown == Odds(rounds) && OddsFit(metrics, text, imageHeight, rounds)
  }

  /** The search in its shrinking phase: the odd size `overshoot` was the first
      too tall, the count down has reached `fontsize`, and every size above it
      that was measured is too tall. */
  ghost predicate Shrinking(metrics: (Font, string) -> Size, text: string, imageHeight: nat,
                            fontsize: int, rounds: nat, overshoot: int, grown: seq<int>, shrunk: seq<int>)
  {
    OddsFit(metrics, text, imageHeight, rounds) &&
    overshoot == 2 * rounds + 1 && !Fits(metrics, text, imageHeight, overshoot) &&
    0 <= fontsize && overshoot - 2 <= fontsize <= overshoot - 1 &&
    !Fits(metrics, text, imageHeight, fontsize + 1) &&
    grown == Odds(rounds + 1) && shrunk == Descent(overshoot - 1, fontsize + 1)
  }

  /** A fitting size in the growing phase moves the search up by 2. */
  lemma GrowStep(metrics: (Font, string) -> Size, text: string, imageHeight: nat, bound: int,
                 fontsize: int, rounds: nat, grown: seq<int>)
    requires Monotone(metrics, text) && !Fits(metrics, text, imageHeight, bound)
    requires Growing(metrics, text, imageHeight, bound, fontsize, rounds, grown)
    requires Fits(metrics, text, imageHeight, fontsize)
    ensures Growing(metrics, text, imageHeight, bound, fontsize + 2, rounds + 1, grown + [fontsize])
  {
  }

  /** The first size found too tall turns the search downwards. */
  lemma TurnStep(metrics: (Font, string) -> Size, text: string, imageHeight: nat, bound: int,
                 fontsize: int, rounds: nat, grown: seq<int>)
    requires Growing(metrics, text, imageHeight, bound, fontsize, rounds, grown)
    requires !Fits(metrics, text, imageHeight, fontsize)
    ensures Shrinking(metrics, text, imageHeight, fontsize - 1, rounds, fontsize, grown + [fontsize], [])
  {
    assert Descent(fontsize - 1, fontsize) == [];
  }

  /** A size still too tall in the shrinking phase moves the search down by 1. */
  lemma ShrinkStep(metrics: (Font, string) -> Size, text: string, imageHeight: nat,
                   fontsize: int, rounds: nat, overshoot: int, grown: seq<int>, shrunk: seq<int>)
    requires Fits(metrics, text, imageHeight, 0)
    requires Shrinking(metrics, text, imageHeight, fontsize, rounds, overshoot, grown, shrunk)
    requires !Fits(metrics, text, imageHeight, fontsize)
    ensures Shrinking(metrics, text, imageHeight, fontsize - 1, rounds, overshoot, grown, shrunk + [fontsize])
  {
    if rounds > 0 {
      assert Fits(metrics, text, imageHeight, 2 * (rounds - 1) + 1);
    }
    DescentExtend(overshoot - 1, fontsize);
  }

  /** The first fitting size of the shrinking phase is the largest fitting size. */
  lemma SearchEnds(metrics: (Font, string) -> Size, text: string, imageHeight: nat, bound: int,
                   fontsize: int, rounds: nat, overshoot: int, grown: seq<int>, shrunk: seq<int>)
    requires Monotone(metrics, text)
    requires Fits(metrics, text, imageHeight, 0) && !Fits(metrics, text, imageHeight, bound)
    requires Shrinking(metrics, text, imageHeight, fontsize, rounds, overshoot, grown, shrunk)
    requires Fits(metrics, text, imageHeight, fontsize)
    ensures fontsize == LargestFit(metrics, text, imageHeight, bound)
    ensures grown + (shrunk + [fontsize]) == Odds(rounds + 1) + Descent(overshoot - 1, fontsize)
  {
    DescentExtend(overshoot - 1, fontsize);
  }

  /** The loop of `watermark_text`: starting at size 1 with step +2, the first
      overshoot turns the step to -1, and the first fitting size after that ends
      the loop; the result is that size minus one. `probes` are the sizes
      measured, in order; the growing phase measured `rounds` fitting sizes
      before the first size found too tall, `overshoot`. `bound` is any size
      that is too tall. */
  method FitFontSize(metrics: (Font, string) -> Size, text: string, imageHeight: nat, ghost bound: int)
    returns (fontsize: int, ghost rounds: nat, ghost overshoot: int, ghost probes: seq<int>)
    requires Monotone(metrics, text)
    requires Fits(metrics, text, imageHeight, 0) && !Fits(metrics, text, imageHeight, bound)
    ensures fontsize == LargestFit(metrics, text, imageHeight, bound) - 1
    ensures fontsize >= -1 && Fits(metrics, text, imageHeight, fontsize)
    ensures overshoot == 2 * rounds + 1 && !Fits(metrics, text, imageHeight, overshoot)
    ensures forall i :: 0 <= i < rounds ==> Fits(metrics, text, imageHeight, 2 * i + 1)
    ensures overshoot - 3 <= fontsize <= overshoot - 2
    ensures probes == Odds(rounds + 1) + Descent(overshoot - 1, fontsize + 1)
  {
    fontsize := 1;
    var wasOver := false;
    var inc := 2;
    rounds, overshoot := 0, 0;
    ghost var grown: seq<int>, shrunk: seq<int> := [], [];
    while true
      invariant inc == if wasOver then -1 else 2
      invariant !wasOver ==> Growing(metrics, text, imageHeight, bound, fontsize, rounds, grown)
      invariant wasOver ==> Shrinking(metrics, text, imageHeight, fontsize, rounds, overshoot, grown, shrunk)
      decreases if wasOver then 0 else 1, if wasOver then fontsize else bound + 1 - fontsize
    {
      if !Fits(metrics, text, imageHeight, fontsize) {
        if !wasOver {
          TurnStep(metrics, text, imageHeight, bound, fontsize, rounds, grown);
          grown, shrunk := grown + [fontsize], [];
          wasOver := true;
          inc := -1;
          overshoot := fontsize;
        } else {
          ShrinkStep(metrics, text, imageHeight, fontsize, rounds, overshoot, grown, shrunk);
          shrunk := shrunk + [fontsize];
        }
      } else if wasOver {
        SearchEnds(metrics, text, imageHeight, bound, fontsize, rounds, overshoot, grown, shrunk);
        shrunk := shrunk + [fontsize];
        break;
      } else {
        GrowStep(metrics, text, imageHeight, bound, fontsize, rounds, grown);
        grown := grown + [fontsize];
        rounds := rounds + 1;
      }
      fontsize := fontsize + inc;
    }
    fontsize := fontsize - 1;
    probes := grown + shrunk;
  }
}
