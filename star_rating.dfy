/**
 * The star widget: five buttons for the values 1 to 5, a star drawn filled
 * when its value is at most the rating, and a click that reports the value
 * of the star clicked.
 */
module StarRating {
  import opened Wrappers

  /** How many stars the widget draws. */
  const StarCount: nat := 5

  /** The star values, in the order they are drawn. */
  function Stars(): (s: seq<int>)
    ensures |s| == StarCount
    ensures forall i :: 0 <= i < |s| ==> s[i] == i + 1
  {
    [1, 2, 3, 4, 5]
  }

  /** Whether a star is drawn filled for a given rating. */
  predicate IsFilled(star: int, rating: int)
  {
    star <= rating
  }

  /** The fill of each drawn star: the i-th star (value i + 1) is filled iff i + 1 <= rating. */
  function FillPattern(rating: int): (f: seq<bool>)
    ensures |f| == StarCount
    ensures forall i :: 0 <= i < StarCount ==> (f[i] <==> i + 1 <= rating)
  {
    seq(StarCount, i requires 0 <= i < StarCount => IsFilled(Stars()[i], rating))
  }

  /** The number of `true` entries. */
  function CountTrue(bs: seq<bool>): (n: nat)
    ensures n <= |bs|
  {
    if bs == [] then 0 else (if bs[0] then 1 else 0) + CountTrue(bs[1..])
  }

  /** `rating` clamped to the range 0..StarCount. */
  function Clamp(rating: int): (c: int)
    ensures 0 <= c <= StarCount
    ensures 0 <= rating <= StarCount ==> c == rating
  {
    if rating < 0 then 0 else if rating > StarCount then StarCount else rating
  }

  /** A row whose first k entries are true and the rest false holds k trues. */
  lemma {:induction false} CountPrefix(bs: seq<bool>, k: int)
    requires 0 <= k <= |bs|
    requires forall i :: 0 <= i < |bs| ==> (bs[i] <==> i < k)
    ensures CountTrue(bs) == k
  {
    if bs != [] {
      var tail := bs[1..];
      assert forall i :: 0 <= i < |tail| ==> tail[i] == bs[i + 1];
      CountPrefix(tail, if k == 0 then 0 else k - 1);
    }
  }

  /** The number of filled stars is the rating clamped to 0..5; a rating of 0 fills none. */
  lemma FilledCount(rating: int)
    ensures CountTrue(FillPattern(rating)) == Clamp(rating)
    ensures rating <= 0 ==> CountTrue(FillPattern(rating)) == 0
  {
    CountPrefix(FillPattern(rating), Clamp(rating));
  }

  /** Fill is monotone in the rating: a star filled at r1 is filled at every r2 >= r1. */
  lemma FillMonotone(r1: int, r2: int)
    requires r1 <= r2
    ensures forall i :: 0 <= i < StarCount && FillPattern(r1)[i] ==> FillPattern(r2)[i]
  {
  }

  /**
   * A click on the star at `index`: a disabled (read-only) button reports
   * nothing, and so does a widget given no `onRatingChange`; otherwise the
   * star's own value is reported.
   */
  function Click(index: int, readonly: bool, hasHandler: bool): (reported: Option<int>)
    requires 0 <= index < StarCount
    ensures reported.Some? <==> !readonly && hasHandler
    ensures reported.Some? ==> reported.value == index + 1
    ensures reported.Some? ==> 1 <= reported.value <= StarCount
  {
    if readonly || !hasHandler then None else Some(Stars()[index])
  }

  /** A reported rating fills exactly the clicked star and the stars before it. */
  lemma ClickFillsUpTo(index: int)
    requires 0 <= index < StarCount
    ensures Click(index, false, true).Some?
    ensures forall i :: 0 <= i < StarCount ==>
              (FillPattern(Click(index, false, true).value)[i] <==> i <= index)
  {
  }
}
