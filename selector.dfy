/** The crop-selection heuristic of `bitsofpluto`: draw a whitelisted width
    and an in-bounds corner, crop, count the dark pixels among nine sample
    points, and accept the first crop with at most six dark points.

    The random draws are inputs: attempt k is `attempts[k]`, the index into
    WIDTHS that `random.choice` picked and the two values `random.randrange`
    returned. The source loops forever; here the attempts are finite and
    running out of them is the outcome Exhausted. */
module Selector {
  import opened Image
  import opened Sampling

  /** The acceptance threshold: at most this many of the nine points may be dark. */
  const MAX_DARK_POINTS: nat := 6

  /** The random values drawn in one pass of the loop. */
  datatype Attempt = Attempt(widthIndex: nat, x: int, y: int)

  /** A crop rectangle: top-left corner and size. */
  datatype Box = Box(x: nat, y: nat, width: nat, height: nat)

  datatype Outcome =
    | Accepted(attempt: nat, box: Box, darkPoints: nat)
      // `randrange` was given an empty range because the crop is wider or
      // taller than the image: it raises ValueError and the loop is left
    | EmptyRange(attempt: nat, width: nat, height: nat)
    | Exhausted

  /** The draws the source can make: the width index is one `random.choice`
      can return, and whenever the crop fits, x and y lie in the ranges
      `randrange(0, imgW - width + 1)` and `randrange(0, imgH - height + 1)`. */
  predicate WellDrawn(a: Attempt, imgW: nat, imgH: nat)
    ensures WellDrawn(a, imgW, imgH) && a.widthIndex < |WIDTHS| && WIDTHS[a.widthIndex] <= imgW && HeightOf(WIDTHS[a.widthIndex]) <= imgH ==>
      0 <= a.x && a.x + WIDTHS[a.widthIndex] <= imgW &&
      0 <= a.y && a.y + HeightOf(WIDTHS[a.widthIndex]) <= imgH
  {
    a.widthIndex < |WIDTHS| &&
    var w := WIDTHS[a.widthIndex];
    var h := HeightOf(w);
    (w <= imgW ==> 0 <= a.x <= imgW - w) &&
    (w <= imgW && h <= imgH ==> 0 <= a.y <= imgH - h)
  }

  predicate AllWellDrawn(attempts: seq<Attempt>, imgW: nat, imgH: nat)
  {
    forall k :: 0 <= k < |attempts| ==> WellDrawn(attempts[k], imgW, imgH)
  }

  /** The number of points p of `pts` whose pixel `img[x + p.0, y + p.1]` is dark. */
  function DarkCount(img: array2<Pixel>, x: nat, y: nat, pts: seq<(nat, nat)>): (n: nat)
    reads img
    requires forall k :: 0 <= k < |pts| ==> x + pts[k].0 < img.Length0 && y + pts[k].1 < img.Length1
    ensures n <= |pts|
  {
    if pts == [] then 0
    else
      var p := pts[|pts| - 1];
      DarkCount(img, x, y, pts[..|pts| - 1]) + (if IsDark(img[x + p.0, y + p.1]) then 1 else 0)
  }

  /** The indices of the points of `pts` whose pixel is dark. */
  function DarkIndices(img: array2<Pixel>, x: nat, y: nat, pts: seq<(nat, nat)>): set<nat>
    reads img
    requires forall k :: 0 <= k < |pts| ==> x + pts[k].0 < img.Length0 && y + pts[k].1 < img.Length1
  {
    set k: nat | k < |pts| && IsDark(img[x + pts[k].0, y + pts[k].1])
  }

  /** DarkCount is the number of sampled points that are dark. */
  lemma {:induction false} DarkCountIsCardinality(img: array2<Pixel>, x: nat, y: nat, pts: seq<(nat, nat)>)
    requires forall k :: 0 <= k < |pts| ==> x + pts[k].0 < img.Length0 && y + pts[k].1 < img.Length1
    ensures DarkCount(img, x, y, pts) == |DarkIndices(img, x, y, pts)|
  {
    if pts != [] {
      var n := |pts| - 1;
      DarkCountIsCardinality(img, x, y, pts[..n]);
      DarkIndicesOfSnoc(img, x, y, pts);
    }
  }

  /** Appending a point adds its index to the dark indices exactly when its
      pixel is dark. */
  lemma DarkIndicesOfSnoc(img: array2<Pixel>, x: nat, y: nat, pts: seq<(nat, nat)>)
    requires pts != []
    requires forall k :: 0 <= k < |pts| ==> x + pts[k].0 < img.Length0 && y + pts[k].1 < img.Length1
    ensures
      var n := |pts| - 1;
      var before := DarkIndices(img, x, y, pts[..n]);
      n !in before &&
      DarkIndices(img, x, y, pts) ==
        if IsDark(img[x + pts[n].0, y + pts[n].1]) then before + {n} else before
  {
  }

  /** The dark count of the nine sample points of `box`, read from `img`. */
  function DarkAt(img: array2<Pixel>, box: Box): (n: nat)
    reads img
    requires 0 < box.width && 0 < box.height
    requires box.x + box.width <= img.Length0 && box.y + box.height <= img.Length1
  {
    DarkCount(img, box.x, box.y, SamplePoints(box.width, box.height))
  }

  lemma DarkAtAtMostNine(img: array2<Pixel>, box: Box)
    requires 0 < box.width && 0 < box.height
    requires box.x + box.width <= img.Length0 && box.y + box.height <= img.Length1
    ensures DarkAt(img, box) <= 9
  {
  }

  /** The box attempt `a` crops, when its width and height fit the image. */
  function BoxOf(a: Attempt): Box
    requires a.widthIndex < |WIDTHS|
    requires 0 <= a.x && 0 <= a.y
  {
    var w := WIDTHS[a.widthIndex];
    Box(a.x, a.y, w, HeightOf(w))
  }

  /** The draws of `randrange` have a non-empty range: the whitelisted
      width and its height do not exceed the image. An image of at least
      2000 by 1500 pixels fits every whitelisted size. */
  predicate Fits(img: array2<Pixel>, a: Attempt)
    requires a.widthIndex < |WIDTHS|
    ensures 2000 <= img.Length0 && 1500 <= img.Length1 ==> Fits(img, a)
  {
    WIDTHS[a.widthIndex] <= img.Length0 && HeightOf(WIDTHS[a.widthIndex]) <= img.Length1
  }

  /** What the loop does with attempt k on its own: raise, accept, or
      (for None) discard it and go on. */
  function Verdict(img: array2<Pixel>, attempts: seq<Attempt>, k: nat): (r: Option)
    reads img
    requires k < |attempts|
    requires WellDrawn(attempts[k], img.Length0, img.Length1)
    ensures r.None? <==> Discarded(img, attempts[k])
    ensures r.Some? ==> !r.value.Exhausted? && r.value.attempt == k
    ensures (r.Some? && r.value.EmptyRange?) <==> !Fits(img, attempts[k])
    ensures r.Some? && r.value.Accepted? ==>
      r.value.box.width in WIDTHS && r.value.darkPoints <= MAX_DARK_POINTS &&
      r.value.box.x + r.value.box.width <= img.Length0 && r.value.box.y + r.value.box.height <= img.Length1
  {
    var a := attempts[k];
    var w := WIDTHS[a.widthIndex];
    if !Fits(img, a) then Some(EmptyRange(k, w, HeightOf(w)))
    else
      HeightIsExact(w);
      var d := DarkAt(img, BoxOf(a));
      if d <= MAX_DARK_POINTS then Some(Accepted(k, BoxOf(a), d)) else None
  }

  datatype Option = None | Some(value: Outcome)

  /** The selection loop from attempt `from` on, as a recursive function. */
  function Select(img: array2<Pixel>, attempts: seq<Attempt>, from: nat): (r: Outcome)
    reads img
    requires AllWellDrawn(attempts, img.Length0, img.Length1)
    ensures r.Exhausted? || from <= r.attempt < |attempts|
    decreases |attempts| - from
  {
    if from >= |attempts| then Exhausted
    else
      match Verdict(img, attempts, from)
      case Some(outcome) => outcome
      case None => Select(img, attempts, from + 1)
  }

  /** The crop of an accepted outcome lies inside `img` and holds its pixels. */
  predicate HoldsCrop(img: array2<Pixel>, outcome: Outcome, crop: array2<Pixel>)
    reads img, crop
  {
    outcome.Accepted? ==>
      crop.Length0 == outcome.box.width && crop.Length1 == outcome.box.height &&
      outcome.box.x + outcome.box.width <= img.Length0 && outcome.box.y + outcome.box.height <= img.Length1 &&
      forall i, j :: 0 <= i < crop.Length0 && 0 <= j < crop.Length1 ==>
        crop[i, j] == img[outcome.box.x + i, outcome.box.y + j]
  }

  /** The accept loop of `bitsofpluto`. The crop it returns is the accepted
      candidate's pixels (an empty image when nothing was accepted). */
  method SelectCrop(img: array2<Pixel>, attempts: seq<Attempt>) returns (outcome: Outcome, crop: array2<Pixel>)
    requires AllWellDrawn(attempts, img.Length0, img.Length1)
    ensures outcome == Select(img, attempts, 0)
    ensures HoldsCrop(img, outcome, crop)
    ensures fresh(crop)
  {
    var k := 0;
    while k < |attempts|
      invariant 0 <= k <= |attempts|
      invariant Select(img, attempts, 0) == Select(img, attempts, k)
    {
      var verdict;
      verdict, crop := TryAttempt(img, attempts, k);
      if verdict.Some? {
        outcome := verdict.value;
        return;
      }
      k := k + 1;
    }
    outcome := Exhausted;
    crop := new Pixel[0, 0];
  }

  /** One pass of the loop body: draw the size, crop, sample and score.
      The verdict is Some(outcome) when the loop stops at attempt k. */
  method TryAttempt(img: array2<Pixel>, attempts: seq<Attempt>, k: nat) returns (verdict: Option, crop: array2<Pixel>)
    requires k < |attempts|
    requires WellDrawn(attempts[k], img.Length0, img.Length1)
    ensures verdict == Verdict(img, attempts, k)
    ensures verdict.Some? ==> HoldsCrop(img, verdict.value, crop)
    ensures fresh(crop)
  {
    var a := attempts[k];
    var width := WIDTHS[a.widthIndex];
    var height := HeightOf(width);
    if width > img.Length0 || height > img.Length1 {
      // `randrange` is given an empty range and raises
      verdict := Some(EmptyRange(k, width, height));
      crop := new Pixel[0, 0];
      return;
    }
    HeightIsExact(width);
    crop := Crop(img, a.x, a.y, width, height);
    var points := SamplePoints(width, height);
    var darkPoints := CountDarkPoints(crop, points);
    DarkCountOfCrop(img, crop, a.x, a.y, points);
    if darkPoints <= MAX_DARK_POINTS {
      verdict := Some(Accepted(k, Box(a.x, a.y, width, height), darkPoints));
    } else {
      verdict := None;
    }
  }

  /** The inner `for point in points` loop: counts the dark points of `crop`. */
  method CountDarkPoints(crop: array2<Pixel>, points: seq<(nat, nat)>) returns (darkPoints: nat)
    requires forall k :: 0 <= k < |points| ==> points[k].0 < crop.Length0 && points[k].1 < crop.Length1
    ensures darkPoints == DarkCount(crop, 0, 0, points)
    ensures darkPoints == |DarkIndices(crop, 0, 0, points)|
  {
    darkPoints := 0;
    for k := 0 to |points|
      invariant darkPoints == DarkCount(crop, 0, 0, points[..k])
    {
      var (px, py) := points[k];
      var brightness := ChannelSum(crop[px, py]) as real / 3.0;
      if brightness < 10.0 {
        darkPoints := darkPoints + 1;
      }
      assert points[..k + 1][..k] == points[..k];
    }
    assert points[..|points|] == points;
    DarkCountIsCardinality(crop, 0, 0, points);
  }

  /** Counting on the crop gives the same number as counting on the source
      image at the crop's offset. */
  lemma {:induction false} DarkCountOfCrop(img: array2<Pixel>, crop: array2<Pixel>, x: nat, y: nat, pts: seq<(nat, nat)>)
    requires x + crop.Length0 <= img.Length0 && y + crop.Length1 <= img.Length1
    requires forall i, j :: 0 <= i < crop.Length0 && 0 <= j < crop.Length1 ==> crop[i, j] == img[x + i, y + j]
    requires forall k :: 0 <= k < |pts| ==> pts[k].0 < crop.Length0 && pts[k].1 < crop.Length1
    ensures DarkCount(crop, 0, 0, pts) == DarkCount(img, x, y, pts)
  {
    if pts != [] {
      DarkCountOfCrop(img, crop, x, y, pts[..|pts| - 1]);
    }
  }

  /** Attempt `a` was cropped, scored and thrown away: its box fits the
      image and more than MAX_DARK_POINTS of its sample points are dark. */
  predicate Discarded(img: array2<Pixel>, a: Attempt)
    reads img
    requires WellDrawn(a, img.Length0, img.Length1)
  {
    Fits(img, a) &&
    (HeightIsExact(WIDTHS[a.widthIndex]);
     DarkAt(img, BoxOf(a)) > MAX_DARK_POINTS)
  }

  /** The loop stops at the first attempt it does not discard, and that
      attempt alone decides the outcome. */
  lemma {:induction false} SelectIsFirstDecisive(img: array2<Pixel>, attempts: seq<Attempt>, from: nat, k: nat)
    requires AllWellDrawn(attempts, img.Length0, img.Length1)
    requires from <= k < |attempts|
    requires forall j :: from <= j < k ==> Discarded(img, attempts[j])
    requires !Discarded(img, attempts[k])
    ensures Select(img, attempts, from) == Verdict(img, attempts, k).value
    decreases k - from
  {
    if from < k {
      assert Discarded(img, attempts[from]);
      SelectIsFirstDecisive(img, attempts, from + 1, k);
    }
  }

  /** Running out of attempts happens exactly when every attempt was
      cropped and discarded. */
  lemma SelectExhaustedIff(img: array2<Pixel>, attempts: seq<Attempt>, from: nat)
    requires AllWellDrawn(attempts, img.Length0, img.Length1)
    ensures Select(img, attempts, from) == Exhausted <==>
      forall j :: from <= j < |attempts| ==> Discarded(img, attempts[j])
  {
    if Select(img, attempts, from) == Exhausted {
      forall j | from <= j < |attempts|
        ensures Discarded(img, attempts[j])
      {
        ExhaustedDiscards(img, attempts, from, j);
      }
    }
    if forall j :: from <= j < |attempts| ==> Discarded(img, attempts[j]) {
      AllDiscardedExhausts(img, attempts, from);
    }
  }

  /** When the loop runs out of attempts, each attempt was discarded. */
  lemma {:induction false} ExhaustedDiscards(img: array2<Pixel>, attempts: seq<Attempt>, from: nat, j: nat)
    requires AllWellDrawn(attempts, img.Length0, img.Length1)
    requires from <= j < |attempts|
    requires Select(img, attempts, from) == Exhausted
    ensures Discarded(img, attempts[j])
    decreases j - from
  {
    ExhaustedStep(img, attempts, from);
    if from < j {
      ExhaustedDiscards(img, attempts, from + 1, j);
    }
  }

  /** A loop that runs out of attempts discarded its first one and ran out
      of the rest. */
  lemma ExhaustedStep(img: array2<Pixel>, attempts: seq<Attempt>, from: nat)
    requires AllWellDrawn(attempts, img.Length0, img.Length1)
    requires from < |attempts|
    requires Select(img, attempts, from) == Exhausted
    ensures Discarded(img, attempts[from])
    ensures Select(img, attempts, from + 1) == Exhausted
  {
    assert Verdict(img, attempts, from).None?;
  }

  /** When every attempt is discarded, the loop runs out of attempts. */
  lemma {:induction false} AllDiscardedExhausts(img: array2<Pixel>, attempts: seq<Attempt>, from: nat)
    requires AllWellDrawn(attempts, img.Length0, img.Length1)
    requires forall j :: from <= j < |attempts| ==> Discarded(img, attempts[j])
    ensures Select(img, attempts, from) == Exhausted
    decreases |attempts| - from
  {
    if from < |attempts| {
      assert Discarded(img, attempts[from]);
      AllDiscardedExhausts(img, attempts, from + 1);
    }
  }

  /** Whatever the loop returns other than Exhausted is the verdict on one
      attempt k, and every attempt before k was cropped and discarded. */
  lemma {:induction false} SelectComesFromFirstDecisive(img: array2<Pixel>, attempts: seq<Attempt>, from: nat)
    requires AllWellDrawn(attempts, img.Length0, img.Length1)
    ensures
      var r := Select(img, attempts, from);
      !r.Exhausted? ==>
        from <= r.attempt < |attempts| &&
        Verdict(img, attempts, r.attempt) == Some(r) &&
        forall j :: from <= j < r.attempt ==> Discarded(img, attempts[j])
    decreases |attempts| - from
  {
    if from < |attempts| && Verdict(img, attempts, from) == None {
      SelectComesFromFirstDecisive(img, attempts, from + 1);
    }
  }

  /** An accepted crop: it comes from attempt k, its width is a whitelisted
      width and its height is the 4:3 height, it lies inside the source
      image, at most MAX_DARK_POINTS of its nine sample points are dark, and
      every earlier attempt was cropped and discarded. */
  lemma AcceptedIsFirstGoodCrop(img: array2<Pixel>, attempts: seq<Attempt>, from: nat)
    requires AllWellDrawn(attempts, img.Length0, img.Length1)
    ensures
      var r := Select(img, attempts, from);
      r.Accepted? ==>
        var k, box := r.attempt, r.box;
        from <= k < |attempts| &&
        box.width in WIDTHS && box.width == WIDTHS[attempts[k].widthIndex] &&
        box.height == HeightOf(box.width) && box.height as real == box.width as real * 3.0 / 4.0 &&
        box.x == attempts[k].x && box.y == attempts[k].y &&
        box.x + box.width <= img.Length0 && box.y + box.height <= img.Length1 &&
        r.darkPoints == DarkAt(img, box) &&
        r.darkPoints == |DarkIndices(img, box.x, box.y, SamplePoints(box.width, box.height))| &&
        r.darkPoints <= MAX_DARK_POINTS &&
        forall j :: from <= j < k ==> Discarded(img, attempts[j])
  {
    var r := Select(img, attempts, from);
    SelectComesFromFirstDecisive(img, attempts, from);
    if r.Accepted? {
      var box := r.box;
      HeightIsExact(box.width);
      DarkCountIsCardinality(img, box.x, box.y, SamplePoints(box.width, box.height));
    }
  }

  /** The loop raises only for an attempt whose whitelisted width or 4:3
      height exceeds the image, after discarding every earlier attempt. */
  lemma EmptyRangeIsOversizedCrop(img: array2<Pixel>, attempts: seq<Attempt>, from: nat)
    requires AllWellDrawn(attempts, img.Length0, img.Length1)
    ensures
      var r := Select(img, attempts, from);
      r.EmptyRange? ==>
        var k := r.attempt;
        from <= k < |attempts| &&
        r.width in WIDTHS && r.width == WIDTHS[attempts[k].widthIndex] &&
        r.height == HeightOf(r.width) &&
        (r.width > img.Length0 || r.height > img.Length1) &&
        forall j :: from <= j < k ==> Discarded(img, attempts[j])
  {
    SelectComesFromFirstDecisive(img, attempts, from);
  }

  /** An image at least 2000 by 1500 pixels fits every whitelisted size, so
      the loop never raises on it. */
  lemma {:induction false} LargeImageNeverRaises(img: array2<Pixel>, attempts: seq<Attempt>, from: nat)
    requires AllWellDrawn(attempts, img.Length0, img.Length1)
    requires 2000 <= img.Length0 && 1500 <= img.Length1
    ensures !Select(img, attempts, from).EmptyRange?
    decreases |attempts| - from
  {
    if from < |attempts| {
      LargeImageNeverRaises(img, attempts, from + 1);
    }
  }
}
