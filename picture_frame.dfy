/** The resize-and-crop geometry of the photo frame: for a source picture and
    the display's size, the size the picture is resized to and, for narrow
    pictures on small displays, the box it is then cropped to. */
module PictureFrame {
  import opened PyInt

  datatype Option<T> = None | Some(value: T)

  /** A crop rectangle (left, top, right, bottom) in the pixel coordinates of
      the resized picture; rows top .. bottom-1 are kept. */
  datatype Box = Box(left: int, top: int, right: int, bottom: int)

  /** What the frame does with one picture: resize it to width x height, then
      crop it to the box when there is one. */
  datatype ResizePlan = ResizePlan(width: int, height: int, crop: Option<Box>)

  /** The manipulation settings, with every ratio an exact fraction:
      narrow pictures have aspect below narrowNum/narrowDen, the blow-up
      factor is blowupNum/blowupDen, and the overflow of a blow-up is taken
      topNum/shareDen from the top and the rest, (shareDen-topNum)/shareDen,
      from the bottom, so the two shares always add up to one. */
  datatype Policy = Policy(
    smallScreen: int,
    narrowNum: int, narrowDen: int,
    blowupNum: int, blowupDen: int,
    topNum: int, shareDen: int)
  {
    /** Every fraction has a positive denominator. */
    predicate WellFormed() {
      narrowDen > 0 && blowupDen > 0 && shareDen > 0
    }

    /** A blow-up factor of at least one, and the top share between zero and
        the bottom share. */
    predicate Valid() {
      WellFormed() && blowupNum >= blowupDen && 0 <= topNum <= shareDen - topNum
    }

    /** The bottom share's numerator: one minus the top share. */
    function BottomNum(): int {
      shareDen - topNum
    }

    /** The common denominator of the two crop amounts. */
    function CropDen(): int
      requires WellFormed()
    {
      blowupDen * shareDen
    }

    /** displayheight*(blowupfactor - 1)*topshare, over CropDen(). */
    function TopCut(dh: int): int {
      dh * (blowupNum - blowupDen) * topNum
    }

    /** displayheight*(blowupfactor - 1)*bottomshare, over CropDen(). */
    function BottomCut(dh: int): int {
      dh * (blowupNum - blowupDen) * BottomNum()
    }
  }

  /** The settings the frame ships with: small screens are narrower than 801
      pixels, narrow pictures have aspect below .76, the blow-up factor is 1.1
      and the top share is .3. */
  const SourcePolicy := Policy(801, 76, 100, 11, 10, 3, 10)

  /** Picture and display dimensions are all positive. */
  predicate Positive(w: int, h: int, dw: int, dh: int) {
    w > 0 && h > 0 && dw > 0 && dh > 0
  }

  /** The picture's aspect w/h is strictly wider than the display's dw/dh. */
  predicate Wider(w: int, h: int, dw: int, dh: int) {
    w * dh > dw * h
  }

  /** The picture's aspect is strictly below the narrow threshold and the
      display is strictly narrower than a small screen. */
  predicate Narrow(p: Policy, w: int, h: int, dw: int) {
    w * p.narrowDen < p.narrowNum * h && dw < p.smallScreen
  }

  /** The shipped settings are a valid policy, and their fractions are the
      constants of the source: narrowmax .76, blowupfactor 1.1, topshare .3
      and bottomshare 1 - .3 = .7. */
  lemma SourcePolicyIsValid()
    ensures SourcePolicy.Valid() && SourcePolicy.smallScreen == 801
    ensures SourcePolicy.narrowNum as real / SourcePolicy.narrowDen as real == 0.76
    ensures SourcePolicy.blowupNum as real / SourcePolicy.blowupDen as real == 1.1
    ensures SourcePolicy.topNum as real / SourcePolicy.shareDen as real == 0.3
    ensures SourcePolicy.BottomNum() as real / SourcePolicy.shareDen as real == 1.0 - 0.3
  {
  }

  /** The cross-multiplied test is the source's comparison of the picture's
      aspect with the display's, computed on exact reals. */
  lemma WiderIsAspectComparison(w: int, h: int, dw: int, dh: int)
    requires Positive(w, h, dw, dh)
    ensures Wider(w, h, dw, dh) <==> w as real / h as real > dw as real / dh as real
  {
    var a, b := w as real / h as real, dw as real / dh as real;
    assert a * (h as real) == w as real;
    assert b * (dh as real) == dw as real;
    assert a - b == ((w * dh - dw * h) as real) / ((h * dh) as real);
  }

  /** The cross-multiplied test is the source's comparison of the picture's
      aspect with narrowmax, computed on exact reals, together with the
      small-screen test. */
  lemma NarrowIsAspectComparison(p: Policy, w: int, h: int, dw: int)
    requires p.WellFormed() && h > 0
    ensures Narrow(p, w, h, dw)
        <==> w as real / h as real < p.narrowNum as real / p.narrowDen as real && dw < p.smallScreen
  {
    var a, b := w as real / h as real, p.narrowNum as real / p.narrowDen as real;
    assert a * (h as real) == w as real;
    assert b * (p.narrowDen as real) == p.narrowNum as real;
    assert b - a == ((p.narrowNum * h - w * p.narrowDen) as real) / ((h * p.narrowDen) as real);
  }

  // ---------------------------------------------------------------------
  // The three outcomes

  /** A picture wider than the display takes the display's full width; its
      height is the proportional height rounded down, which is below the
      display's height, and nothing is cropped. */
  function FitWidth(w: int, h: int, dw: int, dh: int): (r: ResizePlan)
    requires Positive(w, h, dw, dh) && Wider(w, h, dw, dh)
    ensures r.width == dw && r.crop == None
    ensures r.height * w <= h * dw < r.height * w + w
    ensures 0 <= r.height < dh
  {
    var heightn := Trunc(h * dw, w);
    CancelLt(heightn, dh, w);
    ResizePlan(dw, heightn, None)
  }

  /** A picture no wider than the display takes the display's full height;
      its width is the proportional width rounded down, which is at most the
      display's width, and nothing is cropped. */
  function FitHeight(w: int, h: int, dw: int, dh: int): (r: ResizePlan)
    requires Positive(w, h, dw, dh) && !Wider(w, h, dw, dh)
    ensures r.height == dh && r.crop == None
    ensures r.width * h <= w * dh < r.width * h + h
    ensures 0 <= r.width <= dw
  {
    var widthn := Trunc(w * dh, h);
    CancelLe(widthn, dw, h);
    ResizePlan(widthn, dh, None)
  }

  /** The narrow-picture exception. The picture is blown up to the display's
      height times the blow-up factor, rounded down, and its width follows
      its aspect. The crop box spans the whole width and lies inside the
      blown-up picture. The top edge drops the top share of the overflow
      rounded down; the bottom edge is truncated as a whole, so it drops the
      bottom share rounded UP. Less is cut from the top than from the
      bottom, and the cropped picture keeps the display's height or one row
      less: exactly the display's height when the bottom share of the
      overflow is a whole number of rows. */
  function BlowUpAndCrop(p: Policy, w: int, h: int, dh: int): (r: ResizePlan)
    requires p.Valid() && w > 0 && h > 0 && dh > 0
    ensures r.height * p.blowupDen <= dh * p.blowupNum < r.height * p.blowupDen + p.blowupDen
    ensures r.height >= dh
    ensures 0 <= r.width && r.width * h <= w * r.height < r.width * h + h
    ensures r.crop.Some? && r.crop.value.left == 0 && r.crop.value.right == r.width
    ensures 0 <= r.crop.value.top <= r.crop.value.bottom <= r.height
    ensures r.crop.value.top * p.CropDen() <= p.TopCut(dh) < r.crop.value.top * p.CropDen() + p.CropDen()
    ensures var cut := r.height - r.crop.value.bottom;
      (cut - 1) * p.CropDen() < p.BottomCut(dh) <= cut * p.CropDen()
    ensures r.crop.value.top <= r.height - r.crop.value.bottom
    ensures dh - 1 <= r.crop.value.bottom - r.crop.value.top <= dh
    ensures p.BottomCut(dh) % p.CropDen() == 0 ==> r.crop.value.bottom - r.crop.value.top == dh
  {
    var d, topCut, bottomCut := p.CropDen(), p.TopCut(dh), p.BottomCut(dh);
    var heightn := Trunc(dh * p.blowupNum, p.blowupDen);
    var widthn := Trunc(w * heightn, h);
    AtLeastDisplayHeight(dh, p.blowupNum, p.blowupDen, heightn);
    CropSetup(p, dh, heightn);
    MulLe(0, dh - 1, d);
    var top := Trunc(topCut, d);
    var bottom := Trunc(heightn * d - bottomCut, d);
    EdgesBottomRoundsUp(d, dh, topCut, bottomCut, heightn, top, bottom);
    EdgesInside(d, dh, topCut, bottomCut, heightn, top, bottom);
    EdgesKept(d, dh, topCut, bottomCut, heightn, top, bottom);
    EdgesKeptExactly(d, dh, topCut, bottomCut, heightn, top, bottom);
    ResizePlan(widthn, heightn, Some(Box(0, top, widthn, bottom)))
  }

  /** The size of the picture that is finally saved: the crop box's size when
      there is one, the resized size otherwise. */
  function SavedSize(r: ResizePlan): (int, int) {
    match r.crop
    case None => (r.width, r.height)
    case Some(b) => (b.right - b.left, b.bottom - b.top)
  }

  /** The plan for a w x h picture on a dw x dh display. A crop happens
      exactly when the picture is not wider than the display, its aspect is
      strictly below the narrow threshold and the display is strictly
      narrower than a small screen. The resized dimensions are never
      negative. The saved picture is never taller than the display, never
      wider unless it was cropped, and fills the display in one direction:
      the full width, the full height, or after a crop the height less at
      most one row. */
  function Plan(p: Policy, w: int, h: int, dw: int, dh: int): (r: ResizePlan)
    requires p.Valid() && Positive(w, h, dw, dh)
    ensures r.crop.Some? <==> !Wider(w, h, dw, dh) && Narrow(p, w, h, dw)
    ensures 0 <= r.width && 0 <= r.height
    ensures 0 <= SavedSize(r).0 && 0 <= SavedSize(r).1 <= dh
    ensures r.crop.None? ==> SavedSize(r).0 <= dw
    ensures SavedSize(r).0 == dw || SavedSize(r).1 == dh || (r.crop.Some? && SavedSize(r).1 == dh - 1)
  {
    if Wider(w, h, dw, dh) then
      FitWidth(w, h, dw, dh)
    else if Narrow(p, w, h, dw) then
      BlowUpAndCrop(p, w, h, dh)
    else
      FitHeight(w, h, dw, dh)
  }

  // ---------------------------------------------------------------------
  // Boundaries and consequences

  /** Cropping to (0, top, width, bottom) keeps the resized picture's whole
      width and the rows from top to bottom; without a crop the saved picture
      is the resized one. */
  lemma SavedSizeOfPlan(p: Policy, w: int, h: int, dw: int, dh: int)
    requires p.Valid() && Positive(w, h, dw, dh)
    ensures var r := Plan(p, w, h, dw, dh);
      && (r.crop.Some? ==> SavedSize(r) == (r.width, r.crop.value.bottom - r.crop.value.top))
      && (r.crop.None? ==> SavedSize(r) == (r.width, r.height))
  {
  }

  /** A picture with exactly the display's aspect is not width-constrained,
      since the test is strict: outside the narrow exception it is resized to
      exactly the display's size. */
  lemma AspectTie(p: Policy, w: int, h: int, dw: int, dh: int)
    requires p.Valid() && Positive(w, h, dw, dh)
    requires w * dh == dw * h && !Narrow(p, w, h, dw)
    ensures Plan(p, w, h, dw, dh) == ResizePlan(dw, dh, None)
  {
    FloorUnique(dw, w * dh, h);
  }

  /** Under the shipped settings: a crop happens exactly when the picture is
      not wider than the display, 100*w < 76*h, and the display is at most 800
      pixels wide; an aspect of exactly .76 or a display exactly 801 wide gets
      no crop. */
  lemma SourceCropIff(w: int, h: int, dw: int, dh: int)
    requires Positive(w, h, dw, dh)
    ensures Plan(SourcePolicy, w, h, dw, dh).crop.Some?
        <==> w * dh <= dw * h && 100 * w < 76 * h && dw <= 800
    ensures 100 * w == 76 * h ==> Plan(SourcePolicy, w, h, dw, dh).crop.None?
    ensures dw == 801 ==> Plan(SourcePolicy, w, h, dw, dh).crop.None?
  {
  }

  /** Under the shipped settings a display whose height is a multiple of 100
      keeps exactly its height after the crop. */
  lemma SourceCroppedHeight(w: int, h: int, dw: int, dh: int)
    requires Positive(w, h, dw, dh) && dh % 100 == 0
    ensures Plan(SourcePolicy, w, h, dw, dh).crop.Some? ==> SavedSize(Plan(SourcePolicy, w, h, dw, dh)).1 == dh
  {
    var k := dh / 100;
    assert SourcePolicy.CropDen() == 100;
    assert SourcePolicy.BottomCut(dh) == (7 * k) * 100;
    assert SourcePolicy.BottomCut(dh) % SourcePolicy.CropDen() == 0;
    if !Wider(w, h, dw, dh) && Narrow(SourcePolicy, w, h, dw) {
      assert Plan(SourcePolicy, w, h, dw, dh) == BlowUpAndCrop(SourcePolicy, w, h, dh);
    }
  }

  /** Nothing keeps the resized dimensions positive: under the shipped
      settings some pictures get width 0 (a 1x10000 picture on a 1920x1080
      display) and some get height 0 (10000x1 on the same display). */
  lemma SomeOutputIsZero()
    ensures exists w, h, dw, dh :: Positive(w, h, dw, dh) && Plan(SourcePolicy, w, h, dw, dh).width == 0
    ensures exists w, h, dw, dh :: Positive(w, h, dw, dh) && Plan(SourcePolicy, w, h, dw, dh).height == 0
  {
    assert Plan(SourcePolicy, 1, 10000, 1920, 1080).width == 0;
    assert Plan(SourcePolicy, 10000, 1, 1920, 1080).height == 0;
  }

  /** The crop can leave the saved picture one row short of the display:
      under the shipped settings a 600x1600 picture on a 480x768 display is
      blown up to 316x844 and cropped to rows 23 .. 789. */
  lemma SomeCropIsOneRowShort()
    ensures exists w, h, dw, dh :: Positive(w, h, dw, dh) && SavedSize(Plan(SourcePolicy, w, h, dw, dh)).1 == dh - 1
  {
    assert Plan(SourcePolicy, 600, 1600, 480, 768) == ResizePlan(316, 844, Some(Box(0, 23, 316, 790)));
  }

  // ---------------------------------------------------------------------
  // Worked cases under the shipped settings

  /** A 4000x2000 picture on a 1920x1080 display becomes 1920x960. */
  lemma WideExample()
    ensures Plan(SourcePolicy, 4000, 2000, 1920, 1080) == ResizePlan(1920, 960, None)
  {
  }

  /** A 1200x1600 picture on a 1920x1080 display becomes 810x1080: the
      display is not small, so there is no crop. */
  lemma TallExample()
    ensures Plan(SourcePolicy, 1200, 1600, 1920, 1080) == ResizePlan(810, 1080, None)
  {
  }

  /** A 600x1600 picture on a 480x800 display is blown up to 330x880 and
      cropped to rows 24 .. 823, 800 rows. */
  lemma NarrowExample()
    ensures Plan(SourcePolicy, 600, 1600, 480, 800)
         == ResizePlan(330, 880, Some(Box(0, 24, 330, 824)))
  {
  }

  // ---------------------------------------------------------------------
  // Arithmetic behind the crop box

  /** A height blown up by a factor of at least one, rounded down, is at
      least the height it started from. */
  lemma AtLeastDisplayHeight(dh: int, num: int, den: int, hn: int)
    requires dh > 0 && den > 0 && num >= den
    requires hn * den <= dh * num < hn * den + den
    ensures hn >= dh
  {
    MulLe(den, num, dh);
    assert dh * den < (hn + 1) * den;
    CancelLt(dh, hn + 1, den);
  }

  /** The facts the crop proofs share, in terms of the common denominator
      d = CropDen(): the blown-up height hn satisfies
      hn*d <= dh*d + topCut + bottomCut < hn*d + d, i.e. it is the floor of
      the display height plus the whole overflow. */
  lemma CropSetup(p: Policy, dh: int, hn: int)
    requires p.Valid() && dh > 0
    requires hn == Trunc(dh * p.blowupNum, p.blowupDen)
    ensures p.CropDen() > 0 && p.TopCut(dh) >= 0 && p.BottomCut(dh) >= p.TopCut(dh)
    ensures hn * p.CropDen() <= dh * p.CropDen() + p.TopCut(dh) + p.BottomCut(dh)
    ensures dh * p.CropDen() + p.TopCut(dh) + p.BottomCut(dh) < hn * p.CropDen() + p.CropDen()
    ensures hn * p.CropDen() - p.BottomCut(dh) > (dh - 1) * p.CropDen() + p.TopCut(dh)
  {
    var bd, sd := p.blowupDen, p.shareDen;
    var d := p.CropDen();
    var over := dh * (p.blowupNum - bd);
    assert over >= 0;
    assert p.TopCut(dh) == over * p.topNum;
    assert p.BottomCut(dh) == over * p.BottomNum();
    MulLe(0, p.topNum, over);
    MulLe(p.topNum, p.BottomNum(), over);
    assert d > 0;
    assert dh * p.blowupNum * sd == dh * d + p.TopCut(dh) + p.BottomCut(dh);
    MulLe(hn * bd, dh * p.blowupNum, sd);
    MulLe(dh * p.blowupNum, hn * bd + bd - 1, sd);
    assert hn * d == hn * bd * sd;
    assert (hn * bd + bd - 1) * sd == hn * d + d - sd;
  }

  /** The crop box's edges in terms of the common denominator d: top is
      topCut/d rounded down, bottom is hn - bottomCut/d rounded down, and hn
      is the display height plus the whole overflow, rounded down. */
  predicate CropEdges(d: int, dh: int, topCut: int, bottomCut: int, hn: int, top: int, bottom: int) {
    && d > 0 && 0 <= topCut <= bottomCut
    && hn * d <= dh * d + topCut + bottomCut < hn * d + d
    && top * d <= topCut < top * d + d
    && bottom * d <= hn * d - bottomCut < bottom * d + d
  }

  /** Rows cut from the bottom are bottomCut/d rounded up. */
  lemma EdgesBottomRoundsUp(d: int, dh: int, topCut: int, bottomCut: int, hn: int, top: int, bottom: int)
    requires CropEdges(d, dh, topCut, bottomCut, hn, top, bottom)
    ensures (hn - bottom - 1) * d < bottomCut <= (hn - bottom) * d
  {
    assert (hn - bottom) * d == hn * d - bottom * d;
  }

  /** The box lies inside the blown-up picture and less is cut from its top
      than from its bottom. */
  lemma EdgesInside(d: int, dh: int, topCut: int, bottomCut: int, hn: int, top: int, bottom: int)
    requires dh > 0 && CropEdges(d, dh, topCut, bottomCut, hn, top, bottom)
    ensures 0 <= top <= hn - bottom && top <= bottom <= hn
  {
    EdgesBottomRoundsUp(d, dh, topCut, bottomCut, hn, top, bottom);
    EdgesKept(d, dh, topCut, bottomCut, hn, top, bottom);
    assert (-1) * d < top * d;
    CancelLt(-1, top, d);
    assert top * d <= (hn - bottom) * d;
    CancelLe(top, hn - bottom, d);
  }

  /** The box keeps dh or dh - 1 rows. */
  lemma EdgesKept(d: int, dh: int, topCut: int, bottomCut: int, hn: int, top: int, bottom: int)
    requires CropEdges(d, dh, topCut, bottomCut, hn, top, bottom)
    ensures dh - 1 <= bottom - top <= dh
  {
    var kept := bottom - top;
    assert kept * d == bottom * d - top * d;
    assert (dh - 2) * d == dh * d - 2 * d;
    assert (dh + 1) * d == dh * d + d;
    CancelLt(dh - 2, kept, d);
    CancelLt(kept, dh + 1, d);
  }

  /** The box keeps exactly dh rows when bottomCut is a multiple of d. */
  lemma EdgesKeptExactly(d: int, dh: int, topCut: int, bottomCut: int, hn: int, top: int, bottom: int)
    requires CropEdges(d, dh, topCut, bottomCut, hn, top, bottom)
    ensures bottomCut % d == 0 ==> bottom - top == dh
  {
    if bottomCut % d != 0 {
      return;
    }
    var k := bottomCut / d;
    assert bottomCut == k * d;
    assert hn * d - bottomCut == (hn - k) * d;
    CancelLe(bottom, hn - k, d);
    CancelLt(hn - k, bottom + 1, d);
    var kept := bottom - top;
    assert kept * d == hn * d - bottomCut - top * d;
    assert (dh - 1) * d == dh * d - d;
    CancelLt(dh - 1, kept, d);
    EdgesKept(d, dh, topCut, bottomCut, hn, top, bottom);
  }
}
