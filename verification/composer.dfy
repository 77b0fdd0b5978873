/**
 * The composers of sortimages.py: how `set_xy` inside `make_image` turns an icon's average
 * HSV colour into a grid-snapped paste offset under the chosen `sort_type`, and how
 * `make_image_flat` lays the icons side by side on a strip.
 */
module Composer {
  import opened Wrappers
  import CM = CoordinateMapper
  import CS = ColorSampler

  /** The three `sort_type` tags that `set_xy` recognises. */
  datatype SortType = HueSaturation | SaturationValue | HueValue

  function Tag(t: SortType): string
  {
    match t
    case HueSaturation => "hs"
    case SaturationValue => "sv"
    case HueValue => "hv"
  }

  /** Reads a `sort_type` tag; any other string matches none of the branches of `set_xy`. */
  function ParseSortType(tag: string): Option<SortType>
  {
    if tag == "hs" then Some(HueSaturation)
    else if tag == "sv" then Some(SaturationValue)
    else if tag == "hv" then Some(HueValue)
    else None
  }

  /** Parsing inverts `Tag`, and only the three tags parse. */
  lemma ParseSortTypeInvertsTag(tag: string, t: SortType)
    ensures ParseSortType(Tag(t)) == Some(t)
    ensures ParseSortType(tag) == Some(t) <==> tag == Tag(t)
    ensures ParseSortType(tag) == None <==> tag != "hs" && tag != "sv" && tag != "hv"
  {
  }

  /** The offset function `set_xy` applies. */
  datatype Mapper = Radial | Linear

  /** Which mapper `set_xy` uses and which two HSV channels (by index) it passes to it. */
  function Dispatch(t: SortType): (Mapper, nat, nat)
  {
    match t
    case HueSaturation => (Radial, 0, 1)
    case SaturationValue => (Linear, 1, 2)
    case HueValue => (Linear, 0, 2)
  }

  /**
   * Only the hue-saturation tag uses the radial mapper, each sort type reads two distinct
   * channels of the three, and the channel it leaves out has no say in the offset.
   */
  lemma DispatchReadsTwoChannels(tag: string, imageSize: int, step: int, hsv: seq<nat>, hsv': seq<nat>, radial: RadialOffset)
    requires |hsv| >= 3 && |hsv'| >= 3 && step != 0 && ParseSortType(tag).Some?
    requires var (_, i, j) := Dispatch(ParseSortType(tag).value); hsv[i] == hsv'[i] && hsv[j] == hsv'[j]
    ensures var (m, i, j) := Dispatch(ParseSortType(tag).value);
      (m == Radial <==> tag == "hs") && i < j <= 2
    ensures SetXy(tag, imageSize, step, hsv, radial) == SetXy(tag, imageSize, step, hsv', radial)
  {
  }

  /** The background `make_image` draws before pasting, in the colour (50, 50, 50). */
  datatype Background = Ellipse | Rectangle

  /**
   * The inscribed ellipse is drawn for the hue-saturation wheel only; every other tag,
   * unknown ones included, gets the full rectangle.
   */
  function BackgroundFor(tag: string): (b: Background)
    ensures b == Ellipse <==> ParseSortType(tag) == Some(HueSaturation)
  {
    if tag == "hs" then Ellipse else Rectangle
  }

  /** `radial_offset`, whose trigonometry is not modelled, is given as a parameter. */
  type RadialOffset = (int, (int, int)) -> (real, real)

  /**
   * `set_xy`: the raw offset of the dispatched mapper with the default padding, snapped
   * to the step grid on each axis; no offset for an unknown tag (the function falls
   * through and yields None). The step divides only under a known tag.
   */
  function SetXy(tag: string, imageSize: int, step: int, hsv: seq<nat>, radial: RadialOffset): Option<(int, int)>
    requires |hsv| >= 3 && (ParseSortType(tag).Some? ==> step != 0)
  {
    match ParseSortType(tag)
    case None => None
    case Some(t) =>
      var (mapper, i, j) := Dispatch(t);
      var raw := if mapper == Radial then radial(imageSize, (hsv[i], hsv[j]))
                 else CM.NormalOffset(imageSize, (hsv[i], hsv[j]), CM.DefaultPadding);
      Some((CM.Snap(raw.0, step), CM.Snap(raw.1, step)))
  }

  /** Whatever the tag and the mapper, an offset lies on the step grid on both axes. */
  lemma SetXyOnGrid(tag: string, imageSize: int, step: int, hsv: seq<nat>, radial: RadialOffset)
    requires |hsv| >= 3 && (ParseSortType(tag).Some? ==> step != 0)
    ensures SetXy(tag, imageSize, step, hsv, radial).Some? <==> ParseSortType(tag).Some?
    ensures SetXy(tag, imageSize, step, hsv, radial).Some? ==>
      step != 0
      && SetXy(tag, imageSize, step, hsv, radial).value.0 % CM.AbsInt(step) == 0
      && SetXy(tag, imageSize, step, hsv, radial).value.1 % CM.AbsInt(step) == 0
  {
    match ParseSortType(tag)
    case None =>
    case Some(t) =>
      var (mapper, i, j) := Dispatch(t);
      var raw := if mapper == Radial then radial(imageSize, (hsv[i], hsv[j]))
                 else CM.NormalOffset(imageSize, (hsv[i], hsv[j]), CM.DefaultPadding);
      CM.SnapIsMultiple(raw.0, step);
      CM.SnapIsMultiple(raw.1, step);
  }

  /**
   * Under the two linear sort types, channels in [0, 255] are placed within half a step of
   * [16, imageSize - 32] on each axis, on the grid point nearest to the linear offset.
   */
  lemma SetXyLinearBounds(tag: string, imageSize: int, step: int, hsv: seq<nat>, radial: RadialOffset)
    requires step != 0 && |hsv| >= 3 && forall c :: 0 <= c < |hsv| ==> hsv[c] <= 255
    requires tag == "sv" || tag == "hv"
    requires imageSize >= 3 * CM.DefaultPadding
    ensures SetXy(tag, imageSize, step, hsv, radial).Some?
    ensures var (x, y) := SetXy(tag, imageSize, step, hsv, radial).value;
      var half := CM.AbsInt(step) as real / 2.0;
      16.0 - half <= x as real <= (imageSize - 32) as real + half
      && 16.0 - half <= y as real <= (imageSize - 32) as real + half
  {
    var t := ParseSortType(tag).value;
    var (_, i, j) := Dispatch(t);
    var raw := CM.NormalOffset(imageSize, (hsv[i], hsv[j]), CM.DefaultPadding);
    CM.NormalOffsetInRange(imageSize, CM.DefaultPadding, hsv[i], hsv[j]);
    CM.SnapWithinHalfStep(raw.0, step);
    CM.SnapWithinHalfStep(raw.1, step);
  }

  /**
   * With the default step of 1, an icon placed under a linear sort type lies wholly inside
   * the canvas: its 16x16 box starts at 16 or more and ends 16 or more before the edge.
   */
  lemma SetXyLinearFitsCanvas(tag: string, imageSize: int, hsv: seq<nat>, radial: RadialOffset)
    requires |hsv| >= 3 && forall c :: 0 <= c < |hsv| ==> hsv[c] <= 255
    requires tag == "sv" || tag == "hv"
    requires imageSize >= 3 * CM.DefaultPadding
    ensures SetXy(tag, imageSize, 1, hsv, radial).Some?
    ensures var (x, y) := SetXy(tag, imageSize, 1, hsv, radial).value;
      16 <= x && x + CS.IconSide <= imageSize - 16 && 16 <= y && y + CS.IconSide <= imageSize - 16
  {
    SetXyLinearBounds(tag, imageSize, 1, hsv, radial);
  }

  /**
   * What one pass of the loop of `make_image` does with an icon: nothing, a paste at the
   * upper-left corner (the image library reads the box None as (0, 0)), or a paste at an offset.
   */
  datatype Paste = Skipped | AtCorner | AtOffset(x: int, y: int)

  /**
   * The loop body of `make_image` up to the paste: an icon whose average HSV colour is
   * empty is skipped; any other is pasted at the box `set_xy` gives, which is None,
   * and so the corner, for an unknown tag.
   */
  function IconOffset(icon: CS.IconRecord, tag: string, imageSize: int, step: int, radial: RadialOffset): Paste
    requires |icon.averageHsv| == 0 || (|icon.averageHsv| >= 3 && (ParseSortType(tag).Some? ==> step != 0))
  {
    if |icon.averageHsv| == 0 then Skipped
    else match SetXy(tag, imageSize, step, icon.averageHsv, radial)
      case None => AtCorner
      case Some((x, y)) => AtOffset(x, y)
  }

  /**
   * Only an icon with an empty average is skipped; every other icon is pasted, at the
   * corner exactly when the tag is unknown, and otherwise at a point of the step grid.
   */
  lemma IconOffsetCases(icon: CS.IconRecord, tag: string, imageSize: int, step: int, radial: RadialOffset)
    requires |icon.averageHsv| == 0 || (|icon.averageHsv| >= 3 && (ParseSortType(tag).Some? ==> step != 0))
    ensures IconOffset(icon, tag, imageSize, step, radial) == Skipped <==> |icon.averageHsv| == 0
    ensures IconOffset(icon, tag, imageSize, step, radial) == AtCorner <==>
      |icon.averageHsv| > 0 && ParseSortType(tag) == None
    ensures IconOffset(icon, tag, imageSize, step, radial).AtOffset? ==>
      step != 0
      && IconOffset(icon, tag, imageSize, step, radial).x % CM.AbsInt(step) == 0
      && IconOffset(icon, tag, imageSize, step, radial).y % CM.AbsInt(step) == 0
  {
    if |icon.averageHsv| > 0 {
      SetXyOnGrid(tag, imageSize, step, icon.averageHsv, radial);
    }
  }

  /**
   * An accepted file whose HSV histogram has three channels per colour and holds pixels
   * yields an icon that is never skipped: it is offset exactly when the tag is known.
   */
  lemma AcceptedIconIsPlaced(f: CS.FileRecord, tag: string, imageSize: int, step: int, radial: RadialOffset)
    requires ParseSortType(tag).Some? ==> step != 0
    requires CS.TotalCount(f.hsv) > 0
    requires forall i :: 0 <= i < |f.hsv| ==> |f.hsv[i].color| == 3
    ensures |CS.Record(f).averageHsv| == 3
    ensures IconOffset(CS.Record(f), tag, imageSize, step, radial) != Skipped
    ensures IconOffset(CS.Record(f), tag, imageSize, step, radial).AtOffset? <==> ParseSortType(tag).Some?
  {
    CS.SummaryArity(f.hsv, 3);
    SetXyOnGrid(tag, imageSize, step, CS.Record(f).averageHsv, radial);
  }

  // ---------------------------------------------------------------------------
  // make_image_flat

  /** Width of a flat strip holding `n` icons. */
  function StripWidth(n: nat): nat
  {
    CS.IconSide * n
  }

  /** First column of slot `i`. */
  function SlotStart(i: nat): nat
  {
    CS.IconSide * i
  }

  /** Each slot lies inside the strip, and two different slots share no column. */
  lemma SlotsTileStrip(n: nat, i: nat, j: nat)
    requires i < n && j < n
    ensures SlotStart(i) + CS.IconSide <= StripWidth(n)
    ensures i != j ==> SlotStart(i) + CS.IconSide <= SlotStart(j) || SlotStart(j) + CS.IconSide <= SlotStart(i)
  {
  }

  /** Every column of the strip belongs to exactly one slot, slot `x / 16`. */
  lemma ColumnOwner(n: nat, x: nat, i: nat)
    requires x < StripWidth(n)
    ensures x / CS.IconSide < n
    ensures SlotStart(x / CS.IconSide) <= x < SlotStart(x / CS.IconSide) + CS.IconSide
    ensures SlotStart(i) <= x < SlotStart(i) + CS.IconSide ==> i == x / CS.IconSide
  {
  }

  /** The fully transparent colour `Image.new('RGBA', ..., color=0)` starts from. */
  const Transparent: seq<nat> := [0, 0, 0, 0]

  /**
   * `paste(color, box)` with a box inside the canvas: every pixel of the box takes the
   * colour and every other pixel keeps its own. Rows are the first index.
   */
  method FillBox(canvas: array2<seq<nat>>, x0: nat, y0: nat, x1: nat, y1: nat, color: seq<nat>)
    requires x0 <= x1 <= canvas.Length1 && y0 <= y1 <= canvas.Length0
    modifies canvas
    ensures forall y, x :: 0 <= y < canvas.Length0 && 0 <= x < canvas.Length1 ==>
      canvas[y, x] == if y0 <= y < y1 && x0 <= x < x1 then color else old(canvas[y, x])
  {
    for y := y0 to y1
      invariant forall y', x :: 0 <= y' < canvas.Length0 && 0 <= x < canvas.Length1 ==>
        canvas[y', x] == if y0 <= y' < y && x0 <= x < x1 then color else old(canvas[y', x])
    {
      for x := x0 to x1
        invariant forall y', x' :: 0 <= y' < canvas.Length0 && 0 <= x' < canvas.Length1 ==>
          canvas[y', x'] == if (y0 <= y' < y && x0 <= x' < x1) || (y' == y && x0 <= x' < x) then color
                            else old(canvas[y', x'])
      {
        canvas[y, x] := color;
      }
    }
  }

  /**
   * The averaged strip of `make_image_flat`: a 16-row strip 16 columns per icon, where
   * slot `i` is filled with the average RGBA colour of icon `i`.
   */
  method AverageStrip(images: seq<CS.IconRecord>) returns (strip: array2<seq<nat>>)
    ensures fresh(strip)
    ensures strip.Length0 == CS.IconSide && strip.Length1 == StripWidth(|images|)
    ensures forall y, x :: 0 <= y < strip.Length0 && 0 <= x < strip.Length1 ==>
      strip[y, x] == images[x / CS.IconSide].averageRgba
  {
    strip := new seq<nat>[CS.IconSide, StripWidth(|images|)]((y, x) => Transparent);
    for i := 0 to |images|
      invariant strip.Length0 == CS.IconSide && strip.Length1 == StripWidth(|images|)
      invariant forall y, x :: 0 <= y < strip.Length0 && 0 <= x < SlotStart(i) ==>
        strip[y, x] == images[x / CS.IconSide].averageRgba
    {
      FillBox(strip, SlotStart(i), 0, SlotStart(i) + CS.IconSide, CS.IconSide, images[i].averageRgba);
      forall x | SlotStart(i) <= x < SlotStart(i + 1)
        ensures x / CS.IconSide == i
      {
        ColumnOwner(|images|, x, i);
      }
    }
  }
}
