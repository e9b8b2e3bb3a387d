/** One camera view of `ecPlacer.py`: its record, the crop-size setter, and
    the crop rectangle that `camera.read` cuts out of each captured frame. */
module Cameras {

  import opened Wrappers
  import opened Geometry

  /** Offset a camera starts with, in pixels from the frame centre. */
  const InitialOffset := Vec(30, 30)

  /** A camera view. `first` is the size of the frame read when the device
      was opened; the capture handle itself is not modelled. */
  datatype Camera = Camera(first: Dims, crop: Vec, offset: Vec, zoom: bool, selected: bool)

  /** A camera as constructed from its first frame. */
  function NewCamera(first: Dims): (c: Camera)
    ensures c.first == first
    ensures c.crop == Zero && c.offset == InitialOffset
    ensures !c.zoom && !c.selected
  {
    Camera(first, Zero, InitialOffset, false, false)
  }

  /** The crop-size setter: each requested component is clamped to the
      first frame's dimension and rounded down to an even number. */
  function SetCropSize(c: Camera, req: Vec): (r: Camera)
    ensures IsEven(r.crop.x) && IsEven(r.crop.y)
    ensures r.crop.x <= c.first.width && r.crop.y <= c.first.height
    ensures r.crop.x <= req.x && r.crop.y <= req.y
    // no larger even size meets both bounds
    ensures r.crop.x + 2 > req.x || r.crop.x + 2 > c.first.width
    ensures r.crop.y + 2 > req.y || r.crop.y + 2 > c.first.height
    ensures IsEven(req.x) && IsEven(req.y) && req.x <= c.first.width && req.y <= c.first.height
            ==> r.crop == req
    ensures r == c.(crop := r.crop)
  {
    var w := EvenFloor(if req.x < c.first.width then req.x else c.first.width);
    var h := EvenFloor(if req.y < c.first.height then req.y else c.first.height);
    c.(crop := Vec(w, h))
  }

  /** Setting a crop size that the setter itself produced changes nothing. */
  lemma SetCropSizeIdempotent(c: Camera, req: Vec)
    ensures SetCropSize(SetCropSize(c, req), SetCropSize(c, req).crop) == SetCropSize(c, req)
  {
  }

  /** The zoom divisor: the crop extent is halved while zoomed. */
  function Div(zoom: bool): (d: int)
    ensures zoom ==> d == 2
    ensures !zoom ==> d == 1
  {
    if zoom then 2 else 1
  }

  /** The rounded crop centre: frame centre plus offset, rounded half to
      even. Exact for even frame dimensions. */
  function Center(frame: Dims, offset: Vec): (c: Vec)
    ensures -1 <= frame.width + 2 * offset.x - 2 * c.x <= 1
    ensures -1 <= frame.height + 2 * offset.y - 2 * c.y <= 1
    // a tie (odd frame dimension) goes to the even neighbour
    ensures frame.width + 2 * offset.x - 2 * c.x != 0 ==> IsEven(c.x)
    ensures frame.height + 2 * offset.y - 2 * c.y != 0 ==> IsEven(c.y)
    ensures IsEven(frame.width) ==> c.x == frame.width / 2 + offset.x
    ensures IsEven(frame.height) ==> c.y == frame.height / 2 + offset.y
  {
    Vec(HalfRoundEven(frame.width + 2 * offset.x), HalfRoundEven(frame.height + 2 * offset.y))
  }

  /** Top-left and bottom-right corners along one axis, from the rounded
      centre `c`, the crop extent `size` and the zoom divisor `div`: the
      top-left is c - size / (2 div) and the bottom-right is
      top-left + size / div, each truncated toward zero. */
  function CropSpan(c: int, size: int, div: int): (span: (int, int))
    requires div == 1 || div == 2
    // an even extent is cut exactly: the span is size / div long
    ensures IsEven(size) ==> span.1 - span.0 == size / div
    // unzoomed, the span is centred exactly on c
    ensures IsEven(size) && div == 1 ==> span.0 + span.1 == 2 * c
    // zoomed, the span's midpoint is within half a pixel of c
    ensures IsEven(size) && div == 2 ==> -1 <= span.0 + span.1 - 2 * c <= 1
  {
    var top := TruncDiv(2 * div * c - size, 2 * div);
    (top, TruncDiv(div * top + size, div))
  }

  /** The rectangle `camera.read` crops out of a frame of size `frame`. */
  function CropRect(frame: Dims, offset: Vec, crop: Vec, zoom: bool): (r: Rect)
    // an even crop gives a rectangle of crop / div on each axis
    ensures IsEven(crop.x) && IsEven(crop.y) ==>
              r.Size() == Vec(crop.x / Div(zoom), crop.y / Div(zoom))
    // unzoomed, it is centred exactly on the rounded centre
    ensures !zoom && IsEven(crop.x) ==> r.topLeft.x + r.botRight.x == 2 * Center(frame, offset).x
    ensures !zoom && IsEven(crop.y) ==> r.topLeft.y + r.botRight.y == 2 * Center(frame, offset).y
    // zoomed, its midpoint is within half a pixel of the rounded centre
    ensures zoom && IsEven(crop.x) ==> -1 <= r.topLeft.x + r.botRight.x - 2 * Center(frame, offset).x <= 1
    ensures zoom && IsEven(crop.y) ==> -1 <= r.topLeft.y + r.botRight.y - 2 * Center(frame, offset).y <= 1
  {
    var c := Center(frame, offset);
    var (x0, x1) := CropSpan(c.x, crop.x, Div(zoom));
    var (y0, y1) := CropSpan(c.y, crop.y, Div(zoom));
    Rect(Vec(x0, y0), Vec(x1, y1))
  }

  /** Unzoomed, the top-left corner along one axis is c - size / 2
      truncated toward zero, and the bottom-right is top-left + size. */
  lemma UnzoomedSpanTruncates(c: int, size: int)
    ensures var (top, bot) := CropSpan(c, size, 1);
            && (2 * c - size >= 0 ==> 0 <= 2 * c - size - 2 * top < 2)
            && (2 * c - size < 0 ==> -2 < 2 * c - size - 2 * top <= 0)
            && bot == top + size
  {
    var (top, bot) := CropSpan(c, size, 1);
    assert top == TruncDiv(2 * c - size, 2);
    assert bot == TruncDiv(top + size, 1);
  }

  /** Zoomed, the top-left corner along one axis is c - size / 4 truncated
      toward zero, and the bottom-right is top-left + size / 2, again
      truncated toward zero. */
  lemma ZoomedSpanTruncates(c: int, size: int)
    ensures var (top, bot) := CropSpan(c, size, 2);
            && (4 * c - size >= 0 ==> 0 <= 4 * c - size - 4 * top < 4)
            && (4 * c - size < 0 ==> -4 < 4 * c - size - 4 * top <= 0)
            && (2 * top + size >= 0 ==> 0 <= 2 * top + size - 2 * bot < 2)
            && (2 * top + size < 0 ==> -2 < 2 * top + size - 2 * bot <= 0)
  {
    var (top, bot) := CropSpan(c, size, 2);
    assert top == TruncDiv(4 * c - size, 4);
    assert bot == TruncDiv(2 * top + size, 2);
  }

  /** Zoomed, an even size is quartered around c: exactly when size is a
      multiple of 4, and otherwise c - size / 4 falls on a half pixel and
      is truncated toward zero. */
  lemma ZoomedSpanTopLeft(c: int, size: int)
    ensures size % 4 == 0 ==> CropSpan(c, size, 2).0 == c - size / 4
    ensures size % 4 == 2 ==>
              CropSpan(c, size, 2).0 == (if 4 * c >= size then c - (size + 2) / 4 else c - (size - 2) / 4)
  {
    ZoomedSpanTruncates(c, size);
    var m := size / 4;
    assert size == 4 * m + size % 4;
  }

  /** Unzoomed, an even crop's top-left corner is the rounded centre minus
      half the crop. */
  lemma UnzoomedTopLeft(frame: Dims, offset: Vec, crop: Vec)
    requires IsEven(crop.x) && IsEven(crop.y)
    ensures var c := Center(frame, offset);
            CropRect(frame, offset, crop, false).topLeft == Vec(c.x - crop.x / 2, c.y - crop.y / 2)
  {
    var c := Center(frame, offset);
    UnzoomedSpanTruncates(c.x, crop.x);
    UnzoomedSpanTruncates(c.y, crop.y);
  }

  /** Zoomed, an even crop's top-left corner is the rounded centre minus a
      quarter of the crop, truncated toward zero when the quarter falls on
      a half pixel. */
  lemma ZoomedTopLeft(frame: Dims, offset: Vec, crop: Vec)
    ensures var c, r := Center(frame, offset), CropRect(frame, offset, crop, true);
            && (crop.x % 4 == 0 ==> r.topLeft.x == c.x - crop.x / 4)
            && (crop.y % 4 == 0 ==> r.topLeft.y == c.y - crop.y / 4)
            && (crop.x % 4 == 2 ==>
                  r.topLeft.x == (if 4 * c.x >= crop.x then c.x - (crop.x + 2) / 4 else c.x - (crop.x - 2) / 4))
            && (crop.y % 4 == 2 ==>
                  r.topLeft.y == (if 4 * c.y >= crop.y then c.y - (crop.y + 2) / 4 else c.y - (crop.y - 2) / 4))
  {
    var c := Center(frame, offset);
    ZoomedSpanTopLeft(c.x, crop.x);
    ZoomedSpanTopLeft(c.y, crop.y);
  }

  /** Zooming in keeps the crop inside the unzoomed crop, around the same
      rounded centre, for any even, non-negative crop size. */
  lemma ZoomedInsideUnzoomed(frame: Dims, offset: Vec, crop: Vec)
    requires IsEven(crop.x) && IsEven(crop.y) && crop.x >= 0 && crop.y >= 0
    ensures CropRect(frame, offset, crop, false).Encloses(CropRect(frame, offset, crop, true))
  {
  }

  /** `camera.read`: no rectangle when the capture fails, otherwise the
      crop rectangle for the captured frame's own dimensions. */
  function Read(c: Camera, grab: Option<Dims>): (r: Option<Rect>)
    ensures r.Some? <==> grab.Some?
    // an even crop gives a rectangle of crop / div on each axis
    ensures r.Some? && IsEven(c.crop.x) && IsEven(c.crop.y) ==>
              r.value.Size() == Vec(c.crop.x / Div(c.zoom), c.crop.y / Div(c.zoom))
    // centred on the captured frame's rounded centre plus offset
    ensures r.Some? && !c.zoom && IsEven(c.crop.x) ==>
              r.value.topLeft.x + r.value.botRight.x == 2 * Center(grab.value, c.offset).x
    ensures r.Some? && !c.zoom && IsEven(c.crop.y) ==>
              r.value.topLeft.y + r.value.botRight.y == 2 * Center(grab.value, c.offset).y
    ensures r.Some? && c.zoom && IsEven(c.crop.x) ==>
              -1 <= r.value.topLeft.x + r.value.botRight.x - 2 * Center(grab.value, c.offset).x <= 1
    ensures r.Some? && c.zoom && IsEven(c.crop.y) ==>
              -1 <= r.value.topLeft.y + r.value.botRight.y - 2 * Center(grab.value, c.offset).y <= 1
  {
    match grab
    case None => None
    case Some(frame) => Some(CropRect(frame, c.offset, c.crop, c.zoom))
  }

  /** The rectangle depends on the frame just captured, not on the first
      frame (which only bounds the crop size), nor on the selection flag. */
  lemma ReadUsesCapturedFrame(c: Camera, first: Dims, selected: bool, grab: Option<Dims>)
    ensures Read(c.(first := first, selected := selected), grab) == Read(c, grab)
  {
  }

  /** A zoomed read of a frame lies inside the unzoomed read of the same frame. */
  lemma ZoomedReadInside(c: Camera, frame: Dims)
    requires IsEven(c.crop.x) && IsEven(c.crop.y) && c.crop.x >= 0 && c.crop.y >= 0
    ensures Read(c.(zoom := false), Some(frame)).value.Encloses(Read(c.(zoom := true), Some(frame)).value)
  {
    ZoomedInsideUnzoomed(frame, c.offset, c.crop);
  }
}
