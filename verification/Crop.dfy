/** The camera's format adjustment (camera/src/fthd_v4l2.c:439-482), the crop derived from it
    (camera/src/fthd_isp.c:1184-1218) and the validator the crop must pass (716-740). Unsigned
    32-bit arithmetic is written out. */
module Crop {

  const U32: nat := 0x1_0000_0000
  const MAX_WIDTH: nat := 1280
  const MAX_HEIGHT: nat := 720
  const MIN_WIDTH: nat := 320
  const MIN_HEIGHT: nat := 240

  datatype PixelFormat = Yuyv | Yvyu | Other

  datatype Format = Format(pixel: PixelFormat, width: nat, height: nat, srgb: bool, progressive: bool,
                           bytesPerLine: nat, sizeImage: nat)

  // ----- format adjustment

  function Align8(n: nat): (r: nat)
    ensures n <= r < n + 8 && r % 8 == 0
  {
    (n + 7) / 8 * 8
  }

  /** Raised to the minimum, then cut to the maximum. */
  function Clamp(n: nat, low: nat, high: nat): (r: nat)
    ensures r <= high && (low <= high ==> low <= r)
    ensures low <= n <= high ==> r == n
  {
    var m := if n < low then low else n;
    if m > high then high else m
  }

  function Limit(sensor: nat, fallback: nat): nat { if sensor != 0 then sensor else fallback }

  function Adjusted(f: Format, sensorW: nat, sensorH: nat): (r: Format) {
    var width := Align8(Clamp(f.width, MIN_WIDTH, Limit(sensorW, MAX_WIDTH)));
    var height := Clamp(f.height, MIN_HEIGHT, Limit(sensorH, MAX_HEIGHT));
    Format(if f.pixel == Other then Yuyv else f.pixel, width, height, true, true,
           width * 2, width * 2 * height % U32)
  }

  /** Adjusting an adjusted format changes nothing, for every sensor and every request: a width that
      alignment pushed past the sensor comes back to the same value. */
  lemma AdjustIsIdempotent(f: Format, sensorW: nat, sensorH: nat)
    ensures var a := Adjusted(f, sensorW, sensorH); Adjusted(a, sensorW, sensorH) == a
  {
    var high := Limit(sensorW, MAX_WIDTH);
    AlignClamp(f.width, high);
  }

  lemma AlignClamp(n: nat, high: nat)
    ensures Align8(Clamp(Align8(Clamp(n, MIN_WIDTH, high)), MIN_WIDTH, high)) == Align8(Clamp(n, MIN_WIDTH, high))
  {
    var c := Clamp(n, MIN_WIDTH, high);
    var a := Align8(c);
    if a > high || a < MIN_WIDTH { assert Align8(high) == a; }
  }

  /** The nearest value between the two bounds. */
  predicate Nearest(r: nat, n: nat, low: nat, high: nat) {
    low <= r <= high && (low <= n <= high ==> r == n) && (n < low ==> r == low) && (n > high ==> r == high)
  }

  /** A request is met as nearly as the sensor allows: its height is the nearest from 240 up to the
      sensor's, its width the nearest from 320 up, aligned up to a multiple of 8; a sensor below the
      minimum has only its own size to give, and 1280x720 stands in for one not detected. A pixel format
      that is not supported becomes YUYV, and the sizes of a line and of the image are those of two bytes
      per pixel, in 32 bits. */
  lemma RequestIsMet(f: Format, sensorW: nat, sensorH: nat)
    ensures var a := Adjusted(f, sensorW, sensorH);
      var w, h := if sensorW == 0 then 1280 else sensorW, if sensorH == 0 then 720 else sensorH;
      var lowW, lowH := if w < 320 then w else 320, if h < 240 then h else 240;
      && Nearest(a.height, f.height, lowH, h)
      && (exists n: nat :: Nearest(n, f.width, lowW, w) && n <= a.width < n + 8)
      && a.width % 8 == 0 && a.pixel == (if f.pixel == Yvyu then Yvyu else Yuyv)
      && a.srgb && a.progressive && a.bytesPerLine == 2 * a.width
      && a.sizeImage == 2 * (a.width * a.height) % 0x1_0000_0000
  {
    var a := Adjusted(f, sensorW, sensorH);
    var w := if sensorW == 0 then 1280 else sensorW;
    assert Nearest(Clamp(f.width, MIN_WIDTH, w), f.width, if w < 320 then w else 320, w);
    TwoBytes(a.width, a.height);
  }

  lemma TwoBytes(w: nat, h: nat)
    ensures w * 2 * h == 2 * (w * h)
  {}

  class Pix {
    var pixel: PixelFormat
    var width: nat
    var height: nat
    var srgb: bool
    var progressive: bool
    var bytesPerLine: nat
    var sizeImage: nat

    ghost function View(): (f: Format)
      reads this
    {
      Format(pixel, width, height, srgb, progressive, bytesPerLine, sizeImage)
    }

    method ClampSize(maxW: nat, maxH: nat)
      modifies this`width, this`height
      ensures width == Clamp(old(width), MIN_WIDTH, maxW) && height == Clamp(old(height), MIN_HEIGHT, maxH)
    {
      if width < MIN_WIDTH { width := MIN_WIDTH; }
      if width > maxW { width := maxW; }
      if height < MIN_HEIGHT { height := MIN_HEIGHT; }
      if height > maxH { height := maxH; }
    }

    /** Adjusts the request in place. */
    method AdjustFormat(sensorW: nat, sensorH: nat)
      modifies this
      ensures View() == Adjusted(old(View()), sensorW, sensorH)
    {
      hide Align8;
      var maxW := if sensorW != 0 then sensorW else MAX_WIDTH;
      var maxH := if sensorH != 0 then sensorH else MAX_HEIGHT;
      if pixel != Yuyv && pixel != Yvyu { pixel := Yuyv; }
      ClampSize(maxW, maxH);
      hide Clamp;
      srgb := true;
      progressive := true;
      width := Align8(width);
      bytesPerLine := width * 2;
      sizeImage := bytesPerLine * height % U32;
    }
  }

  // ----- the crop

  datatype Window = Window(x: int, y: int, width: int, height: int)

  function Mul32(a: nat, b: nat): nat { a * b % U32 }

  /** The window's size before the width is made even. */
  function RawSize(sw: nat, sh: nat, ow: nat, oh: nat): (r: (nat, nat)) {
    if ow == 0 || oh == 0 then (sw, sh)
    else if Mul32(ow, sh) >= Mul32(sw, oh) then (sw, Mul32(sw, oh) / ow)
    else (Mul32(sh, ow) / oh, sh)
  }

  function CropFor(sensorW: nat, sensorH: nat, ow: nat, oh: nat): (w: Window) {
    var sw, sh := Limit(sensorW, ow), Limit(sensorH, oh);
    var (rw, rh) := RawSize(sw, sh, ow, oh);
    var cw := (if rw < sw then rw else sw) / 2 * 2;
    var ch := if rh < sh then rh else sh;
    Window((sw - cw) / 2, (sh - ch) / 2, cw, ch)
  }

  /** What fthd_isp_cmd_channel_crop_set lets through. */
  predicate Accepted(sensorW: nat, sensorH: nat, w: Window) {
    && w.x >= 0 && w.y >= 0 && w.width > 0 && w.height > 0
    && (sensorW != 0 ==> w.x + w.width <= sensorW)
    && (sensorH != 0 ==> w.y + w.height <= sensorH)
    && !(w.x % 2 == 1 && w.width % 2 == 1)
  }

  /** That is: a window that is not empty, all of whose pixels are on the sensor, as far as its size is
      known, and whose left edge and width are not both odd. */
  lemma AcceptedIff(sensorW: nat, sensorH: nat, w: Window)
    ensures Accepted(sensorW, sensorH, w) <==>
      && w.width > 0 && w.height > 0
      && (forall x: int {:trigger OnSensor(x, sensorW)} :: w.x <= x < w.x + w.width ==> OnSensor(x, sensorW))
      && (forall y: int {:trigger OnSensor(y, sensorH)} :: w.y <= y < w.y + w.height ==> OnSensor(y, sensorH))
      && (w.x % 2 == 0 || w.width % 2 == 0)
  {
    if w.width > 0 && w.height > 0 && !Accepted(sensorW, sensorH, w) {
      assert OnSensor(w.x, sensorW) ==> w.x >= 0;
      assert OnSensor(w.y, sensorH) ==> w.y >= 0;
      assert OnSensor(w.x + w.width - 1, sensorW) ==> sensorW == 0 || w.x + w.width <= sensorW;
      assert OnSensor(w.y + w.height - 1, sensorH) ==> sensorH == 0 || w.y + w.height <= sensorH;
    }
  }

  /** A row or a column of a sensor of this size. */
  predicate OnSensor(n: int, size: nat) { 0 <= n && (size == 0 || n < size) }

  /** What the driver records of a sensor: nothing, or two 16-bit dimensions, neither of them zero. */
  predicate Recorded(sw: nat, sh: nat) { (sw == 0 && sh == 0) || (0 < sw < 0x1_0000 && 0 < sh < 0x1_0000) }

  /** A sensor of at least the minimum format. */
  predicate Detected(sw: nat, sh: nat) { MIN_WIDTH <= sw < 0x1_0000 && MIN_HEIGHT <= sh < 0x1_0000 }

  lemma ProductFits(a: nat, b: nat)
    requires a <= 0x1_0000 && b < 0x1_0000
    ensures a * b < U32 && Mul32(a, b) == a * b && Mul32(b, a) == b * a
  {
    assert a * b <= 0x1_0000 * b;
  }

  /** No product of the computation wraps. */
  lemma NoOverflow(sw: nat, sh: nat, ow: nat, oh: nat)
    requires sw < 0x1_0000 && sh < 0x1_0000 && ow <= 0x1_0000 && oh < 0x1_0000
    ensures Mul32(ow, sh) == ow * sh && Mul32(sw, oh) == sw * oh && Mul32(sh, ow) == sh * ow
  {
    ProductFits(ow, sh);
    ProductFits(sw, oh);
  }

  // ----- the largest window of the output's aspect

  /** The output scaled by p/q lies inside the sensor. */
  predicate Inside(p: nat, q: nat, sw: nat, sh: nat, ow: nat, oh: nat) {
    q > 0 && p * ow <= sw * q && p * oh <= sh * q
  }

  lemma FloorMono(p: nat, q: nat, a: nat, n: nat, d: nat)
    requires q > 0 && d > 0 && p * d <= n * q
    ensures p * a / q <= n * a / d
  {
    var f := p * a / q;
    DivLe(p * a, q);
    MulMono(f * q, p * a, d);
    Swap(p, a, d);
    Swap(n, a, q);
    Swap(f, q, d);
    MulMono(p * d, n * q, a);
    if f * d > n * a { MulStrict(n * a, f * d, q); }
    DivGe(f, n * a, d);
  }

  lemma DivLe(n: nat, d: nat)
    requires d > 0
    ensures n / d * d <= n
  {
    assert n == n / d * d + n % d;
  }

  lemma Swap(a: nat, b: nat, c: nat)
    ensures a * b * c == a * c * b
  {}

  lemma MulMono(a: nat, b: nat, c: nat)
    requires a <= b
    ensures a * c <= b * c
  {}

  lemma MulStrict(a: nat, b: nat, c: nat)
    requires a < b && c > 0
    ensures a * c < b * c
  {}

  lemma DivGe(f: nat, n: nat, d: nat)
    requires d > 0 && f * d <= n
    ensures f <= n / d
  {
    assert n == n / d * d + n % d;
    if f > n / d {
      assert (n / d + 1) * d == n / d * d + d;
      MulMono(n / d + 1, f, d);
    }
  }

  lemma DivExact(n: nat, d: nat)
    requires d > 0
    ensures n * d / d == n
  {
    DivGe(n, n * d, d);
    assert n * d == n * d / d * d + n * d % d;
  }

  /** Every scaled copy of the output that fits the sensor is, in whole pixels, no larger than the
      window in either direction. */
  lemma NoLargerWindow(sw: nat, sh: nat, ow: nat, oh: nat, p: nat, q: nat)
    requires sw < 0x1_0000 && sh < 0x1_0000 && 0 < ow <= 0x1_0000 && 0 < oh < 0x1_0000
    requires Inside(p, q, sw, sh, ow, oh)
    ensures var (rw, rh) := RawSize(sw, sh, ow, oh); p * ow / q <= rw && p * oh / q <= rh
  {
    NoOverflow(sw, sh, ow, oh);
    if ow * sh >= sw * oh {
      FloorMono(p, q, ow, sw, ow);
      DivExact(sw, ow);
      FloorMono(p, q, oh, sw, ow);
    } else {
      FloorMono(p, q, oh, sh, oh);
      DivExact(sh, oh);
      FloorMono(p, q, ow, sh, oh);
    }
  }

  /** And one of them is the window, so it is the largest. */
  lemma WindowIsAttained(sw: nat, sh: nat, ow: nat, oh: nat)
    requires sw < 0x1_0000 && sh < 0x1_0000 && 0 < ow <= 0x1_0000 && 0 < oh < 0x1_0000
    ensures exists p: nat, q: nat :: Inside(p, q, sw, sh, ow, oh) && RawSize(sw, sh, ow, oh) == (p * ow / q, p * oh / q)
  {
    NoOverflow(sw, sh, ow, oh);
    if ow * sh >= sw * oh {
      DivExact(sw, ow);
      assert Inside(sw, ow, sw, sh, ow, oh);
    } else {
      DivExact(sh, oh);
      assert Inside(sh, oh, sw, sh, ow, oh);
    }
  }

  lemma DivBounds(n: nat, d: nat, low: nat, high: nat)
    requires d > 0 && low * d <= n <= high * d
    ensures low <= n / d <= high
  {
    DivGe(low, n, d);
    assert n == n / d * d + n % d;
  }

  /** The raw window is inside the sensor, whatever the output's aspect, and is at least 2 by 1 if and
      only if the sensor is two pixels wide and its width times the output's height covers the
      output's width. */
  lemma RawSizeFits(sw: nat, sh: nat, ow: nat, oh: nat)
    requires 0 < sw < 0x1_0000 && 0 < sh < 0x1_0000 && 2 <= ow <= 0x1_0000 && 0 < oh <= sh
    ensures var (rw, rh) := RawSize(sw, sh, ow, oh);
      rw <= sw && rh <= sh && (2 <= rw && 1 <= rh <==> 2 <= sw && ow <= sw * oh)
  {
    NoOverflow(sw, sh, ow, oh);
    if ow * sh >= sw * oh {
      WiderOutput(sw, sh, ow, oh);
    } else {
      TallerOutput(sw, sh, ow, oh);
    }
  }

  lemma WiderOutput(sw: nat, sh: nat, ow: nat, oh: nat)
    requires ow > 0 && sw * oh <= ow * sh
    ensures sw * oh / ow <= sh && (1 <= sw * oh / ow <==> ow <= sw * oh)
  {
    var n := sw * oh;
    assert ow * sh == sh * ow;
    DivLe(n, ow);
    if n / ow > sh { MulStrict(sh, n / ow, ow); }
    if ow <= n { DivGe(1, n, ow); }
    if 1 <= n / ow { MulMono(1, n / ow, ow); }
  }

  lemma TallerOutput(sw: nat, sh: nat, ow: nat, oh: nat)
    requires 2 <= ow && 0 < oh <= sh && ow * sh < sw * oh
    ensures 2 <= sh * ow / oh <= sw && 2 <= sw && ow <= sw * oh
  {
    assert ow * sh == sh * ow;
    MulMono(oh, sh, ow);
    assert ow * oh == oh * ow;
    MulMono(2, ow, oh);
    DivBounds(sh * ow, oh, 2, sw);
    MulMono(1, sh, ow);
  }

  lemma AdjustedRange(f: Format, sensorW: nat, sensorH: nat)
    requires Recorded(sensorW, sensorH)
    ensures var a := Adjusted(f, sensorW, sensorH); var sw, sh := Limit(sensorW, MAX_WIDTH), Limit(sensorH, MAX_HEIGHT);
      && 8 <= a.width <= Align8(sw) <= sw + 7 && a.width <= 0x1_0000 && 1 <= a.height <= sh
      && (sh < MIN_HEIGHT ==> a.height == sh) && (sh >= MIN_HEIGHT ==> a.height >= MIN_HEIGHT)
  {
    var sw := Limit(sensorW, MAX_WIDTH);
    AlignMono(Clamp(f.width, MIN_WIDTH, sw), sw);
  }

  lemma AlignMono(a: nat, b: nat)
    requires a <= b
    ensures Align8(a) <= Align8(b) && (a > 0 ==> 8 <= Align8(a)) && (a <= 0x1_0000 ==> Align8(a) <= 0x1_0000)
  {}

  /** For every recorded sensor and every requested format, the crop is the largest window of the
      output's aspect but for at most one column, has an even width and is centred inside the sensor;
      it is accepted if and only if the sensor is two pixels wide and its width times the output's height
      covers the output's width. */
  lemma CropAcceptedIff(f: Format, sensorW: nat, sensorH: nat)
    requires Recorded(sensorW, sensorH) && sensorW != 0
    ensures var a := Adjusted(f, sensorW, sensorH); var w := CropFor(sensorW, sensorH, a.width, a.height);
      && w.width % 2 == 0
      && (var (rw, rh) := RawSize(sensorW, sensorH, a.width, a.height); rw - 1 <= w.width <= rw && w.height == rh)
      && 0 <= sensorW - w.width - 2 * w.x <= 1 && 0 <= sensorH - w.height - 2 * w.y <= 1
      && (Accepted(sensorW, sensorH, w) <==> 2 <= sensorW && a.width <= sensorW * a.height)
  {
    AdjustedRange(f, sensorW, sensorH);
    hide Adjusted;
    var a := Adjusted(f, sensorW, sensorH);
    FittingCrop(sensorW, sensorH, a.width, a.height);
  }

  lemma FittingCrop(sw: nat, sh: nat, ow: nat, oh: nat)
    requires 0 < sw < 0x1_0000 && 0 < sh < 0x1_0000 && 2 <= ow <= 0x1_0000 && 0 < oh <= sh
    ensures var w := CropFor(sw, sh, ow, oh);
      && w.width % 2 == 0
      && (var (rw, rh) := RawSize(sw, sh, ow, oh); rw - 1 <= w.width <= rw && w.height == rh)
      && 0 <= sw - w.width - 2 * w.x <= 1 && 0 <= sh - w.height - 2 * w.y <= 1
      && (Accepted(sw, sh, w) <==> 2 <= sw && ow <= sw * oh)
  {
    hide RawSize;
    RawSizeFits(sw, sh, ow, oh);
    var (rw, rh) := RawSize(sw, sh, ow, oh);
    EvenPart(rw);
    Centred(sw, rw / 2 * 2);
    Centred(sh, rh);
  }

  /** So on a sensor of at least the minimum format the crop is always accepted. */
  lemma CropAlwaysValid(f: Format, sensorW: nat, sensorH: nat)
    requires Detected(sensorW, sensorH)
    ensures var a := Adjusted(f, sensorW, sensorH);
      Accepted(sensorW, sensorH, CropFor(sensorW, sensorH, a.width, a.height))
  {
    CropAcceptedIff(f, sensorW, sensorH);
    AdjustedRange(f, sensorW, sensorH);
    hide Adjusted, Accepted, CropFor;
    MulMono(2, Adjusted(f, sensorW, sensorH).height, sensorW);
  }

  /** And on any recorded sensor it is accepted for every format if and only if the sensor is two pixels
      wide and its width times its height, or 240 lines of it, covers the aligned width. */
  lemma SensorFitsAllFormatsIff(sensorW: nat, sensorH: nat)
    requires Recorded(sensorW, sensorH) && sensorW != 0
    ensures (forall f :: AcceptedFor(f, sensorW, sensorH)) <==>
      2 <= sensorW && Align8(sensorW) <= sensorW * (if sensorH < MIN_HEIGHT then sensorH else MIN_HEIGHT)
  {
    var lines := if sensorH < MIN_HEIGHT then sensorH else MIN_HEIGHT;
    var widest := Format(Yuyv, if sensorW < MIN_WIDTH then MIN_WIDTH else sensorW, 0, true, true, 0, 0);
    CropAcceptedIff(widest, sensorW, sensorH);
    assert Adjusted(widest, sensorW, sensorH).width == Align8(sensorW);
    assert Adjusted(widest, sensorW, sensorH).height == lines;
    if 2 <= sensorW && Align8(sensorW) <= sensorW * lines {
      forall f ensures AcceptedFor(f, sensorW, sensorH) { WideEnough(f, sensorW, sensorH, lines); }
    } else {
      assert !AcceptedFor(widest, sensorW, sensorH);
    }
  }

  predicate AcceptedFor(f: Format, sensorW: nat, sensorH: nat) {
    var a := Adjusted(f, sensorW, sensorH);
    Accepted(sensorW, sensorH, CropFor(sensorW, sensorH, a.width, a.height))
  }

  lemma WideEnough(f: Format, sensorW: nat, sensorH: nat, lines: nat)
    requires Recorded(sensorW, sensorH) && 2 <= sensorW && Align8(sensorW) <= sensorW * lines
    requires lines == if sensorH < MIN_HEIGHT then sensorH else MIN_HEIGHT
    ensures AcceptedFor(f, sensorW, sensorH)
  {
    CropAcceptedIff(f, sensorW, sensorH);
    AdjustedRange(f, sensorW, sensorH);
    hide *;
    var a := Adjusted(f, sensorW, sensorH);
    Commuted(lines, sensorW);
    Commuted(a.height, sensorW);
    MulMono(lines, a.height, sensorW);
    AcceptedForIs(f, sensorW, sensorH);
    Limits(sensorW, sensorH);
  }

  lemma Limits(sensorW: nat, sensorH: nat)
    ensures sensorW != 0 ==> Limit(sensorW, MAX_WIDTH) == sensorW
    ensures Recorded(sensorW, sensorH) && sensorW != 0 ==> Limit(sensorH, MAX_HEIGHT) == sensorH
  {}

  lemma AcceptedForIs(f: Format, sensorW: nat, sensorH: nat)
    ensures var a := Adjusted(f, sensorW, sensorH);
      AcceptedFor(f, sensorW, sensorH) <==> Accepted(sensorW, sensorH, CropFor(sensorW, sensorH, a.width, a.height))
  {
    hide Adjusted, Accepted, CropFor;
  }

  lemma Commuted(a: nat, b: nat)
    ensures a * b == b * a
  {}

  /** A sensor one pixel wide gets an empty crop, which is refused. */
  lemma OnePixelWide(f: Format, sensorH: nat)
    requires 0 < sensorH < 0x1_0000
    ensures !AcceptedFor(f, 1, sensorH)
  {
    CropAcceptedIff(f, 1, sensorH);
  }

  /** While no sensor is recorded the crop is the whole output, and accepted. */
  lemma UndetectedSensor(f: Format)
    ensures var a := Adjusted(f, 0, 0);
      CropFor(0, 0, a.width, a.height) == Window(0, 0, a.width, a.height) && AcceptedFor(f, 0, 0)
  {
    AdjustedRange(f, 0, 0);
    var a := Adjusted(f, 0, 0);
    assert a.width % 8 == 0;
    hide Adjusted, Align8;
    WholeOutput(a.width, a.height);
  }

  lemma WholeOutput(ow: nat, oh: nat)
    requires 0 < ow <= 0x1_0000 && 0 < oh < 0x1_0000 && ow % 8 == 0
    ensures CropFor(0, 0, ow, oh) == Window(0, 0, ow, oh)
  {
    ProductFits(ow, oh);
    DivExact(oh, ow);
    assert ow * oh == oh * ow;
    assert RawSize(ow, oh, ow, oh) == (ow, oh);
    hide RawSize;
    assert ow / 2 * 2 == ow;
  }

  lemma EvenPart(n: nat)
    ensures 0 <= n / 2 * 2 <= n <= n / 2 * 2 + 1 && n / 2 * 2 % 2 == 0 && (n >= 2 <==> n / 2 * 2 > 0)
  {}

  lemma Centred(size: nat, part: nat)
    requires part <= size
    ensures var off := (size - part) / 2; 0 <= off && off + part <= size && 0 <= size - part - 2 * off <= 1
  {}

  /** The format the driver starts with asks for the sensor's own size and is adjusted like any other;
      its crop has the sensor's full width, and the full height exactly when alignment did not widen
      the output. */
  lemma DefaultCrop(f: Format, sensorW: nat, sensorH: nat)
    requires Detected(sensorW, sensorH) && f.width == sensorW && f.height == sensorH
    ensures var a := Adjusted(f, sensorW, sensorH); var w := CropFor(sensorW, sensorH, a.width, a.height);
      && a.width == Align8(sensorW) && a.height == sensorH
      && Accepted(sensorW, sensorH, w) && w.width == sensorW / 2 * 2
      && (w.height == sensorH <==> sensorW % 8 == 0)
  {
    CropAlwaysValid(f, sensorW, sensorH);
    AdjustedDefault(f, sensorW, sensorH);
    hide Adjusted, Accepted, CropFor;
    WidenedCrop(sensorW, sensorH, Align8(sensorW));
  }

  lemma AdjustedDefault(f: Format, sensorW: nat, sensorH: nat)
    requires Detected(sensorW, sensorH) && f.width == sensorW && f.height == sensorH
    ensures var a := Adjusted(f, sensorW, sensorH); a.width == Align8(sensorW) && a.height == sensorH
  {}

  lemma WidenedCrop(sw: nat, sh: nat, ow: nat)
    requires Detected(sw, sh) && ow == Align8(sw)
    ensures var w := CropFor(sw, sh, ow, sh); w.width == sw / 2 * 2 && (w.height == sh <==> sw % 8 == 0)
  {
    AlignedOr(sw);
    NoOverflow(sw, sh, ow, sh);
    MulMono(sw, ow, sh);
    var rh := sw * sh / ow;
    assert RawSize(sw, sh, ow, sh) == (sw, rh);
    FloorAspect(sw, sh, ow);
    hide Align8, RawSize;
  }

  lemma AlignedOr(n: nat)
    ensures n <= Align8(n) && (Align8(n) == n <==> n % 8 == 0) && (n < 0x1_0000 ==> Align8(n) <= 0x1_0000)
  {}

  lemma FloorAspect(sw: nat, sh: nat, ow: nat)
    requires 0 < sw <= ow && sh > 0
    ensures sw * sh / ow <= sh && (sw * sh / ow == sh <==> sw == ow)
  {
    var q := sw * sh / ow;
    assert sw * sh == q * ow + sw * sh % ow;
    if sw == ow {
      DivExact(sh, ow);
      assert sw * sh == sh * ow;
    } else {
      MulStrict(sw, ow, sh);
      assert ow * sh == sh * ow;
      if q >= sh { MulMono(sh, q, ow); }
    }
  }
}
