/** The viewer: the global state of the page script (rotation angles, screen geometry,
    drag state) as the fields of one object, and the operations that update it in place:
    the render pass with its depth and glyph buffers, the screen-geometry recomputation
    and the mouse handlers. */
module Donut {
  import opened Projection
  import opened FrameBuffer
  import opened Interaction

  /** The text shown instead of a frame when the screen has no cells. */
  const Placeholder: string := "Window too small or error in dimension calculation."

  /** The screen size used when the character cell cannot be measured. */
  const FallbackWidth: int := 80
  const FallbackHeight: int := 40

  /** The samples of one value of theta, in the order of the inner phi loop. */
  function Row(trig: Trig, a: real, b: real, theta: real, phis: seq<real>,
               width: int, height: int, k1: real): (ss: seq<Sample>)
    requires trig.Valid()
    ensures |ss| == |phis| && Drawable(ss)
    decreases |phis|
  {
    if phis == [] then []
    else
      Row(trig, a, b, theta, phis[..|phis| - 1], width, height, k1)
        + [Project(trig.At(a), trig.At(b), trig.At(theta), trig.At(phis[|phis| - 1]), width, height, k1)]
  }

  /** The samples of one frame, in the order of the nested loops: theta outer, phi inner. */
  function Sweep(trig: Trig, a: real, b: real, thetas: seq<real>, phis: seq<real>,
                 width: int, height: int, k1: real): (ss: seq<Sample>)
    requires trig.Valid()
    ensures Drawable(ss)
    decreases |thetas|
  {
    if thetas == [] then []
    else
      Sweep(trig, a, b, thetas[..|thetas| - 1], phis, width, height, k1)
        + Row(trig, a, b, thetas[|thetas| - 1], phis, width, height, k1)
  }

  /** The text a render pass shows for a width x height screen. */
  ghost function Picture(trig: Trig, a: real, b: real, thetas: seq<real>, phis: seq<real>,
                         width: int, height: int, k1: real): (text: string)
    requires trig.Valid() && width > 0 && height > 0
    ensures |text| == width * height
  {
    PositiveProduct(width, height);
    Layout(Composite(Blank(width * height), Sweep(trig, a, b, thetas, phis, width, height, k1), width).glyph, width)
  }

  lemma PositiveProduct(width: int, height: int)
    requires width > 0 && height > 0
    ensures width * height > 0
  {
    MulAtLeast(height, width);
  }

  /** A drawn frame has one cell per screen cell and one line break per row, the first of
      them at the very start. */
  lemma PictureShape(trig: Trig, a: real, b: real, thetas: seq<real>, phis: seq<real>,
                     width: int, height: int, k1: real)
    requires trig.Valid() && width > 0 && height > 0
    ensures var text := Picture(trig, a, b, thetas, phis, width, height, k1);
            |text| == width * height && text[0] == '\n' && Newlines(text) == height
  {
    PositiveProduct(width, height);
    var n := width * height;
    var ss := Sweep(trig, a, b, thetas, phis, width, height, k1);
    CompositeStaysPrintable(Blank(n), ss, width);
    LayoutLineBreaks(Composite(Blank(n), ss, width).glyph, width, height);
  }

  /** Math.floor of the quotient of two window measures is integer division. */
  lemma FloorOfQuotient(n: nat, d: nat)
    requires d > 0
    ensures ((n as real) / (d as real)).Floor == n / d
  {
    var q, r := n / d, n % d;
    assert n == q * d + r;
    assert (n as real) == (q as real) * (d as real) + (r as real);
    assert (n as real) / (d as real) == (q as real) + (r as real) / (d as real);
    assert 0.0 <= (r as real) / (d as real) < 1.0;
  }

  /** Reset both buffers to "nothing drawn": depth 0 and a blank glyph in every cell. */
  method ClearBuffers(size: nat) returns (depth: array<real>, glyph: array<char>)
    ensures fresh(depth) && fresh(glyph) && depth.Length == size && glyph.Length == size
    ensures Frame(depth[..], glyph[..]) == Blank(size)
  {
    depth := new real[size];
    glyph := new char[size];
    var k := 0;
    while k < size
      invariant 0 <= k <= size
      invariant forall m :: 0 <= m < k ==> depth[m] == 0.0 && glyph[m] == ' '
    {
      depth[k] := 0.0;
      glyph[k] := ' ';
      k := k + 1;
    }
  }

  /** The depth test of one sample and, when it is lit and nearer, the write of its depth
      and glyph into the buffers. */
  method PlotSample(depth: array<real>, glyph: array<char>, s: Sample, width: int)
    requires depth.Length == glyph.Length && s.lum < 1.5
    modifies depth, glyph
    ensures Frame(depth[..], glyph[..]) == Plot(Frame(old(depth[..]), old(glyph[..])), s, width)
  {
    if s.lum > 0.0 {
      var idx := s.xp + width * s.yp;
      if 0 <= idx < depth.Length && s.ooz > depth[idx] {
        depth[idx] := s.ooz;
        glyph[idx] := Glyph(s.lum);
      }
    }
  }

  /** The glyph buffer as text: a line break at every multiple of the width, the cell's
      glyph everywhere else. */
  method Serialise(glyph: array<char>, width: int, height: int) returns (text: string)
    requires width > 0 && height > 0 && glyph.Length == width * height
    ensures text == Layout(glyph[..], width)
  {
    text := "";
    var k := 0;
    while k < width * height
      invariant 0 <= k <= width * height
      invariant |text| == k
      invariant forall m :: 0 <= m < k ==> text[m] == if m % width == 0 then '\n' else glyph[m]
    {
      text := text + [if k % width != 0 then glyph[k] else '\n'];
      k := k + 1;
    }
  }

  /** The inner loop of a render pass: every phi for one theta, in order. */
  method DrawRow(depth: array<real>, glyph: array<char>, trig: Trig, a: real, b: real,
                 angA: Angle, angB: Angle, theta: real, phis: seq<real>,
                 width: int, height: int, k1: real)
    requires depth.Length == glyph.Length && trig.Valid()
    requires angA == trig.At(a) && angB == trig.At(b)
    modifies depth, glyph
    ensures Frame(depth[..], glyph[..])
            == Composite(Frame(old(depth[..]), old(glyph[..])), Row(trig, a, b, theta, phis, width, height, k1), width)
  {
    ghost var start := Frame(depth[..], glyph[..]);
    var angTheta := trig.At(theta);
    var j := 0;
    assert phis[..0] == [];
    while j < |phis|
      invariant 0 <= j <= |phis|
      invariant Frame(depth[..], glyph[..]) == Composite(start, Row(trig, a, b, theta, phis[..j], width, height, k1), width)
    {
      var s := Project(angA, angB, angTheta, trig.At(phis[j]), width, height, k1);
      ghost var done := Row(trig, a, b, theta, phis[..j], width, height, k1);
      assert phis[..j + 1][..j] == phis[..j];
      assert Row(trig, a, b, theta, phis[..j + 1], width, height, k1) == done + [s];
      CompositeSnoc(start, done, s, width);
      PlotSample(depth, glyph, s, width);
      j := j + 1;
    }
    assert phis[..j] == phis;
  }

  /** The nested theta/phi loops of a render pass. */
  method DrawSweep(depth: array<real>, glyph: array<char>, trig: Trig, a: real, b: real,
                   thetas: seq<real>, phis: seq<real>, width: int, height: int, k1: real)
    requires depth.Length == glyph.Length && trig.Valid()
    modifies depth, glyph
    ensures Frame(depth[..], glyph[..])
            == Composite(Frame(old(depth[..]), old(glyph[..])), Sweep(trig, a, b, thetas, phis, width, height, k1), width)
  {
    ghost var start := Frame(depth[..], glyph[..]);
    var angA, angB := trig.At(a), trig.At(b);
    var i := 0;
    assert thetas[..0] == [];
    while i < |thetas|
      invariant 0 <= i <= |thetas|
      invariant Frame(depth[..], glyph[..]) == Composite(start, Sweep(trig, a, b, thetas[..i], phis, width, height, k1), width)
    {
      ghost var done := Sweep(trig, a, b, thetas[..i], phis, width, height, k1);
      ghost var row := Row(trig, a, b, thetas[i], phis, width, height, k1);
      DrawRow(depth, glyph, trig, a, b, angA, angB, thetas[i], phis, width, height, k1);
      assert thetas[..i + 1][..i] == thetas[..i];
      CompositeAppend(start, done, row, width);
      i := i + 1;
    }
    assert thetas[..i] == thetas;
  }

  class Viewer {
    /** Rotation angles. */
    var a: real
    var b: real
    /** Screen geometry: size in character cells and projection scale. */
    var width: int
    var height: int
    var k1: real
    /** Drag state. */
    var isDragging: bool
    var lastMouseX: real
    var lastMouseY: real

    /** The projection scale is never stale: it always belongs to the current width. */
    ghost predicate Valid()
      reads this
    {
      width >= 0 && height >= 0 && k1 == Scale(width)
    }

    /** The angles and drag state, as the state machine of module Interaction sees them. */
    function ControlState(): Controls
      reads this
    {
      Controls(a, b, isDragging, lastMouseX, lastMouseY)
    }

    /** The screen geometry that a measurement of the character cell and the window yields. */
    ghost predicate Measured(charWidth: nat, charHeight: nat, innerWidth: nat, innerHeight: nat)
      reads this
    {
      && (charWidth == 0 || charHeight == 0 ==> width == FallbackWidth && height == FallbackHeight)
      && (charWidth != 0 && charHeight != 0 ==>
            width == innerWidth / charWidth && height == innerHeight / charHeight)
      && k1 == Scale(width)
    }

    /** Script start-up: angles at zero, no drag, and a first screen measurement. */
    constructor (charWidth: nat, charHeight: nat, innerWidth: nat, innerHeight: nat)
      ensures Valid() && Measured(charWidth, charHeight, innerWidth, innerHeight)
      ensures ControlState() == Controls(0.0, 0.0, false, 0.0, 0.0)
    {
      a, b := 0.0, 0.0;
      isDragging := false;
      lastMouseX, lastMouseY := 0.0, 0.0;
      new;
      UpdateDimensions(charWidth, charHeight, innerWidth, innerHeight);
    }

    /** Recompute the screen size in character cells from the measured character cell and
      window, falling back to 80 x 40 when the cell measures zero, and the projection scale
      with it. The result depends on the four measures only. */
    method UpdateDimensions(charWidth: nat, charHeight: nat, innerWidth: nat, innerHeight: nat)
      modifies this`width, this`height, this`k1
      ensures Valid() && Measured(charWidth, charHeight, innerWidth, innerHeight)
    {
      if charWidth == 0 || charHeight == 0 {
        width := FallbackWidth;
        height := FallbackHeight;
      } else {
        FloorOfQuotient(innerWidth, charWidth);
        FloorOfQuotient(innerHeight, charHeight);
        width := ((innerWidth as real) / (charWidth as real)).Floor;
        height := ((innerHeight as real) / (charHeight as real)).Floor;
      }
      k1 := Scale(width);
    }

    /** One render pass over the surface parameters thetas x phis (the values the source's
        loops visit). A screen without cells shows the placeholder and leaves the angles
        alone; otherwise the pass shows the composited frame and then ticks the angles. */
    method RenderFrame(trig: Trig, thetas: seq<real>, phis: seq<real>) returns (text: string)
      requires Valid() && trig.Valid()
      modifies this`a, this`b
      ensures Valid()
      ensures width <= 0 || height <= 0 ==> text == Placeholder && ControlState() == old(ControlState())
      ensures width > 0 && height > 0 ==>
                && text == Picture(trig, old(a), old(b), thetas, phis, width, height, k1)
                && ControlState() == Step(old(ControlState()), Tick)
    {
      var size := if width > 0 && height > 0 then width * height else 0;
      if width > 0 && height > 0 {
        PositiveProduct(width, height);
      }
      if size == 0 {
        text := Placeholder;
        return;
      }
      var depth, glyph := ClearBuffers(size);
      DrawSweep(depth, glyph, trig, a, b, thetas, phis, width, height, k1);
      text := Serialise(glyph, width, height);
      a := a + 0.04;
      b := b + 0.02;
    }

    /** Window resize: remeasure the screen, then render at once. */
    method OnResize(charWidth: nat, charHeight: nat, innerWidth: nat, innerHeight: nat,
                    trig: Trig, thetas: seq<real>, phis: seq<real>) returns (text: string)
      requires trig.Valid()
      modifies this`width, this`height, this`k1, this`a, this`b
      ensures Valid() && Measured(charWidth, charHeight, innerWidth, innerHeight)
      ensures width <= 0 || height <= 0 ==> text == Placeholder && ControlState() == old(ControlState())
      ensures width > 0 && height > 0 ==>
                && text == Picture(trig, old(a), old(b), thetas, phis, width, height, k1)
                && ControlState() == Step(old(ControlState()), Tick)
    {
      UpdateDimensions(charWidth, charHeight, innerWidth, innerHeight);
      text := RenderFrame(trig, thetas, phis);
    }

    /** Mouse press: start a drag anchored at the pointer. */
    method MouseDown(x: real, y: real)
      modifies this`isDragging, this`lastMouseX, this`lastMouseY
      ensures ControlState() == Step(old(ControlState()), Press(x, y))
    {
      isDragging := true;
      lastMouseX := x;
      lastMouseY := y;
    }

    /** Mouse move: while dragging, turn B and A by a hundredth of the pointer's movement
        since the anchor, then re-anchor. */
    method MouseMove(x: real, y: real)
      modifies this`a, this`b, this`lastMouseX, this`lastMouseY
      ensures ControlState() == Step(old(ControlState()), Move(x, y))
    {
      if isDragging {
        var deltaX := x - lastMouseX;
        var deltaY := y - lastMouseY;
        b := b + deltaX / 100.0;
        a := a + deltaY / 100.0;
        lastMouseX := x;
        lastMouseY := y;
      }
    }

    /** Mouse release: end any drag. */
    method MouseUp()
      modifies this`isDragging
      ensures ControlState() == Step(old(ControlState()), Release)
    {
      if isDragging {
        isDragging := false;
      }
    }

    /** Pointer leaving the window: end any drag. */
    method MouseLeave()
      modifies this`isDragging
      ensures ControlState() == Step(old(ControlState()), Leave)
    {
      if isDragging {
        isDragging := false;
      }
    }
  }
}
