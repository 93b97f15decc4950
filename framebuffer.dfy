/** The frame buffer of one render pass, as values: nearest-wins compositing of samples
    into a depth buffer and a glyph buffer, and the newline-delimited text the buffer is
    serialised to. The imperative render pass in module Donut is proved to compute exactly
    these functions; the lemmas here say what they mean. */
module FrameBuffer {
  import opened Projection

  /** The two parallel buffers: reciprocal depth (larger is nearer, 0 is "nothing drawn")
      and glyph, one entry per screen cell in row-major order. */
  datatype Frame = Frame(depth: seq<real>, glyph: seq<char>) {
    predicate Parallel() { |depth| == |glyph| }
  }

  /** The buffers as the start of every frame leaves them. */
  function Blank(n: nat): (f: Frame)
    ensures f.Parallel() && |f.depth| == n && Printable(f.glyph)
    ensures forall j :: 0 <= j < n ==> f.depth[j] == 0.0
  {
    Frame(seq(n, _ => 0.0), seq(n, _ => ' '))
  }

  /** A sample facing the light. */
  predicate Lit(s: Sample) { s.lum > 0.0 }

  /** The linear buffer index of a sample; neither coordinate is checked against the screen. */
  function Cell(s: Sample, width: int): int { s.xp + width * s.yp }

  /** A lit sample aimed at cell i. */
  predicate Hits(s: Sample, width: int, i: int) { Lit(s) && Cell(s, width) == i }

  /** Every sample's luminance lies below the end of the ramp, as Project guarantees. */
  predicate Drawable(ss: seq<Sample>) { forall k :: 0 <= k < |ss| ==> ss[k].lum < 1.5 }

  /** Every cell is blank or holds a ramp glyph. */
  predicate Printable(glyph: seq<char>) { forall j :: 0 <= j < |glyph| ==> glyph[j] == ' ' || glyph[j] in Ramp }

  /** The depth test and write of one sample. A cell outside the buffer is never written:
      the source relies on an absent array entry comparing false. */
  function Plot(f: Frame, s: Sample, width: int): (g: Frame)
    requires f.Parallel() && s.lum < 1.5
    ensures g.Parallel() && |g.depth| == |f.depth|
    ensures forall j :: 0 <= j < |f.depth| && j != Cell(s, width) ==>
              g.depth[j] == f.depth[j] && g.glyph[j] == f.glyph[j]
    ensures forall j :: 0 <= j < |f.depth| ==> f.depth[j] <= g.depth[j]
    ensures !Lit(s) || !(0 <= Cell(s, width) < |f.depth|) || s.ooz <= f.depth[Cell(s, width)] ==> g == f
    ensures Lit(s) && 0 <= Cell(s, width) < |f.depth| && s.ooz > f.depth[Cell(s, width)] ==>
              g.depth[Cell(s, width)] == s.ooz && g.glyph[Cell(s, width)] == Glyph(s.lum)
  {
    if Lit(s) then
      var idx := Cell(s, width);
      if 0 <= idx < |f.depth| && s.ooz > f.depth[idx] then
        Frame(f.depth[idx := s.ooz], f.glyph[idx := Glyph(s.lum)])
      else
        f
    else
      f
  }

  /** The buffers after plotting the samples ss in order. */
  function Composite(f: Frame, ss: seq<Sample>, width: int): (g: Frame)
    requires f.Parallel() && Drawable(ss)
    ensures g.Parallel() && |g.depth| == |f.depth|
    decreases |ss|
  {
    if ss == [] then f else Plot(Composite(f, ss[..|ss| - 1], width), ss[|ss| - 1], width)
  }

  lemma CompositeSnoc(f: Frame, ss: seq<Sample>, s: Sample, width: int)
    requires f.Parallel() && Drawable(ss) && s.lum < 1.5
    ensures Drawable(ss + [s])
    ensures Composite(f, ss + [s], width) == Plot(Composite(f, ss, width), s, width)
  {
    assert (ss + [s])[..|ss|] == ss;
  }

  /** No screen bounds are checked: a lit sample up to one screen width past the right edge
      of row yp is drawn at the corresponding column of row yp + 1, when that cell exists. */
  lemma OffScreenColumnWraps(f: Frame, s: Sample, width: int)
    requires f.Parallel() && 0.0 < s.lum < 1.5 && width <= s.xp < 2 * width
    requires 0 <= Cell(s, width) < |f.depth| && s.ooz > f.depth[Cell(s, width)]
    ensures Cell(s, width) == (s.yp + 1) * width + (s.xp - width)
    ensures Plot(f, s, width).glyph[(s.yp + 1) * width + (s.xp - width)] == Glyph(s.lum)
  {
  }

  /** Plotting two runs of samples one after the other is plotting their concatenation. */
  lemma {:induction false} CompositeAppend(f: Frame, xs: seq<Sample>, ys: seq<Sample>, width: int)
    requires f.Parallel() && Drawable(xs) && Drawable(ys)
    ensures Drawable(xs + ys)
    ensures Composite(f, xs + ys, width) == Composite(Composite(f, xs, width), ys, width)
    decreases |ys|
  {
    if ys == [] {
      assert xs + ys == xs;
    } else {
      var init, y := ys[..|ys| - 1], ys[|ys| - 1];
      assert ys == init + [y];
      assert xs + ys == (xs + init) + [y];
      CompositeAppend(f, xs, init, width);
      CompositeSnoc(f, xs + init, y, width);
      CompositeSnoc(Composite(f, xs, width), init, y, width);
    }
  }

  /** What nearest-wins compositing of ss leaves in cell i: depth d is the largest positive
      reciprocal depth among the lit samples aimed at i (0 if there is none), and glyph c is
      blank if there is none and otherwise the glyph of the earliest sample reaching d. */
  ghost predicate NearestIn(ss: seq<Sample>, width: int, i: int, d: real, c: char)
    requires Drawable(ss)
  {
    && d >= 0.0
    && (forall k :: 0 <= k < |ss| && Hits(ss[k], width, i) ==> ss[k].ooz <= d)
    && (d == 0.0 ==> c == ' ')
    && (d > 0.0 ==> exists k :: 0 <= k < |ss| && Hits(ss[k], width, i) && ss[k].ooz == d
                                && c == Glyph(ss[k].lum)
                                && forall j :: 0 <= j < k && Hits(ss[j], width, i) ==> ss[j].ooz < d)
  }

  /** Nearest-wins: after compositing from blank buffers, every cell holds the depth and
      glyph of its nearest lit sample, the earliest one on a tie. */
  lemma {:induction false} NearestWins(n: nat, ss: seq<Sample>, width: int, i: int)
    requires Drawable(ss) && 0 <= i < n
    ensures var g := Composite(Blank(n), ss, width);
            NearestIn(ss, width, i, g.depth[i], g.glyph[i])
  {
    if ss != [] {
      var m := |ss| - 1;
      var pre, x := ss[..m], ss[m];
      NearestWins(n, pre, width, i);
      var f := Composite(Blank(n), pre, width);
      var g := Composite(Blank(n), ss, width);
      assert g == Plot(f, x, width);
      var d', c' := f.depth[i], f.glyph[i];
      if Hits(x, width, i) && x.ooz > d' {
        assert g.depth[i] == x.ooz && g.glyph[i] == Glyph(x.lum);
        assert forall k :: 0 <= k < m ==> ss[k] == pre[k];
        assert Hits(ss[m], width, i) && ss[m].ooz == g.depth[i];
      } else {
        assert g.depth[i] == d' && g.glyph[i] == c';
        assert forall k :: 0 <= k < m ==> ss[k] == pre[k];
        if d' > 0.0 {
          var k :| 0 <= k < |pre| && Hits(pre[k], width, i) && pre[k].ooz == d'
                   && c' == Glyph(pre[k].lum)
                   && forall j :: 0 <= j < k && Hits(pre[j], width, i) ==> pre[j].ooz < d';
          assert ss[k] == pre[k];
        }
      }
    }
  }

  /** Depths never decrease within a frame: a cell's depth after any prefix of the samples
      is at most its depth after all of them. */
  lemma {:induction false} DepthNeverDecreases(f: Frame, ss: seq<Sample>, m: nat, width: int, j: int)
    requires f.Parallel() && Drawable(ss) && m <= |ss| && 0 <= j < |f.depth|
    ensures Drawable(ss[..m])
    ensures Composite(f, ss[..m], width).depth[j] <= Composite(f, ss, width).depth[j]
  {
    if m < |ss| {
      var pre := ss[..|ss| - 1];
      assert pre[..m] == ss[..m];
      DepthNeverDecreases(f, pre, m, width, j);
    } else {
      assert ss[..m] == ss;
    }
  }

  /** Samples that all face away from the light leave the buffers exactly as they were. */
  lemma {:induction false} UnlitLeavesBuffers(f: Frame, ss: seq<Sample>, width: int)
    requires f.Parallel() && Drawable(ss)
    requires forall k :: 0 <= k < |ss| ==> !Lit(ss[k])
    ensures Composite(f, ss, width) == f
  {
    if ss != [] {
      UnlitLeavesBuffers(f, ss[..|ss| - 1], width);
    }
  }

  /** Compositing only ever writes ramp glyphs. */
  lemma {:induction false} CompositeStaysPrintable(f: Frame, ss: seq<Sample>, width: int)
    requires f.Parallel() && Drawable(ss) && Printable(f.glyph)
    ensures Printable(Composite(f, ss, width).glyph)
  {
    if ss != [] {
      CompositeStaysPrintable(f, ss[..|ss| - 1], width);
    }
  }

  /** The serialised frame: the character at flat index k is a line break when k is a
      multiple of the width, and the glyph of cell k otherwise. Column 0 is thereby never
      shown. */
  function Layout(glyph: seq<char>, width: int): (text: string)
    requires width > 0
    ensures |text| == |glyph|
    ensures Printable(glyph) ==> forall k :: 0 <= k < |text| ==> (text[k] == '\n' <==> k % width == 0)
  {
    seq(|glyph|, k requires 0 <= k < |glyph| => if k % width == 0 then '\n' else glyph[k])
  }

  function Newlines(s: string): nat
  {
    if s == [] then 0 else Newlines(s[..|s| - 1]) + (if s[|s| - 1] == '\n' then 1 else 0)
  }

  lemma {:induction false} NewlinesAppend(s: string, t: string)
    ensures Newlines(s + t) == Newlines(s) + Newlines(t)
  {
    if t != [] {
      var init := t[..|t| - 1];
      assert (s + t)[..|s + t| - 1] == s + init;
      calc {
        Newlines(s + t);
        Newlines(s + init) + (if t[|t| - 1] == '\n' then 1 else 0);
        { NewlinesAppend(s, init); }
        Newlines(s) + Newlines(init) + (if t[|t| - 1] == '\n' then 1 else 0);
        Newlines(s) + Newlines(t);
      }
    } else {
      assert s + t == s;
    }
  }

  lemma {:induction false} NoNewlines(s: string)
    requires forall j :: 0 <= j < |s| ==> s[j] != '\n'
    ensures Newlines(s) == 0
  {
    if s != [] {
      NoNewlines(s[..|s| - 1]);
    }
  }

  lemma MulAtLeast(p: int, w: int)
    requires w > 0 && p >= 1
    ensures p * w >= w
  {
  }

  /** Cell m of row r has flat index r * width + m, whose remainder is its column. */
  lemma RowOffset(r: nat, width: int, m: int)
    requires width > 0 && 0 <= m < width
    ensures (r * width + m) % width == m
  {
    var a := r * width + m;
    var q, k := a / width, a % width;
    assert a == q * width + k;
    assert 0 <= k < width;
    assert (q - r) * width == m - k;
    if q > r {
      MulAtLeast(q - r, width);
    } else if q < r {
      MulAtLeast(r - q, width);
    }
  }

  lemma RowFits(width: int, height: nat, r: nat)
    requires width > 0 && r < height
    ensures r * width + width <= height * width
  {
    assert r * width + width == (r + 1) * width;
    assert (height - (r + 1)) * width >= 0;
  }

  /** Row r of the serialised frame: a line break followed by the glyphs of columns 1 to
      width - 1 of that row, so each displayed line holds width - 1 characters. */
  lemma LayoutRow(glyph: seq<char>, width: int, height: nat, r: nat)
    requires width > 0 && |glyph| == width * height && r < height
    ensures r * width + width <= |glyph|
    ensures Layout(glyph, width)[r * width] == '\n'
    ensures Layout(glyph, width)[r * width + 1 .. r * width + width] == glyph[r * width + 1 .. r * width + width]
  {
    var text := Layout(glyph, width);
    var base := r * width;
    RowFits(width, height, r);
    RowOffset(r, width, 0);
    forall k | base + 1 <= k < base + width
      ensures text[k] == glyph[k]
    {
      RowOffset(r, width, k - base);
    }
  }

  /** The first r rows of the serialised frame hold exactly r line breaks. */
  lemma {:induction false} LineBreaksBeforeRow(glyph: seq<char>, width: int, height: nat, r: nat)
    requires width > 0 && |glyph| == width * height && Printable(glyph) && r <= height
    ensures r * width <= |glyph|
    ensures Newlines(Layout(glyph, width)[..r * width]) == r
  {
    var text := Layout(glyph, width);
    if r == 0 {
      assert text[..0] == [];
    } else {
      var base := (r - 1) * width;
      assert base + width == r * width;
      LineBreaksBeforeRow(glyph, width, height, r - 1);
      LayoutRow(glyph, width, height, r - 1);
      var rest := glyph[base + 1 .. base + width];
      var row := text[base .. base + width];
      assert row == ['\n'] + rest;
      NoNewlines(rest);
      NewlinesAppend(['\n'], rest);
      assert Newlines(['\n']) == 1 by { assert ['\n'][..0] == []; }
      assert text[..base + width] == text[..base] + row;
      NewlinesAppend(text[..base], row);
    }
  }

  /** The serialised frame holds exactly one line break per row, the first of them at the
      very start, and its length is the number of cells. */
  lemma LayoutLineBreaks(glyph: seq<char>, width: int, height: nat)
    requires width > 0 && |glyph| == width * height && Printable(glyph)
    ensures |Layout(glyph, width)| == width * height
    ensures height > 0 ==> Layout(glyph, width)[0] == '\n'
    ensures Newlines(Layout(glyph, width)) == height
  {
    var text := Layout(glyph, width);
    LineBreaksBeforeRow(glyph, width, height, height);
    assert text[..height * width] == text;
    if height > 0 {
      LayoutRow(glyph, width, height, 0);
    }
  }
}
