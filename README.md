# ASCII donut renderer, modelled in Dafny

This project models the page script `donut.js`. The script draws a rotating torus as ASCII art
into a character grid. For each surface point (theta, phi) it computes a rotated 3-D point, its
reciprocal depth `ooz`, a screen cell and a luminance. It keeps, per cell, only the nearest lit
point: a depth buffer `b` and a glyph buffer `z`. It then serialises the glyph buffer into a
newline-delimited string and advances the rotation angles A and B. The script also recomputes
the screen size in characters and the projection scale `K1` on resize, and turns A and B while
the mouse is dragged.

Modules:

- `Projection` (`projection.dfy`): the per-sample arithmetic as pure functions over reals. Every
  angle enters as its (cos, sin) pair. The source's formulas are proved equal to three plane
  rotations of the tube's cross-section. From that follow two facts: every surface point is at
  depth at least 2, so `ooz` lies in (0, 1/2]; and the luminance is at most sqrt 2, so the ramp
  index `floor(L1*8)` of a lit point always lies in 0..11.
- `FrameBuffer` (`framebuffer.dfy`): the render pass on values. `Plot` is the depth test of one
  sample and `Composite` folds it over a sample sequence. `Layout` is the serialised text. The
  lemmas cover nearest-wins compositing, monotone depths and the shape of the text.
- `Interaction` (`interaction.dfy`): the drag state machine and the animation tick as a
  transition function on (A, B, isDragging, lastMouseX, lastMouseY), with its lemmas.
- `Donut` (`donut.dfy`): class `Viewer`. Its fields are the script's globals, and its methods
  update them in place: `RenderFrame`, `UpdateDimensions`, the resize handler and the four mouse
  handlers. The render pass works on two arrays. It is proved to produce exactly
  `Layout(Composite(Blank(W*H), Sweep(...)))`. Each handler is proved to make exactly one
  `Interaction.Step`.

Three details of the code that the model reproduces as written:

- Samples are not checked against the screen rectangle. Only the linear index `xp + W*yp` must
  fall inside the buffer; the script gets this from `ooz > undefined` being false. A sample past
  the right edge is drawn into the next row (`FrameBuffer.OffScreenColumnWraps`).
- The serialiser writes a line break instead of the glyph of every cell whose index is a
  multiple of W. So each of the H lines shows W-1 glyphs, and column 0 is never displayed
  (`FrameBuffer.LayoutRow`).
- The ramp index is not clamped. It never needs to be: `Projection.GlyphIndex` is total on the
  luminances the geometry can produce.

## Model

| member | source | states |
|---|---|---|
| Projection.Rotated | donut.js:47-49 | defines the rotated surface point (x_, y_, z_) term for term as the source writes it, z_ including the viewer distance K2 |
| Projection.Luminance | donut.js:57 | defines the luminance L1 term for term as the source writes it |
| Projection.RotatedIsOrient | donut.js:43-49 | the source's x_, y_, z_ are the cross-section point (R2 + R1 cos theta, R1 sin theta, 0) turned by phi, then A, then B, and moved K2 back |
| Projection.LuminanceIsNormalDotLight | donut.js:57 | L1 is the dot product of the surface normal, under the same rotations, with the light direction (0, 1, -1) |
| Projection.OrientKeepsLength | donut.js:46-49 | the three rotations applied to the surface point preserve its length |
| Projection.DepthAtLeastTwo | donut.js:49-50 | every surface point has z_ >= K2 - (R1 + R2) = 2, so 1/z_ is always defined |
| Projection.LuminanceBelowOneAndAHalf | donut.js:57 | L1 * L1 <= 2, hence L1 < 1.5 |
| Projection.Project | donut.js:43-57 | each sample has 0 < ooz <= 1/2 and luminance below 1.5 |
| Projection.Scale | donut.js:122 | K1 = W*K2*3/(8*(R1+R2)) equals W*15/24 |
| Projection.GlyphIndex | donut.js:62 | for 0 < L1 < 1.5, floor(L1*8) is a valid index into the 12-glyph ramp |
| Projection.GlyphIndexMonotone | donut.js:62-63 | a brighter sample never gets a sparser glyph |
| Projection.Glyph | donut.js:63 | every written glyph is a ramp character, never a blank or a line break |
| FrameBuffer.Blank | donut.js:25-28 | the cleared buffers: W*H cells, parallel, every depth 0 and every glyph blank |
| FrameBuffer.Plot | donut.js:58-64 | a lit sample whose index xp + W*yp is in the buffer and whose ooz exceeds b[idx] writes ooz and its ramp glyph there; one sample changes at most that cell; an unlit sample, an out-of-buffer index, or ooz <= b[idx] leaves both buffers unchanged; no depth decreases |
| FrameBuffer.Composite | donut.js:35-67 | folding the samples keeps the depth and glyph buffers parallel and of unchanged size |
| FrameBuffer.NearestWins | donut.js:58-64 | after a frame, b[i] is the largest positive ooz among lit samples aimed at i (0 if none); z[i] is blank if none, else the glyph of the earliest sample reaching that depth |
| FrameBuffer.DepthNeverDecreases | donut.js:59-61 | a cell's depth after any prefix of the samples is at most its depth after all of them |
| FrameBuffer.UnlitLeavesBuffers | donut.js:58 | samples that all have L1 <= 0 leave both buffers exactly as they were |
| FrameBuffer.CompositeStaysPrintable | donut.js:25-28 | starting from blank cells, every cell ends blank or holding a ramp glyph |
| FrameBuffer.OffScreenColumnWraps | donut.js:53-60 | a lit, nearer sample with W <= xp < 2W is drawn at column xp - W of row yp + 1 |
| FrameBuffer.Layout | donut.js:70-73 | defines the serialised text: one character per cell, a line break at every index that is a multiple of W and the cell's glyph elsewhere; for printable glyphs a character is a line break iff its index is a multiple of W |
| FrameBuffer.LayoutRow | donut.js:70-73 | row r of the text is a line break at index r*W, followed by the glyphs of columns 1..W-1 of that row |
| FrameBuffer.LayoutLineBreaks | donut.js:70-73 | the text has length W*H, starts with a line break and holds exactly H line breaks |
| Interaction.Step | donut.js:152-196 | defines one transition of the four mouse handlers and of the tick at donut.js:76-77; a drag is active afterwards iff the event is a press or it was active and the event is a move or tick; only a tick or a move during a drag turns A and B |
| Interaction.ReleaseEndsDrag | donut.js:182-196 | release and leave both only clear isDragging, have the same effect, and are idempotent |
| Interaction.TickCommutesWithMove | donut.js:76-77 | the automatic tick and a drag move compose additively, in either order |
| Interaction.IdleIgnoresMoves | donut.js:160-161 | without an active drag, any number of moves changes nothing |
| Interaction.DragTelescopes | donut.js:160-171 | during a drag, B grows by (xn - x_anchor)/100 and A by (yn - y_anchor)/100 to the last move, plus 0.02 and 0.04 per tick, and the anchor ends at the last move |
| Interaction.PressThenDrag | donut.js:152-171 | after a press at (x0, y0) and moves ending at (xn, yn), B grew by (xn - x0)/100 and A by (yn - y0)/100, plus the tick increments |
| Donut.Row | donut.js:39-57 | the inner loop yields one sample per phi, each with luminance below 1.5 |
| Donut.Sweep | donut.js:35-57 | every sample of a frame has luminance below 1.5 |
| Donut.Picture | donut.js:25-73 | defines the text of one render pass: the sweep's samples composited into cleared W*H buffers, then serialised; it has W*H characters |
| Donut.PictureShape | donut.js:70-73 | a drawn frame has W*H characters, starts with a line break and holds H line breaks |
| Donut.FloorOfQuotient | donut.js:113-114 | Math.floor of the window size over the character size is integer division |
| Donut.ClearBuffers | donut.js:25-28 | after the clear loop every cell has depth 0 and glyph ' ' |
| Donut.PlotSample | donut.js:58-64 | the in-place depth test and write performs exactly `Plot` on the arrays |
| Donut.DrawRow | donut.js:39-66 | the phi loop composites the samples of one theta in order |
| Donut.DrawSweep | donut.js:35-67 | the nested theta/phi loops composite all samples of the frame in order |
| Donut.Serialise | donut.js:70-73 | the text equals `Layout` of the glyph buffer: character k is a line break when k % W == 0 and glyph z[k] otherwise |
| Donut.Viewer.constructor | donut.js:4 | at start-up A = B = 0, no drag, anchor (0, 0), and the screen is measured as by UpdateDimensions |
| Donut.Viewer.UpdateDimensions | donut.js:103-122 | 80x40 when either character dimension is 0, otherwise the window size divided by the character size, rounded down; K1 is recomputed for the new W; the result depends on the four measures only |
| Donut.Viewer.RenderFrame | donut.js:7-78 | with W <= 0 or H <= 0: the placeholder text, with A and B unchanged; otherwise the composited frame serialised, then A += 0.04 and B += 0.02 exactly once |
| Donut.Viewer.OnResize | donut.js:138-144 | remeasure, then render at once, with the guarantees of both |
| Donut.Viewer.MouseDown | donut.js:152-158 | starts a drag anchored at the pointer |
| Donut.Viewer.MouseMove | donut.js:160-180 | while dragging, B += dx/100 and A += dy/100 and the anchor moves to the pointer; otherwise nothing changes |
| Donut.Viewer.MouseUp | donut.js:182-188 | ends any drag, nothing else changes |
| Donut.Viewer.MouseLeave | donut.js:190-196 | ends any drag, nothing else changes |

## Left out

- `getCharDimensions` (donut.js:87-99) measures a DOM element. Its two results, and the window's inner width and height, are parameters of `UpdateDimensions`.
- `Math.cos` and `Math.sin` are a parameter `Trig`. The model relies only on cos^2 + sin^2 = 1 for them.
- The loops `theta += 0.07` and `phi += 0.02` run up to 2*pi in floating point. They are modelled by the sequences of angle values they visit (`thetas`, `phis`), given as parameters. The sample count is not modelled.
- Numbers are exact reals and integers, not IEEE doubles. So rounding of the projection, of the luminance, and of the angle increments 0.04, 0.02 and dx/100 is not modelled. `Infinity` and `NaN` cannot arise: the depth is proved to be at least 2.
- A ramp index of 12 or more would make the script write the string "undefined" into the buffer. The model does not represent this case: it is proved impossible for samples of the torus (`Projection.GlyphIndex`, `Projection.Project`).
- `screenWidth` and `screenHeight` are `undefined` only before the first `updateDimensions` call, which runs at start-up. So in the model they are always integers, and the guard `bufferSize === 0` reduces to W <= 0 or H <= 0.
- Pointer coordinates are reals; the DOM event objects are reduced to them.
- `setInterval`, `addEventListener`, `console` logging, the cursor style and the assignment to `preTag.textContent` are host plumbing. The displayed text is the string that `RenderFrame` returns.
- `nuxt-app-donut/plugins/face-api.client.js` fetches and loads a third-party face-detection model over the network, which is foreign I/O. `nuxt-app-donut/nuxt.config.ts` is declarative framework configuration with no behaviour.
