/** Text metrics and font identity from `Font.h`: the measured extent of a
    run of text (`Font::TextSize`), the identity of a loaded font
    (`Font::Info`) and the blank glyph. Coordinates are unbounded integers
    here; see `TextSizeFitsS32` for when the source's `s32` results are
    exact. */
module Font {

  datatype Vec2i = Vec2i(x: int, y: int)

  /** A measured text run: the pen started at `anchor`, ink spans
      `start`..`end` on the x axis, the pen stops at `next`. */
  datatype TextSize = TextSize(anchor: Vec2i, start: int, end: int, next: int, height: int) {

    function Width(): int { end - start }

    function Height(): int { height }

    function Advance(): int { next - anchor.x }

    function Head(): int { start - anchor.x }

    function Tail(): int { next - end }

    function Size(): Vec2i { Vec2i(Width(), Height()) }

    /** `operator Vec2i()`. */
    function AsVec2i(): Vec2i { Size() }
  }

  /** Rebuilds a text run from its anchor and its derived metrics: the
      inverse of reading `Head`, `Width`, `Tail` and `Height`. */
  function FromMetrics(anchor: Vec2i, head: int, width: int, tail: int, height: int): (t: TextSize)
    ensures t.anchor == anchor
    ensures t.Head() == head && t.Width() == width && t.Tail() == tail && t.Height() == height
    ensures t.Advance() == head + width + tail
  {
    TextSize(anchor, anchor.x + head, anchor.x + head + width, anchor.x + head + width + tail, height)
  }

  /** The pen advance splits into the leading bearing, the ink width and
      the trailing bearing, for every field value. */
  lemma AdvanceDecomposes(t: TextSize)
    ensures t.Head() + t.Width() + t.Tail() == t.Advance()
    ensures t.AsVec2i() == t.Size() && t.Size().x == t.Width() && t.Size().y == t.Height()
  {
  }

  /** The anchor together with the derived metrics determines the run:
      `FromMetrics` undoes the accessors, and the accessors undo
      `FromMetrics`. */
  lemma MetricsRoundTrip(t: TextSize)
    ensures FromMetrics(t.anchor, t.Head(), t.Width(), t.Tail(), t.Height()) == t
  {
  }

  const S32Min: int := -0x8000_0000
  const S32Max: int := 0x7fff_ffff

  predicate InS32(v: int) { S32Min <= v <= S32Max }

  /** When every stored coordinate lies strictly within +-2^30, each accessor's
      `s32` subtraction cannot overflow, so the unbounded model agrees with
      the 32-bit source. */
  lemma TextSizeFitsS32(t: TextSize)
    requires -0x4000_0000 < t.anchor.x < 0x4000_0000
    requires -0x4000_0000 < t.start < 0x4000_0000
    requires -0x4000_0000 < t.end < 0x4000_0000
    requires -0x4000_0000 < t.next < 0x4000_0000
    requires InS32(t.height)
    ensures InS32(t.Width()) && InS32(t.Height()) && InS32(t.Advance())
    ensures InS32(t.Head()) && InS32(t.Tail())
  {
  }

  /** `Font::Info`: the font file, pixel size and weight. */
  datatype Info = Info(name: string, size: nat, weight: nat)

  /** `Info::operator==`. */
  predicate InfoEquals(a: Info, b: Info) {
    a.name == b.name && a.size == b.size && a.weight == b.weight
  }

  /** `operator==` is exactly structural equality, hence an equivalence
      relation. */
  lemma InfoEqualsIsIdentity(a: Info, b: Info, c: Info)
    ensures InfoEquals(a, b) <==> a == b
    ensures InfoEquals(a, a)
    ensures InfoEquals(a, b) ==> InfoEquals(b, a)
    ensures InfoEquals(a, b) && InfoEquals(b, c) ==> InfoEquals(a, c)
  {
  }

  /** `Font::Glyph`; float fields are modelled as reals. */
  datatype Glyph = Glyph(
    index: nat,
    size: Vec2i,
    drawOffset: Vec2i,
    advance: (real, real),
    lsbDelta: int,
    rsbDelta: int,
    uvStart: (real, real),
    uvEnd: (real, real),
    texture: nat)

  predicate IsBlank(g: Glyph) {
    && g.index == 0 && g.texture == 0
    && g.size == Vec2i(0, 0) && g.drawOffset == Vec2i(0, 0)
    && g.advance == (0.0, 0.0)
    && g.lsbDelta == 0 && g.rsbDelta == 0
    && g.uvStart == (0.0, 0.0) && g.uvEnd == (0.0, 0.0)
  }

  /** The default-constructed glyph. */
  function DefaultGlyph(): (g: Glyph)
    ensures IsBlank(g)
    ensures forall h: Glyph :: IsBlank(h) ==> h == g
  {
    Glyph(0, Vec2i(0, 0), Vec2i(0, 0), (0.0, 0.0), 0, 0, (0.0, 0.0), (0.0, 0.0), 0)
  }

}
