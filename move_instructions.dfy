/**
  The direction advisor: maps the brightest pixel of a frame and the frame's
  shape to one of six instructions, through an ordered chain of tests
  (horizontal before vertical, then "hold").
*/
module MoveInstructions {
  import opened Wrappers
  import opened Pixels

  /** The closed set of answers; `Text` gives the string the source returns for each. */
  datatype Instruction = NoGlare | MoveLeft | MoveRight | TiltUp | TiltDown | HoldStill

  /** The moves, and only they, begin "Move phone "; the tilts, and only
      they, begin "Tilt phone ". */
  function Text(i: Instruction): (s: string)
    ensures (i == MoveLeft || i == MoveRight) <==> |s| >= 11 && s[..11] == "Move phone "
    ensures (i == TiltUp || i == TiltDown) <==> |s| >= 11 && s[..11] == "Tilt phone "
  {
    match i
    case NoGlare =>
      assert "No glare detected"[..11][0] == 'N';
      "No glare detected"
    case MoveLeft =>
      assert "Move phone LEFT"[..11][0] == 'M';
      "Move phone LEFT"
    case MoveRight =>
      assert "Move phone RIGHT"[..11][0] == 'M';
      "Move phone RIGHT"
    case TiltUp =>
      assert "Tilt phone UP"[..11][0] == 'T';
      "Tilt phone UP"
    case TiltDown =>
      assert "Tilt phone DOWN"[..11][0] == 'T';
      "Tilt phone DOWN"
    case HoldStill =>
      assert "Hold still — glare centered"[..11][0] == 'H';
      "Hold still — glare centered"
  }

  /** A frame shape in the source's order: rows first, then columns. */
  datatype Shape = Shape(h: int, w: int)

  /** The dead zone is 20% of the frame's width (height) on each side of the centre. */
  const DeadZoneFraction: real := 0.2

  /** Python's floor division `n // 2`. */
  function Half(n: int): (c: int)
    ensures 2 * c <= n < 2 * c + 2
  {
    n / 2
  }

  function CenterX(s: Shape): int { Half(s.w) }
  function CenterY(s: Shape): int { Half(s.h) }
  function ZoneX(s: Shape): real { s.w as real * DeadZoneFraction }
  function ZoneY(s: Shape): real { s.h as real * DeadZoneFraction }

  predicate LeftOfZone(p: Pixel, s: Shape) { (p.x as real) < (CenterX(s) as real) - ZoneX(s) }
  predicate RightOfZone(p: Pixel, s: Shape) { (p.x as real) > (CenterX(s) as real) + ZoneX(s) }
  predicate AboveZone(p: Pixel, s: Shape) { (p.y as real) < (CenterY(s) as real) - ZoneY(s) }
  predicate BelowZone(p: Pixel, s: Shape) { (p.y as real) > (CenterY(s) as real) + ZoneY(s) }

  /** x lies within the horizontal dead band (both ends inclusive). */
  predicate InHorizontalBand(p: Pixel, s: Shape) { !LeftOfZone(p, s) && !RightOfZone(p, s) }

  /** x and y both lie within their dead bands. */
  predicate InDeadZone(p: Pixel, s: Shape)
  {
    InHorizontalBand(p, s) && !AboveZone(p, s) && !BelowZone(p, s)
  }

  /** get_move_instruction: the first test that fires decides the answer. */
  function Advise(glarePos: Option<Pixel>, shape: Shape): (r: Instruction)
    ensures r == NoGlare <==> glarePos.None?
  {
    match glarePos
    case None => NoGlare
    case Some(p) =>
      if LeftOfZone(p, shape) then MoveLeft
      else if RightOfZone(p, shape) then MoveRight
      else if AboveZone(p, shape) then TiltUp
      else if BelowZone(p, shape) then TiltDown
      else HoldStill
  }

  /** The six answers are six different strings, so the string alone identifies the instruction. */
  lemma TextInjective(i: Instruction, j: Instruction)
    requires i != j
    ensures Text(i) != Text(j)
  {
  }

  /** A glare left of the band is LEFT, whatever its row. */
  lemma LeftIff(p: Pixel, s: Shape)
    ensures Advise(Some(p), s) == MoveLeft <==> LeftOfZone(p, s)
  {
  }

  /** For a frame of non-negative width the two horizontal tests cannot both hold,
      so RIGHT is exactly "right of the band". */
  lemma RightIff(p: Pixel, s: Shape)
    requires s.w >= 0
    ensures !(LeftOfZone(p, s) && RightOfZone(p, s))
    ensures Advise(Some(p), s) == MoveRight <==> RightOfZone(p, s)
  {
  }

  /** The vertical answers appear only for a glare inside the horizontal band. */
  lemma VerticalOnlyInsideBand(p: Pixel, s: Shape)
    ensures Advise(Some(p), s) in {TiltUp, TiltDown, HoldStill} <==> InHorizontalBand(p, s)
  {
  }

  lemma TiltUpIff(p: Pixel, s: Shape)
    ensures Advise(Some(p), s) == TiltUp <==> InHorizontalBand(p, s) && AboveZone(p, s)
  {
  }

  lemma TiltDownIff(p: Pixel, s: Shape)
    requires s.h >= 0
    ensures Advise(Some(p), s) == TiltDown <==> InHorizontalBand(p, s) && BelowZone(p, s)
  {
  }

  /** HOLD is exactly the dead zone. */
  lemma HoldIffDeadZone(p: Pixel, s: Shape)
    ensures Advise(Some(p), s) == HoldStill <==> InDeadZone(p, s)
  {
  }

  /** Outside the horizontal band the row does not matter (horizontal checks come first). */
  lemma HorizontalPriority(x: int, y1: int, y2: int, s: Shape)
    requires !InHorizontalBand(Pixel(x, y1), s)
    ensures Advise(Some(Pixel(x, y1)), s) == Advise(Some(Pixel(x, y2)), s)
    ensures Advise(Some(Pixel(x, y1)), s) in {MoveLeft, MoveRight}
  {
  }

  /** Inside the horizontal band the column does not matter. */
  lemma BandIgnoresColumn(x1: int, x2: int, y: int, s: Shape)
    requires InHorizontalBand(Pixel(x1, y), s) && InHorizontalBand(Pixel(x2, y), s)
    ensures Advise(Some(Pixel(x1, y)), s) == Advise(Some(Pixel(x2, y)), s)
  {
  }

  /** A glare exactly at the floor-divided centre of a frame is HOLD. */
  lemma CenterHolds(s: Shape)
    requires s.h >= 0 && s.w >= 0
    ensures Advise(Some(Pixel(CenterX(s), CenterY(s))), s) == HoldStill
  {
  }

  /** The corner (0, 0) of a 100 x 100 frame is LEFT, although it is also above the band. */
  lemma OriginOfSquareFrameIsLeft()
    ensures AboveZone(Pixel(0, 0), Shape(100, 100))
    ensures Advise(Some(Pixel(0, 0)), Shape(100, 100)) == MoveLeft
  {
  }
}
