/** The framebuffer compositor of Dxyn: an n-row, 8-column sprite XORed onto the 64x32 screen
    at (xPos, yPos), wrapping at both edges, with the collision flag. */
module Sprite {
  import opened Bits
  import opened MachineState

  /** A pixel that is off, and one that is on (all 32 bits set). */
  const Off: Pixel := 0
  const On: Pixel := 0xFFFF_FFFF

  /** `p ^= 0xFFFFFFFF`: complementing all 32 bits is subtracting from 0xFFFFFFFF. */
  function Toggle(p: Pixel): (q: Pixel)
    ensures q != p && (p == Off <==> q == On) && (p == On <==> q == Off)
  {
    On - p
  }

  /** `(spriteByte & (0x80 >> col)) != 0`: column col of a sprite row is set, which is bit
      7 - col of the byte, so that the most significant bit is drawn leftmost. */
  predicate SpriteBit(b: Byte, col: nat)
    requires col < 8
    ensures SpriteBit(b, col) == Bit(b, 7 - col)
  {
    ColumnMask(col);
    AndPower(b, 7 - col);
    Bitwise(And, b, ShiftRight(0x80, col), 8) != 0
  }

  /** `0x80 >> col` is the single bit 7 - col. */
  lemma ColumnMask(col: nat)
    requires col < 8
    ensures ShiftRight(0x80, col) == Pow2(7 - col)
  {
    assert Pow2(7) == 0x80;
    if col == 0 {} else if col == 1 {} else if col == 2 {} else if col == 3 {}
    else if col == 4 {} else if col == 5 {} else if col == 6 {} else {}
  }

  /** Position in the framebuffer of sprite cell (row, col) drawn at (xPos, yPos). */
  function ScreenIndex(xPos: nat, yPos: nat, row: nat, col: nat): (p: nat)
    ensures p < VideoSize
  {
    ((yPos + row) % VideoHeight) * VideoWidth + (xPos + col) % VideoWidth
  }

  /** The sprite row and column that a draw at (xPos, yPos) would put onto pixel p. */
  function SpriteRow(yPos: nat, p: nat): nat
  {
    (p / VideoWidth - yPos) % VideoHeight
  }

  function SpriteCol(xPos: nat, p: nat): nat
  {
    (p % VideoWidth - xPos) % VideoWidth
  }

  /** Pixel p lies under a set cell of the sprite that the draw reaches before cell (row, col):
      the rows are drawn in order and, within a row, the columns in order. */
  predicate VisitedBefore(sprite: seq<Byte>, xPos: nat, yPos: nat, p: nat, row: nat, col: nat)
  {
    var r, c := SpriteRow(yPos, p), SpriteCol(xPos, p);
    r < |sprite| && c < 8 && SpriteBit(sprite[r], c) && (r < row || (r == row && c < col))
  }

  /** Pixel p lies under a set cell of the sprite. */
  predicate Covered(sprite: seq<Byte>, xPos: nat, yPos: nat, p: nat)
  {
    VisitedBefore(sprite, xPos, yPos, p, |sprite|, 0)
  }

  /** The framebuffer once the draw has reached cell (row, col). */
  function PartialBlit(video: seq<Pixel>, sprite: seq<Byte>, xPos: nat, yPos: nat, row: nat, col: nat): (r: seq<Pixel>)
    ensures |r| == |video|
    ensures forall p :: 0 <= p < |video| ==>
      r[p] == if VisitedBefore(sprite, xPos, yPos, p, row, col) then Toggle(video[p]) else video[p]
  {
    seq(|video|, p requires 0 <= p < |video| =>
      if VisitedBefore(sprite, xPos, yPos, p, row, col) then Toggle(video[p]) else video[p])
  }

  /** The framebuffer after the whole sprite is drawn: each pixel is kept or toggled. */
  function Blit(video: seq<Pixel>, sprite: seq<Byte>, xPos: nat, yPos: nat): (r: seq<Pixel>)
    ensures |r| == |video|
    ensures forall p :: 0 <= p < |video| ==> r[p] == video[p] || r[p] == Toggle(video[p])
  {
    PartialBlit(video, sprite, xPos, yPos, |sprite|, 0)
  }

  /** Some pixel the draw toggles was on before it (VF is then set to 1). */
  predicate Collision(video: seq<Pixel>, sprite: seq<Byte>, xPos: nat, yPos: nat)
  {
    exists p :: 0 <= p < |video| && Covered(sprite, xPos, yPos, p) && video[p] == On
  }

  /** The same, for the pixels toggled before cell (row, col) is reached. */
  predicate CollisionBefore(video: seq<Pixel>, sprite: seq<Byte>, xPos: nat, yPos: nat, row: nat, col: nat)
  {
    exists p :: 0 <= p < |video| && VisitedBefore(sprite, xPos, yPos, p, row, col) && video[p] == On
  }

  /** Every pixel is off or on. */
  predicate Binary(video: seq<Pixel>)
  {
    forall p :: 0 <= p < |video| ==> video[p] == Off || video[p] == On
  }

  /** Split of a pixel position into its screen row and column. */
  lemma RowMajor(q: nat, r: nat)
    requires r < VideoWidth
    ensures (q * VideoWidth + r) / VideoWidth == q && (q * VideoWidth + r) % VideoWidth == r
  {
  }

  /** A cell of a sprite at most one screen high lands on a pixel that maps back to that cell. */
  lemma ScreenIndexInverse(xPos: nat, yPos: nat, row: nat, col: nat)
    requires row < VideoHeight && col < VideoWidth
    ensures SpriteRow(yPos, ScreenIndex(xPos, yPos, row, col)) == row
    ensures SpriteCol(xPos, ScreenIndex(xPos, yPos, row, col)) == col
  {
    RowMajor((yPos + row) % VideoHeight, (xPos + col) % VideoWidth);
  }

  /** Every pixel is the landing place of the cell it maps back to. */
  lemma ScreenIndexOfPixel(xPos: nat, yPos: nat, p: nat)
    requires p < VideoSize
    ensures ScreenIndex(xPos, yPos, SpriteRow(yPos, p), SpriteCol(xPos, p)) == p
  {
  }

  /** Drawing toggles the pixel under each set cell of the sprite. */
  lemma BlitAt(video: seq<Pixel>, sprite: seq<Byte>, xPos: nat, yPos: nat, row: nat, col: nat)
    requires |video| == VideoSize && row < |sprite| <= VideoHeight && col < 8
    requires SpriteBit(sprite[row], col)
    ensures Blit(video, sprite, xPos, yPos)[ScreenIndex(xPos, yPos, row, col)] ==
      Toggle(video[ScreenIndex(xPos, yPos, row, col)])
  {
    ScreenIndexInverse(xPos, yPos, row, col);
  }

  /** Drawing leaves every pixel alone that lies under no set cell of the sprite. */
  lemma BlitElsewhere(video: seq<Pixel>, sprite: seq<Byte>, xPos: nat, yPos: nat, p: nat)
    requires |video| == VideoSize && p < VideoSize
    requires forall row, col :: 0 <= row < |sprite| && 0 <= col < 8 && SpriteBit(sprite[row], col) ==>
      ScreenIndex(xPos, yPos, row, col) != p
    ensures Blit(video, sprite, xPos, yPos)[p] == video[p]
  {
    if Covered(sprite, xPos, yPos, p) {
      ScreenIndexOfPixel(xPos, yPos, p);
    }
  }

  /** VF is set exactly when the pixel under some set cell of the sprite was on. */
  lemma CollisionIff(video: seq<Pixel>, sprite: seq<Byte>, xPos: nat, yPos: nat)
    requires |video| == VideoSize && |sprite| <= VideoHeight
    ensures Collision(video, sprite, xPos, yPos) <==>
      exists row, col :: 0 <= row < |sprite| && 0 <= col < 8 && SpriteBit(sprite[row], col) &&
        video[ScreenIndex(xPos, yPos, row, col)] == On
  {
    if Collision(video, sprite, xPos, yPos) {
      var p :| 0 <= p < |video| && Covered(sprite, xPos, yPos, p) && video[p] == On;
      ScreenIndexOfPixel(xPos, yPos, p);
      var row, col := SpriteRow(yPos, p), SpriteCol(xPos, p);
      assert SpriteBit(sprite[row], col) && video[ScreenIndex(xPos, yPos, row, col)] == On;
    }
    if exists row, col :: 0 <= row < |sprite| && 0 <= col < 8 && SpriteBit(sprite[row], col) &&
        video[ScreenIndex(xPos, yPos, row, col)] == On
    {
      var row, col :| 0 <= row < |sprite| && 0 <= col < 8 && SpriteBit(sprite[row], col) &&
        video[ScreenIndex(xPos, yPos, row, col)] == On;
      ScreenIndexInverse(xPos, yPos, row, col);
      assert Covered(sprite, xPos, yPos, ScreenIndex(xPos, yPos, row, col));
    }
  }

  /** Drawing the same sprite twice at the same place restores the framebuffer. */
  lemma BlitTwice(video: seq<Pixel>, sprite: seq<Byte>, xPos: nat, yPos: nat)
    ensures Blit(Blit(video, sprite, xPos, yPos), sprite, xPos, yPos) == video
  {
    var once := Blit(video, sprite, xPos, yPos);
    var twice := Blit(once, sprite, xPos, yPos);
    assert forall p :: 0 <= p < |video| ==> twice[p] == video[p];
  }

  /** A framebuffer of off and on pixels stays so. */
  lemma BlitKeepsBinary(video: seq<Pixel>, sprite: seq<Byte>, xPos: nat, yPos: nat)
    requires Binary(video)
    ensures Binary(Blit(video, sprite, xPos, yPos))
  {
  }

  /** Drawing one more cell: the pixel under it, if the cell is set, is toggled and reported if it
      was on; it is still untouched just before, since no earlier cell lands on it. */
  lemma BlitStep(video: seq<Pixel>, sprite: seq<Byte>, xPos: nat, yPos: nat, row: nat, col: nat)
    requires |video| == VideoSize && row < |sprite| <= VideoHeight && col < 8
    ensures var p := ScreenIndex(xPos, yPos, row, col);
      PartialBlit(video, sprite, xPos, yPos, row, col)[p] == video[p] &&
      PartialBlit(video, sprite, xPos, yPos, row, col + 1) ==
        (if SpriteBit(sprite[row], col)
         then PartialBlit(video, sprite, xPos, yPos, row, col)[p := Toggle(video[p])]
         else PartialBlit(video, sprite, xPos, yPos, row, col)) &&
      (CollisionBefore(video, sprite, xPos, yPos, row, col + 1) <==>
        CollisionBefore(video, sprite, xPos, yPos, row, col) || (SpriteBit(sprite[row], col) && video[p] == On))
  {
    var p := ScreenIndex(xPos, yPos, row, col);
    ScreenIndexInverse(xPos, yPos, row, col);
    var before := PartialBlit(video, sprite, xPos, yPos, row, col);
    var after := PartialBlit(video, sprite, xPos, yPos, row, col + 1);
    forall q | 0 <= q < |video| && q != p
      ensures VisitedBefore(sprite, xPos, yPos, q, row, col + 1) == VisitedBefore(sprite, xPos, yPos, q, row, col)
    {
      ScreenIndexOfPixel(xPos, yPos, q);
    }
    if SpriteBit(sprite[row], col) {
      assert after == before[p := Toggle(video[p])];
    } else {
      assert after == before;
    }
    if CollisionBefore(video, sprite, xPos, yPos, row, col + 1) {
      var q :| 0 <= q < |video| && VisitedBefore(sprite, xPos, yPos, q, row, col + 1) && video[q] == On;
      if q != p {
        assert VisitedBefore(sprite, xPos, yPos, q, row, col);
      }
    }
    if CollisionBefore(video, sprite, xPos, yPos, row, col) {
      var q :| 0 <= q < |video| && VisitedBefore(sprite, xPos, yPos, q, row, col) && video[q] == On;
      assert VisitedBefore(sprite, xPos, yPos, q, row, col + 1);
    }
    if SpriteBit(sprite[row], col) && video[p] == On {
      assert VisitedBefore(sprite, xPos, yPos, p, row, col + 1);
    }
  }

  /** The end of a row is the start of the next. */
  lemma NextRow(video: seq<Pixel>, sprite: seq<Byte>, xPos: nat, yPos: nat, row: nat)
    ensures PartialBlit(video, sprite, xPos, yPos, row, 8) == PartialBlit(video, sprite, xPos, yPos, row + 1, 0)
    ensures CollisionBefore(video, sprite, xPos, yPos, row, 8) == CollisionBefore(video, sprite, xPos, yPos, row + 1, 0)
  {
    assert forall p :: VisitedBefore(sprite, xPos, yPos, p, row, 8) == VisitedBefore(sprite, xPos, yPos, p, row + 1, 0);
  }
}
