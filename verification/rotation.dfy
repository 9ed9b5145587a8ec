/**
 * Page rotation in degrees. JavaScript's `%` truncates toward zero, so its
 * remainder takes the sign of the dividend; Dafny's `%` is Euclidean and is
 * never negative. `JsRem360` spells out the JavaScript operator.
 */
module Rotation {

  /** A full turn, the divisor of both rotation handlers. */
  const FullTurn := 360

  /** JavaScript's `a % 360`: truncating, so it is negative for a negative `a`. */
  function JsRem360(a: int): (r: int)
    ensures -FullTurn < r < FullTurn
    ensures r != 0 ==> (r < 0 <==> a < 0)
    ensures a >= 0 ==> r == a % FullTurn
    ensures a < 0 ==> r == (if a % FullTurn == 0 then 0 else a % FullTurn - FullTurn)
  {
    if a >= 0 then a % FullTurn
    else
      var q, m := a / FullTurn, a % FullTurn;
      assert a == FullTurn * q + m;
      if m == 0 then
        assert -a == FullTurn * -q;
        -((-a) % FullTurn)
      else
        assert -a == FullTurn * (-q - 1) + (FullTurn - m);
        -((-a) % FullTurn)
  }

  /** The four orientations a page is shown in. */
  predicate IsQuarterTurn(deg: int) {
    deg == 0 || deg == 90 || deg == 180 || deg == 270
  }

  /** `onRotateLeft`'s update: `(rotation - 90) % 360`, plus 360 when negative. */
  function RotateLeftDeg(rotation: int): (r: int)
    ensures 0 <= r < 360
    ensures r == (rotation - 90) % 360
  {
    var t := JsRem360(rotation - 90);
    if t < 0 then t + 360 else t
  }

  /** `onRotateRight`'s update: `(rotation + 90) % 360`, with no fix-up. */
  function RotateRightDeg(rotation: int): (r: int)
    ensures -360 < r < 360
    ensures rotation >= -90 ==> r == (rotation + 90) % 360
  {
    JsRem360(rotation + 90)
  }

  /** Without the fix-up the truncating remainder would turn 0 into -90. */
  lemma LeftFixUpIsNeeded()
    ensures JsRem360(0 - 90) == -90
    ensures RotateLeftDeg(0) == 270
  {
  }

  /** From any angle in [0, 360) both rotations stay in [0, 360). */
  lemma RotationsStayNormalised(rotation: int)
    requires 0 <= rotation < 360
    ensures 0 <= RotateLeftDeg(rotation) < 360
    ensures 0 <= RotateRightDeg(rotation) < 360
  {
  }

  /** Rotation never leaves the four quarter turns. */
  lemma QuarterTurnsClosed(rotation: int)
    requires IsQuarterTurn(rotation)
    ensures IsQuarterTurn(RotateLeftDeg(rotation))
    ensures IsQuarterTurn(RotateRightDeg(rotation))
  {
  }

  /** On [0, 360) a right rotation adds 90 degrees, wrapping 270 to 0. */
  lemma RightStep(rotation: int)
    requires 0 <= rotation < 360
    ensures RotateRightDeg(rotation) == if rotation < 270 then rotation + 90 else rotation - 270
  {
    assert RotateRightDeg(rotation) == (rotation + 90) % 360;
  }

  /** On [0, 360) a left rotation subtracts 90 degrees, wrapping 0 to 270. */
  lemma LeftStep(rotation: int)
    requires 0 <= rotation < 360
    ensures RotateLeftDeg(rotation) == if rotation >= 90 then rotation - 90 else rotation + 270
  {
    assert RotateLeftDeg(rotation) == (rotation - 90) % 360;
  }

  /** Left then right restores any normalised angle. */
  lemma LeftThenRightCancels(rotation: int)
    requires 0 <= rotation < 360
    ensures RotateRightDeg(RotateLeftDeg(rotation)) == rotation
  {
    LeftStep(rotation);
    RightStep(RotateLeftDeg(rotation));
  }

  /** Right then left restores any normalised angle. */
  lemma RightThenLeftCancels(rotation: int)
    requires 0 <= rotation < 360
    ensures RotateLeftDeg(RotateRightDeg(rotation)) == rotation
  {
    RightStep(rotation);
    LeftStep(RotateRightDeg(rotation));
  }

  /** Four right turns restore any normalised angle. */
  lemma FourRightTurnsAreIdentity(rotation: int)
    requires 0 <= rotation < 360
    ensures RotateRightDeg(RotateRightDeg(RotateRightDeg(RotateRightDeg(rotation)))) == rotation
  {
    var r1 := RotateRightDeg(rotation);
    RightStep(rotation);
    var r2 := RotateRightDeg(r1);
    RightStep(r1);
    var r3 := RotateRightDeg(r2);
    RightStep(r2);
    RightStep(r3);
  }

  /** Four left turns restore any normalised angle. */
  lemma FourLeftTurnsAreIdentity(rotation: int)
    requires 0 <= rotation < 360
    ensures RotateLeftDeg(RotateLeftDeg(RotateLeftDeg(RotateLeftDeg(rotation)))) == rotation
  {
    var l1 := RotateLeftDeg(rotation);
    LeftStep(rotation);
    var l2 := RotateLeftDeg(l1);
    LeftStep(l1);
    var l3 := RotateLeftDeg(l2);
    LeftStep(l2);
    LeftStep(l3);
  }
}
