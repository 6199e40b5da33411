/** Button and tilt input: the tilt threshold and what one input phase of the
    loop does to the active piece and the shared move timer. */
module Input {
  import opened Wrappers
  import opened Shapes
  import opened Playfield

  /** Tilt on the y axis beyond this magnitude moves the piece. */
  const AccelThreshold: real := 0.5
  /** Tilt on the z axis beyond this magnitude rotates the piece. */
  const RotateThreshold: real := 9.0
  /** Milliseconds that must pass between button moves. */
  const ButtonInterval: int := 300
  /** Milliseconds that must pass before a tilt move. */
  const TiltInterval: int := 10

  /** One accelerometer sample, in m/s^2. */
  datatype Tilt = Tilt(x: real, y: real, z: real)

  /** `get_move_direction`: +1 (down) above the threshold, -1 (up) below its negation. */
  function MoveDirection(a: real): (d: int)
    ensures -1 <= d <= 1
    ensures d == 1 <==> a > AccelThreshold
    ensures d == -1 <==> a < -AccelThreshold
  {
    if a > AccelThreshold then 1
    else if a < -AccelThreshold then -1
    else 0
  }

  /** Tilting the other way by the same amount moves the other way. */
  lemma MoveDirectionOdd(a: real)
    ensures MoveDirection(-a) == -MoveDirection(a)
  {
  }

  function Abs(a: real): real
  {
    if a < 0.0 then -a else a
  }

  /** The input phase of one loop pass on the piece value: buttons when more than
      ButtonInterval has passed since the last move (up, then down; the timer is reset
      either way), then, when a sample is available, a tilt move gated by TiltInterval
      on the same timer and set only when the move succeeds, then a rotation when
      |z| > RotateThreshold. Returns the piece and the new move timer. */
  function InputStep(b: Board, p: Piece, lastMove: int, now: int,
                     upPressed: bool, downPressed: bool, tilt: Option<Tilt>): (r: (Piece, int))
    requires IsBoard(b) && WellFormed(p.shape)
    ensures WellFormed(r.0.shape)
    ensures r.0.x == p.x
    ensures -1 <= r.0.y - p.y <= 1
    ensures r.1 == lastMove || r.1 == now
    ensures now - lastMove > ButtonInterval ==> r.1 == now
    ensures now - lastMove <= TiltInterval ==> r.0.y == p.y && r.1 == lastMove
    ensures tilt.None? || Abs(tilt.value.z) <= RotateThreshold ==> r.0.shape == p.shape
    ensures r.0.shape == p.shape || r.0.shape == Rotate(p.shape)
  {
    var gate := now - lastMove > ButtonInterval;
    var p1 := if gate && upPressed then TryMove(b, p, 0, -1).0 else p;
    var p2 := if gate && downPressed then TryMove(b, p1, 0, 1).0 else p1;
    var t1 := if gate then now else lastMove;
    match tilt
    case None => (p2, t1)
    case Some(s) =>
      var dir := MoveDirection(s.y);
      var moved := dir != 0 && now - t1 > TiltInterval && TryMove(b, p2, 0, dir).1;
      var p3 := if moved then TryMove(b, p2, 0, dir).0 else p2;
      var t2 := if moved then now else t1;
      var p4 := if Abs(s.z) > RotateThreshold then TryRotate(b, p3) else p3;
      (p4, t2)
  }

  /** With the button gate open and no sample, the buttons act in order, up then down,
      and the timer becomes now whatever was pressed. From a clear position, pressing
      both returns the piece to where it was when the up move succeeds, and otherwise
      leaves only the down move. */
  lemma InputButtons(b: Board, p: Piece, lastMove: int, now: int, upPressed: bool, downPressed: bool)
    requires IsBoard(b) && WellFormed(p.shape) && now - lastMove > ButtonInterval
    ensures var r := InputStep(b, p, lastMove, now, upPressed, downPressed, None);
      r.1 == now &&
      (!upPressed && !downPressed ==> r.0 == p) &&
      (upPressed && !downPressed ==> r.0 == TryMove(b, p, 0, -1).0) &&
      (!upPressed && downPressed ==> r.0 == TryMove(b, p, 0, 1).0) &&
      (upPressed && downPressed && !Collides(b, p) ==>
        r.0 == if TryMove(b, p, 0, -1).1 then p else TryMove(b, p, 0, 1).0)
  {
    var up := TryMove(b, p, 0, -1).0;
    if upPressed && downPressed && TryMove(b, p, 0, -1).1 && !Collides(b, p) {
      assert Shift(up, 0, 1) == p;
    }
  }

  /** With the button gate closed, only a tilt move changes y: by exactly the tilt
      direction, onto a free position, and the timer moves to now exactly when it does. */
  lemma InputTiltMove(b: Board, p: Piece, lastMove: int, now: int,
                      upPressed: bool, downPressed: bool, tilt: Option<Tilt>)
    requires IsBoard(b) && WellFormed(p.shape) && now - lastMove <= ButtonInterval
    ensures var r := InputStep(b, p, lastMove, now, upPressed, downPressed, tilt);
      (r.1 != lastMove <==> r.0.y != p.y) &&
      (r.0.y != p.y ==>
         tilt.Some? && now - lastMove > TiltInterval && r.0.y - p.y == MoveDirection(tilt.value.y) &&
         !Collides(b, Piece(p.shape, p.x, r.0.y)))
  {
  }

  /** With the button gate open, a sample changes nothing about the buttons: the timer
      becomes now and the piece stands where the buttons alone put it, because the tilt
      gate on the just-reset timer cannot open. Only its shape may turn. */
  lemma InputButtonsWithSample(b: Board, p: Piece, lastMove: int, now: int,
                               upPressed: bool, downPressed: bool, tilt: Option<Tilt>)
    requires IsBoard(b) && WellFormed(p.shape) && now - lastMove > ButtonInterval
    ensures var r := InputStep(b, p, lastMove, now, upPressed, downPressed, tilt);
      r.1 == now &&
      Piece(p.shape, r.0.x, r.0.y) == InputStep(b, p, lastMove, now, upPressed, downPressed, None).0
  {
  }

  /** With the button gate closed, a sample tilted past AccelThreshold more than
      TiltInterval after the last move moves the piece one step in its direction whenever
      that position is free, and the timer becomes now. */
  lemma InputTiltFires(b: Board, p: Piece, lastMove: int, now: int,
                       upPressed: bool, downPressed: bool, s: Tilt)
    requires IsBoard(b) && WellFormed(p.shape)
    requires TiltInterval < now - lastMove <= ButtonInterval
    requires MoveDirection(s.y) != 0 && !Collides(b, Shift(p, 0, MoveDirection(s.y)))
    ensures var r := InputStep(b, p, lastMove, now, upPressed, downPressed, Some(s));
      r.1 == now && r.0.x == p.x && r.0.y == p.y + MoveDirection(s.y) &&
      (Abs(s.z) <= RotateThreshold ==> r.0 == Shift(p, 0, MoveDirection(s.y)))
  {
  }

  /** A sample whose z magnitude exceeds RotateThreshold applies `rotate_tetromino` to
      the piece where the moves left it. */
  lemma InputRotation(b: Board, p: Piece, lastMove: int, now: int,
                      upPressed: bool, downPressed: bool, s: Tilt)
    requires IsBoard(b) && WellFormed(p.shape) && Abs(s.z) > RotateThreshold
    ensures var r := InputStep(b, p, lastMove, now, upPressed, downPressed, Some(s));
      r.0 == TryRotate(b, Piece(p.shape, r.0.x, r.0.y))
  {
  }

  /** Moves never carry a clear piece into a wall or a filled cell, so without a rotation
      the input phase keeps the piece clear. */
  lemma InputKeepsClear(b: Board, p: Piece, lastMove: int, now: int,
                        upPressed: bool, downPressed: bool, tilt: Option<Tilt>)
    requires IsBoard(b) && WellFormed(p.shape) && !Collides(b, p)
    requires tilt.None? || Abs(tilt.value.z) <= RotateThreshold
    ensures !Collides(b, InputStep(b, p, lastMove, now, upPressed, downPressed, tilt).0)
  {
  }
}
