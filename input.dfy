/** Keyboard input: the four arrow keys, with W, S, A and D as aliases, and
    the rule by which a key press replaces the stored direction. */
module Input {
  import opened Grid

  datatype Key = Up | Down | Left | Right | KeyW | KeyS | KeyA | KeyD | OtherKey

  /** The heading a key asks for; keys that steer nothing ask for none. */
  predicate Steers(k: Key) {
    k != OtherKey
  }

  function Heading(k: Key): (v: Coord)
    requires Steers(k)
    ensures IsDirection(v) && v != Still
  {
    match k
    case Up | KeyW => North
    case Down | KeyS => South
    case Left | KeyA => West
    case Right | KeyD => East
  }

  /** A key press: the stored direction d becomes the key's heading unless d
      is exactly the opposite of that heading. The check looks at d as it is
      at the moment of the press, so a key pressed while the snake stands
      still is always taken. */
  function Steer(d: Coord, k: Key): (r: Coord)
    ensures !Steers(k) ==> r == d
    ensures Steers(k) ==> (r == Heading(k) <==> d != Opposite(Heading(k)))
    ensures Steers(k) ==> (r == d <==> d == Heading(k) || d == Opposite(Heading(k)))
  {
    if !Steers(k) then d
    else if d == Opposite(Heading(k)) then d
    else Heading(k)
  }

  /** The stored direction stays one of the five vectors. */
  lemma SteerKeepsDirection(d: Coord, k: Key)
    requires IsDirection(d)
    ensures IsDirection(Steer(d, k))
  {
  }

  /** One key press never turns a moving snake around. */
  lemma SingleKeyNeverReverses(d: Coord, k: Key)
    requires IsDirection(d) && d != Still
    ensures Steer(d, k) != Opposite(d)
  {
  }

  /** From the initial standing direction every steering key is taken. */
  lemma AnyKeyStartsTheSnake(k: Key)
    requires Steers(k)
    ensures Steer(Still, k) == Heading(k)
  {
  }

  /** Left while moving right is ignored; up or down is taken. */
  lemma ReversalRejected()
    ensures Steer(East, Left) == East && Steer(East, KeyA) == East
    ensures Steer(East, Up) == North && Steer(East, Down) == South
  {
  }

  /** Two presses before the next tick can reverse the snake: moving right,
      Up is taken, and then Left is checked against Up and taken too. */
  lemma TwoKeysReverse()
    ensures Steer(Steer(East, Up), Left) == West == Opposite(East)
  {
  }
}
