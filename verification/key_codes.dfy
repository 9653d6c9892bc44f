/** The key codes the radio option declares, and how its keydown handler
    sorts them into actions. */
module KeyCodes {

  const RETURN: int := 13
  const SPACE: int := 32
  const END: int := 35
  const HOME: int := 36
  const LEFT: int := 37
  const UP: int := 38
  const RIGHT: int := 39
  const DOWN: int := 40

  /** The codes that take one of the handler's `case` branches. */
  const HandledCodes: set<int> := {SPACE, RETURN, UP, LEFT, DOWN, RIGHT}

  /** What a key asks of the option: select itself, move to the previous or
      next sibling, or nothing at all (the `default` branch). */
  datatype KeyAction = SelectOwn | MovePrevious | MoveNext | PassThrough

  /** The `switch` on `event.keyCode`, with its fall-through pairs. */
  function Classify(code: int): (a: KeyAction)
    ensures a == PassThrough <==> code !in HandledCodes
    ensures a == SelectOwn ==> code in {SPACE, RETURN}
    ensures a == MovePrevious ==> code in {UP, LEFT}
    ensures a == MoveNext ==> code in {DOWN, RIGHT}
  {
    if code == SPACE || code == RETURN then SelectOwn
    else if code == UP || code == LEFT then MovePrevious
    else if code == DOWN || code == RIGHT then MoveNext
    else PassThrough
  }

  /** END and HOME are declared beside the handled codes but no branch of the
      handler mentions them. */
  lemma HomeAndEndPassThrough()
    ensures Classify(HOME) == PassThrough && Classify(END) == PassThrough
    ensures HOME !in HandledCodes && END !in HandledCodes
  {
  }
}
