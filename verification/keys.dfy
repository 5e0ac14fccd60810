/** The keyboard keys the game reacts to, as the GUI toolkit reports them. */
module Keys {

  /**
   * Arrow keys, WASD, the two confirm keys, and every other key code.
   * `Other` stands only for codes outside the ten named keys: a named key
   * is always reported by its own constructor, never as `Other`.
   */
  datatype Key =
    | KeyLeft | KeyA | KeyRight | KeyD | KeyUp | KeyW | KeyDown | KeyS
    | KeyEnter | KeyReturn
    | Other(code: int)

  /** The keys that start a game: the keypad Enter and the main Return key. */
  predicate IsStartKey(k: Key) {
    k == KeyEnter || k == KeyReturn
  }

  /** The eight keys that steer the snake. */
  predicate IsMoveKey(k: Key) {
    !IsStartKey(k) && !k.Other?
  }
}
