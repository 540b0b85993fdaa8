/**
 * The keyboard events the handlers react to, as the GUI toolkit delivers
 * them, and the character classification they use.
 */
module Keyboard {

  /** The key codes the handlers name; every other key is `OtherKey`. */
  datatype KeyCode = Escape | Left | Right | Delete | Q | O | R | C | OtherKey

  /** A key press, a typed character, or any other keyboard event (releases, modifier changes). */
  datatype KeyboardEvent =
    | KeyPressed(keyCode: KeyCode)
    | CharacterReceived(character: char)
    | OtherKeyboardEvent

  /** `char::is_alphabetic`, restricted to the ASCII letters. */
  predicate IsAlphabetic(c: char) {
    'a' <= c <= 'z' || 'A' <= c <= 'Z'
  }
}
