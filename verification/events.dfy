/** The engine-side input events produced by the platform layer. */
module Events {

  /** The engine's key codes; `KeyUnknown` stands for every key without a mapping. */
  datatype Key = KeyUnknown | KeyUp | KeyDown | KeyLeft | KeyRight | KeyEsc | KeyReturn

  /** `rune` is the Go `rune` (a signed 32-bit code point) carried with a key. */
  datatype Event =
    | QuitEvent
    | KeyDownEvent(key: Key, rune: int)
    | KeyUpEvent(key: Key, rune: int)
}
