/** The game's enumerations: the mark in a cell, the state of a game and
    the game mode. Map.java stores a mark as the integer tag of its Dot
    constant (EMPTY 0, HUMAN 1, AI 2); here each is a constructor, so no
    other value can occur in a cell. */
module Enums {
  /** Content of a cell; `Empty` is the default value of a fresh field. */
  datatype Dot = Empty | Human | AI

  /** `Game` while a game is being played, then one of the three outcomes. */
  datatype GameState = Game | WinHuman | WinAI | Draw

  /** HVA: human against the computer; HVH: two humans at one board. */
  datatype GameMode = HVA | HVH
}
