/** Board-size bounds the settings window lets a player choose. */
module Constants {
  const FieldSizeMin: nat := 3
  const FieldSizeMax: nat := 10
}
