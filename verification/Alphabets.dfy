/** The letters and digits of ASCII, spelled out. */
module Alphabets {
  const CAPITALS := "ABCDEFGHIJKLMNOPQRSTUVWXYZ"
  const SMALL_LETTERS := "abcdefghijklmnopqrstuvwxyz"
  const DIGITS := "0123456789"

  lemma CharacterCodes()
    ensures |CAPITALS| == |SMALL_LETTERS| == 26 && |DIGITS| == 10
    ensures forall i :: 0 <= i < 26 ==> CAPITALS[i] as int == 65 + i && SMALL_LETTERS[i] as int == 97 + i
    ensures forall i :: 0 <= i < 10 ==> DIGITS[i] as int == 48 + i
  {
  }
}
