/** Letters up to their case, over ASCII. */
module LetterCase {

  predicate SameButCase(a: char, b: char) {
    a == b || ('a' <= a <= 'z' && a as int == b as int + 32) || ('a' <= b <= 'z' && b as int == a as int + 32)
  }
}
