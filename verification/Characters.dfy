/** White space, as the host's regular expressions and number parser take it, for text of eight-bit characters. */
module Characters {
  predicate IsSpace(c: char) {
    c == ' ' || c == '\t' || c == '\n' || c == '\r' || c == '\U{0B}' || c == '\U{0C}' || c == '\U{A0}'
  }

  /** By their codes: tab, line feed, vertical tab, form feed, carriage return, space, and the space that does not
      break. */
  lemma {:induction false} Blanks(c: char)
    ensures IsSpace(c) <==> c as int in {9, 10, 11, 12, 13, 32, 160}
  {
  }
}
