/** White space as JavaScript knows it. */
module JsTexts {

  /** What \s matches in a regular expression, and what parseInt skips. */
  predicate IsSpace(c: char) {
    c in " \t\n\r\U{000b}\U{000c}\U{00a0}\U{1680}\U{2028}\U{2029}\U{202f}\U{205f}\U{3000}\U{feff}"
    || '\U{2000}' <= c <= '\U{200a}'
  }

  /** The code points that ECMAScript counts as WhiteSpace or as LineTerminator. */
  const WHITE_SPACE: set<int> := {
    9, 10, 11, 12, 13, 32, 160, 5760, 8192, 8193, 8194, 8195, 8196, 8197, 8198, 8199, 8200, 8201, 8202, 8232, 8233,
    8239, 8287, 12288, 65279
  }

  lemma IsSpaceIff(c: char)
    ensures IsSpace(c) <==> c as int in WHITE_SPACE
  {
  }
}
