/**
 * Decoding of a character literal: the callback the lexer runs on every
 * slice that matches the character-literal pattern `'(?:[^'\\\n\r]|\\.)*'`.
 */
module CharLiteral {
  import opened Results
  import opened Tokens

  /** The text strictly between the opening and the closing quote. */
  function Content(slice: string): string
    requires |slice| >= 2
  {
    slice[1..|slice| - 1]
  }

  /** The escape table: the character `\x` stands for, for each listed letter `x`. */
  function Unescape(x: char): (r: Option<char>)
    ensures r.Some? <==> x in "'\\nrt0"
    ensures r.Some? ==> EscapeLetter(r.value) == Some(x)
  {
    if x == '\'' then Some('\'')
    else if x == '\\' then Some('\\')
    else if x == 'n' then Some('\n')
    else if x == 'r' then Some('\r')
    else if x == 't' then Some('\t')
    else if x == '0' then Some('\0')
    else None
  }

  /** The escape table read backwards: the letter that escapes `c`, if any. */
  function EscapeLetter(c: char): Option<char> {
    if c == '\'' then Some('\'')
    else if c == '\\' then Some('\\')
    else if c == '\n' then Some('n')
    else if c == '\r' then Some('r')
    else if c == '\t' then Some('t')
    else if c == '\0' then Some('0')
    else None
  }

  /**
   * `parse_char`. The length check on an escape comes before the table
   * lookup, so a backslash followed by two or more characters is
   * `MultiChar` even when the first follower is not a listed letter.
   */
  function ParseChar(slice: string): (r: Result<char, LexError>)
    requires |slice| >= 2
    ensures Content(slice) == [] ==> r == Err(EmptyChar)
    ensures var c := Content(slice); |c| == 1 && c[0] != '\\' ==> r == Ok(c[0])
    ensures var c := Content(slice); |c| >= 2 && c[0] != '\\' ==> r == Err(MultiChar)
    ensures var c := Content(slice); |c| >= 3 && c[0] == '\\' ==> r == Err(MultiChar)
    ensures Content(slice) == "\\" ==> r == Err(UnknownEscape)
    ensures Content(slice) == "\\'" ==> r == Ok('\'')
    ensures Content(slice) == "\\\\" ==> r == Ok('\\')
    ensures Content(slice) == "\\n" ==> r == Ok('\n')
    ensures Content(slice) == "\\r" ==> r == Ok('\r')
    ensures Content(slice) == "\\t" ==> r == Ok('\t')
    ensures Content(slice) == "\\0" ==> r == Ok('\0')
    ensures var c := Content(slice); |c| == 2 && c[0] == '\\' && c[1] !in "'\\nrt0" ==> r == Err(UnknownEscape)
  {
    var content := Content(slice);
    if |content| == 0 then Err(EmptyChar)
    else
      var first := content[0];
      var rest := content[1..];
      if first == '\\' then
        var escaped := if |rest| > 0 then Some(rest[0]) else None;
        if |rest| > 1 then Err(MultiChar)
        else match escaped
          case Some(x) => (match Unescape(x) case Some(c) => Ok(c) case None => Err(UnknownEscape))
          case None => Err(UnknownEscape)
      else if |rest| == 0 then Ok(first)
      else Err(MultiChar)
  }

  /** The shortest literal body that denotes `c`: its escape if it has one, else `c` itself. */
  function Quote(c: char): (body: string)
    ensures 1 <= |body| <= 2
  {
    match EscapeLetter(c)
    case Some(x) => ['\\', x]
    case None => [c]
  }

  /** A body matches `(?:[^'\\\n\r]|\\.)*`: plain characters, or a backslash and any non-newline. */
  predicate MatchesLiteralBody(s: string)
    decreases |s|
  {
    if |s| == 0 then true
    else if s[0] == '\\' then |s| >= 2 && s[1] != '\n' && MatchesLiteralBody(s[2..])
    else s[0] !in "'\\\n\r" && MatchesLiteralBody(s[1..])
  }

  // ---------------------------------------------------------------------
  // Laws

  /** The two tables are inverse to each other. */
  lemma UnescapeInverse(x: char, c: char)
    ensures Unescape(x) == Some(c) <==> EscapeLetter(c) == Some(x)
  {
  }

  /**
   * `parse_char` succeeds with `c` exactly when the body is `c` alone (not a
   * backslash) or a backslash and the letter the escape table maps to `c`.
   */
  lemma ParseCharOkIff(slice: string, c: char)
    requires |slice| >= 2
    ensures ParseChar(slice) == Ok(c) <==>
      || (Content(slice) == [c] && c != '\\')
      || (|Content(slice)| == 2 && Content(slice)[0] == '\\' && Unescape(Content(slice)[1]) == Some(c))
  {
  }

  /** Every character has a literal the pattern matches and `parse_char` decodes to it. */
  lemma QuoteRoundTrip(c: char)
    ensures MatchesLiteralBody(Quote(c))
    ensures |['\''] + Quote(c) + ['\'']| >= 2
    ensures ParseChar(['\''] + Quote(c) + ['\'']) == Ok(c)
  {
  }

  /**
   * `Display` of a `Char` token writes the character between quotes without
   * escaping it; `parse_char` reads that back for every character except
   * the backslash, whose display decodes as an unknown escape. This is a
   * law of `parse_char` alone: for a quote, a line feed or a carriage return
   * the displayed text is not matched by the literal pattern, so the lexer
   * itself would never hand it to `parse_char`.
   */
  lemma DisplayCharRoundTrip(c: char)
    ensures |Display(Char(c))| >= 2
    ensures c != '\\' ==> ParseChar(Display(Char(c))) == Ok(c)
    ensures c == '\\' ==> ParseChar(Display(Char(c))) == Err(UnknownEscape)
  {
  }

  /**
   * On a slice the literal pattern matched, the body is never a lone
   * backslash, so `parse_char` reports `UnknownEscape` only for an unlisted
   * follower.
   */
  lemma UnknownEscapeOnlyForUnlistedLetter(slice: string)
    requires |slice| >= 2 && MatchesLiteralBody(Content(slice))
    requires ParseChar(slice) == Err(UnknownEscape)
    ensures |Content(slice)| == 2 && Content(slice)[0] == '\\'
    ensures Unescape(Content(slice)[1]).None?
  {
  }
}
