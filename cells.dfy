/** How the extractor reads the text of one cell: presence, blankness and numbers with a decimal comma. */
module CellText {
  import opened Wrappers
  import opened SparseRow

  /**
   * Python's float() on a cell's text. Which texts it accepts, and the rounding of what it
   * returns, are not modelled: every operation is parameterised by this function.
   */
  type NumberParser = string -> Option<real>

  /** text.replace(',', '.'): the locale decimal comma becomes a decimal point. */
  function CommaToDot(text: string): (r: string)
    ensures |r| == |text| && ',' !in r
    ensures forall k :: 0 <= k < |text| ==> r[k] == (if text[k] == ',' then '.' else text[k])
  {
    seq(|text|, k requires 0 <= k < |text| => if text[k] == ',' then '.' else text[k])
  }

  function ParseNumber(parse: NumberParser, text: string): Option<real>
  {
    parse(CommaToDot(text))
  }

  /** The characters Python's str.strip() removes (str.isspace). */
  predicate IsWhitespace(c: char)
  {
    || c == ' ' || '\t' <= c <= '\r' || '\U{1C}' <= c <= '\U{1F}'
    || c == '\U{85}' || c == '\U{A0}' || c == '\U{1680}' || '\U{2000}' <= c <= '\U{200A}'
    || c == '\U{2028}' || c == '\U{2029}' || c == '\U{202F}' || c == '\U{205F}' || c == '\U{3000}'
  }

  /** text.strip() == "" */
  predicate IsBlank(text: string)
  {
    forall k :: 0 <= k < |text| ==> IsWhitespace(text[k])
  }

  /** The text of column col when the row has that column and its value is truthy (neither None nor ""). */
  function FilledCell(row: Row, col: nat): Option<string>
  {
    if col < |row| && row[col].Some? && row[col].value != "" then row[col] else None
  }
}
