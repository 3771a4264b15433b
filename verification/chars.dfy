/**
 * ASCII stand-ins for the C character classes (`isspace`, `isalpha`,
 * `isalnum`, `islower`, `isdigit`) that the external scanner applies to
 * code points, and for the `\w` class of the grammar's regular expressions.
 */
module Chars {

  /** `isspace`: blank, tab, newline, vertical tab, form feed, carriage return. */
  predicate IsSpace(c: char) {
    c == ' ' || c == '\t' || c == '\n' || c == '\U{000B}' || c == '\U{000C}' || c == '\r'
  }

  predicate IsLower(c: char) {
    'a' <= c <= 'z'
  }

  predicate IsUpper(c: char) {
    'A' <= c <= 'Z'
  }

  predicate IsDigit(c: char) {
    '0' <= c <= '9'
  }

  predicate IsHexDigit(c: char) {
    IsDigit(c) || 'a' <= c <= 'f' || 'A' <= c <= 'F'
  }

  predicate IsAlpha(c: char) {
    IsLower(c) || IsUpper(c)
  }

  predicate IsAlnum(c: char) {
    IsAlpha(c) || IsDigit(c)
  }

  /** The regular-expression class `\w`. */
  predicate IsWordChar(c: char) {
    IsAlnum(c) || c == '_'
  }

  /** `is_variable_name`: a lower-case letter, a digit or an underscore. */
  predicate IsVariableNameChar(c: char) {
    IsLower(c) || IsDigit(c) || c == '_'
  }

  /** The double quote character. */
  const DoubleQuote: char := '\U{22}'

  predicate IsQuote(c: char) {
    c == '\'' || c == DoubleQuote
  }
}
