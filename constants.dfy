/** The delimiters of the field path grammar, as documented in the module
    comments of the field processor and of the output functions. */
module Constants {

  /** Separates the components of a path: `/zoo$1/cage$2/name`. */
  const PathSeparator: char := '/'

  /** Separates an element name from its 1-based position: `cage$2`. */
  const PairSeparator: char := '$'

  /** Separates a repeating element from its attribute: `category$$value`. */
  const MultiSeparator: string := "$$"

  /** Separates a selector name from the path it selects: `_action_add=/zoo$1/cage$2`. */
  const SelectorIndicator: char := '='
}
