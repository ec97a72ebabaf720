/** Constants shared by the type-name builders. */
module Constants {

  /** Separates an enclosing class name from a nested class name in a binary class name. */
  const InnerClassSeparator: char := '$'
}
