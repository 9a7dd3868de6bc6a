/** C strings, which end at a null character. */
module CStrings {
  /** The character at i of a C string. */
  function At(s: string, i: nat): char {
    if i < |s| then s[i] else '\0'
  }
}
