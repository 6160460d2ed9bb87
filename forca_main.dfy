/**
 * The copies of the string and path utilities at the top of `forca.cpp`. Their code is
 * the library's, byte for byte, so each copy runs the library's loop and is proved to
 * compute the same reference function.
 */
module ForcaMain {
  import opened ForcaStrings
  import opened ForcaFiles

  /** The copy of `removeSpaces`. */
  method RemoveSpaces(s: Bytes) returns (text: Bytes)
    ensures text == Strip(s) && NoSpace(text)
  {
    text := ForcaStrings.RemoveSpaces(s);
  }

  /** The copy of `removeAcentos`. */
  method RemoveAcentos(s: Bytes) returns (text: Bytes)
    ensures text == RemoveAcentosSpec(s) && AccentFree(text)
  {
    text := ForcaStrings.RemoveAcentos(s);
    RemoveAcentosFree(s);
  }

  /** The copy of `to_uppercase`. */
  method ToUppercase(s: Bytes) returns (text: Bytes)
    ensures text == Upper(s)
  {
    text := ForcaStrings.ToUppercase(s);
  }

  /** The copy of `normalizeWord`, composed of the three copies above. */
  method NormalizeWord(s: Bytes) returns (text: Bytes)
    ensures text == Upper(RemoveAcentosSpec(Strip(s)))
    ensures NoSpace(text) && AccentFree(text)
  {
    text := RemoveSpaces(s);
    text := RemoveAcentos(text);
    ApplyTableNoSpace(Strip(s), TABLE_SIZE);
    text := ToUppercase(text);
    UpperKeepsAccentFree(RemoveAcentosSpec(Strip(s)));
  }

  /** The copy of `normalizePath`, with the same read before a leading slash. */
  method NormalizePath(s: Bytes) returns (path: Bytes)
    requires NormalizePathDefined(s)
    ensures path == NormalizePathSpec(s)
    ensures NoSpace(path) && NoDoubleSlash(path) && BACKSLASH !in path
  {
    path := RemoveSpaces(s);
    path := ReplaceBackslashes(path);
    path := CollapseSlashes(path);
    NormalizedShape(s);
  }
}
