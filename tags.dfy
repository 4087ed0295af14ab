/** The SkySpark marker-tag name check. */
module Tags {
  import opened Text

  /** `char::is_ascii_lowercase`. */
  predicate IsAsciiLowercase(c: char) {
    'a' <= c <= 'z'
  }

  /** `char::is_ascii_alphanumeric`. */
  predicate IsAsciiAlphanumeric(c: char) {
    'a' <= c <= 'z' || 'A' <= c <= 'Z' || '0' <= c <= '9'
  }

  /** A character allowed after the first one of a tag name. */
  predicate IsTagChar(c: char) {
    IsAsciiAlphanumeric(c) || c == '_'
  }

  /**
   * A legal tag name: non-empty, an ASCII lowercase letter first, then only
   * ASCII letters, digits and underscores.
   */
  predicate ValidTagName(s: string) {
    && |s| > 0
    && IsAsciiLowercase(s[0])
    && forall i :: 1 <= i < |s| ==> IsTagChar(s[i])
  }

  /**
   * `is_tag_name`: the empty string is rejected up front; otherwise the
   * characters are scanned in order with a flag that the first offending
   * character clears, ending the scan.
   */
  method IsTagName(s: string) returns (isTagName: bool)
    ensures isTagName <==> ValidTagName(s)
  {
    if |s| == 0 {
      return false;
    }
    isTagName := true;
    var index := 0;
    while index < |s|
      invariant 0 <= index <= |s|
      invariant isTagName
      invariant index > 0 ==> IsAsciiLowercase(s[0])
      invariant forall i :: 1 <= i < index ==> IsTagChar(s[i])
    {
      var c := s[index];
      if index == 0 {
        if !IsAsciiLowercase(c) {
          isTagName := false;
          break;
        }
      } else if !(IsAsciiAlphanumeric(c) || c == '_') {
        isTagName := false;
        break;
      }
      index := index + 1;
    }
  }

  /** A tag name has no surrounding whitespace, so trimming keeps it as it is. */
  lemma ValidTagNameIsTrimmed(s: string)
    requires ValidTagName(s)
    ensures IsTrimmed(s) && Trim(s) == s
  {
    assert !IsWhitespace(s[|s| - 1]) by {
      if |s| > 1 { assert IsTagChar(s[|s| - 1]); }
    }
    TrimFixedIff(s);
  }
}
