/** The string tests the message logic relies on: .NET's
    `string.IsNullOrWhiteSpace` and the character classification under it. */
module Text {
  import opened Optional

  /** A C# `string?`: `None` is `null`. */
  type NullableString = Option<string>

  /** .NET `char.IsWhiteSpace`: the Unicode space, line and paragraph
      separators (categories Zs, Zl, Zp) together with the control
      characters U+0009..U+000D and U+0085. */
  predicate IsWhiteSpace(c: char)
  {
    || ('\U{0009}' <= c <= '\U{000D}')
    || c == '\U{0020}'
    || c == '\U{0085}'
    || c == '\U{00A0}'
    || c == '\U{1680}'
    || ('\U{2000}' <= c <= '\U{200A}')
    || c == '\U{2028}'
    || c == '\U{2029}'
    || c == '\U{202F}'
    || c == '\U{205F}'
    || c == '\U{3000}'
  }

  /** Scans `t` from the front, as the .NET implementation does; true when
      no character of `t` is anything but white space. */
  function AllWhiteSpace(t: string): (r: bool)
    ensures r <==> forall i :: 0 <= i < |t| ==> IsWhiteSpace(t[i])
  {
    if t == [] then true
    else IsWhiteSpace(t[0]) && AllWhiteSpace(t[1..])
  }

  /** .NET `string.IsNullOrWhiteSpace`: null, empty, or white space only. */
  function IsNullOrWhiteSpace(s: NullableString): (r: bool)
    ensures r <==> s.None? || forall i :: 0 <= i < |s.value| ==> IsWhiteSpace(s.value[i])
    // Corollaries of the clause above, spelled out for the reader:
    ensures s.None? ==> r
    ensures s == Some([]) ==> r
    ensures s.Some? && (exists i :: 0 <= i < |s.value| && !IsWhiteSpace(s.value[i])) ==> !r
  {
    match s
    case None => true
    case Some(t) => AllWhiteSpace(t)
  }
}
