/** Nullable values and the .NET string predicates the functions rely on. */
module Common {

  /** A .NET reference that may be null: `None` is null. */
  datatype Option<+T> = None | Some(value: T)

  /** `string.IsNullOrEmpty`. */
  predicate IsNullOrEmpty(s: Option<string>) {
    s == None || s == Some("")
  }

  /** `char.IsWhiteSpace`: the characters Unicode gives the White_Space property. */
  predicate IsWhiteSpace(c: char) {
    || ('\U{9}' <= c <= '\U{D}')
    || c == ' '
    || c == '\U{85}'
    || c == '\U{A0}'
    || c == '\U{1680}'
    || ('\U{2000}' <= c <= '\U{200A}')
    || c == '\U{2028}'
    || c == '\U{2029}'
    || c == '\U{202F}'
    || c == '\U{205F}'
    || c == '\U{3000}'
  }

  /** `string.IsNullOrWhiteSpace`: null, empty, or nothing but white space. */
  predicate IsNullOrWhiteSpace(s: Option<string>) {
    s.None? || forall i :: 0 <= i < |s.value| ==> IsWhiteSpace(s.value[i])
  }

  /** `s ?? string.Empty`. */
  function OrEmpty(s: Option<string>): string {
    match s
    case Some(v) => v
    case None => ""
  }
}
