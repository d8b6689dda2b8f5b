/**
 * Python's `str.isspace` and `str.strip()` (no argument), which decide whether
 * a posted chat text is blank, and the narrower trimming `int()` applies before
 * parsing a key.
 */
module Text {

  /** The characters for which Python's `str.isspace()` holds. */
  predicate IsWhitespace(c: char) {
    var n := c as int;
    (0x09 <= n <= 0x0D) || (0x1C <= n <= 0x20) || n == 0x85 || n == 0xA0
    || n == 0x1680 || (0x2000 <= n <= 0x200A) || n == 0x2028 || n == 0x2029
    || n == 0x202F || n == 0x205F || n == 0x3000
  }

  /** The six characters `" \t\n\v\f\r"` that CPython's `Py_ISSPACE` accepts. */
  predicate IsAsciiSpace(c: char) {
    c == ' ' || '\t' <= c <= '\r'
  }

  /**
   * The characters `int()` skips around a literal. CPython copies every
   * character below 127 unchanged and turns each other `isspace` character
   * into a plain space before it skips `Py_ISSPACE` characters, so U+001C to
   * U+001F, which `isspace()` accepts, are never skipped.
   */
  predicate IsLiteralSpace(c: char) {
    IsAsciiSpace(c) || (c as int >= 127 && IsWhitespace(c))
  }

  /**
   * Which characters a trim drops: Python's full `isspace` set, as `strip()`
   * uses, or the narrower set `int()` skips.
   */
  datatype Spaces = Unicode | Literal

  predicate IsSpace(kind: Spaces, c: char) {
    match kind
    case Unicode => IsWhitespace(c)
    case Literal => IsLiteralSpace(c)
  }

  /** Every character of `s` is whitespace (the empty string included). */
  predicate IsBlank(s: string) {
    forall i :: 0 <= i < |s| ==> IsWhitespace(s[i])
  }

  /** The first position at or after `i` that holds no `kind` space, or `|s|`. */
  function SkipForward(kind: Spaces, s: string, i: nat): (r: nat)
    requires i <= |s|
    ensures i <= r <= |s|
    ensures forall k :: i <= k < r ==> IsSpace(kind, s[k])
    ensures r < |s| ==> !IsSpace(kind, s[r])
    decreases |s| - i
  {
    if i < |s| && IsSpace(kind, s[i]) then SkipForward(kind, s, i + 1) else i
  }

  /** The end of `s[lo..j]` once its trailing `kind` spaces are dropped. */
  function SkipBackward(kind: Spaces, s: string, lo: nat, j: nat): (r: nat)
    requires lo <= j <= |s|
    ensures lo <= r <= j
    ensures forall k :: r <= k < j ==> IsSpace(kind, s[k])
    ensures r > lo ==> !IsSpace(kind, s[r - 1])
  {
    if j > lo && IsSpace(kind, s[j - 1]) then SkipBackward(kind, s, lo, j - 1) else j
  }

  /** `s` without its leading and trailing `kind` spaces; `Strip(Unicode, s)` is `s.strip()`. */
  function Strip(kind: Spaces, s: string): (r: string)
    ensures |r| <= |s|
    ensures r != [] ==> !IsSpace(kind, r[0]) && !IsSpace(kind, r[|r| - 1])
    ensures exists a, b ::
              && 0 <= a <= b <= |s| && r == s[a..b]
              && (forall k :: 0 <= k < a ==> IsSpace(kind, s[k]))
              && (forall k :: b <= k < |s| ==> IsSpace(kind, s[k]))
  {
    var start := SkipForward(kind, s, 0);
    s[start..SkipBackward(kind, s, start, |s|)]
  }

  /** `text.strip()` is falsy exactly when the text is empty or whitespace only. */
  lemma StripEmptyIffBlank(s: string)
    ensures Strip(Unicode, s) == [] <==> IsBlank(s)
  {
    var start := SkipForward(Unicode, s, 0);
    var end := SkipBackward(Unicode, s, start, |s|);
    if start < |s| {
      assert end > start;
    }
  }

  /** Trimming changes nothing when neither end is a space. */
  lemma StripNoOp(kind: Spaces, s: string)
    requires s != [] && !IsSpace(kind, s[0]) && !IsSpace(kind, s[|s| - 1])
    ensures Strip(kind, s) == s
  {
    assert SkipForward(kind, s, 0) == 0;
    assert SkipBackward(kind, s, 0, |s|) == |s|;
  }
}
