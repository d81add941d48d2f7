/** The characters that `\s` and `trim` treat as white space. */
module Whitespace {

  predicate IsBlank(c: char) {
    var code := c as int;
    || 0x09 <= code <= 0x0D || code == 0x20 || code == 0xA0 || code == 0x1680
    || 0x2000 <= code <= 0x200A || code == 0x2028 || code == 0x2029
    || code == 0x202F || code == 0x205F || code == 0x3000 || code == 0xFEFF
  }

  /** The characters that end a Markdown line. */
  predicate IsBreak(c: char) { c == '\n' || c == '\r' }

  /** The first position from `i` on that holds no blank, or the end of the text. */
  function FirstNonBlank(t: string, i: nat): (r: nat)
    requires i <= |t|
    ensures i <= r <= |t|
    ensures r < |t| ==> !IsBlank(t[r])
    ensures forall k :: i <= k < r ==> IsBlank(t[k])
    decreases |t| - i
  {
    if i < |t| && IsBlank(t[i]) then FirstNonBlank(t, i + 1) else i
  }
}
