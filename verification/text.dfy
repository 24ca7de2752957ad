/** `String.prototype.trim`, which the add buttons apply to the typed name. */
module Text {

  /** The characters `trim` removes: ECMAScript WhiteSpace (tab, vertical tab,
      form feed, space, no-break space, byte order mark and the Unicode space
      separators) and LineTerminator (line feed, carriage return, line and
      paragraph separators). */
  predicate IsTrimSpace(c: char)
  {
    var n := c as int;
    || n == 0x09 || n == 0x0A || n == 0x0B || n == 0x0C || n == 0x0D || n == 0x20
    || n == 0xA0 || n == 0x1680 || (0x2000 <= n <= 0x200A)
    || n == 0x2028 || n == 0x2029 || n == 0x202F || n == 0x205F || n == 0x3000 || n == 0xFEFF
  }

  /** The number of whitespace characters `s` starts with. */
  function LeadingEnd(s: string): (i: nat)
    ensures i <= |s|
    ensures forall k :: 0 <= k < i ==> IsTrimSpace(s[k])
    ensures i < |s| ==> !IsTrimSpace(s[i])
  {
    if s == [] || !IsTrimSpace(s[0]) then 0 else 1 + LeadingEnd(s[1..])
  }

  /** Where the whitespace that `s` ends with begins. */
  function TrailingStart(s: string): (j: nat)
    ensures j <= |s|
    ensures forall k :: j <= k < |s| ==> IsTrimSpace(s[k])
    ensures 0 < j ==> !IsTrimSpace(s[j - 1])
  {
    if s == [] || !IsTrimSpace(s[|s| - 1]) then |s| else TrailingStart(s[..|s| - 1])
  }

  /** `s.trim()`: `s` without its leading and trailing whitespace. */
  function Trim(s: string): (r: string)
    ensures |r| <= |s|
    ensures r != [] ==> !IsTrimSpace(r[0]) && !IsTrimSpace(r[|r| - 1])
  {
    var i := LeadingEnd(s);
    var j := TrailingStart(s);
    if i < j then s[i..j] else []
  }

  /** `trim` keeps a contiguous middle part of the input: what it drops on
      either side is all whitespace, and what it keeps neither starts nor
      ends with whitespace. */
  lemma TrimKeepsMiddle(s: string) returns (i: nat, j: nat)
    ensures i <= j <= |s| && Trim(s) == s[i..j]
    ensures forall k :: 0 <= k < i ==> IsTrimSpace(s[k])
    ensures forall k :: j <= k < |s| ==> IsTrimSpace(s[k])
    ensures i < j ==> !IsTrimSpace(s[i]) && !IsTrimSpace(s[j - 1])
  {
    i := LeadingEnd(s);
    j := TrailingStart(s);
    if j <= i {
      j := i;
    }
  }

  /** The name is empty after trimming exactly when the input is blank. */
  lemma TrimEmptyIffBlank(s: string)
    ensures Trim(s) == "" <==> forall k :: 0 <= k < |s| ==> IsTrimSpace(s[k])
  {
  }
}
