/**
 * Case folding of the analysed text. Both programs lower-case a copy of the
 * text with `std::transform(..., ::tolower)` before matching; here `::tolower`
 * is taken in its ASCII form: 'A'..'Z' become 'a'..'z', nothing else changes.
 */
module AsciiCase {

  predicate IsUpper(c: char)
  {
    'A' <= c <= 'Z'
  }

  /** `::tolower` on one character. */
  function Lower(c: char): (r: char)
    ensures !IsUpper(r)
    ensures r != c ==> IsUpper(c)
  {
    if IsUpper(c) then (c as int - 'A' as int + 'a' as int) as char else c
  }

  /** The text after `transform(text.begin(), text.end(), text.begin(), ::tolower)`. */
  function LowerString(s: string): string
  {
    seq(|s|, i requires 0 <= i < |s| => Lower(s[i]))
  }

  /** The in-place `transform` over a character buffer. */
  method LowerInPlace(a: array<char>)
    modifies a
    ensures a[..] == LowerString(old(a[..]))
  {
    for k := 0 to a.Length
      invariant forall t :: 0 <= t < k ==> a[t] == Lower(old(a[t]))
      invariant forall t :: k <= t < a.Length ==> a[t] == old(a[t])
    {
      a[k] := Lower(a[k]);
    }
  }

  /** `string lowerText = text;` followed by the in-place `transform`. */
  method LowerCopy(s: string) returns (r: string)
    ensures r == LowerString(s)
  {
    var buffer := new char[|s|](i requires 0 <= i < |s| => s[i]);
    assert buffer[..] == s;
    LowerInPlace(buffer);
    r := buffer[..];
  }
}
