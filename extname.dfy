/** File extensions as `File.extname` reports them, restricted to well-formed names. */
module Extname {

  predicate IsAsciiDigit(c: char) {
    '0' <= c <= '9'
  }

  predicate IsAsciiAlnum(c: char) {
    IsAsciiDigit(c) || 'a' <= c <= 'z' || 'A' <= c <= 'Z'
  }

  /** The index of the last '.' in s, or -1 when s has none. */
  function LastDot(s: string): (r: int)
    ensures -1 <= r < |s|
    ensures r >= 0 ==> s[r] == '.'
    ensures forall k :: r < k < |s| ==> s[k] != '.'
  {
    if |s| == 0 then -1
    else if s[|s| - 1] == '.' then |s| - 1
    else LastDot(s[..|s| - 1])
  }

  /** An extension: a dot followed by one or more ASCII letters or digits. */
  predicate IsExt(ext: string) {
    |ext| >= 2 && ext[0] == '.' && forall k :: 1 <= k < |ext| ==> IsAsciiAlnum(ext[k])
  }

  /** The names the model works on: a non-empty base that does not start with a dot,
      then an extension from the last dot on, and no line break anywhere. */
  predicate HasExt(s: string) {
    0 < LastDot(s) && IsExt(s[LastDot(s)..]) && s[0] != '.' && '\n' !in s
  }

  /** `File.extname(s)`: the text from the last dot on. */
  function Ext(s: string): (ext: string)
    requires HasExt(s)
    ensures IsExt(ext) && |ext| < |s|
    ensures s == Base(s) + ext
  {
    s[LastDot(s)..]
  }

  /** What precedes the extension. */
  function Base(s: string): (b: string)
    requires HasExt(s)
    ensures |b| == LastDot(s) > 0
  {
    s[..LastDot(s)]
  }

  /** A name built from a base and an extension splits back into exactly those two parts. */
  lemma SplitName(b: string, ext: string)
    requires IsExt(ext) && |b| > 0 && b[0] != '.' && '\n' !in b
    ensures HasExt(b + ext) && Base(b + ext) == b && Ext(b + ext) == ext
  {
    var s := b + ext;
    var d := LastDot(s);
    assert s[|b|] == '.';
    assert d == |b|;
    assert s[d..] == ext;
    assert s[..d] == b;
    forall k | 0 <= k < |s| ensures s[k] != '\n' {
      if k < |b| { assert s[k] == b[k]; } else { assert s[k] == ext[k - |b|]; }
    }
  }
}
