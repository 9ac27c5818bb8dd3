/** Classes of characters in the C locale, and case folding. */
module CharText {

  predicate IsDigit(c: char) {
    '0' <= c <= '9'
  }

  predicate IsLetter(c: char) {
    'A' <= c <= 'Z' || 'a' <= c <= 'z'
  }

  predicate AllDigits(s: string) {
    forall i :: 0 <= i < |s| ==> IsDigit(s[i])
  }

  function LowerChar(c: char): (r: char) {
    if 'A' <= c <= 'Z' then c - 'A' + 'a' else c
  }

  function ToLower(s: string): (t: string)
    ensures |t| == |s|
  {
    seq(|s|, i requires 0 <= i < |s| => LowerChar(s[i]))
  }

  /** The same text up to the case of the letters A to Z. */
  predicate Alike(a: string, b: string) {
    |a| == |b| && forall i :: 0 <= i < |a| ==> CharsAlike(a[i], b[i])
  }

  predicate CharsAlike(c: char, d: char) {
    || c == d
    || ('A' <= c <= 'Z' && d as int == c as int + 32)
    || ('A' <= d <= 'Z' && c as int == d as int + 32)
  }

  lemma CharsLowered(c: char, d: char)
    ensures LowerChar(c) == LowerChar(d) <==> CharsAlike(c, d)
  {
  }

  lemma LowerMeansAlike(a: string, b: string)
    ensures ToLower(a) == ToLower(b) <==> Alike(a, b)
  {
    hide LowerChar, CharsAlike;
    var s, t := ToLower(a), ToLower(b);
    forall i | 0 <= i < |a| && i < |b| {
      CharsLowered(a[i], b[i]);
    }
    if s == t {
      assert forall i :: 0 <= i < |a| ==> LowerChar(a[i]) == s[i] == t[i] == LowerChar(b[i]);
    } else if |a| == |b| {
      var i :| 0 <= i < |s| && s[i] != t[i];
      assert LowerChar(a[i]) != LowerChar(b[i]);
    }
  }

  /** The characters a name may begin with: valid_first_char. */
  predicate FirstChar(c: char) {
    IsLetter(c) || c == '_'
  }
}
