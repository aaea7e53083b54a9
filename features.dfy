/**
 * The feature extractor of the phishing API: a total, deterministic map from a URL
 * string to the fixed-order integer vector a trained classifier would score.
 */
module Features {

  /** The literal pattern searched for by the "uses HTTPS" feature. */
  const Https: string := "https://"

  /** `pat` occurs in `s` starting at position `i`. */
  predicate OccursAt(s: string, pat: string, i: int)
  {
    0 <= i && i + |pat| <= |s| && s[i..i + |pat|] == pat
  }

  /** A search for a literal pattern anywhere in `s`, as `re.search` does for a pattern without metacharacters. */
  function Occurs(s: string, pat: string): (b: bool)
    ensures b <==> exists i :: OccursAt(s, pat, i)
    decreases |s|
  {
    if |s| < |pat| then false
    else if s[..|pat|] == pat then (assert OccursAt(s, pat, 0); true)
    else
      var b := Occurs(s[1..], pat);
      assert b ==> exists i :: OccursAt(s, pat, i) by {
        if b {
          var i :| OccursAt(s[1..], pat, i);
          assert s[1..][i..i + |pat|] == s[i + 1..i + 1 + |pat|];
          assert OccursAt(s, pat, i + 1);
        }
      }
      assert (exists i :: OccursAt(s, pat, i)) ==> b by {
        if exists i :: OccursAt(s, pat, i) {
          var i :| OccursAt(s, pat, i);
          assert i != 0;
          assert s[1..][i - 1..i - 1 + |pat|] == s[i..i + |pat|];
          assert OccursAt(s[1..], pat, i - 1);
        }
      }
      b
  }

  /** An ASCII decimal digit: the characters `\d` matches in an ASCII string. */
  predicate IsDigit(c: char)
  {
    '0' <= c <= '9'
  }

  /** A search for `\d`: some character of `s` is a digit. */
  function HasDigit(s: string): (b: bool)
    ensures b <==> exists i :: 0 <= i < |s| && IsDigit(s[i])
  {
    if s == [] then false
    else IsDigit(s[0]) || HasDigit(s[1..])
  }

  /**
   * `extract_features`: the URL's length, then 1 when "https://" occurs anywhere in it
   * (not only as the scheme) else 0, then 1 when it contains a digit else 0.
   */
  function ExtractFeatures(url: string): (f: seq<int>)
    ensures |f| == 3
    ensures f[0] == |url|
    ensures f[1] == 1 <==> exists i :: OccursAt(url, Https, i)
    ensures f[2] == 1 <==> exists i :: 0 <= i < |url| && IsDigit(url[i])
    ensures f[1] in {0, 1} && f[2] in {0, 1}
  {
    [|url|, if Occurs(url, Https) then 1 else 0, if HasDigit(url) then 1 else 0]
  }
}
