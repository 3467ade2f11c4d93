/**
 * How a license key the user typed becomes a catalog file: the key is
 * upper-cased (`str.upper()`) and placed in `<dir>/license/<KEY>.toml`.
 * Upper-casing is modelled on ASCII letters only.
 */
module CatalogKey {

  predicate IsLower(c: char)
  {
    'a' <= c <= 'z'
  }

  /** Python's `str.upper()` on one ASCII character. */
  function UpperChar(c: char): char
  {
    if IsLower(c) then (c as int - 32) as char else c
  }

  /** `str.upper()`, letter by letter. */
  function Upper(s: string): (r: string)
    ensures |r| == |s|
    ensures forall i :: 0 <= i < |s| ==> r[i] == UpperChar(s[i])
    ensures forall i :: 0 <= i < |r| ==> !IsLower(r[i])
    ensures (forall i :: 0 <= i < |s| ==> !IsLower(s[i])) ==> r == s
  {
    if |s| == 0 then "" else [UpperChar(s[0])] + Upper(s[1..])
  }

  /** Two characters that are the same letter up to case, or the same character. */
  predicate SameLetter(c: char, d: char)
  {
    || c == d
    || (IsLower(c) && d as int == c as int - 32)
    || (IsLower(d) && c as int == d as int - 32)
  }

  /** Two keys that differ at most in the case of their ASCII letters. */
  predicate SameIgnoringCase(a: string, b: string)
  {
    |a| == |b| && forall i :: 0 <= i < |a| ==> SameLetter(a[i], b[i])
  }

  /** Upper-casing twice is upper-casing once. */
  lemma UpperIdempotent(s: string)
    ensures Upper(Upper(s)) == Upper(s)
  {
    var u := Upper(s);
    assert forall i :: 0 <= i < |u| ==> !IsLower(u[i]);
  }

  lemma SameLetterUpper(c: char, d: char)
    ensures UpperChar(c) == UpperChar(d) <==> SameLetter(c, d)
  {
  }

  /** Two keys upper-case to the same text exactly when they differ only in ASCII letter case. */
  lemma UpperSameIgnoringCase(a: string, b: string)
    ensures Upper(a) == Upper(b) <==> SameIgnoringCase(a, b)
  {
    if Upper(a) == Upper(b) {
      forall i | 0 <= i < |a|
        ensures SameLetter(a[i], b[i])
      {
        assert Upper(a)[i] == Upper(b)[i];
        SameLetterUpper(a[i], b[i]);
      }
    }
    if SameIgnoringCase(a, b) {
      forall i | 0 <= i < |a|
        ensures Upper(a)[i] == Upper(b)[i]
      {
        SameLetterUpper(a[i], b[i]);
      }
    }
  }

  /** The catalog file for a key: `<dir>/license/<KEY>.toml`. */
  function CatalogPath(dir: string, key: string): string
  {
    dir + "/license/" + Upper(key) + ".toml"
  }

  /** Two keys give the same path string exactly when they differ only in ASCII letter case. */
  lemma CatalogPathCaseInsensitive(dir: string, a: string, b: string)
    ensures CatalogPath(dir, a) == CatalogPath(dir, b) <==> SameIgnoringCase(a, b)
  {
    var pre := dir + "/license/";
    var pa, pb := CatalogPath(dir, a), CatalogPath(dir, b);
    if pa == pb {
      assert |a| == |b|;
      assert pa[|pre|..|pre| + |a|] == Upper(a);
      assert pb[|pre|..|pre| + |b|] == Upper(b);
    }
    UpperSameIgnoringCase(a, b);
  }
}
