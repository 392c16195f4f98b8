/**
 * The few pieces of java.lang.String behaviour the catalogue relies on:
 * lower-casing, substring search, case-insensitive equality and the
 * lexicographic order of String.compareTo. Case mapping is ASCII only.
 */
module JavaStrings {

  /** The character class [a-zA-Z0-9] of the id pattern. */
  predicate IsLetterOrDigit(ch: char) {
    'a' <= ch <= 'z' || 'A' <= ch <= 'Z' || '0' <= ch <= '9'
  }

  /** Every character of `s` is an ASCII letter or digit. */
  predicate AllLettersOrDigits(s: string) {
    forall i :: 0 <= i < |s| ==> IsLetterOrDigit(s[i])
  }

  /** A supplementary character (above U+FFFF), which UTF-16 stores as a surrogate pair. */
  predicate IsSupplementary(ch: char) {
    ch as int > 0xFFFF
  }

  /**
   * String.length(): the number of UTF-16 code units, one per character
   * and one more for each supplementary character.
   */
  function Utf16Length(s: string): (n: nat)
    ensures |s| <= n <= 2 * |s|
  {
    if s == [] then 0 else (if IsSupplementary(s[0]) then 2 else 1) + Utf16Length(s[1..])
  }

  /** length() counts characters exactly when no character is supplementary, as for ASCII letters and digits. */
  lemma {:induction false} Utf16LengthOfBmp(s: string)
    ensures Utf16Length(s) == |s| <==> forall i :: 0 <= i < |s| ==> !IsSupplementary(s[i])
    ensures AllLettersOrDigits(s) ==> Utf16Length(s) == |s|
  {
    if s != [] {
      Utf16LengthOfBmp(s[1..]);
      assert forall i :: 1 <= i < |s| ==> s[i] == s[1..][i - 1];
    }
  }

  predicate IsUpper(ch: char) {
    'A' <= ch <= 'Z'
  }

  /** Character.toLowerCase restricted to ASCII: upper-case letters move to lower case. */
  function ToLowerChar(ch: char): (r: char)
    ensures !IsUpper(r)
    ensures IsLetterOrDigit(r) <==> IsLetterOrDigit(ch)
    ensures !IsUpper(ch) ==> r == ch
  {
    if IsUpper(ch) then (ch as int + 32) as char else ch
  }

  /** String.toLowerCase, character by character. */
  function ToLower(s: string): (r: string)
    ensures |r| == |s|
    ensures forall i :: 0 <= i < |s| ==> r[i] == ToLowerChar(s[i])
  {
    if s == [] then [] else [ToLowerChar(s[0])] + ToLower(s[1..])
  }

  /** String.contains: `needle` occurs in `hay` as a contiguous block. */
  predicate Contains(hay: string, needle: string)
    ensures Contains(hay, needle) ==> |needle| <= |hay|
    ensures needle == [] ==> Contains(hay, needle)
  {
    needle <= hay || (hay != [] && Contains(hay[1..], needle))
  }

  /** String.equalsIgnoreCase, for ASCII case mapping. */
  predicate EqualsIgnoreCase(a: string, b: string)
    ensures EqualsIgnoreCase(a, b) <==>
              |a| == |b| && forall i :: 0 <= i < |a| ==> ToLowerChar(a[i]) == ToLowerChar(b[i])
  {
    ToLower(a) == ToLower(b)
  }

  /** String.compareTo(a, b) <= 0: `a` comes first or equals `b` lexicographically. */
  predicate NotAfter(a: string, b: string)
    ensures a <= b ==> NotAfter(a, b)
    ensures b < a ==> !NotAfter(a, b)
  {
    a == [] || (b != [] && (a[0] < b[0] || (a[0] == b[0] && NotAfter(a[1..], b[1..]))))
  }

  /** A block found by Contains really sits at some offset of the haystack. */
  lemma {:induction false} ContainsAt(hay: string, needle: string)
    ensures Contains(hay, needle) <==> exists i :: 0 <= i <= |hay| && needle <= hay[i..]
  {
    if needle <= hay {
      assert hay[0..] == hay;
    } else if hay != [] {
      ContainsAt(hay[1..], needle);
      forall i | 1 <= i <= |hay|
        ensures hay[i..] == hay[1..][i - 1..]
      {
      }
      if Contains(hay[1..], needle) {
        var j :| 0 <= j <= |hay[1..]| && needle <= hay[1..][j..];
        assert needle <= hay[j + 1..];
      }
    }
  }

  /** The empty keyword is found in every string, and a string contains itself. */
  lemma ContainsTrivial(hay: string)
    ensures Contains(hay, "") && Contains(hay, hay)
  {
  }

  lemma {:induction false} NotAfterReflexive(a: string)
    ensures NotAfter(a, a)
  {
    if a != [] {
      NotAfterReflexive(a[1..]);
    }
  }

  lemma {:induction false} NotAfterTotal(a: string, b: string)
    ensures NotAfter(a, b) || NotAfter(b, a)
  {
    if a != [] && b != [] && a[0] == b[0] {
      NotAfterTotal(a[1..], b[1..]);
    }
  }

  lemma {:induction false} NotAfterTransitive(a: string, b: string, c: string)
    requires NotAfter(a, b) && NotAfter(b, c)
    ensures NotAfter(a, c)
  {
    if a != [] && a[0] == b[0] && b[0] == c[0] {
      NotAfterTransitive(a[1..], b[1..], c[1..]);
    }
  }

  lemma {:induction false} NotAfterAntisymmetric(a: string, b: string)
    requires NotAfter(a, b) && NotAfter(b, a)
    ensures a == b
  {
    if a != [] {
      NotAfterAntisymmetric(a[1..], b[1..]);
      assert a == [a[0]] + a[1..] && b == [b[0]] + b[1..];
    }
  }
}
