/** `normalize_name`: the key under which catalog records are matched.
    Python lower-cases the name and then deletes every character outside
    `[a-z0-9]`. Besides `A`-`Z`, exactly two characters lower-case to
    something that survives: KELVIN SIGN (U+212A) becomes `k`, and LATIN
    CAPITAL LETTER I WITH DOT ABOVE (U+0130) becomes `i` followed by a
    combining dot that is then deleted. */
module Names {
  import opened Text

  /** The characters a normalised name consists of. */
  predicate IsNameChar(c: char) { IsLower(c) || IsDigit(c) }

  /** The characters other than ASCII letters and digits whose lower-case
      form still holds a letter or digit. */
  predicate IsFoldedSpecial(c: char) { c == '\U{212A}' || c == '\U{0130}' }

  /** What one character of the input contributes to the normalised name:
      ASCII letters in lower case, digits as they are, the two special
      letters as their ASCII lower case, and nothing for anything else. */
  function FoldChar(c: char): (r: string)
    ensures |r| <= 1
    ensures forall k :: 0 <= k < |r| ==> IsNameChar(r[k])
    ensures IsLetter(c) || IsDigit(c) ==> r == [LowerChar(c)]
    ensures c == '\U{212A}' ==> r == "k"
    ensures c == '\U{0130}' ==> r == "i"
    ensures !IsLetter(c) && !IsDigit(c) && !IsFoldedSpecial(c) ==> r == ""
  {
    if IsUpper(c) then [LowerChar(c)]
    else if IsNameChar(c) then [c]
    else if c == '\U{212A}' then "k"
    else if c == '\U{0130}' then "i"
    else ""
  }

  /** `normalize_name`: lower-case, then delete everything outside
      `[a-z0-9]`. */
  function NormalizeName(name: string): (r: string)
    ensures name == "" ==> r == ""
    ensures |r| <= |name|
    ensures forall k :: 0 <= k < |r| ==> IsNameChar(r[k])
    decreases |name|
  {
    if |name| == 0 then "" else FoldChar(name[0]) + NormalizeName(name[1..])
  }

  /** Normalisation works character by character, so it distributes over
      concatenation. */
  lemma {:induction false} NormalizeConcat(a: string, b: string)
    ensures NormalizeName(a + b) == NormalizeName(a) + NormalizeName(b)
    decreases |a|
  {
    if |a| > 0 {
      NormalizeConcat(a[1..], b);
      assert (a + b)[0] == a[0];
      assert (a + b)[1..] == a[1..] + b;
      calc {
        NormalizeName(a + b);
        FoldChar(a[0]) + NormalizeName(a[1..] + b);
        FoldChar(a[0]) + (NormalizeName(a[1..]) + NormalizeName(b));
        (FoldChar(a[0]) + NormalizeName(a[1..])) + NormalizeName(b);
        NormalizeName(a) + NormalizeName(b);
      }
    } else {
      assert a + b == b;
    }
  }

  /** A name is its own normal form exactly when it already consists of
      lower-case ASCII letters and digits only. */
  lemma {:induction false} NormalizeFixedPoint(s: string)
    ensures NormalizeName(s) == s <==> forall k :: 0 <= k < |s| ==> IsNameChar(s[k])
    decreases |s|
  {
    if |s| > 0 && forall k :: 0 <= k < |s| ==> IsNameChar(s[k]) {
      assert forall k :: 0 <= k < |s[1..]| ==> IsNameChar(s[1..][k]) by {
        forall k | 0 <= k < |s[1..]| ensures IsNameChar(s[1..][k]) {
          assert s[1..][k] == s[k + 1];
        }
      }
      NormalizeFixedPoint(s[1..]);
      assert s == [s[0]] + s[1..];
    }
  }

  lemma NormalizeIdempotent(s: string)
    ensures NormalizeName(NormalizeName(s)) == NormalizeName(s)
  {
    NormalizeFixedPoint(NormalizeName(s));
  }

  /** Upper and lower case spell the same key, so normalising after an
      ASCII `lower()` changes nothing. */
  lemma {:induction false} NormalizeIgnoresCase(s: string)
    ensures NormalizeName(Lower(s)) == NormalizeName(s)
    decreases |s|
  {
    if |s| > 0 {
      NormalizeIgnoresCase(s[1..]);
      assert Lower(s)[1..] == Lower(s[1..]);
      assert FoldChar(LowerChar(s[0])) == FoldChar(s[0]);
    }
  }

  /** A character that is neither an ASCII letter, a digit nor one of the
      two special letters is deleted wherever it occurs, which is why
      "Scrap-Metal" and "scrap metal" share a key. */
  lemma {:induction false} NormalizeDrops(a: string, c: char, b: string)
    requires !IsLetter(c) && !IsDigit(c) && !IsFoldedSpecial(c)
    ensures NormalizeName(a + [c] + b) == NormalizeName(a + b)
  {
    var x := a + [c];
    NormalizeSingle(c);
    NormalizeConcat(a, [c]);
    assert NormalizeName(x) == NormalizeName(a);
    NormalizeConcat(x, b);
    NormalizeConcat(a, b);
  }

  /** An ASCII letter or digit survives in place, in lower case. */
  lemma {:induction false} NormalizeKeeps(a: string, c: char, b: string)
    requires IsLetter(c) || IsDigit(c)
    ensures NormalizeName(a + [c] + b) == NormalizeName(a) + [LowerChar(c)] + NormalizeName(b)
  {
    var x := a + [c];
    NormalizeSingle(c);
    NormalizeConcat(a, [c]);
    NormalizeConcat(x, b);
  }

  lemma NormalizeSingle(c: char)
    ensures NormalizeName([c]) == FoldChar(c)
  {
    assert [c][1..] == [];
  }
}
