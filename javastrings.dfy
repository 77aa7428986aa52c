/**
 * The three `java.lang.String` operations the service relies on: `toUpperCase`,
 * `contains` and `compareTo`. Upper-casing is modelled on the ASCII letters only.
 */
module JavaStrings {

  /** A lower-case ASCII letter. */
  predicate IsLower(c: char) {
    'a' <= c <= 'z'
  }

  /** Upper-case of one character: `a`..`z` become `A`..`Z`, every other character stays. */
  function UpperChar(c: char): char {
    if IsLower(c) then (c as int - 32) as char else c
  }

  /** Two characters are equal, or one is the lower-case ASCII letter whose upper-case is the other. */
  predicate SameIgnoringCase(a: char, b: char) {
    || a == b
    || (IsLower(a) && b as int == a as int - 32)
    || (IsLower(b) && a as int == b as int - 32)
  }

  /** Upper-casing identifies exactly the characters that are equal ignoring case. */
  lemma UpperCharIff(a: char, b: char)
    ensures UpperChar(a) == UpperChar(b) <==> SameIgnoringCase(a, b)
  {
  }

  /**
   * `s.toUpperCase()`: the same length, no lower-case letter left, and each
   * character equal to the original one ignoring case. These three facts fix `u`.
   */
  function ToUpperCase(s: string): (u: string)
    ensures |u| == |s|
    ensures forall i :: 0 <= i < |u| ==> !IsLower(u[i])
    ensures forall i :: 0 <= i < |s| ==> SameIgnoringCase(s[i], u[i])
  {
    seq(|s|, i requires 0 <= i < |s| => UpperChar(s[i]))
  }

  /** Upper-casing twice is upper-casing once. */
  lemma UpperCaseIdempotent(s: string)
    ensures ToUpperCase(ToUpperCase(s)) == ToUpperCase(s)
  {
  }

  /** `t` occurs in `s` starting at index `i`. */
  ghost predicate OccursAt(s: string, t: string, i: int) {
    0 <= i && i + |t| <= |s| && s[i..i + |t|] == t
  }

  /** `s.contains(t)`: try every start position from the left. */
  function Contains(s: string, t: string): bool
    decreases |s|
  {
    if t <= s then true
    else if |s| == 0 then false
    else Contains(s[1..], t)
  }

  /** `Contains` holds exactly when `t` occurs somewhere in `s` (the empty string occurs everywhere). */
  lemma {:induction false} ContainsIff(s: string, t: string)
    ensures Contains(s, t) <==> exists i :: OccursAt(s, t, i)
    decreases |s|
  {
    assert OccursAt(s, t, 0) <==> t <= s by {
      if |t| <= |s| { assert s[0..|t|] == s[..|t|]; }
    }
    if t <= s {
    } else if |s| == 0 {
      forall i ensures !OccursAt(s, t, i) { }
    } else {
      ContainsIff(s[1..], t);
      forall i | 1 <= i ensures OccursAt(s, t, i) <==> OccursAt(s[1..], t, i - 1) {
        if i + |t| <= |s| {
          assert s[i..i + |t|] == s[1..][i - 1..i - 1 + |t|];
        }
      }
      if Contains(s[1..], t) {
        var i :| OccursAt(s[1..], t, i);
        assert OccursAt(s, t, i + 1);
      }
    }
  }

  /** `hay.toUpperCase().contains(needle.toUpperCase())`. */
  predicate ContainsIgnoreCase(hay: string, needle: string) {
    Contains(ToUpperCase(hay), ToUpperCase(needle))
  }

  /** `needle` occurs in `hay` at index `i`, each character compared ignoring case. */
  ghost predicate MatchAt(hay: string, needle: string, i: int) {
    && 0 <= i && i + |needle| <= |hay|
    && forall j :: 0 <= j < |needle| ==> SameIgnoringCase(hay[i + j], needle[j])
  }

  /** At one index, an occurrence among the upper-cased strings is a match ignoring case. */
  lemma OccursAtUpper(hay: string, needle: string, i: int)
    ensures OccursAt(ToUpperCase(hay), ToUpperCase(needle), i) <==> MatchAt(hay, needle, i)
  {
    var uh, un := ToUpperCase(hay), ToUpperCase(needle);
    if 0 <= i && i + |needle| <= |hay| {
      forall j | 0 <= j < |needle|
        ensures uh[i..i + |un|][j] == un[j] <==> SameIgnoringCase(hay[i + j], needle[j])
      {
        UpperCharIff(hay[i + j], needle[j]);
      }
      assert uh[i..i + |un|] == un <==> forall j :: 0 <= j < |un| ==> uh[i..i + |un|][j] == un[j];
    }
  }

  /** The case-insensitive contains test holds exactly when the needle matches somewhere, ignoring case. */
  lemma ContainsIgnoreCaseIff(hay: string, needle: string)
    ensures ContainsIgnoreCase(hay, needle) <==> exists i :: MatchAt(hay, needle, i)
  {
    ContainsIff(ToUpperCase(hay), ToUpperCase(needle));
    forall i ensures OccursAt(ToUpperCase(hay), ToUpperCase(needle), i) <==> MatchAt(hay, needle, i) {
      OccursAtUpper(hay, needle, i);
    }
  }

  /**
   * `a.compareTo(b) <= 0`: the first differing character decides; when one string
   * is a prefix of the other, the shorter one comes first.
   */
  predicate LexLe(a: string, b: string)
    decreases |a|
  {
    if |a| == 0 then true
    else if |b| == 0 then false
    else if a[0] < b[0] then true
    else if b[0] < a[0] then false
    else LexLe(a[1..], b[1..])
  }

  lemma {:induction false} LexLeTotal(a: string, b: string)
    ensures LexLe(a, b) || LexLe(b, a)
    decreases |a|
  {
    if |a| > 0 && |b| > 0 && a[0] == b[0] {
      LexLeTotal(a[1..], b[1..]);
    }
  }

  lemma {:induction false} LexLeTransitive(a: string, b: string, c: string)
    requires LexLe(a, b) && LexLe(b, c)
    ensures LexLe(a, c)
    decreases |a|
  {
    if |a| > 0 && |b| > 0 && |c| > 0 && a[0] == b[0] == c[0] {
      LexLeTransitive(a[1..], b[1..], c[1..]);
    }
  }

  /** Two names that compare equal are the same string. */
  lemma {:induction false} LexLeAntisymmetric(a: string, b: string)
    requires LexLe(a, b) && LexLe(b, a)
    ensures a == b
    decreases |a|
  {
    if |a| > 0 && |b| > 0 {
      LexLeAntisymmetric(a[1..], b[1..]);
      assert a == [a[0]] + a[1..];
      assert b == [b[0]] + b[1..];
    }
  }
}
