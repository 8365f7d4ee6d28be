/** The two string operations of the verification pipeline that are not foreign calls:
    removing trailing whitespace with the regular expression `\s*$`, and the lower-casing
    used to compare an issuer with an address. */
module Text {

  /** RE2's `\s` class: tab, newline, form feed, carriage return and space.
      Unlike some other engines, RE2 leaves out the vertical tab. */
  predicate IsSpace(c: char) {
    c == '\t' || c == '\n' || c == '\U{000C}' || c == '\r' || c == ' '
  }

  predicate AllSpace(s: string) {
    forall i :: 0 <= i < |s| ==> IsSpace(s[i])
  }

  /** `r` is what is left of `s` once a trailing run of whitespace is cut off, and that run is
      the longest there is: `r` is a prefix of `s`, only whitespace follows it, and it does not
      itself end in whitespace. */
  ghost predicate IsTrimOf(s: string, r: string) {
    |r| <= |s| && r == s[..|r|] && AllSpace(s[|r|..]) && (r == [] || !IsSpace(r[|r| - 1]))
  }

  /** Replacing every match of `\s*$` (where `$` is the end of the text) by nothing. The leftmost
      match starts at the first index from which only whitespace remains and runs to the end; the
      empty match at the end that follows it abuts it and is skipped, so exactly one match is
      removed. When the text does not end in whitespace the one match is empty. */
  function TrimTrailingSpace(s: string): (r: string)
    ensures IsTrimOf(s, r)
    decreases |s|
  {
    if s != [] && IsSpace(s[|s| - 1]) then
      var r := TrimTrailingSpace(s[..|s| - 1]);
      assert s[|r|..] == s[..|s| - 1][|r|..] + [s[|s| - 1]];
      r
    else
      s
  }

  /** No index before the trimmed length starts a match of `\s*$`: the trim stops at the leftmost
      match, so every non-whitespace character of `s` is kept. */
  lemma TrimStartsAtLeftmostMatch(s: string, r: string, i: nat)
    requires IsTrimOf(s, r)
    requires i <= |s| && AllSpace(s[i..])
    ensures |r| <= i
  {
    if r != [] {
      assert s[|r| - 1] == r[|r| - 1];
      forall j | i <= j < |s| ensures IsSpace(s[j]) {
        assert s[i..][j - i] == s[j];
      }
    }
  }

  /** The properties in IsTrimOf pin the result down: there is exactly one way to trim. */
  lemma TrimUnique(s: string, r: string)
    requires IsTrimOf(s, r)
    ensures r == TrimTrailingSpace(s)
  {
    var t := TrimTrailingSpace(s);
    TrimStartsAtLeftmostMatch(s, r, |t|);
    TrimStartsAtLeftmostMatch(s, t, |r|);
  }

  /** Any run of whitespace appended to a text is removed together with the text's own trailing
      whitespace: a token and the same token followed by whitespace trim to the same string. */
  lemma TrimIgnoresAppendedSpace(s: string, w: string)
    requires AllSpace(w)
    ensures TrimTrailingSpace(s + w) == TrimTrailingSpace(s)
  {
    var t := TrimTrailingSpace(s);
    assert (s + w)[..|t|] == t;
    assert (s + w)[|t|..] == s[|t|..] + w;
    TrimUnique(s + w, t);
  }

  /** Only trailing whitespace goes: whatever comes before the last non-whitespace character,
      leading and internal whitespace included, is kept as it is. */
  lemma TrimKeepsAllButTrailingSpace(a: string, b: string)
    requires !AllSpace(b)
    ensures TrimTrailingSpace(a + b) == a + TrimTrailingSpace(b)
  {
    var t := TrimTrailingSpace(b);
    assert b[0..] == b;
    var r := a + t;
    assert (a + b)[..|r|] == r;
    assert (a + b)[|r|..] == b[|t|..];
    assert r[|r| - 1] == t[|t| - 1];
    TrimUnique(a + b, r);
  }

  /** Trimming twice is trimming once. */
  lemma TrimIdempotent(s: string)
    ensures TrimTrailingSpace(TrimTrailingSpace(s)) == TrimTrailingSpace(s)
  {
    var t := TrimTrailingSpace(s);
    assert t[|t|..] == [];
    TrimUnique(t, t);
  }

  /** ASCII lower-casing of one character. */
  function LowerChar(c: char): char {
    if 'A' <= c <= 'Z' then (c as int + 32) as char else c
  }

  /** Lower-casing of a string, character by character: no upper-case ASCII letter remains, and
      each character is the original one up to case. */
  function ToLower(s: string): (r: string)
    ensures |r| == |s|
    ensures forall i :: 0 <= i < |r| ==> !('A' <= r[i] <= 'Z') && SameIgnoringCase(s[i], r[i])
  {
    seq(|s|, i requires 0 <= i < |s| => LowerChar(s[i]))
  }

  /** Two characters are the same up to ASCII case: equal, or an upper-case letter and the
      lower-case letter 32 code points above it. */
  predicate SameIgnoringCase(c: char, d: char) {
    c == d
    || ('A' <= c <= 'Z' && d as int == c as int + 32)
    || ('A' <= d <= 'Z' && c as int == d as int + 32)
  }

  lemma LowerCharEqualIff(c: char, d: char)
    ensures LowerChar(c) == LowerChar(d) <==> SameIgnoringCase(c, d)
  {
  }

  /** Comparing lower-cased strings is comparing character by character up to case:
      a change of case anywhere keeps two strings equal, any other change makes them differ. */
  lemma LowerEqualIff(a: string, b: string)
    ensures ToLower(a) == ToLower(b)
            <==> |a| == |b| && forall i :: 0 <= i < |a| ==> SameIgnoringCase(a[i], b[i])
  {
    if ToLower(a) == ToLower(b) {
      forall i | 0 <= i < |a| ensures SameIgnoringCase(a[i], b[i]) {
        assert ToLower(a)[i] == ToLower(b)[i];
        LowerCharEqualIff(a[i], b[i]);
      }
    }
    if |a| == |b| && forall i :: 0 <= i < |a| ==> SameIgnoringCase(a[i], b[i]) {
      forall i | 0 <= i < |a| ensures ToLower(a)[i] == ToLower(b)[i] {
        LowerCharEqualIff(a[i], b[i]);
      }
    }
  }

  /** Lower-casing works on each part of a concatenation separately. */
  lemma ToLowerAppend(a: string, b: string)
    ensures ToLower(a + b) == ToLower(a) + ToLower(b)
  {
    assert forall i :: 0 <= i < |a + b| ==> ToLower(a + b)[i] == (ToLower(a) + ToLower(b))[i];
  }

  /** One character of a string replaced: the lower-cased strings still agree exactly when the
      new character is the old one up to case. */
  lemma OneEditMatchesIffCaseChange(s: string, i: nat, c: char)
    requires i < |s|
    ensures ToLower(s[i := c]) == ToLower(s) <==> SameIgnoringCase(c, s[i])
  {
    LowerEqualIff(s[i := c], s);
    if SameIgnoringCase(c, s[i]) {
      assert forall j :: 0 <= j < |s| ==> SameIgnoringCase(s[i := c][j], s[j]);
    } else {
      assert s[i := c][i] == c;
    }
  }
}
