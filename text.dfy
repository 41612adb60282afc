/** Text normalisation applied to the role cell before dispatch: surrounding
    whitespace is stripped and letters are lower-cased, as Python's
    `str.strip()` followed by `str.lower()` do. */
module Text {

  /** The characters Python's `str.isspace` accepts, which are the ones
      `str.strip()` with no argument removes: U+0009..U+000D, U+001C..U+001F,
      the space, U+0085, U+00A0, U+1680, U+2000..U+200A, U+2028, U+2029,
      U+202F, U+205F and U+3000. */
  predicate IsSpace(c: char)
  {
    ('\t' <= c <= '\r') || ('\U{1C}' <= c <= ' ') || c == '\U{85}' || c == '\U{A0}'
    || c == '\U{1680}' || ('\U{2000}' <= c <= '\U{200A}') || c == '\U{2028}' || c == '\U{2029}'
    || c == '\U{202F}' || c == '\U{205F}' || c == '\U{3000}'
  }

  /** Every character of `s[i..j]` is whitespace. */
  predicate SpaceBetween(s: string, i: nat, j: nat)
    requires i <= j <= |s|
  {
    forall k :: i <= k < j ==> IsSpace(s[k])
  }

  /** Skips whitespace forwards from `i`: the index of the first
      non-whitespace character at or after `i`, or `|s|`. */
  function SkipForward(s: string, i: nat): (r: nat)
    requires i <= |s|
    ensures i <= r <= |s| && SpaceBetween(s, i, r)
    ensures r < |s| ==> !IsSpace(s[r])
    decreases |s| - i
  {
    if i < |s| && IsSpace(s[i]) then SkipForward(s, i + 1) else i
  }

  /** Skips whitespace backwards from `j` but not below `lo`: the index just
      after the last non-whitespace character of `s[lo..j]`, or `lo`. */
  function SkipBackward(s: string, lo: nat, j: nat): (r: nat)
    requires lo <= j <= |s|
    ensures lo <= r <= j && SpaceBetween(s, r, j)
    ensures lo < r ==> !IsSpace(s[r - 1])
  {
    if lo < j && IsSpace(s[j - 1]) then SkipBackward(s, lo, j - 1) else j
  }

  /** Python's `str.strip()`: whitespace first comes off the front, then
      off the back. */
  function Strip(s: string): string
  {
    var a := SkipForward(s, 0);
    s[a..SkipBackward(s, a, |s|)]
  }

  /** Python's `str.lower()` on one character, as far as the roles compared
      against (`single`, `paired`, `skip`) can tell: ASCII capitals, and the
      Kelvin sign U+212A, whose lower case is the ASCII letter `k`. */
  function LowerChar(c: char): char
  {
    if 'A' <= c <= 'Z' then (c as int + 32) as char
    else if c == '\U{212A}' then 'k'
    else c
  }

  function Lower(s: string): string
  {
    seq(|s|, k requires 0 <= k < |s| => LowerChar(s[k]))
  }

  /** `str(x).strip().lower()` for an already stringified cell. */
  function Normalize(s: string): string
  {
    Lower(Strip(s))
  }

  /** Strip is determined by the split it makes: any split of `s` into
      whitespace, a middle part that neither starts nor ends with
      whitespace, and whitespace, has that middle part as its stripped form. */
  lemma StripUnique(s: string, a: nat, b: nat)
    requires a <= b <= |s|
    requires SpaceBetween(s, 0, a) && SpaceBetween(s, b, |s|)
    requires a < b ==> !IsSpace(s[a]) && !IsSpace(s[b - 1])
    ensures Strip(s) == s[a..b]
  {
    var a' := SkipForward(s, 0);
    if a < b {
      // The first non-whitespace character of `s` is at `a` and at `a'`.
      assert a' == a;
      // The last one is at `b - 1` and at `b' - 1`.
      var b' := SkipBackward(s, a, |s|);
      assert b' == b;
    } else {
      // `s` is all whitespace.
      assert a' == |s|;
    }
  }

  /** In `lead + s + trail` with whitespace `lead` and `trail`, whitespace
      at the ends of `s` joins up with the padding. */
  lemma PaddedSpaces(lead: string, s: string, trail: string, a: nat, b: nat)
    requires forall k :: 0 <= k < |lead| ==> IsSpace(lead[k])
    requires forall k :: 0 <= k < |trail| ==> IsSpace(trail[k])
    requires a <= b <= |s| && SpaceBetween(s, 0, a) && SpaceBetween(s, b, |s|)
    ensures SpaceBetween(lead + s + trail, 0, |lead| + a)
    ensures SpaceBetween(lead + s + trail, |lead| + b, |lead + s + trail|)
  {
    var t, i := lead + s + trail, |lead|;
    forall k | 0 <= k < i + a ensures IsSpace(t[k]) {
      if k >= i { assert t[k] == s[k - i]; }
    }
    forall k | i + b <= k < |t| ensures IsSpace(t[k]) {
      if k < i + |s| { assert t[k] == s[k - i]; }
    }
  }

  /** `s` sits unchanged inside `lead + s + trail`, shifted by `|lead|`. */
  lemma PaddedSlice(lead: string, s: string, trail: string, a: nat, b: nat)
    requires a <= b <= |s|
    ensures (lead + s + trail)[|lead| + a..|lead| + b] == s[a..b]
    ensures a < b ==> (lead + s + trail)[|lead| + a] == s[a] && (lead + s + trail)[|lead| + b - 1] == s[b - 1]
  {
    var t, i := lead + s + trail, |lead|;
    forall k | 0 <= k < b - a ensures t[i + a..i + b][k] == s[a..b][k] {
      assert t[i + a + k] == s[a + k];
    }
  }

  /** Whitespace around a value does not change how it strips. */
  lemma PaddingIgnored(lead: string, s: string, trail: string)
    requires forall k :: 0 <= k < |lead| ==> IsSpace(lead[k])
    requires forall k :: 0 <= k < |trail| ==> IsSpace(trail[k])
    ensures Strip(lead + s + trail) == Strip(s)
  {
    var a := SkipForward(s, 0);
    var b := SkipBackward(s, a, |s|);
    PaddedSpaces(lead, s, trail, a, b);
    PaddedSlice(lead, s, trail, a, b);
    StripUnique(lead + s + trail, |lead| + a, |lead| + b);
  }

  /** Two strings that agree character by character once lower-cased. */
  predicate SameUpToCase(s: string, t: string)
  {
    |s| == |t| && forall k :: 0 <= k < |s| ==> LowerChar(s[k]) == LowerChar(t[k])
  }

  /** Lower-casing a character neither makes nor unmakes whitespace. */
  lemma LowerKeepsSpace(c: char)
    ensures IsSpace(LowerChar(c)) == IsSpace(c)
  {
  }

  /** Strings equal up to case have whitespace at the same positions. */
  lemma SpacesAgree(s: string, t: string)
    requires SameUpToCase(s, t)
    ensures forall k :: 0 <= k < |s| ==> IsSpace(s[k]) == IsSpace(t[k])
  {
    forall k | 0 <= k < |s| ensures IsSpace(s[k]) == IsSpace(t[k]) {
      LowerKeepsSpace(s[k]);
      LowerKeepsSpace(t[k]);
    }
  }

  /** Strings equal up to case lower-case alike, slice by slice. */
  lemma LowerAgrees(s: string, t: string, a: nat, b: nat)
    requires SameUpToCase(s, t) && a <= b <= |s|
    ensures Lower(s[a..b]) == Lower(t[a..b])
  {
    forall k | 0 <= k < b - a ensures Lower(s[a..b])[k] == Lower(t[a..b])[k] {
      assert s[a..b][k] == s[a + k] && t[a..b][k] == t[a + k];
    }
  }

  /** Normalisation ignores letter case. */
  lemma CaseIgnored(s: string, t: string)
    requires SameUpToCase(s, t)
    ensures Normalize(s) == Normalize(t)
  {
    var a := SkipForward(s, 0);
    var b := SkipBackward(s, a, |s|);
    assert SpaceBetween(t, 0, a) && SpaceBetween(t, b, |t|) && (a < b ==> !IsSpace(t[a]) && !IsSpace(t[b - 1])) by {
      SpacesAgree(s, t);
    }
    StripUnique(t, a, b);
    LowerAgrees(s, t, a, b);
  }
}
