/**
 * The pieces of Go's standard library that the upload parser relies on:
 * strings.TrimSpace, strings.ToLower (on ASCII letters) and filepath.Ext
 * (with '/' as the only path separator).
 */
module GoStrings {

  /** unicode.IsSpace: the characters with the Unicode White_Space property. */
  predicate IsSpace(c: char) {
    || c == '\t' || c == '\n' || c == '\U{000B}' || c == '\U{000C}' || c == '\r' || c == ' '
    || c == '\U{0085}' || c == '\U{00A0}' || c == '\U{1680}'
    || ('\U{2000}' <= c <= '\U{200A}')
    || c == '\U{2028}' || c == '\U{2029}' || c == '\U{202F}' || c == '\U{205F}' || c == '\U{3000}'
  }

  predicate AllSpace(s: string) {
    forall k :: 0 <= k < |s| ==> IsSpace(s[k])
  }

  /** The first index at or after i whose character is not white space, or |s|. */
  function SkipSpace(s: string, i: nat): (j: nat)
    requires i <= |s|
    ensures i <= j <= |s|
    ensures forall k :: i <= k < j ==> IsSpace(s[k])
    ensures j < |s| ==> !IsSpace(s[j])
    decreases |s| - i
  {
    if i < |s| && IsSpace(s[i]) then SkipSpace(s, i + 1) else i
  }

  /** The index just past the last character before j that is not white space, but no lower than lo. */
  function SkipSpaceBack(s: string, lo: nat, j: nat): (e: nat)
    requires lo <= j <= |s|
    ensures lo <= e <= j
    ensures forall k :: e <= k < j ==> IsSpace(s[k])
    ensures e > lo ==> !IsSpace(s[e - 1])
    decreases j - lo
  {
    if j > lo && IsSpace(s[j - 1]) then SkipSpaceBack(s, lo, j - 1) else j
  }

  /**
   * strings.TrimSpace. The result is empty exactly when s is all white space,
   * and otherwise starts and ends with a character that is not white space;
   * TrimSpaceCutsOnlySpace says which slice of s it is.
   */
  function TrimSpace(s: string): (r: string)
    ensures r == [] <==> AllSpace(s)
    ensures r != [] ==> !IsSpace(r[0]) && !IsSpace(r[|r| - 1])
    ensures |r| <= |s|
  {
    var lo := SkipSpace(s, 0);
    var hi := SkipSpaceBack(s, lo, |s|);
    s[lo..hi]
  }

  /**
   * The trimmed string is the slice of s left once the leading and the
   * trailing white space are cut off: everything before it and after it is
   * white space, and it neither starts nor ends with white space.
   */
  lemma TrimSpaceCutsOnlySpace(s: string)
    ensures exists lo, hi :: 0 <= lo <= hi <= |s| && TrimSpace(s) == s[lo..hi] &&
                             AllSpace(s[..lo]) && AllSpace(s[hi..]) &&
                             (lo < hi ==> !IsSpace(s[lo]) && !IsSpace(s[hi - 1]))
  {
    var lo := SkipSpace(s, 0);
    var hi := SkipSpaceBack(s, lo, |s|);
    assert AllSpace(s[..lo]);
    assert AllSpace(s[hi..]);
  }

  /** Trimming twice is the same as trimming once. */
  lemma {:induction false} TrimSpaceIdempotent(s: string)
    ensures TrimSpace(TrimSpace(s)) == TrimSpace(s)
  {
    var r := TrimSpace(s);
    if r != [] {
      assert SkipSpace(r, 0) == 0;
      assert SkipSpaceBack(r, 0, |r|) == |r|;
    }
  }

  /** unicode.ToLower restricted to ASCII letters. */
  function ToLowerChar(c: char): char {
    if 'A' <= c <= 'Z' then (c as int + 32) as char else c
  }

  /** strings.ToLower, character by character. */
  function ToLower(s: string): (r: string)
    ensures |r| == |s|
    ensures forall k :: 0 <= k < |s| ==> r[k] == ToLowerChar(s[k])
  {
    seq(|s|, k requires 0 <= k < |s| => ToLowerChar(s[k]))
  }

  /** Lowering leaves no ASCII capital and keeps every other character. */
  lemma ToLowerLeavesNoCapital(s: string)
    ensures forall k :: 0 <= k < |s| ==> !('A' <= ToLower(s)[k] <= 'Z')
    ensures forall k :: 0 <= k < |s| && !('A' <= s[k] <= 'Z') ==> ToLower(s)[k] == s[k]
  {
  }

  /** `s` ends with `suffix` when letters are compared ignoring ASCII case (`suffix` is lower case). */
  predicate EndsWithFold(s: string, suffix: string) {
    |suffix| <= |s| && ToLower(s[|s| - |suffix|..]) == suffix
  }

  /**
   * filepath.Ext: the suffix of `path` from the last '.' of its final element,
   * or "" when that element has no '.'.
   */
  function Ext(path: string): (e: string)
    ensures |e| <= |path| && e == path[|path| - |e|..]
    ensures e != [] ==> e[0] == '.'
    ensures forall k :: 0 < k < |e| ==> e[k] != '.' && e[k] != '/'
    ensures e == [] ==> forall k :: 0 <= k < |path| && path[k] == '.' ==>
                          exists j :: k < j < |path| && path[j] == '/'
  {
    if path == [] then []
    else
      var c := path[|path| - 1];
      if c == '/' then []
      else if c == '.' then [c]
      else
        var e := Ext(path[..|path| - 1]);
        if e == [] then [] else e + [c]
  }

  /**
   * The extension of `path` is `ext` (a '.' followed by characters other than
   * '.' and '/') exactly when `path` ends with `ext`.
   */
  lemma {:induction false} ExtIsSuffix(path: string, ext: string)
    requires |ext| >= 1 && ext[0] == '.'
    requires forall k :: 0 < k < |ext| ==> ext[k] != '.' && ext[k] != '/'
    ensures Ext(path) == ext <==> |ext| <= |path| && path[|path| - |ext|..] == ext
  {
    if |ext| <= |path| && path[|path| - |ext|..] == ext {
      ExtOfSuffix(path, ext);
    }
  }

  lemma {:induction false} ExtOfSuffix(path: string, ext: string)
    requires |ext| >= 1 && ext[0] == '.'
    requires forall k :: 0 < k < |ext| ==> ext[k] != '.' && ext[k] != '/'
    requires |ext| <= |path| && path[|path| - |ext|..] == ext
    ensures Ext(path) == ext
    decreases |ext|
  {
    var c := path[|path| - 1];
    if |ext| == 1 {
      assert c == ext[0];
    } else {
      assert c == ext[|ext| - 1];
      var prefix := path[..|path| - 1];
      var shorter := ext[..|ext| - 1];
      assert prefix[|prefix| - |shorter|..] == shorter;
      ExtOfSuffix(prefix, shorter);
      assert shorter + [c] == ext;
    }
  }

}
