/**
 * The heading finder of the markdown parser: Go's
 * regexp.MustCompile(`(?m)^(#{1,2})\s+(.+)$`).FindAllStringSubmatchIndex(text, -1)
 * written out as a scanner. Go's regexp is leftmost-first: at the leftmost
 * position where a match exists it reports the match a backtracking engine
 * finds first, then resumes the search where that match ended.
 */
module HeadingScan {
  import opened Results

  /** RE2's `\s`: exactly these five ASCII characters (no vertical tab). */
  predicate IsRegexSpace(c: char) {
    c == '\t' || c == '\n' || c == '\U{000C}' || c == '\r' || c == ' '
  }

  /**
   * One match: [start, end) is the whole match (indices 0 and 1 of Go's
   * result), [textStart, textEnd) is capture group 2, the heading text
   * (indices 4 and 5).
   */
  datatype Match = Match(start: nat, end: nat, textStart: nat, textEnd: nat)

  /** `^` in multi-line mode: the start of the text or just after a '\n'. */
  predicate AtLineStart(text: string, p: nat) {
    p == 0 || (p <= |text| && text[p - 1] == '\n')
  }

  /** The end of the run of `\s` characters that begins at q. */
  function SpaceRunEnd(text: string, q: nat): (w: nat)
    requires q <= |text|
    ensures q <= w <= |text|
    ensures forall k :: q <= k < w ==> IsRegexSpace(text[k])
    ensures w < |text| ==> !IsRegexSpace(text[w])
    decreases |text| - q
  {
    if q < |text| && IsRegexSpace(text[q]) then SpaceRunEnd(text, q + 1) else q
  }

  /** The first '\n' at or after q, or the end of the text: where `.+$` stops. */
  function LineEnd(text: string, q: nat): (e: nat)
    requires q <= |text|
    ensures q <= e <= |text|
    ensures forall k :: q <= k < e ==> text[k] != '\n'
    ensures e < |text| ==> text[e] == '\n'
    decreases |text| - q
  {
    if q < |text| && text[q] != '\n' then LineEnd(text, q + 1) else q
  }

  /** The largest k in [lo, hi) with text[k] != '\n', if there is one. */
  function LastNonNewline(text: string, lo: nat, hi: nat): (r: Option<nat>)
    requires lo <= hi <= |text|
    ensures r.Some? ==> lo <= r.value < hi && text[r.value] != '\n'
    ensures r.Some? ==> forall k :: r.value < k < hi ==> text[k] == '\n'
    ensures r.None? ==> forall k :: lo <= k < hi ==> text[k] == '\n'
    decreases hi - lo
  {
    if lo == hi then None
    else if text[hi - 1] != '\n' then Some(hi - 1)
    else LastNonNewline(text, lo, hi - 1)
  }

  /**
   * `\s+(.+)$` after the hashes [p, q). The greedy `\s+` first takes the
   * whole white-space run [q, w); if a character follows it, `.+` takes the
   * rest of that line. If the run reaches the end of the text, `\s+` gives
   * characters back until `.+` can start on one that is not '\n'.
   */
  function MatchAfterHashes(text: string, p: nat, q: nat): Option<Match>
    requires p < q <= |text|
  {
    var w := SpaceRunEnd(text, q);
    if w == q then None
    else if w < |text| then
      var e := LineEnd(text, w);
      Some(Match(p, e, w, e))
    else
      match LastNonNewline(text, q + 1, |text|)
      case None => None
      case Some(k) =>
        var e := LineEnd(text, k);
        Some(Match(p, e, k, e))
  }

  /** Everything a reported match satisfies. */
  ghost predicate ValidMatch(text: string, m: Match) {
    && m.start + 2 <= m.textStart < m.textEnd == m.end <= |text|
    && AtLineStart(text, m.start)
    && text[m.start] == '#'
    && (m.end == |text| || text[m.end] == '\n')
  }

  /** The heading text lies on one line. */
  ghost predicate OnOneLine(text: string, m: Match)
    requires m.textEnd <= |text|
  {
    forall k :: m.textStart <= k < m.textEnd ==> text[k] != '\n'
  }

  /**
   * `^(#{1,2})\s+` of a match: one or two '#' from its start, then a
   * non-empty run of `\s` up to the heading text.
   */
  ghost predicate HashesThenSpace(text: string, m: Match)
    requires m.textStart <= |text|
  {
    var h := HashCount(text, m.start);
    && m.start + h < m.textStart
    && (forall k :: m.start <= k < m.start + h ==> text[k] == '#')
    && (forall k :: m.start + h <= k < m.textStart ==> IsRegexSpace(text[k]))
  }

  /** How many '#' the greedy `#{1,2}` takes at p (given text[p] == '#'). */
  function HashCount(text: string, p: nat): nat {
    if p + 1 < |text| && text[p + 1] == '#' then 2 else 1
  }

  /**
   * The match that begins at p, if any. `#{1,2}` is greedy: two hashes are
   * tried before one.
   */
  function MatchAt(text: string, p: nat): (r: Option<Match>)
    ensures r.Some? ==> r.value.start == p && ValidMatch(text, r.value) && OnOneLine(text, r.value)
  {
    if p >= |text| || !AtLineStart(text, p) || text[p] != '#' then None
    else
      var two := if p + 1 < |text| && text[p + 1] == '#' then MatchAfterHashes(text, p, p + 2) else None;
      if two.Some? then two else MatchAfterHashes(text, p, p + 1)
  }

  /**
   * The part of a match before its heading text is `#{1,2}\s+`: the greedy
   * one or two hashes, then one or more `\s`.
   */
  lemma MatchAtShape(text: string, p: nat)
    ensures MatchAt(text, p).Some? ==> HashesThenSpace(text, MatchAt(text, p).value)
  {
  }

  /**
   * When the regex matches at p, stated without the scanner: p is at a line
   * start on a '#'; the greedy hashes are followed by a `\s`; and some
   * character other than '\n' lies after that first `\s`, for `.+` to
   * start on.
   */
  predicate HeadingStartsAt(text: string, p: nat) {
    && p < |text| && AtLineStart(text, p) && text[p] == '#'
    && p + HashCount(text, p) < |text| && IsRegexSpace(text[p + HashCount(text, p)])
    && exists k :: p + HashCount(text, p) < k < |text| && text[k] != '\n'
  }

  /**
   * MatchAt finds a match at p exactly when the regex can match there. When
   * a character that is not `\s` follows the white space after the hashes,
   * the heading text starts on it and runs to the end of its line.
   */
  lemma MatchAtExactly(text: string, p: nat)
    ensures MatchAt(text, p).Some? <==> HeadingStartsAt(text, p)
    ensures HeadingStartsAt(text, p) && SpaceRunEnd(text, p + HashCount(text, p)) < |text| ==>
              var w := SpaceRunEnd(text, p + HashCount(text, p));
              MatchAt(text, p) == Some(Match(p, LineEnd(text, w), w, LineEnd(text, w)))
  {
  }

  /** Every match is valid and matches do not overlap. */
  ghost predicate Scanned(text: string, ms: seq<Match>) {
    && (forall i :: 0 <= i < |ms| ==> ValidMatch(text, ms[i]))
    && (forall i, j :: 0 <= i < j < |ms| ==> ms[i].end < ms[j].start)
  }

  /** The matches found by searching from pos onwards. */
  function FindAllFrom(text: string, pos: nat): (ms: seq<Match>)
    requires pos <= |text|
    ensures Scanned(text, ms)
    ensures forall i :: 0 <= i < |ms| ==> pos <= ms[i].start
    decreases |text| - pos
  {
    if pos == |text| then []
    else
      match MatchAt(text, pos)
      case Some(m) =>
        var rest := FindAllFrom(text, m.end);
        [m] + rest
      case None => FindAllFrom(text, pos + 1)
  }

  /** All the heading matches of the text, in order. */
  function Headings(text: string): (ms: seq<Match>)
    ensures Scanned(text, ms)
  {
    FindAllFrom(text, 0)
  }

  /** Each reported match is the match that begins at its start, so its heading text lies on one line. */
  lemma {:induction false} FindAllFromAreMatches(text: string, pos: nat, i: nat)
    requires pos <= |text| && i < |FindAllFrom(text, pos)|
    ensures MatchAt(text, FindAllFrom(text, pos)[i].start) == Some(FindAllFrom(text, pos)[i])
    ensures OnOneLine(text, FindAllFrom(text, pos)[i])
    decreases |text| - pos
  {
    match MatchAt(text, pos)
    case Some(m) =>
      if i > 0 {
        FindAllFromAreMatches(text, m.end, i - 1);
      }
    case None =>
      FindAllFromAreMatches(text, pos + 1, i);
  }

  /** Position p is the start of one of the matches ms or lies inside it. */
  predicate Covers(ms: seq<Match>, p: nat) {
    exists i :: 0 <= i < |ms| && ms[i].start <= p < ms[i].end
  }

  /**
   * The scan misses nothing: every position where a match could begin is the
   * start of a reported match or lies inside one.
   */
  lemma {:induction false} FindAllFromComplete(text: string, pos: nat, p: nat)
    requires pos <= p < |text|
    requires MatchAt(text, p).Some?
    ensures Covers(FindAllFrom(text, pos), p)
    decreases |text| - pos
  {
    var ms := FindAllFrom(text, pos);
    var r := MatchAt(text, pos);
    if r.Some? {
      var m := r.value;
      var rest := FindAllFrom(text, m.end);
      assert ms == [m] + rest;
      if p >= m.end {
        FindAllFromComplete(text, m.end, p);
        var i :| 0 <= i < |rest| && rest[i].start <= p < rest[i].end;
        assert ms[i + 1] == rest[i];
      } else {
        assert ms[0].start <= p < ms[0].end;
      }
    } else {
      assert ms == FindAllFrom(text, pos + 1);
      FindAllFromComplete(text, pos + 1, p);
    }
  }

  /** A line `###...` never starts a match, so third-level headings stay inside the content. */
  lemma NoMatchAtTripleHash(text: string, p: nat)
    requires p + 3 <= |text| && text[p] == '#' && text[p + 1] == '#' && text[p + 2] == '#'
    ensures MatchAt(text, p).None?
  {
  }

  /**
   * A line `# T` or `## T`, where T starts with a character that is not white
   * space, is matched with heading text T up to the end of that line.
   */
  lemma PlainHeadingMatches(text: string, p: nat, hashes: nat)
    requires hashes == 1 || hashes == 2
    requires AtLineStart(text, p) && p + hashes + 2 <= |text|
    requires forall k :: p <= k < p + hashes ==> text[k] == '#'
    requires text[p + hashes] == ' ' && !IsRegexSpace(text[p + hashes + 1])
    ensures MatchAt(text, p) == Some(Match(p, LineEnd(text, p + hashes + 1), p + hashes + 1, LineEnd(text, p + hashes + 1)))
  {
    assert SpaceRunEnd(text, p + hashes + 1) == p + hashes + 1;
  }

  /**
   * `\s` also matches '\n': a bare `#` line followed by a text line is one
   * match whose heading text is the second line.
   */
  lemma BareHashTakesNextLine()
    ensures MatchAt("#\nfoo\nbar", 0) == Some(Match(0, 5, 2, 5))
  {
    assert SpaceRunEnd("#\nfoo\nbar", 2) == 2;
    assert SpaceRunEnd("#\nfoo\nbar", 1) == 2;
    assert LineEnd("#\nfoo\nbar", 5) == 5;
    assert LineEnd("#\nfoo\nbar", 2) == 5;
  }
}
