/**
 * The keyboard shim reads the image path out of an element's inline `onclick`
 * text with the regular expression `openCertificate\(['"](.+?)['"]\)` and uses
 * its first group. This module states what that one pattern matches, following
 * the ECMAScript rules for it: the match starting furthest left wins, the lazy
 * group `.+?` is as short as possible (at least one character), `.` does not
 * match a line terminator, and the two quotes need not be the same kind.
 */
module OnclickPattern {
  import opened Wrappers

  /** The literal text in front of the opening quote. */
  const Callee: string := "openCertificate("

  predicate IsQuote(c: char) {
    c == '\'' || c == '"'
  }

  /** The characters `.` does not match. */
  predicate IsLineTerminator(c: char) {
    c == '\n' || c == '\r' || c == '\U{2028}' || c == '\U{2029}'
  }

  predicate NoLineTerminator(s: string) {
    forall i :: 0 <= i < |s| ==> !IsLineTerminator(s[i])
  }

  /** `openCertificate(` and a quote stand at position `i`. */
  predicate OpensAt(s: string, i: int) {
    0 <= i && i + |Callee| + 1 <= |s| && s[i..i + |Callee|] == Callee && IsQuote(s[i + |Callee|])
  }

  /** A group of `k` characters starting at `j` is followed by a quote and `)`. */
  predicate ClosesAt(s: string, j: int, k: int) {
    0 <= j && 1 <= k && j + k + 2 <= |s|
    && NoLineTerminator(s[j..j + k]) && IsQuote(s[j + k]) && s[j + k + 1] == ')'
  }

  /** Where the group begins for a match starting at `i`. */
  function GroupStart(i: int): int {
    i + |Callee| + 1
  }

  /** The whole pattern matches from position `i` with a group of length `k`. */
  predicate MatchAt(s: string, i: int, k: int) {
    OpensAt(s, i) && ClosesAt(s, GroupStart(i), k)
  }

  /** The match the regular expression reports: leftmost start, then shortest group. */
  ghost predicate FirstMatch(s: string, i: int, k: int) {
    && MatchAt(s, i, k)
    && (forall i', k' :: 0 <= i' < i ==> !MatchAt(s, i', k'))
    && (forall k' :: 1 <= k' < k ==> !MatchAt(s, i, k'))
  }

  /**
   * The shortest group length, at least `k`, that closes from `j`, given that the
   * `k - 1` characters before the candidate end contain no line terminator.
   */
  function ShortestClose(s: string, j: nat, k: nat): (r: Option<nat>)
    requires 1 <= k && j + k - 1 <= |s| && NoLineTerminator(s[j..j + k - 1])
    ensures r.Some? ==> k <= r.value && ClosesAt(s, j, r.value)
                        && forall k' :: k <= k' < r.value ==> !ClosesAt(s, j, k')
    ensures r.None? ==> forall k' :: k <= k' ==> !ClosesAt(s, j, k')
    decreases |s| - k
  {
    if j + k + 2 > |s| then None
    else if IsLineTerminator(s[j + k - 1]) then
      assert forall k' :: k <= k' ==> !ClosesAt(s, j, k') by {
        forall k' | k <= k' ensures !ClosesAt(s, j, k') {
          if j + k' <= |s| {
            assert s[j..j + k'][k - 1] == s[j + k - 1];
          }
        }
      }
      None
    else
      assert s[j..j + k] == s[j..j + k - 1] + [s[j + k - 1]];
      if IsQuote(s[j + k]) && s[j + k + 1] == ')' then Some(k)
      else ShortestClose(s, j, k + 1)
  }

  /** The first match starting at `i` or later, as (start, group length). */
  function FindFrom(s: string, i: nat): (r: Option<(nat, nat)>)
    ensures r.Some? ==> i <= r.value.0 && MatchAt(s, r.value.0, r.value.1)
                        && (forall i', k' :: i <= i' < r.value.0 ==> !MatchAt(s, i', k'))
                        && (forall k' :: 1 <= k' < r.value.1 ==> !MatchAt(s, r.value.0, k'))
    ensures r.None? ==> forall i', k' :: i <= i' ==> !MatchAt(s, i', k')
    decreases |s| - i
  {
    if i + |Callee| + 1 > |s| then None
    else if OpensAt(s, i) then
      match ShortestClose(s, GroupStart(i), 1)
      case Some(k) => Some((i, k))
      case None => FindFrom(s, i + 1)
    else FindFrom(s, i + 1)
  }

  /**
   * `onclick.match(/openCertificate\(['"](.+?)['"]\)/)[1]`, or `None` when the
   * text does not match. A path it yields is never empty and spans no line break.
   */
  function ExtractPath(onclick: string): (r: Option<string>)
    ensures r.None? <==> forall i, k :: !MatchAt(onclick, i, k)
    ensures r.Some? ==> exists i, k :: FirstMatch(onclick, i, k)
                                       && r.value == onclick[GroupStart(i)..GroupStart(i) + k]
    ensures r.Some? ==> |r.value| >= 1 && NoLineTerminator(r.value)
  {
    match FindFrom(onclick, 0)
    case Some((i, k)) =>
      assert FirstMatch(onclick, i, k);
      Some(onclick[GroupStart(i)..GroupStart(i) + k])
    case None => None
  }

  /** The first match is unique. */
  lemma FirstMatchUnique(s: string, i: int, k: int, i': int, k': int)
    requires FirstMatch(s, i, k) && FirstMatch(s, i', k')
    ensures i == i' && k == k'
  {
  }

  /** The inline handler text `openCertificate('<path>')`, with either quote, and anything after it. */
  function Call(open: char, path: string, close: char, rest: string): string {
    Callee + [open] + path + [close, ')'] + rest
  }

  /**
   * The shim recovers the path of a plain inline call: a non-empty path without
   * quotes or line breaks comes back unchanged, whatever follows the call.
   */
  lemma {:induction false} ExtractCall(open: char, path: string, close: char, rest: string)
    requires IsQuote(open) && IsQuote(close)
    requires |path| >= 1 && NoLineTerminator(path)
    requires forall i :: 0 <= i < |path| ==> !IsQuote(path[i])
    ensures ExtractPath(Call(open, path, close, rest)) == Some(path)
  {
    var s := Call(open, path, close, rest);
    var j := GroupStart(0);
    assert s[..|Callee|] == Callee;
    assert s[j..j + |path|] == path;
    assert s[j + |path|] == close;
    assert MatchAt(s, 0, |path|);
    forall k' | 1 <= k' < |path| ensures !MatchAt(s, 0, k') {
      assert s[j + k'] == path[k'];
    }
    assert FirstMatch(s, 0, |path|);
    var r := ExtractPath(s);
    var i, k :| FirstMatch(s, i, k) && r.value == s[GroupStart(i)..GroupStart(i) + k];
    FirstMatchUnique(s, i, k, 0, |path|);
  }

  /** Text with no `openCertificate(` followed by a quote yields nothing. */
  lemma NoCalleeNoPath(s: string)
    requires forall i :: !OpensAt(s, i)
    ensures ExtractPath(s) == None
  {
  }
}
