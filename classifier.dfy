/**
 The line classifier (`matchLine`). Each of its four regular expressions is
 written out twice: literally, as the set of lines a PCRE match accepts
 (ghost predicates), and as the direct test the model runs (`MatchLine`).
 Without the `m` modifier, `$` matches at the end of the line or just before
 a final line feed, and `.` matches anything but a line feed.
 */
module Classifier {
  import opened Text

  datatype LineKind = CommitStart | Attribute | BlankLine | TextLine

  /** `$` matches at position `j` of `l`. */
  ghost predicate EndsAt(l: string, j: int) {
    j == |l| || (0 <= j == |l| - 1 && l[j] == '\n')
  }

  /** `l[i..j]` can be matched by `.*`. */
  ghost predicate Dots(l: string, i: int, j: int)
    requires 0 <= i <= j <= |l|
  {
    forall k :: i <= k < j ==> l[k] != '\n'
  }

  /** `l[i..j]` can be matched by `\S+` (when non-empty). */
  ghost predicate NonSpaces(l: string, i: int, j: int)
    requires 0 <= i <= j <= |l|
  {
    forall k :: i <= k < j ==> !IsSpace(l[k])
  }

  /** `l[i..j]` can be matched by `\s*`. */
  ghost predicate Spaces(l: string, i: int, j: int)
    requires 0 <= i <= j <= |l|
  {
    forall k :: i <= k < j ==> IsSpace(l[k])
  }

  /** `l[i..j]` can be matched by `\w*`. */
  ghost predicate Words(l: string, i: int, j: int)
    requires 0 <= i <= j <= |l|
  {
    forall k :: i <= k < j ==> IsWord(l[k])
  }

  /** `/^commit .*$/u` */
  ghost predicate CommitStartPattern(l: string) {
    && "commit " <= l
    && exists j :: 7 <= j <= |l| && Dots(l, 7, j) && EndsAt(l, j)
  }

  /** `/^\S+.*:.*$/u` */
  ghost predicate AttributePattern(l: string) {
    exists a, b, j ::
      && 1 <= a <= b < j <= |l|
      && NonSpaces(l, 0, a) && Dots(l, a, b) && l[b] == ':' && Dots(l, b + 1, j) && EndsAt(l, j)
  }

  /** `/^\s*$/u` */
  ghost predicate BlankPattern(l: string) {
    exists j :: 0 <= j <= |l| && Spaces(l, 0, j) && EndsAt(l, j)
  }

  /** `/^.*\w*.*$/u` */
  ghost predicate TextPattern(l: string) {
    exists a, b, j :: 0 <= a <= b <= j <= |l| && Dots(l, 0, a) && Words(l, a, b) && Dots(l, b, j) && EndsAt(l, j)
  }

  /** Position where `$` matches first: before a final line feed, or at the end. */
  function ContentEnd(l: string): (j: nat)
    ensures j <= |l|
  {
    if l != [] && l[|l| - 1] == '\n' then |l| - 1 else |l|
  }

  /**
   `matchLine`: the first pattern that matches, tried in the order commit
   start, attribute, blank, text.
   */
  function MatchLine(line: string): LineKind {
    if "commit " <= line then CommitStart
    else if |line| > 0 && !IsSpace(line[0]) && ':' in line[1..] then Attribute
    else if AllSpace(line) then BlankLine
    else TextLine
  }

  lemma ContentEndMatches(l: string)
    requires IsLine(l)
    ensures EndsAt(l, ContentEnd(l)) && Dots(l, 0, ContentEnd(l))
  {
  }

  lemma CommitStartPatternIff(l: string)
    requires IsLine(l)
    ensures CommitStartPattern(l) <==> "commit " <= l
  {
    if "commit " <= l {
      var j := ContentEnd(l);
      assert l[6] == ' ';
      ContentEndMatches(l);
      assert 7 <= j;
      assert Dots(l, 7, j);
    }
  }

  lemma AttributePatternIff(l: string)
    requires IsLine(l)
    ensures AttributePattern(l) <==> (!IsSpace(l[0]) && ':' in l[1..])
  {
    if !IsSpace(l[0]) && ':' in l[1..] {
      var b :| 1 <= b < |l| && l[b] == ':' by {
        var t :| 0 <= t < |l[1..]| && l[1..][t] == ':';
        assert l[1 + t] == ':';
      }
      var j := ContentEnd(l);
      ContentEndMatches(l);
      assert b < j;
      assert NonSpaces(l, 0, 1);
      assert Dots(l, 1, b) && Dots(l, b + 1, j);
    }
    if AttributePattern(l) {
      var a, b, j :| && 1 <= a <= b < j <= |l|
                     && NonSpaces(l, 0, a) && Dots(l, a, b) && l[b] == ':' && Dots(l, b + 1, j) && EndsAt(l, j);
      assert !IsSpace(l[0]);
      assert l[1..][b - 1] == ':';
    }
  }

  lemma BlankPatternIff(l: string)
    ensures BlankPattern(l) <==> AllSpace(l)
  {
    if AllSpace(l) {
      assert Spaces(l, 0, |l|) && EndsAt(l, |l|);
    }
    if BlankPattern(l) {
      var j :| 0 <= j <= |l| && Spaces(l, 0, j) && EndsAt(l, j);
      assert forall k :: 0 <= k < |l| ==> IsSpace(l[k]) by {
        forall k | 0 <= k < |l| ensures IsSpace(l[k]) {
          if k >= j { assert k == |l| - 1 && l[k] == '\n'; }
        }
      }
    }
  }

  /** `^.*\w*.*$` accepts every line: the `default:` branch of the dispatch is never taken. */
  lemma TextPatternAlways(l: string)
    requires IsLine(l)
    ensures TextPattern(l)
  {
    var j := ContentEnd(l);
    ContentEndMatches(l);
    assert Dots(l, 0, 0) && Words(l, 0, 0) && Dots(l, 0, j);
  }

  /**
   On every line `fgets` can return, MatchLine gives the category of the first
   of the four patterns that matches, in the order the source tries them.
   */
  lemma MatchLineFollowsPatterns(l: string)
    requires IsLine(l)
    ensures TextPattern(l)
    ensures MatchLine(l) ==
      if CommitStartPattern(l) then CommitStart
      else if AttributePattern(l) then Attribute
      else if BlankPattern(l) then BlankLine
      else TextLine
  {
    CommitStartPatternIff(l);
    AttributePatternIff(l);
    BlankPatternIff(l);
    TextPatternAlways(l);
  }

  /**
   A commit line whose hash part holds a colon matches the attribute pattern
   too; the order of the tests makes it a commit start.
   */
  lemma CommitStartWins(rest: string)
    requires IsLine("commit " + rest) && ':' in rest
    ensures AttributePattern("commit " + rest)
    ensures MatchLine("commit " + rest) == CommitStart
  {
    var l := "commit " + rest;
    assert "commit " <= l;
    var t :| 0 <= t < |rest| && rest[t] == ':';
    assert l[1..][6 + t] == ':';
    AttributePatternIff(l);
  }

  /** Indented lines, as git prints a commit message, are blank or text lines. */
  lemma IndentedLineIsMessage(l: string)
    requires l != [] && IsSpace(l[0])
    ensures MatchLine(l) == BlankLine || MatchLine(l) == TextLine
    ensures MatchLine(l) == BlankLine <==> AllSpace(l)
  {
    assert !("commit " <= l) by {
      if |l| >= 7 { assert l[0] == l[..7][0]; }
    }
  }
}
