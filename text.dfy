/**
 The character classes and the string surgery that the parser's regular
 expressions perform: `\s`, `\w`, stripping leading and trailing whitespace,
 and replacing every run of non-word characters by one underscore.
 */
module Text {

  /** `\s`: space, tab, line feed, vertical tab, form feed, carriage return. */
  predicate IsSpace(c: char) {
    c == ' ' || c == '\t' || c == '\n' || c == '\U{0B}' || c == '\U{0C}' || c == '\r'
  }

  /** `\w`: letters, digits and the underscore. */
  predicate IsWord(c: char) {
    ('a' <= c <= 'z') || ('A' <= c <= 'Z') || ('0' <= c <= '9') || c == '_'
  }

  /** Every character of `s` is whitespace (`^\s*$` on a string without a newline inside). */
  predicate AllSpace(s: string) {
    forall i | 0 <= i < |s| :: IsSpace(s[i])
  }

  predicate AllWord(s: string) {
    forall i | 0 <= i < |s| :: IsWord(s[i])
  }

  /**
   A line as `fgets` hands it over: never empty, and a line feed, if any,
   only as its last character.
   */
  ghost predicate IsLine(s: string) {
    |s| > 0 && forall i :: 0 <= i < |s| - 1 ==> s[i] != '\n'
  }

  /** `preg_replace('/\s*$/u', '', s)`: drop the trailing whitespace. */
  function TrimEnd(s: string): (r: string)
    ensures r <= s
    ensures AllSpace(s[|r|..])
    ensures r == [] || !IsSpace(r[|r| - 1])
  {
    if s != [] && IsSpace(s[|s| - 1]) then TrimEnd(s[..|s| - 1]) else s
  }

  // Drops the leading whitespace, as the pattern `^\s+` (or `^\s*`) replaced by nothing does.
  function TrimStart(s: string): (r: string)
    ensures |r| <= |s| && r == s[|s| - |r|..]
    ensures AllSpace(s[..|s| - |r|])
    ensures r == [] || !IsSpace(r[0])
  {
    if s != [] && IsSpace(s[0]) then TrimStart(s[1..]) else s
  }

  /** `preg_replace('/(^\s+)|(\s*$)/u', '', s)`: drop whitespace at both ends. */
  function Trim(s: string): string {
    TrimEnd(TrimStart(s))
  }

  /** The whitespace that TrimEnd removes and the text it keeps determine each other. */
  lemma {:induction false} TrimEndUnique(t: string, w: string)
    requires t == [] || !IsSpace(t[|t| - 1])
    requires AllSpace(w)
    ensures TrimEnd(t + w) == t
  {
    if w == [] {
      assert t + w == t;
    } else {
      var w' := w[..|w| - 1];
      assert (t + w)[..|t + w| - 1] == t + w';
      assert IsSpace(w[|w| - 1]);
      TrimEndUnique(t, w');
    }
  }

  lemma {:induction false} TrimStartUnique(w: string, t: string)
    requires AllSpace(w)
    requires t == [] || !IsSpace(t[0])
    ensures TrimStart(w + t) == t
  {
    if w == [] {
      assert w + t == t;
    } else {
      assert (w + t)[1..] == w[1..] + t;
      assert IsSpace(w[0]);
      TrimStartUnique(w[1..], t);
    }
  }

  /**
   Trim inverts padding: text that neither starts nor ends with whitespace
   comes back unchanged from any whitespace placed around it.
   */
  lemma TrimUnique(w1: string, t: string, w2: string)
    requires AllSpace(w1) && AllSpace(w2)
    requires t == [] || (!IsSpace(t[0]) && !IsSpace(t[|t| - 1]))
    ensures Trim(w1 + t + w2) == t
  {
    if t == [] {
      assert w1 + t + w2 == w1 + w2;
      assert AllSpace(w1 + w2);
      TrimStartUnique(w1 + w2, []);
      assert w1 + w2 + [] == w1 + w2;
    } else {
      assert w1 + t + w2 == w1 + (t + w2);
      TrimStartUnique(w1, t + w2);
      TrimEndUnique(t, w2);
    }
  }

  /** Trim gives the empty string exactly on blank input. */
  lemma TrimEmptyIffBlank(s: string)
    ensures Trim(s) == [] <==> AllSpace(s)
  {
    var u := TrimStart(s);
    assert s == s[..|s| - |u|] + u;
    if AllSpace(s) {
      assert AllSpace(u);
    }
  }

  /**
   `preg_replace('/\W+/u', '_', s)`: every maximal run of non-word characters
   becomes a single underscore; word characters, the underscore among them,
   stay where they are. A non-word character yields the underscore when it is
   the last one of its run and nothing otherwise.
   */
  function Sanitize(s: string): string {
    if s == [] then []
    else if IsWord(s[0]) then [s[0]] + Sanitize(s[1..])
    else if |s| > 1 && !IsWord(s[1]) then Sanitize(s[1..])
    else "_" + Sanitize(s[1..])
  }

  /** A sanitized name holds word characters only, is no longer than the label, and is empty only for an empty label. */
  lemma {:induction false} SanitizeShape(s: string)
    ensures AllWord(Sanitize(s))
    ensures |Sanitize(s)| <= |s|
    ensures Sanitize(s) == [] <==> s == []
  {
    if s != [] {
      SanitizeShape(s[1..]);
      if !IsWord(s[0]) && |s| > 1 && !IsWord(s[1]) {
        assert s[1..] != [];
      }
    }
  }

  /** A name made of word characters only is kept as it is (leading digits included). */
  lemma {:induction false} SanitizeWord(s: string)
    requires AllWord(s)
    ensures Sanitize(s) == s
  {
    if s != [] {
      assert IsWord(s[0]);
      SanitizeWord(s[1..]);
    }
  }

  /** A run of non-word characters, however long, becomes one underscore. */
  lemma {:induction false} SanitizeRun(s: string)
    requires s != [] && forall i :: 0 <= i < |s| ==> !IsWord(s[i])
    ensures Sanitize(s) == "_"
  {
    assert !IsWord(s[0]);
    if |s| > 1 {
      assert !IsWord(s[1]);
      SanitizeRun(s[1..]);
    }
  }

  /** Sanitize works piece by piece across a boundary next to a word character. */
  lemma {:induction false} SanitizeSplit(a: string, b: string)
    requires a == [] || b == [] || IsWord(a[|a| - 1]) || IsWord(b[0])
    ensures Sanitize(a + b) == Sanitize(a) + Sanitize(b)
  {
    if a == [] {
      assert a + b == b;
    } else {
      var ab := a + b;
      assert ab[0] == a[0];
      assert ab[1..] == a[1..] + b;
      if |a| > 1 {
        assert ab[1] == a[1];
        SanitizeSplit(a[1..], b);
      } else if b != [] {
        assert ab[1] == b[0];
        assert a[1..] == [];
      }
    }
  }

  /** The parts with `sep` between consecutive parts, as repeated `.= PHP_EOL . $text` builds them. */
  function Join(sep: string, parts: seq<string>): string {
    if |parts| == 0 then []
    else if |parts| == 1 then parts[0]
    else Join(sep, parts[..|parts| - 1]) + sep + parts[|parts| - 1]
  }
}
