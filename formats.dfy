/**
 The lines git prints, read back: a commit line gives its hash, an attribute
 line its sanitized label and its value, a message line its text; and the
 lines a stream yields all reach the parser except a final "0".
 */
module LineFormats {
  import opened Text
  import opened Classifier
  import opened GitLog

  /** `commit <hash>` with any trailing whitespace gives back the hash. */
  lemma CommitLineRoundTrip(h: string, ws: string)
    requires h == [] || !IsSpace(h[|h| - 1])
    requires AllSpace(ws)
    ensures MatchLine("commit " + h + ws) == CommitStart
    ensures HashOf("commit " + h + ws) == h
  {
    var l := "commit " + h + ws;
    assert l[..7] == "commit ";
    assert l[7..] == h + ws;
    TrimEndUnique(h, ws);
  }

  /** The first colon of a line whose label has none is the one after it. */
  lemma FirstColonAfterLabel(key: string, rest: string)
    requires ':' !in key
    ensures FirstColon(key + ":" + rest) == |key|
  {
    var l := key + ":" + rest;
    assert l[|key|] == ':';
  }

  /** A line that starts with a label free of colons, then a colon, is an attribute line. */
  lemma AttributeLineKind(key: string, rest: string)
    requires key != [] && !IsSpace(key[0]) && ':' !in key && !("commit " <= key)
    ensures MatchLine(key + ":" + rest) == Attribute
  {
    var l := key + ":" + rest;
    assert !("commit " <= l) by {
      if |key| >= 7 {
        assert l[..7] == key[..7];
      } else {
        assert l[|key|] == ':';
      }
    }
    assert l[0] == key[0];
    assert l[1..][|key| - 1] == ':';
  }

  /** The name is the sanitized label before the first colon; the value is what follows it, trimmed. */
  lemma AttributeLineParts(key: string, rest: string)
    requires ':' !in key
    ensures AttributeName(key + ":" + rest) == Sanitize(key)
    ensures AttributeValue(key + ":" + rest) == Trim(rest)
  {
    var l := key + ":" + rest;
    FirstColonAfterLabel(key, rest);
    assert l[..|key|] == key;
    assert l[|key| + 1..] == rest;
  }

  /**
   `<label>:<spaces><value>` gives the sanitized label as the property name
   and the value without the surrounding whitespace, whatever the label holds
   besides colons. Whitespace at the end of the label stays in the name.
   */
  lemma AttributeLineRoundTrip(key: string, sep: string, value: string, ws: string)
    requires key != [] && !IsSpace(key[0]) && ':' !in key && !("commit " <= key)
    requires AllSpace(sep) && AllSpace(ws)
    requires value == [] || (!IsSpace(value[0]) && !IsSpace(value[|value| - 1]))
    ensures MatchLine(key + ":" + sep + value + ws) == Attribute
    ensures AttributeName(key + ":" + sep + value + ws) == Sanitize(key)
    ensures AttributeValue(key + ":" + sep + value + ws) == value
  {
    var rest := sep + value + ws;
    var line := key + ":" + sep + value + ws;
    assert line == key + ":" + rest;
    assert MatchLine(line) == Attribute by {
      AttributeLineKind(key, rest);
    }
    assert AttributeName(line) == Sanitize(key) && AttributeValue(line) == Trim(rest) by {
      AttributeLineParts(key, rest);
    }
    assert Trim(rest) == value by {
      TrimUnique(sep, value, ws);
    }
  }

  /** An indented message line gives back its text without the indentation and the line end. */
  lemma MessageLineRoundTrip(indent: string, text: string, ws: string)
    requires indent != [] && AllSpace(indent) && AllSpace(ws)
    requires text != [] && !IsSpace(text[0]) && !IsSpace(text[|text| - 1])
    ensures MatchLine(indent + text + ws) == TextLine
    ensures TextOf(indent + text + ws) == text
  {
    var l := indent + text + ws;
    assert l[0] == indent[0];
    assert l[|indent|] == text[0];
    IndentedLineIsMessage(l);
    TrimUnique(indent, text, ws);
  }

  /** The loop receives every line up to the first false one. */
  lemma {:induction false} FedUpToFalse(ls: seq<string>)
    requires forall i | 0 <= i < |ls| - 1 :: Truthy(ls[i])
    ensures Fed(ls) == if ls != [] && !Truthy(ls[|ls| - 1]) then ls[..|ls| - 1] else ls
  {
    if ls != [] && Truthy(ls[0]) {
      FedUpToFalse(ls[1..]);
      if !Truthy(ls[|ls| - 1]) {
        assert [ls[0]] + ls[1..][..|ls| - 2] == ls[..|ls| - 1];
      } else {
        assert [ls[0]] + ls[1..] == ls;
      }
    }
  }

  /** A line that ends with a line feed is true for PHP. */
  lemma EndedLineTruthy(l: string)
    requires |l| > 0 && l[|l| - 1] == '\n'
    ensures Truthy(l)
  {
  }

  /**
   Every line read from a stream reaches the loop, except a last line that
   reads "0" (text ending in a line feed and then "0"), which PHP takes for
   false.
   */
  lemma FedReadLines(text: string)
    ensures var ls := ReadLines(text);
      Fed(ls) == if ls != [] && ls[|ls| - 1] == "0" then ls[..|ls| - 1] else ls
  {
    var ls := ReadLines(text);
    forall i | 0 <= i < |ls| - 1 ensures Truthy(ls[i]) {
      EndedLineTruthy(ls[i]);
    }
    FedUpToFalse(ls);
    if ls != [] {
      assert IsLine(ls[|ls| - 1]);
    }
  }

  lemma HashExample()
    ensures MatchLine("commit abc123\n") == CommitStart
    ensures HashOf("commit abc123\n") == "abc123"
  {
    CommitLineRoundTrip("abc123", "\n");
    assert "commit " + "abc123" + "\n" == "commit abc123\n";
  }

  /** Words separated by a run of non-word characters come out joined by one underscore. */
  lemma SanitizeJoinsWords(a: string, d: string, b: string)
    requires a != [] && AllWord(a) && AllWord(b)
    requires d != [] && forall i | 0 <= i < |d| :: !IsWord(d[i])
    ensures Sanitize(a + d + b) == a + "_" + b
  {
    SanitizeRun(d);
    SanitizeWord(a);
    SanitizeWord(b);
    assert Sanitize(d + b) == "_" + b by {
      if b == [] {
        assert d + b == d;
      } else {
        SanitizeSplit(d, b);
      }
    }
    assert a + d + b == a + (d + b);
    SanitizeSplit(a, d + b);
  }

  /**
   Whitespace between a label and its colon is not stripped: it is a run of
   non-word characters and becomes a trailing underscore of the name.
   */
  lemma SpaceBeforeColonKept(key: string, w: string, rest: string)
    requires key != [] && IsWord(key[|key| - 1]) && ':' !in key
    requires w != [] && AllSpace(w)
    ensures AttributeName(key + w + ":" + rest) == Sanitize(key) + "_"
  {
    assert forall i | 0 <= i < |w| :: !IsWord(w[i]) by {
      forall i | 0 <= i < |w| ensures !IsWord(w[i]) {
        assert IsSpace(w[i]);
      }
    }
    AttributeLineParts(key + w, rest);
    SanitizeRun(w);
    SanitizeSplit(key, w);
  }
}
