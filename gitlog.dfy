/**
 The `GitLogParser` class: reading the log line by line, the string
 extractions each handler performs, what each handler does to the current
 commit, and the driver that collects the finished commits.
 */
module GitLog {
  import opened Text
  import opened CommitRecord
  import opened Classifier

  /** `PHP_EOL` on the Unix hosts the parser runs on. */
  const EOL: string := "\n"

  // ---------------------------------------------------------------------
  // Reading the stream
  // ---------------------------------------------------------------------

  /** Length of the first line of `text`: through its first line feed, or all of it. */
  function LineEnd(text: string): (n: nat)
    requires text != []
    ensures 0 < n <= |text|
    ensures forall i :: 0 <= i < n - 1 ==> text[i] != '\n'
    ensures n < |text| ==> text[n - 1] == '\n'
  {
    if text[0] == '\n' || |text| == 1 then 1 else 1 + LineEnd(text[1..])
  }

  function Concat(lines: seq<string>): string {
    if lines == [] then [] else lines[0] + Concat(lines[1..])
  }

  /**
   The strings successive `fgets` calls return for a stream holding `text`:
   they put the text back together, each is a line, and every one but the
   last ends with its line feed.
   */
  function ReadLines(text: string): (lines: seq<string>)
    ensures Concat(lines) == text
    ensures forall i :: 0 <= i < |lines| ==> IsLine(lines[i])
    ensures forall i :: 0 <= i < |lines| - 1 ==> |lines[i]| > 0 && lines[i][|lines[i]| - 1] == '\n'
    decreases |text|
  {
    if text == [] then []
    else
      var n := LineEnd(text);
      assert text[..n] + text[n..] == text;
      [text[..n]] + ReadLines(text[n..])
  }

  /** PHP truthiness of a string: `""` and `"0"` are false. */
  predicate Truthy(s: string) {
    s != "" && s != "0"
  }

  /**
   The lines `while ($line = fgets(...))` hands to the loop body: those before
   the first false one.
   */
  function Fed(lines: seq<string>): (fed: seq<string>)
    ensures fed <= lines
    ensures forall i :: 0 <= i < |fed| ==> Truthy(fed[i])
    ensures |fed| < |lines| ==> !Truthy(lines[|fed|])
  {
    if lines == [] || !Truthy(lines[0]) then [] else [lines[0]] + Fed(lines[1..])
  }

  // ---------------------------------------------------------------------
  // What the handlers extract from a line
  // ---------------------------------------------------------------------

  /** `preg_replace('/(^commit )|\s*$/u', "", $line)` */
  function HashOf(line: string): string {
    if "commit " <= line then TrimEnd(line[7..]) else TrimEnd(line)
  }

  /** Index of the first colon, or the length when there is none. */
  function FirstColon(s: string): (k: nat)
    ensures k <= |s|
    ensures forall i :: 0 <= i < k ==> s[i] != ':'
    ensures k < |s| ==> s[k] == ':'
  {
    if s == [] || s[0] == ':' then 0 else 1 + FirstColon(s[1..])
  }

  /**
   `preg_replace('/\W+/u', '_', preg_replace('/(:.*$)|\s*$/u', '', $line))`:
   the label before the first colon, sanitized. Whitespace just before the
   colon is part of the label, so it turns into an underscore.
   */
  function AttributeName(line: string): string {
    var k := FirstColon(line);
    if k < |line| then Sanitize(line[..k]) else Sanitize(TrimEnd(line))
  }

  // `preg_replace('/\s*$/u', '', preg_replace('/^[^:]*:\s*/u', '', $line))`
  function AttributeValue(line: string): string {
    var k := FirstColon(line);
    if k < |line| then TrimEnd(TrimStart(line[k + 1..])) else TrimEnd(line)
  }

  /** `preg_replace('/(^\s+)|(\s*$)/u', "", $line)` */
  function TextOf(line: string): string {
    Trim(line)
  }

  /** PHP `empty()` on a string: `""` and `"0"`. */
  predicate PhpEmpty(s: string) {
    s == "" || s == "0"
  }

  // ---------------------------------------------------------------------
  // What the handlers do to the current commit, on property tables
  // ---------------------------------------------------------------------

  /** `r2` has the same properties, with the same values, as `r1` outside `ks`. */
  ghost predicate SameExcept(r1: Record, r2: Record, ks: set<string>) {
    && (forall k :: k !in ks ==> (r2.Has(k) <==> r1.Has(k)))
    && (forall k :: k !in ks && r1.Has(k) ==> r2.Get(k) == r1.Get(k))
  }

  /** The record `handleCommitStartLine` creates: its only property is the hash. */
  function StartRecord(line: string): (r: Record)
    ensures r.Valid() && r.names == ["Hash"]
    ensures r.Has("Hash") && r.Get("Hash") == HashOf(line)
  {
    Empty.Set("Hash", HashOf(line))
  }

  /** `handleAttributeLine`: the named property is (over)written, nothing else changes. */
  function WithAttribute(r: Record, line: string): (r': Record)
    ensures r'.Has(AttributeName(line)) && r'.Get(AttributeName(line)) == AttributeValue(line)
    ensures SameExcept(r, r', {AttributeName(line)})
    ensures r.Valid() ==> r'.Valid()
    ensures r.Valid() ==>
              r'.names == if r.Has(AttributeName(line)) then r.names else r.names + [AttributeName(line)]
  {
    r.Set(AttributeName(line), AttributeValue(line))
  }

  /**
   `handleTextLine`: the first text becomes the title, which never changes
   afterwards; later texts go to the body, each after a line break unless the
   body is still PHP-empty.
   */
  function WithText(r: Record, line: string): (r': Record)
    ensures r'.Has("Title") && SameExcept(r, r', {"Title", "Body"})
    ensures !r.Has("Title") ==> r'.Get("Title") == TextOf(line) && SameExcept(r, r', {"Title"})
    ensures r.Has("Title") ==> r'.Get("Title") == r.Get("Title") && r'.Has("Body")
    ensures r.Has("Title") ==>
              var b := r'.Get("Body"); |b| >= |TextOf(line)| && b[|b| - |TextOf(line)|..] == TextOf(line)
    ensures r.Has("Title") && (!r.Has("Body") || PhpEmpty(r.Get("Body"))) ==> r'.Get("Body") == TextOf(line)
    ensures r.Has("Title") && r.Has("Body") && !PhpEmpty(r.Get("Body")) ==>
              r'.Get("Body") == r.Get("Body") + EOL + TextOf(line)
    ensures r.Valid() ==> r'.Valid()
    ensures r.Valid() ==>
              r'.names == if !r.Has("Title") then r.names + ["Title"]
                          else if r.Has("Body") then r.names else r.names + ["Body"]
  {
    var text := TextOf(line);
    if !r.Has("Title") then r.Set("Title", text)
    else if !r.Has("Body") || PhpEmpty(r.Get("Body")) then r.Set("Body", text)
    else r.Set("Body", r.Get("Body") + EOL + text)
  }

  /** `handleBlankLine`: a line break is added to a body that exists; otherwise nothing happens. */
  function WithBlank(r: Record): (r': Record)
    ensures SameExcept(r, r', {"Body"}) && (r'.Has("Body") <==> r.Has("Body"))
    ensures r.Has("Body") ==> r'.Get("Body") == r.Get("Body") + EOL
    ensures !r.Has("Body") ==> r' == r
    ensures r.Valid() ==> r'.Valid() && r'.names == r.names
  {
    if r.Has("Body") then r.Set("Body", r.Get("Body") + EOL) else r
  }

  /** The three handlers that change the current commit in place. */
  function Apply(r: Record, line: string): Record {
    match MatchLine(line)
    case CommitStart => r
    case Attribute => WithAttribute(r, line)
    case TextLine => WithText(r, line)
    case BlankLine => WithBlank(r)
  }

  // ---------------------------------------------------------------------
  // The driver, on values
  // ---------------------------------------------------------------------

  /** The finished commits so far, and the current one. */
  datatype Parse = Parse(commits: seq<Record>, current: Record)

  /** `savePreviousCommit`: only a commit with a hash is kept. */
  function Save(commits: seq<Record>, r: Record): seq<Record> {
    if r.Has("Hash") then commits + [r] else commits
  }

  /** One turn of the `while` loop. Only a commit line replaces the current commit. */
  function Step(p: Parse, line: string): Parse {
    if MatchLine(line) == CommitStart then Parse(Save(p.commits, p.current), StartRecord(line))
    else Parse(p.commits, Apply(p.current, line))
  }

  /** The loop run from state `p` over `lines`. */
  function RunFrom(p: Parse, lines: seq<string>): Parse {
    if lines == [] then p else Step(RunFrom(p, lines[..|lines| - 1]), lines[|lines| - 1])
  }

  const Start := Parse([], Empty)

  /** Commits saved before a run stay in front of the ones the run saves. */
  lemma {:induction false} RunFromShift(before: seq<Record>, p: Parse, lines: seq<string>)
    ensures RunFrom(Parse(before + p.commits, p.current), lines)
         == Parse(before + RunFrom(p, lines).commits, RunFrom(p, lines).current)
  {
    if lines != [] {
      var init := lines[..|lines| - 1];
      RunFromShift(before, p, init);
      var q := RunFrom(p, init);
      if q.current.Has("Hash") {
        assert before + q.commits + [q.current] == before + (q.commits + [q.current]);
      }
    }
  }

  /** The final save after a run that started behind `before` completes `before + ParseLog(lines)`. */
  lemma FinishRun(before: seq<Record>, lines: seq<string>)
    ensures var q := RunFrom(Parse(before, Empty), lines);
      Save(q.commits, q.current) == before + ParseLog(lines)
  {
    assert before + Start.commits == before;
    RunFromShift(before, Start, lines);
    var r := RunFrom(Start, lines);
    assert before + r.commits + [r.current] == before + (r.commits + [r.current]);
  }

  /** A true line at `i`, with the first `i` lines fed, is the next line fed. */
  lemma FedNext(lines: seq<string>, i: int)
    requires 0 <= i <= |Fed(lines)| && i < |lines| && Truthy(lines[i])
    ensures i < |Fed(lines)| && Fed(lines)[i] == lines[i]
  {
  }

  /** The loop stops exactly after the fed lines. */
  lemma FedEnd(lines: seq<string>, i: int)
    requires 0 <= i <= |Fed(lines)| && !(i < |lines| && Truthy(lines[i]))
    ensures i == |Fed(lines)|
  {
  }

  /** Running over one more line is one more step. */
  lemma RunFromPrefix(p: Parse, lines: seq<string>, i: nat)
    requires i < |lines|
    ensures RunFrom(p, lines[..i + 1]) == Step(RunFrom(p, lines[..i]), lines[i])
  {
    assert lines[..i + 1][..i] == lines[..i];
  }

  /** `parseCommitLog` on the lines the loop receives, with the final save. */
  function ParseLog(lines: seq<string>): seq<Record> {
    var p := RunFrom(Start, lines);
    Save(p.commits, p.current)
  }

  /** What a parser built on a stream holding `text` collects. */
  function ParseStream(text: string): seq<Record> {
    ParseLog(Fed(ReadLines(text)))
  }

  // ---------------------------------------------------------------------
  // The parser object
  // ---------------------------------------------------------------------

  lemma ValuesSnoc(cs: seq<Commit>, c: Commit)
    ensures Values(cs + [c]) == Values(cs) + [c.Value()]
  {
    assert (cs + [c])[..|cs|] == cs;
  }

  /** A commit line saves the current commit and starts a new one. */
  lemma StepStart(p: Parse, line: string)
    requires MatchLine(line) == CommitStart
    ensures Step(p, line) == Parse(Save(p.commits, p.current), StartRecord(line))
  {
  }

  /** Any other line leaves the saved commits alone and updates the current one as its handler does. */
  lemma StepOther(p: Parse, line: string, r: Record)
    requires MatchLine(line) != CommitStart && Apply(p.current, line) == r
    ensures Step(p, line) == Parse(p.commits, r)
  {
  }

  /** Objects whose fields did not change still hold the same tables. */
  twostate lemma {:induction false} ValuesUnchanged(cs: seq<Commit>)
    requires forall i | 0 <= i < |cs| :: unchanged(cs[i])
    ensures Values(cs) == old(Values(cs))
  {
    if cs != [] {
      ValuesUnchanged(cs[..|cs| - 1]);
    }
  }

  /** Saving a commit object keeps its table behind the tables of the saved objects. */
  lemma SaveValues(saved: seq<Commit>, c: Commit)
    ensures Values(if c.Has("Hash") then saved + [c] else saved) == Save(Values(saved), c.Value())
  {
    ValuesSnoc(saved, c);
  }

  class GitLogParser {
    /** The commits parsed from the input. */
    var commits: seq<Commit>

    /** The text of the stream the parser was built on. */
    ghost var input: string

    /** The commits are what parsing the whole input gives. */
    ghost predicate Valid()
      reads this, commits
    {
      Values(commits) == ParseStream(input)
    }

    /** Builds the parser on a stream holding `stream` and parses all of it. */
    constructor (stream: string)
      ensures input == stream && Valid()
    {
      commits := [];
      new;
      ParseCommitLog(ReadLines(stream));
      input := stream;
    }

    /** `toArray`: the list of commit objects itself, not copies, holding what the input parses to. */
    function ToArray(): (cs: seq<Commit>)
      reads this, commits
      requires Valid()
      ensures cs == commits
      ensures Values(cs) == ParseStream(input)
    {
      commits
    }

    /** Reads lines until a false one, dispatching each on its category, then saves the last commit. */
    method ParseCommitLog(resource: seq<string>)
      modifies this
      ensures Values(commits) == old(Values(commits)) + ParseLog(Fed(resource))
    {
      ghost var fed := Fed(resource);
      ghost var before := Values(commits);
      ghost var q := Parse(before, Empty);
      var commit := new Commit();
      var i := 0;
      while i < |resource| && Truthy(resource[i])
        invariant 0 <= i <= |fed|
        invariant fresh(commit) && commit !in commits
        invariant q == RunFrom(Parse(before, Empty), fed[..i])
        invariant Values(commits) == q.commits && commit.Value() == q.current
        decreases |resource| - i
      {
        var line := resource[i];
        FedNext(resource, i);
        RunFromPrefix(Parse(before, Empty), fed, i);
        commit := DispatchLine(commit, line);
        q := Step(q, line);
        i := i + 1;
      }
      FedEnd(resource, i);
      assert fed[..i] == fed;
      FinishRun(before, fed);
      ghost var saved := commits;
      SavePreviousCommit(commit);
      SaveValues(saved, commit);
    }

    /** The `switch` in the loop body: the line's handler, chosen by its category. */
    method DispatchLine(commit: Commit, line: string) returns (next: Commit)
      requires commit !in commits
      modifies this, commit
      ensures MatchLine(line) == CommitStart ==> fresh(next)
      ensures MatchLine(line) != CommitStart ==> next == commit
      ensures next !in commits
      ensures Parse(Values(commits), next.Value()) == Step(Parse(old(Values(commits)), old(commit.Value())), line)
    {
      ghost var before := Values(commits);
      ghost var r := commit.Value();
      next := commit;
      match MatchLine(line) {
        case CommitStart =>
          StepStart(Parse(before, r), line);
          ghost var saved := commits;
          next := HandleCommitStartLine(commit, line);
          SaveValues(saved, commit);
        case Attribute =>
          HandleAttributeLine(line, commit);
          ValuesUnchanged(commits);
          StepOther(Parse(before, r), line, WithAttribute(r, line));
        case TextLine =>
          HandleTextLine(line, commit);
          ValuesUnchanged(commits);
          StepOther(Parse(before, r), line, WithText(r, line));
        case BlankLine =>
          HandleBlankLine(commit);
          ValuesUnchanged(commits);
          StepOther(Parse(before, r), line, WithBlank(r));
      }
    }

    /** Appends the commit to the list when it has a hash. */
    method SavePreviousCommit(commit: Commit)
      modifies this
      ensures commits == if commit.Has("Hash") then old(commits) + [commit] else old(commits)
    {
      if commit.Has("Hash") {
        commits := commits + [commit];
      }
    }

    method HandleTextLine(line: string, commit: Commit)
      modifies commit
      ensures commit.Value() == WithText(old(commit.Value()), line)
    {
      ghost var r := commit.Value();
      var text := TextOf(line);
      if commit.Has("Title") {
        if !commit.Has("Body") {
          commit.Set("Body", "");
          SetTwice(r, "Body", "", text);
        }
        if PhpEmpty(commit.Get("Body")) {
          commit.Set("Body", text);
        } else {
          commit.Set("Body", commit.Get("Body") + EOL + text);
        }
      } else {
        commit.Set("Title", text);
      }
    }

    method HandleBlankLine(commit: Commit)
      modifies commit
      ensures commit.Value() == WithBlank(old(commit.Value()))
    {
      if commit.Has("Body") {
        commit.Set("Body", commit.Get("Body") + EOL);
      }
    }

    method HandleAttributeLine(line: string, commit: Commit)
      modifies commit
      ensures commit.Value() == WithAttribute(old(commit.Value()), line)
    {
      var name := AttributeName(line);
      commit.Set(name, AttributeValue(line));
    }

    /** Saves the current commit and starts a new one holding only the hash. */
    method HandleCommitStartLine(commit: Commit, line: string) returns (next: Commit)
      modifies this
      ensures commits == if commit.Has("Hash") then old(commits) + [commit] else old(commits)
      ensures fresh(next) && next.Value() == StartRecord(line)
    {
      SavePreviousCommit(commit);
      next := new Commit();
      next.Set("Hash", HashOf(line));
    }
  }
}
