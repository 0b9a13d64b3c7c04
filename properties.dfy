/**
 What the parser as a whole promises: how a log splits into a preamble and
 commit blocks, which records are kept, how many and in which order, and how
 a commit's message becomes its title and body.
 */
module LogProperties {
  import opened CommitRecord
  import opened Classifier
  import opened GitLog

  predicate NoStarts(ls: seq<string>) {
    forall i | 0 <= i < |ls| :: MatchLine(ls[i]) != CommitStart
  }

  /** The line is an attribute line whose property name is `k`. */
  predicate SetsProperty(l: string, k: string) {
    MatchLine(l) == Attribute && AttributeName(l) == k
  }

  /**
   The current commit after handling `ls` in turn. The parser only ever hands
   it lines that are not commit lines (`RunWithoutStarts`); a commit line,
   which would start a new commit, is passed over here.
   */
  function Absorb(r: Record, ls: seq<string>): Record {
    if ls == [] then r else Apply(Absorb(r, ls[..|ls| - 1]), ls[|ls| - 1])
  }

  // ---------------------------------------------------------------------
  // Runs over concatenated input
  // ---------------------------------------------------------------------

  lemma {:induction false} RunFromAppend(p: Parse, a: seq<string>, b: seq<string>)
    ensures RunFrom(p, a + b) == RunFrom(RunFrom(p, a), b)
  {
    if b == [] {
      assert a + b == a;
    } else {
      var init := b[..|b| - 1];
      assert (a + b)[..|a + b| - 1] == a + init;
      RunFromAppend(p, a, init);
    }
  }

  lemma {:induction false} AbsorbAppend(r: Record, a: seq<string>, b: seq<string>)
    ensures Absorb(r, a + b) == Absorb(Absorb(r, a), b)
  {
    if b == [] {
      assert a + b == a;
    } else {
      var init := b[..|b| - 1];
      assert (a + b)[..|a + b| - 1] == a + init;
      AbsorbAppend(r, a, init);
    }
  }

  /**
   Lines that are not commit lines never save a commit and never replace the
   current one: they only change it, one handler at a time.
   */
  lemma {:induction false} RunWithoutStarts(p: Parse, ls: seq<string>)
    requires NoStarts(ls)
    ensures RunFrom(p, ls) == Parse(p.commits, Absorb(p.current, ls))
  {
    if ls != [] {
      var init := ls[..|ls| - 1];
      assert MatchLine(ls[|ls| - 1]) != CommitStart;
      assert NoStarts(init) by {
        forall i | 0 <= i < |init| ensures MatchLine(init[i]) != CommitStart {
          assert init[i] == ls[i];
        }
      }
      RunWithoutStarts(p, init);
    }
  }

  /**
   The accumulator is replaced on a commit line only; on every other line the
   finished commits stay as they are and the current commit loses no property.
   */
  lemma OnlyStartReplaces(p: Parse, l: string)
    ensures MatchLine(l) == CommitStart ==> Step(p, l).current == StartRecord(l)
    ensures MatchLine(l) == CommitStart ==> Step(p, l).commits == Save(p.commits, p.current)
    ensures MatchLine(l) != CommitStart ==> Step(p, l).commits == p.commits
    ensures forall k :: MatchLine(l) != CommitStart && p.current.Has(k) ==> Step(p, l).current.Has(k)
  {
  }

  // ---------------------------------------------------------------------
  // Properties of the current commit
  // ---------------------------------------------------------------------

  /** Handlers only add or overwrite properties: none is ever removed. */
  lemma {:induction false} AbsorbKeepsProperties(r: Record, ls: seq<string>, k: string)
    requires r.Has(k)
    ensures Absorb(r, ls).Has(k)
  {
    if ls != [] {
      AbsorbKeepsProperties(r, ls[..|ls| - 1], k);
      ApplyKeeps(Absorb(r, ls[..|ls| - 1]), ls[|ls| - 1], k);
    }
  }

  lemma ApplyKeeps(r: Record, l: string, k: string)
    requires r.Has(k)
    ensures Apply(r, l).Has(k)
  {
  }

  /**
   A property other than `Body` exists after the lines exactly when it existed
   before or an attribute line among them has its name; the title also
   appears with the first text line.
   */
  lemma {:induction false} AbsorbHas(r: Record, ls: seq<string>, k: string)
    requires k != "Body"
    ensures Absorb(r, ls).Has(k) <==>
      || r.Has(k)
      || (exists l | l in ls :: SetsProperty(l, k))
      || (k == "Title" && exists l | l in ls :: MatchLine(l) == TextLine)
  {
    if ls != [] {
      var init := ls[..|ls| - 1];
      var l := ls[|ls| - 1];
      assert ls == init + [l];
      AbsorbHas(r, init, k);
      ApplyHas(Absorb(r, init), l, k);
    }
  }

  lemma ApplyHas(r: Record, l: string, k: string)
    requires k != "Body"
    ensures Apply(r, l).Has(k) <==>
      r.Has(k) || SetsProperty(l, k) || (k == "Title" && MatchLine(l) == TextLine)
  {
  }

  /**
   A property other than `Body` keeps its value through lines none of which
   is an attribute line with its name.
   */
  lemma {:induction false} AbsorbKeepsValue(r: Record, ls: seq<string>, k: string)
    requires k != "Body" && r.Has(k)
    requires forall l | l in ls :: !SetsProperty(l, k)
    ensures Absorb(r, ls).Has(k) && Absorb(r, ls).Get(k) == r.Get(k)
  {
    if ls != [] {
      var init := ls[..|ls| - 1];
      assert forall l | l in init :: l in ls;
      AbsorbKeepsValue(r, init, k);
      assert ls[|ls| - 1] in ls;
    }
  }

  /** The line at `i` is an attribute line, and no later line sets a property of the same name. */
  predicate LastSetter(ls: seq<string>, i: int) {
    && 0 <= i < |ls| && MatchLine(ls[i]) == Attribute
    && forall j | i < j < |ls| :: !SetsProperty(ls[j], AttributeName(ls[i]))
  }

  /**
   An attribute line's value is what its property holds at the end, unless a
   later attribute line of the same name overwrites it (the body aside, which
   text and blank lines extend).
   */
  lemma {:induction false} AttributeSticks(r: Record, ls: seq<string>, i: int)
    requires LastSetter(ls, i) && AttributeName(ls[i]) != "Body"
    ensures Absorb(r, ls).Has(AttributeName(ls[i]))
    ensures Absorb(r, ls).Get(AttributeName(ls[i])) == AttributeValue(ls[i])
  {
    if i == |ls| - 1 {
      AbsorbLastAttribute(r, ls);
    } else {
      var init := ls[..|ls| - 1];
      LastSetterInit(ls, i);
      AttributeSticks(r, init, i);
      ApplyKeepsValue(Absorb(r, init), ls[|ls| - 1], AttributeName(ls[i]));
    }
  }

  /** A log ending in an attribute line ends with that line's value set. */
  lemma AbsorbLastAttribute(r: Record, ls: seq<string>)
    requires ls != [] && MatchLine(ls[|ls| - 1]) == Attribute
    ensures Absorb(r, ls) == WithAttribute(Absorb(r, ls[..|ls| - 1]), ls[|ls| - 1])
  {
  }

  /** A last setter before the final line is a last setter of the lines before it. */
  lemma LastSetterInit(ls: seq<string>, i: int)
    requires LastSetter(ls, i) && i < |ls| - 1
    ensures LastSetter(ls[..|ls| - 1], i) && ls[..|ls| - 1][i] == ls[i]
    ensures !SetsProperty(ls[|ls| - 1], AttributeName(ls[i]))
  {
    var init := ls[..|ls| - 1];
    forall j | i < j < |init| ensures !SetsProperty(init[j], AttributeName(init[i])) {
      assert init[j] == ls[j];
    }
  }

  /** A line that does not set property `k` (other than the body) leaves its value alone. */
  lemma ApplyKeepsValue(r: Record, l: string, k: string)
    requires k != "Body" && r.Has(k) && !SetsProperty(l, k)
    ensures Apply(r, l).Has(k) && Apply(r, l).Get(k) == r.Get(k)
  {
  }

  // ---------------------------------------------------------------------
  // Property order
  // ---------------------------------------------------------------------

  /**
   The names of the attribute lines in `ls` that are not among `known`, each
   once, in the order of their first line: the order in which the object
   gains them.
   */
  function NewNames(known: seq<string>, ls: seq<string>): (n: seq<string>)
    ensures forall k | k in n :: k !in known
  {
    if ls == [] then []
    else
      var prev := NewNames(known, ls[..|ls| - 1]);
      var l := ls[|ls| - 1];
      if MatchLine(l) == Attribute && AttributeName(l) !in known + prev then prev + [AttributeName(l)]
      else prev
  }

  /**
   Over attribute and blank lines, a well-formed table keeps its names in
   order and gains each new attribute name at the end, once, when first set.
   */
  lemma {:induction false} HeaderNames(r: Record, ls: seq<string>)
    requires r.Valid()
    requires forall l | l in ls :: MatchLine(l) == Attribute || MatchLine(l) == BlankLine
    ensures Absorb(r, ls).Valid()
    ensures Absorb(r, ls).names == r.names + NewNames(r.names, ls)
  {
    if ls != [] {
      var init := ls[..|ls| - 1];
      var l := ls[|ls| - 1];
      assert l in ls;
      forall x | x in init ensures MatchLine(x) == Attribute || MatchLine(x) == BlankLine {
        assert x in ls;
      }
      HeaderNames(r, init);
      HeaderNameStep(r, init, l);
    }
  }

  /** One header line added to a table built from `r`. */
  lemma HeaderNameStep(r: Record, init: seq<string>, l: string)
    requires Absorb(r, init).Valid()
    requires Absorb(r, init).names == r.names + NewNames(r.names, init)
    requires MatchLine(l) == Attribute || MatchLine(l) == BlankLine
    ensures Absorb(r, init + [l]).Valid()
    ensures Absorb(r, init + [l]).names == r.names + NewNames(r.names, init + [l])
  {
    var ls := init + [l];
    assert ls[..|ls| - 1] == init && ls[|ls| - 1] == l;
    if MatchLine(l) == Attribute {
      assert (r.names + NewNames(r.names, init)) + [AttributeName(l)]
          == r.names + (NewNames(r.names, init) + [AttributeName(l)]);
    }
  }

  // ---------------------------------------------------------------------
  // Well-formed property tables
  // ---------------------------------------------------------------------

  /** Every saved table and the current one have distinct names, exactly their properties. */
  ghost predicate ValidParse(p: Parse) {
    p.current.Valid() && forall r | r in p.commits :: r.Valid()
  }

  /** One turn of the loop keeps every table well formed. */
  lemma StepValid(p: Parse, line: string)
    requires ValidParse(p)
    ensures ValidParse(Step(p, line))
  {
  }

  lemma {:induction false} RunFromValid(p: Parse, lines: seq<string>)
    requires ValidParse(p)
    ensures ValidParse(RunFrom(p, lines))
  {
    if lines != [] {
      RunFromValid(p, lines[..|lines| - 1]);
      StepValid(RunFrom(p, lines[..|lines| - 1]), lines[|lines| - 1]);
    }
  }

  /**
   Every object the parser returns has a well-formed property table: its
   names are distinct and are exactly the properties it holds.
   */
  lemma ParseLogValid(ls: seq<string>)
    ensures forall r | r in ParseLog(ls) :: r.Valid()
  {
    RunFromValid(Start, ls);
  }

  // ---------------------------------------------------------------------
  // A log as a preamble followed by commit blocks
  // ---------------------------------------------------------------------

  /** A commit block: a commit line, then lines that are not. */
  predicate IsBlock(b: seq<string>) {
    |b| > 0 && MatchLine(b[0]) == CommitStart && NoStarts(b[1..])
  }

  predicate AllBlocks(bs: seq<seq<string>>) {
    forall i | 0 <= i < |bs| :: IsBlock(bs[i])
  }

  function Flatten(bs: seq<seq<string>>): seq<string> {
    if bs == [] then [] else Flatten(bs[..|bs| - 1]) + bs[|bs| - 1]
  }

  /** The record a commit block yields. */
  function BlockRecord(b: seq<string>): Record
    requires |b| > 0
  {
    Absorb(StartRecord(b[0]), b[1..])
  }

  function BlockRecords(bs: seq<seq<string>>): (rs: seq<Record>)
    requires AllBlocks(bs)
    ensures |rs| == |bs|
  {
    if bs == [] then [] else BlockRecords(bs[..|bs| - 1]) + [BlockRecord(bs[|bs| - 1])]
  }

  /** Every block yields a record with a hash. */
  lemma BlockRecordHasHash(b: seq<string>)
    requires |b| > 0
    ensures BlockRecord(b).Has("Hash")
  {
    AbsorbKeepsProperties(StartRecord(b[0]), b[1..], "Hash");
  }

  /** A commit block saves the current commit and leaves its own record as the current one. */
  lemma RunOverBlock(q: Parse, b: seq<string>)
    requires IsBlock(b)
    ensures RunFrom(q, b) == Parse(Save(q.commits, q.current), BlockRecord(b))
  {
    assert b == [b[0]] + b[1..];
    RunFromAppend(q, [b[0]], b[1..]);
    assert [b[0]][..0] == [];
    RunWithoutStarts(Step(q, b[0]), b[1..]);
  }

  /** Saving the record of the last block completes the list of block records. */
  lemma SaveLastBlock(s: seq<Record>, bs: seq<seq<string>>)
    requires AllBlocks(bs) && bs != []
    ensures Save(s + BlockRecords(bs[..|bs| - 1]), BlockRecord(bs[|bs| - 1])) == s + BlockRecords(bs)
  {
    BlockRecordHasHash(bs[|bs| - 1]);
    SaveHashed(s, BlockRecords(bs[..|bs| - 1]), BlockRecord(bs[|bs| - 1]));
  }

  /** A record with a hash is kept, behind the ones already kept. */
  lemma SaveHashed(s: seq<Record>, front: seq<Record>, x: Record)
    requires x.Has("Hash")
    ensures Save(s + front, x) == s + (front + [x])
  {
    assert s + front + [x] == s + (front + [x]);
  }

  /** Appending a commit block to a log saves the current commit and makes the block's record current. */
  lemma RunAddBlock(pre: seq<string>, init: seq<seq<string>>, b: seq<string>)
    requires IsBlock(b)
    ensures var q := RunFrom(Start, pre + Flatten(init));
      RunFrom(Start, pre + Flatten(init + [b])) == Parse(Save(q.commits, q.current), BlockRecord(b))
  {
    assert (init + [b])[..|init|] == init;
    assert pre + Flatten(init + [b]) == (pre + Flatten(init)) + b;
    RunFromAppend(Start, pre + Flatten(init), b);
    RunOverBlock(RunFrom(Start, pre + Flatten(init)), b);
  }

  lemma AllBlocksInit(bs: seq<seq<string>>)
    requires AllBlocks(bs) && bs != []
    ensures AllBlocks(bs[..|bs| - 1]) && IsBlock(bs[|bs| - 1])
  {
    var init := bs[..|bs| - 1];
    forall i | 0 <= i < |init| ensures IsBlock(init[i]) {
      assert init[i] == bs[i];
    }
  }

  /** A non-empty sequence is its front followed by its last element. */
  lemma SplitLast<T>(s: seq<T>)
    requires s != []
    ensures s == s[..|s| - 1] + [s[|s| - 1]]
  {
  }

  /** The induction step of RunOverBlocks: the last block behind the blocks already run. */
  lemma RunAddLastBlock(pre: seq<string>, bs: seq<seq<string>>)
    requires bs != [] && AllBlocks(bs[..|bs| - 1]) && IsBlock(bs[|bs| - 1])
    requires bs[..|bs| - 1] == [] ==> RunFrom(Start, pre + Flatten(bs[..|bs| - 1])) == Parse([], Absorb(Empty, pre))
    requires bs[..|bs| - 1] != [] ==>
      var init := bs[..|bs| - 1];
      RunFrom(Start, pre + Flatten(init)) ==
      Parse(Save([], Absorb(Empty, pre)) + BlockRecords(init[..|init| - 1]), BlockRecord(init[|init| - 1]))
    ensures RunFrom(Start, pre + Flatten(bs)) ==
      Parse(Save([], Absorb(Empty, pre)) + BlockRecords(bs[..|bs| - 1]), BlockRecord(bs[|bs| - 1]))
  {
    var init := bs[..|bs| - 1];
    var b := bs[|bs| - 1];
    SplitLast(bs);
    RunAddBlock(pre, init, b);
    var s := Save([], Absorb(Empty, pre));
    if init == [] {
      assert s + [] == s;
    } else {
      SaveLastBlock(s, init);
    }
  }

  lemma {:induction false} RunOverBlocks(pre: seq<string>, bs: seq<seq<string>>)
    requires NoStarts(pre) && AllBlocks(bs)
    ensures bs == [] ==> RunFrom(Start, pre + Flatten(bs)) == Parse([], Absorb(Empty, pre))
    ensures bs != [] ==>
      RunFrom(Start, pre + Flatten(bs)) ==
      Parse(Save([], Absorb(Empty, pre)) + BlockRecords(bs[..|bs| - 1]), BlockRecord(bs[|bs| - 1]))
  {
    if bs == [] {
      assert pre + Flatten(bs) == pre;
      RunWithoutStarts(Start, pre);
    } else {
      AllBlocksInit(bs);
      RunOverBlocks(pre, bs[..|bs| - 1]);
      RunAddLastBlock(pre, bs);
    }
  }

  /**
   The records a log yields: the preamble's record when a `Hash` attribute
   gave it one, then one record per commit block, in the order of the blocks.
   */
  lemma ParseLogOverBlocks(pre: seq<string>, bs: seq<seq<string>>)
    requires NoStarts(pre) && AllBlocks(bs)
    ensures ParseLog(pre + Flatten(bs)) == Save([], Absorb(Empty, pre)) + BlockRecords(bs)
  {
    RunOverBlocks(pre, bs);
    if bs == [] {
      assert Save([], Absorb(Empty, pre)) + [] == Save([], Absorb(Empty, pre));
    } else {
      SaveLastBlock(Save([], Absorb(Empty, pre)), bs);
    }
  }

  // ---------------------------------------------------------------------
  // Every log splits into a preamble and commit blocks
  // ---------------------------------------------------------------------

  /** The lines before the first commit line: the longest prefix without one. */
  function Preamble(ls: seq<string>): (pre: seq<string>)
    ensures pre <= ls && NoStarts(pre)
    ensures |pre| < |ls| ==> MatchLine(ls[|pre|]) == CommitStart
  {
    if ls == [] || MatchLine(ls[0]) == CommitStart then [] else [ls[0]] + Preamble(ls[1..])
  }

  /** The commit lines of the log, in order. */
  function StartLines(ls: seq<string>): seq<string> {
    if ls == [] then []
    else if MatchLine(ls[|ls| - 1]) == CommitStart then StartLines(ls[..|ls| - 1]) + [ls[|ls| - 1]]
    else StartLines(ls[..|ls| - 1])
  }

  /** The commit blocks of the log: each commit line with the lines up to the next one. */
  function Blocks(ls: seq<string>): (bs: seq<seq<string>>)
    ensures AllBlocks(bs)
    ensures |bs| == |StartLines(ls)|
  {
    if ls == [] then []
    else
      var bs := Blocks(ls[..|ls| - 1]);
      var l := ls[|ls| - 1];
      if MatchLine(l) == CommitStart then bs + [[l]]
      else if bs == [] then []
      else
        var last := bs[|bs| - 1];
        assert IsBlock(last);
        assert (last + [l])[1..] == last[1..] + [l];
        bs[..|bs| - 1] + [last + [l]]
  }

  /** The preamble is determined by its defining properties. */
  lemma PreambleUnique(ls: seq<string>, pre: seq<string>)
    requires pre <= ls && NoStarts(pre)
    requires |pre| < |ls| ==> MatchLine(ls[|pre|]) == CommitStart
    ensures Preamble(ls) == pre
  {
  }

  /**
   `bs` cuts the log after its preamble into commit blocks, the i-th of which
   opens with the i-th commit line.
   */
  ghost predicate Splits(ls: seq<string>, bs: seq<seq<string>>) {
    && AllBlocks(bs)
    && Preamble(ls) + Flatten(bs) == ls
    && |bs| == |StartLines(ls)|
    && forall i | 0 <= i < |bs| :: bs[i][0] == StartLines(ls)[i]
  }

  /** A commit line opens a new block. */
  lemma SplitsAddStart(ls: seq<string>, bs: seq<seq<string>>, l: string)
    requires Splits(ls, bs) && MatchLine(l) == CommitStart
    ensures Splits(ls + [l], bs + [[l]])
  {
    var ls' := ls + [l];
    assert ls'[..|ls|] == ls;
    PreambleUnique(ls', Preamble(ls));
    assert (bs + [[l]])[..|bs|] == bs;
    assert AllBlocks(bs + [[l]]) by {
      forall i | 0 <= i < |bs| + 1 ensures IsBlock((bs + [[l]])[i]) {
        if i < |bs| {
          assert IsBlock(bs[i]);
        } else {
          assert [l][1..] == [];
        }
      }
    }
  }

  /** Any other line after a commit line joins the last block. */
  lemma SplitsExtend(ls: seq<string>, bs: seq<seq<string>>, l: string)
    requires Splits(ls, bs) && MatchLine(l) != CommitStart && bs != []
    ensures Splits(ls + [l], bs[..|bs| - 1] + [bs[|bs| - 1] + [l]])
  {
    var ls' := ls + [l];
    assert ls'[..|ls|] == ls;
    var front := bs[..|bs| - 1];
    var last := bs[|bs| - 1];
    var bs' := front + [last + [l]];
    PreambleUnique(ls', Preamble(ls));
    assert Flatten(bs') == Flatten(bs) + [l] by {
      FlattenSnoc(front, last + [l]);
      SplitLast(bs);
      FlattenSnoc(front, last);
    }
    assert AllBlocks(bs') && |bs'| == |bs| && forall i | 0 <= i < |bs'| :: bs'[i][0] == bs[i][0] by {
      BlockExtend(last, l);
      ReplaceLastBlock(bs, last + [l]);
    }
  }

  lemma FlattenSnoc(bs: seq<seq<string>>, b: seq<string>)
    ensures Flatten(bs + [b]) == Flatten(bs) + b
  {
    assert (bs + [b])[..|bs|] == bs;
  }

  /** A block stays a block when a line that is not a commit line joins it. */
  lemma BlockExtend(b: seq<string>, l: string)
    requires IsBlock(b) && MatchLine(l) != CommitStart
    ensures IsBlock(b + [l]) && (b + [l])[0] == b[0]
  {
    assert (b + [l])[1..] == b[1..] + [l];
    forall i | 0 <= i < |b[1..] + [l]| ensures MatchLine((b[1..] + [l])[i]) != CommitStart {
      if i < |b[1..]| {
        assert (b[1..] + [l])[i] == b[1..][i];
      }
    }
  }

  /** Replacing the last block by a block with the same first line. */
  lemma ReplaceLastBlock(bs: seq<seq<string>>, b: seq<string>)
    requires AllBlocks(bs) && bs != [] && IsBlock(b) && b[0] == bs[|bs| - 1][0]
    ensures var bs' := bs[..|bs| - 1] + [b];
      AllBlocks(bs') && |bs'| == |bs| && forall i | 0 <= i < |bs'| :: bs'[i][0] == bs[i][0]
  {
    var bs' := bs[..|bs| - 1] + [b];
    forall i | 0 <= i < |bs'| ensures IsBlock(bs'[i]) && bs'[i][0] == bs[i][0] {
      if i < |bs| - 1 {
        assert bs'[i] == bs[i];
      }
    }
  }

  /** Before the first commit line, every line belongs to the preamble. */
  lemma SplitsPreamble(ls: seq<string>, l: string)
    requires Splits(ls, []) && MatchLine(l) != CommitStart
    ensures Splits(ls + [l], [])
  {
    var ls' := ls + [l];
    assert ls'[..|ls|] == ls;
    assert Preamble(ls) + [] == Preamble(ls);
    PreambleUnique(ls', ls');
    assert ls' + [] == ls';
  }

  /** Every log splits into its preamble and its commit blocks. */
  lemma {:induction false} BlocksSplit(ls: seq<string>)
    ensures Splits(ls, Blocks(ls))
  {
    if ls == [] {
      assert Preamble(ls) == [];
    } else {
      var init := ls[..|ls| - 1];
      var l := ls[|ls| - 1];
      BlocksSplit(init);
      var bs := Blocks(init);
      assert ls == init + [l];
      if MatchLine(l) == CommitStart {
        SplitsAddStart(init, bs, l);
      } else if bs == [] {
        SplitsPreamble(init, l);
      } else {
        SplitsExtend(init, bs, l);
      }
    }
  }

  // ---------------------------------------------------------------------
  // Which records are kept, how many, in which order
  // ---------------------------------------------------------------------

  lemma {:induction false} BlockRecordsAt(bs: seq<seq<string>>, i: nat)
    requires AllBlocks(bs) && i < |bs|
    ensures BlockRecords(bs)[i] == BlockRecord(bs[i])
  {
    if i < |bs| - 1 {
      AllBlocksInit(bs);
      BlockRecordsAt(bs[..|bs| - 1], i);
    }
  }

  lemma {:induction false} FlattenContains(bs: seq<seq<string>>, i: nat, l: string)
    requires i < |bs| && l in bs[i]
    ensures l in Flatten(bs)
  {
    if i < |bs| - 1 {
      FlattenContains(bs[..|bs| - 1], i, l);
    }
  }

  /**
   What the parser keeps from a log: the preamble's record when an attribute
   line gave it a hash, then the record of each commit block, in log order.
   */
  lemma ParseLogStructure(ls: seq<string>)
    ensures ParseLog(ls) == Save([], Absorb(Empty, Preamble(ls))) + BlockRecords(Blocks(ls))
  {
    BlocksSplit(ls);
    ParseLogOverBlocks(Preamble(ls), Blocks(ls));
  }

  predicate AllHashed(rs: seq<Record>) {
    forall i | 0 <= i < |rs| :: rs[i].Has("Hash")
  }

  lemma {:induction false} BlockRecordsHashed(bs: seq<seq<string>>)
    requires AllBlocks(bs)
    ensures AllHashed(BlockRecords(bs))
  {
    if bs != [] {
      AllBlocksInit(bs);
      BlockRecordsHashed(bs[..|bs| - 1]);
      BlockRecordHasHash(bs[|bs| - 1]);
    }
  }

  /** Every record the parser keeps has a hash. */
  lemma KeptRecordsHaveHash(ls: seq<string>)
    ensures AllHashed(ParseLog(ls))
  {
    var x := Absorb(Empty, Preamble(ls));
    var rest := BlockRecords(Blocks(ls));
    assert ParseLog(ls) == Save([], x) + rest by {
      ParseLogStructure(ls);
    }
    BlockRecordsHashed(Blocks(ls));
    SaveFront(x, rest);
  }

  /** The record of the lines before the first commit is kept, in front, exactly when it has a hash. */
  lemma SaveFront(x: Record, rest: seq<Record>)
    ensures x.Has("Hash") ==> Save([], x) + rest == [x] + rest
    ensures !x.Has("Hash") ==> Save([], x) + rest == rest
    ensures AllHashed(rest) ==> AllHashed(Save([], x) + rest)
  {
    if !x.Has("Hash") {
      assert [] + rest == rest;
    }
  }

  /** The preamble's record has a hash exactly when one of its attribute lines is named `Hash`. */
  lemma PreambleHash(ls: seq<string>)
    ensures Absorb(Empty, Preamble(ls)).Has("Hash") <==> exists l | l in Preamble(ls) :: SetsProperty(l, "Hash")
  {
    AbsorbHas(Empty, Preamble(ls), "Hash");
  }

  /**
   One record per commit line, plus one for the lines before the first
   commit line exactly when an attribute line among them is named `Hash`.
   */
  lemma CommitCount(ls: seq<string>)
    ensures |ParseLog(ls)| ==
      |StartLines(ls)| + if exists l | l in Preamble(ls) :: SetsProperty(l, "Hash") then 1 else 0
  {
    var x := Absorb(Empty, Preamble(ls));
    var rest := BlockRecords(Blocks(ls));
    assert ParseLog(ls) == Save([], x) + rest by {
      ParseLogStructure(ls);
    }
    assert |rest| == |StartLines(ls)|;
    PreambleHash(ls);
    SaveFront(x, rest);
  }

  /**
   The lines before the first commit line are kept as a record of their own
   only when they set a `Hash` property; otherwise they are dropped.
   */
  lemma PreambleKeptOnlyWithHash(ls: seq<string>)
    ensures (exists l | l in Preamble(ls) :: SetsProperty(l, "Hash")) ==>
      ParseLog(ls) == [Absorb(Empty, Preamble(ls))] + BlockRecords(Blocks(ls))
    ensures !(exists l | l in Preamble(ls) :: SetsProperty(l, "Hash")) ==>
      ParseLog(ls) == BlockRecords(Blocks(ls))
  {
    var x := Absorb(Empty, Preamble(ls));
    var rest := BlockRecords(Blocks(ls));
    assert ParseLog(ls) == Save([], x) + rest by {
      ParseLogStructure(ls);
    }
    PreambleHash(ls);
    SaveFront(x, rest);
  }

  /**
   When no attribute line is named `Hash`, the i-th record the parser keeps
   carries the hash of the i-th commit line, and there is one record per
   commit line.
   */
  lemma CommitHashes(ls: seq<string>)
    requires forall l | l in ls :: !SetsProperty(l, "Hash")
    ensures |ParseLog(ls)| == |StartLines(ls)|
    ensures forall i | 0 <= i < |ParseLog(ls)| ::
      ParseLog(ls)[i].Has("Hash") && ParseLog(ls)[i].Get("Hash") == HashOf(StartLines(ls)[i])
  {
    BlocksSplit(ls);
    var pre := Preamble(ls);
    var bs := Blocks(ls);
    assert forall l | l in pre :: l in ls;
    AbsorbHas(Empty, pre, "Hash");
    PreambleKeptOnlyWithHash(ls);
    forall i | 0 <= i < |bs|
      ensures BlockRecords(bs)[i].Has("Hash") && BlockRecords(bs)[i].Get("Hash") == HashOf(StartLines(ls)[i])
    {
      BlockRecordsAt(bs, i);
      var b := bs[i];
      assert IsBlock(b);
      forall l | l in b[1..] ensures !SetsProperty(l, "Hash") {
        assert l in b;
        FlattenContains(bs, i, l);
        assert l in ls;
      }
      AbsorbKeepsValue(StartRecord(b[0]), b[1..], "Hash");
    }
  }

  /**
   The final save keeps the last commit: when the log has a commit line, the
   last record is the record of the last commit block, whatever follows it.
   */
  lemma LastCommitKept(ls: seq<string>)
    requires StartLines(ls) != []
    ensures ParseLog(ls) != []
    ensures ParseLog(ls)[|ParseLog(ls)| - 1] == BlockRecord(Blocks(ls)[|Blocks(ls)| - 1])
  {
    BlocksSplit(ls);
    ParseLogStructure(ls);
    BlockRecordsAt(Blocks(ls), |Blocks(ls)| - 1);
  }
}
