/**
 How the message lines of a commit become its `Title` and `Body`: the first
 text line is the title, and the later lines form the body, one piece per
 line joined by line breaks, blank lines before the first body text dropped.
 */
module CommitMessage {
  import opened Text
  import opened CommitRecord
  import opened Classifier
  import opened GitLog
  import opened LogProperties

  /** Lines git prints as a commit message: text lines and blank lines. */
  predicate MessageLines(ls: seq<string>) {
    forall l | l in ls :: MatchLine(l) == TextLine || MatchLine(l) == BlankLine
  }

  /**
   The pieces of the body that the lines after the title make: the trimmed
   text of each text line, and an empty piece for each blank line that comes
   after some body text.
   */
  function BodyPieces(ls: seq<string>): seq<string> {
    if ls == [] then [] else NextPieces(BodyPieces(ls[..|ls| - 1]), ls[|ls| - 1])
  }

  /** The pieces after one more message line. */
  function NextPieces(ps: seq<string>, l: string): seq<string> {
    if MatchLine(l) == TextLine then ps + [TextOf(l)]
    else if MatchLine(l) == BlankLine && ps != [] then ps + [""]
    else ps
  }

  /** The trimmed text of a text line is never empty. */
  lemma TextOfTextLine(l: string)
    requires MatchLine(l) == TextLine
    ensures TextOf(l) != []
  {
    TrimEmptyIffBlank(l);
  }

  /** Body pieces start with text, and adding lines only adds pieces. */
  lemma {:induction false} BodyPiecesGrow(ls: seq<string>)
    ensures BodyPieces(ls) != [] ==> BodyPieces(ls)[0] != []
    ensures ls != [] && BodyPieces(ls[..|ls| - 1]) != [] ==>
      BodyPieces(ls)[0] == BodyPieces(ls[..|ls| - 1])[0]
  {
    if ls != [] {
      BodyPiecesGrow(ls[..|ls| - 1]);
      NextPiecesGrow(BodyPieces(ls[..|ls| - 1]), ls[|ls| - 1]);
    }
  }

  /** One more line keeps the first piece, and a first piece is never empty. */
  lemma NextPiecesGrow(ps: seq<string>, l: string)
    ensures ps != [] ==> NextPieces(ps, l) != [] && NextPieces(ps, l)[0] == ps[0]
    ensures ps == [] && NextPieces(ps, l) != [] ==> NextPieces(ps, l)[0] != []
  {
    if MatchLine(l) == TextLine {
      TextOfTextLine(l);
    }
  }

  /** A body built from pieces that start with a text other than "0" is never PHP-empty. */
  lemma {:induction false} JoinNotPhpEmpty(ps: seq<string>)
    requires ps != [] && ps[0] != [] && ps[0] != "0"
    ensures !PhpEmpty(Join(EOL, ps))
    ensures |ps| > 1 ==> |Join(EOL, ps)| > 1
  {
    if |ps| > 1 {
      JoinNotPhpEmpty(ps[..|ps| - 1]);
    }
  }

  /**
   After the title, a commit's body is its pieces joined by line breaks, and
   exists exactly when there is a piece; the title and every property other
   than the body stay as they were. This holds as long as the first piece is
   not "0", which PHP's `empty()` takes for an empty body.
   */
  lemma {:induction false} BodyJoinsPieces(r: Record, ls: seq<string>)
    requires r.Has("Title") && !r.Has("Body")
    requires MessageLines(ls)
    requires BodyPieces(ls) == [] || BodyPieces(ls)[0] != "0"
    ensures Absorb(r, ls).Has("Title") && Absorb(r, ls).Get("Title") == r.Get("Title")
    ensures Absorb(r, ls).Has("Body") <==> BodyPieces(ls) != []
    ensures BodyPieces(ls) != [] ==> Absorb(r, ls).Get("Body") == Join(EOL, BodyPieces(ls))
    ensures SameExcept(r, Absorb(r, ls), {"Body"})
  {
    if ls != [] {
      var init := ls[..|ls| - 1];
      var l := ls[|ls| - 1];
      assert MessageLines(init) by {
        forall x | x in init ensures x in ls { }
      }
      assert MatchLine(l) == TextLine || MatchLine(l) == BlankLine by {
        assert l in ls;
      }
      BodyPiecesGrow(ls);
      BodyPiecesGrow(init);
      BodyJoinsPieces(r, init);
      BodyStep(r, Absorb(r, init), BodyPieces(init), l);
    }
  }

  /** What the title and body hold after some message lines, given the pieces those lines make. */
  ghost predicate BodyInvariant(r: Record, a: Record, ps: seq<string>) {
    && r.Has("Title") && a.Has("Title") && a.Get("Title") == r.Get("Title")
    && (a.Has("Body") <==> ps != [])
    && (ps != [] ==> a.Get("Body") == Join(EOL, ps))
    && SameExcept(r, a, {"Body"})
  }

  /** One message line keeps BodyInvariant, with the pieces moving as NextPieces says. */
  lemma BodyStep(r: Record, a: Record, ps: seq<string>, l: string)
    requires BodyInvariant(r, a, ps)
    requires MatchLine(l) == TextLine || MatchLine(l) == BlankLine
    requires ps == [] || (ps[0] != [] && ps[0] != "0")
    ensures BodyInvariant(r, Apply(a, l), NextPieces(ps, l))
  {
    if MatchLine(l) == TextLine {
      BodyStepText(r, a, ps, l);
    } else {
      BodyStepBlank(r, a, ps, l);
    }
  }

  lemma BodyStepText(r: Record, a: Record, ps: seq<string>, l: string)
    requires BodyInvariant(r, a, ps)
    requires ps == [] || (ps[0] != [] && ps[0] != "0")
    ensures BodyInvariant(r, WithText(a, l), ps + [TextOf(l)])
  {
    var body := if ps == [] then TextOf(l) else a.Get("Body") + EOL + TextOf(l);
    if ps == [] {
      assert Join(EOL, [TextOf(l)]) == TextOf(l);
    } else {
      JoinNotPhpEmpty(ps);
      JoinSnoc(EOL, ps, TextOf(l));
    }
    assert WithText(a, l) == a.Set("Body", body);
    SetBodyKeepsOthers(r, a, body);
  }

  /** Setting the body keeps every other property of a record that already differed only there. */
  lemma SetBodyKeepsOthers(r: Record, a: Record, body: string)
    requires SameExcept(r, a, {"Body"})
    ensures SameExcept(r, a.Set("Body", body), {"Body"})
  {
  }

  lemma BodyStepBlank(r: Record, a: Record, ps: seq<string>, l: string)
    requires BodyInvariant(r, a, ps)
    requires MatchLine(l) == BlankLine
    ensures BodyInvariant(r, WithBlank(a), if ps != [] then ps + [""] else ps)
  {
    if ps != [] {
      JoinSnoc(EOL, ps, "");
    }
  }

  /** Joining one more part puts the separator and the part at the end. */
  lemma JoinSnoc(sep: string, ps: seq<string>, x: string)
    requires ps != []
    ensures Join(sep, ps + [x]) == Join(sep, ps) + sep + x
  {
    assert (ps + [x])[..|ps|] == ps;
  }

  /**
   The title is the trimmed text of the first text line, whatever blank
   lines, attribute lines or later text lines surround it, provided no
   attribute line is itself named `Title`.
   */
  lemma TitleIsFirstText(r: Record, ls: seq<string>, i: nat)
    requires !r.Has("Title")
    requires i < |ls| && MatchLine(ls[i]) == TextLine
    requires forall j | 0 <= j < i :: MatchLine(ls[j]) != TextLine
    requires forall l | l in ls :: !SetsProperty(l, "Title")
    ensures Absorb(r, ls).Has("Title") && Absorb(r, ls).Get("Title") == TextOf(ls[i])
  {
    var before := ls[..i];
    var upto := before + [ls[i]];
    var after := ls[i + 1..];
    assert ls == upto + after;
    AbsorbAppend(r, upto, after);
    AbsorbAppend(r, before, [ls[i]]);
    assert [ls[i]][..0] == [];
    assert forall l | l in before :: l in ls;
    assert forall l | l in before :: MatchLine(l) != TextLine;
    AbsorbHas(r, before, "Title");
    assert forall l | l in after :: l in ls;
    AbsorbKeepsValue(Absorb(r, upto), after, "Title");
  }

  /**
   A first body line reading "0" is lost when a text line follows it at
   once: PHP's `empty()` takes "0" for an empty body, so the next text
   replaces it instead of being appended after a line break.
   */
  lemma ZeroFirstBodyLineIsLost(r: Record, l0: string, l1: string)
    requires r.Has("Title") && !r.Has("Body")
    requires MatchLine(l0) == TextLine && TextOf(l0) == "0" && MatchLine(l1) == TextLine
    ensures BodyPieces([l0, l1]) == ["0", TextOf(l1)]
    ensures Absorb(r, [l0, l1]).Has("Body") && Absorb(r, [l0, l1]).Get("Body") == TextOf(l1)
    ensures Absorb(r, [l0, l1]).Get("Body") != Join(EOL, BodyPieces([l0, l1]))
  {
    ZeroFirstBody(r, l0, l1);
    ZeroFirstPieces(l0, l1);
    assert |"0" + EOL + TextOf(l1)| > |TextOf(l1)|;
  }

  lemma ZeroFirstBody(r: Record, l0: string, l1: string)
    requires r.Has("Title") && !r.Has("Body")
    requires MatchLine(l0) == TextLine && TextOf(l0) == "0" && MatchLine(l1) == TextLine
    ensures Absorb(r, [l0, l1]).Has("Body") && Absorb(r, [l0, l1]).Get("Body") == TextOf(l1)
  {
    var r0 := WithText(r, l0);
    assert Absorb(r, [l0, l1]) == WithText(r0, l1) by {
      TwoLines(r, l0, l1);
    }
    assert r0.Has("Title") && r0.Has("Body") && r0.Get("Body") == "0" by {
      assert r0 == r.Set("Body", "0");
    }
    assert WithText(r0, l1) == r0.Set("Body", TextOf(l1));
  }

  lemma ZeroFirstPieces(l0: string, l1: string)
    requires MatchLine(l0) == TextLine && TextOf(l0) == "0" && MatchLine(l1) == TextLine
    ensures BodyPieces([l0, l1]) == ["0", TextOf(l1)]
    ensures Join(EOL, BodyPieces([l0, l1])) == "0" + EOL + TextOf(l1)
  {
    TwoLinePieces(l0, l1);
    assert ["0", TextOf(l1)][..1] == ["0"];
  }

  /** Two lines, handled in turn. */
  lemma TwoLines(r: Record, l0: string, l1: string)
    ensures Absorb(r, [l0, l1]) == Apply(Apply(r, l0), l1)
  {
    var ls := [l0, l1];
    assert ls[..1] == [l0] && ls[1] == l1;
    assert [l0][..0] == [] && [l0][0] == l0;
    assert Absorb(r, [l0]) == Apply(r, l0);
  }

  /** The pieces of two lines. */
  lemma TwoLinePieces(l0: string, l1: string)
    ensures BodyPieces([l0, l1]) == NextPieces(NextPieces([], l0), l1)
  {
    var ls := [l0, l1];
    assert ls[..1] == [l0] && ls[1] == l1;
    assert [l0][..0] == [] && [l0][0] == l0;
    assert BodyPieces([l0]) == NextPieces([], l0);
  }

  /** The body appears only with a text line after the title, or an attribute line named `Body`. */
  lemma {:induction false} NoBodyWithoutText(r: Record, ls: seq<string>)
    requires !r.Has("Body")
    requires forall l | l in ls :: MatchLine(l) != TextLine && !SetsProperty(l, "Body")
    ensures !Absorb(r, ls).Has("Body")
  {
    if ls != [] {
      assert ls[|ls| - 1] in ls;
      assert forall l | l in ls[..|ls| - 1] :: l in ls;
      NoBodyWithoutText(r, ls[..|ls| - 1]);
    }
  }

  /**
   The attribute and blank lines between a commit line and its title keep
   the hash, add the attributes, and create neither a title nor a body.
   */
  lemma HeaderRecord(c: string, head: seq<string>)
    requires forall l | l in head :: MatchLine(l) == Attribute || MatchLine(l) == BlankLine
    requires forall l | l in head :: !SetsProperty(l, "Hash") && !SetsProperty(l, "Title") && !SetsProperty(l, "Body")
    ensures var r := Absorb(StartRecord(c), head);
      && r.Has("Hash") && r.Get("Hash") == HashOf(c)
      && !r.Has("Title") && !r.Has("Body")
      && (forall l | l in head && MatchLine(l) == Attribute :: r.Has(AttributeName(l)))
      && forall i | LastSetter(head, i) :: r.Has(AttributeName(head[i])) && r.Get(AttributeName(head[i])) == AttributeValue(head[i])
  {
    var r0 := StartRecord(c);
    AbsorbKeepsValue(r0, head, "Hash");
    AbsorbHas(r0, head, "Title");
    NoBodyWithoutText(r0, head);
    forall l | l in head && MatchLine(l) == Attribute ensures Absorb(r0, head).Has(AttributeName(l)) {
      AbsorbHas(r0, head, AttributeName(l));
    }
    forall i | LastSetter(head, i)
      ensures Absorb(r0, head).Has(AttributeName(head[i]))
      ensures Absorb(r0, head).Get(AttributeName(head[i])) == AttributeValue(head[i])
    {
      assert head[i] in head;
      AttributeSticks(r0, head, i);
    }
  }

  /**
   A commit as git prints it: the commit line, then attribute and blank
   lines, then the title line and the message lines. Its record holds the
   hash, the title, and the body joined from the pieces; every attribute
   before the title is there too.
   */
  lemma CommitBlockRecord(c: string, head: seq<string>, t: string, body: seq<string>)
    requires MatchLine(c) == CommitStart && MatchLine(t) == TextLine && MessageLines(body)
    requires forall l | l in head :: MatchLine(l) == Attribute || MatchLine(l) == BlankLine
    requires forall l | l in head :: !SetsProperty(l, "Hash") && !SetsProperty(l, "Title") && !SetsProperty(l, "Body")
    requires BodyPieces(body) == [] || BodyPieces(body)[0] != "0"
    ensures var r := BlockRecord([c] + head + [t] + body);
      && r.Has("Hash") && r.Get("Hash") == HashOf(c)
      && r.Has("Title") && r.Get("Title") == TextOf(t)
      && (r.Has("Body") <==> BodyPieces(body) != [])
      && (BodyPieces(body) != [] ==> r.Get("Body") == Join(EOL, BodyPieces(body)))
      && (forall l | l in head && MatchLine(l) == Attribute :: r.Has(AttributeName(l)))
      && forall i | LastSetter(head, i) :: r.Has(AttributeName(head[i])) && r.Get(AttributeName(head[i])) == AttributeValue(head[i])
    ensures BlockRecord([c] + head + [t] + body).names
         == ["Hash"] + NewNames(["Hash"], head) + ["Title"] + (if BodyPieces(body) != [] then ["Body"] else [])
  {
    BlockLines(c, head, t, body);
    BlockParts(c, head, t, body);
    BlockNames(c, head, t, body);
  }

  /**
   The order of the properties of a commit's object: the hash, the
   attributes in the order of their first lines, the title, then the body
   if there is one.
   */
  lemma BlockNames(c: string, head: seq<string>, t: string, body: seq<string>)
    requires MatchLine(t) == TextLine && MessageLines(body)
    requires forall l | l in head :: MatchLine(l) == Attribute || MatchLine(l) == BlankLine
    requires forall l | l in head :: !SetsProperty(l, "Hash") && !SetsProperty(l, "Title") && !SetsProperty(l, "Body")
    requires BodyPieces(body) == [] || BodyPieces(body)[0] != "0"
    ensures Absorb(WithText(Absorb(StartRecord(c), head), t), body).names
         == ["Hash"] + NewNames(["Hash"], head) + ["Title"] + (if BodyPieces(body) != [] then ["Body"] else [])
  {
    var r1 := Absorb(StartRecord(c), head);
    HeaderNames(StartRecord(c), head);
    HeaderRecord(c, head);
    var r2 := WithText(r1, t);
    assert r2.Valid() && r2.names == ["Hash"] + NewNames(["Hash"], head) + ["Title"];
    assert r2.Has("Title") && !r2.Has("Body");
    MessageNames(r2, body);
    TitleAndBody(r1, t, body);
  }

  /**
   Message lines after the title add the body to the end of a well-formed
   table, once, when they create it, and change no other name.
   */
  lemma {:induction false} MessageNames(r: Record, ls: seq<string>)
    requires r.Valid() && r.Has("Title") && !r.Has("Body") && MessageLines(ls)
    ensures Absorb(r, ls).Valid()
    ensures Absorb(r, ls).names == r.names + (if Absorb(r, ls).Has("Body") then ["Body"] else [])
  {
    if ls != [] {
      var init := ls[..|ls| - 1];
      var l := ls[|ls| - 1];
      assert MatchLine(l) == TextLine || MatchLine(l) == BlankLine by {
        assert l in ls;
      }
      assert MessageLines(init) by {
        forall x | x in init ensures MatchLine(x) == TextLine || MatchLine(x) == BlankLine {
          assert x in ls;
        }
      }
      MessageNames(r, init);
      AbsorbHas(r, init, "Title");
      MessageNameStep(r, Absorb(r, init), l);
    }
  }

  /** One message line on a titled table built from `r`. */
  lemma MessageNameStep(r: Record, a: Record, l: string)
    requires a.Valid() && a.Has("Title")
    requires a.names == r.names + (if a.Has("Body") then ["Body"] else [])
    requires MatchLine(l) == TextLine || MatchLine(l) == BlankLine
    ensures Apply(a, l).Valid()
    ensures Apply(a, l).names == r.names + (if Apply(a, l).Has("Body") then ["Body"] else [])
  {
  }

  /** The same facts about the record built part by part: header, title line, message. */
  lemma BlockParts(c: string, head: seq<string>, t: string, body: seq<string>)
    requires MessageLines(body)
    requires forall l | l in head :: MatchLine(l) == Attribute || MatchLine(l) == BlankLine
    requires forall l | l in head :: !SetsProperty(l, "Hash") && !SetsProperty(l, "Title") && !SetsProperty(l, "Body")
    requires BodyPieces(body) == [] || BodyPieces(body)[0] != "0"
    ensures var r := Absorb(WithText(Absorb(StartRecord(c), head), t), body);
      && r.Has("Hash") && r.Get("Hash") == HashOf(c)
      && r.Has("Title") && r.Get("Title") == TextOf(t)
      && (r.Has("Body") <==> BodyPieces(body) != [])
      && (BodyPieces(body) != [] ==> r.Get("Body") == Join(EOL, BodyPieces(body)))
      && (forall l | l in head && MatchLine(l) == Attribute :: r.Has(AttributeName(l)))
      && forall i | LastSetter(head, i) :: r.Has(AttributeName(head[i])) && r.Get(AttributeName(head[i])) == AttributeValue(head[i])
  {
    var r1 := Absorb(StartRecord(c), head);
    var r := Absorb(WithText(r1, t), body);
    HeaderRecord(c, head);
    TitleAndBody(r1, t, body);
    SameExceptGet(r1, r, {"Title", "Body"}, "Hash");
    HeaderCarried(head, r1, r);
  }

  /** Setting the title and the body keeps the properties the attribute lines set. */
  lemma HeaderCarried(head: seq<string>, a: Record, b: Record)
    requires SameExcept(a, b, {"Title", "Body"})
    requires forall l | l in head :: !SetsProperty(l, "Title") && !SetsProperty(l, "Body")
    requires forall l | l in head && MatchLine(l) == Attribute :: a.Has(AttributeName(l))
    requires forall i | LastSetter(head, i) :: a.Has(AttributeName(head[i])) && a.Get(AttributeName(head[i])) == AttributeValue(head[i])
    ensures forall l | l in head && MatchLine(l) == Attribute :: b.Has(AttributeName(l))
    ensures forall i | LastSetter(head, i) :: b.Has(AttributeName(head[i])) && b.Get(AttributeName(head[i])) == AttributeValue(head[i])
  {
    forall l | l in head && MatchLine(l) == Attribute ensures b.Has(AttributeName(l)) {
      SameExceptGet(a, b, {"Title", "Body"}, AttributeName(l));
    }
    forall i | LastSetter(head, i)
      ensures b.Has(AttributeName(head[i])) && b.Get(AttributeName(head[i])) == AttributeValue(head[i])
    {
      assert head[i] in head;
      ValueCarried(a, b, AttributeName(head[i]), AttributeValue(head[i]));
    }
  }

  /** A property other than the title and the body keeps its value. */
  lemma ValueCarried(a: Record, b: Record, k: string, v: string)
    requires SameExcept(a, b, {"Title", "Body"}) && k != "Title" && k != "Body"
    requires a.Has(k) && a.Get(k) == v
    ensures b.Has(k) && b.Get(k) == v
  {
    SameExceptGet(a, b, {"Title", "Body"}, k);
  }

  /**
   The title line and the message lines after it set the title and the body
   of a commit that has neither, and change nothing else.
   */
  lemma TitleAndBody(r: Record, t: string, body: seq<string>)
    requires !r.Has("Title") && !r.Has("Body")
    requires MessageLines(body)
    requires BodyPieces(body) == [] || BodyPieces(body)[0] != "0"
    ensures var r' := Absorb(WithText(r, t), body);
      && r'.Has("Title") && r'.Get("Title") == TextOf(t)
      && (r'.Has("Body") <==> BodyPieces(body) != [])
      && (BodyPieces(body) != [] ==> r'.Get("Body") == Join(EOL, BodyPieces(body)))
      && SameExcept(r, r', {"Title", "Body"})
  {
    var r2 := WithText(r, t);
    FirstText(r, t);
    BodyJoinsPieces(r2, body);
    SameExceptCompose(r, r2, Absorb(r2, body));
  }

  lemma SameExceptCompose(a: Record, b: Record, c: Record)
    requires SameExcept(a, b, {"Title"}) && SameExcept(b, c, {"Body"})
    ensures SameExcept(a, c, {"Title", "Body"})
  {
  }

  lemma SameExceptGet(a: Record, b: Record, ks: set<string>, k: string)
    requires SameExcept(a, b, ks) && k !in ks && a.Has(k)
    ensures b.Has(k) && b.Get(k) == a.Get(k)
  {
  }

  /** The first text line of a commit sets its title and changes nothing else. */
  lemma FirstText(r: Record, t: string)
    requires !r.Has("Title") && !r.Has("Body")
    ensures WithText(r, t) == r.Set("Title", TextOf(t))
    ensures WithText(r, t).Has("Title") && WithText(r, t).Get("Title") == TextOf(t) && !WithText(r, t).Has("Body")
    ensures SameExcept(r, WithText(r, t), {"Title"})
  {
  }

  /** The lines of a commit as git prints it, handled in turn. */
  lemma BlockLines(c: string, head: seq<string>, t: string, body: seq<string>)
    requires MatchLine(t) == TextLine
    ensures BlockRecord([c] + head + [t] + body) == Absorb(WithText(Absorb(StartRecord(c), head), t), body)
  {
    var b := [c] + head + [t] + body;
    assert b[0] == c && b[1..] == head + [t] + body;
    var r0 := StartRecord(c);
    AbsorbAppend(r0, head + [t], body);
    assert (head + [t])[..|head|] == head;
  }
}
