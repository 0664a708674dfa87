/**
 * The quiz admin editor (admin.js): the in-memory question list, the
 * per-field edit handlers, delete by index, and the add-question form.
 */
module Admin {
  import opened Wrappers
  import opened Types
  import opened JsString
  import opened Sequences

  // ---------------------------------------------------------------------------
  // The choices parser
  // ---------------------------------------------------------------------------

  /** A choice as the parser produces it: non-blank, trimmed, without commas. */
  predicate IsParsedChoice(c: string) {
    c != "" && IsTrimmed(c) && ',' !in c
  }

  /** `.map(c => c.trim())` */
  function TrimAll(pieces: seq<string>): (r: seq<string>)
    ensures |r| == |pieces|
    ensures forall k :: 0 <= k < |pieces| ==> r[k] == Trim(pieces[k])
  {
    if pieces == [] then []
    else
      var tail := TrimAll(pieces[1..]);
      assert forall k :: 0 <= k < |tail| ==> tail[k] == Trim(pieces[k + 1]);
      [Trim(pieces[0])] + tail
  }

  /** `.map(c => c.trim()).filter(c => c)` */
  function TrimmedNonBlank(pieces: seq<string>): (r: seq<string>)
    ensures |r| <= |pieces|
    ensures forall k :: 0 <= k < |r| ==> r[k] != "" && IsTrimmed(r[k])
  {
    if pieces == [] then []
    else
      var t := Trim(pieces[0]);
      (if t == "" then [] else [t]) + TrimmedNonBlank(pieces[1..])
  }

  /** Pieces without commas trim to choices without commas. */
  lemma {:induction false} TrimmedNonBlankCommaFree(pieces: seq<string>)
    requires forall k :: 0 <= k < |pieces| ==> ',' !in pieces[k]
    ensures forall k :: 0 <= k < |TrimmedNonBlank(pieces)| ==> ',' !in TrimmedNonBlank(pieces)[k]
    decreases |pieces|
  {
    if pieces != [] {
      TrimAddsNothing(pieces[0], ',');
      TrimmedNonBlankCommaFree(pieces[1..]);
    }
  }

  /** The choices field parser: `raw.split(',').map(c => c.trim()).filter(c => c)` */
  function ParseChoices(raw: string): (choices: seq<string>)
    ensures forall k :: 0 <= k < |choices| ==> IsParsedChoice(choices[k])
  {
    TrimmedNonBlankCommaFree(Split(raw, ','));
    TrimmedNonBlank(Split(raw, ','))
  }

  /** One piece in front: it stays, trimmed, unless it is blank. */
  lemma TrimmedNonBlankCons(p: string, ps: seq<string>)
    ensures TrimmedNonBlank([p] + ps) == (if Trim(p) == "" then [] else [Trim(p)]) + TrimmedNonBlank(ps)
  {
    assert ([p] + ps)[1..] == ps;
  }

  /** The parser keeps the trimmed pieces in their order, dropping only blank ones. */
  lemma {:induction false} TrimmedNonBlankKeepsOrder(pieces: seq<string>)
    ensures IsSubsequence(TrimmedNonBlank(pieces), TrimAll(pieces))
    decreases |pieces|
  {
    if pieces != [] {
      var r := TrimmedNonBlank(pieces);
      var tail := TrimmedNonBlank(pieces[1..]);
      var all := TrimAll(pieces);
      TrimmedNonBlankKeepsOrder(pieces[1..]);
      assert all[1..] == TrimAll(pieces[1..]);
      if Trim(pieces[0]) == "" {
        assert r == tail;
        if tail != [] {
          assert tail[0] != all[0];
        }
      } else {
        assert r[0] == all[0] && r[1..] == tail;
      }
    }
  }

  /** Every non-blank trimmed piece is kept. */
  lemma {:induction false} TrimmedNonBlankKeepsNonBlank(pieces: seq<string>)
    ensures forall k :: 0 <= k < |pieces| && Trim(pieces[k]) != "" ==> Trim(pieces[k]) in TrimmedNonBlank(pieces)
    decreases |pieces|
  {
    if pieces != [] {
      TrimmedNonBlankKeepsNonBlank(pieces[1..]);
      TrimmedNonBlankCons(pieces[0], pieces[1..]);
      assert pieces == [pieces[0]] + pieces[1..];
      forall k | 1 <= k < |pieces| && Trim(pieces[k]) != ""
        ensures Trim(pieces[k]) in TrimmedNonBlank(pieces)
      {
        assert pieces[k] == pieces[1..][k - 1];
      }
    }
  }

  /** The positions of the pieces that do not trim to the empty string. */
  function NonBlankPositions(pieces: seq<string>): set<nat> {
    set k: nat | k < |pieces| && Trim(pieces[k]) != ""
  }

  /** Filtering a concatenation filters each half. */
  lemma {:induction false} TrimmedNonBlankAppend(a: seq<string>, b: seq<string>)
    ensures TrimmedNonBlank(a + b) == TrimmedNonBlank(a) + TrimmedNonBlank(b)
    decreases |a|
  {
    if a == [] {
      assert a + b == b;
    } else {
      var head := if Trim(a[0]) == "" then [] else [Trim(a[0])];
      var restA, restB := TrimmedNonBlank(a[1..]), TrimmedNonBlank(b);
      assert TrimmedNonBlank(a[1..] + b) == restA + restB by {
        TrimmedNonBlankAppend(a[1..], b);
      }
      assert TrimmedNonBlank(a + b) == head + TrimmedNonBlank(a[1..] + b) by {
        AppendFront(a, b);
      }
      assert TrimmedNonBlank(a) == head + restA by {
      }
      AppendAssociative(head, restA, restB);
    }
  }

  /** The filter keeps one piece alone exactly when it is not blank. */
  lemma TrimmedNonBlankSingle(p: string)
    ensures TrimmedNonBlank([p]) == if Trim(p) == "" then [] else [Trim(p)]
  {
    TrimmedNonBlankCons(p, []);
    assert [p] + [] == [p];
  }

  /** The last piece adds one choice when it is not blank, and none otherwise. */
  lemma TrimmedNonBlankLastLength(pieces: seq<string>)
    requires pieces != []
    ensures var n := |pieces| - 1;
            |TrimmedNonBlank(pieces)| == |TrimmedNonBlank(pieces[..n])| + (if Trim(pieces[n]) == "" then 0 else 1)
  {
    var n := |pieces| - 1;
    FrontAndLast(pieces);
    TrimmedNonBlankAppend(pieces[..n], [pieces[n]]);
    TrimmedNonBlankSingle(pieces[n]);
  }

  /** The last piece adds its own position when it is not blank. */
  lemma NonBlankPositionsOfLast(pieces: seq<string>)
    requires pieces != []
    ensures var n := |pieces| - 1;
            NonBlankPositions(pieces) == NonBlankPositions(pieces[..n]) + (if Trim(pieces[n]) == "" then {} else {n})
  {
    var n := |pieces| - 1;
    var prefix := pieces[..n];
    var added: set<nat> := if Trim(pieces[n]) == "" then {} else {n};
    forall k: nat
      ensures k in NonBlankPositions(pieces) <==> k in NonBlankPositions(prefix) + added
    {
      if k < n {
        assert prefix[k] == pieces[k];
      }
    }
    assert NonBlankPositions(pieces) == NonBlankPositions(prefix) + added;
  }

  lemma NonBlankPositionsLastSize(pieces: seq<string>)
    requires pieces != []
    ensures var n := |pieces| - 1;
            |NonBlankPositions(pieces)| == |NonBlankPositions(pieces[..n])| + (if Trim(pieces[n]) == "" then 0 else 1)
  {
    var n := |pieces| - 1;
    NonBlankPositionsOfLast(pieces);
    if Trim(pieces[n]) != "" {
      assert n !in NonBlankPositions(pieces[..n]);
    }
  }

  /** One choice is kept per non-blank piece, so repeated choices all stay. */
  lemma {:induction false} TrimmedNonBlankCount(pieces: seq<string>)
    ensures |TrimmedNonBlank(pieces)| == |NonBlankPositions(pieces)|
    decreases |pieces|
  {
    if pieces != [] {
      TrimmedNonBlankCount(pieces[..|pieces| - 1]);
      TrimmedNonBlankLastLength(pieces);
      NonBlankPositionsLastSize(pieces);
    }
  }

  /** Every non-blank piece between commas is a choice, in the order of the pieces. */
  lemma ParseChoicesKeepsOrder(raw: string)
    ensures IsSubsequence(ParseChoices(raw), TrimAll(Split(raw, ',')))
    ensures forall k :: 0 <= k < |Split(raw, ',')| && Trim(Split(raw, ',')[k]) != "" ==>
                          Trim(Split(raw, ',')[k]) in ParseChoices(raw)
    ensures |ParseChoices(raw)| == |NonBlankPositions(Split(raw, ','))|
  {
    TrimmedNonBlankKeepsOrder(Split(raw, ','));
    TrimmedNonBlankKeepsNonBlank(Split(raw, ','));
    TrimmedNonBlankCount(Split(raw, ','));
  }

  /** Whitespace alone parses to no choice. */
  lemma ParseBlank(lead: string)
    requires AllWhitespace(lead) && ',' !in lead
    ensures TrimmedNonBlank(Split(lead, ',')) == []
  {
    SplitWithoutSeparator(lead, ',');
    TrimAfterWhitespace(lead, "");
    assert lead + "" == lead;
    TrimmedNonBlankCons(lead, []);
    assert [lead] + [] == [lead];
  }

  /** One choice behind whitespace parses to that choice. */
  lemma ParseOneChoice(lead: string, c: string)
    requires AllWhitespace(lead) && ',' !in lead && IsParsedChoice(c)
    ensures TrimmedNonBlank(Split(lead + c, ',')) == [c]
  {
    assert ',' !in lead + c;
    SplitWithoutSeparator(lead + c, ',');
    TrimAfterWhitespace(lead, c);
    TrimmedNonBlankCons(lead + c, []);
    assert [lead + c] + [] == [lead + c];
  }

  lemma JoinStep(lead: string, cs: seq<string>)
    requires |cs| >= 2
    ensures lead + Join(cs, ", ") == (lead + cs[0]) + [','] + (" " + Join(cs[1..], ", "))
  {
    var rest := Join(cs[1..], ", ");
    assert Join(cs, ", ") == cs[0] + ", " + rest;
    Regroup(lead, cs[0], rest);
  }

  lemma Regroup(lead: string, c: string, rest: string)
    ensures lead + (c + ", " + rest) == (lead + c) + [','] + (" " + rest)
  {
    assert ", " == [','] + " ";
  }

  /** A choice behind whitespace, a comma, then text that parses to `more`: the choice comes first. */
  lemma ParseStep(lead: string, c: string, rest: string, more: seq<string>)
    requires AllWhitespace(lead) && ',' !in lead && IsParsedChoice(c)
    requires TrimmedNonBlank(Split(rest, ',')) == more
    ensures TrimmedNonBlank(Split(lead + c + [','] + rest, ',')) == [c] + more
  {
    var first := lead + c;
    assert ',' !in first;
    SplitAtSeparator(first, ',', rest);
    TrimAfterWhitespace(lead, c);
    TrimmedNonBlankCons(first, Split(rest, ','));
  }

  lemma {:induction false} ParseAfterLead(lead: string, cs: seq<string>)
    requires AllWhitespace(lead) && ',' !in lead
    requires forall k :: 0 <= k < |cs| ==> IsParsedChoice(cs[k])
    ensures TrimmedNonBlank(Split(lead + Join(cs, ", "), ',')) == cs
    decreases |cs|
  {
    if |cs| == 0 {
      assert lead + Join(cs, ", ") == lead;
      ParseBlank(lead);
    } else if |cs| == 1 {
      ParseOneChoice(lead, cs[0]);
    } else {
      ParseAfterLead(" ", cs[1..]);
      JoinStep(lead, cs);
      ParseStep(lead, cs[0], " " + Join(cs[1..], ", "), cs[1..]);
      assert [cs[0]] + cs[1..] == cs;
    }
  }

  /**
   * The choices field shows `choices.join(', ')`; parsing that text back
   * gives the same choices whenever they are parser output.
   */
  lemma RenderedChoicesParseBack(cs: seq<string>)
    requires forall k :: 0 <= k < |cs| ==> IsParsedChoice(cs[k])
    ensures ParseChoices(Join(cs, ", ")) == cs
  {
    ParseAfterLead("", cs);
    assert "" + Join(cs, ", ") == Join(cs, ", ");
  }

  lemma SplitExampleTail()
    ensures Split(",c", ',') == ["", "c"]
  {
    assert "" + [','] == ",";
    assert ",c" == "," + "c";
    SplitAtSeparator("", ',', "c");
    SplitWithoutSeparator("c", ',');
  }

  lemma SplitExampleMiddle()
    ensures Split(" b,,c", ',') == [" b", "", "c"]
  {
    assert " b" + [','] == " b,";
    assert " b,,c" == " b," + ",c";
    SplitAtSeparator(" b", ',', ",c");
    SplitExampleTail();
  }

  lemma SplitExample()
    ensures Split("a, b,,c", ',') == ["a", " b", "", "c"]
  {
    assert "a" + [','] == "a,";
    assert "a, b,,c" == "a," + " b,,c";
    SplitAtSeparator("a", ',', " b,,c");
    SplitExampleMiddle();
  }

  lemma TrimmedSingleLetters()
    ensures Trim("a") == "a" && Trim(" b") == "b" && Trim("c") == "c"
  {
    TrimOfTrimmed("a");
    TrimAfterWhitespace(" ", "b");
    assert " " + "b" == " b";
    TrimOfTrimmed("c");
  }

  lemma TrimExampleTail()
    ensures TrimmedNonBlank(["", "c"]) == ["c"]
  {
    TrimmedSingleLetters();
    var p := ["", "c"];
    assert p[1..] == ["c"];
    assert ["c"][1..] == [];
  }

  lemma TrimExample()
    ensures TrimmedNonBlank(["a", " b", "", "c"]) == ["a", "b", "c"]
  {
    TrimmedSingleLetters();
    TrimExampleTail();
    var p := ["a", " b", "", "c"];
    assert p[1..] == [" b", "", "c"];
    assert p[1..][1..] == ["", "c"];
  }

  /** Blank pieces vanish and the blank after each comma is trimmed away. */
  lemma ParseChoicesExample()
    ensures ParseChoices("a, b,,c") == ["a", "b", "c"]
  {
    SplitExample();
    TrimExample();
  }

  // ---------------------------------------------------------------------------
  // Delete and add
  // ---------------------------------------------------------------------------

  /** `data.splice(index, 1)` on an index in range: the later records move down one place. */
  function RemoveAt<T>(data: seq<T>, index: nat): (r: seq<T>)
    requires index < |data|
    ensures |r| == |data| - 1
    ensures forall j :: 0 <= j < index ==> r[j] == data[j]
    ensures forall j :: index <= j < |r| ==> r[j] == data[j + 1]
    ensures multiset(r) == multiset(data) - multiset{data[index]}
  {
    assert data == data[..index] + [data[index]] + data[index + 1..];
    data[..index] + data[index + 1..]
  }

  /** What the add form appends: non-blank trimmed question and answer, at least two parsed choices. */
  predicate IsWellFormedNew(q: QuizQuestion) {
    && q.question != "" && IsTrimmed(q.question)
    && |q.choices| >= 2 && (forall k :: 0 <= k < |q.choices| ==> IsParsedChoice(q.choices[k]))
    && q.answer != "" && IsTrimmed(q.answer)
  }

  /**
   * The add form's check of its three fields: the record to append, or None
   * when the form is refused ("Please enter a question, at least 2 choices,
   * and an answer."). Whether the answer is one of the choices is not checked.
   */
  function NewQuestion(questionField: string, choicesField: string, answerField: string): (r: Option<QuizQuestion>)
    ensures r.Some? <==> Trim(questionField) != "" && |ParseChoices(Trim(choicesField))| >= 2 && Trim(answerField) != ""
    ensures r.Some? ==> IsWellFormedNew(r.value)
    ensures r.Some? ==> r.value.question == Trim(questionField) && r.value.answer == Trim(answerField)
    ensures r.Some? ==> r.value.choices == ParseChoices(Trim(choicesField))
  {
    var question := Trim(questionField);
    var choices := ParseChoices(Trim(choicesField));
    var answer := Trim(answerField);
    if question == "" || |choices| < 2 || answer == "" then None
    else Some(QuizQuestion(question, choices, answer))
  }

  /** A blank question is refused. */
  lemma NewQuestionRefusesBlankQuestion()
    ensures NewQuestion("  ", "a,b", "a").None?
  {
    TrimAfterWhitespace("  ", "");
    assert "  " + "" == "  ";
  }

  /** A single choice is refused. */
  lemma NewQuestionRefusesOneChoice()
    ensures NewQuestion("Q", "a", "a").None?
  {
    TrimOfTrimmed("a");
    SplitWithoutSeparator("a", ',');
  }

  lemma SplitTwoChoices()
    ensures Split("a,c", ',') == ["a", "c"]
  {
    assert "a,c" == "a" + [','] + "c";
    SplitAtSeparator("a", ',', "c");
    SplitWithoutSeparator("c", ',');
  }

  lemma TrimTwoChoices()
    ensures TrimmedNonBlank(["a", "c"]) == ["a", "c"]
  {
    TrimmedSingleLetters();
    var p := ["a", "c"];
    assert p[1..] == ["c"] && ["c"][1..] == [];
  }

  lemma ParseTwoChoices()
    ensures ParseChoices("a,c") == ["a", "c"]
  {
    SplitTwoChoices();
    TrimTwoChoices();
  }

  lemma AddFormFieldsTrimmed()
    ensures Trim(" Q") == "Q" && Trim("a,c") == "a,c" && Trim("b") == "b"
  {
    TrimAfterWhitespace(" ", "Q");
    assert " " + "Q" == " Q";
    TrimOfTrimmed("a,c");
    TrimOfTrimmed("b");
  }

  /** The record appended holds the trimmed fields; the answer need not be a choice. */
  lemma NewQuestionTrimsFields()
    ensures NewQuestion(" Q", "a,c", "b") == Some(QuizQuestion("Q", ["a", "c"], "b"))
  {
    AddFormFieldsTrimmed();
    ParseTwoChoices();
  }

  // ---------------------------------------------------------------------------
  // The editor
  // ---------------------------------------------------------------------------

  /** The admin page's module state: the question list being edited. */
  class QuizEditor {
    var quizData: seq<QuizQuestion>

    constructor()
      ensures quizData == []
    {
      quizData := [];
    }

    /** The records fetched from the quiz store replace the list. */
    method Load(data: seq<QuizQuestion>)
      modifies this
      ensures quizData == data
    {
      quizData := data;
    }

    /** The question field's input handler: the raw text, untrimmed. */
    method EditQuestion(index: nat, value: string)
      requires index < |quizData|
      modifies this
      ensures quizData == old(quizData)[index := old(quizData)[index].(question := value)]
    {
      quizData := quizData[index := quizData[index].(question := value)];
    }

    /** The choices field's input handler: the parsed choices. */
    method EditChoices(index: nat, value: string)
      requires index < |quizData|
      modifies this
      ensures quizData == old(quizData)[index := old(quizData)[index].(choices := ParseChoices(value))]
      ensures forall k :: 0 <= k < |quizData[index].choices| ==> IsParsedChoice(quizData[index].choices[k])
    {
      var choices := ParseChoices(value);
      quizData := quizData[index := quizData[index].(choices := choices)];
    }

    /** The answer field's input handler: the trimmed text. */
    method EditAnswer(index: nat, value: string)
      requires index < |quizData|
      modifies this
      ensures quizData == old(quizData)[index := old(quizData)[index].(answer := Trim(value))]
      ensures IsTrimmed(quizData[index].answer)
    {
      quizData := quizData[index := quizData[index].(answer := Trim(value))];
    }

    /** The delete button: `quizData.splice(index, 1)`, which ignores an index past the end. */
    method Delete(index: nat)
      modifies this
      ensures index < |old(quizData)| ==> quizData == RemoveAt(old(quizData), index)
      ensures index >= |old(quizData)| ==> quizData == old(quizData)
    {
      if index < |quizData| {
        quizData := quizData[..index] + quizData[index + 1..];
      }
    }

    /** The add-question form: appends the checked record, or leaves the list alone. */
    method AddQuestion(questionField: string, choicesField: string, answerField: string) returns (added: bool)
      modifies this
      ensures added == NewQuestion(questionField, choicesField, answerField).Some?
      ensures added ==> quizData == old(quizData) + [NewQuestion(questionField, choicesField, answerField).value]
      ensures !added ==> quizData == old(quizData)
    {
      var question := Trim(questionField);
      var choicesRaw := Trim(choicesField);
      var answer := Trim(answerField);
      var choices := ParseChoices(choicesRaw);
      if question == "" || |choices| < 2 || answer == "" {
        return false;
      }
      quizData := quizData + [QuizQuestion(question, choices, answer)];
      added := true;
    }
  }
}
