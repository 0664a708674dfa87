/** Scoring on the quiz page (quizquestions.js, evaluateQuiz). */
module Quiz {
  import opened Wrappers
  import opened Types

  /**
   * The test evaluateQuiz applies to one question: a choice is selected in
   * the question's radio group and its value equals the answer exactly
   * (case-sensitive).
   */
  function IsCorrect(q: QuizQuestion, selected: Option<string>): (correct: bool)
    ensures correct <==> selected.Some? && selected.value == q.answer
  {
    selected == Some(q.answer)
  }

  /** How many questions are answered correctly, counting from the first. */
  function CountCorrect(quiz: seq<QuizQuestion>, selections: seq<Option<string>>): (n: nat)
    requires |selections| == |quiz|
    ensures n <= |quiz|
  {
    if quiz == [] then 0
    else
      var last := |quiz| - 1;
      CountCorrect(quiz[..last], selections[..last]) + (if IsCorrect(quiz[last], selections[last]) then 1 else 0)
  }

  /** The positions of the correctly answered questions. */
  function CorrectIndices(quiz: seq<QuizQuestion>, selections: seq<Option<string>>): set<nat>
    requires |selections| == |quiz|
  {
    set i: nat | i < |quiz| && IsCorrect(quiz[i], selections[i])
  }

  /**
   * evaluateQuiz: walks the questions in order with one selection per
   * question (None where nothing is checked) and counts the correct ones.
   */
  method EvaluateQuiz(quizData: seq<QuizQuestion>, selections: seq<Option<string>>) returns (score: nat)
    requires |selections| == |quizData|
    ensures score == CountCorrect(quizData, selections)
    ensures score <= |quizData|
  {
    score := 0;
    var index := 0;
    while index < |quizData|
      invariant 0 <= index <= |quizData|
      invariant score == CountCorrect(quizData[..index], selections[..index])
    {
      var selected := selections[index];
      if selected.Some? && selected.value == quizData[index].answer {
        score := score + 1;
      }
      assert quizData[..index + 1][..index] == quizData[..index];
      assert selections[..index + 1][..index] == selections[..index];
      index := index + 1;
    }
    assert quizData[..index] == quizData && selections[..index] == selections;
  }

  /** The score is the number of correctly answered positions. */
  lemma {:induction false} CountIsNumberOfCorrectIndices(quiz: seq<QuizQuestion>, selections: seq<Option<string>>)
    requires |selections| == |quiz|
    ensures CountCorrect(quiz, selections) == |CorrectIndices(quiz, selections)|
  {
    if quiz != [] {
      var last := |quiz| - 1;
      CountIsNumberOfCorrectIndices(quiz[..last], selections[..last]);
      var before := CorrectIndices(quiz[..last], selections[..last]);
      var all := CorrectIndices(quiz, selections);
      if IsCorrect(quiz[last], selections[last]) {
        assert all == before + {last};
      } else {
        assert all == before;
      }
    }
  }

  /** With nothing selected the score is 0. */
  lemma NoSelectionScoresZero(quiz: seq<QuizQuestion>, selections: seq<Option<string>>)
    requires |selections| == |quiz|
    requires forall i :: 0 <= i < |selections| ==> selections[i].None?
    ensures CountCorrect(quiz, selections) == 0
  {
    CountIsNumberOfCorrectIndices(quiz, selections);
    assert CorrectIndices(quiz, selections) == {};
  }

  /** Selecting every answer scores every question. */
  lemma {:induction false} AllCorrectScoresFull(quiz: seq<QuizQuestion>, selections: seq<Option<string>>)
    requires |selections| == |quiz|
    requires forall i :: 0 <= i < |quiz| ==> IsCorrect(quiz[i], selections[i])
    ensures CountCorrect(quiz, selections) == |quiz|
  {
    if quiz != [] {
      var last := |quiz| - 1;
      AllCorrectScoresFull(quiz[..last], selections[..last]);
    }
  }

  /** Changing one wrong selection to the answer raises the score by exactly one. */
  lemma FixingOneSelectionAddsOne(quiz: seq<QuizQuestion>, selections: seq<Option<string>>, i: nat)
    requires |selections| == |quiz| && i < |quiz|
    requires !IsCorrect(quiz[i], selections[i])
    ensures CountCorrect(quiz, selections[i := Some(quiz[i].answer)]) == CountCorrect(quiz, selections) + 1
  {
    var fixed := selections[i := Some(quiz[i].answer)];
    CountIsNumberOfCorrectIndices(quiz, selections);
    CountIsNumberOfCorrectIndices(quiz, fixed);
    assert CorrectIndices(quiz, fixed) == CorrectIndices(quiz, selections) + {i};
  }

  // ---------------------------------------------------------------------------
  // Order independence
  // ---------------------------------------------------------------------------

  /** A question together with the selection made for it. */
  type Answered = (QuizQuestion, Option<string>)

  function Zip(quiz: seq<QuizQuestion>, selections: seq<Option<string>>): (r: seq<Answered>)
    requires |selections| == |quiz|
    ensures |r| == |quiz|
    ensures forall i :: 0 <= i < |quiz| ==> r[i] == (quiz[i], selections[i])
  {
    if quiz == [] then [] else [(quiz[0], selections[0])] + Zip(quiz[1..], selections[1..])
  }

  /** How many answered questions in `xs` are correct. */
  function CountMatching(xs: seq<Answered>): nat {
    if xs == [] then 0
    else CountMatching(xs[..|xs| - 1]) + (if IsCorrect(xs[|xs| - 1].0, xs[|xs| - 1].1) then 1 else 0)
  }

  lemma {:induction false} CountCorrectIsCountMatching(quiz: seq<QuizQuestion>, selections: seq<Option<string>>)
    requires |selections| == |quiz|
    ensures CountCorrect(quiz, selections) == CountMatching(Zip(quiz, selections))
  {
    if quiz != [] {
      var last := |quiz| - 1;
      CountCorrectIsCountMatching(quiz[..last], selections[..last]);
      assert Zip(quiz, selections)[..last] == Zip(quiz[..last], selections[..last]);
    }
  }

  lemma {:induction false} CountMatchingAppend(xs: seq<Answered>, ys: seq<Answered>)
    ensures CountMatching(xs + ys) == CountMatching(xs) + CountMatching(ys)
    decreases |ys|
  {
    if ys == [] {
      assert xs + ys == xs;
    } else {
      var last := |ys| - 1;
      CountMatchingAppend(xs, ys[..last]);
      assert (xs + ys)[..|xs + ys| - 1] == xs + ys[..last];
    }
  }

  /** Taking out the element at `k` takes one copy of it out of the multiset. */
  lemma MultisetWithout<T>(ys: seq<T>, k: nat)
    requires k < |ys|
    ensures multiset(ys[..k] + ys[k + 1..]) == multiset(ys) - multiset{ys[k]}
  {
    assert ys == ys[..k] + [ys[k]] + ys[k + 1..];
  }

  /** The element at `k` contributes to the count independently of the others. */
  lemma CountMatchingWithout(ys: seq<Answered>, k: nat)
    requires k < |ys|
    ensures CountMatching(ys) == CountMatching(ys[..k] + ys[k + 1..]) + CountMatching([ys[k]])
  {
    var before, after := ys[..k], ys[k + 1..];
    assert ys == before + ([ys[k]] + after) by {
      assert ys == ys[..k] + ys[k..];
      assert ys[k..] == [ys[k]] + after;
    }
    CountMatchingAppend(before, [ys[k]] + after);
    CountMatchingAppend([ys[k]], after);
    CountMatchingAppend(before, after);
  }

  /** The count of correct answers depends only on which pairs occur, not on their order. */
  lemma {:induction false} CountMatchingIgnoresOrder(xs: seq<Answered>, ys: seq<Answered>)
    requires multiset(xs) == multiset(ys)
    ensures CountMatching(xs) == CountMatching(ys)
    decreases |xs|
  {
    if xs != [] {
      var n := |xs| - 1;
      var x := xs[n];
      assert x in multiset(ys) by {
        assert x in multiset(xs);
      }
      var k :| 0 <= k < |ys| && ys[k] == x;
      MultisetWithout(xs, n);
      MultisetWithout(ys, k);
      assert xs[..n] + xs[n + 1..] == xs[..n];
      CountMatchingIgnoresOrder(xs[..n], ys[..k] + ys[k + 1..]);
      CountMatchingWithout(xs, n);
      CountMatchingWithout(ys, k);
    } else {
      assert |ys| == |multiset(ys)| == 0;
    }
  }

  /**
   * Reordering the questions together with their selections leaves the
   * score unchanged.
   */
  lemma ScoreIgnoresQuestionOrder(quiz1: seq<QuizQuestion>, selections1: seq<Option<string>>,
                                  quiz2: seq<QuizQuestion>, selections2: seq<Option<string>>)
    requires |selections1| == |quiz1| && |selections2| == |quiz2|
    requires multiset(Zip(quiz1, selections1)) == multiset(Zip(quiz2, selections2))
    ensures CountCorrect(quiz1, selections1) == CountCorrect(quiz2, selections2)
  {
    CountCorrectIsCountMatching(quiz1, selections1);
    CountCorrectIsCountMatching(quiz2, selections2);
    CountMatchingIgnoresOrder(Zip(quiz1, selections1), Zip(quiz2, selections2));
  }

  /** Exchanging two elements of a sequence keeps its multiset. */
  lemma SwapIsPermutation<T>(s: seq<T>, i: nat, j: nat)
    requires i < |s| && j < |s|
    ensures multiset(s[i := s[j]][j := s[i]]) == multiset(s)
  {
    var once := s[i := s[j]];
    assert multiset(once) == multiset(s) - multiset{s[i]} + multiset{s[j]};
    assert once[j] == (if i == j then s[i] else s[j]);
  }

  /** Swapping two questions along with their selections leaves the score unchanged. */
  lemma SwapKeepsScore(quiz: seq<QuizQuestion>, selections: seq<Option<string>>, i: nat, j: nat)
    requires |selections| == |quiz| && i < |quiz| && j < |quiz|
    ensures CountCorrect(quiz[i := quiz[j]][j := quiz[i]], selections[i := selections[j]][j := selections[i]])
            == CountCorrect(quiz, selections)
  {
    var quiz2 := quiz[i := quiz[j]][j := quiz[i]];
    var selections2 := selections[i := selections[j]][j := selections[i]];
    var z := Zip(quiz, selections);
    assert multiset(Zip(quiz2, selections2)) == multiset(z) by {
      assert Zip(quiz2, selections2) == z[i := z[j]][j := z[i]];
      SwapIsPermutation(z, i, j);
    }
    ScoreIgnoresQuestionOrder(quiz2, selections2, quiz, selections);
  }

  /** Three questions, the first and the third answered correctly: score 2 of 3. */
  lemma TwoOfThreeExample()
    ensures
      var quiz := [QuizQuestion("Q1", ["a", "b"], "a"), QuizQuestion("Q2", ["a", "b"], "b"),
                   QuizQuestion("Q3", ["a", "b"], "a")];
      CountCorrect(quiz, [Some("a"), Some("a"), Some("a")]) == 2
  {
    var quiz := [QuizQuestion("Q1", ["a", "b"], "a"), QuizQuestion("Q2", ["a", "b"], "b"),
                 QuizQuestion("Q3", ["a", "b"], "a")];
    var selections := [Some("a"), Some("a"), Some("a")];
    assert quiz[..2][..1][..0] == [];
    assert selections[..2][..1][..0] == [];
  }
}
