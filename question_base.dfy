/**
 * src/classes/questions/question.py: the question classifier
 * (`Question.from_element`) and the submit step every variant ends with
 * (`submit_and_check_correct_answer`).
 */
module QuestionBase {
  import opened Wrappers
  import Lists
  import Text
  import Page

  /** The eight question classes the classifier can return. */
  datatype Variant =
    | MultiChoiceText
    | ScrambledLetters
    | ScrambledSentences
    | MatchText
    | FillGapsText
    | FillGapsBlock
    | ShortText
    | MultiChoiceImage

  /**
   * What the classifier decides: the class to build and, for the
   * multiple-choice text class, whether several options may be selected.
   */
  datatype Tag = Tag(variant: Variant, multiple: bool)

  const TypeMultipleChoice := "Question_type_multiple-choice"
  const TypeTrueOrFalse := "Question_type_true-or-false"
  const TypeScrambledLetters := "Question_type_scrambled-letters"
  const TypeScrambledSentence := "Question_type_scrambled-sentence"
  const TypeMatchText := "Question_type_match-text"
  const TypeFillGaps := "Question_type_fill-in-the-gaps"
  const TypeShortAnswer := "Question_type_short-answer"
  const OutputBlocks := "Question_output_text-blocks"
  const OutputText := "Question_output_text"
  const OutputPicture := "Question_output_picture"
  const OutputTextMultiple := "Question_output_text-multiple"

  /** `has_all_classes`: every required class is one of the element's tokens. */
  predicate HasAllClasses(curr: seq<string>, classes: seq<string>)
  {
    forall c :: c in classes ==> c in curr
  }

  /** The predicate is the source's `all(_m(lambda c: c in curr_classes, classes))`. */
  lemma HasAllClassesMeans(curr: seq<string>, classes: seq<string>)
    ensures HasAllClasses(curr, classes) <==> Lists.All(Lists.Map((c: string) => c in curr, classes))
  {
    var flags := Lists.Map((c: string) => c in curr, classes);
    if HasAllClasses(curr, classes) {
      forall i | 0 <= i < |flags| ensures flags[i] {
        assert classes[i] in classes;
      }
    } else {
      var c :| c in classes && c !in curr;
      var i :| 0 <= i < |classes| && classes[i] == c;
      assert !flags[i];
    }
  }

  /** `from_element`: the ordered chain of class tests, as the source writes it. */
  function Classify(curr: seq<string>): Option<Tag>
  {
    if HasAllClasses(curr, [TypeMultipleChoice, OutputText])
      || HasAllClasses(curr, [TypeMultipleChoice, OutputTextMultiple])
      || HasAllClasses(curr, [TypeTrueOrFalse, OutputText])
    then Some(Tag(MultiChoiceText, OutputTextMultiple in curr))
    else if HasAllClasses(curr, [TypeScrambledLetters, OutputText]) then Some(Tag(ScrambledLetters, false))
    else if HasAllClasses(curr, [TypeScrambledSentence, OutputBlocks]) then Some(Tag(ScrambledSentences, false))
    else if HasAllClasses(curr, [TypeMatchText, OutputBlocks]) then Some(Tag(MatchText, false))
    else if HasAllClasses(curr, [TypeFillGaps, OutputText]) then Some(Tag(FillGapsText, false))
    else if HasAllClasses(curr, [TypeFillGaps, OutputBlocks]) then Some(Tag(FillGapsBlock, false))
    else if HasAllClasses(curr, [TypeShortAnswer, OutputText]) then Some(Tag(ShortText, false))
    else if HasAllClasses(curr, [TypeMultipleChoice, OutputPicture]) then Some(Tag(MultiChoiceImage, false))
    else None
  }

  /** The classifier applied to the element's `class` attribute, split on `" "`. */
  function FromClassAttribute(attr: string): Option<Tag>
  {
    Classify(Text.Split(attr, " "))
  }

  /** One row of the classification table: the class tokens it needs and the class it selects. */
  datatype Rule = Rule(required: seq<string>, variant: Variant)

  /** The classification table, in the order the rules are tried. */
  const Rules: seq<Rule> := [
    Rule([TypeMultipleChoice, OutputText], MultiChoiceText),
    Rule([TypeMultipleChoice, OutputTextMultiple], MultiChoiceText),
    Rule([TypeTrueOrFalse, OutputText], MultiChoiceText),
    Rule([TypeScrambledLetters, OutputText], ScrambledLetters),
    Rule([TypeScrambledSentence, OutputBlocks], ScrambledSentences),
    Rule([TypeMatchText, OutputBlocks], MatchText),
    Rule([TypeFillGaps, OutputText], FillGapsText),
    Rule([TypeFillGaps, OutputBlocks], FillGapsBlock),
    Rule([TypeShortAnswer, OutputText], ShortText),
    Rule([TypeMultipleChoice, OutputPicture], MultiChoiceImage)
  ]

  /** A rule applies when the element has every class token it names. */
  predicate Matches(curr: seq<string>, rule: Rule)
  {
    HasAllClasses(curr, rule.required)
  }

  /** The first rule at index `i` or later that applies. */
  function FirstRuleFrom(curr: seq<string>, i: nat): (r: Option<nat>)
    requires i <= |Rules|
    ensures r.Some? ==>
      && i <= r.value < |Rules| && Matches(curr, Rules[r.value])
      && forall j :: i <= j < r.value ==> !Matches(curr, Rules[j])
    ensures r.None? ==> forall j :: i <= j < |Rules| ==> !Matches(curr, Rules[j])
    decreases |Rules| - i
  {
    if i == |Rules| then None
    else if Matches(curr, Rules[i]) then Some(i)
    else FirstRuleFrom(curr, i + 1)
  }

  /** Classification read off the table: the first rule whose tokens are all present. */
  function TableClassify(curr: seq<string>): Option<Tag>
  {
    match FirstRuleFrom(curr, 0) {
      case None => None
      case Some(k) => Some(Tag(Rules[k].variant, Rules[k].variant == MultiChoiceText && OutputTextMultiple in curr))
    }
  }

  /** A two-token test holds when both tokens are present. */
  lemma HasBoth(curr: seq<string>, a: string, b: string)
    ensures HasAllClasses(curr, [a, b]) <==> a in curr && b in curr
  {
    HasAllClassesMeans(curr, [a, b]);
  }

  /** Every test of the chain, reduced to token membership. */
  lemma AllTests(curr: seq<string>)
    ensures HasAllClasses(curr, [TypeMultipleChoice, OutputText]) <==> TypeMultipleChoice in curr && OutputText in curr
    ensures HasAllClasses(curr, [TypeMultipleChoice, OutputTextMultiple]) <==> TypeMultipleChoice in curr && OutputTextMultiple in curr
    ensures HasAllClasses(curr, [TypeTrueOrFalse, OutputText]) <==> TypeTrueOrFalse in curr && OutputText in curr
    ensures HasAllClasses(curr, [TypeScrambledLetters, OutputText]) <==> TypeScrambledLetters in curr && OutputText in curr
    ensures HasAllClasses(curr, [TypeScrambledSentence, OutputBlocks]) <==> TypeScrambledSentence in curr && OutputBlocks in curr
    ensures HasAllClasses(curr, [TypeMatchText, OutputBlocks]) <==> TypeMatchText in curr && OutputBlocks in curr
    ensures HasAllClasses(curr, [TypeFillGaps, OutputText]) <==> TypeFillGaps in curr && OutputText in curr
    ensures HasAllClasses(curr, [TypeFillGaps, OutputBlocks]) <==> TypeFillGaps in curr && OutputBlocks in curr
    ensures HasAllClasses(curr, [TypeShortAnswer, OutputText]) <==> TypeShortAnswer in curr && OutputText in curr
    ensures HasAllClasses(curr, [TypeMultipleChoice, OutputPicture]) <==> TypeMultipleChoice in curr && OutputPicture in curr
  {
    HasBoth(curr, TypeMultipleChoice, OutputText);
    HasBoth(curr, TypeMultipleChoice, OutputTextMultiple);
    HasBoth(curr, TypeTrueOrFalse, OutputText);
    HasBoth(curr, TypeScrambledLetters, OutputText);
    HasBoth(curr, TypeScrambledSentence, OutputBlocks);
    HasBoth(curr, TypeMatchText, OutputBlocks);
    HasBoth(curr, TypeFillGaps, OutputText);
    HasBoth(curr, TypeFillGaps, OutputBlocks);
    HasBoth(curr, TypeShortAnswer, OutputText);
    HasBoth(curr, TypeMultipleChoice, OutputPicture);
  }

  /** The last five rules of the table, tried in order. */
  lemma TableFromFive(curr: seq<string>)
    ensures FirstRuleFrom(curr, 5) ==
      if HasAllClasses(curr, [TypeMatchText, OutputBlocks]) then Some(5)
      else if HasAllClasses(curr, [TypeFillGaps, OutputText]) then Some(6)
      else if HasAllClasses(curr, [TypeFillGaps, OutputBlocks]) then Some(7)
      else if HasAllClasses(curr, [TypeShortAnswer, OutputText]) then Some(8)
      else if HasAllClasses(curr, [TypeMultipleChoice, OutputPicture]) then Some(9)
      else None
  {
    assert FirstRuleFrom(curr, 10) == None;
    assert FirstRuleFrom(curr, 9) == if Matches(curr, Rules[9]) then Some(9) else None;
    assert FirstRuleFrom(curr, 8) == if Matches(curr, Rules[8]) then Some(8) else FirstRuleFrom(curr, 9);
    assert FirstRuleFrom(curr, 7) == if Matches(curr, Rules[7]) then Some(7) else FirstRuleFrom(curr, 8);
    assert FirstRuleFrom(curr, 6) == if Matches(curr, Rules[6]) then Some(6) else FirstRuleFrom(curr, 7);
  }

  /** The first five rules of the table, tried in order before the rest. */
  lemma TableFromZero(curr: seq<string>)
    ensures FirstRuleFrom(curr, 0) ==
      if HasAllClasses(curr, [TypeMultipleChoice, OutputText]) then Some(0)
      else if HasAllClasses(curr, [TypeMultipleChoice, OutputTextMultiple]) then Some(1)
      else if HasAllClasses(curr, [TypeTrueOrFalse, OutputText]) then Some(2)
      else if HasAllClasses(curr, [TypeScrambledLetters, OutputText]) then Some(3)
      else if HasAllClasses(curr, [TypeScrambledSentence, OutputBlocks]) then Some(4)
      else FirstRuleFrom(curr, 5)
  {
    assert FirstRuleFrom(curr, 4) == if Matches(curr, Rules[4]) then Some(4) else FirstRuleFrom(curr, 5);
    assert FirstRuleFrom(curr, 3) == if Matches(curr, Rules[3]) then Some(3) else FirstRuleFrom(curr, 4);
    assert FirstRuleFrom(curr, 2) == if Matches(curr, Rules[2]) then Some(2) else FirstRuleFrom(curr, 3);
    assert FirstRuleFrom(curr, 1) == if Matches(curr, Rules[1]) then Some(1) else FirstRuleFrom(curr, 2);
  }

  /** The chain of tests in the source is exactly the first-match reading of the table. */
  lemma ClassifyIsTable(curr: seq<string>)
    ensures Classify(curr) == TableClassify(curr)
  {
    TableFromFive(curr);
    TableFromZero(curr);
  }

  /**
   * The first matching rule wins, and a class list matching no rule is
   * unclassified: never a variant whose tokens are missing.
   */
  lemma ClassifyFirstMatch(curr: seq<string>)
    ensures Classify(curr).None? <==> forall k :: 0 <= k < |Rules| ==> !Matches(curr, Rules[k])
    ensures Classify(curr).Some? ==> exists k ::
      && 0 <= k < |Rules| && Matches(curr, Rules[k]) && Rules[k].variant == Classify(curr).value.variant
      && forall j :: 0 <= j < k ==> !Matches(curr, Rules[j])
  {
    ClassifyIsTable(curr);
    var f := FirstRuleFrom(curr, 0);
    if f.Some? {
      assert !Matches(curr, Rules[f.value]) ==> false;
    }
  }

  /**
   * Multiple choice with text or text-multiple output, and true-or-false with
   * text output, give the multiple-choice text class; its multiple flag is set
   * exactly when the text-multiple token is present.
   */
  lemma ClassifyMultiChoiceText(curr: seq<string>)
    ensures (Classify(curr).Some? && Classify(curr).value.variant == MultiChoiceText)
      <==> ((TypeMultipleChoice in curr && (OutputText in curr || OutputTextMultiple in curr))
            || (TypeTrueOrFalse in curr && OutputText in curr))
    ensures Classify(curr).Some? && Classify(curr).value.variant == MultiChoiceText
      ==> Classify(curr).value.multiple == (OutputTextMultiple in curr)
    ensures Classify(curr).Some? && Classify(curr).value.variant != MultiChoiceText
      ==> !Classify(curr).value.multiple
  {
    AllTests(curr);
  }

  /** The row of multiple choice with text output, on its own. */
  lemma ClassifyRowMultipleChoiceText()
    ensures Classify([TypeMultipleChoice, OutputText]) == Some(Tag(MultiChoiceText, false))
  {
    AllTests([TypeMultipleChoice, OutputText]);
  }

  /** The row of multiple choice with text-multiple output, several options allowed, on its own. */
  lemma ClassifyRowMultipleChoiceTextMultiple()
    ensures Classify([TypeMultipleChoice, OutputTextMultiple]) == Some(Tag(MultiChoiceText, true))
  {
    AllTests([TypeMultipleChoice, OutputTextMultiple]);
  }

  /** The row of true-or-false with text output, on its own. */
  lemma ClassifyRowTrueOrFalse()
    ensures Classify([TypeTrueOrFalse, OutputText]) == Some(Tag(MultiChoiceText, false))
  {
    AllTests([TypeTrueOrFalse, OutputText]);
  }

  /** The row of scrambled letters with text output, on its own. */
  lemma ClassifyRowScrambledLetters()
    ensures Classify([TypeScrambledLetters, OutputText]) == Some(Tag(ScrambledLetters, false))
  {
    AllTests([TypeScrambledLetters, OutputText]);
  }

  /** The row of scrambled sentence with text-blocks output, on its own. */
  lemma ClassifyRowScrambledSentence()
    ensures Classify([TypeScrambledSentence, OutputBlocks]) == Some(Tag(ScrambledSentences, false))
  {
    AllTests([TypeScrambledSentence, OutputBlocks]);
  }

  /** The row of match text with text-blocks output, on its own. */
  lemma ClassifyRowMatchText()
    ensures Classify([TypeMatchText, OutputBlocks]) == Some(Tag(MatchText, false))
  {
    AllTests([TypeMatchText, OutputBlocks]);
  }

  /** The row of fill-in-the-gaps with text output, on its own. */
  lemma ClassifyRowFillGapsText()
    ensures Classify([TypeFillGaps, OutputText]) == Some(Tag(FillGapsText, false))
  {
    AllTests([TypeFillGaps, OutputText]);
  }

  /** The row of fill-in-the-gaps with text-blocks output, on its own. */
  lemma ClassifyRowFillGapsBlock()
    ensures Classify([TypeFillGaps, OutputBlocks]) == Some(Tag(FillGapsBlock, false))
  {
    AllTests([TypeFillGaps, OutputBlocks]);
  }

  /** The row of short answer with text output, on its own. */
  lemma ClassifyRowShortAnswer()
    ensures Classify([TypeShortAnswer, OutputText]) == Some(Tag(ShortText, false))
  {
    AllTests([TypeShortAnswer, OutputText]);
  }

  /** The row of multiple choice with picture output, on its own. */
  lemma ClassifyRowMultipleChoiceImage()
    ensures Classify([TypeMultipleChoice, OutputPicture]) == Some(Tag(MultiChoiceImage, false))
  {
    AllTests([TypeMultipleChoice, OutputPicture]);
  }

  /**
   * Tokens are compared whole: `Question_output_text-multiple` does not
   * stand in for `Question_output_text`, so scrambled letters with
   * text-multiple output is unclassified; and multiple choice with both text
   * and picture outputs is read as text, the earlier rule.
   */
  lemma ClassifyExactTokens()
    ensures Classify([TypeScrambledLetters, OutputTextMultiple]) == None
    ensures Classify([TypeMultipleChoice, OutputText, OutputPicture]) == Some(Tag(MultiChoiceText, false))
  {
    assert Classify([TypeScrambledLetters, OutputTextMultiple]) == None by {
      AllTests([TypeScrambledLetters, OutputTextMultiple]);
    }
    assert Classify([TypeMultipleChoice, OutputText, OutputPicture]) == Some(Tag(MultiChoiceText, false)) by {
      AllTests([TypeMultipleChoice, OutputText, OutputPicture]);
    }
  }

  /**
   * `correct_answer or values`: the revealed answer when there is a non-empty
   * one, otherwise the values that were submitted; so the caller is left with
   * something to keep unless it submitted nothing.
   */
  function SubmitRule(truth: Option<seq<string>>, values: seq<string>): (r: seq<string>)
    ensures r == values || (truth.Some? && r == truth.value)
    ensures r == [] ==> values == []
  {
    if truth.Some? && truth.value != [] then truth.value else values
  }

  /** An absent and an empty revealed answer both fall back to the submitted values. */
  lemma SubmitRuleFallsBack(values: seq<string>)
    ensures SubmitRule(None, values) == values && SubmitRule(Some([]), values) == values
  {
  }

  /** A non-empty revealed answer wins, whatever was submitted. */
  lemma SubmitRuleTrusts(truth: seq<string>, values: seq<string>)
    requires truth != []
    ensures SubmitRule(Some(truth), values) == truth
  {
  }

  /**
   * `submit_and_check_correct_answer`: click the submit control once, then
   * apply `SubmitRule` to the revealed answer. A mismatch is only logged, so
   * nothing else happens: no retry, no other change to the page.
   */
  method SubmitAndCheck(page: Page.Element, truth: Option<seq<string>>, values: seq<string>) returns (r: seq<string>)
    modifies page
    ensures page.State() == old(page.State()) && page.submits == old(page.submits) + 1
    ensures r == SubmitRule(truth, values)
  {
    page.ClickSubmit();
    r := SubmitRule(truth, values);
  }

  /**
   * `get_correct_answer` of the questions read from the green correction
   * text (fill-in-the-gaps text and short answer): the text as a one-element
   * list, or `None` when there is no green text.
   */
  function GreenAnswer(green: string): (r: Option<seq<string>>)
    ensures r.Some? <==> green != ""
    ensures r.Some? ==> r.value == [green]
  {
    if green != "" then Some([green]) else None
  }

  /** What a green-text question returns: `[green]` when the site shows one, else the values. */
  lemma SubmitGreen(green: string, values: seq<string>)
    ensures SubmitRule(GreenAnswer(green), values) == if green != "" then [green] else values
  {
  }
}
