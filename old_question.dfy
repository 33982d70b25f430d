/**
 * The older question classes (`src/classes/question.py`): a two-variant
 * classifier, a single-choice text question and a scrambled-letters
 * question whose token loop stops early once no letter is left.
 */
module OldQuestion {
  import opened Wrappers
  import Lists
  import Text
  import Page
  import QuestionBase
  import MultiChoiceText
  import ScrambledLetters

  /** The two classes the older classifier knows. */
  datatype OldVariant = OldMultiChoiceText | OldScrambledLetters

  /** `from_element`: multiple choice with text output, then scrambled letters with text output. */
  function Classify(curr: seq<string>): (r: Option<OldVariant>)
    ensures r == Some(OldMultiChoiceText) <==>
      QuestionBase.TypeMultipleChoice in curr && QuestionBase.OutputText in curr
    ensures r == Some(OldScrambledLetters) <==>
      && !(QuestionBase.TypeMultipleChoice in curr && QuestionBase.OutputText in curr)
      && QuestionBase.TypeScrambledLetters in curr && QuestionBase.OutputText in curr
  {
    if QuestionBase.HasAllClasses(curr, [QuestionBase.TypeMultipleChoice, QuestionBase.OutputText]) then Some(OldMultiChoiceText)
    else if QuestionBase.HasAllClasses(curr, [QuestionBase.TypeScrambledLetters, QuestionBase.OutputText]) then Some(OldScrambledLetters)
    else None
  }

  /**
   * The newer classifier extends the older one: what the older one calls a
   * multiple-choice text question the newer one does too, and it agrees on
   * scrambled letters unless another multiple-choice rule of the newer
   * table applies first.
   */
  lemma NewClassifierExtendsOld(curr: seq<string>)
    ensures Classify(curr) == Some(OldMultiChoiceText) ==>
      QuestionBase.Classify(curr) == Some(QuestionBase.Tag(QuestionBase.MultiChoiceText, QuestionBase.OutputTextMultiple in curr))
    ensures (Classify(curr) == Some(OldScrambledLetters)
      && QuestionBase.TypeMultipleChoice !in curr && QuestionBase.TypeTrueOrFalse !in curr) ==>
      QuestionBase.Classify(curr) == Some(QuestionBase.Tag(QuestionBase.ScrambledLetters, false))
  {
    QuestionBase.AllTests(curr);
  }

  /** The older `get_correct_answer` of the multiple-choice class: the marked option's text. */
  function CorrectText(bs: seq<Page.Button>): (r: Option<string>)
    ensures r.None? <==> forall k :: 0 <= k < |bs| ==> !bs[k].correct
  {
    match Page.FirstCorrect(bs) {
      case None => None
      case Some(k) => Some(bs[k].text)
    }
  }

  /** The older class reads the same option as the newer one, as a string instead of a list. */
  lemma CorrectTextAgrees(bs: seq<Page.Button>)
    ensures CorrectText(bs).None? <==> MultiChoiceText.CorrectAnswer(bs).None?
    ensures CorrectText(bs).Some? ==> MultiChoiceText.CorrectAnswer(bs) == Some([CorrectText(bs).value])
  {
  }

  /** `correct_answer or value`: a non-empty revealed text, else the token itself. */
  function SubmitText(truth: Option<string>, value: string): (r: string)
    ensures r == value || (truth.Some? && r == truth.value)
    ensures r == "" ==> value == ""
    ensures truth.Some? && truth.value != "" ==> r == truth.value
  {
    if truth.Some? && truth.value != "" then truth.value else value
  }

  /**
   * The older multiple-choice click: `values[0]` (an empty list fails),
   * clicked on the first option containing it, else on the first option;
   * with no option at all the fallback's `find_element` fails.
   */
  function ChooseOption(d: Page.Dom, values: seq<string>): (r: Result<Page.Dom, Page.Error>)
    ensures r == Err(Page.IndexOutOfRange) <==> values == []
    ensures r == Err(Page.NotFound) <==> values != [] && d.buttons == []
    ensures r.Ok? ==> |r.value.clicks| == |d.clicks| + 1 && r.value.clicks[..|d.clicks|] == d.clicks
  {
    if values == [] then Err(Page.IndexOutOfRange)
    else match Page.FirstContaining(d.buttons, values[0]) {
      case Some(i) => assert (d.clicks + [i])[..|d.clicks|] == d.clicks; Ok(Page.ClickAt(d, i))
      case None =>
        if d.buttons == [] then Err(Page.NotFound)
        else assert (d.clicks + [0])[..|d.clicks|] == d.clicks; Ok(Page.ClickAt(d, 0))
    }
  }

  /**
   * The older click is the newer class's single-select click on the first
   * token: the first option containing it, else the first option.
   */
  lemma ChooseOptionIsPick(d: Page.Dom, values: seq<string>)
    requires values != [] && d.buttons != []
    ensures ChooseOption(d, values) == Ok(Page.ClickAt(d, MultiChoiceText.Pick(d.buttons, values[0])))
  {
  }

  /** The older multiple-choice `answer`: click, submit, and return the text rule's result. */
  method MultiChoiceAnswer(page: Page.Element, values: seq<string>) returns (r: Result<string, Page.Error>)
    modifies page
    ensures var chosen := ChooseOption(old(page.State()), values);
      && (r.Err? <==> chosen.Err?)
      && (r.Err? ==> r.error == chosen.error && page.State() == old(page.State()) && page.submits == old(page.submits))
      && (r.Ok? ==>
        && page.State() == chosen.value
        && page.submits == old(page.submits) + 1
        && r.value == SubmitText(CorrectText(page.buttons), values[0]))
  {
    if |values| == 0 {
      return Err(Page.IndexOutOfRange);
    }
    var value := values[0];
    var found := Page.FirstContaining(page.buttons, value);
    if found.Some? {
      page.Click(found.value);
    } else {
      if |page.buttons| == 0 {
        return Err(Page.NotFound);
      }
      page.Click(0);
    }
    page.ClickSubmit();
    r := Ok(SubmitText(CorrectText(page.buttons), value));
  }

  /** The older letters' token list: a first token longer than one character becomes its characters. */
  function Prepare(values: seq<string>): (r: Result<seq<string>, Page.Error>)
    ensures r.Err? <==> values == []
    ensures r.Err? ==> r.error == Page.IndexOutOfRange
    ensures r.Ok? && |values[0]| > 1 ==> Text.Join(r.value, "") == values[0] && |r.value| == |values[0]|
    ensures r.Ok? && |values[0]| <= 1 ==> r.value == values
  {
    if values == [] then Err(Page.IndexOutOfRange)
    else if |values[0]| > 1 then Text.JoinChars(values[0]); Ok(Text.Chars(values[0]))
    else Ok(values)
  }

  /**
   * The older letters loop: each token clicks the first unselected letter
   * containing it upper-cased, else the first unselected letter; when no
   * letter is left at all the loop stops.
   */
  function LetterLoop(d: Page.Dom, tokens: seq<string>): (r: Page.Dom)
    decreases |tokens|
  {
    if tokens == [] then d
    else match Page.FirstUnselectedContaining(d.buttons, Text.Upper(tokens[0])) {
      case Some(i) => LetterLoop(Page.ClickAt(d, i), tokens[1..])
      case None =>
        match Page.FirstUnselected(d.buttons) {
          case Some(i) => LetterLoop(Page.ClickAt(d, i), tokens[1..])
          case None => d
        }
    }
  }

  /**
   * The letter one pass of the older loop clicks: the first unselected one
   * containing the upper-cased token, else the first unselected one; none
   * only when every letter is selected.
   */
  function LetterPick(bs: seq<Page.Button>, token: string): (r: Option<nat>)
    ensures r.Some? ==> r.value < |bs| && !bs[r.value].selected
    ensures r.None? <==> forall k :: 0 <= k < |bs| ==> bs[k].selected
  {
    match Page.FirstUnselectedContaining(bs, Text.Upper(token)) {
      case Some(i) => Some(i)
      case None => Page.FirstUnselected(bs)
    }
  }

  /** The older loop at token `i`: click the letter it picks and go on, or stop. */
  lemma LetterLoopFrom(d: Page.Dom, tokens: seq<string>, i: nat)
    requires i < |tokens|
    ensures LetterLoop(d, tokens[i..]) ==
      match LetterPick(d.buttons, tokens[i]) {
        case None => d
        case Some(j) => LetterLoop(Page.ClickAt(d, j), tokens[i + 1..])
      }
  {
    assert tokens[i..][0] == tokens[i] && tokens[i..][1..] == tokens[i + 1..];
  }

  /** With no letter left, the newer pool loop changes nothing either. */
  lemma {:induction false} ExhaustedPool(d: Page.Dom, tokens: seq<string>)
    requires Page.FirstUnselected(d.buttons).None?
    ensures Page.ApplyTokens(d, tokens, Page.UnselectedContaining) == d
    decreases |tokens|
  {
    if tokens != [] {
      var found := Page.Locate(Page.UnselectedContaining, d.buttons, tokens[0]);
      if found.Some? {
        Page.LocateFresh(Page.UnselectedContaining, d.buttons, tokens[0]);
      }
      ExhaustedPool(d, tokens[1..]);
    }
  }

  /**
   * Breaking out early loses nothing: the older loop ends on the same page
   * as the newer pool loop run to the end on the upper-cased tokens.
   */
  lemma {:induction false} LetterLoopIsPool(d: Page.Dom, tokens: seq<string>)
    ensures LetterLoop(d, tokens) == Page.ApplyTokens(d, Lists.Map(Text.Upper, tokens), Page.UnselectedContaining)
    decreases |tokens|
  {
    var upper := Lists.Map(Text.Upper, tokens);
    if tokens != [] {
      assert upper[1..] == Lists.Map(Text.Upper, tokens[1..]);
      var found := Page.FirstUnselectedContaining(d.buttons, Text.Upper(tokens[0]));
      if found.Some? {
        LetterLoopIsPool(Page.ClickAt(d, found.value), tokens[1..]);
      } else if Page.FirstUnselected(d.buttons).Some? {
        LetterLoopIsPool(Page.ClickAt(d, Page.FirstUnselected(d.buttons).value), tokens[1..]);
      } else {
        ExhaustedPool(d, upper);
      }
    }
  }

  /**
   * Each token is tried at most once, so the loop clicks at most one letter
   * per token, and stops clicking only when every letter is selected.
   */
  lemma LetterLoopClicks(d: Page.Dom, tokens: seq<string>)
    ensures var r := LetterLoop(d, tokens);
      && |r.clicks| == |d.clicks| + Page.Min(|tokens|, Page.Unselected(d.buttons))
      && r.clicks[..|d.clicks|] == d.clicks
      && Page.Unselected(r.buttons) == Page.Unselected(d.buttons) - Page.Min(|tokens|, Page.Unselected(d.buttons))
  {
    LetterLoopIsPool(d, tokens);
    Page.ApplyTokensSelects(d, Lists.Map(Text.Upper, tokens), Page.UnselectedContaining);
  }

  /**
   * The older scrambled-letters `answer`: the index loop with `i += 1` before
   * each attempt and a `break` when no letter is left, then the submit
   * click; the result is the correct letters, else the (split) tokens.
   */
  method LettersAnswer(page: Page.Element, values: seq<string>) returns (r: Result<seq<string>, Page.Error>)
    modifies page
    ensures r.Err? <==> values == []
    ensures r.Err? ==> r.error == Page.IndexOutOfRange && page.State() == old(page.State()) && page.submits == old(page.submits)
    ensures r.Ok? ==>
      && page.State() == LetterLoop(old(page.State()), Prepare(values).value)
      && page.submits == old(page.submits) + 1
      && r.value == QuestionBase.SubmitRule(ScrambledLetters.CorrectAnswer(page.shown.letters), Prepare(values).value)
  {
    if |values| == 0 {
      return Err(Page.IndexOutOfRange);
    }
    var tokens := values;
    if |tokens[0]| > 1 {
      tokens := Text.Chars(tokens[0]);
    }
    ghost var goal := LetterLoop(page.State(), tokens);
    var i := 0;
    while i < |tokens|
      invariant 0 <= i <= |tokens|
      invariant LetterLoop(page.State(), tokens[i..]) == goal
      invariant page.submits == old(page.submits)
    {
      var value := tokens[i];
      LetterLoopFrom(page.State(), tokens, i);
      i := i + 1;
      var clicked := ClickLetter(page, value);
      if !clicked {
        break;
      }
    }
    page.ClickSubmit();
    r := Ok(QuestionBase.SubmitRule(ScrambledLetters.CorrectAnswer(page.shown.letters), tokens));
  }

  /**
   * One pass of the older letters loop: `false`, with nothing clicked, when
   * no letter is left and the loop breaks.
   */
  method ClickLetter(page: Page.Element, value: string) returns (clicked: bool)
    modifies page
    ensures clicked <==> LetterPick(old(page.buttons), value).Some?
    ensures clicked ==> page.State() == Page.ClickAt(old(page.State()), LetterPick(old(page.buttons), value).value)
    ensures !clicked ==> page.State() == old(page.State())
    ensures page.submits == old(page.submits)
  {
    var found := Page.FirstUnselectedContaining(page.buttons, Text.Upper(value));
    if found.Some? {
      page.Click(found.value);
    } else {
      var any := Page.FirstUnselected(page.buttons);
      if any.None? {
        return false;
      }
      page.Click(any.value);
    }
    return true;
  }
}
