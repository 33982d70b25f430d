/**
 * The scrambled-letters question: a pool of letter buttons to click in order
 * (`src/classes/q/scrambled_letters_question.py`).
 */
module ScrambledLetters {
  import opened Wrappers
  import Lists
  import Text
  import Page
  import QuestionBase

  /** `get_correct_answer`: the characters of the correct-answer block, if the page shows one. */
  function CorrectAnswer(letters: Option<string>): (r: Option<seq<string>>)
    ensures r.Some? <==> letters.Some?
    ensures r.Some? ==> |r.value| == |letters.value| && Text.Join(r.value, "") == letters.value
  {
    match letters {
      case None => None
      case Some(t) => Text.JoinChars(t); Some(Text.Chars(t))
    }
  }

  /**
   * The token list `answer` works on: a first token longer than one
   * character is split into its characters (the other tokens are dropped),
   * then every token is upper-cased. No first token is an error.
   */
  function Prepare(values: seq<string>): (r: Result<seq<string>, Page.Error>)
    ensures r.Err? <==> values == []
    ensures r.Err? ==> r.error == Page.IndexOutOfRange
    ensures r.Ok? && |values[0]| > 1 ==>
      |r.value| == |values[0]| && forall k :: 0 <= k < |values[0]| ==> r.value[k] == [Text.UpperChar(values[0][k])]
    ensures r.Ok? && |values[0]| <= 1 ==>
      |r.value| == |values| && forall k :: 0 <= k < |values| ==> r.value[k] == Text.Upper(values[k])
  {
    if values == [] then Err(Page.IndexOutOfRange)
    else
      var vs := if |values[0]| > 1 then Text.Chars(values[0]) else values;
      Ok(Lists.Map(Text.Upper, vs))
  }

  /** Every prepared token is upper-case, so preparing twice changes nothing more. */
  lemma PrepareUpper(values: seq<string>)
    requires values != []
    ensures forall k :: 0 <= k < |Prepare(values).value| ==> Text.Upper(Prepare(values).value[k]) == Prepare(values).value[k]
  {
    var r := Prepare(values).value;
    forall k | 0 <= k < |r| ensures Text.Upper(r[k]) == r[k] {
      if |values[0]| > 1 {
        assert r[k] == Text.Upper([values[0][k]]);
        Text.UpperIdempotent([values[0][k]]);
      } else {
        Text.UpperIdempotent(values[k]);
      }
    }
  }

  /** The token loop's locator: an unselected letter containing the token in either case. */
  const Loc: Page.Locator := Page.UnselectedContainingEitherCase

  /** The locator finds a letter exactly when some unselected letter shows the token in either case. */
  lemma LocateEitherCase(bs: seq<Page.Button>, token: string)
    ensures Page.Locate(Loc, bs, token).Some? <==>
      exists k :: 0 <= k < |bs| && !bs[k].selected
        && (Text.Contains(bs[k].text, Text.Upper(token)) || Text.Contains(bs[k].text, Text.Lower(token)))
  {
  }

  /**
   * `answer`: prepare the tokens, click per token with the fallback, drain
   * the pool, then submit the prepared tokens against the correct letters.
   */
  method Answer(page: Page.Element, values: seq<string>) returns (r: Result<seq<string>, Page.Error>)
    modifies page
    ensures r.Err? <==> values == []
    ensures r.Err? ==>
      && r.error == Page.IndexOutOfRange
      && page.State() == old(page.State()) && page.submits == old(page.submits)
    ensures r.Ok? ==>
      && page.State() == Page.DrainPool(Page.ApplyTokens(old(page.State()), Prepare(values).value, Loc))
      && (forall k :: 0 <= k < |page.buttons| ==> page.buttons[k].selected)
      && page.submits == old(page.submits) + 1
      && r.value == QuestionBase.SubmitRule(CorrectAnswer(page.shown.letters), Prepare(values).value)
  {
    if |values| == 0 {
      return Err(Page.IndexOutOfRange);
    }
    var tokens := values;
    if |tokens[0]| > 1 {
      tokens := Text.Chars(tokens[0]);
    }
    tokens := Lists.Map(Text.Upper, tokens);
    page.ClickTokens(tokens, Loc);
    page.DrainUnselected();
    var truth := CorrectAnswer(page.shown.letters);
    var submitted := QuestionBase.SubmitAndCheck(page, truth, tokens);
    r := Ok(submitted);
  }
}
