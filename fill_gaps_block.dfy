/**
 * The fill-in-the-gaps question with a pool of word buttons
 * (`src/classes/q/fill_gaps_block_question.py`).
 */
module FillGapsBlock {
  import opened Wrappers
  import Text
  import Page
  import QuestionBase

  /** `get_correct_answer`: the green text split on `", "`, which joining undoes. */
  function CorrectAnswer(green: string): (r: Option<seq<string>>)
    ensures r.Some? <==> green != ""
    ensures r.Some? ==> |r.value| >= 1 && Text.Join(r.value, ", ") == green
  {
    if green != "" then Text.JoinSplit(green, ", "); Some(Text.Split(green, ", ")) else None
  }

  /** `can_answer`: scan the slots for one with empty text. */
  method CanAnswer(page: Page.Element) returns (b: bool)
    ensures b <==> Page.HasBlank(page.stems)
  {
    var stems := page.stems;
    for k := 0 to |stems|
      invariant forall j :: 0 <= j < k ==> stems[j] != ""
    {
      if stems[k] == "" {
        return true;
      }
    }
    return false;
  }

  /** The token loop's locator: any fill button containing the token, selected or not. */
  const Loc: Page.Locator := Page.Containing

  /**
   * `while can_answer(): select_random_option()`. While a slot is blank the
   * loop selects the first unselected button; when a slot is blank and no
   * button is left, the step changes nothing and the loop never ends, which
   * is the `Spins` outcome.
   */
  function DrainSlots(d: Page.Dom): (r: Result<Page.Dom, Page.Error>)
    ensures r.Ok? ==> !Page.HasBlank(r.value.stems) && Page.SameOptions(d.buttons, r.value.buttons)
    ensures r.Err? ==> r.error == Page.Spins
    decreases Page.Unselected(d.buttons)
  {
    if !Page.HasBlank(d.stems) then Ok(d)
    else if Page.FirstUnselected(d.buttons).None? then Err(Page.Spins)
    else DrainSlots(Page.SelectRandom(d))
  }

  /** Every unselected button has text: a click on it fills a slot. */
  predicate UnselectedHaveText(bs: seq<Page.Button>)
  {
    forall k :: 0 <= k < |bs| && !bs[k].selected ==> bs[k].text != ""
  }

  /**
   * The drain ends with every slot filled when there are at least as many
   * unselected buttons as blank slots and each of those buttons has text:
   * every step then fills one slot and uses up one button.
   */
  lemma {:induction false} DrainSlotsEnds(d: Page.Dom)
    requires UnselectedHaveText(d.buttons)
    requires Page.Blanks(d.stems) <= Page.Unselected(d.buttons)
    ensures DrainSlots(d).Ok?
    decreases Page.Unselected(d.buttons)
  {
    Page.BlanksPositive(d.stems);
    if Page.HasBlank(d.stems) {
      Page.UnselectedZero(d.buttons);
      var i := Page.FirstUnselected(d.buttons).value;
      var d1 := Page.SelectRandom(d);
      assert d1 == Page.ClickAt(d, i);
      Page.ClickKeepsOptions(d, i);
      Page.FillFirstBlankFills(d.stems, d.buttons[i].text);
      DrainSlotsEnds(d1);
    }
  }

  /** Once every button is selected, a blank slot makes the drain spin. */
  lemma DrainSlotsSpins(d: Page.Dom)
    requires Page.HasBlank(d.stems) && Page.Unselected(d.buttons) == 0
    ensures DrainSlots(d) == Err(Page.Spins)
  {
    Page.UnselectedZero(d.buttons);
  }

  /**
   * `answer`: click per token with the fallback, drain the blank slots,
   * then submit the values against the split green text. A drain that
   * would never end is reported as `Spins`, before any submit.
   */
  method Answer(page: Page.Element, values: seq<string>) returns (r: Result<seq<string>, Page.Error>)
    modifies page
    ensures var tokens := Page.ApplyTokens(old(page.State()), values, Loc);
      && (r.Ok? <==> DrainSlots(tokens).Ok?)
      && (r.Ok? ==>
        && page.State() == DrainSlots(tokens).value
        && page.submits == old(page.submits) + 1
        && r.value == QuestionBase.SubmitRule(CorrectAnswer(page.shown.green), values))
      && (r.Err? ==> r.error == Page.Spins && page.submits == old(page.submits))
  {
    page.ClickTokens(values, Loc);
    ghost var tokens := page.State();
    var blank := CanAnswer(page);
    while blank
      invariant blank <==> Page.HasBlank(page.stems)
      invariant DrainSlots(page.State()) == DrainSlots(tokens)
      invariant page.submits == old(page.submits)
      decreases Page.Unselected(page.buttons)
    {
      if Page.FirstUnselected(page.buttons).None? {
        // `select_random_option` would change nothing: the loop would repeat forever
        return Err(Page.Spins);
      }
      page.SelectRandomOption();
      blank := CanAnswer(page);
    }
    var submitted := QuestionBase.SubmitAndCheck(page, CorrectAnswer(page.shown.green), values);
    r := Ok(submitted);
  }
}
