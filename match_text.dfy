/**
 * The match-text question: fill buttons matched to prompts
 * (`src/classes/q/match_text_question.py`).
 */
module MatchText {
  import opened Wrappers
  import Text
  import Page
  import QuestionBase

  /** The class the token locator excludes; the pages never set it. */
  const ExcludedClass: string := "Question__fill-button-button_selected_yes"

  /** The token loop's locator: a fill button containing the token and lacking `ExcludedClass`. */
  const Loc: Page.Locator := Page.ContainingWithout(ExcludedClass)

  /**
   * The exclusion names a class no button carries, so the token locator is
   * plain containment and can find buttons that are already selected.
   */
  lemma LocatorIgnoresSelection(bs: seq<Page.Button>, token: string)
    ensures Page.Locate(Loc, bs, token) == Page.FirstContaining(bs, token)
  {
    assert ExcludedClass != Page.SelectedClass;
    Page.FirstAgree(bs, (b: Page.Button) => !Page.HasClass(b, ExcludedClass) && Text.Contains(b.text, token),
                    bs, (b: Page.Button) => Text.Contains(b.text, token));
  }

  /** A token clicks a button already selected when that is the first one containing it. */
  lemma TokenReselects(d: Page.Dom, token: string)
    requires d.buttons != [] && d.buttons[0].selected && Text.Contains(d.buttons[0].text, token)
    ensures Page.ApplyTokens(d, [token], Loc) == Page.ClickAt(d, 0)
    ensures Page.Unselected(Page.ApplyTokens(d, [token], Loc).buttons) == Page.Unselected(d.buttons)
  {
    LocatorIgnoresSelection(d.buttons, token);
    assert [token][1..] == [];
    assert Page.ClickAt(d, 0).buttons == d.buttons;
  }

  /** `get_random_option`: the first fill button lacking the selection class, i.e. the first unselected one. */
  function RandomOption(bs: seq<Page.Button>): (r: Option<nat>)
    ensures r == Page.FirstUnselected(bs)
  {
    Page.FirstAgree(bs, (b: Page.Button) => !Page.HasClass(b, Page.SelectedClass), bs, (b: Page.Button) => !b.selected);
    Page.First(bs, (b: Page.Button) => !Page.HasClass(b, Page.SelectedClass))
  }

  /**
   * `answer`: click per token with the fallback, select every remaining
   * button, then submit the values against the page's matches.
   */
  method Answer(page: Page.Element, values: seq<string>) returns (r: seq<string>)
    modifies page
    ensures page.State() == Page.DrainPool(Page.ApplyTokens(old(page.State()), values, Loc))
    ensures forall k :: 0 <= k < |page.buttons| ==> page.buttons[k].selected
    ensures page.submits == old(page.submits) + 1
    ensures r == QuestionBase.SubmitRule(page.shown.matches, values)
  {
    page.ClickTokens(values, Loc);
    page.DrainUnselected();
    r := QuestionBase.SubmitAndCheck(page, page.shown.matches, values);
  }
}
