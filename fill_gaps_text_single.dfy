/**
 * The newer fill-in-the-gaps text question (`src/classes/q/fill_gaps_text_question.py`):
 * only the first value is typed, into the first gap input.
 */
module FillGapsTextSingle {
  import opened Wrappers
  import Page
  import QuestionBase

  /**
   * What `answer` does to the page before submitting: `values[0]` fails on
   * an empty list, `find_element` fails without an input, and otherwise the
   * first value is appended to the first input's value.
   */
  function TypeFirst(d: Page.Dom, values: seq<string>): (r: Result<Page.Dom, Page.Error>)
    ensures values == [] <==> r == Err(Page.IndexOutOfRange)
    ensures values != [] && d.inputs == [] <==> r == Err(Page.NotFound)
    ensures r.Ok? ==>
      && |r.value.inputs| == |d.inputs|
      && r.value.inputs[0].value == d.inputs[0].value + values[0]
      && r.value.inputs[0].content == d.inputs[0].content
      && r.value.inputs[1..] == d.inputs[1..]
      && r.value.buttons == d.buttons && r.value.textarea == d.textarea && r.value.clicks == d.clicks
  {
    if values == [] then Err(Page.IndexOutOfRange)
    else if d.inputs == [] then Err(Page.NotFound)
    else Ok(Page.TypeAt(d, 0, values[0]))
  }

  /** Values after the first are never typed: the page ends the same without them. */
  lemma OnlyFirstValueTyped(d: Page.Dom, values: seq<string>)
    requires values != []
    ensures TypeFirst(d, values) == TypeFirst(d, values[..1])
  {
  }

  /**
   * `answer`: type the first value, then submit all the values against the
   * green text. The errors end the call before the submit.
   */
  method Answer(page: Page.Element, values: seq<string>) returns (r: Result<seq<string>, Page.Error>)
    modifies page
    ensures var typed := TypeFirst(old(page.State()), values);
      && (r.Err? <==> typed.Err?)
      && (r.Err? ==> r.error == typed.error && page.State() == old(page.State()) && page.submits == old(page.submits))
      && (r.Ok? ==>
        && page.State() == typed.value
        && page.submits == old(page.submits) + 1
        && r.value == QuestionBase.SubmitRule(QuestionBase.GreenAnswer(page.shown.green), values))
  {
    if |values| == 0 {
      return Err(Page.IndexOutOfRange);
    }
    var value := values[0];
    if |page.inputs| == 0 {
      return Err(Page.NotFound);
    }
    page.SendKeys(0, value);
    var submitted := QuestionBase.SubmitAndCheck(page, QuestionBase.GreenAnswer(page.shown.green), values);
    r := Ok(submitted);
  }
}
