/** The short-answer question (`src/classes/q/short_text_question.py`). */
module ShortText {
  import opened Wrappers
  import Page
  import QuestionBase

  /**
   * What `answer` does to the page before submitting: `values[0]` fails on
   * an empty list, `find_element` fails without the answer textarea, and
   * otherwise the first value is appended to the textarea.
   */
  function TypeFirst(d: Page.Dom, values: seq<string>): (r: Result<Page.Dom, Page.Error>)
    ensures values == [] <==> r == Err(Page.IndexOutOfRange)
    ensures values != [] && d.textarea.None? <==> r == Err(Page.NotFound)
    ensures r.Ok? ==>
      && r.value.textarea == Some(d.textarea.value + values[0])
      && r.value.inputs == d.inputs && r.value.buttons == d.buttons && r.value.clicks == d.clicks
  {
    if values == [] then Err(Page.IndexOutOfRange)
    else if d.textarea.None? then Err(Page.NotFound)
    else Ok(d.(textarea := Some(d.textarea.value + values[0])))
  }

  /** Values after the first are never typed. */
  lemma OnlyFirstValueTyped(d: Page.Dom, values: seq<string>)
    requires values != []
    ensures TypeFirst(d, values) == TypeFirst(d, values[..1])
  {
  }

  /** `as_text`: the text of the answer block, or `NotFound` when the element has none. */
  function Prompt(blockText: Option<string>): (r: Result<string, Page.Error>)
    ensures r.Ok? <==> blockText.Some?
    ensures r.Ok? ==> r.value == blockText.value
    ensures r.Err? ==> r.error == Page.NotFound
  {
    if blockText.Some? then Ok(blockText.value) else Err(Page.NotFound)
  }

  /**
   * `answer`: type the first value into the textarea, then submit all the
   * values against the green text.
   */
  method Answer(page: Page.Element, values: seq<string>) returns (r: Result<seq<string>, Page.Error>)
    modifies page
    ensures var typed := TypeFirst(old(page.State()), values);
      && (r.Err? <==> typed.Err?)
      && (r.Err? ==> r.error == typed.error && page.State() == old(page.State()) && page.submits == old(page.submits))
      && (r.Ok? ==>
        && page.State() == typed.value
        && page.submits == old(page.submits) + 1
        && r.value == QuestionBase.SubmitRule(QuestionBase.GreenAnswer(page.shown.green), values))
  {
    if |values| == 0 {
      return Err(Page.IndexOutOfRange);
    }
    var value := values[0];
    if page.textarea.None? {
      return Err(Page.NotFound);
    }
    page.SendKeysToTextarea(value);
    var submitted := QuestionBase.SubmitAndCheck(page, QuestionBase.GreenAnswer(page.shown.green), values);
    r := Ok(submitted);
  }
}
