/**
 * The multiple-choice question with picture options
 * (`src/classes/questions/multi_choice_image_question.py`).
 */
module MultiChoiceImage {
  import opened Wrappers
  import Text
  import Page
  import QuestionBase

  /** The site's origin, stripped from picture addresses. */
  const BasePath: string := "https://esaip.gofluent.com"

  /** The token that means "select any option". */
  const Skip: string := "SKIP"

  /** An address without the site's origin, when it starts with it. */
  function StripBase(src: string): (r: string)
  {
    if BasePath <= src then src[|BasePath|..] else src
  }

  /** Stripping undoes prefixing, and prefixing restores what was stripped. */
  lemma StripBaseRoundTrip(path: string, src: string)
    ensures StripBase(BasePath + path) == path
    ensures BasePath <= src ==> BasePath + StripBase(src) == src
    ensures !(BasePath <= src) ==> StripBase(src) == src
  {
    assert BasePath <= BasePath + path;
    assert (BasePath + path)[|BasePath|..] == path;
    if BasePath <= src {
      assert src == src[..|BasePath|] + src[|BasePath|..];
    }
  }

  /** `get_correct_answer`: the address of the correct option's picture, without the origin. */
  function CorrectAnswer(bs: seq<Page.Button>): (r: Option<seq<string>>)
    ensures r.None? <==> forall k :: 0 <= k < |bs| ==> !bs[k].correct
    ensures r.Some? ==> exists k :: 0 <= k < |bs| && bs[k].correct && r.value == [StripBase(bs[k].src)]
  {
    match Page.FirstCorrect(bs) {
      case None => None
      case Some(k) => Some([StripBase(bs[k].src)])
    }
  }

  /** The first option whose picture address contains `value`. */
  function FirstWithSrc(bs: seq<Page.Button>, value: string): (r: Option<nat>)
    ensures r.Some? ==> r.value < |bs| && Text.Contains(bs[r.value].src, value)
    ensures r.None? ==> forall k :: 0 <= k < |bs| ==> !Text.Contains(bs[k].src, value)
  {
    Page.First(bs, (b: Page.Button) => Text.Contains(b.src, value))
  }

  /**
   * The clicks of `answer` before the submit: only the first token counts.
   * `SKIP` clicks the first option, selected or not (or nothing when there is
   * none); any other token clicks the first option whose picture address
   * contains it, and fails when there is none.
   */
  function Select(d: Page.Dom, values: seq<string>): (r: Result<Page.Dom, Page.Error>)
    ensures values == [] ==> r == Err(Page.IndexOutOfRange)
    ensures r.Err? && values != [] ==> r.error == Page.NotFound && values[0] != Skip
    ensures r.Ok? ==> Page.SameOptions(d.buttons, r.value.buttons) && |r.value.clicks| <= |d.clicks| + 1
  {
    if values == [] then Err(Page.IndexOutOfRange)
    else if values[0] == Skip then
      (if d.buttons == [] then Ok(d) else Page.ClickKeepsOptions(d, 0); Ok(Page.ClickAt(d, 0)))
    else match FirstWithSrc(d.buttons, values[0]) {
      case None => Err(Page.NotFound)
      case Some(i) => Page.ClickKeepsOptions(d, i); Ok(Page.ClickAt(d, i))
    }
  }

  /** Only the first token decides what is clicked; the rest are only submitted. */
  lemma SelectFirstTokenOnly(d: Page.Dom, v: string, a: seq<string>, b: seq<string>)
    ensures Select(d, [v] + a) == Select(d, [v] + b)
  {
  }

  /** `SKIP` never fails and clicks the first option even if a picture address contains `SKIP`. */
  lemma SkipTakesFirst(d: Page.Dom, rest: seq<string>)
    ensures Select(d, [Skip] + rest) == Ok(if d.buttons == [] then d else Page.ClickAt(d, 0))
  {
  }

  /** Any other token clicks exactly the first option showing a matching picture, once. */
  lemma SelectClicksMatch(d: Page.Dom, values: seq<string>)
    requires values != [] && values[0] != Skip
    ensures Select(d, values).Ok? <==> exists k :: 0 <= k < |d.buttons| && Text.Contains(d.buttons[k].src, values[0])
    ensures Select(d, values).Ok? ==>
      var i := Select(d, values).value.clicks[|d.clicks|];
      && Select(d, values).value.clicks == d.clicks + [i]
      && Text.Contains(d.buttons[i].src, values[0])
      && forall j :: 0 <= j < i ==> !Text.Contains(d.buttons[j].src, values[0])
  {
    var f := FirstWithSrc(d.buttons, values[0]);
    if f.Some? {
      assert Page.First(d.buttons, (b: Page.Button) => Text.Contains(b.src, values[0])) == f;
    }
  }

  /**
   * `answer`: click as `Select` says, then submit the whole list of values.
   * A failure propagates before the submit, with the page untouched.
   */
  method Answer(page: Page.Element, values: seq<string>) returns (r: Result<seq<string>, Page.Error>)
    modifies page
    ensures r.Ok? <==> Select(old(page.State()), values).Ok?
    ensures r.Ok? ==>
      && page.State() == Select(old(page.State()), values).value
      && page.submits == old(page.submits) + 1
      && r.value == QuestionBase.SubmitRule(CorrectAnswer(page.buttons), values)
    ensures r.Err? ==>
      && r.error == Select(old(page.State()), values).error
      && page.State() == old(page.State()) && page.submits == old(page.submits)
  {
    if |values| == 0 {
      return Err(Page.IndexOutOfRange);
    }
    var value := values[0];
    if value == Skip {
      // `select_random_option`: the first option of any state, if there is one
      if |page.buttons| > 0 {
        page.Click(0);
      }
    } else {
      var found := FirstWithSrc(page.buttons, value);
      if found.None? {
        return Err(Page.NotFound);
      }
      page.Click(found.value);
    }
    var truth := CorrectAnswer(page.buttons);
    var submitted := QuestionBase.SubmitAndCheck(page, truth, values);
    r := Ok(submitted);
  }
}
