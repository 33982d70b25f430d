/**
 * The multiple-choice question with text options
 * (`src/classes/questions/multi_choice_text_question.py`).
 */
module MultiChoiceText {
  import opened Wrappers
  import Lists
  import Text
  import Page
  import QuestionBase

  /** `get_correct_answer`: the text of the option the site marks correct, as a one-element list. */
  function CorrectAnswer(bs: seq<Page.Button>): (r: Option<seq<string>>)
    ensures r.None? <==> forall k :: 0 <= k < |bs| ==> !bs[k].correct
    ensures r.Some? ==> exists k :: 0 <= k < |bs| && bs[k].correct && r.value == [bs[k].text]
  {
    match Page.FirstCorrect(bs) {
      case None => None
      case Some(k) => Some([bs[k].text])
    }
  }

  /** `values[:1]` unless the question accepts several options. */
  function Kept(values: seq<string>, multiple: bool): (r: seq<string>)
    ensures multiple ==> r == values
    ensures !multiple ==> r <= values && |r| == (if values == [] then 0 else 1)
  {
    if multiple || values == [] then values else values[..1]
  }

  /** The option a token clicks (see `PickChoosesOption`). */
  function Pick(bs: seq<Page.Button>, token: string): (i: nat)
    ensures bs != [] ==> i < |bs|
  {
    match Page.FirstContaining(bs, token) {
      case Some(i) => i
      case None => 0
    }
  }

  /**
   * A token clicks the first option whose text contains it, or, when no
   * option does, the first option.
   */
  lemma PickChoosesOption(bs: seq<Page.Button>, token: string)
    ensures (exists k :: 0 <= k < |bs| && Text.Contains(bs[k].text, token)) ==>
      && Pick(bs, token) < |bs| && Text.Contains(bs[Pick(bs, token)].text, token)
      && forall j :: 0 <= j < Pick(bs, token) ==> !Text.Contains(bs[j].text, token)
    ensures (forall k :: 0 <= k < |bs| ==> !Text.Contains(bs[k].text, token)) ==> Pick(bs, token) == 0
  {
  }

  /**
   * The `for value in values` loop: one click per token. It fails only when
   * the fallback finds no option at all.
   */
  function ClickTokens(d: Page.Dom, tokens: seq<string>): Result<Page.Dom, Page.Error>
    decreases |tokens|
  {
    if tokens == [] then Ok(d)
    else if d.buttons == [] then Err(Page.NotFound)
    else ClickTokens(Page.ClickAt(d, Pick(d.buttons, tokens[0])), tokens[1..])
  }

  /** The options a sequence of tokens picks, in order. */
  function Picks(bs: seq<Page.Button>, tokens: seq<string>): (r: seq<nat>)
  {
    if tokens == [] then [] else [Pick(bs, tokens[0])] + Picks(bs, tokens[1..])
  }

  /** Selection does not move the options tokens pick. */
  lemma {:induction false} PicksStable(a: seq<Page.Button>, b: seq<Page.Button>, tokens: seq<string>)
    requires Page.SameOptions(a, b)
    ensures Picks(a, tokens) == Picks(b, tokens)
  {
    if tokens != [] {
      Page.FirstContainingStable(a, b, tokens[0]);
      PicksStable(a, b, tokens[1..]);
    }
  }

  /** A click does not move the options later tokens pick. */
  lemma PicksAfterClick(d: Page.Dom, i: nat, tokens: seq<string>)
    requires i < |d.buttons|
    ensures Picks(Page.ClickAt(d, i).buttons, tokens) == Picks(d.buttons, tokens)
  {
    Page.ClickKeepsOptions(d, i);
    PicksStable(d.buttons, Page.ClickAt(d, i).buttons, tokens);
  }

  lemma {:induction false} ClickTokensClicks(d: Page.Dom, tokens: seq<string>)
    requires d.buttons != []
    ensures ClickTokens(d, tokens).Ok?
    ensures ClickTokens(d, tokens).value.clicks == d.clicks + Picks(d.buttons, tokens)
    decreases |tokens|
  {
    if tokens != [] {
      var i := Pick(d.buttons, tokens[0]);
      var d1 := Page.ClickAt(d, i);
      var rest := Picks(d.buttons, tokens[1..]);
      ClickStep(d, tokens);
      ClickTokensClicks(d1, tokens[1..]);
      calc {
        ClickTokens(d, tokens).value.clicks;
        ClickTokens(d1, tokens[1..]).value.clicks;
        d1.clicks + Picks(d1.buttons, tokens[1..]);
        (d.clicks + [i]) + rest;
        d.clicks + ([i] + rest);
        d.clicks + Picks(d.buttons, tokens);
      }
    }
  }

  /** The first token's click, and what it leaves for the others. */
  lemma ClickStep(d: Page.Dom, tokens: seq<string>)
    requires d.buttons != [] && tokens != []
    ensures var i := Pick(d.buttons, tokens[0]); var d1 := Page.ClickAt(d, i);
      && ClickTokens(d, tokens) == ClickTokens(d1, tokens[1..])
      && d1.clicks == d.clicks + [i] && d1.buttons != []
      && Picks(d1.buttons, tokens[1..]) == Picks(d.buttons, tokens[1..])
      && Picks(d.buttons, tokens) == [i] + Picks(d.buttons, tokens[1..])
  {
    var i := Pick(d.buttons, tokens[0]);
    assert |Page.ClickAt(d, i).buttons| == |d.buttons|;
    PicksAfterClick(d, i, tokens[1..]);
  }

  /** The click loop at token `i`: click what the token picks, then go on with the next. */
  lemma ClickTokensFrom(d: Page.Dom, tokens: seq<string>, i: nat, j: nat)
    requires i < |tokens| && j < |d.buttons| && j == Pick(d.buttons, tokens[i])
    ensures ClickTokens(d, tokens[i..]) == ClickTokens(Page.ClickAt(d, j), tokens[i + 1..])
  {
    assert tokens[i..][0] == tokens[i] && tokens[i..][1..] == tokens[i + 1..];
  }

  /** A token no option contains selects the first option. */
  lemma FallbackTakesFirst(d: Page.Dom, token: string)
    requires d.buttons != []
    requires forall k :: 0 <= k < |d.buttons| ==> !Text.Contains(d.buttons[k].text, token)
    ensures ClickTokens(d, [token]) == Ok(Page.ClickAt(d, 0))
  {
    PickChoosesOption(d.buttons, token);
    assert [token][1..] == [];
  }

  /**
   * `answer`: trim the values unless several options are allowed, click one
   * option per token, then submit the trimmed values. When a token finds no
   * option and there is none to fall back on, the error propagates before any
   * click and before the submit.
   */
  method Answer(page: Page.Element, values: seq<string>, multiple: bool) returns (r: Result<seq<string>, Page.Error>)
    modifies page
    ensures var kept := Kept(values, multiple);
      && (r.Ok? <==> ClickTokens(old(page.State()), kept).Ok?)
      && (r.Ok? ==>
        && page.State() == ClickTokens(old(page.State()), kept).value
        && page.submits == old(page.submits) + 1
        && r.value == QuestionBase.SubmitRule(CorrectAnswer(page.buttons), kept))
      && (r.Err? ==>
        && r.error == Page.NotFound
        && page.State() == old(page.State()) && page.submits == old(page.submits))
  {
    var kept := Kept(values, multiple);
    var clicked := ClickOptions(page, kept);
    if !clicked {
      r := Err(Page.NotFound);
      return;
    }
    var truth := CorrectAnswer(page.buttons);
    var submitted := QuestionBase.SubmitAndCheck(page, truth, kept);
    r := Ok(submitted);
  }

  /**
   * The `for value in values` loop of `answer`: `false`, before any click,
   * when there is no option to fall back on.
   */
  method ClickOptions(page: Page.Element, tokens: seq<string>) returns (clicked: bool)
    modifies page
    ensures clicked <==> ClickTokens(old(page.State()), tokens).Ok?
    ensures clicked ==> page.State() == ClickTokens(old(page.State()), tokens).value
    ensures !clicked ==> page.State() == old(page.State())
    ensures page.submits == old(page.submits)
  {
    var i := 0;
    while i < |tokens|
      invariant 0 <= i <= |tokens|
      invariant ClickTokens(page.State(), tokens[i..]) == ClickTokens(old(page.State()), tokens)
      invariant i == 0 ==> page.State() == old(page.State())
      invariant i > 0 ==> page.buttons != []
      invariant page.submits == old(page.submits)
    {
      ghost var d := page.State();
      var ok := ClickToken(page, tokens[i]);
      if !ok {
        assert tokens[i..][0] == tokens[i];
        return false;
      }
      ClickTokensFrom(d, tokens, i, Pick(d.buttons, tokens[i]));
      i := i + 1;
    }
    assert tokens[i..] == [];
    return true;
  }

  /**
   * One pass of the loop: click the first option containing the token, or
   * else the first option; `false` when there is none.
   */
  method ClickToken(page: Page.Element, token: string) returns (ok: bool)
    modifies page
    ensures ok <==> old(page.buttons) != []
    ensures ok ==> page.State() == Page.ClickAt(old(page.State()), Pick(old(page.buttons), token))
    ensures !ok ==> page.State() == old(page.State())
    ensures page.submits == old(page.submits)
  {
    var found := Page.FirstContaining(page.buttons, token);
    if found.Some? {
      page.Click(found.value);
    } else {
      // the fallback `find_element` raises when there is no option
      if page.buttons == [] {
        return false;
      }
      page.Click(0);
    }
    return true;
  }
}
