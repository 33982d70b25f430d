/**
 * The fill-in-the-gaps question with typed inputs
 * (`src/classes/questions/fill_gaps_text_question.py`).
 */
module FillGapsText {
  import opened Wrappers
  import Lists
  import Text
  import Page
  import QuestionBase

  /** What the drain types into an input still blank. */
  const Filler: string := "abcdef"

  /** The `value` attributes of the inputs, in document order. */
  function Values(inputs: seq<Page.Input>): (r: seq<string>)
    ensures |r| == |inputs| && forall k :: 0 <= k < |inputs| ==> r[k] == inputs[k].value
  {
    Lists.Map((i: Page.Input) => i.value, inputs)
  }

  /** An input whose `value` attribute is empty. */
  predicate BlankValue(i: Page.Input)
  {
    i.value == ""
  }

  /**
   * `get_random_input`: keep the inputs whose value is empty and take the
   * first, or nothing when none is left.
   */
  function RandomInput(inputs: seq<Page.Input>): (r: Option<nat>)
    ensures r.Some? ==> r.value < |inputs| && inputs[r.value].value == ""
  {
    Page.First(Values(inputs), (s: string) => s == "")
  }

  /** `RandomInput` is the head of the filtered list the source builds. */
  lemma {:induction false} RandomInputIsFilterHead(inputs: seq<Page.Input>)
    ensures var kept := Lists.Filter(BlankValue, inputs);
      && (RandomInput(inputs).None? <==> kept == [])
      && (RandomInput(inputs).Some? ==> kept[0] == inputs[RandomInput(inputs).value])
  {
    if inputs != [] {
      RandomInputIsFilterHead(inputs[1..]);
      assert Values(inputs)[1..] == Values(inputs[1..]);
    }
  }

  /** `can_answer`: some input still has an empty value. */
  lemma CanAnswerMeans(inputs: seq<Page.Input>)
    ensures RandomInput(inputs).Some? <==> Page.HasBlank(Values(inputs))
  {
  }

  /**
   * The token loop's target: the first input whose text content is empty
   * (the XPath test `.=""`). Typing changes an input's value, not its
   * content, so the target never moves.
   */
  function EmptyContent(inputs: seq<Page.Input>): Option<nat>
  {
    Page.First(inputs, (i: Page.Input) => i.content == "")
  }

  /**
   * The token loop: type each token into the located input; the first
   * token with nothing to go into ends the loop, with no fallback.
   */
  function TypeTokens(d: Page.Dom, tokens: seq<string>): (r: Page.Dom)
    ensures |r.inputs| == |d.inputs|
    ensures r.buttons == d.buttons && r.stems == d.stems && r.textarea == d.textarea && r.clicks == d.clicks
    decreases |tokens|
  {
    if tokens == [] then d
    else match EmptyContent(d.inputs) {
      case None => d
      case Some(j) => TypeTokens(Page.TypeAt(d, j, tokens[0]), tokens[1..])
    }
  }

  /** Joining with an empty separator is concatenation. */
  lemma JoinCons(t: string, rest: seq<string>)
    ensures Text.Join([t] + rest, "") == t + Text.Join(rest, "")
  {
    assert ([t] + rest)[1..] == rest;
  }

  /**
   * All the tokens end up, concatenated, in the one input with empty
   * content; without such an input nothing is typed.
   */
  lemma {:induction false} TypeTokensOneInput(d: Page.Dom, tokens: seq<string>)
    ensures EmptyContent(d.inputs).None? ==> TypeTokens(d, tokens) == d
    ensures EmptyContent(d.inputs).Some? ==>
      var j := EmptyContent(d.inputs).value;
      TypeTokens(d, tokens) == d.(inputs := d.inputs[j := d.inputs[j].(value := d.inputs[j].value + Text.Join(tokens, ""))])
    decreases |tokens|
  {
    if tokens == [] && EmptyContent(d.inputs).Some? {
      var j := EmptyContent(d.inputs).value;
      assert d.inputs[j].value + Text.Join(tokens, "") == d.inputs[j].value;
      assert d.inputs[j := d.inputs[j]] == d.inputs;
    } else if tokens != [] && EmptyContent(d.inputs).Some? {
      var j := EmptyContent(d.inputs).value;
      var d1 := Page.TypeAt(d, j, tokens[0]);
      Page.FirstAgree(d.inputs, (i: Page.Input) => i.content == "", d1.inputs, (i: Page.Input) => i.content == "");
      TypeTokensOneInput(d1, tokens[1..]);
      JoinCons(tokens[0], tokens[1..]);
      assert [tokens[0]] + tokens[1..] == tokens;
      var v := d.inputs[j].value;
      var rest := Text.Join(tokens[1..], "");
      assert (v + tokens[0]) + rest == v + (tokens[0] + rest);
      assert d1.inputs[j := d1.inputs[j].(value := (v + tokens[0]) + rest)]
          == d.inputs[j := d.inputs[j].(value := v + Text.Join(tokens, ""))];
    }
  }

  /** The number of inputs whose value is empty. */
  function BlankCount(inputs: seq<Page.Input>): nat
  {
    Page.Blanks(Values(inputs))
  }

  /** `while can_answer(): select_random_option()`: fill the blank inputs with the filler, first to last. */
  function DrainBlanks(d: Page.Dom): (r: Page.Dom)
    ensures |r.inputs| == |d.inputs|
    ensures r.buttons == d.buttons && r.stems == d.stems && r.textarea == d.textarea && r.clicks == d.clicks
    decreases BlankCount(d.inputs)
  {
    match RandomInput(d.inputs) {
      case None => d
      case Some(j) =>
        var d1 := Page.TypeAt(d, j, Filler);
        assert d.inputs[j].value + Filler == Filler;
        assert Values(d1.inputs) == Values(d.inputs)[j := Filler];
        Page.BlanksAfterSet(Values(d.inputs), j, Filler);
        DrainBlanks(d1)
    }
  }

  /** An input as the drain leaves it: the filler if its value was empty, unchanged otherwise. */
  function Filled(i: Page.Input): Page.Input
  {
    if i.value == "" then i.(value := Filler) else i
  }

  /**
   * The drain fills exactly the inputs that were blank, with the filler,
   * leaves every other input alone and ends with no blank input.
   */
  lemma {:induction false} DrainBlanksFills(d: Page.Dom)
    ensures DrainBlanks(d) == d.(inputs := Lists.Map(Filled, d.inputs))
    ensures RandomInput(DrainBlanks(d).inputs).None?
    decreases BlankCount(d.inputs)
  {
    match RandomInput(d.inputs) {
      case None =>
        assert Lists.Map(Filled, d.inputs) == d.inputs;
      case Some(j) =>
        var d1 := Page.TypeAt(d, j, Filler);
        assert d.inputs[j].value + Filler == Filler;
        assert Values(d1.inputs) == Values(d.inputs)[j := Filler];
        Page.BlanksAfterSet(Values(d.inputs), j, Filler);
        DrainBlanksFills(d1);
        assert Lists.Map(Filled, d1.inputs) == Lists.Map(Filled, d.inputs);
    }
  }

  /**
   * `answer`: type the tokens into the empty-content input, stopping at the
   * first token with no target, fill the inputs left blank, then submit the
   * values against the green text (`get_correct_answer` is `GreenAnswer`).
   */
  method Answer(page: Page.Element, values: seq<string>) returns (r: seq<string>)
    modifies page
    ensures page.State() == DrainBlanks(TypeTokens(old(page.State()), values))
    ensures page.submits == old(page.submits) + 1
    ensures r == QuestionBase.SubmitRule(QuestionBase.GreenAnswer(page.shown.green), values)
  {
    var i := 0;
    while i < |values|
      invariant 0 <= i <= |values|
      invariant TypeTokens(page.State(), values[i..]) == TypeTokens(old(page.State()), values)
      invariant page.submits == old(page.submits)
    {
      assert values[i..][1..] == values[i + 1..];
      var target := EmptyContent(page.inputs);
      if target.None? {
        break;
      }
      page.SendKeys(target.value, values[i]);
      i := i + 1;
    }
    ghost var typed := page.State();
    while RandomInput(page.inputs).Some?
      invariant DrainBlanks(page.State()) == DrainBlanks(typed)
      invariant page.submits == old(page.submits)
      decreases BlankCount(page.inputs)
    {
      var j := RandomInput(page.inputs).value;
      assert page.inputs[j].value + Filler == Filler;
      assert Values(page.inputs)[j := Filler] == Values(page.inputs[j := page.inputs[j].(value := page.inputs[j].value + Filler)]);
      Page.BlanksAfterSet(Values(page.inputs), j, Filler);
      page.SendKeys(j, Filler);
    }
    r := QuestionBase.SubmitAndCheck(page, QuestionBase.GreenAnswer(page.shown.green), values);
  }
}
