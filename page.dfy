/**
 * The part of the quiz page a question element exposes to the question
 * classes, with Selenium's queries and actions reduced to what they do here:
 * `find_element` is the first match in document order (or a "not found"
 * error), `find_elements` is every match, `click` marks a button as
 * selected, and `send_keys` appends text to an input's value.
 *
 * The site's own reaction to a click is not part of the repository; the
 * model assumes the one the fill-in-the-gaps questions rely on: a clicked
 * pool button drops its text into the first blank answer slot, if any.
 */
module Page {
  import opened Wrappers
  import Text

  /**
   * An option or pool button. `selected` stands for the state the site gives
   * it once clicked (the class `Question__fill-button_selected_yes`, or having
   * left the unselected box); `correct` for the mark
   * `Question__option_correct_yes` the site shows after submission.
   */
  datatype Button = Button(text: string, src: string, selected: bool, correct: bool)

  /** A gap input: its `value` attribute and its text content (XPath `.`). */
  datatype Input = Input(value: string, content: string)

  /** Driver and Python errors that end an `answer` call. */
  datatype Error =
    | NotFound          // `NoSuchElementException` from `find_element`
    | IndexOutOfRange   // `IndexError` from `values[0]` on an empty list
    | Spins             // the drain loop would repeat forever without changing the page

  /** What the site reveals about the right answer once the question is submitted. */
  datatype Reveal = Reveal(
    green: string,                 // text of the green correction ("" when absent)
    choices: seq<string>,          // the scrambled-sentence choices listed in the markup
    letters: Option<string>,       // text of the scrambled-letters correct-answer block
    matches: Option<seq<string>>)  // the match-text correct answers

  /** The mutable part of the page as a value: controls plus the log of clicked buttons. */
  datatype Dom = Dom(
    buttons: seq<Button>,
    inputs: seq<Input>,
    stems: seq<string>,            // texts of the `.Stem__answer` slots
    textarea: Option<string>,      // value of the answer textarea, if there is one
    clicks: seq<nat>)              // indices of the buttons clicked, in order

  /** The first element satisfying `p`: the first match in document order. */
  function First<T>(s: seq<T>, p: T -> bool): (r: Option<nat>)
    ensures r.Some? ==> r.value < |s| && p(s[r.value]) && forall k :: 0 <= k < r.value ==> !p(s[k])
    ensures r.None? ==> forall k :: 0 <= k < |s| ==> !p(s[k])
  {
    if s == [] then None
    else if p(s[0]) then Some(0)
    else match First(s[1..], p) {
      case None => None
      case Some(k) => Some(k + 1)
    }
  }

  /** The first button whose text contains `t`, selected or not. */
  function FirstContaining(bs: seq<Button>, t: string): Option<nat>
  {
    First(bs, (b: Button) => Text.Contains(b.text, t))
  }

  /** The first button not yet selected. */
  function FirstUnselected(bs: seq<Button>): Option<nat>
  {
    First(bs, (b: Button) => !b.selected)
  }

  /** The first unselected button whose text contains `t`. */
  function FirstUnselectedContaining(bs: seq<Button>, t: string): Option<nat>
  {
    First(bs, (b: Button) => !b.selected && Text.Contains(b.text, t))
  }

  /** The first button the site marks as correct. */
  function FirstCorrect(bs: seq<Button>): Option<nat>
  {
    First(bs, (b: Button) => b.correct)
  }

  /** The number of buttons not yet selected. */
  function Unselected(bs: seq<Button>): nat
  {
    if bs == [] then 0 else (if bs[0].selected then 0 else 1) + Unselected(bs[1..])
  }

  /** The site's reaction to a click on a button with text `t`: the first blank slot receives `t`. */
  function FillFirstBlank(stems: seq<string>, t: string): seq<string>
  {
    match First(stems, (s: string) => s == "") {
      case None => stems
      case Some(j) => stems[j := t]
    }
  }

  /** `click` on button `i`. */
  function ClickAt(d: Dom, i: nat): (r: Dom)
    requires i < |d.buttons|
  {
    d.(buttons := d.buttons[i := d.buttons[i].(selected := true)],
       stems := FillFirstBlank(d.stems, d.buttons[i].text),
       clicks := d.clicks + [i])
  }

  /** `send_keys(s)` on input `j`: the text is appended to its value. */
  function TypeAt(d: Dom, j: nat, s: string): (r: Dom)
    requires j < |d.inputs|
  {
    d.(inputs := d.inputs[j := d.inputs[j].(value := d.inputs[j].value + s)])
  }

  /** Two button lists that differ at most in which buttons are selected. */
  predicate SameOptions(a: seq<Button>, b: seq<Button>)
  {
    |a| == |b| && forall k :: 0 <= k < |a| ==> a[k].(selected := false) == b[k].(selected := false)
  }

  /** A click changes only the clicked button's selection, the slots and the log. */
  lemma ClickKeepsOptions(d: Dom, i: nat)
    requires i < |d.buttons|
    ensures SameOptions(d.buttons, ClickAt(d, i).buttons)
    ensures ClickAt(d, i).buttons[i].selected
    ensures forall k :: 0 <= k < |d.buttons| && k != i ==> ClickAt(d, i).buttons[k] == d.buttons[k]
    ensures ClickAt(d, i).inputs == d.inputs && ClickAt(d, i).textarea == d.textarea
  {
  }

  /** Clicking an unselected button leaves one fewer unselected button. */
  lemma {:induction false} UnselectedAfterSelect(bs: seq<Button>, i: nat)
    requires i < |bs|
    ensures Unselected(bs[i := bs[i].(selected := true)]) == Unselected(bs) - (if bs[i].selected then 0 else 1)
  {
    var bs' := bs[i := bs[i].(selected := true)];
    if i > 0 {
      UnselectedAfterSelect(bs[1..], i - 1);
      assert bs'[1..] == bs[1..][i - 1 := bs[i].(selected := true)];
    } else {
      assert bs'[1..] == bs[1..];
    }
  }

  /** The count of unselected buttons is zero exactly when none is left. */
  lemma {:induction false} UnselectedZero(bs: seq<Button>)
    ensures Unselected(bs) == 0 <==> FirstUnselected(bs).None?
  {
    if bs != [] {
      UnselectedZero(bs[1..]);
      if FirstUnselected(bs[1..]).Some? {
        var k := FirstUnselected(bs[1..]).value;
        assert !bs[k + 1].selected;
      }
    }
  }

  /**
   * `select_random_option` of the pool questions: click the first unselected
   * button, if any. So a fallback selects exactly one more button while some
   * are left, and is a no-op once none is.
   */
  function SelectRandom(d: Dom): (r: Dom)
    ensures SameOptions(d.buttons, r.buttons) && r.inputs == d.inputs && r.textarea == d.textarea
    ensures FirstUnselected(d.buttons).None? ==> r == d
    ensures FirstUnselected(d.buttons).Some? ==>
      && |r.clicks| == |d.clicks| + 1 && r.clicks[..|d.clicks|] == d.clicks
      && r.clicks[|d.clicks|] < |d.buttons| && !d.buttons[r.clicks[|d.clicks|]].selected
      && Unselected(r.buttons) == Unselected(d.buttons) - 1
  {
    match FirstUnselected(d.buttons) {
      case None => d
      case Some(i) =>
        UnselectedAfterSelect(d.buttons, i);
        ClickKeepsOptions(d, i);
        assert (d.clicks + [i])[..|d.clicks|] == d.clicks;
        ClickAt(d, i)
    }
  }

  /**
   * One token of a pool question: click the button the token's locator
   * found, or fall back to `select_random_option` when it found none.
   */
  function PoolStep(d: Dom, found: Option<nat>): (r: Dom)
    requires found.Some? ==> found.value < |d.buttons|
    ensures SameOptions(d.buttons, r.buttons) && r.inputs == d.inputs && r.textarea == d.textarea
  {
    match found {
      case Some(i) => ClickKeepsOptions(d, i); ClickAt(d, i)
      case None => SelectRandom(d)
    }
  }

  /**
   * A step whose locator only finds unselected buttons uses up exactly one
   * unselected button while any is left, and changes nothing once none is.
   */
  lemma FreshStep(d: Dom, found: Option<nat>)
    requires found.Some? ==> found.value < |d.buttons| && !d.buttons[found.value].selected
    ensures Unselected(d.buttons) == 0 ==> PoolStep(d, found) == d
    ensures Unselected(d.buttons) > 0 ==>
      && |PoolStep(d, found).clicks| == |d.clicks| + 1
      && PoolStep(d, found).clicks[..|d.clicks|] == d.clicks
      && Unselected(PoolStep(d, found).buttons) == Unselected(d.buttons) - 1
  {
    UnselectedZero(d.buttons);
    if found.Some? {
      assert First(d.buttons, (b: Button) => !b.selected).Some?;
      UnselectedAfterSelect(d.buttons, found.value);
      assert (d.clicks + [found.value])[..|d.clicks|] == d.clicks;
    }
  }

  /** The class a click gives a fill button, the only selection class the pages set. */
  const SelectedClass: string := "Question__fill-button_selected_yes"

  /** Whether button `b` carries class `cls`, as far as classes matter here. */
  predicate HasClass(b: Button, cls: string)
  {
    b.selected && cls == SelectedClass
  }

  /** The named locators of the pool questions' token loops. */
  datatype Locator =
    | UnselectedContaining          // an unselected option whose text contains the token
    | UnselectedContainingEitherCase  // ... containing the token upper-cased or lower-cased
    | Containing                    // any option whose text contains the token
    | ContainingWithout(cls: string)  // ... and which lacks class `cls`

  /** The first button `loc` finds for `token`. */
  function Locate(loc: Locator, bs: seq<Button>, token: string): (r: Option<nat>)
    ensures r.Some? ==> r.value < |bs|
  {
    match loc {
      case UnselectedContaining => FirstUnselectedContaining(bs, token)
      case UnselectedContainingEitherCase =>
        First(bs, (b: Button) => !b.selected
          && (Text.Contains(b.text, Text.Upper(token)) || Text.Contains(b.text, Text.Lower(token))))
      case Containing => FirstContaining(bs, token)
      case ContainingWithout(cls) => First(bs, (b: Button) => !HasClass(b, cls) && Text.Contains(b.text, token))
    }
  }

  /** A locator that only finds unselected buttons. */
  predicate Fresh(loc: Locator)
  {
    loc.UnselectedContaining? || loc.UnselectedContainingEitherCase?
  }

  /** What a fresh locator finds is unselected. */
  lemma LocateFresh(loc: Locator, bs: seq<Button>, token: string)
    requires Fresh(loc) && Locate(loc, bs, token).Some?
    ensures !bs[Locate(loc, bs, token).value].selected
  {
  }

  /** The `for value in values` loop of a pool question: one `PoolStep` per token. */
  function ApplyTokens(d: Dom, tokens: seq<string>, loc: Locator): (r: Dom)
    ensures SameOptions(d.buttons, r.buttons) && r.inputs == d.inputs && r.textarea == d.textarea
    decreases |tokens|
  {
    if tokens == [] then d
    else ApplyTokens(PoolStep(d, Locate(loc, d.buttons, tokens[0])), tokens[1..], loc)
  }

  /** The token loop at token `i`: one step, then the tokens after it. */
  lemma ApplyTokensFrom(d: Dom, tokens: seq<string>, i: nat, loc: Locator)
    requires i < |tokens|
    ensures ApplyTokens(d, tokens[i..], loc) == ApplyTokens(PoolStep(d, Locate(loc, d.buttons, tokens[i])), tokens[i + 1..], loc)
  {
    assert tokens[i..][0] == tokens[i] && tokens[i..][1..] == tokens[i + 1..];
  }

  function Min(a: nat, b: nat): nat
  {
    if a <= b then a else b
  }

  /**
   * With a fresh locator each token uses up one unselected button while any
   * is left, whether it matched or fell back, so the tokens select
   * `min(#tokens, #unselected)` buttons, one click each.
   */
  lemma {:induction false} ApplyTokensSelects(d: Dom, tokens: seq<string>, loc: Locator)
    requires Fresh(loc)
    ensures var r := ApplyTokens(d, tokens, loc);
      && |r.clicks| == |d.clicks| + Min(|tokens|, Unselected(d.buttons))
      && r.clicks[..|d.clicks|] == d.clicks
      && Unselected(r.buttons) == Unselected(d.buttons) - Min(|tokens|, Unselected(d.buttons))
    decreases |tokens|
  {
    if tokens != [] {
      var found := Locate(loc, d.buttons, tokens[0]);
      if found.Some? {
        LocateFresh(loc, d.buttons, tokens[0]);
      }
      FreshStep(d, found);
      var d1 := PoolStep(d, found);
      ApplyTokensSelects(d1, tokens[1..], loc);
      SelectsCombine(d, d1, ApplyTokens(d1, tokens[1..], loc), |tokens|);
    }
  }

  /** The counts of one fresh step followed by the counts of the remaining `n - 1` tokens. */
  lemma SelectsCombine(d: Dom, d1: Dom, r: Dom, n: nat)
    requires n > 0
    requires Unselected(d.buttons) == 0 ==> d1 == d
    requires Unselected(d.buttons) > 0 ==>
      && |d1.clicks| == |d.clicks| + 1 && d1.clicks[..|d.clicks|] == d.clicks
      && Unselected(d1.buttons) == Unselected(d.buttons) - 1
    requires |r.clicks| == |d1.clicks| + Min(n - 1, Unselected(d1.buttons))
    requires r.clicks[..|d1.clicks|] == d1.clicks
    requires Unselected(r.buttons) == Unselected(d1.buttons) - Min(n - 1, Unselected(d1.buttons))
    ensures |r.clicks| == |d.clicks| + Min(n, Unselected(d.buttons))
    ensures r.clicks[..|d.clicks|] == d.clicks
    ensures Unselected(r.buttons) == Unselected(d.buttons) - Min(n, Unselected(d.buttons))
  {
    if Unselected(d.buttons) > 0 {
      assert r.clicks[..|d.clicks|] == r.clicks[..|d1.clicks|][..|d.clicks|];
    }
  }

  /**
   * A pool answer with a fresh locator selects every button: the tokens'
   * clicks and the draining loop together click exactly as many times as
   * there were unselected buttons, and leave none unselected.
   */
  lemma AnswerSelectsAll(d: Dom, tokens: seq<string>, loc: Locator)
    requires Fresh(loc)
    ensures var r := DrainPool(ApplyTokens(d, tokens, loc));
      && |r.clicks| == |d.clicks| + Unselected(d.buttons)
      && forall k :: 0 <= k < |r.buttons| ==> r.buttons[k].selected
  {
    ApplyTokensSelects(d, tokens, loc);
    DrainPoolClicks(ApplyTokens(d, tokens, loc));
  }

  /** Two searches that test the same thing position by position find the same first match. */
  lemma FirstAgree<T, U>(a: seq<T>, p: T -> bool, b: seq<U>, q: U -> bool)
    requires |a| == |b| && forall k :: 0 <= k < |a| ==> p(a[k]) == q(b[k])
    ensures First(a, p) == First(b, q)
  {
    var x, y := First(a, p), First(b, q);
    if x.Some? && y.Some? {
      assert !(x.value < y.value) && !(y.value < x.value);
    }
  }

  /** Buttons that differ only in selection give the same text-based match. */
  lemma FirstContainingStable(a: seq<Button>, b: seq<Button>, t: string)
    requires SameOptions(a, b)
    ensures FirstContaining(a, t) == FirstContaining(b, t)
  {
    forall k | 0 <= k < |a| ensures a[k].text == b[k].text {
      assert a[k].(selected := false).text == b[k].(selected := false).text;
    }
    FirstAgree(a, (x: Button) => Text.Contains(x.text, t), b, (x: Button) => Text.Contains(x.text, t));
  }

  /** The number of blank answer slots. */
  function Blanks(stems: seq<string>): nat
  {
    if stems == [] then 0 else (if stems[0] == "" then 1 else 0) + Blanks(stems[1..])
  }

  /** `can_answer` of the button-pool gaps question: some `.Stem__answer` has empty text. */
  predicate HasBlank(stems: seq<string>)
  {
    exists k :: 0 <= k < |stems| && stems[k] == ""
  }

  lemma {:induction false} BlanksPositive(stems: seq<string>)
    ensures HasBlank(stems) <==> Blanks(stems) > 0
  {
    if stems != [] {
      BlanksPositive(stems[1..]);
      if HasBlank(stems[1..]) {
        var k :| 0 <= k < |stems[1..]| && stems[1..][k] == "";
        assert stems[k + 1] == "";
      }
      if HasBlank(stems) && stems[0] != "" {
        var k :| 0 <= k < |stems| && stems[k] == "";
        assert stems[1..][k - 1] == "";
      }
    }
  }

  lemma {:induction false} BlanksAfterSet(stems: seq<string>, j: nat, t: string)
    requires j < |stems| && stems[j] == "" && t != ""
    ensures Blanks(stems[j := t]) == Blanks(stems) - 1
  {
    if j > 0 {
      BlanksAfterSet(stems[1..], j - 1, t);
      assert stems[j := t][1..] == stems[1..][j - 1 := t];
    } else {
      assert stems[j := t][1..] == stems[1..];
    }
  }

  /** A click on a button with text fills one blank slot, if there is one. */
  lemma FillFirstBlankFills(stems: seq<string>, t: string)
    requires t != ""
    ensures Blanks(FillFirstBlank(stems, t)) == if HasBlank(stems) then Blanks(stems) - 1 else Blanks(stems)
  {
    BlanksPositive(stems);
    match First(stems, (s: string) => s == "") {
      case None =>
      case Some(j) => BlanksAfterSet(stems, j, t);
    }
  }

  /**
   * `while get_random_option(): select_random_option()`: select the first
   * unselected button until none is left.
   */
  function DrainPool(d: Dom): (r: Dom)
    ensures SameOptions(d.buttons, r.buttons)
    ensures forall k :: 0 <= k < |r.buttons| ==> r.buttons[k].selected
    ensures r.inputs == d.inputs && r.textarea == d.textarea
    decreases Unselected(d.buttons)
  {
    match FirstUnselected(d.buttons) {
      case None => d
      case Some(i) =>
        UnselectedAfterSelect(d.buttons, i);
        ClickKeepsOptions(d, i);
        DrainPool(ClickAt(d, i))
    }
  }

  /** Draining clicks only buttons that were unselected, and every one of them, each once. */
  lemma {:induction false} DrainPoolClicks(d: Dom)
    ensures |DrainPool(d).clicks| == |d.clicks| + Unselected(d.buttons)
    ensures DrainPool(d).clicks[..|d.clicks|] == d.clicks
    decreases Unselected(d.buttons)
  {
    match FirstUnselected(d.buttons) {
      case None =>
        UnselectedZero(d.buttons);
      case Some(i) =>
        UnselectedAfterSelect(d.buttons, i);
        var d' := ClickAt(d, i);
        DrainPoolClicks(d');
        assert d'.clicks[..|d.clicks|] == d.clicks;
        assert DrainPool(d).clicks[..|d'.clicks|] == d'.clicks;
    }
  }

  /** The page of one question element. */
  class Element {
    const text: string               // `element.text`
    const blockText: Option<string>  // text of `.Stem__answer-block-text`, if present
    const rendered: string           // what the variant's markup-to-text helper makes of the element
    const shown: Reveal
    var buttons: seq<Button>
    var inputs: seq<Input>
    var stems: seq<string>
    var textarea: Option<string>
    var clicks: seq<nat>
    var submits: nat                 // how many times the submit control was clicked

    constructor (text: string, blockText: Option<string>, rendered: string, shown: Reveal, dom: Dom)
      ensures this.text == text && this.blockText == blockText && this.rendered == rendered
      ensures this.shown == shown && State() == dom && submits == 0
    {
      this.text, this.blockText, this.rendered, this.shown := text, blockText, rendered, shown;
      buttons, inputs, stems, textarea, clicks := dom.buttons, dom.inputs, dom.stems, dom.textarea, dom.clicks;
      submits := 0;
    }

    function State(): Dom
      reads this
    {
      Dom(buttons, inputs, stems, textarea, clicks)
    }

    method Click(i: nat)
      requires i < |buttons|
      modifies this
      ensures State() == ClickAt(old(State()), i) && submits == old(submits)
    {
      var d := ClickAt(State(), i);
      buttons, stems, clicks := d.buttons, d.stems, d.clicks;
    }

    method SendKeys(j: nat, s: string)
      requires j < |inputs|
      modifies this
      ensures State() == TypeAt(old(State()), j, s) && submits == old(submits)
    {
      inputs := inputs[j := inputs[j].(value := inputs[j].value + s)];
    }

    method SendKeysToTextarea(s: string)
      requires textarea.Some?
      modifies this
      ensures State() == old(State()).(textarea := Some(old(textarea).value + s))
      ensures submits == old(submits)
    {
      textarea := Some(textarea.value + s);
    }

    method ClickSubmit()
      modifies this
      ensures State() == old(State()) && submits == old(submits) + 1
    {
      submits := submits + 1;
    }

    /** `select_random_option` of the pool questions. */
    method SelectRandomOption()
      modifies this
      ensures State() == SelectRandom(old(State())) && submits == old(submits)
    {
      var i := FirstUnselected(buttons);
      if i.Some? {
        Click(i.value);
      }
    }

    /**
     * The `for value in values` loop of a pool question: for each token,
     * click what the locator finds, or fall back to `select_random_option`.
     */
    method ClickTokens(tokens: seq<string>, loc: Locator)
      modifies this
      ensures State() == ApplyTokens(old(State()), tokens, loc) && submits == old(submits)
    {
      var i := 0;
      while i < |tokens|
        invariant 0 <= i <= |tokens|
        invariant ApplyTokens(State(), tokens[i..], loc) == ApplyTokens(old(State()), tokens, loc)
        invariant submits == old(submits)
      {
        ApplyTokensFrom(State(), tokens, i, loc);
        ClickToken(tokens[i], loc);
        i := i + 1;
      }
      assert tokens[i..] == [];
    }

    /** One pass of the token loop. */
    method ClickToken(token: string, loc: Locator)
      modifies this
      ensures State() == PoolStep(old(State()), Locate(loc, old(buttons), token)) && submits == old(submits)
    {
      var found := Locate(loc, buttons, token);
      if found.Some? {
        Click(found.value);
      } else {
        SelectRandomOption();
      }
    }

    /** `while get_random_option(): select_random_option()`. */
    method DrainUnselected()
      modifies this
      ensures State() == DrainPool(old(State())) && submits == old(submits)
    {
      while FirstUnselected(buttons).Some?
        invariant DrainPool(State()) == DrainPool(old(State()))
        invariant submits == old(submits)
        decreases Unselected(buttons)
      {
        UnselectedAfterSelect(buttons, FirstUnselected(buttons).value);
        SelectRandomOption();
      }
    }
  }
}
