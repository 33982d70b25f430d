/**
 * The question object itself (`src/classes/questions/question.py`): the
 * flags a new question starts with, the prompt each class renders, and the
 * classifier that builds a question from an element.
 */
module Engine {
  import opened Wrappers
  import Text
  import Page
  import QuestionBase
  import ShortText

  /** What the scrambled-letters prompt appends to the letters shown. */
  const LettersHint: string := " are the letters you can use, you NEED to use every letters"

  /**
   * `as_text` of each class: the element's text for the two multiple-choice
   * classes, the letters with the hint for scrambled letters, the answer
   * block's text for short answers, and the markup-to-text helper's output
   * for the rest.
   */
  function Prompt(v: QuestionBase.Variant, page: Page.Element): (r: Result<string, Page.Error>)
    ensures r.Err? <==> v.ShortText? && page.blockText.None?
    ensures r.Err? ==> r.error == Page.NotFound
    ensures (v.MultiChoiceText? || v.MultiChoiceImage?) ==> r == Ok(page.text)
    ensures v.ScrambledLetters? ==>
      r.Ok? && Text.StartsWith(r.value, page.text) && r.value[|page.text|..] == LettersHint
    ensures v.ShortText? && r.Ok? ==> r.value == page.blockText.value
    ensures (v.ScrambledSentences? || v.MatchText? || v.FillGapsText? || v.FillGapsBlock?) ==> r == Ok(page.rendered)
  {
    match v {
      case MultiChoiceText => Ok(page.text)
      case MultiChoiceImage => Ok(page.text)
      case ScrambledLetters =>
        var s := page.text + LettersHint;
        assert s[..|page.text|] == page.text && s[|page.text|..] == LettersHint;
        Ok(s)
      case ShortText => ShortText.Prompt(page.blockText)
      case _ => Ok(page.rendered)
    }
  }

  /** A question built by the classifier, with the flags the solving session reads and sets. */
  class Question {
    const tag: QuestionBase.Tag
    const page: Page.Element
    var questionStr: string
    var correctAnswer: Option<seq<string>>
    var skipCompletion: bool
    var cacheUsed: bool
    var firstUse: bool

    /**
     * `__init__`: no prompt and no known answer yet, not from the cache, first
     * use; only the image question starts with completion skipped.
     */
    constructor (tag: QuestionBase.Tag, page: Page.Element)
      ensures this.tag == tag && this.page == page
      ensures questionStr == "" && correctAnswer == None
      ensures skipCompletion <==> tag.variant == QuestionBase.MultiChoiceImage
      ensures !cacheUsed && firstUse
    {
      this.tag, this.page := tag, page;
      questionStr, correctAnswer := "", None;
      skipCompletion := tag.variant == QuestionBase.MultiChoiceImage;
      cacheUsed, firstUse := false, true;
    }

    /** `as_text`: render the prompt and keep it in `question_str`. */
    method AsText() returns (r: Result<string, Page.Error>)
      modifies this
      ensures r == Prompt(tag.variant, page)
      ensures questionStr == if r.Ok? then r.value else old(questionStr)
      ensures correctAnswer == old(correctAnswer) && skipCompletion == old(skipCompletion)
      ensures cacheUsed == old(cacheUsed) && firstUse == old(firstUse)
    {
      r := Prompt(tag.variant, page);
      if r.Ok? {
        questionStr := r.value;
      }
    }
  }

  /**
   * `from_element`: classify the element's `class` attribute and build the
   * question, or nothing when no rule applies.
   */
  method FromElement(classAttr: string, page: Page.Element) returns (q: Option<Question>)
    ensures q.None? <==> QuestionBase.FromClassAttribute(classAttr).None?
    ensures q.Some? ==>
      && fresh(q.value)
      && q.value.tag == QuestionBase.FromClassAttribute(classAttr).value
      && q.value.page == page
      && q.value.questionStr == "" && q.value.correctAnswer == None && q.value.firstUse
      && (q.value.skipCompletion <==> q.value.tag.variant == QuestionBase.MultiChoiceImage)
      && !q.value.cacheUsed
  {
    var tag := QuestionBase.FromClassAttribute(classAttr);
    if tag.None? {
      return None;
    }
    var question := new Question(tag.value, page);
    q := Some(question);
  }
}
