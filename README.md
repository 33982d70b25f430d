# go-fluent-automation quiz engine, modelled in Dafny

go-fluent-automation answers the quizzes of an online language course by
driving a browser. This project models the quiz-question engine and the
small pure helpers around it.

- **Classifier.** The question classifier maps the class tokens of a quiz
  element to one of eight question kinds. The newer table and the older
  two-kind table are both modelled (`QuestionBase`, `OldQuestion`, `Engine`).
- **Submit rule.** The shared submit step clicks the submit control once.
  It returns the answer the page reveals when that answer is non-empty, and
  the submitted tokens otherwise (`QuestionBase.SubmitRule`,
  `QuestionBase.SubmitAndCheck`).
- **Answering.** Each question kind has its own way of applying an answer
  to the page:
  - option clicks with a fallback;
  - pool questions whose token loop is followed by a drain loop;
  - typed gap inputs, with the filler `"abcdef"`;
  - a single typed token;
  - the `SKIP` sentinel of picture questions;
  - the splitting and upper-casing of scrambled letters.
- **Answer decoders.** These read the right answer the site reveals:
  - the greedy prefix decomposition of a scrambled sentence;
  - the `", "` split of fill-in-the-gaps blocks;
  - the base-URL strip of picture sources;
  - the character split of scrambled letters.
- **Helpers.** The `.env` key store (parser, serialiser, get, set and
  remove), the lesson section classifier and vocabulary partitioner, the
  lesson Markdown renderer, and the list and string helpers.

The browser page is the class `Page.Element`. Its mutable fields are:

- the option buttons (text, image source, selected, marked correct);
- the gap inputs (value attribute and text content);
- the answer-slot texts;
- the optional textarea;
- the log of clicked buttons;
- the number of submissions.

Each method that changes the page is proved against a function on a
snapshot of these fields (`Page.Dom`). The properties the source promises
are proved as lemmas about those functions.

The page's Selenium operations are modelled as follows:

- `find_element` is the first match in document order.
- `click` marks the button selected, and the site drops the button's text
  into the first blank answer slot.
- `send_keys` appends to the input's value.

What the site reveals after submission is constant page data: the green
correction text, the correct marks, the letters block, the sentence choices
and the match answers.

Where the code and its description differ, the model follows the code.

- **Wrong base class.** The newer classifier builds kinds whose classes
  inherit the older base class, which has no submit step. The model gives
  them all the newer base's submit step and flags.
- **Constructor arity.** The multiple-choice text constructor takes one
  argument fewer than the classifier passes. The classifier's result is
  modelled as a tag holding the kind and the multiple flag.
- **Match-text locator.** The match-text token locator excludes a class
  name the page never sets. A token can therefore click a button that is
  already selected; `MatchText.TokenReselects` shows this.
- **Fill-gaps-text emptiness tests.** The fill-in-the-gaps text token loop
  looks for an input with empty text content, but its drain looks for an
  empty value attribute. Both tests are kept. As a result, every token goes
  into the same input (`FillGapsText.TypeTokensOneInput`).
- **Fill-gaps-block drain.** The fill-in-the-gaps block drain loops while
  a blank slot remains, even when no button is left to click. The model
  reports that case as the error `Spins` instead of looping forever.

## Model

| member | source | states |
|---|---|---|
| Lists.Filter | src/utils/lists.py:7-8 | `_f` never grows its input and keeps only elements of the input that satisfy the predicate |
| Lists.FilterKeepsAll | src/utils/lists.py:7-8 | every element of the input that satisfies the predicate is kept |
| Lists.FilterMembership | src/utils/lists.py:7-8 | an element is in the output exactly when it is in the input and satisfies the predicate |
| Lists.FilterIsSubsequence | src/utils/lists.py:7-8 | the output is a subsequence of the input, so relative order is preserved |
| Lists.FilterAppend | src/utils/lists.py:7-8 | filtering a concatenation is the concatenation of the filtered parts |
| Lists.FilterPartition | src/utils/lists.py:7-8 | the kept elements plus the rejected elements number exactly the input's length |
| Lists.Map | src/utils/lists.py:11-15 | `_m` keeps the length and element i of the output is the function applied to element i |
| Lists.MapAppend | src/utils/lists.py:11-15 | mapping a concatenation is the concatenation of the mapped parts |
| Lists.All | src/classes/questions/question.py:79 | `all` holds exactly when every element is true |
| Strings.RemoveQuote | src/utils/strings.py:4-6 | the result has no double quote and is no longer than the input |
| Strings.RemoveQuoteKeepsOthers | src/utils/strings.py:6 | the result is exactly the non-quote characters of the input, in order |
| Strings.RemoveQuoteNoQuote | src/utils/strings.py:6 | an input without a double quote comes back unchanged |
| Strings.RemoveQuoteIdempotent | src/utils/strings.py:6 | removing quotes twice is the same as once |
| Strings.RemoveSurroundingQuotes | src/utils/strings.py:6 | a quote-free value wrapped in double quotes comes back as the value |
| Strings.RemoveQuoteAppend | src/utils/strings.py:6 | quote removal distributes over concatenation |
| Text.StartsWithPrefix | src/classes/questions/scrambled_sentences_question.py:46 | `startswith` holds exactly when the argument is a prefix |
| Text.ContainsAt | src/classes/questions/multi_choice_text_question.py:42 | XPath `contains` holds exactly when the needle occurs at some position |
| Text.StripStart | src/utils/parser.py:73 | left-stripping never lengthens a string |
| Text.StripStartMeans | src/utils/parser.py:73 | left-strip drops exactly the leading whitespace, and the result does not start with whitespace |
| Text.StripEnd | src/utils/parser.py:73 | right-stripping never lengthens a string |
| Text.StripEndMeans | src/utils/parser.py:73 | right-strip drops exactly the trailing whitespace, and the result does not end with whitespace |
| Text.Strip | src/classes/questions/scrambled_sentences_question.py:48 | `str.strip()`; its meaning is stated by `StripSlice`, `StripIdempotent` and `StripTrimmed` |
| Text.StripSlice | src/classes/questions/scrambled_sentences_question.py:48 | `strip` returns a slice with only whitespace cut at both ends and no whitespace at either end |
| Text.StripIdempotent | src/classes/questions/scrambled_sentences_question.py:48 | stripping twice is the same as once |
| Text.StripTrimmed | src/classes/questions/scrambled_sentences_question.py:48 | a trimmed text, alone or after one space, strips to itself |
| Text.Split | src/classes/dotenv.py:21 | `split` always returns at least one piece |
| Text.SplitFrom | src/classes/dotenv.py:21 | the split loop returns at least one piece |
| Text.Join | src/classes/dotenv.py:37 | `sep.join(parts)`; that splitting undoes it, and it undoes splitting, is stated by `JoinSplit` and `SplitJoin` |
| Text.JoinSplitFrom | src/classes/dotenv.py:21 | joining the pieces of the split loop gives back what it consumed |
| Text.JoinSplit | src/classes/dotenv.py:21 | joining the pieces of `split` with the separator gives back the string |
| Text.SplitFromSkips | src/classes/dotenv.py:22 | splitting on a character skips over text that does not contain that character |
| Text.SplitWithout | src/classes/dotenv.py:22 | a string without the separator splits into itself alone |
| Text.SplitJoin | src/classes/dotenv.py:21-27 | splitting the join of separator-free pieces gives back the pieces |
| Text.SplitCount | src/classes/dotenv.py:27 | `split(c)` gives one piece more than there are `c` in the text |
| Text.SplitFromCount | src/classes/dotenv.py:27 | the split loop gives one piece more than there are separators in what it reads |
| Text.SplitFirstPiece | src/classes/dotenv.py:22 | the first piece of `split(c)` is a prefix without `c`, and is the whole string when `c` is absent |
| Text.FirstPieceFrom | src/classes/dotenv.py:22 | the first piece of the split loop is a separator-free prefix of what it reads |
| Text.Upper | src/classes/q/scrambled_letters_question.py:54 | `upper` keeps the length |
| Text.Lower | src/classes/q/scrambled_letters_question.py:61 | `lower` keeps the length |
| Text.LowerUpper | src/classes/q/scrambled_letters_question.py:61 | lower-casing leaves no ASCII capital, and upper- then lower-casing (or the reverse) equals lower-casing (upper-casing) alone, so the either-case locator tests one text in two cases |
| Text.UpperIdempotent | src/classes/q/scrambled_letters_question.py:54 | upper-casing twice is the same as once, and an upper-cased string has no lower-case letter |
| Text.Chars | src/classes/q/scrambled_letters_question.py:52 | `list(s)` has one single-character string per character, in order |
| Text.JoinChars | src/classes/q/scrambled_letters_question.py:52 | joining the characters of a string gives it back |
| Page.First | src/classes/questions/multi_choice_text_question.py:45 | `find_element` returns the first match in document order, and no match when none satisfies the locator |
| Page.FirstContaining | src/classes/questions/multi_choice_text_question.py:42-45 | the XPath `contains(text(), value)` locator: by `Page.First`'s contract, the first button whose text contains the token, and none only when no button does; `FirstContainingStable` says clicks do not move it |
| Page.FirstUnselected | src/classes/q/fill_gaps_block_question.py:42-43 | the locator that excludes selected buttons: by `Page.First`'s contract, the first unselected button, and none only when all are selected; `UnselectedZero` ties it to the count |
| Page.FirstUnselectedContaining | src/classes/question.py:132-141 | the unselected-box letter locator: by `Page.First`'s contract, the first unselected button containing the token, and none only when there is no such button; `LetterLoopIsPool` uses it |
| Page.FirstCorrect | src/classes/questions/multi_choice_text_question.py:22-26 | the `Question__option_correct_yes` selector: by `Page.First`'s contract, the first button marked correct, and none only when no button is |
| Page.ClickAt | src/classes/questions/multi_choice_text_question.py:47 | a click on one button; its effect is stated by `ClickKeepsOptions` |
| Page.ClickKeepsOptions | src/classes/questions/multi_choice_text_question.py:47 | a click selects that button, leaves every other button and all inputs alone, and changes no option's text or source |
| Page.UnselectedAfterSelect | src/classes/q/match_text_question.py:35-44 | selecting an unselected button lowers the unselected count by one, and selecting a selected one changes nothing |
| Page.UnselectedZero | src/classes/q/match_text_question.py:27-33 | there is no unselected option exactly when the unselected count is zero |
| Page.SelectRandom | src/classes/questions/scrambled_sentences_question.py:67-76 | `select_random_option` is a no-op without unselected options, and otherwise clicks one unselected option, lowering the count by one |
| Page.PoolStep | src/classes/questions/scrambled_sentences_question.py:79-96 | one token step changes only which options are selected and what the slots hold |
| Page.FreshStep | src/classes/questions/scrambled_sentences_question.py:79-96 | a token step that finds an unselected option or falls back makes exactly one click while any option is unselected, and is a no-op otherwise |
| Page.Locate | src/classes/questions/scrambled_sentences_question.py:82-90 | a locator finds an index within the option list |
| Page.LocateFresh | src/classes/questions/scrambled_sentences_question.py:84-85 | the unselected-box locators only find unselected options |
| Page.ApplyTokens | src/classes/questions/scrambled_sentences_question.py:79-96 | the token loop changes only which options are selected and what the slots hold |
| Page.ApplyTokensSelects | src/classes/questions/scrambled_sentences_question.py:79-96 | with an unselected-only locator, the token loop clicks min(tokens, unselected options) times and lowers the unselected count by that much |
| Page.ApplyTokensFrom | src/classes/questions/scrambled_sentences_question.py:79-96 | at token `i` the loop takes one `PoolStep` on what the locator finds and goes on with the next token |
| Page.AnswerSelectsAll | src/classes/questions/scrambled_sentences_question.py:79-99 | token loop plus drain click once per option that was unselected, and leave every option selected |
| Page.FirstContainingStable | src/classes/questions/multi_choice_text_question.py:42-45 | selection does not change which option a text-containment locator finds |
| Page.BlanksPositive | src/classes/q/fill_gaps_block_question.py:31-37 | some slot is blank exactly when the blank count is positive |
| Page.BlanksAfterSet | src/classes/q/fill_gaps_block_question.py:73-74 | filling one blank slot with text lowers the blank count by one |
| Page.FillFirstBlank | src/classes/q/fill_gaps_block_question.py:73-74 | how the page reacts to a click on a filler button (an assumption about the site, not code of this repository); `FillFirstBlankFills` states that it fills exactly one blank slot when there is one |
| Page.FillFirstBlankFills | src/classes/q/fill_gaps_block_question.py:73-74 | a click with a non-empty text fills one blank slot if there is one |
| Page.DrainPool | src/classes/questions/scrambled_sentences_question.py:98-99 | the drain ends with every option selected, changing nothing but selection and slots |
| Page.DrainPoolClicks | src/classes/questions/scrambled_sentences_question.py:98-99 | the drain makes exactly one click per unselected option and keeps the earlier clicks |
| Page.Element.constructor | src/classes/questions/question.py:19 | a page element holds the given texts, revealed data and controls, and has not been submitted |
| Page.Element.Click | src/classes/questions/multi_choice_text_question.py:47 | `click` moves the page to the clicked state and does not submit |
| Page.TypeAt | src/classes/questions/fill_gaps_text_question.py:66 | `send_keys` on one input; `Page.Element.SendKeys` performs it, and `TypeTokensOneInput` and `DrainBlanksFills` state where the text lands |
| Page.Element.SendKeys | src/classes/questions/fill_gaps_text_question.py:66 | `send_keys` appends to the input's value and changes nothing else |
| Page.Element.SendKeysToTextarea | src/classes/q/short_text_question.py:31-34 | `send_keys` on the textarea appends to its value and changes nothing else |
| Page.Element.ClickSubmit | src/classes/questions/question.py:40-41 | the submit click adds one submission and changes no control |
| Page.Element.SelectRandomOption | src/classes/questions/scrambled_sentences_question.py:67-76 | the page moves as `SelectRandom` says |
| Page.Element.ClickTokens | src/classes/questions/scrambled_sentences_question.py:79-96 | the token loop moves the page as `ApplyTokens` says, without submitting |
| Page.Element.ClickToken | src/classes/questions/scrambled_sentences_question.py:80-96 | one pass moves the page by one `PoolStep` on what the locator finds, without submitting |
| Page.Element.DrainUnselected | src/classes/questions/scrambled_sentences_question.py:98-99 | the drain loop moves the page as `DrainPool` says, without submitting |
| QuestionBase.HasAllClasses | src/classes/questions/question.py:77-79 | the local `has_all_classes` test; what it means is stated by `HasAllClassesMeans` |
| QuestionBase.HasAllClassesMeans | src/classes/questions/question.py:77-79 | `has_all_classes`, the `all` of the mapped membership flags, holds exactly when every required class is one of the element's tokens |
| QuestionBase.HasBoth | src/classes/questions/question.py:77-79 | a two-class test holds exactly when both tokens are present |
| QuestionBase.AllTests | src/classes/questions/question.py:86-113 | each of the ten class tests holds exactly when both of its tokens are present |
| QuestionBase.FirstRuleFrom | src/classes/questions/question.py:86-115 | the search returns the first rule of the table that matches, or none when no later rule matches |
| QuestionBase.Classify | src/classes/questions/question.py:86-115 | the `if` chain of `from_element`; its meaning is stated by `ClassifyIsTable`, `ClassifyFirstMatch`, `ClassifyMultiChoiceText`, `ClassifyExactTokens` and the `ClassifyRow…` lemmas |
| QuestionBase.FromClassAttribute | src/classes/questions/question.py:75-115 | the `class` attribute split on spaces, then classified; `Engine.FromElement` builds a question exactly when it gives a kind |
| QuestionBase.ClassifyIsTable | src/classes/questions/question.py:86-115 | the `if` chain of `from_element` is the ordered rule table, with the multiple flag taken at line 91 |
| QuestionBase.TableFromZero | src/classes/questions/question.py:86-99 | the first five rules are tried in order, before the rest |
| QuestionBase.TableFromFive | src/classes/questions/question.py:101-116 | the last five rules are tried in order, and no match gives none |
| QuestionBase.ClassifyFirstMatch | src/classes/questions/question.py:86-115 | no kind exactly when no rule matches; otherwise the kind of the first matching rule |
| QuestionBase.ClassifyMultiChoiceText | src/classes/questions/question.py:86-92 | multiple-choice text exactly for the three listed token pairs; the multiple flag is true exactly when the text-multiple token is present, and false for every other kind |
| QuestionBase.ClassifyRowMultipleChoiceText | src/classes/questions/question.py:86-93 | multiple choice with text output is the multiple-choice text kind, one option only |
| QuestionBase.ClassifyRowMultipleChoiceTextMultiple | src/classes/questions/question.py:86-93 | multiple choice with text-multiple output is the multiple-choice text kind with several options allowed |
| QuestionBase.ClassifyRowTrueOrFalse | src/classes/questions/question.py:86-93 | true-or-false with text output is the multiple-choice text kind, one option only |
| QuestionBase.ClassifyRowMultipleChoiceImage | src/classes/questions/question.py:113-114 | multiple choice with picture output is the multiple-choice image kind |
| QuestionBase.ClassifyRowScrambledLetters | src/classes/questions/question.py:95-96 | scrambled letters with text output is the scrambled-letters kind |
| QuestionBase.ClassifyRowScrambledSentence | src/classes/questions/question.py:98-99 | scrambled sentence with text-blocks output is the scrambled-sentences kind |
| QuestionBase.ClassifyRowMatchText | src/classes/questions/question.py:101-102 | match text with text-blocks output is the match-text kind |
| QuestionBase.ClassifyRowFillGapsBlock | src/classes/questions/question.py:107-108 | fill-in-the-gaps with text-blocks output is the fill-gaps block kind |
| QuestionBase.ClassifyRowFillGapsText | src/classes/questions/question.py:104-105 | fill-in-the-gaps with text output is the fill-gaps text kind |
| QuestionBase.ClassifyRowShortAnswer | src/classes/questions/question.py:110-111 | short answer with text output is the short-text kind |
| QuestionBase.ClassifyExactTokens | src/classes/questions/question.py:75-113 | tokens are compared exactly, so text-multiple is not text; and the first rule wins when text and picture are both present |
| QuestionBase.SubmitRule | src/classes/questions/question.py:45-52 | the result is the submitted tokens or the revealed answer, and is empty only if the tokens were |
| QuestionBase.SubmitRuleFallsBack | src/classes/questions/question.py:52 | no revealed answer and an empty revealed answer both give back the submitted tokens |
| QuestionBase.SubmitRuleTrusts | src/classes/questions/question.py:52 | a non-empty revealed answer is returned whatever was submitted |
| QuestionBase.SubmitAndCheck | src/classes/questions/question.py:38-52 | submit clicks exactly once, changes no control, does not retry, and returns the submit rule's result |
| QuestionBase.GreenAnswer | src/classes/questions/fill_gaps_text_question.py:20-27 | the revealed answer is the green text as a one-element list, and none when the green text is empty |
| QuestionBase.SubmitGreen | src/classes/q/short_text_question.py:19-36 | with a green-text answer, submit returns `[green]` when it is non-empty, and the tokens otherwise |
| MultiChoiceText.CorrectAnswer | src/classes/questions/multi_choice_text_question.py:20-30 | none exactly when no option is marked correct; otherwise the text of a marked option, as a one-element list |
| MultiChoiceText.Kept | src/classes/questions/multi_choice_text_question.py:37-38 | all tokens when the output is multiple; otherwise only the first, if any |
| MultiChoiceText.Pick | src/classes/questions/multi_choice_text_question.py:40-55 | the option a token clicks is a real option whenever there is one |
| MultiChoiceText.PickChoosesOption | src/classes/questions/multi_choice_text_question.py:42-55 | a token clicks the first option containing it, and the first option when none does |
| MultiChoiceText.PicksStable | src/classes/questions/multi_choice_text_question.py:40-55 | which options the tokens pick does not depend on what is selected |
| MultiChoiceText.PicksAfterClick | src/classes/questions/multi_choice_text_question.py:40-55 | a click does not change what later tokens pick |
| MultiChoiceText.ClickTokens | src/classes/questions/multi_choice_text_question.py:40-55 | the answer loop on the page state; its meaning is stated by `ClickTokensClicks` and `ClickTokensFrom` |
| MultiChoiceText.ClickTokensClicks | src/classes/questions/multi_choice_text_question.py:40-55 | with at least one option, the loop never fails and each token makes exactly one click, on its pick |
| MultiChoiceText.ClickTokensFrom | src/classes/questions/multi_choice_text_question.py:40-55 | at token `i` the loop clicks that token's pick and goes on with the next token |
| MultiChoiceText.FallbackTakesFirst | src/classes/questions/multi_choice_text_question.py:49-55 | a token no option contains clicks the first option |
| MultiChoiceText.Answer | src/classes/questions/multi_choice_text_question.py:36-57 | the loop over the kept tokens fails only with not-found, leaving the page unsubmitted; otherwise it submits once and returns the submit rule on the kept tokens |
| MultiChoiceText.ClickOptions | src/classes/questions/multi_choice_text_question.py:40-55 | the loop ends as `ClickTokens` says: every token clicked when it succeeds, nothing changed when it fails, never a submit |
| MultiChoiceText.ClickToken | src/classes/questions/multi_choice_text_question.py:41-55 | one pass clicks the token's pick exactly when there is an option, and otherwise changes nothing |
| MultiChoiceImage.StripBase | src/classes/questions/multi_choice_image_question.py:29-34 | the base-path slicing of `src`; `StripBaseRoundTrip` states that it cuts the base exactly when it is a prefix and undoes prefixing |
| MultiChoiceImage.StripBaseRoundTrip | src/classes/questions/multi_choice_image_question.py:29-34 | the base URL is cut off exactly when it is a prefix; otherwise the source is kept |
| MultiChoiceImage.CorrectAnswer | src/classes/questions/multi_choice_image_question.py:20-37 | none exactly when no option is marked correct; otherwise the stripped source of a marked option |
| MultiChoiceImage.FirstWithSrc | src/classes/questions/multi_choice_image_question.py:68-71 | the located option's image source contains the token, and no option's does when nothing is found |
| MultiChoiceImage.Select | src/classes/questions/multi_choice_image_question.py:62-74 | no tokens is an index error; any other failure is not-found on a non-`SKIP` token; success changes only selection and makes at most one click |
| MultiChoiceImage.SelectFirstTokenOnly | src/classes/questions/multi_choice_image_question.py:63 | only the first token drives the selection |
| MultiChoiceImage.SkipTakesFirst | src/classes/questions/multi_choice_image_question.py:43-66 | `SKIP` clicks the first option, selected or not, and does nothing without options |
| MultiChoiceImage.SelectClicksMatch | src/classes/questions/multi_choice_image_question.py:67-74 | a non-`SKIP` token succeeds exactly when some option's source contains it, and then clicks the first such option |
| MultiChoiceImage.Answer | src/classes/questions/multi_choice_image_question.py:62-76 | the answer fails exactly when the selection does, without submitting; otherwise it submits once and returns the submit rule on the full token list |
| ScrambledSentences.FirstPrefix | src/classes/questions/scrambled_sentences_question.py:45-49 | the choice found is a prefix of the remaining answer |
| ScrambledSentences.FirstPrefixMeans | src/classes/questions/scrambled_sentences_question.py:45-49 | no earlier choice is a prefix, and none is when nothing is found |
| ScrambledSentences.FirstPrefixIs | src/classes/questions/scrambled_sentences_question.py:45-49 | the first choice that is a prefix is the one found |
| ScrambledSentences.FirstPrefixNone | src/classes/questions/scrambled_sentences_question.py:45-53 | when no choice is a prefix, nothing is found |
| ScrambledSentences.DecodeFrom | src/classes/questions/scrambled_sentences_question.py:42-57 | the decoding rounds; their meaning is stated by `DecodeSound`, `DecodeFails`, `DecodeUnfold` and `DecodeJoined` |
| ScrambledSentences.DecodeSound | src/classes/questions/scrambled_sentences_question.py:42-57 | a decode of n rounds has n non-empty chunks, each a choice, each a prefix of what was left, with the rest stripped before the next |
| ScrambledSentences.CorrectAnswer | src/classes/questions/scrambled_sentences_question.py:24-37 | no green text or no choices gives none |
| ScrambledSentences.CorrectAnswerSound | src/classes/questions/scrambled_sentences_question.py:24-57 | a decoded answer has exactly as many chunks as there are choices, each a non-empty choice, reading the green text from the left |
| ScrambledSentences.DecodeFails | src/classes/questions/scrambled_sentences_question.py:51-53 | a round where no choice is a prefix, or where the prefix found is the empty (falsy) choice, gives none |
| ScrambledSentences.DecodeUnfold | src/classes/questions/scrambled_sentences_question.py:42-55 | a round takes the first prefix choice, then decodes the stripped rest |
| ScrambledSentences.DecodeStep | src/classes/questions/scrambled_sentences_question.py:42-55 | appending a round's choice to the result so far keeps the decode's outcome (the loop invariant) |
| ScrambledSentences.FindChoice | src/classes/questions/scrambled_sentences_question.py:45-49 | the inner `for` loop finds the first choice that is a prefix |
| ScrambledSentences.GetCorrectAnswer | src/classes/questions/scrambled_sentences_question.py:24-57 | the `while` loop computes exactly the decode |
| ScrambledSentences.DecodeJoined | src/classes/questions/scrambled_sentences_question.py:24-57 | for whitespace-free, prefix-free choices, a green text made of one chunk per choice joined with spaces decodes back to those chunks |
| ScrambledSentences.JoinedRound | src/classes/questions/scrambled_sentences_question.py:42-55 | on joined words the first round takes the first word and leaves the other words joined |
| ScrambledSentences.DecodeRound | src/classes/questions/scrambled_sentences_question.py:42-55 | a round that takes a chunk, followed by a rest that decodes, decodes to the chunk then the rest |
| ScrambledSentences.DecodeJoinedFrom | src/classes/questions/scrambled_sentences_question.py:42-57 | the decode inverts joining with spaces, round by round |
| ScrambledSentences.FirstPrefixOfJoined | src/classes/questions/scrambled_sentences_question.py:45-49 | on such a joined text, the choice found is the first chunk |
| ScrambledSentences.StripAfterFirst | src/classes/questions/scrambled_sentences_question.py:48 | cutting the first chunk and stripping leaves the join of the other chunks |
| ScrambledSentences.TrimmedJoin | src/classes/questions/scrambled_sentences_question.py:48 | a join of words neither starts nor ends with whitespace |
| ScrambledSentences.Answer | src/classes/questions/scrambled_sentences_question.py:78-101 | the token loop with fallback, then the drain, leaves every option selected; it submits once and returns the submit rule on the original tokens |
| ScrambledLetters.CorrectAnswer | src/classes/q/scrambled_letters_question.py:19-29 | none exactly when the block is absent; otherwise one string per character that joins back to the block text |
| ScrambledLetters.Prepare | src/classes/q/scrambled_letters_question.py:51-54 | no tokens is an index error; a first token longer than one character becomes its upper-cased characters, dropping the other tokens; otherwise every token is upper-cased |
| ScrambledLetters.PrepareUpper | src/classes/q/scrambled_letters_question.py:54 | every prepared token is already upper-case |
| ScrambledLetters.LocateEitherCase | src/classes/q/scrambled_letters_question.py:58-63 | a token finds a letter exactly when some unselected letter contains it upper-cased or lower-cased |
| ScrambledLetters.Answer | src/classes/q/scrambled_letters_question.py:50-77 | no tokens is an index error before any click; otherwise the token loop and drain leave every letter selected, submit once, and return the submit rule on the prepared tokens |
| MatchText.LocatorIgnoresSelection | src/classes/q/match_text_question.py:50 | the token locator excludes a class the page never sets, so it finds the first button containing the token, selected or not |
| MatchText.TokenReselects | src/classes/q/match_text_question.py:47-55 | a token matching an already-selected button clicks it again and leaves the unselected count unchanged |
| MatchText.RandomOption | src/classes/q/match_text_question.py:27-33 | `get_random_option` is the first button not marked selected |
| MatchText.Answer | src/classes/q/match_text_question.py:46-65 | the token loop with fallback, then the drain, leaves every button selected; it submits once and returns the submit rule on the original tokens |
| FillGapsBlock.CorrectAnswer | src/classes/q/fill_gaps_block_question.py:23-29 | none exactly when the green text is empty; otherwise a non-empty list that joins with `", "` back to the green text |
| FillGapsBlock.CanAnswer | src/classes/q/fill_gaps_block_question.py:31-37 | `can_answer` holds exactly when some answer slot is blank |
| FillGapsBlock.DrainSlots | src/classes/q/fill_gaps_block_question.py:73-74 | a drain that ends leaves no blank slot and changes only selection; one that cannot end is reported as `Spins` |
| FillGapsBlock.DrainSlotsEnds | src/classes/q/fill_gaps_block_question.py:73-74 | the drain ends when every unselected button has text and there are no more blank slots than unselected buttons |
| FillGapsBlock.DrainSlotsSpins | src/classes/q/fill_gaps_block_question.py:47-56 | a blank slot with no unselected button left makes the drain spin |
| FillGapsBlock.Answer | src/classes/q/fill_gaps_block_question.py:58-76 | the token loop clicks any button containing the token, selected or not; the answer succeeds exactly when the drain ends, and then submits once and returns the submit rule on the original tokens |
| FillGapsText.BlankValue | src/classes/questions/fill_gaps_text_question.py:40 | the filter test `get_attribute('value') == ''`; `RandomInputIsFilterHead`, `CanAnswerMeans` and `DrainBlanksFills` state what it selects |
| FillGapsText.EmptyContent | src/classes/questions/fill_gaps_text_question.py:63-64 | the `.=""` locator, which tests text content and not the value attribute; `TypeTokensOneInput` states that every token lands in the same input |
| FillGapsText.Values | src/classes/questions/fill_gaps_text_question.py:36-40 | the value attributes of the inputs, one per input |
| FillGapsText.RandomInput | src/classes/questions/fill_gaps_text_question.py:33-47 | the input found has an empty value attribute |
| FillGapsText.RandomInputIsFilterHead | src/classes/questions/fill_gaps_text_question.py:39-45 | it is the head of the inputs filtered on an empty value, and none exactly when that filter is empty |
| FillGapsText.CanAnswerMeans | src/classes/questions/fill_gaps_text_question.py:29-31 | `can_answer` holds exactly when some input's value is empty |
| FillGapsText.TypeTokens | src/classes/questions/fill_gaps_text_question.py:61-72 | the token loop only changes input values |
| FillGapsText.TypeTokensOneInput | src/classes/questions/fill_gaps_text_question.py:61-72 | the per-token locator tests text content, which typing does not change, so all tokens go concatenated into the first input with empty content; with no such input the loop stops at once |
| FillGapsText.DrainBlanks | src/classes/questions/fill_gaps_text_question.py:74-75 | the drain only changes input values |
| FillGapsText.DrainBlanksFills | src/classes/questions/fill_gaps_text_question.py:49-75 | the drain types `"abcdef"` into exactly the inputs whose value is empty, and afterwards no input's value is empty |
| FillGapsText.Answer | src/classes/questions/fill_gaps_text_question.py:60-77 | the page ends as the token loop then the drain say; it submits once and returns the green-text submit rule on the full tokens |
| FillGapsTextSingle.TypeFirst | src/classes/q/fill_gaps_text_question.py:29-35 | no tokens is an index error; no input is not-found; otherwise the first token is appended to the first input and nothing else changes |
| FillGapsTextSingle.OnlyFirstValueTyped | src/classes/q/fill_gaps_text_question.py:30-35 | tokens after the first do not affect the page |
| FillGapsTextSingle.Answer | src/classes/q/fill_gaps_text_question.py:29-37 | a failed typing step ends the answer unsubmitted; otherwise it submits once and returns the green-text submit rule on the full tokens |
| ShortText.TypeFirst | src/classes/q/short_text_question.py:28-34 | no tokens is an index error; no textarea is not-found; otherwise the first token is appended to the textarea and nothing else changes |
| ShortText.OnlyFirstValueTyped | src/classes/q/short_text_question.py:29-34 | tokens after the first do not affect the page |
| ShortText.Prompt | src/classes/q/short_text_question.py:14-17 | the prompt is the answer-block text, and not-found when there is none |
| ShortText.Answer | src/classes/q/short_text_question.py:28-36 | a failed typing step ends the answer unsubmitted; otherwise it submits once and returns the green-text submit rule on the full tokens |
| OldQuestion.Classify | src/classes/question.py:37-50 | multiple-choice exactly when the multiple-choice and text tokens are present; scrambled letters exactly when that is not so and the scrambled-letters and text tokens are |
| OldQuestion.NewClassifierExtendsOld | src/classes/question.py:42-50 | the newer classifier agrees on the old multiple-choice kind, and on scrambled letters unless another multiple-choice rule applies first |
| OldQuestion.CorrectText | src/classes/question.py:56-66 | none exactly when no option is marked correct |
| OldQuestion.CorrectTextAgrees | src/classes/question.py:56-66 | the old answer is the text of the same option the newer class returns, not wrapped in a list |
| OldQuestion.SubmitText | src/classes/question.py:95-100 | the result is the token or the revealed text, is empty only if the token was, and is the revealed text whenever that is non-empty |
| OldQuestion.ChooseOption | src/classes/question.py:72-88 | no tokens is an index error; no option is not-found; otherwise exactly one click is added |
| OldQuestion.ChooseOptionIsPick | src/classes/question.py:74-88 | the click lands on the first option containing the first token, or the first option |
| OldQuestion.MultiChoiceAnswer | src/classes/question.py:71-100 | a failed choice ends the answer unsubmitted; otherwise it submits once and returns the revealed text or the single token |
| OldQuestion.Prepare | src/classes/question.py:122-123 | no tokens is an index error; a first token longer than one character becomes its characters, which join back to it; otherwise the tokens are kept as they are |
| OldQuestion.ExhaustedPool | src/classes/question.py:142-158 | once no letter is unselected, further tokens change nothing |
| OldQuestion.LetterLoop | src/classes/question.py:125-158 | the letters loop on the page state; its meaning is stated by `LetterLoopIsPool`, `LetterLoopFrom` and `LetterLoopClicks` |
| OldQuestion.LetterLoopIsPool | src/classes/question.py:125-158 | the index loop with early break equals the pool token loop on the upper-cased tokens |
| OldQuestion.LetterLoopFrom | src/classes/question.py:127-158 | at token `i` the loop clicks the letter the pass picks and goes on, or stops where it is |
| OldQuestion.LetterLoopClicks | src/classes/question.py:125-158 | every token is tried at most once: the loop clicks min(tokens, unselected letters) times |
| OldQuestion.LettersAnswer | src/classes/question.py:121-170 | no tokens is an index error; otherwise the page ends as the letter loop says, it submits once and returns the revealed letters or the prepared tokens |
| OldQuestion.LetterPick | src/classes/question.py:134-158 | a pass picks an unselected letter, and none exactly when every letter is selected |
| OldQuestion.ClickLetter | src/classes/question.py:127-158 | one pass clicks the letter `LetterPick` gives and reports it; when there is none it changes nothing and the loop breaks |
| Engine.Prompt | src/classes/q/scrambled_letters_question.py:15-17 | each kind's prompt is the element text, that text plus the letters hint, the rendered markup, or the answer-block text; only short-answer without a block fails |
| Engine.Question.constructor | src/classes/questions/question.py:16-24 | a new question has an empty prompt, no correct answer, no cache use and first use set; `skip_completion` is set exactly for picture questions |
| Engine.Question.AsText | src/classes/questions/multi_choice_text_question.py:32-34 | `as_text` returns the kind's prompt, stores it in `question_str`, and changes no other field |
| Engine.FromElement | src/classes/questions/question.py:54-115 | no question exactly when the class attribute classifies as none; otherwise a new question with that kind and flag, no prompt or answer yet, first use, not from the cache, and completion skipped exactly for the picture kind (src/classes/questions/multi_choice_image_question.py:15-18) |
| Parser.TypeName | src/utils/parser.py:15-40 | the `type` strings `get_section_type` returns; `TypeNameVocabulary` states that exactly the three vocabulary kinds start with `VOCABULARY` and that `TITLE` and `SUMMARY` name only their kinds |
| Parser.TypeNameVocabulary | src/classes/activity.py:17-31 | exactly the three vocabulary types start with `VOCABULARY`, and `TITLE` and `SUMMARY` name only their types |
| Parser.SectionTypeOf | src/utils/parser.py:9-40 | the title class gives TITLE before the summary class gives SUMMARY |
| Parser.PositiveCount | src/utils/parser.py:29-31 | both filters of the assertion keep exactly the positive counts |
| Parser.SectionTypeVocabulary | src/utils/parser.py:21-40 | without title or summary class, the type is found exactly when one count is positive, else the assertion fails; that count picks the vocabulary type |
| Parser.IsDefinition | src/utils/parser.py:68 | the test `len(key_phrases) > 0 and len(audio_buttons) > 0`; `VocabPartition` and `VocabLists` state that it sends each set to exactly one of the two lists |
| Parser.Definitions | src/utils/parser.py:64-73 | the definitions list of the vocabulary loop; stated by `VocabPartition`, `VocabLists` and `VocabAppend` |
| Parser.DataLines | src/utils/parser.py:64-75 | the data list of the vocabulary loop; stated by `VocabPartition`, `VocabLists` and `VocabAppend` |
| Parser.VocabPartition | src/utils/parser.py:64-75 | every set lands in exactly one list, and the definitions are as many as the sets with a key phrase and an audio button |
| Parser.VocabLists | src/utils/parser.py:64-75 | a set with a key phrase and an audio button gives the stripped first key phrase and the stripped rest; any other set gives its stripped text as a data line |
| Parser.VocabAppend | src/utils/parser.py:64-75 | each set's entry is appended after the earlier ones, so order is preserved |
| Parser.HandleVocab | src/utils/parser.py:57-79 | the loop builds exactly the definitions and data lines of the sets, with the stripped header as title |
| Parser.SectionData | src/utils/parser.py:97-111 | extraction fails exactly when the type cannot be determined, and the result's type is the classified type |
| Parser.SectionDataVocabulary | src/utils/parser.py:97-111 | with exactly one positive count, the result is vocabulary data of that kind, covering every set of that kind |
| Parser.GetDataFromSection | src/utils/parser.py:97-111 | the dispatch computes exactly the section data |
| Activity.DefinitionLine | src/classes/activity.py:25-26 | the `- key : value  ` line of a definition; `SectionLinesMeans` and `AppendDefinitions` place one per definition, in order |
| Activity.DataLine | src/classes/activity.py:28-29 | a data line followed by two spaces; `SectionLinesMeans` and `AppendDataLines` place one per data line, in order |
| Activity.SectionLines | src/classes/activity.py:17-34 | the lines one section renders to; stated case by case by `SectionLinesMeans` |
| Activity.Lines | src/classes/activity.py:14-34 | the lines of all sections in order; stated by `LinesAppend` |
| Activity.Markdown | src/classes/activity.py:12-36 | the lines joined by newlines; `AsMarkdown` computes it and `MarkdownSmall` states its small cases |
| Activity.SectionLinesMeans | src/classes/activity.py:17-34 | a title gives two lines, a vocabulary block gives a blank line, its header, one line per definition and one per data line in order, and a summary gives three lines |
| Activity.LinesAppend | src/classes/activity.py:16-34 | the lines of consecutive sections follow each other, so section order is preserved |
| Activity.MarkdownSmall | src/classes/activity.py:12-36 | no sections give the empty string, and one title gives its two lines joined by a newline |
| Activity.Activity.constructor | src/classes/activity.py:7-10 | a new activity has the given url and no data or questions |
| Activity.Activity.AsMarkdown | src/classes/activity.py:12-36 | the nested loops produce exactly the sections' lines joined by newlines |
| Activity.AppendSection | src/classes/activity.py:16-34 | one iteration of the outer loop appends exactly that section's lines |
| Activity.AppendVocabulary | src/classes/activity.py:21-29 | a vocabulary section appends a blank line, its heading, one line per definition and one per data line, in that order |
| Activity.AppendDefinitions | src/classes/activity.py:25-26 | the definitions loop appends one `- key : value  ` line per definition |
| Activity.AppendDataLines | src/classes/activity.py:28-29 | the data loop appends one line per data line, each followed by two spaces |
| Dotenv.Put | src/classes/dotenv.py:60 | assigning a key keeps the store's size or grows it by one entry |
| Dotenv.PutLookup | src/classes/dotenv.py:58-60 | after assignment the key maps to the new value and every other key is unchanged |
| Dotenv.PutPlace | src/classes/dotenv.py:28 | a new key is appended at the end (insertion order); an existing key keeps its place |
| Dotenv.PutDistinct | src/classes/dotenv.py:28 | assignment keeps keys unique |
| Dotenv.Delete | src/classes/dotenv.py:65 | deletion never grows the store |
| Dotenv.DeleteLookup | src/classes/dotenv.py:63-65 | after deletion the key is absent, every other key is unchanged, and keys stay unique |
| Dotenv.Lookup | src/classes/dotenv.py:51-56 | a dict lookup; its behaviour under assignment and deletion is stated by `PutLookup`, `DeleteLookup` and `LookupAppend` |
| Dotenv.LookupAppend | src/classes/dotenv.py:28 | appending an entry only adds its key when the key was absent |
| Dotenv.ParseLine | src/classes/dotenv.py:22-28 | one line of `update_values`; its meaning is stated by `ParseLineRejects`, `CommentIgnored`, `ParsePairLine` and `ParseLineCases` |
| Dotenv.Load | src/classes/dotenv.py:19-28 | the parsing loop; its meaning is stated by `LoadPairLines`, `LoadPairStep` and `LoadDistinct` |
| Dotenv.Parse | src/classes/dotenv.py:14-28 | `update_values` on a content; its meaning is stated by `ParseDistinct` and `SerializeRoundTrip` |
| Dotenv.PairLine | src/classes/dotenv.py:35 | the `key="value"` line of one pair; `ParsePairLine` states that it parses back to the pair for plain text |
| Dotenv.Serialize | src/classes/dotenv.py:30-37 | `stringify_values`; that parsing undoes it is stated by `SerializeRoundTrip` |
| Dotenv.CommentIgnored | src/classes/dotenv.py:22 | everything from the first `#` on a line is ignored |
| Dotenv.ParseLineCases | src/classes/dotenv.py:21-28 | worked examples of `ParseLineRejects`: a line with two `=` is an error, and empty and comment-only lines are skipped |
| Dotenv.ParseLineRejects | src/classes/dotenv.py:22-27 | for every line: it raises exactly when what precedes its first `#` is non-empty and holds no `=` or more than one |
| Dotenv.LoadDistinct | src/classes/dotenv.py:19-28 | the parsing loop keeps keys unique: a repeated key overwrites the earlier value |
| Dotenv.ParseDistinct | src/classes/dotenv.py:14-28 | every content parses to a dict with unique keys |
| Dotenv.ParsePairLine | src/classes/dotenv.py:22-28 | a serialised `key="value"` line parses back to the pair when neither part holds `#`, `=`, `"` or a newline |
| Dotenv.LoadPairLines | src/classes/dotenv.py:19-28 | parsing serialised lines for fresh keys appends exactly those pairs, without error |
| Dotenv.LoadPairStep | src/classes/dotenv.py:19-28 | the first serialised line of a fresh key appends its pair and parsing goes on with the next line |
| Dotenv.SerializeRoundTrip | src/classes/dotenv.py:21-37 | parsing the serialisation restores the store, for keys and values without `#`, `=`, `"` or newline |
| Dotenv.SetKeyPersists | src/classes/dotenv.py:58-61 | after `set_key` the written file parses back to the new store, in which the key has its new value |
| Dotenv.PutPlain | src/classes/dotenv.py:58-60 | assigning plain text keeps the store serialisable |
| Dotenv.Dotenv.constructor | src/classes/dotenv.py:7-10 | a new store has the path, no file content and no values |
| Dotenv.Dotenv.Open | src/classes/dotenv.py:7-12 | opening fails with a value error exactly when a line is malformed; otherwise the content is read, the values are its parse, and the keys are unique |
| Dotenv.Dotenv.UpdateValues | src/classes/dotenv.py:14-28 | without content the values are kept; otherwise they are rebuilt from the content with unique keys, and a malformed line is reported |
| Dotenv.Dotenv.StringifyValues | src/classes/dotenv.py:30-37 | the loop produces exactly the serialisation of the values |
| Dotenv.Dotenv.UpdateFile | src/classes/dotenv.py:39-44 | the file is read into the content, the values are its parse, and the keys are unique |
| Dotenv.Dotenv.PushValues | src/classes/dotenv.py:46-49 | the file is overwritten with the serialisation, and the values are unchanged |
| Dotenv.Dotenv.GetKey | src/classes/dotenv.py:51-56 | returns the key's value, and none when the key is absent |
| Dotenv.Dotenv.SetKey | src/classes/dotenv.py:58-61 | the key is assigned and the file rewritten; afterwards the key holds the new value, every other key holds what it held, and keys stay unique |
| Dotenv.Dotenv.RemoveKey | src/classes/dotenv.py:63-66 | removing an absent key is a key error that changes nothing; otherwise the key is deleted and the file rewritten. Either way the key is then absent, every other key holds what it held, and keys stay unique |

## Left out

- Browser session, login, navigation, waits, the command line and the entry points: these are I/O plumbing around the engine.
- The natural-language inference client, the answer cache, the file-system helpers, the clock, logging and the solving and learning orchestration: these are network, disk or clock I/O, or chains of driver calls. The shown code has no retake loop or cache-exhaustion guard to model.
- The markup-to-text helpers behind `as_text`, and `get_green_text_correct_answer`, are not part of this model. Their outputs are page inputs: `Page.Element.rendered` and `Page.Reveal.green`.
- `get_match_text_question_correct_answers` is not part of this model; its output is the page input `Page.Reveal.matches`.
- `escape`: it is imported from the strings helper, which does not define it. Tokens are matched as they are.
- XPath text functions are simplified. `contains(text(), …)` is substring containment in the button's text. The older classes' exact `@class="…"` tests are treated like the newer `contains(@class, …)` tests. `upper` and `lower` cover ASCII letters only, and whitespace is the ASCII whitespace set.
- The site's reaction to clicks is not part of the repository. The model assumes a clicked pool button fills the first blank answer slot with its text, and that submission changes no control.
- The `InvalidSelectorException` the match-text loop also catches is not modelled; tokens never form an invalid selector here.
- Finding the submit control is modelled as always succeeding.
- Python dictionaries are modelled as association lists in insertion order.
- The BeautifulSoup queries are abstracted into inputs: the section classes, the three set lists, the per-set key phrases, audio-button count, text and text without the key phrase (what `decompose` leaves), and the header text.
- Section kinds other than title, summary and vocabulary are not represented, so blocks of another type cannot reach the renderer.
- `get_section_type` falls off its end only when the assertion has already failed. Both are modelled as the error `CannotDetermineType`.
- `Dotenv.Dotenv.constructor`: Python's constructor also reads the file. The model splits it into the constructor and `Dotenv.Dotenv.Open`, with the file's text as a parameter.
- `Dotenv.Dotenv.UpdateValues`: a malformed line raises in Python after earlier lines were stored. The model keeps those values and returns `false`.
- `FillGapsBlock.Answer`: the source's drain never ends when a blank slot remains with no unselected button. The model returns `Spins` there instead of looping.
- The match-text token locator is modelled as written, with the class name the site never sets, not as evidently intended.
- `Page.Locate`: its own contract only bounds the index. What each locator finds is stated by `Page.LocateFresh`, `MatchText.LocatorIgnoresSelection` and `ScrambledLetters.LocateEitherCase`.
- `Dotenv.Put`: its own contract only bounds the size. Its lookups are stated by `Dotenv.PutLookup` and its placement by `Dotenv.PutPlace`.
- `Dotenv.Delete`: its own contract only bounds the size. Its lookups are stated by `Dotenv.DeleteLookup`.
- `FillGapsText.TypeTokens`: its own contract only says that values alone change. The tokens' destination is stated by `FillGapsText.TypeTokensOneInput`.
- `FillGapsText.DrainBlanks`: its own contract only says that values alone change. What it fills is stated by `FillGapsText.DrainBlanksFills`.
- `Text.Split`, `Text.StripStart`, `Text.StripEnd`, `Text.Upper`, `Text.Lower`: their own contracts only bound lengths. `Split` is stated by `JoinSplit`, `SplitJoin` and `SplitCount`; the strips by `StripStartMeans` and `StripEndMeans`; `Upper` and `Lower` by `Lists.Map`'s pointwise contract on `UpperChar` and `LowerChar`, with `UpperIdempotent` and `LowerUpper` on top.
- `Engine.Question`: the model records the kind, the page and the newer base's flags. The logger is left out.
- `Engine.Question.constructor`: the per-kind constructor arguments (the multiple flag) live in the kind's tag.
