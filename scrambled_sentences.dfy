/**
 * The scrambled-sentence question: a pool of sentence chunks to click in
 * order (`src/classes/questions/scrambled_sentences_question.py`).
 */
module ScrambledSentences {
  import opened Wrappers
  import Text
  import Page
  import QuestionBase

  /** The first choice, in list order, that `s` starts with (see `FirstPrefixMeans`). */
  function FirstPrefix(choices: seq<string>, s: string): (r: Option<nat>)
    ensures r.Some? ==> r.value < |choices| && Text.StartsWith(s, choices[r.value])
  {
    Page.First(choices, (c: string) => Text.StartsWith(s, c))
  }

  /** `FirstPrefix` finds the first choice that is a prefix, and only misses when none is. */
  lemma FirstPrefixMeans(choices: seq<string>, s: string)
    ensures FirstPrefix(choices, s).Some? ==>
      forall k :: 0 <= k < FirstPrefix(choices, s).value ==> !Text.StartsWith(s, choices[k])
    ensures FirstPrefix(choices, s).None? ==> forall k :: 0 <= k < |choices| ==> !Text.StartsWith(s, choices[k])
  {
  }

  /**
   * `r` reads `s` from the left: each element is a prefix of what is left,
   * and what follows it is stripped of surrounding whitespace before the next.
   */
  predicate Consumes(s: string, r: seq<string>)
    decreases |r|
  {
    r == [] || (Text.StartsWith(s, r[0]) && Consumes(Text.Strip(s[|r[0]|..]), r[1..]))
  }

  /**
   * `n` more rounds of the decoding loop on the remaining text `s`: each round
   * takes the first choice the text starts with, and gives up when there is
   * none or it is the empty choice (see `DecodeSound`).
   */
  function DecodeFrom(s: string, choices: seq<string>, n: nat): (r: Option<seq<string>>)
    decreases n
  {
    if n == 0 then Some([])
    else match FirstPrefix(choices, s) {
      case None => None
      case Some(k) =>
        if choices[k] == "" then None
        else match DecodeFrom(Text.Strip(s[|choices[k]|..]), choices, n - 1) {
          case None => None
          case Some(rest) => Some([choices[k]] + rest)
        }
    }
  }

  /**
   * A decoding has one element per round, reads the text from the left, and
   * is made of non-empty choices.
   */
  lemma {:induction false} DecodeSound(s: string, choices: seq<string>, n: nat)
    ensures var r := DecodeFrom(s, choices, n);
      r.Some? ==> |r.value| == n && Consumes(s, r.value) && forall x :: x in r.value ==> x in choices && x != ""
    decreases n
  {
    if n > 0 {
      match FirstPrefix(choices, s) {
        case None =>
        case Some(k) =>
          if choices[k] != "" {
            DecodeSound(Text.Strip(s[|choices[k]|..]), choices, n - 1);
          }
      }
    }
  }

  /**
   * `get_correct_answer` on the green text and the choices the page shows:
   * nothing without green text or without choices, else one choice per
   * round, as many rounds as there are choices (see `CorrectAnswerSound`).
   */
  function CorrectAnswer(green: string, choices: seq<string>): (r: Option<seq<string>>)
    ensures green == "" || choices == [] ==> r.None?
  {
    if green == "" || choices == [] then None else DecodeFrom(green, choices, |choices|)
  }

  /** A decoded answer orders all the chunks, one per choice, read from the green text. */
  lemma CorrectAnswerSound(green: string, choices: seq<string>)
    ensures var r := CorrectAnswer(green, choices);
      r.Some? ==> |r.value| == |choices| && Consumes(green, r.value) && forall x :: x in r.value ==> x in choices && x != ""
  {
    DecodeSound(green, choices, |choices|);
  }

  /** `Some(p + rest)` when the rest decodes, else `None`. */
  function Prepend(p: seq<string>, o: Option<seq<string>>): Option<seq<string>>
  {
    match o {
      case None => None
      case Some(rest) => Some(p + rest)
    }
  }

  /** A round fails when no choice is a prefix or the first one is empty. */
  lemma DecodeFails(s: string, choices: seq<string>, n: nat)
    requires n > 0 && (FirstPrefix(choices, s).None? || choices[FirstPrefix(choices, s).value] == "")
    ensures DecodeFrom(s, choices, n) == None
  {
  }

  /** The first prefix is the one the loop stopped at. */
  lemma FirstPrefixIs(choices: seq<string>, s: string, j: nat)
    requires j < |choices| && Text.StartsWith(s, choices[j])
    requires forall k :: 0 <= k < j ==> !Text.StartsWith(s, choices[k])
    ensures FirstPrefix(choices, s) == Some(j)
  {
    FirstPrefixMeans(choices, s);
  }

  /** No prefix found by the loop means none at all. */
  lemma FirstPrefixNone(choices: seq<string>, s: string)
    requires forall k :: 0 <= k < |choices| ==> !Text.StartsWith(s, choices[k])
    ensures FirstPrefix(choices, s) == None
  {
  }

  /** A successful round: the choice taken, then the decoding of what is left. */
  lemma DecodeUnfold(s: string, choices: seq<string>, n: nat, k: nat)
    requires n > 0 && FirstPrefix(choices, s) == Some(k) && choices[k] != ""
    ensures DecodeFrom(s, choices, n) == Prepend([choices[k]], DecodeFrom(Text.Strip(s[|choices[k]|..]), choices, n - 1))
  {
  }

  /** One round of the decoding loop, taking choice `k`. */
  lemma DecodeStep(s: string, choices: seq<string>, n: nat, k: nat, result: seq<string>, s1: string, result1: seq<string>)
    requires n > 0 && FirstPrefix(choices, s) == Some(k) && choices[k] != ""
    requires s1 == Text.Strip(s[|choices[k]|..]) && result1 == result + [choices[k]]
    ensures Prepend(result, DecodeFrom(s, choices, n)) == Prepend(result1, DecodeFrom(s1, choices, n - 1))
  {
    var o := DecodeFrom(Text.Strip(s[|choices[k]|..]), choices, n - 1);
    if o.Some? {
      assert result + ([choices[k]] + o.value) == (result + [choices[k]]) + o.value;
    }
  }

  /** The inner `for choice in choices` loop: stop at the first choice the text starts with. */
  method FindChoice(choices: seq<string>, answer: string) returns (found: Option<nat>)
    ensures found == FirstPrefix(choices, answer)
  {
    var j := 0;
    while j < |choices|
      invariant 0 <= j <= |choices|
      invariant forall k :: 0 <= k < j ==> !Text.StartsWith(answer, choices[k])
    {
      if Text.StartsWith(answer, choices[j]) {
        FirstPrefixIs(choices, answer, j);
        return Some(j);
      }
      j := j + 1;
    }
    FirstPrefixNone(choices, answer);
    return None;
  }

  /** The decoding loop of `get_correct_answer`. */
  method GetCorrectAnswer(green: string, choices: seq<string>) returns (r: Option<seq<string>>)
    ensures r == CorrectAnswer(green, choices)
  {
    if green == "" {
      return None;
    }
    if |choices| == 0 {
      return None;
    }
    var answer := green;
    var result: seq<string> := [];
    assert Prepend(result, DecodeFrom(answer, choices, |choices|)) == DecodeFrom(green, choices, |choices|) by {
      var o := DecodeFrom(green, choices, |choices|);
      if o.Some? {
        assert [] + o.value == o.value;
      }
    }
    ghost var rounds: nat := |choices|;
    while |result| < |choices|
      invariant |result| <= |choices| && rounds == |choices| - |result|
      invariant CorrectAnswer(green, choices) == Prepend(result, DecodeFrom(answer, choices, rounds))
      decreases rounds
    {
      var found := FindChoice(choices, answer);
      if found.None? {
        DecodeFails(answer, choices, rounds);
        return None;
      }
      var correct := choices[found.value];
      if correct == "" {
        DecodeFails(answer, choices, rounds);
        return None;
      }
      var next, longer := Text.Strip(answer[|correct|..]), result + [correct];
      DecodeStep(answer, choices, rounds, found.value, result, next, longer);
      answer, result, rounds := next, longer, rounds - 1;
    }
    assert result + [] == result;
    r := Some(result);
  }

  /** No choice is a proper prefix of another: each chunk is recognisable by itself. */
  predicate PrefixFree(choices: seq<string>)
  {
    forall a, b :: a in choices && b in choices && Text.StartsWith(b, a) ==> a == b
  }

  /** A chunk with text and no whitespace in it. */
  predicate Word(c: string)
  {
    c != "" && forall k :: 0 <= k < |c| ==> !Text.IsSpace(c[k])
  }

  /**
   * The decoder inverts the site's rendering of the green text: when the
   * chunks are words none of which is a prefix of another, the green text
   * of an arrangement that uses as many chunks as there are choices, joined
   * with single spaces, decodes back to that arrangement.
   */
  lemma DecodeJoined(words: seq<string>, choices: seq<string>)
    requires |words| == |choices| >= 1
    requires forall k :: 0 <= k < |words| ==> words[k] in choices
    requires forall k :: 0 <= k < |choices| ==> Word(choices[k])
    requires PrefixFree(choices)
    ensures CorrectAnswer(Text.Join(words, " "), choices) == Some(words)
  {
    FirstPrefixOfJoined(words, choices);
    DecodeJoinedFrom(words, choices);
  }

  lemma {:induction false} DecodeJoinedFrom(words: seq<string>, choices: seq<string>)
    requires forall k :: 0 <= k < |words| ==> words[k] in choices
    requires forall k :: 0 <= k < |choices| ==> Word(choices[k])
    requires PrefixFree(choices)
    ensures DecodeFrom(Text.Join(words, " "), choices, |words|) == Some(words)
    decreases |words|
  {
    if words != [] {
      var rest := words[1..];
      var k := JoinedRound(words, choices);
      DecodeJoinedFrom(rest, choices);
      assert [words[0]] + rest == words;
      DecodeRound(Text.Join(words, " "), Text.Join(rest, " "), choices, k, rest, words);
    }
  }

  /** The first round on joined words takes the first word and leaves the others joined. */
  lemma JoinedRound(words: seq<string>, choices: seq<string>) returns (k: nat)
    requires words != []
    requires forall k :: 0 <= k < |words| ==> words[k] in choices
    requires forall k :: 0 <= k < |choices| ==> Word(choices[k])
    requires PrefixFree(choices)
    ensures k < |choices| && choices[k] == words[0] && choices[k] != ""
    ensures FirstPrefix(choices, Text.Join(words, " ")) == Some(k)
    ensures Text.Strip(Text.Join(words, " ")[|choices[k]|..]) == Text.Join(words[1..], " ")
    ensures forall j :: 0 <= j < |words[1..]| ==> words[1..][j] in choices
  {
    var s := Text.Join(words, " ");
    FirstPrefixOfJoined(words, choices);
    k := FirstPrefix(choices, s).value;
    assert Word(choices[k]);
    ChosenWords(words, choices);
    StripAfterFirst(words);
  }

  /** One round of the decoding loop followed by a successful rest. */
  lemma DecodeRound(s: string, t: string, choices: seq<string>, k: nat, rest: seq<string>, r: seq<string>)
    requires k < |choices| && choices[k] != "" && r == [choices[k]] + rest
    requires FirstPrefix(choices, s) == Some(k)
    requires Text.Strip(s[|choices[k]|..]) == t
    requires DecodeFrom(t, choices, |rest|) == Some(rest)
    ensures DecodeFrom(s, choices, |r|) == Some(r)
  {
  }

  /** Words drawn from whitespace-free choices are whitespace-free. */
  lemma ChosenWords(words: seq<string>, choices: seq<string>)
    requires forall k :: 0 <= k < |words| ==> words[k] in choices
    requires forall k :: 0 <= k < |choices| ==> Word(choices[k])
    ensures forall k :: 0 <= k < |words| ==> Word(words[k])
  {
    forall k | 0 <= k < |words| ensures Word(words[k]) {
      var m :| 0 <= m < |choices| && choices[m] == words[k];
    }
  }

  /** In joined words, the first choice that is a prefix is the first word. */
  lemma FirstPrefixOfJoined(words: seq<string>, choices: seq<string>)
    requires words != []
    requires forall k :: 0 <= k < |words| ==> words[k] in choices
    requires forall k :: 0 <= k < |choices| ==> Word(choices[k])
    requires PrefixFree(choices)
    ensures FirstPrefix(choices, Text.Join(words, " ")).Some?
    ensures choices[FirstPrefix(choices, Text.Join(words, " ")).value] == words[0]
  {
    var s := Text.Join(words, " ");
    var w := words[0];
    JoinedStart(words);
    assert w in choices;
    var k := FirstPrefix(choices, s);
    assert k.Some? by {
      FirstPrefixMeans(choices, s);
      var m :| 0 <= m < |choices| && choices[m] == w;
    }
    var c := choices[k.value];
    assert Word(c);
    if |c| <= |w| {
      PrefixOfPrefix(s, w, c);
    } else {
      PrefixChar(s, c, |w|);
      assert false;
    }
  }

  /** Two prefixes of one text: the shorter is a prefix of the longer. */
  lemma PrefixOfPrefix(s: string, w: string, c: string)
    requires Text.StartsWith(s, w) && Text.StartsWith(s, c) && |c| <= |w|
    ensures Text.StartsWith(w, c)
  {
    assert w[..|c|] == s[..|c|];
  }

  /** A prefix agrees with the text position by position. */
  lemma PrefixChar(s: string, c: string, i: nat)
    ensures Text.StartsWith(s, c) && i < |c| ==> c[i] == s[i]
  {
    if Text.StartsWith(s, c) && i < |c| {
      assert c[i] == s[..|c|][i];
    }
  }

  /** Words joined with spaces start with the first word, followed by a space or nothing. */
  lemma JoinedStart(words: seq<string>)
    requires words != []
    ensures Text.StartsWith(Text.Join(words, " "), words[0])
    ensures |words| == 1 ==> Text.Join(words, " ") == words[0]
    ensures |words| > 1 ==> |Text.Join(words, " ")| > |words[0]| && Text.Join(words, " ")[|words[0]|] == ' '
  {
    if |words| > 1 {
      var s := Text.Join(words, " ");
      assert s == words[0] + " " + Text.Join(words[1..], " ");
      assert s[..|words[0]|] == words[0];
    }
  }

  /** After the first word, the rest of the joined words is what `strip` leaves. */
  lemma StripAfterFirst(words: seq<string>)
    requires words != [] && forall k :: 0 <= k < |words| ==> Word(words[k])
    ensures Text.Strip(Text.Join(words, " ")[|words[0]|..]) == Text.Join(words[1..], " ")
  {
    var s := Text.Join(words, " ");
    var tail := Text.Join(words[1..], " ");
    TrimmedJoin(words[1..]);
    if |words| == 1 {
      assert s[|words[0]|..] == [];
      Text.StripTrimmed([]);
    } else {
      assert s == words[0] + " " + tail;
      assert s[|words[0]|..] == " " + tail;
      Text.StripTrimmed(tail);
    }
  }

  /** Words joined with spaces have no whitespace at either end. */
  lemma {:induction false} TrimmedJoin(words: seq<string>)
    requires forall k :: 0 <= k < |words| ==> Word(words[k])
    ensures var t := Text.Join(words, " "); t == [] || (!Text.IsSpace(t[0]) && !Text.IsSpace(t[|t| - 1]))
  {
    if |words| > 1 {
      TrimmedJoin(words[1..]);
      var t := Text.Join(words, " ");
      assert t == words[0] + " " + Text.Join(words[1..], " ");
    }
  }

  /** The token loop's locator: an unselected chunk containing the token. */
  const Loc: Page.Locator := Page.UnselectedContaining

  /**
   * `answer`: click per token, drain the pool, then submit the values,
   * compared against the decoded green text.
   */
  method Answer(page: Page.Element, values: seq<string>) returns (r: seq<string>)
    modifies page
    ensures page.State() == Page.DrainPool(Page.ApplyTokens(old(page.State()), values, Loc))
    ensures forall k :: 0 <= k < |page.buttons| ==> page.buttons[k].selected
    ensures page.submits == old(page.submits) + 1
    ensures r == QuestionBase.SubmitRule(CorrectAnswer(page.shown.green, page.shown.choices), values)
  {
    page.ClickTokens(values, Loc);
    page.DrainUnselected();
    var truth := GetCorrectAnswer(page.shown.green, page.shown.choices);
    r := QuestionBase.SubmitAndCheck(page, truth, values);
  }
}
