/** src/utils/strings.py: `remove_quote`, Python's `txt.replace('"', "")`. */
module Strings {
  import Lists

  /** Every double quote removed from `txt`. */
  function RemoveQuote(txt: string): (r: string)
    ensures '"' !in r
    ensures |r| <= |txt|
  {
    if txt == [] then [] else (if txt[0] == '"' then [] else [txt[0]]) + RemoveQuote(txt[1..])
  }

  /** The result is exactly the non-quote characters of the input, in order. */
  lemma {:induction false} RemoveQuoteKeepsOthers(txt: string)
    ensures RemoveQuote(txt) == Lists.Filter(c => c != '"', txt)
  {
    if txt != [] {
      RemoveQuoteKeepsOthers(txt[1..]);
    }
  }

  /** A text without quotes is returned unchanged. */
  lemma {:induction false} RemoveQuoteNoQuote(txt: string)
    requires '"' !in txt
    ensures RemoveQuote(txt) == txt
  {
    if txt != [] {
      RemoveQuoteNoQuote(txt[1..]);
      assert txt == [txt[0]] + txt[1..];
    }
  }

  /** Removing quotes twice is removing them once. */
  lemma RemoveQuoteIdempotent(txt: string)
    ensures RemoveQuote(RemoveQuote(txt)) == RemoveQuote(txt)
  {
    RemoveQuoteNoQuote(RemoveQuote(txt));
  }

  /** Quotes around a quote-free text are the only thing removed. */
  lemma RemoveSurroundingQuotes(v: string)
    requires '"' !in v
    ensures RemoveQuote("\"" + v + "\"") == v
  {
    var s := "\"" + v + "\"";
    assert s[1..] == v + "\"";
    RemoveQuoteAppend(v, "\"");
    RemoveQuoteNoQuote(v);
  }

  /** Removing quotes distributes over concatenation. */
  lemma {:induction false} RemoveQuoteAppend(a: string, b: string)
    ensures RemoveQuote(a + b) == RemoveQuote(a) + RemoveQuote(b)
  {
    if a == [] {
      assert a + b == b;
    } else {
      assert (a + b)[1..] == a[1..] + b;
      RemoveQuoteAppend(a[1..], b);
    }
  }
}
