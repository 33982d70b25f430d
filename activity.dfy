/** A lesson activity and its Markdown rendering (`src/classes/activity.py`). */
module Activity {
  import Lists
  import Text
  import Parser
  import Engine

  /** The line a vocabulary definition renders to. */
  function DefinitionLine(d: Parser.Definition): string
  {
    "- " + d.key + " : " + d.value + "  "
  }

  /** A data line with the two trailing spaces of a Markdown line break. */
  function DataLine(line: string): string
  {
    line + "  "
  }

  /**
   * The lines one section contributes: a title and its description; a
   * blank line, the heading, the definitions and the data lines of a
   * vocabulary section; a blank line, the heading and the text of a summary.
   */
  function SectionLines(s: Parser.Section): seq<string>
  {
    match s
    case TitleData(title, description) => ["# " + title, description + "  "]
    case VocabData(_, title, definitions, lines) =>
      ["", "## " + title] + Lists.Map(DefinitionLine, definitions) + Lists.Map(DataLine, lines)
    case SummaryData(summary) => ["", "## Summary", summary + " . "]
  }

  /** What each kind of section renders to, line by line. */
  lemma SectionLinesMeans(s: Parser.Section)
    ensures var r := SectionLines(s);
      && (s.TitleData? ==> r == ["# " + s.title, s.description + "  "])
      && (s.VocabData? ==>
        && |r| == 2 + |s.definitions| + |s.lines|
        && r[0] == "" && r[1] == "## " + s.title
        && (forall k :: 0 <= k < |s.definitions| ==> r[2 + k] == DefinitionLine(s.definitions[k]))
        && (forall k :: 0 <= k < |s.lines| ==> r[2 + |s.definitions| + k] == DataLine(s.lines[k])))
      && (s.SummaryData? ==> r == ["", "## Summary", s.data + " . "])
  {
  }

  /** The lines of all the sections, section after section. */
  function Lines(data: seq<Parser.Section>): seq<string>
  {
    if data == [] then [] else SectionLines(data[0]) + Lines(data[1..])
  }

  /** Section order is kept: the lines of two runs of sections are the lines of each, in order. */
  lemma {:induction false} LinesAppend(a: seq<Parser.Section>, b: seq<Parser.Section>)
    ensures Lines(a + b) == Lines(a) + Lines(b)
  {
    if a == [] {
      assert a + b == b;
    } else {
      assert (a + b)[0] == a[0];
      assert (a + b)[1..] == a[1..] + b;
      LinesAppend(a[1..], b);
    }
  }

  /** One more section's lines after those of the sections before it. */
  lemma LinesPrefix(data: seq<Parser.Section>, i: nat)
    requires i < |data|
    ensures Lines(data[..i + 1]) == Lines(data[..i]) + SectionLines(data[i])
  {
    LinesAppend(data[..i], [data[i]]);
    assert data[..i + 1] == data[..i] + [data[i]];
    assert Lines([data[i]]) == SectionLines(data[i]) + Lines([]);
  }

  /** The Markdown text: the lines joined by newlines. */
  function Markdown(data: seq<Parser.Section>): string
  {
    Text.Join(Lines(data), "\n")
  }

  /** No sections render to the empty text; one title section to its two lines. */
  lemma MarkdownSmall(title: string, description: string)
    ensures Markdown([]) == ""
    ensures Markdown([Parser.TitleData(title, description)]) == "# " + title + "\n" + description + "  "
  {
    var one := [Parser.TitleData(title, description)];
    var lines := ["# " + title, description + "  "];
    assert Lines(one) == SectionLines(one[0]) + Lines([]) == lines;
    assert lines[1..] == [description + "  "];
    assert Text.Join(lines, "\n") == lines[0] + "\n" + Text.Join(lines[1..], "\n");
  }

  /** A lesson activity: its address, the sections read from it and its questions. */
  class Activity {
    const url: string
    var data: seq<Parser.Section>
    var questions: seq<Engine.Question>

    /** `__init__`: the address, and no sections or questions yet. */
    constructor (url: string)
      ensures this.url == url && data == [] && questions == []
    {
      this.url := url;
      data, questions := [], [];
    }

    /**
     * `as_markdown`: append each section's lines in turn, one line per
     * definition and per data line of a vocabulary section, then join.
     */
    method AsMarkdown() returns (r: string)
      ensures r == Markdown(data)
    {
      var lines: seq<string> := [];
      for i := 0 to |data|
        invariant lines == Lines(data[..i])
      {
        LinesPrefix(data, i);
        lines := AppendSection(lines, data[i]);
      }
      assert data[..|data|] == data;
      r := Text.Join(lines, "\n");
    }
  }

  /** The body of the section loop of `as_markdown`: the three type tests, in order. */
  method AppendSection(lines: seq<string>, s: Parser.Section) returns (out: seq<string>)
    ensures out == lines + SectionLines(s)
  {
    out := lines;
    match s {
      case TitleData(title, description) =>
        out := out + ["# " + title];
        out := out + [description + "  "];
        assert out == lines + ["# " + title, description + "  "];
      case VocabData(_, title, definitions, dataLines) =>
        out := AppendVocabulary(out, title, definitions, dataLines);
      case SummaryData(summary) =>
        out := out + [""];
        out := out + ["## Summary"];
        out := out + [summary + " . "];
        assert out == lines + ["", "## Summary", summary + " . "];
    }
  }

  /** A vocabulary section: a blank line, its heading, its definitions, its data lines. */
  method AppendVocabulary(lines: seq<string>, title: string, definitions: seq<Parser.Definition>, dataLines: seq<string>)
    returns (out: seq<string>)
    ensures out == lines + (["", "## " + title] + Lists.Map(DefinitionLine, definitions) + Lists.Map(DataLine, dataLines))
  {
    out := lines + [""];
    out := out + ["## " + title];
    assert out == lines + ["", "## " + title];
    ghost var head := ["", "## " + title] + Lists.Map(DefinitionLine, definitions);
    out := AppendDefinitions(out, definitions);
    assert out == lines + head;
    out := AppendDataLines(out, dataLines);
  }

  /** `for definition in data["definitions"]`: one line per definition. */
  method AppendDefinitions(lines: seq<string>, definitions: seq<Parser.Definition>) returns (out: seq<string>)
    ensures out == lines + Lists.Map(DefinitionLine, definitions)
  {
    out := lines;
    for j := 0 to |definitions|
      invariant out == lines + Lists.Map(DefinitionLine, definitions[..j])
    {
      Lists.MapAppend(DefinitionLine, definitions[..j], [definitions[j]]);
      assert definitions[..j + 1] == definitions[..j] + [definitions[j]];
      out := out + ["- " + definitions[j].key + " : " + definitions[j].value + "  "];
    }
    assert definitions[..|definitions|] == definitions;
  }

  /** `for line in data["data"]`: one line per data line. */
  method AppendDataLines(lines: seq<string>, dataLines: seq<string>) returns (out: seq<string>)
    ensures out == lines + Lists.Map(DataLine, dataLines)
  {
    out := lines;
    for j := 0 to |dataLines|
      invariant out == lines + Lists.Map(DataLine, dataLines[..j])
    {
      Lists.MapAppend(DataLine, dataLines[..j], [dataLines[j]]);
      assert dataLines[..j + 1] == dataLines[..j] + [dataLines[j]];
      out := out + [dataLines[j] + "  "];
    }
    assert dataLines[..|dataLines|] == dataLines;
  }
}
