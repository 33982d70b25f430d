/**
 * The lesson-section parser (`src/utils/parser.py`), with the HTML queries
 * replaced by their results: the section's class list, the vocabulary sets
 * each of the three set selectors finds, and the texts of the title,
 * objective, main and header elements.
 */
module Parser {
  import opened Wrappers
  import Lists
  import Text

  /** The five kinds of lesson section. */
  datatype SectionType = Title | Summary | VocabularyColsImages | VocabularyRowsImages | VocabularyRows

  /** The `type` string the section data carries. */
  function TypeName(t: SectionType): string
  {
    match t
    case Title => "TITLE"
    case Summary => "SUMMARY"
    case VocabularyColsImages => "VOCABULARY_COLS_IMAGES"
    case VocabularyRowsImages => "VOCABULARY_ROWS_IMAGES"
    case VocabularyRows => "VOCABULARY_ROWS"
  }

  /** Only the three vocabulary kinds have a name starting with `VOCABULARY`. */
  lemma TypeNameVocabulary(t: SectionType)
    ensures Text.StartsWith(TypeName(t), "VOCABULARY") <==> t !in {Title, Summary}
    ensures TypeName(t) == "TITLE" <==> t == Title
    ensures TypeName(t) == "SUMMARY" <==> t == Summary
  {
    match t
    case Title =>
    case Summary =>
    case _ => assert TypeName(t)[..10] == "VOCABULARY";
  }

  const TitleClass: string := "section_titleSlide_yes"
  const SummaryClass: string := "section_summarySlide_yes"

  /** The `AssertionError` raised when the set counts do not single out a kind. */
  datatype ParseError = CannotDetermineType

  /**
   * `get_section_type`: the title class, then the summary class; otherwise
   * the assertion on the three set counts (cols-images, rows-images, rows),
   * then the first positive one in that order.
   */
  function SectionTypeOf(classes: seq<string>, colsImages: nat, rowsImages: nat, rows: nat): (r: Result<SectionType, ParseError>)
    ensures TitleClass in classes ==> r == Ok(Title)
    ensures TitleClass !in classes && SummaryClass in classes ==> r == Ok(Summary)
  {
    if TitleClass in classes then Ok(Title)
    else if SummaryClass in classes then Ok(Summary)
    else
      var sets := [colsImages, rowsImages, rows];
      if !(|Lists.Filter((s: nat) => s > 0, sets)| == 1 || |Lists.Filter((s: nat) => s != 0, sets)| == 1) then
        Err(CannotDetermineType)
      else if colsImages > 0 then Ok(VocabularyColsImages)
      else if rowsImages != 0 then Ok(VocabularyRowsImages)
      else if rows != 0 then Ok(VocabularyRows)
      else Err(CannotDetermineType)
  }

  /** Exactly one of the three counts is positive. */
  predicate ExactlyOnePositive(a: nat, b: nat, c: nat)
  {
    (a > 0 && b == 0 && c == 0) || (a == 0 && b > 0 && c == 0) || (a == 0 && b == 0 && c > 0)
  }

  /** How many of the three counts are positive. */
  lemma PositiveCount(a: nat, b: nat, c: nat)
    ensures |Lists.Filter((s: nat) => s > 0, [a, b, c])| == (if a > 0 then 1 else 0) + (if b > 0 then 1 else 0) + (if c > 0 then 1 else 0)
    ensures Lists.Filter((s: nat) => s != 0, [a, b, c]) == Lists.Filter((s: nat) => s > 0, [a, b, c])
  {
    var p := (s: nat) => s > 0;
    var q := (s: nat) => s != 0;
    assert [a, b, c][1..] == [b, c] && [b, c][1..] == [c] && [c][1..] == [];
    assert Lists.Filter(p, [c]) == Lists.Filter(q, [c]) == if c > 0 then [c] else [];
    assert Lists.Filter(p, [b, c]) == Lists.Filter(q, [b, c]) == (if b > 0 then [b] else []) + Lists.Filter(p, [c]);
    assert Lists.Filter(p, [a, b, c]) == Lists.Filter(q, [a, b, c]) == (if a > 0 then [a] else []) + Lists.Filter(p, [b, c]);
  }

  /**
   * Without the title and summary classes, a section is classified exactly
   * when one set count is positive, and then as the kind of that count;
   * otherwise the assertion fails.
   */
  lemma SectionTypeVocabulary(classes: seq<string>, a: nat, b: nat, c: nat)
    requires TitleClass !in classes && SummaryClass !in classes
    ensures SectionTypeOf(classes, a, b, c).Ok? <==> ExactlyOnePositive(a, b, c)
    ensures SectionTypeOf(classes, a, b, c).Err? ==> SectionTypeOf(classes, a, b, c).error == CannotDetermineType
    ensures a > 0 && b == 0 && c == 0 ==> SectionTypeOf(classes, a, b, c) == Ok(VocabularyColsImages)
    ensures a == 0 && b > 0 && c == 0 ==> SectionTypeOf(classes, a, b, c) == Ok(VocabularyRowsImages)
    ensures a == 0 && b == 0 && c > 0 ==> SectionTypeOf(classes, a, b, c) == Ok(VocabularyRows)
  {
    PositiveCount(a, b, c);
  }

  /**
   * One vocabulary set as the handler sees it: its key-phrase texts, its
   * number of audio buttons, its text, and its text once the first key
   * phrase is removed from it.
   */
  datatype VocabSet = VocabSet(keyPhrases: seq<string>, audioButtons: nat, text: string, textWithoutKey: string)

  /** A key phrase and what the set says about it. */
  datatype Definition = Definition(key: string, value: string)

  /** The data `get_data_from_section` returns, with its `type` given by `TypeOf`. */
  datatype Section =
    | TitleData(title: string, description: string)
    | SummaryData(data: string)
    | VocabData(kind: SectionType, title: string, definitions: seq<Definition>, lines: seq<string>)  // `lines` is the `data` list

  function TypeOf(s: Section): SectionType
  {
    match s
    case TitleData(_, _) => Title
    case SummaryData(_) => Summary
    case VocabData(kind, _, _, _) => kind
  }

  /** A set with at least one key phrase and one audio button is a definition. */
  predicate IsDefinition(s: VocabSet)
  {
    |s.keyPhrases| > 0 && s.audioButtons > 0
  }

  /** The definitions the sets give, in order. */
  function Definitions(sets: seq<VocabSet>): seq<Definition>
  {
    if sets == [] then []
    else
      (if IsDefinition(sets[0]) then [Definition(Text.Strip(sets[0].keyPhrases[0]), Text.Strip(sets[0].textWithoutKey))] else [])
      + Definitions(sets[1..])
  }

  /** The stripped texts of the sets that are not definitions, in order. */
  function DataLines(sets: seq<VocabSet>): seq<string>
  {
    if sets == [] then []
    else (if IsDefinition(sets[0]) then [] else [Text.Strip(sets[0].text)]) + DataLines(sets[1..])
  }

  /** Every set lands in exactly one of the two lists. */
  lemma {:induction false} VocabPartition(sets: seq<VocabSet>)
    ensures |Definitions(sets)| + |DataLines(sets)| == |sets|
    ensures |Definitions(sets)| == |Lists.Filter(IsDefinition, sets)|
  {
    if sets != [] {
      VocabPartition(sets[1..]);
    }
  }

  /** A definition's key is the first key phrase, stripped; the other sets give their stripped text. */
  lemma {:induction false} VocabLists(sets: seq<VocabSet>)
    ensures forall s :: s in sets && IsDefinition(s) ==>
      Definition(Text.Strip(s.keyPhrases[0]), Text.Strip(s.textWithoutKey)) in Definitions(sets)
    ensures forall s :: s in sets && !IsDefinition(s) ==> Text.Strip(s.text) in DataLines(sets)
  {
    if sets != [] {
      VocabLists(sets[1..]);
      forall s | s in sets ensures s == sets[0] || s in sets[1..] {
      }
    }
  }

  /** The lists grow at the end as the loop goes through the sets. */
  lemma {:induction false} VocabAppend(sets: seq<VocabSet>, s: VocabSet)
    ensures Definitions(sets + [s]) == Definitions(sets) + Definitions([s])
    ensures DataLines(sets + [s]) == DataLines(sets) + DataLines([s])
  {
    if sets != [] {
      assert (sets + [s])[1..] == sets[1..] + [s];
      VocabAppend(sets[1..], s);
    } else {
      assert sets + [s] == [s];
    }
  }

  /**
   * `handle_vocab`: one pass over the sets, appending each to the
   * definitions or to the data lines; the title is the stripped header.
   */
  method HandleVocab(kind: SectionType, sets: seq<VocabSet>, header: string) returns (r: Section)
    ensures r == VocabData(kind, Text.Strip(header), Definitions(sets), DataLines(sets))
  {
    var defs: seq<Definition> := [];
    var data: seq<string> := [];
    for i := 0 to |sets|
      invariant defs == Definitions(sets[..i]) && data == DataLines(sets[..i])
    {
      var s := sets[i];
      VocabAppend(sets[..i], s);
      assert sets[..i + 1] == sets[..i] + [s];
      if |s.keyPhrases| > 0 && s.audioButtons > 0 {
        defs := defs + [Definition(Text.Strip(s.keyPhrases[0]), Text.Strip(s.textWithoutKey))];
      } else {
        data := data + [Text.Strip(s.text)];
      }
    }
    assert sets[..|sets|] == sets;
    r := VocabData(kind, Text.Strip(header), defs, data);
  }

  /** The section as the queries see it. */
  datatype SectionPage = SectionPage(
    classes: seq<string>,           // classes of the `.section` element
    colsImages: seq<VocabSet>,      // `.SetsAudsImgsSlide__set`
    rowsImages: seq<VocabSet>,      // `.MimgSetAudSlide__set`
    rows: seq<VocabSet>,            // `.SetsAudsSlide__set`
    title: string,                  // `h3.TitleSlide__title`
    objective: string,              // `p.TitleSlide__objective`
    main: string,                   // `.section__main`
    header: string)                 // `h3.section-header`

  /** The sets a vocabulary kind's handler reads. */
  function SetsOf(p: SectionPage, kind: SectionType): seq<VocabSet>
  {
    match kind
    case VocabularyColsImages => p.colsImages
    case VocabularyRowsImages => p.rowsImages
    case _ => p.rows
  }

  /** What `get_data_from_section` returns for a classified section. */
  function SectionData(p: SectionPage): (r: Result<Section, ParseError>)
    ensures r.Err? <==> SectionTypeOf(p.classes, |p.colsImages|, |p.rowsImages|, |p.rows|).Err?
    ensures r.Ok? ==> TypeOf(r.value) == SectionTypeOf(p.classes, |p.colsImages|, |p.rowsImages|, |p.rows|).value
  {
    match SectionTypeOf(p.classes, |p.colsImages|, |p.rowsImages|, |p.rows|)
    case Err(e) => Err(e)
    case Ok(Title) => Ok(TitleData(Text.Strip(p.title), Text.Strip(p.objective)))
    case Ok(Summary) => Ok(SummaryData(Text.Strip(p.main)))
    case Ok(kind) =>
      var sets := SetsOf(p, kind);
      Ok(VocabData(kind, Text.Strip(p.header), Definitions(sets), DataLines(sets)))
  }

  /**
   * A vocabulary section's definitions and data lines come from the sets
   * whose count classified it, and share them out between them.
   */
  lemma SectionDataVocabulary(p: SectionPage)
    requires TitleClass !in p.classes && SummaryClass !in p.classes
    requires ExactlyOnePositive(|p.colsImages|, |p.rowsImages|, |p.rows|)
    ensures SectionData(p).Ok? && SectionData(p).value.VocabData?
    ensures var v := SectionData(p).value;
      && (v.kind == VocabularyColsImages <==> |p.colsImages| > 0)
      && (v.kind == VocabularyRowsImages <==> |p.rowsImages| > 0)
      && (v.kind == VocabularyRows <==> |p.rows| > 0)
      && |v.definitions| + |v.lines| == |SetsOf(p, v.kind)| > 0
  {
    SectionTypeVocabulary(p.classes, |p.colsImages|, |p.rowsImages|, |p.rows|);
    var v := SectionData(p).value;
    VocabPartition(SetsOf(p, v.kind));
  }

  /** `get_data_from_section`: classify the section, then run that kind's handler. */
  method GetDataFromSection(p: SectionPage) returns (r: Result<Section, ParseError>)
    ensures r == SectionData(p)
  {
    var kind := SectionTypeOf(p.classes, |p.colsImages|, |p.rowsImages|, |p.rows|);
    if kind.Err? {
      return Err(kind.error);
    }
    match kind.value {
      case Title =>
        r := Ok(TitleData(Text.Strip(p.title), Text.Strip(p.objective)));
      case Summary =>
        r := Ok(SummaryData(Text.Strip(p.main)));
      case VocabularyColsImages =>
        var v := HandleVocab(VocabularyColsImages, p.colsImages, p.header);
        r := Ok(v);
      case VocabularyRowsImages =>
        var v := HandleVocab(VocabularyRowsImages, p.rowsImages, p.header);
        r := Ok(v);
      case VocabularyRows =>
        var v := HandleVocab(VocabularyRows, p.rows, p.header);
        r := Ok(v);
    }
  }
}
