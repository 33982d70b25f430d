/**
 * The `.env` file store (`src/classes/dotenv.py`): a line parser, a
 * serialiser, and a key-value store that writes itself back on every change.
 * The file on disk is a field; reading and writing it are assignments.
 */
module Dotenv {
  import opened Wrappers
  import Lists
  import Text
  import Strings

  /** A Python dict: key-value pairs in insertion order, each key at most once. */
  type Pairs = seq<(string, string)>

  /** `d.get(key)`: the value stored under `key`, if any. */
  function Lookup(kvs: Pairs, key: string): Option<string>
  {
    if kvs == [] then None
    else if kvs[0].0 == key then Some(kvs[0].1)
    else Lookup(kvs[1..], key)
  }

  /** No key occurs twice, as in a dict. */
  predicate DistinctKeys(kvs: Pairs)
  {
    kvs == [] || (Lookup(kvs[1..], kvs[0].0).None? && DistinctKeys(kvs[1..]))
  }

  /** `d[key] = value`: an existing key keeps its place, a new key goes last. */
  function Put(kvs: Pairs, key: string, value: string): (r: Pairs)
    ensures |r| == |kvs| || |r| == |kvs| + 1
  {
    if kvs == [] then [(key, value)]
    else if kvs[0].0 == key then [(key, value)] + kvs[1..]
    else [kvs[0]] + Put(kvs[1..], key, value)
  }

  /** After `d[key] = value`, the key holds the value and every other key what it held. */
  lemma {:induction false} PutLookup(kvs: Pairs, key: string, value: string)
    ensures Lookup(Put(kvs, key, value), key) == Some(value)
    ensures forall other :: other != key ==> Lookup(Put(kvs, key, value), other) == Lookup(kvs, other)
  {
    if kvs != [] && kvs[0].0 != key {
      PutLookup(kvs[1..], key, value);
      assert Put(kvs, key, value)[1..] == Put(kvs[1..], key, value);
    } else if kvs != [] {
      assert Put(kvs, key, value)[1..] == kvs[1..];
    }
  }

  /** A new key is appended; an existing key keeps its place and the dict keeps its size. */
  lemma {:induction false} PutPlace(kvs: Pairs, key: string, value: string)
    ensures Lookup(kvs, key).None? ==> Put(kvs, key, value) == kvs + [(key, value)]
    ensures Lookup(kvs, key).Some? ==> |Put(kvs, key, value)| == |kvs|
  {
    if kvs != [] && kvs[0].0 != key {
      PutPlace(kvs[1..], key, value);
      assert [kvs[0]] + (kvs[1..] + [(key, value)]) == kvs + [(key, value)];
    }
  }

  /** Keys stay distinct under `d[key] = value`. */
  lemma {:induction false} PutDistinct(kvs: Pairs, key: string, value: string)
    requires DistinctKeys(kvs)
    ensures DistinctKeys(Put(kvs, key, value))
  {
    var r := Put(kvs, key, value);
    if kvs != [] && kvs[0].0 != key {
      PutDistinct(kvs[1..], key, value);
      PutLookup(kvs[1..], key, value);
      assert r[1..] == Put(kvs[1..], key, value);
    } else if kvs != [] {
      assert r[1..] == kvs[1..];
    }
  }

  /** `del d[key]` on a present key: the pair is dropped, the others keep their order. */
  function Delete(kvs: Pairs, key: string): (r: Pairs)
    ensures |r| <= |kvs|
  {
    if kvs == [] then []
    else if kvs[0].0 == key then kvs[1..]
    else [kvs[0]] + Delete(kvs[1..], key)
  }

  /** After `del d[key]` the key is gone and every other key holds what it held. */
  lemma {:induction false} DeleteLookup(kvs: Pairs, key: string)
    requires DistinctKeys(kvs)
    ensures Lookup(Delete(kvs, key), key).None?
    ensures forall other :: other != key ==> Lookup(Delete(kvs, key), other) == Lookup(kvs, other)
    ensures DistinctKeys(Delete(kvs, key))
  {
    if kvs != [] && kvs[0].0 != key {
      DeleteLookup(kvs[1..], key);
      assert Delete(kvs, key)[1..] == Delete(kvs[1..], key);
    }
  }

  /** Looking up in a dict with one more pair at the end. */
  lemma {:induction false} LookupAppend(kvs: Pairs, kv: (string, string), key: string)
    ensures Lookup(kvs + [kv], key) == if Lookup(kvs, key).Some? then Lookup(kvs, key) else if kv.0 == key then Some(kv.1) else None
  {
    if kvs == [] {
      assert kvs + [kv] == [kv];
    } else {
      assert (kvs + [kv])[1..] == kvs[1..] + [kv];
      LookupAppend(kvs[1..], kv, key);
    }
  }

  /** The errors the store raises: a malformed line, a missing key. */
  datatype DotenvError = ValueError | KeyError

  /**
   * One line of `update_values`: drop everything from the first `#`, skip
   * what is left if it is empty, and otherwise split it on `=` into exactly
   * a key and a value, removing the double quotes from the value.
   */
  function ParseLine(line: string): Result<Option<(string, string)>, DotenvError>
  {
    var body := Text.Split(line, "#")[0];
    if body == "" then Ok(None)
    else
      var parts := Text.Split(body, "=");
      if |parts| != 2 then Err(ValueError) else Ok(Some((parts[0], Strings.RemoveQuote(parts[1]))))
  }

  /** What parsing leaves: the values built so far, and whether a line raised. */
  datatype Loaded = Loaded(values: Pairs, failed: bool)

  /** The parsing loop from `acc` on: a malformed line stops it with the values built so far. */
  function Load(acc: Pairs, lines: seq<string>): Loaded
    decreases |lines|
  {
    if lines == [] then Loaded(acc, false)
    else match ParseLine(lines[0]) {
      case Err(_) => Loaded(acc, true)
      case Ok(None) => Load(acc, lines[1..])
      case Ok(Some(kv)) => Load(Put(acc, kv.0, kv.1), lines[1..])
    }
  }

  /** `update_values` on a file content: start from an empty dict, one line at a time. */
  function Parse(content: string): Loaded
  {
    Load([], Text.Split(content, "\n"))
  }

  /** A pair as `stringify_values` writes it: `key="value"`. */
  function PairLine(kv: (string, string)): string
  {
    kv.0 + "=\"" + kv.1 + "\""
  }

  /** `stringify_values`: the pair lines in insertion order, joined by newlines. */
  function Serialize(kvs: Pairs): string
  {
    Text.Join(Lists.Map(PairLine, kvs), "\n")
  }

  /** A text the serialiser can write and the parser read back unchanged. */
  predicate Plain(s: string)
  {
    '#' !in s && '=' !in s && '"' !in s && '\n' !in s
  }

  predicate AllPlain(kvs: Pairs)
  {
    forall i :: 0 <= i < |kvs| ==> Plain(kvs[i].0) && Plain(kvs[i].1)
  }

  /** A comment runs from the first `#` to the end of the line and is ignored. */
  lemma CommentIgnored(text: string, comment: string)
    requires '#' !in text
    ensures ParseLine(text + "#" + comment) == ParseLine(text)
  {
    Text.SplitFromSkips(text, "#" + comment, '#', []);
    assert [] + text == text;
    assert (text + "#" + comment) == text + ("#" + comment);
    assert Text.StartsWith("#" + comment, "#");
    assert ("#" + comment)[1..] == comment;
    Text.SplitWithout(text, '#');
  }

  /** Worked examples of `ParseLineRejects`: two `=` cannot be unpacked into a key and a value; an empty or comment-only line is skipped. */
  lemma ParseLineCases()
    ensures ParseLine("a=b=c") == Err(ValueError)
    ensures ParseLine("") == Ok(None)
    ensures ParseLine("#note") == Ok(None)
  {
    Text.SplitWithout("a=b=c", '#');
    Text.SplitJoin(["a", "b", "c"], '=');
    assert Text.Join(["a", "b", "c"], "=") == "a=b=c";
    assert Text.Split("", "#") == [""];
    CommentIgnored("", "note");
  }

  /**
   * `key, value = line.split("=")` raises exactly when what is left of the
   * line before its first `#` is not empty and holds no `=` or more than one.
   */
  lemma ParseLineRejects(line: string)
    ensures var body := Text.Split(line, "#")[0];
      ParseLine(line).Err? <==> body != "" && multiset(body)['='] != 1
  {
    var body := Text.Split(line, "#")[0];
    Text.SplitCount(body, '=');
  }

  /** Parsing keeps the keys distinct: a repeated key overwrites the earlier value. */
  lemma {:induction false} LoadDistinct(acc: Pairs, lines: seq<string>)
    requires DistinctKeys(acc)
    ensures DistinctKeys(Load(acc, lines).values)
    decreases |lines|
  {
    if lines != [] {
      match ParseLine(lines[0]) {
        case Err(_) =>
        case Ok(None) => LoadDistinct(acc, lines[1..]);
        case Ok(Some(kv)) =>
          PutDistinct(acc, kv.0, kv.1);
          LoadDistinct(Put(acc, kv.0, kv.1), lines[1..]);
      }
    }
  }

  /** Every file content parses to a dict with distinct keys. */
  lemma ParseDistinct(content: string)
    ensures DistinctKeys(Parse(content).values)
  {
    LoadDistinct([], Text.Split(content, "\n"));
  }

  /** A serialised pair parses back to itself. */
  lemma ParsePairLine(kv: (string, string))
    requires Plain(kv.0) && Plain(kv.1)
    ensures ParseLine(PairLine(kv)) == Ok(Some(kv))
  {
    var (k, v) := kv;
    var quoted := "\"" + v + "\"";
    var line := PairLine(kv);
    assert line == k + "=" + quoted;
    assert line[|k|] == '=';
    Text.SplitWithout(line, '#');
    assert [k, quoted][1..] == [quoted];
    Text.SplitJoin([k, quoted], '=');
    Strings.RemoveSurroundingQuotes(v);
  }

  /** Parsing serialised lines whose keys are new appends them in order. */
  lemma {:induction false} LoadPairLines(acc: Pairs, kvs: Pairs)
    requires AllPlain(kvs) && DistinctKeys(kvs)
    requires forall k :: Lookup(kvs, k).Some? ==> Lookup(acc, k).None?
    ensures Load(acc, Lists.Map(PairLine, kvs)) == Loaded(acc + kvs, false)
    decreases |kvs|
  {
    if kvs == [] {
      assert acc + kvs == acc;
    } else {
      var acc1, rest := acc + [kvs[0]], kvs[1..];
      assert acc1 + rest == acc + kvs;
      PairsAfterFirst(acc, kvs);
      LoadPairLines(acc1, rest);
      LoadPairStep(acc, kvs);
    }
  }

  /** The first serialised line of new pairs appends its pair. */
  lemma LoadPairStep(acc: Pairs, kvs: Pairs)
    requires kvs != [] && Plain(kvs[0].0) && Plain(kvs[0].1) && Lookup(acc, kvs[0].0).None?
    ensures Load(acc, Lists.Map(PairLine, kvs)) == Load(acc + [kvs[0]], Lists.Map(PairLine, kvs[1..]))
  {
    var lines := Lists.Map(PairLine, kvs);
    ParsePairLine(kvs[0]);
    assert lines[1..] == Lists.Map(PairLine, kvs[1..]);
    PutPlace(acc, kvs[0].0, kvs[0].1);
  }

  /** The premises of `LoadPairLines` hold again once the first pair is appended. */
  lemma PairsAfterFirst(acc: Pairs, kvs: Pairs)
    requires kvs != [] && AllPlain(kvs) && DistinctKeys(kvs)
    requires forall k :: Lookup(kvs, k).Some? ==> Lookup(acc, k).None?
    ensures Plain(kvs[0].0) && Plain(kvs[0].1) && Lookup(acc, kvs[0].0).None?
    ensures AllPlain(kvs[1..]) && DistinctKeys(kvs[1..])
    ensures forall k :: Lookup(kvs[1..], k).Some? ==> Lookup(acc + [kvs[0]], k).None?
  {
    var kv := kvs[0];
    assert Lookup(kvs, kv.0).Some?;
    forall k | Lookup(kvs[1..], k).Some? ensures Lookup(acc + [kv], k).None? {
      LookupAppend(acc, kv, k);
      assert Lookup(kvs, k) == Lookup(kvs[1..], k);
    }
    forall i | 0 <= i < |kvs[1..]| ensures Plain(kvs[1..][i].0) && Plain(kvs[1..][i].1) {
      assert kvs[1..][i] == kvs[i + 1];
    }
  }

  /**
   * The file `stringify_values` writes parses back to the same values when
   * no key or value holds `#`, `=`, `"` or a newline.
   */
  lemma SerializeRoundTrip(kvs: Pairs)
    requires AllPlain(kvs) && DistinctKeys(kvs)
    ensures Parse(Serialize(kvs)) == Loaded(kvs, false)
  {
    var lines := Lists.Map(PairLine, kvs);
    if kvs == [] {
      assert Text.Split("", "\n") == [""];
      assert Text.Split("", "#") == [""];
    } else {
      forall i | 0 <= i < |lines| ensures '\n' !in lines[i] {
        assert lines[i] == kvs[i].0 + "=\"" + kvs[i].1 + "\"";
      }
      Text.SplitJoin(lines, '\n');
      LoadPairLines([], kvs);
      assert [] + kvs == kvs;
    }
  }

  /** The store for one `.env` file. */
  class Dotenv {
    const path: string
    var file: string                 // what the file on disk holds
    var filecontent: Option<string>  // what was last read from it
    var values: Pairs

    /** The values form a dict: no key occurs twice. */
    ghost predicate Valid()
      reads this
    {
      DistinctKeys(values)
    }

    /** The fields `__init__` sets before it reads the file: no content yet, no values. */
    constructor (path: string, file: string)
      ensures this.path == path && this.file == file
      ensures filecontent == None && values == []
    {
      this.path, this.file := path, file;
      filecontent, values := None, [];
    }

    /**
     * `__init__` in full: set the fields, then read and parse the file. A
     * malformed line makes construction raise, so no store is returned.
     */
    static method Open(path: string, file: string) returns (r: Result<Dotenv, DotenvError>)
      ensures r.Err? <==> Parse(file).failed
      ensures r.Err? ==> r.error == ValueError
      ensures r.Ok? ==>
        && fresh(r.value)
        && r.value.path == path && r.value.file == file && r.value.filecontent == Some(file)
        && r.value.values == Parse(file).values
        && r.value.Valid()
    {
      var store := new Dotenv(path, file);
      var ok := store.UpdateFile();
      if !ok {
        return Err(ValueError);
      }
      r := Ok(store);
    }

    /**
     * `update_values`: nothing without file content; otherwise rebuild the
     * values line by line. A malformed line raises (`ok` is false) and leaves
     * the values built before it.
     */
    method UpdateValues() returns (ok: bool)
      modifies this
      ensures file == old(file) && filecontent == old(filecontent)
      ensures filecontent.None? ==> ok && values == old(values)
      ensures filecontent.Some? ==>
        && values == Parse(filecontent.value).values
        && ok == !Parse(filecontent.value).failed
      ensures filecontent.Some? ==> Valid()
      ensures old(Valid()) ==> Valid()
    {
      if filecontent.None? {
        return true;
      }
      var content := filecontent.value;
      ParseDistinct(content);
      values := [];
      var lines := Text.Split(content, "\n");
      for i := 0 to |lines|
        invariant filecontent == Some(content) && file == old(file)
        invariant Load(values, lines[i..]) == Parse(content)
      {
        assert lines[i..][1..] == lines[i + 1..];
        var parsed := ParseLine(lines[i]);
        if parsed.Err? {
          assert lines[i..][0] == lines[i];
          assert Load(values, lines[i..]) == Loaded(values, true);
          return false;
        }
        if parsed.value.Some? {
          values := Put(values, parsed.value.value.0, parsed.value.value.1);
        }
      }
      assert lines[|lines|..] == [];
      ok := true;
    }

    /** `stringify_values`: one `key="value"` per pair, in insertion order, joined by newlines. */
    method StringifyValues() returns (r: string)
      ensures r == Serialize(values)
    {
      var pairs: seq<string> := [];
      for i := 0 to |values|
        invariant pairs == Lists.Map(PairLine, values[..i])
      {
        Lists.MapAppend(PairLine, values[..i], [values[i]]);
        assert values[..i + 1] == values[..i] + [values[i]];
        pairs := pairs + [values[i].0 + "=\"" + values[i].1 + "\""];
      }
      assert values[..|values|] == values;
      r := Text.Join(pairs, "\n");
    }

    /** `update_file`: read the file, then rebuild the values from it. */
    method UpdateFile() returns (ok: bool)
      modifies this
      ensures file == old(file) && filecontent == Some(file)
      ensures values == Parse(file).values && ok == !Parse(file).failed
      ensures Valid()
    {
      filecontent := Some(file);
      ok := UpdateValues();
    }

    /** `push_values`: write the serialised values over the file. */
    method PushValues()
      modifies this
      ensures file == Serialize(values)
      ensures values == old(values) && filecontent == old(filecontent)
    {
      var text := StringifyValues();
      file := text;
    }

    /** `get_key`: the stored value, or `None` for an absent key. */
    method GetKey(key: string) returns (r: Option<string>)
      ensures r == Lookup(values, key)
    {
      r := None;
      for i := 0 to |values|
        invariant Lookup(values, key) == (if r.Some? then r else Lookup(values[i..], key))
      {
        assert values[i..][1..] == values[i + 1..];
        if values[i].0 == key {
          return Some(values[i].1);
        }
      }
      assert values[|values|..] == [];
    }

    /** `set_key`: store the value under the key, then write the file. */
    method SetKey(key: string, value: string)
      requires Valid()
      modifies this
      ensures values == Put(old(values), key, value)
      ensures file == Serialize(values) && filecontent == old(filecontent)
      ensures Valid()
      ensures Lookup(values, key) == Some(value)
      ensures forall other :: other != key ==> Lookup(values, other) == Lookup(old(values), other)
    {
      PutDistinct(values, key, value);
      PutLookup(values, key, value);
      values := Put(values, key, value);
      PushValues();
    }

    /** `remove_key`: a missing key raises `KeyError` and changes nothing; otherwise drop it and write the file. */
    method RemoveKey(key: string) returns (r: Result<(), DotenvError>)
      requires Valid()
      modifies this
      ensures Lookup(old(values), key).None? ==>
        r == Err(KeyError) && values == old(values) && file == old(file)
      ensures Lookup(old(values), key).Some? ==>
        && r == Ok(())
        && values == Delete(old(values), key)
        && file == Serialize(values)
      ensures filecontent == old(filecontent)
      ensures Valid()
      ensures Lookup(values, key).None?
      ensures forall other :: other != key ==> Lookup(values, other) == Lookup(old(values), other)
    {
      if Lookup(values, key).None? {
        return Err(KeyError);
      }
      DeleteLookup(values, key);
      values := Delete(values, key);
      PushValues();
      r := Ok(());
    }
  }

  /**
   * After `set_key` on plain keys and values, the file it wrote reads back
   * as the values it holds, with the new value under the key.
   */
  lemma SetKeyPersists(kvs: Pairs, key: string, value: string)
    requires AllPlain(kvs) && DistinctKeys(kvs) && Plain(key) && Plain(value)
    ensures Parse(Serialize(Put(kvs, key, value))) == Loaded(Put(kvs, key, value), false)
    ensures Lookup(Parse(Serialize(Put(kvs, key, value))).values, key) == Some(value)
  {
    PutPlain(kvs, key, value);
    PutDistinct(kvs, key, value);
    PutLookup(kvs, key, value);
    SerializeRoundTrip(Put(kvs, key, value));
  }

  lemma {:induction false} PutPlain(kvs: Pairs, key: string, value: string)
    requires AllPlain(kvs) && Plain(key) && Plain(value)
    ensures AllPlain(Put(kvs, key, value))
  {
    if kvs != [] && kvs[0].0 != key {
      PutPlain(kvs[1..], key, value);
      var r := Put(kvs, key, value);
      assert r[1..] == Put(kvs[1..], key, value);
      forall i | 1 <= i < |r| ensures Plain(r[i].0) && Plain(r[i].1) {
        assert r[i] == r[1..][i - 1];
      }
    }
  }
}
