/**
 * The Python `str` built-ins the core relies on, over `string` (`seq<char>`):
 * `in` (substring containment), `split`, `join`, `strip`, `upper` and `lower`.
 */
module Text {
  import Lists

  /** Python's `s.startswith(p)`. */
  predicate StartsWith(s: string, p: string)
  {
    |p| <= |s| && s[..|p|] == p
  }

  /** `StartsWith` is the sequence-prefix relation. */
  lemma StartsWithPrefix(s: string, p: string)
    ensures StartsWith(s, p) <==> p <= s
  {
  }

  /** Substring containment, Python's `needle in hay` (XPath `contains`). */
  predicate Contains(hay: string, needle: string)
    decreases |hay|
  {
    StartsWith(hay, needle) || (hay != [] && Contains(hay[1..], needle))
  }

  /** `Contains` holds exactly when `needle` occurs at some position of `hay`. */
  lemma ContainsAt(hay: string, needle: string)
    ensures Contains(hay, needle) <==> exists i :: 0 <= i <= |hay| && StartsWith(hay[i..], needle)
  {
    if Contains(hay, needle) {
      var i := ContainsWitness(hay, needle);
    } else {
      ContainsNowhere(hay, needle);
    }
  }

  /** Where a contained `needle` occurs. */
  lemma {:induction false} ContainsWitness(hay: string, needle: string) returns (i: nat)
    requires Contains(hay, needle)
    ensures i <= |hay| && StartsWith(hay[i..], needle)
    decreases |hay|
  {
    if StartsWith(hay, needle) {
      assert hay[0..] == hay;
      i := 0;
    } else {
      var j := ContainsWitness(hay[1..], needle);
      assert hay[1..][j..] == hay[j + 1..];
      i := j + 1;
    }
  }

  /** A `needle` not contained occurs at no position. */
  lemma {:induction false} ContainsNowhere(hay: string, needle: string)
    requires !Contains(hay, needle)
    ensures forall i :: 0 <= i <= |hay| ==> !StartsWith(hay[i..], needle)
    decreases |hay|
  {
    assert hay[0..] == hay;
    if hay != [] {
      ContainsNowhere(hay[1..], needle);
      forall i | 1 <= i <= |hay| ensures !StartsWith(hay[i..], needle) {
        assert hay[1..][i - 1..] == hay[i..];
      }
    }
  }

  /** Python's whitespace (`str.isspace`) restricted to ASCII. */
  predicate IsSpace(c: char) {
    c == ' ' || c == '\t' || c == '\n' || c == '\r' || c == '\U{000B}' || c == '\U{000C}'
    || ('\U{001C}' <= c && c <= '\U{001F}')
  }

  /** Leading whitespace removed (`str.lstrip()`, see `StripStartMeans`). */
  function StripStart(s: string): (r: string)
    ensures |r| <= |s|
  {
    if s != [] && IsSpace(s[0]) then StripStart(s[1..]) else s
  }

  /** `lstrip` keeps a suffix that does not start with whitespace and drops only whitespace. */
  lemma {:induction false} StripStartMeans(s: string)
    ensures StripStart(s) == s[|s| - |StripStart(s)|..]
    ensures StripStart(s) == [] || !IsSpace(StripStart(s)[0])
    ensures forall i :: 0 <= i < |s| - |StripStart(s)| ==> IsSpace(s[i])
  {
    if s != [] && IsSpace(s[0]) {
      StripStartMeans(s[1..]);
      assert forall i :: 1 <= i < |s| - |StripStart(s)| ==> s[i] == s[1..][i - 1];
    }
  }

  /** Trailing whitespace removed (`str.rstrip()`, see `StripEndMeans`). */
  function StripEnd(s: string): (r: string)
    ensures |r| <= |s|
  {
    if s != [] && IsSpace(s[|s| - 1]) then StripEnd(s[..|s| - 1]) else s
  }

  /** `rstrip` keeps a prefix that does not end with whitespace and drops only whitespace. */
  lemma {:induction false} StripEndMeans(s: string)
    ensures StripEnd(s) == s[..|StripEnd(s)|]
    ensures StripEnd(s) == [] || !IsSpace(StripEnd(s)[|StripEnd(s)| - 1])
    ensures forall i :: |StripEnd(s)| <= i < |s| ==> IsSpace(s[i])
  {
    if s != [] && IsSpace(s[|s| - 1]) {
      StripEndMeans(s[..|s| - 1]);
    }
  }

  /** `str.strip()`: a contiguous slice of `s` with no whitespace at either end (see `StripSlice`). */
  function Strip(s: string): (r: string)
  {
    StripEnd(StripStart(s))
  }

  /** What `Strip` returns: the slice of `s` between its outer runs of whitespace. */
  lemma StripSlice(s: string)
    ensures exists i, j ::
      && 0 <= i <= j <= |s| && Strip(s) == s[i..j]
      && (forall k :: 0 <= k < i ==> IsSpace(s[k]))
      && (forall k :: j <= k < |s| ==> IsSpace(s[k]))
    ensures Strip(s) == [] || (!IsSpace(Strip(s)[0]) && !IsSpace(Strip(s)[|Strip(s)| - 1]))
  {
    var i, j := StripBounds(s);
  }

  /** The bounds of the slice `Strip` keeps. */
  lemma StripBounds(s: string) returns (i: nat, j: nat)
    ensures 0 <= i <= j <= |s| && Strip(s) == s[i..j]
    ensures forall k :: 0 <= k < i ==> IsSpace(s[k])
    ensures forall k :: j <= k < |s| ==> IsSpace(s[k])
    ensures Strip(s) == [] || (!IsSpace(Strip(s)[0]) && !IsSpace(Strip(s)[|Strip(s)| - 1]))
  {
    var t := StripStart(s);
    StripStartMeans(s);
    StripEndMeans(t);
    i := |s| - |t|;
    var r := StripEnd(t);
    j := i + |r|;
    assert r == s[i..j] by {
      assert r == t[..|r|] && t == s[i..];
    }
    forall k | j <= k < |s| ensures IsSpace(s[k]) {
      assert s[k] == t[k - i];
    }
  }

  /** Stripping twice is stripping once. */
  lemma StripIdempotent(s: string)
    ensures Strip(Strip(s)) == Strip(s)
  {
    var r := Strip(s);
    StripSlice(s);
    assert StripStart(r) == r;
  }

  /** A text with no whitespace at either end survives `strip`, even after a leading space. */
  lemma StripTrimmed(t: string)
    requires t == [] || (!IsSpace(t[0]) && !IsSpace(t[|t| - 1]))
    ensures Strip(t) == t && Strip(" " + t) == t
  {
    assert (" " + t)[1..] == t;
  }

  /** Python's `s.split(sep)` for a non-empty separator. */
  function Split(s: string, sep: string): (r: seq<string>)
    requires sep != []
    ensures |r| >= 1
  {
    SplitFrom(s, sep, [])
  }

  /** The scan behind `Split`: `cur` is the piece read so far. */
  function SplitFrom(s: string, sep: string, cur: string): (r: seq<string>)
    requires sep != []
    ensures |r| >= 1
    decreases |s|
  {
    if s == [] then [cur]
    else if sep <= s then [cur] + SplitFrom(s[|sep|..], sep, [])
    else SplitFrom(s[1..], sep, cur + [s[0]])
  }

  /** Python's `sep.join(parts)`. */
  function Join(parts: seq<string>, sep: string): string
  {
    if parts == [] then []
    else if |parts| == 1 then parts[0]
    else parts[0] + sep + Join(parts[1..], sep)
  }

  lemma {:induction false} JoinSplitFrom(s: string, sep: string, cur: string)
    requires sep != []
    ensures Join(SplitFrom(s, sep, cur), sep) == cur + s
    decreases |s|
  {
    if s == [] {
    } else if sep <= s {
      JoinSplitFrom(s[|sep|..], sep, []);
      JoinSplitAtSep(s, sep, cur);
    } else {
      JoinSplitFrom(s[1..], sep, cur + [s[0]]);
      JoinSplitPastChar(s, sep, cur);
    }
  }

  /** A separator at the front closes the current piece. */
  lemma JoinSplitAtSep(s: string, sep: string, cur: string)
    requires sep != [] && sep <= s
    requires Join(SplitFrom(s[|sep|..], sep, []), sep) == s[|sep|..]
    ensures Join(SplitFrom(s, sep, cur), sep) == cur + s
  {
    var rest := SplitFrom(s[|sep|..], sep, []);
    assert SplitFrom(s, sep, cur) == [cur] + rest;
    JoinFront(cur, rest, sep);
    PrefixRest(s, sep);
    AppendAssoc(cur, sep, s[|sep|..]);
  }

  /** Joining a first piece in front of at least one other. */
  lemma JoinFront(p: string, rest: seq<string>, sep: string)
    requires rest != []
    ensures Join([p] + rest, sep) == p + sep + Join(rest, sep)
  {
    assert ([p] + rest)[1..] == rest;
  }

  /** A text is its prefix followed by the remainder. */
  lemma PrefixRest(s: string, p: string)
    requires p <= s
    ensures p + s[|p|..] == s
  {
    assert s == s[..|p|] + s[|p|..];
  }

  lemma AppendAssoc(a: string, b: string, c: string)
    ensures a + b + c == a + (b + c)
  {
  }

  /** Any other character at the front joins the current piece. */
  lemma JoinSplitPastChar(s: string, sep: string, cur: string)
    requires sep != [] && s != [] && !(sep <= s)
    requires Join(SplitFrom(s[1..], sep, cur + [s[0]]), sep) == cur + [s[0]] + s[1..]
    ensures Join(SplitFrom(s, sep, cur), sep) == cur + s
  {
    assert s == [s[0]] + s[1..];
  }

  /** Joining the pieces of a split with the same separator gives back the text. */
  lemma JoinSplit(s: string, sep: string)
    requires sep != []
    ensures Join(Split(s, sep), sep) == s
  {
    JoinSplitFrom(s, sep, []);
  }

  lemma {:induction false} SplitFromSkips(p: string, tail: string, c: char, cur: string)
    requires c !in p
    ensures SplitFrom(p + tail, [c], cur) == SplitFrom(tail, [c], cur + p)
    decreases |p|
  {
    if p != [] {
      assert (p + tail)[0] == p[0];
      assert !([c] <= p + tail);
      assert (p + tail)[1..] == p[1..] + tail;
      SplitFromSkips(p[1..], tail, c, cur + [p[0]]);
      assert cur + [p[0]] + p[1..] == cur + p;
    } else {
      assert p + tail == tail;
      assert cur + p == cur;
    }
  }

  /** Text without the separator character splits into itself alone. */
  lemma SplitWithout(s: string, c: char)
    requires c !in s
    ensures Split(s, [c]) == [s]
  {
    SplitFromSkips(s, [], c, []);
    assert s + [] == s;
    assert [] + s == s;
  }

  /** `s.split(c)` has one piece more than `s` has occurrences of `c`. */
  lemma SplitCount(s: string, c: char)
    ensures |Split(s, [c])| == 1 + multiset(s)[c]
  {
    SplitFromCount(s, c, []);
  }

  lemma {:induction false} SplitFromCount(s: string, c: char, cur: string)
    ensures |SplitFrom(s, [c], cur)| == 1 + multiset(s)[c]
    decreases |s|
  {
    if s != [] {
      assert s == [s[0]] + s[1..];
      assert multiset(s) == multiset([s[0]]) + multiset(s[1..]);
      if [c] <= s {
        assert s[|[c]|..] == s[1..];
        SplitFromCount(s[1..], c, []);
      } else {
        SplitFromCount(s[1..], c, cur + [s[0]]);
      }
    }
  }

  /** Splitting on a character undoes joining on it when no piece contains it. */
  lemma {:induction false} SplitJoin(parts: seq<string>, c: char)
    requires |parts| >= 1
    requires forall k :: 0 <= k < |parts| ==> c !in parts[k]
    ensures Split(Join(parts, [c]), [c]) == parts
  {
    if |parts| == 1 {
      SplitWithout(parts[0], c);
    } else {
      var rest := Join(parts[1..], [c]);
      assert Join(parts, [c]) == parts[0] + ([c] + rest);
      SplitFromSkips(parts[0], [c] + rest, c, []);
      assert ([c] + rest)[1..] == rest;
      assert [c] <= [c] + rest;
      assert [] + parts[0] == parts[0];
      assert SplitFrom([c] + rest, [c], parts[0]) == [parts[0]] + SplitFrom(rest, [c], []);
      SplitJoin(parts[1..], c);
      assert parts == [parts[0]] + parts[1..];
    }
  }

  /** The first piece of `s.split(c)` is the text before the first `c`. */
  lemma {:induction false} SplitFirstPiece(s: string, c: char)
    ensures c !in Split(s, [c])[0]
    ensures Split(s, [c])[0] <= s
    ensures c !in s ==> Split(s, [c])[0] == s
  {
    FirstPieceFrom(s, c, []);
    if c !in s {
      SplitWithout(s, c);
    }
  }

  lemma {:induction false} FirstPieceFrom(s: string, c: char, cur: string)
    requires c !in cur
    ensures c !in SplitFrom(s, [c], cur)[0]
    ensures SplitFrom(s, [c], cur)[0] <= cur + s
    decreases |s|
  {
    if s == [] {
    } else if [c] <= s {
    } else {
      FirstPieceFrom(s[1..], c, cur + [s[0]]);
      assert cur + [s[0]] + s[1..] == cur + s;
    }
  }

  /** ASCII `str.upper()` on one character. */
  function UpperChar(c: char): char {
    if 'a' <= c <= 'z' then (c as int - 32) as char else c
  }

  /** ASCII `str.lower()` on one character. */
  function LowerChar(c: char): char {
    if 'A' <= c <= 'Z' then (c as int + 32) as char else c
  }

  /** `str.upper()` (ASCII letters only). */
  function Upper(s: string): (r: string)
    ensures |r| == |s|
  {
    Lists.Map(UpperChar, s)
  }

  /** `str.lower()` (ASCII letters only). */
  function Lower(s: string): (r: string)
    ensures |r| == |s|
  {
    Lists.Map(LowerChar, s)
  }

  /** Lower-casing leaves no ASCII capital, and changing case twice depends only on the last change. */
  lemma LowerUpper(s: string)
    ensures forall k :: 0 <= k < |s| ==> !('A' <= Lower(s)[k] <= 'Z')
    ensures Upper(Lower(s)) == Upper(s) && Lower(Upper(s)) == Lower(s)
  {
    forall k | 0 <= k < |s|
      ensures Upper(Lower(s))[k] == Upper(s)[k] && Lower(Upper(s))[k] == Lower(s)[k]
    {
    }
  }

  /** Upper-casing is idempotent and leaves no lower-case ASCII letter. */
  lemma UpperIdempotent(s: string)
    ensures Upper(Upper(s)) == Upper(s)
    ensures forall k :: 0 <= k < |s| ==> !('a' <= Upper(s)[k] <= 'z')
  {
  }

  /** Python's `list(s)`: the characters of `s` as one-character strings. */
  function Chars(s: string): (r: seq<string>)
    ensures |r| == |s|
    ensures forall k :: 0 <= k < |s| ==> r[k] == [s[k]]
  {
    Lists.Map((c: char) => [c], s)
  }

  /** Joining the characters of `s` back together gives `s`. */
  lemma {:induction false} JoinChars(s: string)
    ensures Join(Chars(s), "") == s
  {
    if |s| > 1 {
      var tail := Chars(s[1..]);
      assert Chars(s) == [[s[0]]] + tail;
      JoinChars(s[1..]);
      JoinFront([s[0]], tail, "");
      assert [s[0]] + "" + s[1..] == s;
    } else if |s| == 1 {
      assert Chars(s) == [[s[0]]];
    }
  }
}
