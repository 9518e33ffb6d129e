/**
 * The pieces of Python's string handling the spider relies on:
 * `str.split()` with no argument, `str.split(sep)`, `''.join(...)`, and the
 * whitespace test they share.
 */
module Text {

  import opened Wrappers

  /** Python's `str.isspace()` for one character (the set CPython calls
    * Py_UNICODE_ISSPACE); `str.split()` and the `\s` of `re` use it. */
  predicate IsSpace(c: char)
  {
    ('\t' <= c <= '\r') || ('\U{1C}' <= c <= '\U{1F}') || c == ' '
    || c == '\U{85}' || c == '\U{A0}' || c == '\U{1680}'
    || ('\U{2000}' <= c <= '\U{200A}') || c == '\U{2028}' || c == '\U{2029}'
    || c == '\U{202F}' || c == '\U{205F}' || c == '\U{3000}'
  }

  predicate NoSpace(s: string)
  {
    forall i :: 0 <= i < |s| ==> !IsSpace(s[i])
  }

  predicate AllSpace(s: string)
  {
    forall i :: 0 <= i < |s| ==> IsSpace(s[i])
  }

  /** A token of `str.split()`: non-empty and free of whitespace. */
  predicate IsWord(w: string)
  {
    |w| > 0 && NoSpace(w)
  }

  /** Length of the leading run of whitespace of `s`. */
  function SpanSpace(s: string): (n: nat)
    ensures n <= |s|
    ensures AllSpace(s[..n])
    ensures n < |s| ==> !IsSpace(s[n])
  {
    if s == [] || !IsSpace(s[0]) then 0 else 1 + SpanSpace(s[1..])
  }

  /** Length of the leading run of non-whitespace of `s`. */
  function SpanWord(s: string): (n: nat)
    ensures n <= |s|
    ensures NoSpace(s[..n])
    ensures n < |s| ==> IsSpace(s[n])
  {
    if s == [] || IsSpace(s[0]) then 0 else 1 + SpanWord(s[1..])
  }

  /** Python's `s.split()`: the maximal runs of non-whitespace, in order. */
  function Words(s: string): (ws: seq<string>)
    ensures forall k :: 0 <= k < |ws| ==> IsWord(ws[k])
    decreases |s|
  {
    var t := s[SpanSpace(s)..];
    if t == [] then []
    else
      var n := SpanWord(t);
      [t[..n]] + Words(t[n..])
  }

  /** Python's `''.join(ws)`. */
  function Concat(ws: seq<string>): (r: string)
    ensures (forall k :: 0 <= k < |ws| ==> NoSpace(ws[k])) ==> NoSpace(r)
  {
    if ws == [] then [] else ws[0] + Concat(ws[1..])
  }

  /** `s` with every whitespace character deleted: the reference meaning of
    * `''.join(s.split())`. */
  function RemoveSpace(s: string): (r: string)
    ensures NoSpace(r)
    ensures |r| <= |s|
  {
    if s == [] then []
    else (if IsSpace(s[0]) then [] else [s[0]]) + RemoveSpace(s[1..])
  }

  lemma {:induction false} RemoveSpaceAppend(a: string, b: string)
    ensures RemoveSpace(a + b) == RemoveSpace(a) + RemoveSpace(b)
    decreases |a|
  {
    if a != [] {
      assert (a + b)[1..] == a[1..] + b;
      RemoveSpaceAppend(a[1..], b);
    } else {
      assert a + b == b;
    }
  }

  lemma {:induction false} RemoveSpaceOfAllSpace(s: string)
    requires AllSpace(s)
    ensures RemoveSpace(s) == []
    decreases |s|
  {
    if s != [] {
      RemoveSpaceOfAllSpace(s[1..]);
    }
  }

  lemma {:induction false} RemoveSpaceOfNoSpace(s: string)
    requires NoSpace(s)
    ensures RemoveSpace(s) == s
    decreases |s|
  {
    if s != [] {
      RemoveSpaceOfNoSpace(s[1..]);
      assert [s[0]] + s[1..] == s;
    }
  }

  /** One step of `Words`: skip the leading blank run, take one word. */
  lemma WordsStep(s: string) returns (a: nat, n: nat)
    requires !AllSpace(s)
    ensures a + n <= |s| && 1 <= n
    ensures AllSpace(s[..a]) && NoSpace(s[a..a + n])
    ensures a + n < |s| ==> IsSpace(s[a + n])
    ensures Words(s) == [s[a..a + n]] + Words(s[a + n..])
  {
    a := SpanSpace(s);
    var t := s[a..];
    n := SpanWord(t);
    assert t[..n] == s[a..a + n];
    assert t[n..] == s[a + n..];
  }

  /** `''.join(s.split())` deletes exactly the whitespace of `s`. */
  lemma {:induction false} ConcatWordsRemovesSpace(s: string)
    ensures Concat(Words(s)) == RemoveSpace(s)
    decreases |s|
  {
    if AllSpace(s) {
      assert s[SpanSpace(s)..] == [];
      RemoveSpaceOfAllSpace(s);
    } else {
      var a, n := WordsStep(s);
      var w, rest := s[a..a + n], s[a + n..];
      assert Concat([w] + Words(rest)) == w + Concat(Words(rest)) by {
        assert ([w] + Words(rest))[1..] == Words(rest);
      }
      ConcatWordsRemovesSpace(rest);
      RemoveSpaceAroundWord(s, a, n);
    }
  }

  lemma RemoveSpaceAroundWord(s: string, a: nat, b: nat)
    requires a + b <= |s| && AllSpace(s[..a]) && NoSpace(s[a..a + b])
    ensures RemoveSpace(s) == s[a..a + b] + RemoveSpace(s[a + b..])
  {
    var blank, w, rest := s[..a], s[a..a + b], s[a + b..];
    assert s == blank + (w + rest);
    RemoveSpaceOfPieces(blank, w, rest);
  }

  lemma RemoveSpaceOfPieces(blank: string, w: string, rest: string)
    requires AllSpace(blank) && NoSpace(w)
    ensures RemoveSpace(blank + (w + rest)) == w + RemoveSpace(rest)
  {
    RemoveSpaceAppend(blank, w + rest);
    RemoveSpaceOfAllSpace(blank);
    RemoveSpaceAppend(w, rest);
    RemoveSpaceOfNoSpace(w);
  }

  /** `s.split()` is empty exactly when `s` is blank (empty or all whitespace). */
  lemma WordsEmptyIffBlank(s: string)
    ensures Words(s) == [] <==> AllSpace(s)
  {
    var a := SpanSpace(s);
    if a == |s| {
      assert s[..a] == s;
    } else {
      assert !IsSpace(s[a]);
      assert s[a..] != [];
    }
  }

  lemma {:induction false} SpanWordOfNoSpace(s: string)
    requires NoSpace(s)
    ensures SpanWord(s) == |s|
    decreases |s|
  {
    if s != [] {
      SpanWordOfNoSpace(s[1..]);
    }
  }

  /** A single word splits to itself, so re-splitting and re-joining it is a
    * no-op. */
  lemma WordSplitsToItself(w: string)
    requires IsWord(w)
    ensures Words(w) == [w]
    ensures Concat(Words(w)) == w
  {
    assert SpanSpace(w) == 0;
    SpanWordOfNoSpace(w);
    assert w[0..] == w && w[..|w|] == w;
    assert w[|w|..] == [];
    assert Words(w[|w|..]) == [];
  }

  /** The first whitespace-delimited token, `s.split()[0]`, when there is one. */
  function FirstWord(s: string): (r: Option<string>)
    ensures r.Some? <==> !AllSpace(s)
    ensures r.Some? ==> IsWord(r.value)
  {
    WordsEmptyIffBlank(s);
    var ws := Words(s);
    if ws == [] then None else Some(ws[0])
  }

  lemma {:induction false} SpanWordOfWordThenSpace(w: string, rest: string)
    requires NoSpace(w)
    requires rest == [] || IsSpace(rest[0])
    ensures SpanWord(w + rest) == |w|
    decreases |w|
  {
    if w == [] {
      assert w + rest == rest;
    } else {
      assert (w + rest)[1..] == w[1..] + rest;
      SpanWordOfWordThenSpace(w[1..], rest);
    }
  }

  /** The first token of a word followed by whitespace (or nothing) is that
    * word: `"33 Km".split()[0] == "33"`. */
  lemma FirstWordOfWordThenSpace(w: string, rest: string)
    requires IsWord(w)
    requires rest == [] || IsSpace(rest[0])
    ensures FirstWord(w + rest) == Some(w)
  {
    var s := w + rest;
    assert s[0] == w[0];
    assert SpanSpace(s) == 0;
    assert s[0..] == s;
    SpanWordOfWordThenSpace(w, rest);
    assert s[..|w|] == w;
  }

  lemma {:induction false} SpanSpaceOfBlankThen(b: string, t: string)
    requires AllSpace(b)
    requires t == [] || !IsSpace(t[0])
    ensures SpanSpace(b + t) == |b|
    decreases |b|
  {
    if b == [] {
      assert b + t == t;
    } else {
      assert (b + t)[1..] == b[1..] + t;
      SpanSpaceOfBlankThen(b[1..], t);
    }
  }

  /** Where `str.split()` cuts: after a blank run, a word that ends at
    * whitespace (or at the end) is the next token, and the split goes on
    * from there. With `WordsEmptyIffBlank` this fixes every token. */
  lemma WordsAfterBlank(b: string, w: string, rest: string)
    requires AllSpace(b) && IsWord(w)
    requires rest == [] || IsSpace(rest[0])
    ensures Words(b + w + rest) == [w] + Words(rest)
  {
    var s := b + w + rest;
    assert s == b + (w + rest);
    SpanSpaceOfBlankThen(b, w + rest);
    assert s[|b|..] == w + rest;
    SpanWordOfWordThenSpace(w, rest);
    assert (w + rest)[..|w|] == w;
    assert (w + rest)[|w|..] == rest;
  }

  /** The first token of a cell with leading whitespace, such as " 33 Km". */
  lemma FirstWordAfterBlank(b: string, w: string, rest: string)
    requires AllSpace(b) && IsWord(w)
    requires rest == [] || IsSpace(rest[0])
    ensures FirstWord(b + w + rest) == Some(w)
  {
    WordsAfterBlank(b, w, rest);
  }

  /** Concatenation regrouped; a helper that keeps the sequence reasoning
    * out of the larger proofs. */
  lemma Regroup<T>(a: seq<T>, b: seq<T>, c: seq<T>, d: seq<T>, e: seq<T>)
    ensures a + b + c + d + e == a + b + (c + d + e)
  {
  }

  lemma Regroup4<T>(a: seq<T>, b: seq<T>, c: seq<T>, d: seq<T>)
    ensures a + (b + c) + d == a + b + c + d
  {
  }

  lemma SliceThree<T>(s: seq<T>, i: int, j: int)
    requires 0 <= i <= j <= |s|
    ensures s == s[..i] + s[i..j] + s[j..]
  {
  }

  /** Conversely, the first token is preceded only by whitespace and is
    * followed by whitespace or by the end of the string. */
  lemma FirstWordDecomposes(s: string, w: string) returns (b: string, rest: string)
    requires FirstWord(s) == Some(w)
    ensures AllSpace(b) && (rest == [] || IsSpace(rest[0]))
    ensures s == b + w + rest
  {
    var a, n := WordsStep(s);
    assert w == Words(s)[0] == s[a..a + n];
    b, rest := s[..a], s[a + n..];
    SliceThree(s, a, a + n);
  }


  // ---------------------------------------------------------------------
  // str.split(sep) and sep.join(parts)

  /** Python's `s.split(sep)` for a one-character separator: always at least
    * one part, and no part contains the separator. */
  function Split(s: string, sep: char): (parts: seq<string>)
    ensures |parts| >= 1
    ensures forall k :: 0 <= k < |parts| ==> sep !in parts[k]
    ensures |parts| >= 2 <==> sep in s
    decreases |s|
  {
    if s == [] then [""]
    else if s[0] == sep then [""] + Split(s[1..], sep)
    else
      var rest := Split(s[1..], sep);
      assert sep in s <==> sep in s[1..] by {
        assert s == [s[0]] + s[1..];
      }
      [[s[0]] + rest[0]] + rest[1..]
  }

  /** Python's `sep.join(parts)`. */
  function Join(parts: seq<string>, sep: char): string
    requires |parts| >= 1
  {
    if |parts| == 1 then parts[0] else parts[0] + [sep] + Join(parts[1..], sep)
  }

  /** Joining the parts back with the separator gives the original string. */
  lemma {:induction false} JoinSplit(s: string, sep: char)
    ensures Join(Split(s, sep), sep) == s
    decreases |s|
  {
    if s == [] {
    } else if s[0] == sep {
      JoinSplit(s[1..], sep);
      assert [sep] + s[1..] == s;
    } else {
      var rest := Split(s[1..], sep);
      var parts := [[s[0]] + rest[0]] + rest[1..];
      assert Split(s, sep) == parts;
      JoinSplit(s[1..], sep);
      assert [s[0]] + s[1..] == s;
      if |rest| == 1 {
        assert parts == [[s[0]] + rest[0]];
      } else {
        assert parts[1..] == rest[1..];
        var more := Join(rest[1..], sep);
        assert Join(parts, sep) == ([s[0]] + rest[0]) + [sep] + more;
        assert Join(rest, sep) == rest[0] + [sep] + more;
        assert ([s[0]] + rest[0]) + [sep] + more == [s[0]] + (rest[0] + [sep] + more);
      }
    }
  }

  /** A string without the separator is a single part. */
  lemma {:induction false} SplitNoSep(s: string, sep: char)
    requires sep !in s
    ensures Split(s, sep) == [s]
    decreases |s|
  {
    if s != [] {
      SplitNoSep(s[1..], sep);
      assert [s[0]] + s[1..] == s;
    }
  }

  /** Splitting at the first separator: the part before it, then the split of
    * the rest. */
  lemma {:induction false} SplitAtFirst(a: string, sep: char, b: string)
    requires sep !in a
    ensures Split(a + [sep] + b, sep) == [a] + Split(b, sep)
    decreases |a|
  {
    if a == [] {
      assert a + [sep] + b == [sep] + b;
      assert ([sep] + b)[1..] == b;
    } else {
      var s := a + [sep] + b;
      assert s[0] == a[0];
      assert s[1..] == a[1..] + [sep] + b;
      SplitAtFirst(a[1..], sep, b);
      assert [a[0]] + a[1..] == a;
    }
  }
}
