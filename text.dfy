/** The pieces of Python's `str` that the core relies on: whitespace, `strip()`,
    and `split(sep)` / `sep.join(...)` for a one-character separator. */
module Text {

  /** The characters CPython's `str.isspace()` accepts, which are the ones
      `str.strip()` removes when called without arguments. */
  predicate IsWhitespace(c: char) {
    ('\t' <= c <= '\r')                    // \t \n \v \f \r
    || ('\U{1C}' <= c <= '\U{1F}')         // file, group, record and unit separators
    || c == ' ' || c == '\U{85}' || c == '\U{A0}' || c == '\U{1680}'
    || ('\U{2000}' <= c <= '\U{200A}')
    || c == '\U{2028}' || c == '\U{2029}' || c == '\U{202F}' || c == '\U{205F}' || c == '\U{3000}'
  }

  /** A string made only of whitespace (the empty string included). */
  predicate IsBlank(s: string) {
    forall i :: 0 <= i < |s| ==> IsWhitespace(s[i])
  }

  /** `s.lstrip()` */
  function TrimStart(s: string): (r: string)
    ensures |r| <= |s| && r == s[|s| - |r|..]
    ensures IsBlank(s[..|s| - |r|])
    ensures r == [] || !IsWhitespace(r[0])
  {
    if s != [] && IsWhitespace(s[0]) then
      var t := s[1..];
      var r := TrimStart(t);
      assert s[..|s| - |r|] == [s[0]] + t[..|t| - |r|];
      r
    else s
  }

  /** `s.rstrip()` */
  function TrimEnd(s: string): (r: string)
    ensures |r| <= |s| && r == s[..|r|]
    ensures IsBlank(s[|r|..])
    ensures r == [] || !IsWhitespace(r[|r| - 1])
  {
    if s != [] && IsWhitespace(s[|s| - 1]) then
      var t := s[..|s| - 1];
      var r := TrimEnd(t);
      assert s[|r|..] == t[|r|..] + [s[|s| - 1]];
      r
    else s
  }

  /** `s.strip()` */
  function Strip(s: string): (r: string)
    ensures |r| <= |s|
    ensures r == [] || (!IsWhitespace(r[0]) && !IsWhitespace(r[|r| - 1]))
  {
    TrimEnd(TrimStart(s))
  }

  /** Python's truth value of `s.strip()`: it is empty exactly when `s` is blank. */
  lemma StripEmptyIffBlank(s: string)
    ensures Strip(s) == [] <==> IsBlank(s)
  {
    var t := TrimStart(s);
    var k := |s| - |t|;
    if Strip(s) == [] {
      assert IsBlank(t[0..]);
      // a blank remainder means TrimStart already consumed everything
      assert t == [];
      forall i | 0 <= i < |s| ensures IsWhitespace(s[i]) {
        assert s[i] == s[..k][i];
      }
    }
  }

  /** `lstrip()` removes a blank prefix and stops at the first other character. */
  lemma {:induction false} TrimStartBlankPrefix(w: string, r: string)
    requires IsBlank(w) && (r == [] || !IsWhitespace(r[0]))
    ensures TrimStart(w + r) == r
  {
    if w == [] {
      assert w + r == r;
    } else {
      assert (w + r)[0] == w[0];
      assert (w + r)[1..] == w[1..] + r;
      TrimStartBlankPrefix(w[1..], r);
    }
  }

  /** `rstrip()` removes a blank suffix and stops at the last other character. */
  lemma {:induction false} TrimEndBlankSuffix(r: string, w: string)
    requires IsBlank(w) && (r == [] || !IsWhitespace(r[|r| - 1]))
    ensures TrimEnd(r + w) == r
  {
    if w == [] {
      assert r + w == r;
    } else {
      var n := |w| - 1;
      assert (r + w)[|r + w| - 1] == w[n];
      assert (r + w)[..|r + w| - 1] == r + w[..n];
      TrimEndBlankSuffix(r, w[..n]);
    }
  }

  /** `strip()` removes exactly the whitespace around a string whose ends are not
      whitespace. */
  lemma StripSurrounded(before: string, core: string, after: string)
    requires IsBlank(before) && IsBlank(after)
    requires core != [] && !IsWhitespace(core[0]) && !IsWhitespace(core[|core| - 1])
    ensures Strip(before + core + after) == core
  {
    assert before + core + after == before + (core + after);
    assert (core + after)[0] == core[0];
    TrimStartBlankPrefix(before, core + after);
    TrimEndBlankSuffix(core, after);
  }

  /** `s.split(sep)`: the pieces between occurrences of `sep`; never an empty list. */
  function Split(s: string, sep: char): (pieces: seq<string>)
    ensures |pieces| >= 1
    ensures forall i :: 0 <= i < |pieces| ==> sep !in pieces[i]
  {
    if s == [] then [[]]
    else
      var rest := Split(s[1..], sep);
      if s[0] == sep then [[]] + rest
      else [[s[0]] + rest[0]] + rest[1..]
  }

  /** `sep.join(pieces)` */
  function Join(pieces: seq<string>, sep: char): string {
    if |pieces| == 0 then []
    else if |pieces| == 1 then pieces[0]
    else pieces[0] + [sep] + Join(pieces[1..], sep)
  }

  /** Joining the pieces of a split gives back the original string. */
  lemma {:induction false} JoinSplit(s: string, sep: char)
    ensures Join(Split(s, sep), sep) == s
  {
    if s != [] {
      var rest := Split(s[1..], sep);
      JoinSplit(s[1..], sep);
      if s[0] != sep {
        var pieces := Split(s, sep);
        if |rest| == 1 {
          assert pieces == [[s[0]] + rest[0]];
        } else {
          assert pieces[1..] == rest[1..];
          assert Join(rest, sep) == rest[0] + [sep] + Join(rest[1..], sep);
        }
      }
    }
  }

  /** A prefix free of the separator is glued onto the first piece of what follows. */
  lemma {:induction false} SplitFreePrefix(a: string, rest: string, sep: char)
    requires sep !in a
    ensures Split(a + rest, sep) == [a + Split(rest, sep)[0]] + Split(rest, sep)[1..]
  {
    if a == [] {
      var tail := Split(rest, sep);
      assert a + rest == rest && a + tail[0] == tail[0];
      assert [tail[0]] + tail[1..] == tail;
    } else {
      var tail := Split(rest, sep);
      SplitFreePrefix(a[1..], rest, sep);
      assert (a + rest)[1..] == a[1..] + rest;
      var r := Split(a[1..] + rest, sep);
      assert r[0] == a[1..] + tail[0] && r[1..] == tail[1..];
      assert (a + rest)[0] == a[0] != sep;
      assert [a[0]] + (a[1..] + tail[0]) == a + tail[0];
    }
  }

  /** A string without the separator splits into itself alone. */
  lemma SplitWithoutSeparator(s: string, sep: char)
    requires sep !in s
    ensures Split(s, sep) == [s]
  {
    SplitFreePrefix(s, [], sep);
    assert s + [] == s;
  }

  /** Splitting the join of separator-free pieces gives back the pieces. */
  lemma {:induction false} SplitJoin(pieces: seq<string>, sep: char)
    requires |pieces| >= 1
    requires forall i :: 0 <= i < |pieces| ==> sep !in pieces[i]
    ensures Split(Join(pieces, sep), sep) == pieces
  {
    if |pieces| == 1 {
      SplitWithoutSeparator(pieces[0], sep);
    } else {
      var tail := Join(pieces[1..], sep);
      SplitJoin(pieces[1..], sep);
      assert pieces[0] + [sep] + tail == pieces[0] + ([sep] + tail);
      SplitFreePrefix(pieces[0], [sep] + tail, sep);
      assert ([sep] + tail)[1..] == tail;
      assert Split([sep] + tail, sep) == [[]] + pieces[1..];
      assert pieces[0] + [] == pieces[0];
    }
  }
}
