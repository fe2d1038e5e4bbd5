/** Paragraph chunking: `paragraph_based_chunking` splits a document on line feeds and
    keeps the lines that are not blank; the upsert loop names the chunks by position. */
module Chunking {
  import opened Text
  import Decimal

  const NewLine: char := '\n'

  /** The list comprehension's filter: keep `p` when `p.strip()` is truthy, which by
      `Text.StripEmptyIffBlank` is exactly when `p` is not blank. */
  function KeepNonBlank(lines: seq<string>): (kept: seq<string>)
    ensures |kept| <= |lines|
    ensures forall i :: 0 <= i < |kept| ==> !IsBlank(kept[i])
  {
    if lines == [] then []
    else
      var rest := KeepNonBlank(lines[1..]);
      if !IsBlank(lines[0]) then [lines[0]] + rest else rest
  }

  /** The comprehension `[p for p in lines if p.strip()]` exactly as written. */
  function StripFilter(lines: seq<string>): seq<string> {
    if lines == [] then []
    else (if Strip(lines[0]) != [] then [lines[0]] else []) + StripFilter(lines[1..])
  }

  /** Filtering on `p.strip()` and filtering on "not blank" agree. */
  lemma {:induction false} StripFilterIsKeepNonBlank(lines: seq<string>)
    ensures StripFilter(lines) == KeepNonBlank(lines)
  {
    if lines != [] {
      StripEmptyIffBlank(lines[0]);
      StripFilterIsKeepNonBlank(lines[1..]);
    }
  }

  /** Every line the filter keeps is one of its input lines, unchanged. */
  lemma {:induction false} KeptAreLines(lines: seq<string>)
    ensures forall i :: 0 <= i < |KeepNonBlank(lines)| ==> KeepNonBlank(lines)[i] in lines
  {
    if lines != [] {
      KeptAreLines(lines[1..]);
      var rest := KeepNonBlank(lines[1..]);
      assert forall x :: x in rest ==> x in lines;
    }
  }

  /** `paragraph_based_chunking(text)`: every chunk is a whole, untrimmed line of `text`,
      contains no line feed, and has a character other than whitespace. */
  function ParagraphChunks(text: string): (chunks: seq<string>)
    ensures forall i :: 0 <= i < |chunks| ==> chunks[i] in Split(text, NewLine)
    ensures forall i :: 0 <= i < |chunks| ==> NewLine !in chunks[i]
    ensures forall i :: 0 <= i < |chunks| ==> !IsBlank(chunks[i])
  {
    KeptAreLines(Split(text, NewLine));
    KeepNonBlank(Split(text, NewLine))
  }

  /** How many of the lines are not blank. */
  function CountNonBlank(lines: seq<string>): nat {
    if lines == [] then 0
    else (if IsBlank(lines[0]) then 0 else 1) + CountNonBlank(lines[1..])
  }

  /** The filter keeps exactly the non-blank lines ... */
  lemma {:induction false} KeepNonBlankLength(lines: seq<string>)
    ensures |KeepNonBlank(lines)| == CountNonBlank(lines)
  {
    if lines != [] {
      KeepNonBlankLength(lines[1..]);
    }
  }

  /** ... each at the position given by the number of non-blank lines before it,
      unchanged (not trimmed), so the result is the non-blank subsequence in order. */
  lemma {:induction false} KeepNonBlankAt(lines: seq<string>, i: nat)
    requires i < |lines| && !IsBlank(lines[i])
    ensures CountNonBlank(lines[..i]) < |KeepNonBlank(lines)|
    ensures KeepNonBlank(lines)[CountNonBlank(lines[..i])] == lines[i]
  {
    if i == 0 {
      assert lines[..0] == [];
    } else {
      KeepNonBlankAt(lines[1..], i - 1);
      assert lines[..i][1..] == lines[1..][..i - 1];
      assert lines[..i][0] == lines[0];
    }
  }

  /** Filtering distributes over concatenation: lines are judged one at a time. */
  lemma {:induction false} KeepNonBlankConcat(a: seq<string>, b: seq<string>)
    ensures KeepNonBlank(a + b) == KeepNonBlank(a) + KeepNonBlank(b)
  {
    if a == [] {
      assert a + b == b;
    } else {
      var ab := a + b;
      assert ab[0] == a[0];
      assert ab[1..] == a[1..] + b;
      KeepNonBlankConcat(a[1..], b);
    }
  }

  /** Lines that are all non-blank pass the filter unchanged. */
  lemma {:induction false} KeepNonBlankIdentity(lines: seq<string>)
    requires forall i :: 0 <= i < |lines| ==> !IsBlank(lines[i])
    ensures KeepNonBlank(lines) == lines
  {
    if lines != [] {
      KeepNonBlankIdentity(lines[1..]);
    }
  }

  /** Every line of the split is blank exactly when the whole text is (a line feed is
      itself whitespace). */
  lemma {:induction false} CountSplitBlank(s: string)
    ensures CountNonBlank(Split(s, NewLine)) == 0 <==> IsBlank(s)
  {
    if s != [] {
      CountSplitBlank(s[1..]);
      var rest := Split(s[1..], NewLine);
      if s[0] == NewLine {
        assert CountNonBlank(Split(s, NewLine)) == CountNonBlank(rest);
        assert IsBlank(s) <==> IsBlank(s[1..]) by {
          assert forall i :: 0 < i < |s| ==> s[i] == s[1..][i - 1];
        }
      } else {
        var first := [s[0]] + rest[0];
        assert Split(s, NewLine) == [first] + rest[1..];
        assert Split(s, NewLine)[1..] == rest[1..];
        assert CountNonBlank(rest) == (if IsBlank(rest[0]) then 0 else 1) + CountNonBlank(rest[1..]);
        if IsBlank(s) {
          assert IsBlank(s[1..]) by {
            assert forall i :: 0 <= i < |s| - 1 ==> s[1..][i] == s[i + 1];
          }
          assert IsBlank(first) by {
            assert forall i :: 0 < i < |first| ==> first[i] == rest[0][i - 1];
          }
        }
        if CountNonBlank(Split(s, NewLine)) == 0 {
          assert IsBlank(first);
          assert IsBlank(rest[0]) by {
            assert forall i :: 0 <= i < |rest[0]| ==> rest[0][i] == first[i + 1];
          }
          assert CountNonBlank(rest) == 0;
          assert first[0] == s[0];
          forall i | 0 <= i < |s| ensures IsWhitespace(s[i]) {
            if i > 0 {
              assert s[i] == s[1..][i - 1];
            }
          }
        }
      }
    }
  }

  /** Empty or all-whitespace text, and only such text, yields no chunks. */
  lemma NoChunksIffBlank(text: string)
    ensures ParagraphChunks(text) == [] <==> IsBlank(text)
  {
    KeepNonBlankLength(Split(text, NewLine));
    CountSplitBlank(text);
  }

  /** A non-blank single-line text is its own only chunk. */
  lemma SingleLine(text: string)
    requires NewLine !in text && !IsBlank(text)
    ensures ParagraphChunks(text) == [text]
  {
    SplitWithoutSeparator(text, NewLine);
  }

  /** Rechunking the chunks joined with line feeds gives the same chunks. */
  lemma Idempotent(text: string)
    ensures ParagraphChunks(Join(ParagraphChunks(text), NewLine)) == ParagraphChunks(text)
  {
    var chunks := ParagraphChunks(text);
    if chunks == [] {
      assert Split([], NewLine) == [[]];
    } else {
      SplitJoin(chunks, NewLine);
      KeepNonBlankIdentity(chunks);
    }
  }

  /** The vector id under which the upsert loop stores the chunk at 0-based position `i`. */
  function ChunkId(i: nat): (id: string)
    ensures |id| > 17 && id[..17] == "document_1_chunk_"
  {
    "document_1_chunk_" + Decimal.Render(i)
  }

  /** Distinct positions get distinct ids. */
  lemma ChunkIdInjective(i: nat, j: nat)
    requires i != j
    ensures ChunkId(i) != ChunkId(j)
  {
    if ChunkId(i) == ChunkId(j) {
      assert ChunkId(i)[17..] == Decimal.Render(i);
      assert ChunkId(j)[17..] == Decimal.Render(j);
      Decimal.RenderInjective(i, j);
    }
  }

  /** One vector stored by the upsert loop, without its embedding: id and `{"text": chunk}`. */
  datatype ChunkRecord = ChunkRecord(id: string, text: string)

  /** The records `enumerate(paragraph_based_chunking(text))` produces, in order. */
  function ChunkRecords(text: string): (records: seq<ChunkRecord>)
    ensures |records| == |ParagraphChunks(text)|
    ensures forall i :: 0 <= i < |records| ==> records[i].text == ParagraphChunks(text)[i]
    ensures forall i :: 0 <= i < |records| ==> records[i].id == ChunkId(i)
  {
    var chunks := ParagraphChunks(text);
    seq(|chunks|, i requires 0 <= i < |chunks| => ChunkRecord(ChunkId(i), chunks[i]))
  }

  /** No two records of one document share an id. */
  lemma ChunkRecordIdsDistinct(text: string, i: nat, j: nat)
    requires i < j < |ChunkRecords(text)|
    ensures ChunkRecords(text)[i].id != ChunkRecords(text)[j].id
  {
    ChunkIdInjective(i, j);
  }
}
