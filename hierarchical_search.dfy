/** The context string `generate_response` assembles from the metadata of the vector
    search's matches before it asks the language model. */
module HierarchicalSearch {
  import opened Wrappers

  /** The metadata of one match: `Section` and `Subsection` may be missing; `text` is read
      with `match.metadata['text']`. */
  datatype Match = Match(section: Option<string>, subsection: Option<string>, text: string)

  const DefaultSection := "General"

  /** `metadata.get('Section', 'General')` */
  function SectionOf(m: Match): string {
    m.section.GetOr(DefaultSection)
  }

  /** `metadata.get('Subsection', '')` */
  function SubsectionOf(m: Match): string {
    m.subsection.GetOr("")
  }

  /** What one iteration of the loop appends to `context`. */
  function Block(m: Match): string {
    var sub := SubsectionOf(m);
    "\nSection: " + SectionOf(m)
    + (if sub != "" then "\nSubsection: " + sub else "")
    + "\nContent: " + m.text + "\n"
  }

  /** The concatenation of `render(m)` over the matches, in order. */
  function Fold(matches: seq<Match>, render: Match -> string): string {
    if matches == [] then "" else Fold(matches[..|matches| - 1], render) + render(matches[|matches| - 1])
  }

  /** The context after the loop has run over `matches`. */
  function Context(matches: seq<Match>): string {
    Fold(matches, Block)
  }

  /** The loop `for match in search_results['matches']: context += ...`. */
  method BuildContext(matches: seq<Match>) returns (context: string)
    ensures context == Context(matches)
  {
    context := "";
    var i := 0;
    while i < |matches|
      invariant 0 <= i <= |matches|
      invariant context == Context(matches[..i])
    {
      var m := matches[i];
      ghost var before := context;
      var section := m.section.GetOr(DefaultSection);
      var subsection := m.subsection.GetOr("");
      context := context + "\nSection: " + section;
      ghost var lines := "\nSection: " + section;
      if subsection != "" {
        context := context + "\nSubsection: " + subsection;
        lines := lines + "\nSubsection: " + subsection;
      }
      context := context + "\nContent: " + m.text + "\n";
      lines := lines + "\nContent: " + m.text + "\n";
      assert context == before + lines;
      assert lines == Block(m);
      FoldStep(matches, i, Block);
      i := i + 1;
    }
    assert matches[..i] == matches;
  }

  /** One more iteration appends the next match's rendering. */
  lemma FoldStep(matches: seq<Match>, i: nat, render: Match -> string)
    requires i < |matches|
    ensures Fold(matches[..i + 1], render) == Fold(matches[..i], render) + render(matches[i])
  {
    assert matches[..i + 1][..i] == matches[..i];
  }

  lemma {:induction false} FoldConcat(a: seq<Match>, b: seq<Match>, render: Match -> string)
    ensures Fold(a + b, render) == Fold(a, render) + Fold(b, render)
  {
    if b == [] {
      assert a + b == a;
    } else {
      var ab := a + b;
      var init := b[..|b| - 1];
      assert ab[..|ab| - 1] == a + init;
      assert ab[|ab| - 1] == b[|b| - 1];
      FoldConcat(a, init, render);
    }
  }

  /** The fold is a homomorphism: the context of `a + b` is that of `a` followed by that of `b`. */
  lemma ContextConcat(a: seq<Match>, b: seq<Match>)
    ensures Context(a + b) == Context(a) + Context(b)
  {
    FoldConcat(a, b, Block);
  }

  /** No matches, no context. */
  lemma ContextEmpty()
    ensures Context([]) == ""
  {
  }

  /** Each match contributes its block, in match order. */
  lemma ContextInOrder(matches: seq<Match>, i: nat)
    requires i < |matches|
    ensures Context(matches) == Context(matches[..i]) + Block(matches[i]) + Context(matches[i + 1..])
  {
    var after := matches[i + 1..];
    FoldConcat(matches[..i + 1], after, Block);
    assert matches[..i + 1] + after == matches;
    FoldStep(matches, i, Block);
  }

  predicate StartsWith(s: string, prefix: string) {
    |prefix| <= |s| && s[..|prefix|] == prefix
  }

  /** Every block opens with the section line (with `General` for a missing section) and
      closes with the content line, and a subsection line follows the section line exactly
      when the subsection is non-empty. */
  lemma BlockShape(m: Match)
    ensures StartsWith(Block(m), "\nSection: " + SectionOf(m))
    ensures m.section == None ==> StartsWith(Block(m), "\nSection: General")
    ensures StartsWith(Block(m), "\nSection: " + SectionOf(m) + "\nSubsection: ") <==> SubsectionOf(m) != ""
    ensures exists k :: 0 <= k <= |Block(m)| && Block(m)[k..] == "\nContent: " + m.text + "\n"
  {
    var head := "\nSection: " + SectionOf(m);
    var sub := SubsectionOf(m);
    var middle := if sub != "" then "\nSubsection: " + sub else "";
    var tail := "\nContent: " + m.text + "\n";
    assert Block(m) == head + middle + tail;
    assert Block(m)[..|head|] == head;
    assert Block(m)[|head + middle|..] == tail;
    if sub == "" {
      // the character after the section line is 'C' of "Content", not 'S' of "Subsection"
      assert Block(m)[|head| + 1] == 'C';
      assert (head + "\nSubsection: ")[|head| + 1] == 'S';
    } else {
      assert Block(m)[..|head + "\nSubsection: "|] == head + "\nSubsection: ";
    }
  }

  /** A missing subsection and an empty one render alike: both leave the line out. */
  lemma MissingSubsectionOmitted(section: Option<string>, text: string)
    ensures Block(Match(section, None, text)) == Block(Match(section, Some(""), text))
    ensures Block(Match(section, None, text)) == "\nSection: " + section.GetOr(DefaultSection) + "\nContent: " + text + "\n"
  {
  }
}
