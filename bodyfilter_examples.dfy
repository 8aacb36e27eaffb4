/**
  * Worked cases of FilterBody, taken from the package's table of expected
  * results, each derived from the general lemmas of BodyFilter. The rule list
  * is any list led by the co-author rule whose later rules (the PR footer rule
  * among them) find nothing to delete in the texts involved.
  */
module BodyFilterExamples {
  import opened Strings
  import opened BodyFilter

  /** A line that does not start with the label's first letter is not matched. */
  lemma NotCoAuthorLine(s: string)
    requires s != [] && s[0] != CoAuthorLabel[0]
    ensures !IsCoAuthorLine(s)
  {
    assert |CoAuthorLabel| > 0;
  }

  /** A single line that the co-author rule leaves alone. */
  lemma PlainLine(s: string)
    requires '\n' !in s && s != [] && s[0] != CoAuthorLabel[0]
    ensures NoCoAuthorLine(s) && NoTripleNewline(s)
  {
    NotCoAuthorLine(s);
    SplitWithoutSeparator(s, '\n');
    forall i: nat | i < |s| ensures !TripleNewlineAt(s, i) {
      assert s[i] in s;
    }
  }

  /** A single co-author line. */
  lemma CoAuthorOnlyLine(s: string)
    requires '\n' !in s && IsCoAuthorLine(s)
    ensures OnlyCoAuthorLines(s)
  {
    SplitWithoutSeparator(s, '\n');
  }

  /** Every rule led by the co-author rule and followed by deletions is a deletion. */
  lemma LedByCoAuthorDeletes(rules: seq<Rule>)
    requires |rules| > 0 && rules[0] == CoAuthorRule
    requires forall r :: r in rules[1..] ==> IsDeletion(r.delete)
    ensures forall r :: r in rules ==> IsDeletion(r.delete)
  {
    CoAuthorIsDeletion();
    forall r | r in rules ensures IsDeletion(r.delete) {
      if r != rules[0] {
        var i :| 0 <= i < |rules| && rules[i] == r;
        assert rules[1..][i - 1] == r;
      }
    }
  }

  /** A line that starts with the label is matched, whatever follows. */
  lemma LabelledLine(rest: string)
    requires '\n' !in rest
    ensures '\n' !in CoAuthorLabel + rest && IsCoAuthorLine(CoAuthorLabel + rest)
  {
    assert '\n' !in CoAuthorLabel;
    NotInConcat(CoAuthorLabel, rest, '\n');
    assert (CoAuthorLabel + rest)[..|CoAuthorLabel|] == CoAuthorLabel;
  }

  // Lines of the package's table of expected results.
  const FixLine: string := "Fix bug in authentication"
  const JohnRest: string := " John Doe <john@example.com>"
  const JohnLine: string := CoAuthorLabel + JohnRest
  const JaneRest: string := " Jane Smith <jane@example.com>"
  const JaneLine: string := CoAuthorLabel + JaneRest
  const DescriptionLine: string := "This is the description"
  const MoreLine: string := "More content here"
  const MentionLine: string := "This mentions " + CoAuthorLabel + " but not at start"

  lemma JohnLineMatched()
    ensures '\n' !in JohnLine && IsCoAuthorLine(JohnLine) && Trimmed(JohnLine)
  {
    assert '\n' !in JohnRest;
    LabelledLine(JohnRest);
    assert JohnLine[|JohnLine| - 1] == JohnRest[|JohnRest| - 1] == '>';
  }

  lemma FixLinePlain()
    ensures FixLine != [] && Trimmed(FixLine) && NoTripleNewline(FixLine) && NoCoAuthorLine(FixLine)
  {
    assert '\n' !in FixLine;
    PlainLine(FixLine);
  }

  lemma DescriptionLinePlain()
    ensures DescriptionLine != [] && Trimmed(DescriptionLine)
    ensures NoTripleNewline(DescriptionLine) && NoCoAuthorLine(DescriptionLine)
  {
    assert '\n' !in DescriptionLine;
    PlainLine(DescriptionLine);
  }

  lemma MoreLinePlain()
    ensures MoreLine != [] && Trimmed(MoreLine) && NoTripleNewline(MoreLine) && NoCoAuthorLine(MoreLine)
  {
    assert '\n' !in MoreLine;
    PlainLine(MoreLine);
  }

  /** "Fix bug in authentication", a blank line, one co-author line: only the first line is kept. */
  lemma ExampleSingleTrailer(rules: seq<Rule>)
    requires |rules| > 0 && rules[0] == CoAuthorRule
    requires forall r, m: nat :: r in rules[1..] ==> r.delete(FixLine + Newlines(m)) == FixLine + Newlines(m)
    ensures Filtered(rules, FixLine + "\n\n" + JohnLine) == FixLine
  {
    FixLinePlain();
    JohnLineMatched();
    CoAuthorOnlyLine(JohnLine);
    assert Newlines(2) == "\n\n";
    TrailerRemoved(rules, FixLine, 2, JohnLine);
  }

  /** A co-author line between two paragraphs: one blank line is left between them. */
  lemma ExampleMiddle(rules: seq<Rule>)
    requires |rules| > 0 && rules[0] == CoAuthorRule
    requires forall r, m: nat :: r in rules[1..] ==>
      r.delete(DescriptionLine + Newlines(m) + MoreLine) == DescriptionLine + Newlines(m) + MoreLine
    ensures Filtered(rules, DescriptionLine + "\n\n" + JohnLine + "\n\n" + MoreLine)
            == DescriptionLine + "\n\n" + MoreLine
  {
    DescriptionLinePlain();
    MoreLinePlain();
    JohnLineMatched();
    CoAuthorOnlyLine(JohnLine);
    assert Newlines(2) == "\n\n";
    TrailerBetween(rules, DescriptionLine, 2, JohnLine, 2, MoreLine);
  }

  /** Two co-author lines and nothing else: nothing is left. */
  lemma ExampleOnlyCoAuthors(rules: seq<Rule>)
    requires |rules| > 0 && rules[0] == CoAuthorRule
    requires forall r, m: nat :: r in rules[1..] ==> r.delete(Newlines(m)) == Newlines(m)
    ensures Filtered(rules, JohnLine + "\n" + JaneLine) == ""
  {
    JohnLineMatched();
    assert '\n' !in JaneRest;
    LabelledLine(JaneRest);
    SplitWithoutSeparator(JohnLine, '\n');
    SplitWithoutSeparator(JaneLine, '\n');
    SplitAround(JohnLine, JaneLine, '\n');
    assert Split(JohnLine + "\n" + JaneLine, '\n') == [JohnLine, JaneLine];
    TrailerOnly(rules, JohnLine + "\n" + JaneLine);
  }

  /** The label in the middle of a line is not a match: the text comes back unchanged. */
  lemma ExampleMidLineMention(rules: seq<Rule>)
    requires |rules| > 0 && rules[0] == CoAuthorRule
    requires forall r :: r in rules[1..] ==> r.delete(MentionLine) == MentionLine
    ensures Filtered(rules, MentionLine) == MentionLine
  {
    assert '\n' !in "This mentions ";
    assert '\n' !in " but not at start";
    assert '\n' !in CoAuthorLabel;
    NotInConcat("This mentions ", CoAuthorLabel, '\n');
    NotInConcat("This mentions " + CoAuthorLabel, " but not at start", '\n');
    PlainLine(MentionLine);
    CoAuthorUnmatched(MentionLine);
    forall r | r in rules ensures r.delete(MentionLine) == MentionLine {
      if r != rules[0] {
        var i :| 0 <= i < |rules| && rules[i] == r;
        assert rules[1..][i - 1] == r;
      }
    }
    assert Trimmed(MentionLine);
    FilteredUnchanged(rules, MentionLine);
  }

  /** Text made only of blanks and newlines filters to the empty string. */
  lemma ExampleWhitespaceOnly(rules: seq<Rule>)
    requires |rules| > 0 && rules[0] == CoAuthorRule
    requires forall r :: r in rules[1..] ==> IsDeletion(r.delete)
    ensures Filtered(rules, "   \n\n   ") == ""
  {
    LedByCoAuthorDeletes(rules);
    assert AllSpace("   \n\n   ");
    FilteredAllSpace(rules, "   \n\n   ");
  }

  /**
    * FilterBody is not idempotent: a co-author line preceded by a blank is not
    * matched (the label is not at the start of the line), but the final trim
    * puts it at the start, so a second pass deletes it.
    */
  lemma FilteredNotIdempotent(rules: seq<Rule>, line: string)
    requires |rules| > 0 && rules[0] == CoAuthorRule
    requires '\n' !in line && IsCoAuthorLine(line) && Trimmed(line)
    requires forall r :: r in rules[1..] ==> r.delete(" " + line) == " " + line && r.delete("") == ""
    ensures Filtered(rules, " " + line) == line
    ensures Filtered(rules, Filtered(rules, " " + line)) == ""
    ensures Filtered(rules, Filtered(rules, " " + line)) != Filtered(rules, " " + line)
  {
    var padded := " " + line;
    assert '\n' !in padded by {
      forall i | 0 <= i < |padded| ensures padded[i] != '\n' {
        if i > 0 { assert padded[i] == line[i - 1]; }
      }
    }
    PlainLine(padded);
    CoAuthorUnmatched(padded);
    RulesAfterCoAuthor(rules, padded, padded);
    CollapseNewlinesUnchanged(padded);
    TrimSpaceAround(" ", line, "");
    assert " " + line + "" == padded;
    assert Filtered(rules, padded) == line;

    CoAuthorOnlyLine(line);
    CoAuthorBlock(line);
    SplitWithoutSeparator(line, '\n');
    assert Count(line, '\n') == 0;
    RulesAfterCoAuthor(rules, line, "");
    assert CollapseNewlines("") == "";
    TrimSpaceOfTrimmed("");
  }

  /** The same with a line of the table: once padded, it survives the first pass only. */
  lemma ExampleNotIdempotent(rules: seq<Rule>)
    requires |rules| > 0 && rules[0] == CoAuthorRule
    requires forall r :: r in rules[1..] ==> r.delete(" " + JohnLine) == " " + JohnLine && r.delete("") == ""
    ensures Filtered(rules, " " + JohnLine) == JohnLine
    ensures Filtered(rules, JohnLine) == ""
  {
    JohnLineMatched();
    FilteredNotIdempotent(rules, JohnLine);
  }

  /** The corrected filter removes the padded line of the table in full. */
  lemma ExampleStabilized(rules: seq<Rule>)
    requires |rules| > 0 && rules[0] == CoAuthorRule
    requires forall q :: q in rules ==> IsDeletion(q.delete)
    requires forall r :: r in rules[1..] ==> r.delete(" " + JohnLine) == " " + JohnLine && r.delete("") == ""
    ensures Stabilized(rules, " " + JohnLine) == ""
  {
    ExampleNotIdempotent(rules);
    assert Stabilized(rules, JohnLine) == "";
  }
}
