/**
  * The body-text filter of pkg/bodyfilter: an ordered list of deletion rules,
  * applied one after the other to PR/issue bodies and commit messages, followed
  * by a clean-up that collapses runs of blank lines and trims the ends.
  *
  * A compiled regular expression is modelled by what `ReplaceAllString(text, "")`
  * does with it: a function from text to text. The one rule whose effect matters
  * for the properties below, the `Co-Authored-By:` line rule, is written out
  * concretely; any other rule stays abstract.
  */
module BodyFilter {
  import opened Wrappers
  import opened Strings

  /** A compiled filter rule: its pattern text and the effect of deleting all its matches. */
  datatype Rule = Rule(pattern: string, delete: string -> string)

  const CoAuthorPattern: string := @"(?m)^Co-Authored-By:.*$"
  const FooterPattern: string :=
    @"(?s)---\s*Pull Request opened by \[[^\]]+\]\([^)]+\) with guidance from [^\n]+"

  /** The patterns installed at package initialisation, in this order. */
  const DefaultPatterns: seq<string> := [CoAuthorPattern, FooterPattern]

  /** A rule that only removes characters (every regexp replacement by "" is one). */
  ghost predicate IsDeletion(f: string -> string) {
    forall s :: IsSubsequence(f(s), s)
  }

  // ---------------------------------------------------------------------------
  // Configuration
  // ---------------------------------------------------------------------------

  /**
    * The rule list SetFilterPatterns builds: one rule for each pattern that
    * compiles, in the order of the patterns; a pattern that fails is skipped.
    */
  function Compiled(patterns: seq<string>, compile: string -> Option<string -> string>): (rules: seq<Rule>)
  {
    if patterns == [] then []
    else
      var last := patterns[|patterns| - 1];
      Compiled(patterns[..|patterns| - 1], compile) +
      (match compile(last)
       case Some(f) => [Rule(last, f)]
       case None => [])
  }

  /** Configuring two lists one after the other equals configuring them separately and appending. */
  lemma {:induction false} CompiledAppend(ps: seq<string>, qs: seq<string>, compile: string -> Option<string -> string>)
    ensures Compiled(ps + qs, compile) == Compiled(ps, compile) + Compiled(qs, compile)
    decreases |qs|
  {
    if qs == [] {
      assert ps + qs == ps;
    } else {
      var front := qs[..|qs| - 1];
      assert (ps + qs)[..|ps + qs| - 1] == ps + front;
      CompiledAppend(ps, front, compile);
    }
  }

  /**
    * Every kept rule comes from a pattern that compiles and carries that
    * pattern's text and its compiled effect; there are never more rules than patterns.
    */
  lemma {:induction false} CompiledRulesSound(patterns: seq<string>, compile: string -> Option<string -> string>)
    ensures |Compiled(patterns, compile)| <= |patterns|
    ensures forall k :: 0 <= k < |Compiled(patterns, compile)| ==>
      var r := Compiled(patterns, compile)[k];
      r.pattern in patterns && compile(r.pattern) == Some(r.delete)
  {
    if patterns != [] {
      var front := patterns[..|patterns| - 1];
      var last := patterns[|patterns| - 1];
      assert patterns == front + [last];
      CompiledRulesSound(front, compile);
    }
  }

  /** When every pattern compiles there is one rule per pattern, in the order of the patterns. */
  lemma {:induction false} CompiledAllCompile(patterns: seq<string>, compile: string -> Option<string -> string>)
    requires forall p :: p in patterns ==> compile(p).Some?
    ensures |Compiled(patterns, compile)| == |patterns|
    ensures forall k :: 0 <= k < |patterns| ==> Compiled(patterns, compile)[k].pattern == patterns[k]
  {
    if patterns != [] {
      var front := patterns[..|patterns| - 1];
      var last := patterns[|patterns| - 1];
      assert patterns == front + [last];
      CompiledAllCompile(front, compile);
      assert compile(last).Some?;
    }
  }

  /** A single pattern yields its rule, or nothing when it does not compile. */
  lemma CompiledSingle(p: string, compile: string -> Option<string -> string>)
    ensures compile(p).None? ==> Compiled([p], compile) == []
    ensures compile(p).Some? ==> Compiled([p], compile) == [Rule(p, compile(p).value)]
  {
    assert [p][..0] == [];
  }

  // ---------------------------------------------------------------------------
  // The rule loop
  // ---------------------------------------------------------------------------

  /** Every rule in order, each applied to the output of the one before. */
  function ApplyRules(rules: seq<Rule>, text: string): (r: string)
  {
    if rules == [] then text
    else rules[|rules| - 1].delete(ApplyRules(rules[..|rules| - 1], text))
  }

  /** The rules after a split point see only the output of the rules before it. */
  lemma {:induction false} ApplyRulesAppend(first: seq<Rule>, later: seq<Rule>, text: string)
    ensures ApplyRules(first + later, text) == ApplyRules(later, ApplyRules(first, text))
    decreases |later|
  {
    if later == [] {
      assert first + later == first;
    } else {
      var front := later[..|later| - 1];
      assert (first + later)[..|first + later| - 1] == first + front;
      ApplyRulesAppend(first, front, text);
    }
  }

  /** The first rule sees the original text, every later one its output, not the original. */
  lemma ApplyRulesFirst(r: Rule, rest: seq<Rule>, text: string)
    ensures ApplyRules([r] + rest, text) == ApplyRules(rest, r.delete(text))
  {
    ApplyRulesAppend([r], rest, text);
    assert [r][..0] == [];
  }

  /** Rules that find nothing to delete leave the text as it is. */
  lemma {:induction false} ApplyRulesUnmatched(rules: seq<Rule>, text: string)
    requires forall r :: r in rules ==> r.delete(text) == text
    ensures ApplyRules(rules, text) == text
  {
    if rules != [] {
      var front := rules[..|rules| - 1];
      assert forall r :: r in front ==> r in rules;
      ApplyRulesUnmatched(front, text);
      assert rules[|rules| - 1] in rules;
    }
  }

  /** Deletion rules, applied in sequence, only delete. */
  lemma {:induction false} ApplyRulesDeletes(rules: seq<Rule>, text: string)
    requires forall r :: r in rules ==> IsDeletion(r.delete)
    ensures IsSubsequence(ApplyRules(rules, text), text)
  {
    if rules == [] {
      SubsequenceReflexive(text);
    } else {
      var front := rules[..|rules| - 1];
      var last := rules[|rules| - 1];
      assert forall r :: r in front ==> r in rules;
      ApplyRulesDeletes(front, text);
      assert last in rules;
      var mid := ApplyRules(front, text);
      assert IsSubsequence(last.delete(mid), mid);
      SubsequenceTransitive(last.delete(mid), mid, text);
    }
  }

  // ---------------------------------------------------------------------------
  // Collapsing blank lines: `\n{3,}` replaced by "\n\n"
  // ---------------------------------------------------------------------------

  function Newlines(n: nat): (r: string)
    ensures |r| == n && forall i :: 0 <= i < n ==> r[i] == '\n'
  {
    seq(n, _ => '\n')
  }

  /** Three newlines in a row start at position i. */
  predicate TripleNewlineAt(s: string, i: nat) {
    i + 2 < |s| && s[i] == '\n' && s[i + 1] == '\n' && s[i + 2] == '\n'
  }

  lemma NewlinesAppend(m: nat, n: nat)
    ensures Newlines(m) + Newlines(n) == Newlines(m + n)
  {
  }

  lemma NewlinesAround(c: nat, k: nat, y: string)
    requires k >= 1
    ensures Newlines(c) + "\n" + (Newlines(k - 1) + y) == Newlines(c + k) + y
  {
    assert Newlines(c) + "\n" + Newlines(k - 1) == Newlines(c + k);
  }

  lemma NewlinesSplitFirst(before: string, k: nat, x: string)
    requires k >= 1
    ensures before + Newlines(k) + x == before + "\n" + (Newlines(k - 1) + x)
  {
    assert Newlines(k) == "\n" + Newlines(k - 1);
  }

  /** No three newlines in a row. */
  predicate NoTripleNewline(s: string) {
    forall i: nat | i < |s| :: !TripleNewlineAt(s, i)
  }

  /** The length of the run of newlines that starts the text. */
  function LeadingNewlines(s: string): (k: nat)
    ensures k <= |s|
  {
    if s != [] && s[0] == '\n' then 1 + LeadingNewlines(s[1..]) else 0
  }

  /** The text starts with exactly LeadingNewlines(s) newlines. */
  lemma {:induction false} LeadingNewlinesRun(s: string)
    ensures s[..LeadingNewlines(s)] == Newlines(LeadingNewlines(s))
    ensures forall i :: 0 <= i < LeadingNewlines(s) ==> s[i] == '\n'
    ensures LeadingNewlines(s) < |s| ==> s[LeadingNewlines(s)] != '\n'
  {
    if s != [] && s[0] == '\n' {
      LeadingNewlinesRun(s[1..]);
      assert s[..LeadingNewlines(s)] == [s[0]] + s[1..][..LeadingNewlines(s[1..])];
    }
  }

  /**
    * Every maximal run of three or more newlines replaced by exactly two; shorter
    * runs and every other character kept (Go's leftmost, greedy `\n{3,}`).
    */
  function CollapseNewlines(s: string): (r: string)
    decreases |s|
  {
    if s == [] then []
    else
      var k := LeadingNewlines(s);
      if k == 0 then [s[0]] + CollapseNewlines(s[1..])
      else RunReplacement(k) + CollapseNewlines(s[k..])
  }

  /** The collapse leaves no three newlines in a row. */
  lemma {:induction false} CollapseNewlinesNoTriple(s: string)
    ensures NoTripleNewline(CollapseNewlines(s))
    decreases |s|
  {
    if s != [] {
      var k := LeadingNewlines(s);
      var r := CollapseNewlines(s);
      if k == 0 {
        var rest := CollapseNewlines(s[1..]);
        CollapseNewlinesNoTriple(s[1..]);
        assert r == [s[0]] + rest;
        forall i: nat | i < |r| ensures !TripleNewlineAt(r, i) {
          if i >= 1 {
            assert !TripleNewlineAt(rest, i - 1);
          }
        }
      } else {
        var rest := CollapseNewlines(s[k..]);
        var run := RunReplacement(k);
        CollapseNewlinesNoTriple(s[k..]);
        LeadingNewlinesRun(s);
        assert r == run + rest;
        assert rest != [] ==> rest[0] != '\n' by {
          if s[k..] != [] {
            assert CollapseNewlines(s[k..]) == [s[k]] + CollapseNewlines(s[k + 1..]) by {
              assert LeadingNewlines(s[k..]) == 0;
              assert s[k..][1..] == s[k + 1..];
            }
          }
        }
        forall i: nat | i < |r| ensures !TripleNewlineAt(r, i) {
          if i >= |run| {
            assert !TripleNewlineAt(rest, i - |run|);
          }
        }
      }
    }
  }

  /** An infix of text without three newlines in a row has none either. */
  lemma NoTripleNewlineInfix(s: string, i: nat, j: nat)
    requires NoTripleNewline(s) && i <= j <= |s|
    ensures NoTripleNewline(s[i..j])
  {
    var t := s[i..j];
    forall p: nat | p < |t| ensures !TripleNewlineAt(t, p) {
      assert !TripleNewlineAt(s, i + p);
    }
  }

  lemma NoTripleNewlineSuffix(s: string, i: nat)
    requires NoTripleNewline(s) && i <= |s|
    ensures NoTripleNewline(s[i..])
  {
    forall p: nat | p < |s[i..]| ensures !TripleNewlineAt(s[i..], p) {
      assert !TripleNewlineAt(s, i + p);
    }
  }

  /** Text without three newlines in a row is left unchanged. */
  lemma {:induction false} CollapseNewlinesUnchanged(s: string)
    requires NoTripleNewline(s)
    ensures CollapseNewlines(s) == s
    decreases |s|
  {
    if s != [] {
      var k := LeadingNewlines(s);
      if k == 0 {
        NoTripleNewlineSuffix(s, 1);
        CollapseNewlinesUnchanged(s[1..]);
        assert [s[0]] + s[1..] == s;
      } else {
        LeadingNewlinesRun(s);
        assert s[..k] == Newlines(k);
        assert !TripleNewlineAt(s, 0);
        assert RunReplacement(k) == s[..k];
        NoTripleNewlineSuffix(s, k);
        CollapseNewlinesUnchanged(s[k..]);
        assert s[..k] + s[k..] == s;
      }
    }
  }

  lemma {:induction false} LeadingNewlinesOfRun(k: nat, b: string)
    requires b == [] || b[0] != '\n'
    ensures LeadingNewlines(Newlines(k) + b) == k
  {
    if k > 0 {
      assert (Newlines(k) + b)[1..] == Newlines(k - 1) + b;
      LeadingNewlinesOfRun(k - 1, b);
    } else {
      assert Newlines(k) + b == b;
    }
  }

  lemma {:induction false} LeadingNewlinesExtend(a: string, b: string)
    requires LeadingNewlines(a) < |a|
    ensures LeadingNewlines(a + b) == LeadingNewlines(a)
  {
    if a[0] == '\n' {
      assert (a + b)[1..] == a[1..] + b;
      LeadingNewlinesExtend(a[1..], b);
    }
  }

  /** The replacement of a run of k newlines: two when k >= 3, the run itself otherwise. */
  function RunReplacement(k: nat): string {
    Newlines(if k >= 3 then 2 else k)
  }

  /** One step of the collapse at a run of k >= 1 newlines. */
  lemma CollapseNewlinesStep(s: string)
    requires s != [] && s[0] == '\n'
    ensures CollapseNewlines(s) ==
            RunReplacement(LeadingNewlines(s)) + CollapseNewlines(s[LeadingNewlines(s)..])
  {
  }

  /** One step of the collapse at a character other than a newline. */
  lemma CollapseNewlinesPlainStep(c: char, t: string)
    requires c != '\n'
    ensures CollapseNewlines([c] + t) == [c] + CollapseNewlines(t)
  {
    assert ([c] + t)[1..] == t;
  }

  /**
    * The collapse of a text that does not end in a newline, followed by anything,
    * is the collapse of each part: no run of newlines crosses the boundary.
    */
  lemma {:induction false} CollapseNewlinesAppend(a: string, t: string)
    requires a == [] || a[|a| - 1] != '\n'
    ensures CollapseNewlines(a + t) == CollapseNewlines(a) + CollapseNewlines(t)
    decreases |a|
  {
    if a == [] {
      assert a + t == t;
    } else if a[0] != '\n' {
      CollapseNewlinesAppendPlain(a, t);
    } else {
      CollapseNewlinesAppendNewline(a, t);
    }
  }

  lemma {:induction false} CollapseNewlinesAppendPlain(a: string, t: string)
    requires a != [] && a[0] != '\n' && a[|a| - 1] != '\n'
    ensures CollapseNewlines(a + t) == CollapseNewlines(a) + CollapseNewlines(t)
    decreases |a|, 0
  {
    var c, a' := a[0], a[1..];
    var ct := CollapseNewlines(t);
    assert a' == [] || a'[|a'| - 1] != '\n';
    calc {
      CollapseNewlines(a + t);
      { assert a + t == [c] + (a' + t); }
      CollapseNewlines([c] + (a' + t));
      { CollapseNewlinesPlainStep(c, a' + t); }
      [c] + CollapseNewlines(a' + t);
      { CollapseNewlinesAppend(a', t); }
      [c] + (CollapseNewlines(a') + ct);
      [c] + CollapseNewlines(a') + ct;
      { CollapseNewlinesPlainStep(c, a'); assert [c] + a' == a; }
      CollapseNewlines(a) + ct;
    }
  }

  lemma {:induction false} CollapseNewlinesAppendNewline(a: string, t: string)
    requires a != [] && a[0] == '\n' && a[|a| - 1] != '\n'
    ensures CollapseNewlines(a + t) == CollapseNewlines(a) + CollapseNewlines(t)
    decreases |a|, 0
  {
    var j := LeadingNewlines(a);
    var ct := CollapseNewlines(t);
    LeadingNewlinesRun(a);
    assert j < |a|;
    calc {
      CollapseNewlines(a + t);
      { LeadingNewlinesExtend(a, t); CollapseNewlinesStep(a + t); }
      RunReplacement(j) + CollapseNewlines((a + t)[j..]);
      { assert (a + t)[j..] == a[j..] + t; }
      RunReplacement(j) + CollapseNewlines(a[j..] + t);
      { CollapseNewlinesAppend(a[j..], t); }
      RunReplacement(j) + (CollapseNewlines(a[j..]) + ct);
      RunReplacement(j) + CollapseNewlines(a[j..]) + ct;
      { CollapseNewlinesStep(a); }
      CollapseNewlines(a) + ct;
    }
  }

  /** A leading run of k newlines becomes RunReplacement(k). */
  lemma CollapseNewlinesLeadingRun(k: nat, b: string)
    requires k >= 1
    requires b == [] || b[0] != '\n'
    ensures CollapseNewlines(Newlines(k) + b) == RunReplacement(k) + CollapseNewlines(b)
  {
    LeadingNewlinesOfRun(k, b);
    assert (Newlines(k) + b)[k..] == b;
    CollapseNewlinesStep(Newlines(k) + b);
  }

  /**
    * The collapse works run by run: a run of k newlines between two pieces of
    * text becomes two newlines when k >= 3 and stays as it is otherwise, and the
    * pieces on either side are collapsed on their own.
    */
  lemma CollapseNewlinesRun(a: string, k: nat, b: string)
    requires k >= 1
    requires a == [] || a[|a| - 1] != '\n'
    requires b == [] || b[0] != '\n'
    ensures CollapseNewlines(a + Newlines(k) + b) ==
            CollapseNewlines(a) + RunReplacement(k) + CollapseNewlines(b)
  {
    calc {
      CollapseNewlines(a + Newlines(k) + b);
      { assert a + Newlines(k) + b == a + (Newlines(k) + b); }
      CollapseNewlines(a + (Newlines(k) + b));
      { CollapseNewlinesAppend(a, Newlines(k) + b); }
      CollapseNewlines(a) + CollapseNewlines(Newlines(k) + b);
      { CollapseNewlinesLeadingRun(k, b); }
      CollapseNewlines(a) + (RunReplacement(k) + CollapseNewlines(b));
    }
  }

  /** The replacement of a run only deletes newlines from it. */
  lemma RunReplacementSubsequence(k: nat)
    ensures IsSubsequence(RunReplacement(k), Newlines(k))
  {
    if k >= 3 {
      SubsequenceInfix(Newlines(k), 0, 2);
      assert Newlines(k)[0..2] == RunReplacement(k);
    } else {
      SubsequenceReflexive(Newlines(k));
    }
  }

  /** The collapse only deletes characters. */
  lemma {:induction false} CollapseNewlinesSubsequence(s: string)
    ensures IsSubsequence(CollapseNewlines(s), s)
    decreases |s|
  {
    if s != [] {
      var k := LeadingNewlines(s);
      if k == 0 {
        CollapseNewlinesSubsequence(s[1..]);
        SubsequenceReflexive([s[0]]);
        SubsequenceConcat([s[0]], [s[0]], CollapseNewlines(s[1..]), s[1..]);
        assert [s[0]] + s[1..] == s;
      } else {
        CollapseNewlinesSubsequence(s[k..]);
        RunReplacementSubsequence(k);
        LeadingNewlinesRun(s);
        SubsequenceConcat(RunReplacement(k), s[..k], CollapseNewlines(s[k..]), s[k..]);
        assert s[..k] + s[k..] == s;
      }
    }
  }

  // ---------------------------------------------------------------------------
  // Trimming
  // ---------------------------------------------------------------------------

  lemma TrimSpaceNoTripleNewline(s: string)
    requires NoTripleNewline(s)
    ensures NoTripleNewline(TrimSpace(s))
  {
    var r := TrimSpace(s);
    TrimSpaceIsTrimOf(s);
    var i, j :| 0 <= i <= j <= |s| && r == s[i..j] && AllSpace(s[..i]) && AllSpace(s[j..]);
    NoTripleNewlineInfix(s, i, j);
  }

  lemma {:induction false} TrimLeftSpaces(pre: string, x: string)
    requires AllSpace(pre)
    requires x == [] || !IsSpace(x[0])
    ensures TrimLeft(pre + x) == x
  {
    if pre == [] {
      assert pre + x == x;
    } else {
      assert (pre + x)[1..] == pre[1..] + x;
      TrimLeftSpaces(pre[1..], x);
    }
  }

  lemma {:induction false} TrimRightSpaces(x: string, post: string)
    requires AllSpace(post)
    requires x == [] || !IsSpace(x[|x| - 1])
    ensures TrimRight(x + post) == x
    decreases |post|
  {
    if post == [] {
      assert x + post == x;
    } else {
      var front := post[..|post| - 1];
      assert (x + post)[..|x + post| - 1] == x + front;
      TrimRightSpaces(x, front);
    }
  }

  /** White space around trimmed, non-empty text is exactly what TrimSpace removes. */
  lemma TrimSpaceAround(pre: string, body: string, post: string)
    requires AllSpace(pre) && AllSpace(post)
    requires body != [] && Trimmed(body)
    ensures TrimSpace(pre + body + post) == body
  {
    assert pre + body + post == pre + (body + post);
    TrimLeftSpaces(pre, body + post);
    TrimRightSpaces(body, post);
  }

  // ---------------------------------------------------------------------------
  // FilterBody
  // ---------------------------------------------------------------------------

  /** The clean-up after the rules: collapse runs of newlines, then trim. */
  function Normalize(s: string): (r: string)
    ensures Trimmed(r) && NoTripleNewline(r)
  {
    var c := CollapseNewlines(s);
    CollapseNewlinesNoTriple(s);
    TrimSpaceNoTripleNewline(c);
    TrimSpace(c)
  }

  /**
    * What FilterBody returns under a rule list: the empty text unchanged, any
    * other text through every rule and then through the clean-up.
    */
  function Filtered(rules: seq<Rule>, body: string): (r: string)
    ensures body == "" ==> r == ""
    ensures Trimmed(r)
    ensures NoTripleNewline(r)
  {
    if body == "" then body else Normalize(ApplyRules(rules, body))
  }

  /** The clean-up is idempotent. */
  lemma NormalizeIdempotent(s: string)
    ensures Normalize(Normalize(s)) == Normalize(s)
  {
    var t := Normalize(s);
    CollapseNewlinesUnchanged(t);
    TrimSpaceOfTrimmed(t);
  }

  /** Text no rule touches, without three newlines in a row and already trimmed, is returned as it is. */
  lemma FilteredUnchanged(rules: seq<Rule>, body: string)
    requires forall r :: r in rules ==> r.delete(body) == body
    requires NoTripleNewline(body) && Trimmed(body)
    ensures Filtered(rules, body) == body
  {
    if body != "" {
      ApplyRulesUnmatched(rules, body);
      CollapseNewlinesUnchanged(body);
      TrimSpaceOfTrimmed(body);
    }
  }

  /**
    * Filtering twice gives the result of filtering once, provided no rule finds
    * anything to delete in that result (the clean-up itself never needs a second pass).
    */
  lemma FilteredIdempotent(rules: seq<Rule>, body: string)
    requires forall r :: r in rules ==> r.delete(Filtered(rules, body)) == Filtered(rules, body)
    ensures Filtered(rules, Filtered(rules, body)) == Filtered(rules, body)
  {
    FilteredUnchanged(rules, Filtered(rules, body));
  }

  /** With deletion rules, the result is the input with characters deleted, never anything added. */
  lemma FilteredSubsequence(rules: seq<Rule>, body: string)
    requires forall r :: r in rules ==> IsDeletion(r.delete)
    ensures IsSubsequence(Filtered(rules, body), body)
    ensures |Filtered(rules, body)| <= |body|
  {
    if body == "" {
    } else {
      var a := ApplyRules(rules, body);
      var c := CollapseNewlines(a);
      ApplyRulesDeletes(rules, body);
      CollapseNewlinesSubsequence(a);
      TrimSpaceSubsequence(c);
      SubsequenceTransitive(c, a, body);
      SubsequenceTransitive(TrimSpace(c), c, body);
    }
    SubsequenceLength(Filtered(rules, body), body);
  }

  /** With deletion rules, text made only of white space filters to the empty string. */
  lemma FilteredAllSpace(rules: seq<Rule>, body: string)
    requires forall r :: r in rules ==> IsDeletion(r.delete)
    requires AllSpace(body)
    ensures Filtered(rules, body) == ""
  {
    if body != "" {
      var a := ApplyRules(rules, body);
      ApplyRulesDeletes(rules, body);
      SubsequenceOfAllSpace(a, body);
      var c := CollapseNewlines(a);
      CollapseNewlinesSubsequence(a);
      SubsequenceOfAllSpace(c, a);
      TrimSpaceOfAllSpace(c);
    }
  }

  // ---------------------------------------------------------------------------
  // The Co-Authored-By rule, `(?m)^Co-Authored-By:.*$`
  // ---------------------------------------------------------------------------

  const CoAuthorLabel: string := "Co-Authored-By:"

  /** A line the rule matches: it begins with the label, case-sensitively, in column one. */
  predicate IsCoAuthorLine(line: string) {
    HasPrefix(line, CoAuthorLabel)
  }

  function BlankCoAuthorLines(lines: seq<string>): seq<string> {
    seq(|lines|, i requires 0 <= i < |lines| => if IsCoAuthorLine(lines[i]) then "" else lines[i])
  }

  /**
    * The effect of the rule: `^` and `$` anchor at line boundaries and `.` does
    * not cross a newline, so the contents of every matching line are deleted and
    * its newline is kept.
    */
  function DeleteCoAuthorLines(text: string): (r: string) {
    Join(BlankCoAuthorLines(Split(text, '\n')), '\n')
  }

  const CoAuthorRule: Rule := Rule(CoAuthorPattern, DeleteCoAuthorLines)

  /** No line of the text is matched by the rule. */
  predicate NoCoAuthorLine(text: string) {
    forall line :: line in Split(text, '\n') ==> !IsCoAuthorLine(line)
  }

  /** Every line of the text is matched by the rule. */
  predicate OnlyCoAuthorLines(text: string) {
    forall line :: line in Split(text, '\n') ==> IsCoAuthorLine(line)
  }

  /**
    * The rule works line by line: the result has the same lines, each matching
    * line emptied and every other line unchanged, so a mention of the label
    * anywhere but at the start of a line is kept.
    */
  lemma CoAuthorLineByLine(text: string)
    ensures |Split(DeleteCoAuthorLines(text), '\n')| == |Split(text, '\n')|
    ensures forall i :: 0 <= i < |Split(text, '\n')| ==>
      Split(DeleteCoAuthorLines(text), '\n')[i] ==
        (if IsCoAuthorLine(Split(text, '\n')[i]) then "" else Split(text, '\n')[i])
  {
    var blank := BlankCoAuthorLines(Split(text, '\n'));
    SplitJoin(blank, '\n');
  }

  /** After the rule no line is matched by it. */
  lemma CoAuthorRemovesAll(text: string)
    ensures NoCoAuthorLine(DeleteCoAuthorLines(text))
  {
    var out := Split(DeleteCoAuthorLines(text), '\n');
    CoAuthorLineByLine(text);
    forall line | line in out ensures !IsCoAuthorLine(line) {
      var i :| 0 <= i < |out| && out[i] == line;
    }
  }

  /** Text without a matching line is left unchanged. */
  lemma CoAuthorUnmatched(text: string)
    requires NoCoAuthorLine(text)
    ensures DeleteCoAuthorLines(text) == text
  {
    var lines := Split(text, '\n');
    assert forall i :: 0 <= i < |lines| ==> lines[i] in lines;
    assert BlankCoAuthorLines(lines) == lines;
    JoinSplit(text, '\n');
  }

  /** The rule is a deletion. */
  lemma CoAuthorIsDeletion()
    ensures IsDeletion(DeleteCoAuthorLines)
  {
    forall s ensures IsSubsequence(DeleteCoAuthorLines(s), s) {
      var lines := Split(s, '\n');
      var blank := BlankCoAuthorLines(lines);
      forall i | 0 <= i < |lines| ensures IsSubsequence(blank[i], lines[i]) {
        SubsequenceReflexive(lines[i]);
      }
      JoinSubsequence(blank, lines, '\n');
      JoinSplit(s, '\n');
    }
  }

  /** The rule treats the text on the two sides of a newline independently. */
  lemma CoAuthorAround(a: string, b: string)
    ensures DeleteCoAuthorLines(a + "\n" + b) == DeleteCoAuthorLines(a) + "\n" + DeleteCoAuthorLines(b)
  {
    var la, lb := Split(a, '\n'), Split(b, '\n');
    calc {
      DeleteCoAuthorLines(a + "\n" + b);
      { SplitAround(a, b, '\n'); }
      Join(BlankCoAuthorLines(la + lb), '\n');
      { BlankCoAuthorLinesAppend(la, lb); }
      Join(BlankCoAuthorLines(la) + BlankCoAuthorLines(lb), '\n');
      { JoinAppend(BlankCoAuthorLines(la), BlankCoAuthorLines(lb), '\n'); }
      DeleteCoAuthorLines(a) + "\n" + DeleteCoAuthorLines(b);
    }
  }

  lemma BlankCoAuthorLinesAppend(xs: seq<string>, ys: seq<string>)
    ensures BlankCoAuthorLines(xs + ys) == BlankCoAuthorLines(xs) + BlankCoAuthorLines(ys)
  {
  }

  lemma CoAuthorEmpty()
    ensures DeleteCoAuthorLines("") == ""
  {
    assert Split("", '\n') == [""];
    assert BlankCoAuthorLines([""]) == [""];
  }

  /** Text made only of matching lines leaves just its newlines. */
  lemma CoAuthorBlock(text: string)
    requires OnlyCoAuthorLines(text)
    ensures DeleteCoAuthorLines(text) == Newlines(Count(text, '\n'))
  {
    var lines := Split(text, '\n');
    assert forall i :: 0 <= i < |lines| ==> lines[i] in lines;
    JoinEmpties(BlankCoAuthorLines(lines), '\n');
  }

  lemma {:induction false} CoAuthorNewlines(k: nat, x: string)
    ensures DeleteCoAuthorLines(Newlines(k) + x) == Newlines(k) + DeleteCoAuthorLines(x)
  {
    if k > 0 {
      var dx := DeleteCoAuthorLines(x);
      calc {
        DeleteCoAuthorLines(Newlines(k) + x);
        { NewlinesSplitFirst("", k, x); assert "" + Newlines(k) + x == Newlines(k) + x; }
        DeleteCoAuthorLines("" + "\n" + (Newlines(k - 1) + x));
        { CoAuthorAround("", Newlines(k - 1) + x); CoAuthorEmpty(); }
        "" + "\n" + DeleteCoAuthorLines(Newlines(k - 1) + x);
        { CoAuthorNewlines(k - 1, x); }
        "" + "\n" + (Newlines(k - 1) + dx);
        { NewlinesSplitFirst("", k, dx); }
        "" + Newlines(k) + dx;
        Newlines(k) + dx;
      }
    } else {
      assert Newlines(k) + x == x;
    }
  }

  /** Unmatched text followed by a run of newlines passes through the rule unchanged. */
  lemma CoAuthorKeepThen(before: string, k: nat, x: string)
    requires NoCoAuthorLine(before) && k >= 1
    ensures DeleteCoAuthorLines(before + Newlines(k) + x) == before + Newlines(k) + DeleteCoAuthorLines(x)
  {
    var dx := DeleteCoAuthorLines(x);
    calc {
      DeleteCoAuthorLines(before + Newlines(k) + x);
      { NewlinesSplitFirst(before, k, x); }
      DeleteCoAuthorLines(before + "\n" + (Newlines(k - 1) + x));
      { CoAuthorAround(before, Newlines(k - 1) + x); }
      DeleteCoAuthorLines(before) + "\n" + DeleteCoAuthorLines(Newlines(k - 1) + x);
      { CoAuthorUnmatched(before); CoAuthorNewlines(k - 1, x); }
      before + "\n" + (Newlines(k - 1) + dx);
      { NewlinesSplitFirst(before, k, dx); }
      before + Newlines(k) + dx;
    }
  }

  /** What the rule leaves of a block of matching lines is newlines only. */
  lemma CoAuthorBlockNewlines(block: string)
    requires OnlyCoAuthorLines(block)
    ensures DeleteCoAuthorLines(block) == Newlines(|DeleteCoAuthorLines(block)|)
  {
    CoAuthorBlock(block);
  }

  /**
    * A block of matching lines followed by a run of newlines leaves only
    * newlines: those of the run and those that separated the matching lines.
    */
  lemma CoAuthorBlockThen(block: string, k: nat, x: string)
    requires OnlyCoAuthorLines(block) && k >= 1
    ensures DeleteCoAuthorLines(block + Newlines(k) + x) ==
            Newlines(|DeleteCoAuthorLines(block)| + k) + DeleteCoAuthorLines(x)
  {
    var c := |DeleteCoAuthorLines(block)|;
    var dx := DeleteCoAuthorLines(x);
    var rest := Newlines(k - 1) + x;
    calc {
      DeleteCoAuthorLines(block + Newlines(k) + x);
      { NewlinesSplitFirst(block, k, x); }
      DeleteCoAuthorLines(block + "\n" + rest);
      { CoAuthorAround(block, rest); }
      DeleteCoAuthorLines(block) + "\n" + DeleteCoAuthorLines(rest);
      { CoAuthorBlockNewlines(block); }
      Newlines(c) + "\n" + DeleteCoAuthorLines(rest);
      { CoAuthorNewlines(k - 1, x); }
      Newlines(c) + "\n" + (Newlines(k - 1) + dx);
      { NewlinesAround(c, k, dx); }
      Newlines(c + k) + dx;
    }
  }

  /** The clean-up of trimmed text followed by a run of newlines gives back that text. */
  lemma NormalizeTrailingNewlines(before: string, m: nat)
    requires before != [] && Trimmed(before) && NoTripleNewline(before)
    ensures Normalize(before + Newlines(m)) == before
  {
    if m == 0 {
      assert before + Newlines(m) == before;
      CollapseNewlinesUnchanged(before);
      TrimSpaceOfTrimmed(before);
    } else {
      CollapseNewlinesRun(before, m, []);
      assert before + Newlines(m) + [] == before + Newlines(m);
      CollapseNewlinesUnchanged(before);
      assert CollapseNewlines([]) == [];
      assert before + RunReplacement(m) + [] == before + RunReplacement(m);
      TrimSpaceAround([], before, RunReplacement(m));
      assert [] + before + RunReplacement(m) == before + RunReplacement(m);
    }
  }

  /** A rule list led by the co-author rule, whose other rules leave its output alone. */
  lemma RulesAfterCoAuthor(rules: seq<Rule>, text: string, mid: string)
    requires |rules| > 0 && rules[0] == CoAuthorRule
    requires DeleteCoAuthorLines(text) == mid
    requires forall r :: r in rules[1..] ==> r.delete(mid) == mid
    ensures ApplyRules(rules, text) == mid
  {
    assert rules == [rules[0]] + rules[1..];
    ApplyRulesFirst(rules[0], rules[1..], text);
    ApplyRulesUnmatched(rules[1..], mid);
  }

  /** The rule applied to a kept paragraph, blank lines and trailing co-author lines. */
  lemma CoAuthorTrailer(before: string, k: nat, trailer: string)
    requires NoCoAuthorLine(before) && k >= 1 && OnlyCoAuthorLines(trailer)
    ensures DeleteCoAuthorLines(before + Newlines(k) + trailer) ==
            before + Newlines(k + |DeleteCoAuthorLines(trailer)|)
  {
    CoAuthorKeepThen(before, k, trailer);
    CoAuthorBlockNewlines(trailer);
    NewlinesAppend(k, |DeleteCoAuthorLines(trailer)|);
  }

  /**
    * Co-author lines at the end of the text are removed together with the blank
    * lines before them, whatever rules follow the co-author rule, as long as
    * those find nothing to delete in the kept text followed by blank lines.
    */
  lemma TrailerRemoved(rules: seq<Rule>, before: string, k: nat, trailer: string)
    requires |rules| > 0 && rules[0] == CoAuthorRule
    requires before != [] && Trimmed(before) && NoTripleNewline(before) && NoCoAuthorLine(before)
    requires k >= 1 && OnlyCoAuthorLines(trailer)
    requires forall r, m: nat :: r in rules[1..] ==> r.delete(before + Newlines(m)) == before + Newlines(m)
    ensures Filtered(rules, before + Newlines(k) + trailer) == before
  {
    var m := k + |DeleteCoAuthorLines(trailer)|;
    CoAuthorTrailer(before, k, trailer);
    RulesAfterCoAuthor(rules, before + Newlines(k) + trailer, before + Newlines(m));
    NormalizeTrailingNewlines(before, m);
  }

  /** The rule applied to two kept paragraphs with co-author lines between them. */
  lemma CoAuthorBetween(before: string, k1: nat, trailer: string, k2: nat, after: string)
    requires NoCoAuthorLine(before) && NoCoAuthorLine(after)
    requires k1 >= 1 && k2 >= 1 && OnlyCoAuthorLines(trailer)
    ensures DeleteCoAuthorLines(before + Newlines(k1) + trailer + Newlines(k2) + after) ==
            before + Newlines(k1 + |DeleteCoAuthorLines(trailer)| + k2) + after
  {
    var n := |DeleteCoAuthorLines(trailer)| + k2;
    var tail := trailer + Newlines(k2) + after;
    calc {
      DeleteCoAuthorLines(before + Newlines(k1) + trailer + Newlines(k2) + after);
      { assert before + Newlines(k1) + trailer + Newlines(k2) + after == before + Newlines(k1) + tail; }
      DeleteCoAuthorLines(before + Newlines(k1) + tail);
      { CoAuthorKeepThen(before, k1, tail); }
      before + Newlines(k1) + DeleteCoAuthorLines(tail);
      { CoAuthorBlockThen(trailer, k2, after); }
      before + Newlines(k1) + (Newlines(n) + DeleteCoAuthorLines(after));
      { CoAuthorUnmatched(after); }
      before + Newlines(k1) + (Newlines(n) + after);
      { NewlinesAppend(k1, n); }
      before + Newlines(k1 + n) + after;
    }
  }

  /** The clean-up of two trimmed paragraphs around a run of at least two newlines. */
  lemma NormalizeBetween(before: string, m: nat, after: string)
    requires before != [] && Trimmed(before) && NoTripleNewline(before)
    requires after != [] && Trimmed(after) && NoTripleNewline(after)
    requires m >= 2
    ensures Normalize(before + Newlines(m) + after) == before + "\n\n" + after
  {
    calc {
      CollapseNewlines(before + Newlines(m) + after);
      { CollapseNewlinesRun(before, m, after); }
      CollapseNewlines(before) + RunReplacement(m) + CollapseNewlines(after);
      { CollapseNewlinesUnchanged(before); CollapseNewlinesUnchanged(after); }
      before + "\n\n" + after;
    }
    TrimSpaceOfTrimmed(before + "\n\n" + after);
  }

  /**
    * Co-author lines between two paragraphs are removed and the paragraphs end
    * up separated by exactly one blank line, however many blank lines surrounded
    * the removed lines.
    */
  lemma TrailerBetween(rules: seq<Rule>, before: string, k1: nat, trailer: string, k2: nat, after: string)
    requires |rules| > 0 && rules[0] == CoAuthorRule
    requires before != [] && Trimmed(before) && NoTripleNewline(before) && NoCoAuthorLine(before)
    requires after != [] && Trimmed(after) && NoTripleNewline(after) && NoCoAuthorLine(after)
    requires k1 >= 1 && k2 >= 1 && OnlyCoAuthorLines(trailer)
    requires forall r, m: nat :: r in rules[1..] ==>
      r.delete(before + Newlines(m) + after) == before + Newlines(m) + after
    ensures Filtered(rules, before + Newlines(k1) + trailer + Newlines(k2) + after) == before + "\n\n" + after
  {
    var m := k1 + |DeleteCoAuthorLines(trailer)| + k2;
    var text := before + Newlines(k1) + trailer + Newlines(k2) + after;
    var mid := before + Newlines(m) + after;
    CoAuthorBetween(before, k1, trailer, k2, after);
    forall r | r in rules[1..] ensures r.delete(mid) == mid {
    }
    RulesAfterCoAuthor(rules, text, mid);
    NormalizeBetween(before, m, after);
    assert text != "" by {
      assert |text| >= |before|;
    }
  }

  /** The clean-up of newlines alone leaves nothing. */
  lemma NormalizeNewlines(n: nat)
    ensures Normalize(Newlines(n)) == ""
  {
    var c := CollapseNewlines(Newlines(n));
    assert AllSpace(Newlines(n));
    CollapseNewlinesSubsequence(Newlines(n));
    SubsequenceOfAllSpace(c, Newlines(n));
    TrimSpaceOfAllSpace(c);
  }

  /**
    * A body made only of co-author lines filters to the empty text, whatever
    * rules follow the co-author rule, as long as those find nothing to delete
    * in a run of newlines.
    */
  lemma TrailerOnly(rules: seq<Rule>, text: string)
    requires |rules| > 0 && rules[0] == CoAuthorRule
    requires text != "" && OnlyCoAuthorLines(text)
    requires forall r, m: nat :: r in rules[1..] ==> r.delete(Newlines(m)) == Newlines(m)
    ensures Filtered(rules, text) == ""
  {
    var mid := Newlines(Count(text, '\n'));
    CoAuthorBlock(text);
    RulesAfterCoAuthor(rules, text, mid);
    NormalizeNewlines(Count(text, '\n'));
  }

  // ---------------------------------------------------------------------------
  // A filter that is idempotent
  // ---------------------------------------------------------------------------

  /**
    * Filtering repeated until the text no longer changes. FilterBody itself
    * runs the rules once, before the trim, so a line that the trim brings to
    * column one is never matched; repeating closes that gap. With deletion
    * rules every pass that changes the text shortens it, so the repetition ends.
    */
  function Stabilized(rules: seq<Rule>, body: string): (r: string)
    requires forall q :: q in rules ==> IsDeletion(q.delete)
    ensures Filtered(rules, r) == r
    ensures IsSubsequence(r, body)
    decreases |body|
  {
    var f := Filtered(rules, body);
    FilteredSubsequence(rules, body);
    if f == body then f
    else
      assert |f| < |body| by {
        if |f| == |body| {
          SubsequenceSameLength(f, body);
        }
      }
      var r := Stabilized(rules, f);
      SubsequenceTransitive(r, f, body);
      r
  }

  /** Filtering the stabilized text again changes nothing. */
  lemma StabilizedIdempotent(rules: seq<Rule>, body: string)
    requires forall q :: q in rules ==> IsDeletion(q.delete)
    ensures Stabilized(rules, Stabilized(rules, body)) == Stabilized(rules, body)
    ensures Filtered(rules, Stabilized(rules, body)) == Stabilized(rules, body)
  {
  }

  /** Where one pass of FilterBody is already stable, the correction gives the same text. */
  lemma StabilizedAgrees(rules: seq<Rule>, body: string)
    requires forall q :: q in rules ==> IsDeletion(q.delete)
    requires Filtered(rules, Filtered(rules, body)) == Filtered(rules, body)
    ensures Stabilized(rules, body) == Filtered(rules, body)
  {
  }

  /**
    * A text that filtering leaves unchanged has no line that the co-author
    * rule matches: such a line would make the rule, and so the whole filter,
    * shorten the text.
    */
  lemma FixpointNoCoAuthorLine(rules: seq<Rule>, text: string)
    requires |rules| > 0 && rules[0] == CoAuthorRule
    requires forall q :: q in rules ==> IsDeletion(q.delete)
    requires Filtered(rules, text) == text
    ensures NoCoAuthorLine(text)
  {
    if text == "" {
      CoAuthorEmpty();
      CoAuthorRemovesAll("");
    } else {
      var d := DeleteCoAuthorLines(text);
      var rest := rules[1..];
      assert rules == [rules[0]] + rest;
      ApplyRulesFirst(rules[0], rest, text);
      var a := ApplyRules(rules, text);
      assert forall q :: q in rest ==> q in rules;
      ApplyRulesDeletes(rest, d);
      SubsequenceLength(a, d);
      var c := CollapseNewlines(a);
      CollapseNewlinesSubsequence(a);
      SubsequenceLength(c, a);
      TrimSpaceSubsequence(c);
      SubsequenceLength(TrimSpace(c), c);
      CoAuthorIsDeletion();
      assert IsSubsequence(d, text);
      SubsequenceLength(d, text);
      SubsequenceSameLength(d, text);
      CoAuthorRemovesAll(text);
    }
  }

  /** After the correction no line starts with the co-author label. */
  lemma StabilizedNoCoAuthorLine(rules: seq<Rule>, body: string)
    requires |rules| > 0 && rules[0] == CoAuthorRule
    requires forall q :: q in rules ==> IsDeletion(q.delete)
    ensures NoCoAuthorLine(Stabilized(rules, body))
  {
    FixpointNoCoAuthorLine(rules, Stabilized(rules, body));
  }

  // ---------------------------------------------------------------------------
  // The process-wide rule set
  // ---------------------------------------------------------------------------

  /**
    * The package state: the active rules. Compilation of a pattern
    * (regexp.Compile) is given from outside, as the effect of the compiled
    * pattern or None when compilation fails.
    */
  class FilterEngine {
    const compile: string -> Option<string -> string>
    var rules: seq<Rule>

    /** Package initialisation installs the default patterns. */
    constructor (compile: string -> Option<string -> string>)
      ensures this.compile == compile
      ensures rules == Compiled(DefaultPatterns, compile)
    {
      this.compile := compile;
      rules := [];
      new;
      SetFilterPatterns(DefaultPatterns);
    }

    /**
      * Replaces the whole rule set by the patterns that compile, in order; a
      * pattern that fails to compile is skipped (the warning it logs is not modelled).
      */
    method SetFilterPatterns(patterns: seq<string>)
      modifies this
      ensures rules == Compiled(patterns, compile)
    {
      rules := [];
      for i := 0 to |patterns|
        invariant rules == Compiled(patterns[..i], compile)
      {
        assert patterns[..i + 1][..i] == patterns[..i];
        match compile(patterns[i]) {
          case None =>
          case Some(f) =>
            rules := rules + [Rule(patterns[i], f)];
        }
      }
      assert patterns[..|patterns|] == patterns;
    }

    /** Removes every match of every rule, in order, then collapses blank lines and trims. */
    method FilterBody(body: string) returns (r: string)
      ensures r == Filtered(rules, body)
    {
      if body == "" {
        return body;
      }
      var filtered := body;
      for i := 0 to |rules|
        invariant filtered == ApplyRules(rules[..i], body)
      {
        assert rules[..i + 1][..i] == rules[..i];
        filtered := rules[i].delete(filtered);
      }
      assert rules[..|rules|] == rules;
      filtered := CollapseNewlines(filtered);
      r := TrimSpace(filtered);
    }
  }
}
