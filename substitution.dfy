/**
 * The ordered table of textual substitution rules of the rename script and
 * the pipeline that runs it over a file's content: each rule is a global
 * substitution whose output feeds the next rule, and every rule that changed
 * the text is reported with the number of matches it found.
 */
module Substitution {
  import opened TextOps
  import opened TokenRule

  /** Characters that carry a meaning in a regular expression when not escaped. */
  predicate IsMeta(c: char)
  {
    || c == '.' || c == '^' || c == '$' || c == '*' || c == '+' || c == '?'
    || c == '{' || c == '}' || c == '[' || c == ']' || c == '\\' || c == '|'
    || c == '(' || c == ')'
  }

  predicate IsAsciiAlnum(c: char)
  {
    ('a' <= c <= 'z') || ('A' <= c <= 'Z') || ('0' <= c <= '9')
  }

  /**
   * The regular expression that matches exactly `t`: every metacharacter
   * preceded by a backslash, every other character as it is.  This is how
   * the table writes its literal rows (`claude-code\.nvim`, `require\(...\)`).
   */
  function Escape(t: string): (p: string)
    ensures |p| >= |t|
    decreases |t|
  {
    if t == [] then []
    else (if IsMeta(t[0]) then ['\\', t[0]] else [t[0]]) + Escape(t[1..])
  }

  /**
   * A regular expression that matches one fixed string: every character is
   * either plain or a backslash followed by a punctuation character (a
   * backslash before a letter or digit would name a class or a group
   * reference instead).
   */
  predicate IsEscapedLiteral(p: string)
    decreases |p|
  {
    if p == [] then true
    else if p[0] == '\\' then |p| >= 2 && !IsAsciiAlnum(p[1]) && IsEscapedLiteral(p[2..])
    else !IsMeta(p[0]) && IsEscapedLiteral(p[1..])
  }

  /** The string an escaped-literal pattern matches: each escaping backslash dropped. */
  function Unescape(p: string): string
    decreases |p|
  {
    if p == [] then []
    else if p[0] == '\\' && |p| >= 2 then [p[1]] + Unescape(p[2..])
    else [p[0]] + Unescape(p[1..])
  }

  /**
   * Escaping is a faithful encoding: the escaped form is a fixed-string
   * pattern, and the string it matches is the text that was escaped.
   */
  lemma {:induction false} EscapeRoundTrip(t: string)
    ensures IsEscapedLiteral(Escape(t))
    ensures Unescape(Escape(t)) == t
    decreases |t|
  {
    if t != [] {
      EscapeRoundTrip(t[1..]);
      var head := if IsMeta(t[0]) then ['\\', t[0]] else [t[0]];
      var p := head + Escape(t[1..]);
      assert Escape(t) == p;
      if IsMeta(t[0]) {
        assert p[0] == '\\' && p[1] == t[0] && p[2..] == Escape(t[1..]);
      } else {
        assert p[0] == t[0] && p[1..] == Escape(t[1..]);
      }
      assert [t[0]] + t[1..] == t;
    }
  }

  /**
   * One row of the rule table.  A `Literal` row is a regular expression made
   * only of plain and backslash-escaped characters; it is held as the string
   * it matches, and its pattern as written is that string escaped.  `BareName`
   * is the catch-all row for the identifier between separators.
   */
  datatype Rule =
    | Literal(text: string, replacement: string)
    | BareName
  {
    /** The regular expression as the table writes it. */
    function Pattern(): string
    {
      match this
      case Literal(t, _) => Escape(t)
      case BareName => "(\\s|^|\")claude-code(\\s|$|\")"
    }

    /** The replacement template as the table writes it. */
    function Replacement(): string
    {
      match this
      case Literal(_, r) => r
      case BareName => "\\1claude-code-ide\\2"
    }

    /** A literal row must match a non-empty string. */
    predicate WellFormed()
    {
      Literal? ==> text != []
    }
  }

  /** The rule table, in the order the script applies it. */
  const Substitutions: seq<Rule> := [
    // most specific patterns first
    Literal(OldName + ".nvim", NewName + ".nvim"),
    Literal(OldName + ".txt", NewName + ".txt"),
    Literal(OldName + ".log", NewName + ".log"),
    Literal("ianks/" + OldName + ".nvim", "ianks/" + NewName + ".nvim"),
    // Lua require statements
    Literal("require(\"" + OldName + "\")", "require(\"" + NewName + "\")"),
    Literal("require(\"" + OldName + ".", "require(\"" + NewName + "."),
    Literal("require('" + OldName + "')", "require('" + NewName + "')"),
    Literal("require('" + OldName + ".", "require('" + NewName + "."),
    // events
    Literal(OldName + ":", NewName + ":"),
    // help tags
    Literal("*" + OldName + "-", "*" + NewName + "-"),
    // paths
    Literal("/" + OldName + "/", "/" + NewName + "/"),
    Literal("\"" + OldName + "/", "\"" + NewName + "/"),
    Literal("'" + OldName + "/", "'" + NewName + "/"),
    // general references
    BareName
  ]

  /** `re.sub(pattern, replacement, s)` for one row of the table. */
  function ApplyRule(r: Rule, s: string): string
    requires r.WellFormed()
  {
    match r
    case Literal(t, rep) => ReplaceAll(s, t, rep)
    case BareName => ReplaceToken(s, true)
  }

  /** `len(re.findall(pattern, s))` for one row of the table. */
  function Occurrences(r: Rule, s: string): nat
    requires r.WellFormed()
  {
    match r
    case Literal(t, _) => CountMatches(s, t)
    case BareName => CountTokens(s, true)
  }

  predicate AllWellFormed(rules: seq<Rule>)
  {
    forall k | 0 <= k < |rules| :: rules[k].WellFormed()
  }

  /** The content after the rules have run in order, each on the previous one's output. */
  function Rewrite(rules: seq<Rule>, s: string): string
    requires AllWellFormed(rules)
    decreases |rules|
  {
    if rules == [] then s
    else ApplyRule(rules[|rules| - 1], Rewrite(rules[..|rules| - 1], s))
  }

  /**
   * One line of the per-file report: a rule that changed the text, with its
   * match count; it is shown as the rule's pattern, its replacement and the
   * count.
   */
  datatype RuleReport = RuleReport(rule: Rule, occurrences: nat)

  /**
   * The report lines of a pipeline run: for each rule that changed the text,
   * in order, its pattern, its replacement and the matches in the text as it
   * stood before that rule.
   */
  function Reports(rules: seq<Rule>, s: string): seq<RuleReport>
    requires AllWellFormed(rules)
    decreases |rules|
  {
    if rules == [] then []
    else
      var r, before := rules[|rules| - 1], Rewrite(rules[..|rules| - 1], s);
      Reports(rules[..|rules| - 1], s)
        + (if ApplyRule(r, before) != before
           then [RuleReport(r, Occurrences(r, before))]
           else [])
  }

  /**
   * A literal row renames the one old name it mentions: its replacement is its
   * text with that occurrence of `claude-code` turned into `claude-code-ide`.
   */
  predicate RenamesOldName(r: Rule)
  {
    && r.Literal?
    && exists i: nat | i + |OldName| <= |r.text| ::
         && r.text[i..i + |OldName|] == OldName
         && r.replacement == r.text[..i] + NewName + r.text[i + |OldName|..]
  }

  /** What a renaming row implies: it mentions the old name and grows the text by four characters. */
  lemma RenamingRowFacts(r: Rule)
    requires RenamesOldName(r)
    ensures r.WellFormed() && Occurs(r.text, OldName) && |r.replacement| == |r.text| + 4
  {
    var i: nat :| i + |OldName| <= |r.text| && r.text[i..i + |OldName|] == OldName
                  && r.replacement == r.text[..i] + NewName + r.text[i + |OldName|..];
    assert OccursAt(r.text, OldName, i);
  }

  lemma RowRenames(k: nat, pre: string, post: string)
    requires k < |Substitutions|
    requires Substitutions[k] == Literal(pre + OldName + post, pre + NewName + post)
    ensures RenamesOldName(Substitutions[k])
  {
    var t := pre + OldName + post;
    assert t[|pre|..|pre| + |OldName|] == OldName;
    assert t[..|pre|] == pre && t[|pre| + |OldName|..] == post;
  }

  // One lemma per literal row; RowK is the row at index K of the table.

  lemma Row0()
    ensures RenamesOldName(Substitutions[0])
  {
    RowRenames(0, "", ".nvim");
  }

  lemma Row1()
    ensures RenamesOldName(Substitutions[1])
  {
    RowRenames(1, "", ".txt");
  }

  lemma Row2()
    ensures RenamesOldName(Substitutions[2])
  {
    RowRenames(2, "", ".log");
  }

  lemma Row3()
    ensures RenamesOldName(Substitutions[3])
  {
    RowRenames(3, "ianks/", ".nvim");
  }

  lemma Row4()
    ensures RenamesOldName(Substitutions[4])
  {
    RowRenames(4, "require(\"", "\")");
  }

  lemma Row5()
    ensures RenamesOldName(Substitutions[5])
  {
    RowRenames(5, "require(\"", ".");
  }

  lemma Row6()
    ensures RenamesOldName(Substitutions[6])
  {
    RowRenames(6, "require('", "')");
  }

  lemma Row7()
    ensures RenamesOldName(Substitutions[7])
  {
    RowRenames(7, "require('", ".");
  }

  lemma Row8()
    ensures RenamesOldName(Substitutions[8])
  {
    RowRenames(8, "", ":");
  }

  lemma Row9()
    ensures RenamesOldName(Substitutions[9])
  {
    RowRenames(9, "*", "-");
  }

  lemma Row10()
    ensures RenamesOldName(Substitutions[10])
  {
    RowRenames(10, "/", "/");
  }

  lemma Row11()
    ensures RenamesOldName(Substitutions[11])
  {
    RowRenames(11, "\"", "/");
  }

  lemma Row12()
    ensures RenamesOldName(Substitutions[12])
  {
    RowRenames(12, "'", "/");
  }

  /**
   * The shape of the table: thirteen literal rows, each renaming the old name
   * it mentions, then the catch-all row.
   */
  lemma TableShape()
    ensures |Substitutions| == 14 && Substitutions[13] == BareName
    ensures forall k | 0 <= k < 13 :: RenamesOldName(Substitutions[k])
    ensures AllWellFormed(Substitutions)
  {
    forall k | 0 <= k < 13 ensures RenamesOldName(Substitutions[k]) {
      if k == 0 { Row0(); }
      else if k == 1 { Row1(); }
      else if k == 2 { Row2(); }
      else if k == 3 { Row3(); }
      else if k == 4 { Row4(); }
      else if k == 5 { Row5(); }
      else if k == 6 { Row6(); }
      else if k == 7 { Row7(); }
      else if k == 8 { Row8(); }
      else if k == 9 { Row9(); }
      else if k == 10 { Row10(); }
      else if k == 11 { Row11(); }
      else { Row12(); }
    }
    forall k | 0 <= k < 14 ensures Substitutions[k].WellFormed() {
      if k < 13 { RenamingRowFacts(Substitutions[k]); }
    }
  }

  /** Running one more rule extends the pipeline by that rule. */
  lemma RewriteStep(rules: seq<Rule>, k: nat, s: string)
    requires AllWellFormed(rules) && k < |rules|
    ensures AllWellFormed(rules[..k]) && AllWellFormed(rules[..k + 1])
    ensures Rewrite(rules[..k + 1], s) == ApplyRule(rules[k], Rewrite(rules[..k], s))
    ensures Reports(rules[..k + 1], s)
         == Reports(rules[..k], s)
          + (if ApplyRule(rules[k], Rewrite(rules[..k], s)) != Rewrite(rules[..k], s)
             then [RuleReport(rules[k], Occurrences(rules[k], Rewrite(rules[..k], s)))]
             else [])
  {
    assert rules[..k + 1][..k] == rules[..k];
  }

  /** Every row either renames the old name it mentions or is the catch-all row. */
  predicate RenamingTable(rules: seq<Rule>)
  {
    forall k | 0 <= k < |rules| :: RenamesOldName(rules[k]) || rules[k] == BareName
  }

  lemma RenamingTableFacts(rules: seq<Rule>)
    requires RenamingTable(rules)
    ensures AllWellFormed(rules)
    ensures forall k | 0 <= k <= |rules| :: RenamingTable(rules[..k])
  {
    forall k | 0 <= k < |rules| ensures rules[k].WellFormed() {
      if rules[k] != BareName { RenamingRowFacts(rules[k]); }
    }
  }

  /** Total of the match counts of a list of report lines. */
  function TotalOccurrences(reports: seq<RuleReport>): nat
  {
    if reports == [] then 0
    else TotalOccurrences(reports[..|reports| - 1]) + reports[|reports| - 1].occurrences
  }

  lemma LiteralGrowth(s: string, t: string, rep: string)
    requires t != [] && |rep| == |t| + 4
    ensures |ReplaceAll(s, t, rep)| == |s| + 4 * CountMatches(s, t)
    ensures ReplaceAll(s, t, rep) == s <==> CountMatches(s, t) == 0
  {
    ReplaceAllLength(s, t, rep);
    ReplaceAllUnchangedIff(s, t, rep);
    CountPositiveIffOccurs(s, t);
  }

  /**
   * One renaming rule grows the text by four characters per match, and it
   * leaves the text unchanged exactly when it finds no match.
   */
  lemma RuleGrowth(r: Rule, s: string)
    requires RenamesOldName(r) || r == BareName
    ensures r.WellFormed()
    ensures |ApplyRule(r, s)| == |s| + 4 * Occurrences(r, s)
    ensures ApplyRule(r, s) == s <==> Occurrences(r, s) == 0
  {
    if r.Literal? {
      RenamingRowFacts(r);
      LiteralGrowth(s, r.text, r.replacement);
    } else {
      ReplaceTokenLength(s, true);
      ReplaceTokenUnchangedIff(s, true);
    }
  }

  /** The last step of a pipeline run: the rule at the end sees what the rules before it produced. */
  lemma RewriteLast(rules: seq<Rule>, s: string)
    requires AllWellFormed(rules) && rules != []
    ensures AllWellFormed(rules[..|rules| - 1])
    ensures Rewrite(rules, s) == ApplyRule(rules[|rules| - 1], Rewrite(rules[..|rules| - 1], s))
  {
  }

  lemma LastStep(rules: seq<Rule>, s: string)
    requires AllWellFormed(rules) && rules != []
    ensures AllWellFormed(rules[..|rules| - 1])
    ensures var init, r := rules[..|rules| - 1], rules[|rules| - 1];
            var before := Rewrite(init, s);
            && Rewrite(rules, s) == ApplyRule(r, before)
            && Reports(rules, s)
               == Reports(init, s)
                + (if ApplyRule(r, before) != before
                   then [RuleReport(r, Occurrences(r, before))]
                   else [])
  {
  }

  /** The pipeline grows the text by four characters per reported match. */
  lemma {:induction false} RewriteGrowth(rules: seq<Rule>, s: string)
    requires RenamingTable(rules)
    ensures AllWellFormed(rules)
    ensures |Rewrite(rules, s)| == |s| + 4 * TotalOccurrences(Reports(rules, s))
    decreases |rules|
  {
    RenamingTableFacts(rules);
    if rules != [] {
      var n := |rules| - 1;
      var init, r := rules[..n], rules[n];
      LastStep(rules, s);
      RewriteGrowth(init, s);
      var before := Rewrite(init, s);
      RuleGrowth(r, before);
      var prev := Reports(init, s);
      if ApplyRule(r, before) != before {
        var line := RuleReport(r, Occurrences(r, before));
        assert (prev + [line])[..|prev|] == prev;
        assert TotalOccurrences(prev + [line]) == TotalOccurrences(prev) + line.occurrences;
      } else {
        assert prev + [] == prev;
      }
    }
  }

  /** Every report line counts at least one match. */
  lemma {:induction false} ReportsPositive(rules: seq<Rule>, s: string)
    requires RenamingTable(rules)
    ensures AllWellFormed(rules)
    ensures forall i | 0 <= i < |Reports(rules, s)| :: Reports(rules, s)[i].occurrences > 0
    decreases |rules|
  {
    RenamingTableFacts(rules);
    if rules != [] {
      var n := |rules| - 1;
      var init, r := rules[..n], rules[n];
      LastStep(rules, s);
      ReportsPositive(init, s);
      RuleGrowth(r, Rewrite(init, s));
    }
  }

  /** A list of report lines, each counting a match, has a positive total unless it is empty. */
  lemma {:induction false} TotalPositive(reports: seq<RuleReport>)
    requires forall i | 0 <= i < |reports| :: reports[i].occurrences > 0
    ensures TotalOccurrences(reports) == 0 <==> reports == []
  {
  }

  /**
   * The file's content is changed exactly when some rule is reported: a file
   * that no rule changes yields no report lines, and report lines always come
   * with a changed content.
   */
  lemma UnchangedIffNoReports(rules: seq<Rule>, s: string)
    requires RenamingTable(rules)
    ensures AllWellFormed(rules)
    ensures Rewrite(rules, s) == s <==> Reports(rules, s) == []
  {
    RewriteGrowth(rules, s);
    ReportsPositive(rules, s);
    TotalPositive(Reports(rules, s));
    if Reports(rules, s) == [] {
      NoReportsFixed(rules, s);
    }
  }

  /** With no report line, every rule of the pipeline saw the original text and kept it. */
  lemma {:induction false} NoReportsFixed(rules: seq<Rule>, s: string)
    requires AllWellFormed(rules) && Reports(rules, s) == []
    ensures Rewrite(rules, s) == s
    decreases |rules|
  {
    if rules != [] {
      var n := |rules| - 1;
      var init, r := rules[..n], rules[n];
      LastStep(rules, s);
      var before := Rewrite(init, s);
      var prev := Reports(init, s);
      assert |prev| == 0 && ApplyRule(r, before) == before;
      NoReportsFixed(init, s);
    }
  }

  /** Without report lines, the rules before the last one produced none either. */
  lemma NoReportsInit(rules: seq<Rule>, s: string)
    requires AllWellFormed(rules) && Reports(rules, s) == [] && rules != []
    ensures AllWellFormed(rules[..|rules| - 1]) && Reports(rules[..|rules| - 1], s) == []
  {
    LastStep(rules, s);
  }

  /** Without report lines, the last rule kept the original text. */
  lemma NoReportsLastFixed(rules: seq<Rule>, s: string)
    requires AllWellFormed(rules) && Reports(rules, s) == [] && rules != []
    ensures ApplyRule(rules[|rules| - 1], s) == s
  {
    NoReportsInit(rules, s);
    LastStep(rules, s);
    NoReportsFixed(rules[..|rules| - 1], s);
  }

  /** With no report line, each rule of the pipeline on its own keeps the original text. */
  lemma {:induction false} NoReportsEachFixed(rules: seq<Rule>, s: string, k: nat)
    requires AllWellFormed(rules) && Reports(rules, s) == [] && k < |rules|
    ensures ApplyRule(rules[k], s) == s
    decreases |rules|
  {
    var n := |rules| - 1;
    if k == n {
      NoReportsLastFixed(rules, s);
    } else {
      NoReportsInit(rules, s);
      NoReportsEachFixed(rules[..n], s, k);
      assert rules[..n][k] == rules[k];
    }
  }

  /**
   * The pipeline leaves a text alone only when each rule on its own leaves it
   * alone.
   */
  lemma FixedByEveryRule(rules: seq<Rule>, s: string, k: nat)
    requires RenamingTable(rules) && k < |rules|
    requires Rewrite(rules, s) == s
    ensures AllWellFormed(rules) && ApplyRule(rules[k], s) == s
  {
    UnchangedIffNoReports(rules, s);
    NoReportsEachFixed(rules, s, k);
  }

  /**
   * Every rule of the table mentions the old name, so a text without it
   * passes through the pipeline unchanged and unreported.
   */
  lemma {:induction false} NoOldNameUnchanged(rules: seq<Rule>, s: string)
    requires RenamingTable(rules) && !Occurs(s, OldName)
    ensures AllWellFormed(rules)
    ensures Rewrite(rules, s) == s && Reports(rules, s) == []
    decreases |rules|
  {
    RenamingTableFacts(rules);
    if rules != [] {
      var n := |rules| - 1;
      var init, r := rules[..n], rules[n];
      NoOldNameUnchanged(init, s);
      RuleGrowth(r, s);
      if r.Literal? {
        RenamingRowFacts(r);
        if Occurs(s, r.text) {
          OccursTransitive(s, r.text, OldName);
        }
        CountPositiveIffOccurs(s, r.text);
      } else {
        NoNameNoTokens(s, true);
      }
    }
  }

  lemma WellFormedConcat(first: seq<Rule>, second: seq<Rule>)
    requires AllWellFormed(first) && AllWellFormed(second)
    ensures AllWellFormed(first + second)
  {
    var all := first + second;
    forall k | 0 <= k < |all| ensures all[k].WellFormed() {
      if k >= |first| { assert all[k] == second[k - |first|]; }
    }
  }

  /** Running two tables one after the other is running their concatenation. */
  lemma {:induction false} RewriteCompose(first: seq<Rule>, second: seq<Rule>, s: string)
    requires AllWellFormed(first) && AllWellFormed(second)
    ensures AllWellFormed(first + second)
    ensures Rewrite(first + second, s) == Rewrite(second, Rewrite(first, s))
    decreases |second|
  {
    var all := first + second;
    WellFormedConcat(first, second);
    if second == [] {
      assert all == first;
    } else {
      var n := |second| - 1;
      var init := second[..n];
      RewriteLast(second, Rewrite(first, s));
      RewriteCompose(first, init, s);
      assert all[..|all| - 1] == first + init;
      RewriteLast(all, s);
    }
  }

  /** `s` contains none of the characters in `marks`. */
  predicate Avoids(s: string, marks: set<char>)
  {
    forall i | 0 <= i < |s| :: s[i] !in marks
  }

  /** A literal row whose text carries one of `marks`. */
  predicate Marked(r: Rule, marks: set<char>)
  {
    r.Literal? && exists j | 0 <= j < |r.text| :: r.text[j] in marks
  }

  /** A pattern carrying a character the text lacks cannot occur in it. */
  lemma MissingMarkNoMatch(s: string, pat: string, marks: set<char>)
    requires Avoids(s, marks)
    requires exists j | 0 <= j < |pat| :: pat[j] in marks
    ensures !Occurs(s, pat)
  {
    var j :| 0 <= j < |pat| && pat[j] in marks;
    forall i: nat | i <= |s| ensures !OccursAt(s, pat, i) {
      if i + |pat| <= |s| {
        assert s[i..i + |pat|][j] == s[i + j];
      }
    }
  }

  /** A row that leaves the text as it is adds nothing to the text or the report. */
  lemma StepUnchanged(rules: seq<Rule>, k: nat, s: string)
    requires AllWellFormed(rules) && k < |rules|
    requires AllWellFormed(rules[..k]) && ApplyRule(rules[k], Rewrite(rules[..k], s)) == Rewrite(rules[..k], s)
    ensures AllWellFormed(rules[..k + 1])
    ensures Rewrite(rules[..k + 1], s) == Rewrite(rules[..k], s)
    ensures Reports(rules[..k + 1], s) == Reports(rules[..k], s)
  {
    RewriteStep(rules, k, s);
    assert Reports(rules[..k], s) + [] == Reports(rules[..k], s);
  }

  /** A row whose text carries a character the text lacks leaves it unchanged. */
  lemma SkipRule(r: Rule, s: string, marks: set<char>)
    requires Marked(r, marks) && Avoids(s, marks)
    ensures r.WellFormed() && ApplyRule(r, s) == s
  {
    MissingMarkNoMatch(s, r.text, marks);
    CountPositiveIffOccurs(s, r.text);
    NoMatchIdentity(s, r.text, r.replacement);
  }

  /**
   * A stretch of rows whose texts each carry a character the current text
   * lacks changes nothing and reports nothing.
   */
  lemma {:induction false} SkipRules(rules: seq<Rule>, lo: nat, hi: nat, s: string, marks: set<char>)
    requires AllWellFormed(rules) && lo <= hi <= |rules|
    requires forall k | lo <= k < hi :: Marked(rules[k], marks)
    requires AllWellFormed(rules[..lo]) && Avoids(Rewrite(rules[..lo], s), marks)
    ensures AllWellFormed(rules[..hi])
    ensures Rewrite(rules[..hi], s) == Rewrite(rules[..lo], s)
    ensures Reports(rules[..hi], s) == Reports(rules[..lo], s)
    decreases hi - lo
  {
    if lo < hi {
      SkipRule(rules[lo], Rewrite(rules[..lo], s), marks);
      StepUnchanged(rules, lo, s);
      SkipRules(rules, lo + 1, hi, s, marks);
    }
  }

  /** A text that is exactly the pattern is one match, replaced whole. */
  lemma ReplaceWhole(t: string, rep: string, rest: string)
    requires t != [] && |rest| < |t|
    ensures ReplaceAll(t + rest, t, rep) == rep + rest
    ensures CountMatches(t + rest, t) == 1
  {
    var s := t + rest;
    assert t <= s;
    assert s[|t|..] == rest;
    ShortNoMatch(rest, t, rep);
  }

  /** A text shorter than the pattern is left alone. */
  lemma {:induction false} ShortNoMatch(s: string, t: string, rep: string)
    requires t != [] && |s| < |t|
    ensures ReplaceAll(s, t, rep) == s && CountMatches(s, t) == 0
    decreases |s|
  {
    if s != [] {
      ShortNoMatch(s[1..], t, rep);
      assert [s[0]] + s[1..] == s;
    }
  }

  /**
   * A row whose text opens the current text, followed by a rest too short to
   * hold another match, rewrites that one occurrence.
   */
  lemma LeadingTextRow(rules: seq<Rule>, k: nat, s: string, t: string, rest: string, rep: string)
    requires AllWellFormed(rules) && k < |rules|
    requires rules[k] == Literal(t, rep) && |rep| > |t| && |rest| < |t|
    requires AllWellFormed(rules[..k]) && Rewrite(rules[..k], s) == t + rest
    ensures AllWellFormed(rules[..k + 1])
    ensures Rewrite(rules[..k + 1], s) == rep + rest
    ensures Reports(rules[..k + 1], s) == Reports(rules[..k], s) + [RuleReport(rules[k], 1)]
  {
    RewriteStep(rules, k, s);
    ReplaceWhole(t, rep, rest);
    assert rep + rest != t + rest by {
      assert |rep + rest| > |t + rest|;
    }
  }

  /** `require("claude-code")`, and the same call after the rename. */
  const RequireCall: string := "require(\"" + OldName + "\")"
  const RenamedRequireCall: string := "require(\"" + NewName + "\")"

  lemma RequireStage1()
    ensures AllWellFormed(Substitutions) && AllWellFormed(Substitutions[..4])
    ensures Rewrite(Substitutions[..4], RequireCall) == RequireCall
    ensures Reports(Substitutions[..4], RequireCall) == []
  {
    TableShape();
    var marks := {'.', '/'};
    forall k | 0 <= k < 4 ensures Marked(Substitutions[k], marks) {
      if k == 3 { assert Substitutions[3].text[5] == '/'; }
      else { assert Substitutions[k].text[11] == '.'; }
    }
    assert Substitutions[..0] == [];
    SkipRules(Substitutions, 0, 4, RequireCall, marks);
  }

  lemma RequireCallSplit()
    ensures RequireCall + [] == RequireCall && RenamedRequireCall + [] == RenamedRequireCall
    ensures |Substitutions| == 14 && Substitutions[4] == Literal(RequireCall, RenamedRequireCall)
    ensures |RenamedRequireCall| > |RequireCall| > 0
  {
  }

  lemma RequireStage2()
    ensures AllWellFormed(Substitutions) && AllWellFormed(Substitutions[..5])
    ensures Rewrite(Substitutions[..5], RequireCall) == RenamedRequireCall
    ensures Reports(Substitutions[..5], RequireCall) == [RuleReport(Substitutions[4], 1)]
  {
    RequireStage1();
    RequireCallSplit();
    LeadingTextRow(Substitutions, 4, RequireCall, RequireCall, [], RenamedRequireCall);
  }

  /** Characters that the later literal rows carry and the rewritten call lacks. */
  const LaterMarks: set<char> := {'.', '\'', ':', '*', '/'}

  lemma LaterRowsMarked()
    ensures |Substitutions| == 14
    ensures forall k | 5 <= k < 13 :: Marked(Substitutions[k], LaterMarks)
  {
    forall k | 5 <= k < 13 ensures Marked(Substitutions[k], LaterMarks) {
      if k == 5 || k == 7 { assert Substitutions[k].text[20] == '.'; }
      else if k == 6 { assert Substitutions[6].text[8] == '\''; }
      else if k == 8 { assert Substitutions[8].text[11] == ':'; }
      else if k == 9 { assert Substitutions[9].text[0] == '*'; }
      else { assert Substitutions[k].text[12] == '/'; }
    }
  }

  lemma RenamedCallUnmarked()
    ensures Avoids(RenamedRequireCall, LaterMarks)
  {
  }

  lemma RequireStage3()
    ensures AllWellFormed(Substitutions) && AllWellFormed(Substitutions[..13])
    ensures Rewrite(Substitutions[..13], RequireCall) == RenamedRequireCall
    ensures Reports(Substitutions[..13], RequireCall) == [RuleReport(Substitutions[4], 1)]
  {
    RequireStage2();
    LaterRowsMarked();
    RenamedCallUnmarked();
    SkipRules(Substitutions, 5, 13, RequireCall, LaterMarks);
  }

  lemma RenamedCallUntouched()
    ensures ReplaceToken(RenamedRequireCall, true) == RenamedRequireCall
  {
    RewrittenRequireUntouched();
  }

  /** A last, catch-all row that finds no match keeps the text and reports nothing. */
  lemma CatchAllKeeps(rules: seq<Rule>, s: string, u: string)
    requires AllWellFormed(rules) && rules != [] && rules[|rules| - 1] == BareName
    requires AllWellFormed(rules[..|rules| - 1]) && Rewrite(rules[..|rules| - 1], s) == u
    requires ReplaceToken(u, true) == u
    ensures Rewrite(rules, s) == u
    ensures Reports(rules, s) == Reports(rules[..|rules| - 1], s)
  {
    LastStep(rules, s);
    assert Reports(rules[..|rules| - 1], s) + [] == Reports(rules[..|rules| - 1], s);
  }

  /**
   * `require("claude-code")` becomes `require("claude-code-ide")`: the
   * require row rewrites it once, and the catch-all row does not match the
   * result again because a hyphen follows the name.
   */
  lemma RequireCallRenamed()
    ensures AllWellFormed(Substitutions)
    ensures Rewrite(Substitutions, RequireCall) == RenamedRequireCall
    ensures Reports(Substitutions, RequireCall) == [RuleReport(Substitutions[4], 1)]
  {
    RequireStage3();
    TableShape();
    RenamedCallUntouched();
    CatchAllKeeps(Substitutions, RequireCall, RenamedRequireCall);
  }

  const HelpTag: string := "*claude-code-setup*"
  const RenamedHelpTag: string := "*claude-code-ide-setup*"

  /** Characters that the rows before the help-tag row carry and the help tag lacks. */
  const EarlierMarks: set<char> := {'.', '(', ':'}

  lemma EarlierRowsMarked()
    ensures |Substitutions| == 14
    ensures forall k | 0 <= k < 9 :: Marked(Substitutions[k], EarlierMarks)
  {
    forall k | 0 <= k < 9 ensures Marked(Substitutions[k], EarlierMarks) {
      if k < 3 { assert Substitutions[k].text[11] == '.'; }
      else if k == 3 { assert Substitutions[3].text[17] == '.'; }
      else if k < 8 { assert Substitutions[k].text[7] == '('; }
      else { assert Substitutions[8].text[11] == ':'; }
    }
  }

  lemma PathRowsMarked()
    ensures |Substitutions| == 14
    ensures forall k | 10 <= k < 13 :: Marked(Substitutions[k], {'/'})
  {
    forall k | 10 <= k < 13 ensures Marked(Substitutions[k], {'/'}) {
      assert Substitutions[k].text[12] == '/';
    }
  }

  lemma HelpTagUnmarked()
    ensures Avoids(HelpTag, EarlierMarks) && Avoids(RenamedHelpTag, {'/'})
  {
  }

  lemma HelpTagSplit()
    ensures |Substitutions| == 14 && Substitutions[9] == Literal("*claude-code-", "*claude-code-ide-")
    ensures HelpTag == "*claude-code-" + "setup*" && RenamedHelpTag == "*claude-code-ide-" + "setup*"
  {
  }

  lemma HelpTagStage1()
    ensures AllWellFormed(Substitutions) && AllWellFormed(Substitutions[..10])
    ensures Rewrite(Substitutions[..10], HelpTag) == RenamedHelpTag
  {
    TableShape();
    EarlierRowsMarked();
    HelpTagUnmarked();
    assert Substitutions[..0] == [];
    SkipRules(Substitutions, 0, 9, HelpTag, EarlierMarks);
    HelpTagSplit();
    LeadingTextRow(Substitutions, 9, HelpTag, "*claude-code-", "setup*", "*claude-code-ide-");
  }

  lemma HelpTagStage2()
    ensures AllWellFormed(Substitutions) && AllWellFormed(Substitutions[..13])
    ensures Rewrite(Substitutions[..13], HelpTag) == RenamedHelpTag
  {
    HelpTagStage1();
    PathRowsMarked();
    HelpTagUnmarked();
    SkipRules(Substitutions, 10, 13, HelpTag, {'/'});
  }

  lemma RenamedHelpTagUntouched()
    ensures ReplaceToken(RenamedHelpTag, true) == RenamedHelpTag
  {
    assert forall i | 0 <= i < |RenamedHelpTag| :: !IsSeparator(RenamedHelpTag[i]);
    PlainPrefix(RenamedHelpTag, [], true);
    assert RenamedHelpTag + [] == RenamedHelpTag;
  }

  /**
   * The pipeline is not idempotent: the help-tag row turns `*claude-code-setup*`
   * into `*claude-code-ide-setup*`, which still opens with `*claude-code-`, so
   * a second run rewrites it again.
   */
  lemma RewriteNotIdempotent()
    ensures AllWellFormed(Substitutions)
    ensures Rewrite(Substitutions, HelpTag) == RenamedHelpTag
    ensures Rewrite(Substitutions, RenamedHelpTag) != RenamedHelpTag
  {
    HelpTagStage2();
    TableShape();
    RenamedHelpTagUntouched();
    CatchAllKeeps(Substitutions, HelpTag, RenamedHelpTag);
    if Rewrite(Substitutions, RenamedHelpTag) == RenamedHelpTag {
      FixedByEveryRule(Substitutions, RenamedHelpTag, 9);
      HelpTagRowMatches();
    }
  }

  /** The help-tag row changes the renamed help tag. */
  lemma HelpTagRowMatches()
    ensures Substitutions[9].WellFormed()
    ensures ApplyRule(Substitutions[9], RenamedHelpTag) != RenamedHelpTag
  {
    var t, rep := "*claude-code-", "*claude-code-ide-";
    assert Substitutions[9] == Literal(t, rep);
    assert OccursAt(RenamedHelpTag, t, 0);
    ReplaceAllUnchangedIff(RenamedHelpTag, t, rep);
  }
}
