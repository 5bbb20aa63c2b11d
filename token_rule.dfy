/**
 * The catch-all substitution rule of the rename script: the bare identifier
 * `claude-code` standing between separators, rewritten to `claude-code-ide`
 * with both separators put back.  As a regular expression it reads
 * `(\s|^|")claude-code(\s|$|")` with replacement `\1claude-code-ide\2`.
 *
 * The leading group is a whitespace character, a double quote, or the empty
 * string at the very start of the text (no MULTILINE flag).  The trailing
 * group is a whitespace character, a double quote, or the empty string at the
 * end of the text.  `$` also matches just before a final newline, but the
 * `\s` alternative is tried first and already consumes that newline, so this
 * never changes the result.
 */
module TokenRule {
  import opened TextOps
  import opened Optional

  const OldName: string := "claude-code"
  const NewName: string := "claude-code-ide"

  /** Python's `\s` on text patterns: the characters `str.isspace` accepts. */
  predicate IsSpace(c: char)
  {
    || ('\t' <= c <= '\r')
    || ('\U{1C}' <= c <= ' ')
    || c == '\U{85}' || c == '\U{A0}' || c == '\U{1680}'
    || ('\U{2000}' <= c <= '\U{200A}')
    || c == '\U{2028}' || c == '\U{2029}' || c == '\U{202F}' || c == '\U{205F}'
    || c == '\U{3000}'
  }

  /** A character that either group may consume: `\s` or `"`. */
  predicate IsSeparator(c: char)
  {
    IsSpace(c) || c == '"'
  }

  /**
   * The declarative reading of the pattern: at the front of `s`, a leading
   * group of `lead` characters, the old name, and a trailing group of `trail`
   * characters form a match.  `atStart` tells whether the front of `s` is the
   * front of the whole text, where `^` matches.
   */
  predicate MatchesAt(s: string, atStart: bool, lead: nat, trail: nat)
  {
    && lead <= 1 && trail <= 1
    && (lead == 1 ==> |s| > 0 && IsSeparator(s[0]))
    && (lead == 0 ==> atStart)
    && lead + |OldName| <= |s| && s[lead..lead + |OldName|] == OldName
    && (trail == 1 ==> lead + |OldName| < |s| && IsSeparator(s[lead + |OldName|]))
    && (trail == 0 ==> lead + |OldName| == |s|)
  }

  /** The groups of one match: the separators consumed before and after the name. */
  datatype Token = Token(lead: string, trail: string)
  {
    /** Number of characters the match consumes. */
    function Length(): nat
    {
      |lead| + |OldName| + |trail|
    }
  }

  /**
   * The regular-expression engine's attempt at the front of `s`: the groups of
   * the match starting there, or None when no match starts there.  At most one
   * choice of groups can succeed, so the order of the alternatives does not
   * matter (lemma MatchUnique).
   */
  function TokenAt(s: string, atStart: bool): (m: Option<Token>)
    ensures m.Some? ==> && MatchesAt(s, atStart, |m.value.lead|, |m.value.trail|)
                        && m.value.Length() <= |s|
                        && s[..m.value.Length()] == m.value.lead + OldName + m.value.trail
  {
    var lead := if |s| > 0 && IsSeparator(s[0]) then 1 else 0;
    var q := lead + |OldName|;
    if lead == 0 && !atStart then
      None
    else if q <= |s| && s[lead..q] == OldName then
      if q < |s| && IsSeparator(s[q]) then
        assert MatchesAt(s, atStart, lead, 1);
        assert s[..q + 1] == s[..lead] + s[lead..q] + [s[q]];
        Some(Token(s[..lead], [s[q]]))
      else if q == |s| then
        assert MatchesAt(s, atStart, lead, 0);
        assert s[..q] == s[..lead] + s[lead..q] + [];
        Some(Token(s[..lead], []))
      else
        None
    else
      None
  }

  /** The engine finds a match at the front exactly when some choice of groups matches there. */
  lemma TokenAtIffMatch(s: string, atStart: bool)
    ensures TokenAt(s, atStart).Some? <==>
              exists lead: nat, trail: nat | lead <= 1 && trail <= 1 :: MatchesAt(s, atStart, lead, trail)
  {
    var m := TokenAt(s, atStart);
    if m.Some? {
      assert MatchesAt(s, atStart, |m.value.lead|, |m.value.trail|);
    }
  }

  /** At most one choice of groups matches at a position. */
  lemma MatchUnique(s: string, atStart: bool, lead1: nat, trail1: nat, lead2: nat, trail2: nat)
    requires MatchesAt(s, atStart, lead1, trail1) && MatchesAt(s, atStart, lead2, trail2)
    ensures lead1 == lead2 && trail1 == trail2
  {
  }

  /**
   * `re.sub` with the catch-all rule: scan from the front; where a match
   * starts, emit the lead group, the new name and the trail group and resume
   * after the consumed text; otherwise copy one character.  Only the very
   * first position of the text counts as the start.
   */
  function ReplaceToken(s: string, atStart: bool): string
    decreases |s|
  {
    if s == [] then []
    else match TokenAt(s, atStart)
      case Some(t) => t.lead + NewName + t.trail + ReplaceToken(s[t.Length()..], false)
      case None => [s[0]] + ReplaceToken(s[1..], false)
  }

  /** `len(re.findall(...))` with the catch-all rule: the matches `ReplaceToken` rewrites. */
  function CountTokens(s: string, atStart: bool): nat
    decreases |s|
  {
    if s == [] then 0
    else match TokenAt(s, atStart)
      case Some(t) => 1 + CountTokens(s[t.Length()..], false)
      case None => CountTokens(s[1..], false)
  }

  /** Every rewritten match grows the text by the four characters of `-ide`. */
  lemma {:induction false} ReplaceTokenLength(s: string, atStart: bool)
    ensures |ReplaceToken(s, atStart)| == |s| + 4 * CountTokens(s, atStart)
    decreases |s|
  {
    if s != [] {
      match TokenAt(s, atStart)
      case Some(t) => ReplaceTokenLength(s[t.Length()..], false);
      case None => ReplaceTokenLength(s[1..], false);
    }
  }

  /** A text in which the old name never occurs has no match at all. */
  lemma {:induction false} NoNameNoTokens(s: string, atStart: bool)
    requires !Occurs(s, OldName)
    ensures CountTokens(s, atStart) == 0
    decreases |s|
  {
    if s != [] {
      OccursShift(s, OldName, 1);
      match TokenAt(s, atStart)
      case Some(t) =>
        var lead := |t.lead|;
        assert OccursAt(s, OldName, lead);
        assert false;
      case None =>
        NoNameNoTokens(s[1..], false);
    }
  }

  /** The rule leaves a text unchanged exactly when it finds no match. */
  lemma ReplaceTokenUnchangedIff(s: string, atStart: bool)
    ensures ReplaceToken(s, atStart) == s <==> CountTokens(s, atStart) == 0
  {
    ReplaceTokenLength(s, atStart);
    if CountTokens(s, atStart) == 0 {
      NoTokensIdentity(s, atStart);
    }
  }

  lemma {:induction false} NoTokensIdentity(s: string, atStart: bool)
    requires CountTokens(s, atStart) == 0
    ensures ReplaceToken(s, atStart) == s
    decreases |s|
  {
    if s != [] {
      match TokenAt(s, atStart)
      case None =>
        NoTokensIdentity(s[1..], false);
        assert [s[0]] + s[1..] == s;
    }
  }

  /**
   * A stretch without separators that cannot open a match at the start of
   * the text is copied unchanged, and the scan goes on after it.
   */
  lemma {:induction false} PlainPrefix(p: string, r: string, atStart: bool)
    requires forall i | 0 <= i < |p| :: !IsSeparator(p[i])
    requires atStart && p != [] ==> p[0] != OldName[0]
    ensures ReplaceToken(p + r, atStart) == p + ReplaceToken(r, atStart && p == [])
    ensures CountTokens(p + r, atStart) == CountTokens(r, atStart && p == [])
    decreases |p|
  {
    if p != [] {
      var s, tl := p + r, p[1..];
      HeadTail(p, r);
      PlainHeadNoToken(s, atStart);
      SkipOne(s, atStart);
      PlainPrefix(tl, r, false);
      HeadTail(p, ReplaceToken(r, false));
    } else {
      assert p + r == r;
    }
  }

  /** A non-empty prefix splits into its first character and the rest. */
  lemma HeadTail(p: string, x: string)
    requires p != []
    ensures (p + x)[0] == p[0] && (p + x)[1..] == p[1..] + x && [p[0]] + (p[1..] + x) == p + x
  {
    assert [p[0]] + p[1..] == p;
  }

  /** No match starts at a character that is neither a separator nor, at the start, the name's first letter. */
  lemma PlainHeadNoToken(s: string, atStart: bool)
    requires s != [] && !IsSeparator(s[0]) && (atStart ==> s[0] != OldName[0])
    ensures TokenAt(s, atStart).None?
  {
    if atStart && |OldName| <= |s| {
      assert s[0..|OldName|][0] == s[0];
    }
  }

  /**
   * The trailing separator is consumed by the first match, so a name that
   * follows after a single separator is not rewritten in the same pass:
   * `claude-code claude-code` becomes `claude-code-ide claude-code`.
   */
  lemma AdjacentNamesOnlyFirstRewritten(sep: char, rest: string)
    requires IsSeparator(sep) && forall i | 0 <= i < |rest| :: !IsSeparator(rest[i])
    ensures ReplaceToken(OldName + [sep] + rest, true) == NewName + [sep] + rest
    ensures CountTokens(OldName + [sep] + rest, true) == 1
  {
    LeadingToken(sep, rest);
    PlainPrefix(rest, [], false);
    assert rest + [] == rest;
  }

  /** The old name at the start of the text, followed by a separator, is one match that consumes the separator. */
  lemma LeadingToken(c: char, r: string)
    requires IsSeparator(c)
    ensures ReplaceToken(OldName + [c] + r, true) == NewName + [c] + ReplaceToken(r, false)
    ensures CountTokens(OldName + [c] + r, true) == 1 + CountTokens(r, false)
  {
    var s := OldName + [c] + r;
    assert TokenAt(s, true) == Some(Token([], [c])) by {
      assert !IsSeparator(s[0]) by { assert s[0] == 'c'; }
      assert s[0..|OldName|] == OldName;
      assert s[|OldName|] == c;
    }
    TakeToken(s, true);
    assert s[|OldName| + 1..] == r;
    assert [] + NewName + [c] == NewName + [c];
  }

  /** Where a match starts, the scan emits its groups around the new name and resumes after it. */
  lemma TakeToken(s: string, atStart: bool)
    requires s != [] && TokenAt(s, atStart).Some?
    ensures var t := TokenAt(s, atStart).value;
      && ReplaceToken(s, atStart) == t.lead + NewName + t.trail + ReplaceToken(s[t.Length()..], false)
      && CountTokens(s, atStart) == 1 + CountTokens(s[t.Length()..], false)
  {
  }

  /** The new name holds no separator. */
  lemma NewNamePlain()
    ensures forall i | 0 <= i < |NewName| :: !IsSeparator(NewName[i])
  {
    forall i | 0 <= i < |NewName| ensures !IsSeparator(NewName[i]) {
      if i == 0 { assert !IsSeparator(NewName[0]); }
      else if i == 1 { assert !IsSeparator(NewName[1]); }
      else if i == 2 { assert !IsSeparator(NewName[2]); }
      else if i == 3 { assert !IsSeparator(NewName[3]); }
      else if i == 4 { assert !IsSeparator(NewName[4]); }
      else if i == 5 { assert !IsSeparator(NewName[5]); }
      else if i == 6 { assert !IsSeparator(NewName[6]); }
      else if i == 7 { assert !IsSeparator(NewName[7]); }
      else if i == 8 { assert !IsSeparator(NewName[8]); }
      else if i == 9 { assert !IsSeparator(NewName[9]); }
      else if i == 10 { assert !IsSeparator(NewName[10]); }
      else if i == 11 { assert !IsSeparator(NewName[11]); }
      else if i == 12 { assert !IsSeparator(NewName[12]); }
      else if i == 13 { assert !IsSeparator(NewName[13]); }
      else if i == 14 { assert !IsSeparator(NewName[14]); }
    }
  }

  /** Text shorter than the old name holds no match. */
  lemma {:induction false} ShortUntouched(s: string, atStart: bool)
    requires |s| < |OldName|
    ensures ReplaceToken(s, atStart) == s && CountTokens(s, atStart) == 0
    decreases |s|
  {
    if s != [] {
      assert TokenAt(s, atStart).None?;
      ShortUntouched(s[1..], false);
      assert [s[0]] + s[1..] == s;
    }
  }

  /**
   * A name longer than the old one and free of separators is not a bare
   * identifier: after a plain prefix, a separator, such a name and a short
   * tail, the catch-all rule finds nothing, so the text stays as it is.
   */
  lemma QuotedNameUntouched(p: string, q: char, n: string, r: string)
    requires p != [] && p[0] != OldName[0] && forall i | 0 <= i < |p| :: !IsSeparator(p[i])
    requires IsSeparator(q) && |n| > |OldName| && forall i | 0 <= i < |n| :: !IsSeparator(n[i])
    requires |r| < |OldName|
    ensures ReplaceToken(p + [q] + n + r, true) == p + [q] + n + r
    ensures CountTokens(p + [q] + n + r, true) == 0
  {
    var tail := [q] + (n + r);
    PlainThenShort(n, r);
    SeparatorWithoutBoundary(q, n + r);
    PlainPrefix(p, tail, true);
    RegroupQuoted(p, q, n, r);
  }

  lemma RegroupQuoted(p: string, q: char, n: string, r: string)
    ensures p + [q] + n + r == p + ([q] + (n + r))
  {
  }

  /** A name as above followed by a short tail holds no match, and no separator follows its first |OldName| characters. */
  lemma PlainThenShort(n: string, r: string)
    requires |n| > |OldName| && forall i | 0 <= i < |n| :: !IsSeparator(n[i])
    requires |r| < |OldName|
    ensures |n + r| > |OldName| && !IsSeparator((n + r)[|OldName|])
    ensures ReplaceToken(n + r, false) == n + r && CountTokens(n + r, false) == 0
  {
    assert (n + r)[|OldName|] == n[|OldName|];
    PlainPrefix(n, r, false);
    ShortUntouched(r, false);
  }

  /** Away from the start, no match starts where the character after a possible name is no separator. */
  lemma NoBoundaryNoToken(s: string)
    requires |s| > 1 + |OldName| && !IsSeparator(s[1 + |OldName|])
    ensures TokenAt(s, false).None?
  {
  }

  /** Where no match starts, the scan copies one character and moves on. */
  lemma SkipOne(s: string, atStart: bool)
    requires s != [] && TokenAt(s, atStart).None?
    ensures ReplaceToken(s, atStart) == [s[0]] + ReplaceToken(s[1..], false)
    ensures CountTokens(s, atStart) == CountTokens(s[1..], false)
  {
  }

  /**
   * A separator followed by text whose character after a possible name is no
   * separator opens no match: the separator is copied and the scan goes on.
   */
  lemma SeparatorWithoutBoundary(q: char, t: string)
    requires |t| > |OldName| && !IsSeparator(t[|OldName|])
    ensures ReplaceToken([q] + t, false) == [q] + ReplaceToken(t, false)
    ensures CountTokens([q] + t, false) == CountTokens(t, false)
  {
    var s := [q] + t;
    assert s[1 + |OldName|] == t[|OldName|];
    NoBoundaryNoToken(s);
    assert s[0] == q && s[1..] == t;
    SkipOne(s, false);
  }

  /** The catch-all rule leaves an already rewritten `require("claude-code-ide")` alone. */
  lemma RewrittenRequireUntouched()
    ensures ReplaceToken("require(\"" + NewName + "\")", true) == "require(\"" + NewName + "\")"
    ensures CountTokens("require(\"" + NewName + "\")", true) == 0
  {
    NewNamePlain();
    QuotedNameUntouched("require(", '"', NewName, "\")");
    assert "require(\"" + NewName + "\")" == "require(" + ['"'] + NewName + "\")";
  }
}
