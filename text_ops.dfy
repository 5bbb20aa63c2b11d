/**
 * Literal substring operations on text: the global, leftmost, non-overlapping
 * replacement that both `str.replace` and `re.sub` with an escape-only pattern
 * perform, the match count that `re.findall` reports for such a pattern, and
 * substring containment (`in` on strings).
 */
module TextOps {

  /** `pat` occurs in `s` starting at index `i`. */
  predicate OccursAt(s: string, pat: string, i: nat)
  {
    i + |pat| <= |s| && s[i..i + |pat|] == pat
  }

  /** `pat` occurs somewhere in `s` (Python's `pat in s`). */
  predicate Occurs(s: string, pat: string)
  {
    exists i: nat | i <= |s| :: OccursAt(s, pat, i)
  }

  /**
   * Every leftmost, non-overlapping occurrence of `pat` replaced by `rep`:
   * the scan tries each position in turn and, after a replacement, resumes
   * just past the occurrence it consumed.
   */
  function ReplaceAll(s: string, pat: string, rep: string): string
    requires pat != []
    decreases |s|
  {
    if s == [] then []
    else if pat <= s then rep + ReplaceAll(s[|pat|..], pat, rep)
    else [s[0]] + ReplaceAll(s[1..], pat, rep)
  }

  /** The number of occurrences that `ReplaceAll` replaces. */
  function CountMatches(s: string, pat: string): nat
    requires pat != []
    decreases |s|
  {
    if s == [] then 0
    else if pat <= s then 1 + CountMatches(s[|pat|..], pat)
    else CountMatches(s[1..], pat)
  }

  /** Each replacement changes the length by exactly |rep| - |pat|. */
  lemma {:induction false} ReplaceAllLength(s: string, pat: string, rep: string)
    requires pat != []
    ensures |ReplaceAll(s, pat, rep)| == |s| + CountMatches(s, pat) * (|rep| - |pat|)
    decreases |s|
  {
    if s == [] {
    } else if pat <= s {
      var t := s[|pat|..];
      ReplaceAllLength(t, pat, rep);
      assert ReplaceAll(s, pat, rep) == rep + ReplaceAll(t, pat, rep);
      assert CountMatches(s, pat) == 1 + CountMatches(t, pat);
      MulSucc(CountMatches(t, pat), |rep| - |pat|);
    } else {
      ReplaceAllLength(s[1..], pat, rep);
    }
  }

  lemma MulSucc(c: nat, d: int)
    ensures (1 + c) * d == d + c * d
  {
  }

  lemma OccursShift(s: string, pat: string, k: nat)
    requires k <= |s|
    ensures Occurs(s[k..], pat) ==> Occurs(s, pat)
  {
    if Occurs(s[k..], pat) {
      var i: nat :| i <= |s[k..]| && OccursAt(s[k..], pat, i);
      assert s[k..][i..i + |pat|] == s[k + i..k + i + |pat|];
      assert OccursAt(s, pat, k + i);
    }
  }

  /** A match is counted exactly when the pattern occurs somewhere in the text. */
  lemma {:induction false} CountPositiveIffOccurs(s: string, pat: string)
    requires pat != []
    ensures CountMatches(s, pat) > 0 <==> Occurs(s, pat)
    decreases |s|
  {
    if s == [] {
      assert !Occurs(s, pat) by {
        forall i: nat | i <= |s| ensures !OccursAt(s, pat, i) { }
      }
    } else if pat <= s {
      assert OccursAt(s, pat, 0) by { assert s[0..|pat|] == pat; }
    } else {
      CountPositiveIffOccurs(s[1..], pat);
      OccursShift(s, pat, 1);
      if Occurs(s, pat) {
        var i: nat :| i <= |s| && OccursAt(s, pat, i);
        assert i > 0;
        assert s[1..][i - 1..i - 1 + |pat|] == s[i..i + |pat|];
        assert OccursAt(s[1..], pat, i - 1);
      }
    }
  }

  /**
   * When the replacement differs in length from the pattern, the text is
   * left unchanged exactly when the pattern does not occur in it.
   */
  lemma ReplaceAllUnchangedIff(s: string, pat: string, rep: string)
    requires pat != [] && |rep| != |pat|
    ensures ReplaceAll(s, pat, rep) == s <==> !Occurs(s, pat)
  {
    ReplaceAllLength(s, pat, rep);
    CountPositiveIffOccurs(s, pat);
    if CountMatches(s, pat) == 0 {
      NoMatchIdentity(s, pat, rep);
    } else {
      ProductNonZero(CountMatches(s, pat), |rep| - |pat|);
    }
  }

  lemma ProductNonZero(c: nat, d: int)
    requires c > 0 && d != 0
    ensures c * d != 0
  {
    if d > 0 { assert c * d >= d; } else { assert c * d <= d; }
  }

  /** Text without an occurrence of the pattern passes through unchanged. */
  lemma {:induction false} NoMatchIdentity(s: string, pat: string, rep: string)
    requires pat != [] && CountMatches(s, pat) == 0
    ensures ReplaceAll(s, pat, rep) == s
    decreases |s|
  {
    if s != [] {
      NoMatchIdentity(s[1..], pat, rep);
      assert [s[0]] + s[1..] == s;
    }
  }

  /** An occurrence of a longer pattern carries every occurrence inside it. */
  lemma OccursTransitive(s: string, mid: string, pat: string)
    requires Occurs(s, mid) && Occurs(mid, pat)
    ensures Occurs(s, pat)
  {
    var i: nat :| i <= |s| && OccursAt(s, mid, i);
    var j: nat :| j <= |mid| && OccursAt(mid, pat, j);
    forall k | 0 <= k < |pat| ensures s[i + j + k] == pat[k] {
      assert s[i + j + k] == mid[j + k];
    }
    assert s[i + j..i + j + |pat|] == pat;
    assert OccursAt(s, pat, i + j);
  }

  /** `a`, read from index `off`, differs from `b` at offset `j` of `b`, within both. */
  predicate MismatchAt(a: string, b: string, off: nat, j: nat)
  {
    off + j < |a| && j < |b| && a[off + j] != b[j]
  }

  /** `b` cannot start at index `off` of `a`: they differ before either ends. */
  predicate StartClashes(a: string, b: string, off: nat)
  {
    exists j: nat | j < |b| :: MismatchAt(a, b, off, j)
  }

  /**
   * The replacement never starts a copy of the pattern: a pattern placed at
   * any index of the replacement disagrees with it before the replacement ends.
   */
  predicate NoPatternFromReplacement(pat: string, rep: string)
  {
    forall i: nat | i < |rep| :: StartClashes(rep, pat, i)
  }

  /** No proper tail of the pattern is compatible with the start of the replacement. */
  predicate NoPatternIntoReplacement(pat: string, rep: string)
  {
    forall k: nat | 1 <= k < |pat| :: StartClashes(pat, rep, k)
  }

  /** A non-empty prefix is its first element followed by a prefix of the rest. */
  lemma PrefixCons(a: string, b: string)
    requires a != [] && b != []
    ensures a <= b <==> a[0] == b[0] && a[1..] <= b[1..]
  {
    if a[0] == b[0] && a[1..] <= b[1..] {
      assert a == [a[0]] + a[1..] && b[..|a|] == [b[0]] + b[1..][..|a| - 1];
    }
  }

  /**
   * When the output of a replacement starts with a proper tail of the
   * pattern, so did the input: replaced text cannot produce it.
   */
  lemma {:induction false} ReplaceKeepsPatternTail(t: string, pat: string, rep: string, k: nat)
    requires pat != [] && NoPatternIntoReplacement(pat, rep) && 1 <= k < |pat|
    ensures pat[k..] <= ReplaceAll(t, pat, rep) ==> pat[k..] <= t
    decreases |t|
  {
    var out := ReplaceAll(t, pat, rep);
    if t == [] {
    } else if pat <= t {
      assert StartClashes(pat, rep, k);
      var j: nat :| j < |rep| && MismatchAt(pat, rep, k, j);
      assert out == rep + ReplaceAll(t[|pat|..], pat, rep);
      assert out[j] == rep[j] && pat[k..][j] == pat[k + j];
    } else {
      var rest := ReplaceAll(t[1..], pat, rep);
      assert out == [t[0]] + rest;
      PrefixCons(pat[k..], out);
      PrefixCons(pat[k..], t);
      if k + 1 < |pat| {
        ReplaceKeepsPatternTail(t[1..], pat, rep, k + 1);
        assert pat[k..][1..] == pat[k + 1..];
      } else {
        assert pat[k..][1..] == [];
      }
    }
  }

  /**
   * Replacing every occurrence leaves none behind when the replacement
   * neither contains the start of a pattern copy nor completes one begun
   * before it.
   */
  lemma {:induction false} ReplaceAllRemovesPattern(s: string, pat: string, rep: string)
    requires pat != [] && NoPatternFromReplacement(pat, rep) && NoPatternIntoReplacement(pat, rep)
    ensures !Occurs(ReplaceAll(s, pat, rep), pat)
    decreases |s|
  {
    var out := ReplaceAll(s, pat, rep);
    if s == [] {
    } else if pat <= s {
      var rest := ReplaceAll(s[|pat|..], pat, rep);
      ReplaceAllRemovesPattern(s[|pat|..], pat, rep);
      assert out == rep + rest;
      forall i: nat | i <= |out| ensures !OccursAt(out, pat, i) {
        if i >= |rep| {
          assert !OccursAt(rest, pat, i - |rep|);
          if i + |pat| <= |out| {
            assert out[i..i + |pat|] == rest[i - |rep|..i - |rep| + |pat|];
          }
        } else {
          assert StartClashes(rep, pat, i);
          var j: nat :| j < |pat| && MismatchAt(rep, pat, i, j);
          assert out[i + j] == rep[i + j];
          if i + |pat| <= |out| {
            assert out[i..i + |pat|][j] == out[i + j];
          }
        }
      }
    } else {
      var rest := ReplaceAll(s[1..], pat, rep);
      ReplaceAllRemovesPattern(s[1..], pat, rep);
      assert out == [s[0]] + rest;
      forall i: nat | i <= |out| ensures !OccursAt(out, pat, i) {
        if i >= 1 {
          assert !OccursAt(rest, pat, i - 1);
          if i + |pat| <= |out| {
            assert out[i..i + |pat|] == rest[i - 1..i - 1 + |pat|];
          }
        } else {
          PrefixCons(pat, out);
          PrefixCons(pat, s);
          assert out[1..] == rest;
          if |pat| == 1 {
            assert pat[1..] == [];
          } else {
            ReplaceKeepsPatternTail(s[1..], pat, rep, 1);
          }
        }
      }
    }
  }
}
