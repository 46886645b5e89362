/**
 * The rewrite engine: for each table literal V, every call
 * `BorderRadius.circular(V)` or `BorderRadius.circular(V.0)` in the text is
 * replaced by the table's replacement, rule after rule, each rule working
 * on the previous rule's output.
 *
 * The pattern of one rule is the regular expression
 * `BorderRadius\.circular\(V(?:\.0)?\)`. It matches exactly two literal
 * needles, so searching and substituting are modelled over those two
 * needles: `re.search` succeeds unless `NoMatch` holds, and `Substitute` is
 * `re.sub`, which scans from the left, replaces each match and carries on
 * after it.
 */
module Rewrite {
  import opened Text
  import opened Registry

  /** The call with the bare literal: `BorderRadius.circular(V)`. */
  function IntNeedle(v: string): string {
    Wrapper + v + ")"
  }

  /** The call with the literal and a `.0` fraction: `BorderRadius.circular(V.0)`. */
  function FracNeedle(v: string): string {
    Wrapper + v + ".0)"
  }

  /** The pattern of the rule for v matches at the start of t. */
  predicate Matches(t: string, v: string) {
    StartsWith(t, IntNeedle(v)) || StartsWith(t, FracNeedle(v))
  }

  /** A match at the start of t, stated with the sequence-prefix relation. */
  lemma MatchesPrefix(t: string, v: string)
    ensures Matches(t, v) <==> IntNeedle(v) <= t || FracNeedle(v) <= t
  {
    StartsWithIsPrefix(t, IntNeedle(v));
    StartsWithIsPrefix(t, FracNeedle(v));
  }

  /**
   * Length of the match at the start of t, 0 when there is none. The
   * optional `.0` is greedy, so the longer needle is tried first.
   */
  function MatchLen(t: string, v: string): (n: nat)
    ensures n > 0 <==> Matches(t, v)
    ensures n <= |t|
  {
    MatchesPrefix(t, v);
    if FracNeedle(v) <= t then |FracNeedle(v)|
    else if IntNeedle(v) <= t then |IntNeedle(v)|
    else 0
  }

  /**
   * The pattern of the rule for v matches nowhere in s: `re.search` finds
   * nothing.
   */
  predicate NoMatch(s: string, v: string) {
    forall i {:trigger Matches(s[i..], v)} :: 0 <= i <= |s| ==> !Matches(s[i..], v)
  }

  /**
   * `re.sub`: the text is scanned from the left; where the pattern matches,
   * the match is replaced by rep and scanning resumes after it, otherwise
   * one character is kept.
   */
  function Substitute(s: string, v: string, rep: string): string
    decreases |s|
  {
    if s == [] then []
    else if Matches(s, v) then rep + Substitute(s[MatchLen(s, v)..], v, rep)
    else [s[0]] + Substitute(s[1..], v, rep)
  }

  /** Text the rule's pattern does not match comes back from `re.sub` unchanged. */
  lemma {:induction false} SubstituteNoMatch(s: string, v: string, rep: string)
    requires NoMatch(s, v)
    ensures Substitute(s, v, rep) == s
    decreases |s|
  {
    if s != [] {
      assert s[0..] == s;
      NoMatchSuffix(s, 1, v);
      SubstituteNoMatch(s[1..], v, rep);
    }
  }

  /** A single call with a table literal, bare or with `.0`, becomes the replacement. */
  lemma SubstituteCall(v: string, rep: string, needle: string)
    requires needle == IntNeedle(v) || needle == FracNeedle(v)
    ensures Substitute(needle, v, rep) == rep
  {
    assert needle[MatchLen(needle, v)..] == [];
  }

  /** Dropping a prefix keeps a text free of matches. */
  lemma NoMatchSuffix(s: string, k: nat, u: string)
    requires k <= |s| && NoMatch(s, u)
    ensures NoMatch(s[k..], u)
  {
    forall i | 0 <= i <= |s[k..]| ensures !Matches(s[k..][i..], u) {
      assert s[k..][i..] == s[k + i..];
    }
  }

  /**
   * The characters of both needles of a numeral u: a `B` first, then no `A`
   * or `B`, a digit right after the wrapper, and a `)` as the last character
   * and nowhere else.
   */
  lemma NeedleChars(u: string, needle: string)
    requires IsNumeral(u)
    requires needle == IntNeedle(u) || needle == FracNeedle(u)
    ensures |needle| > |Wrapper| && needle[0] == 'B' && IsDigit(needle[|Wrapper|])
    ensures forall k :: 0 < k < |needle| ==> needle[k] != 'A' && needle[k] != 'B'
    ensures needle[|needle| - 1] == ')' && forall k :: 0 <= k < |needle| - 1 ==> needle[k] != ')'
  {
    WrapperChars();
    forall k | 0 <= k < |needle| - 1 ensures needle[k] != ')' && (k > 0 ==> needle[k] != 'A' && needle[k] != 'B') {
      if k < |Wrapper| {
        assert needle[k] == Wrapper[k];
      } else if k < |Wrapper| + |u| {
        assert needle[k] == u[k - |Wrapper|];
      }
    }
  }

  /** No match starts inside a replacement, whatever text follows it. */
  lemma ReplacementWindow(rep: string, j: nat, tail: string, u: string)
    requires SafeReplacement(rep) && IsNumeral(u) && j < |rep|
    ensures !Matches(rep[j..] + tail, u)
  {
    NeedleChars(u, IntNeedle(u));
    NeedleChars(u, FracNeedle(u));
    MatchesPrefix(rep[j..] + tail, u);
    assert (rep[j..] + tail)[0] == rep[j];
    if j == 0 && rep[0] == 'B' {
      assert (rep[j..] + tail)[|Wrapper|] == rep[|Wrapper|];
    }
  }

  /** The first character of the output of `re.sub` on a non-empty text. */
  lemma SubstituteFirst(t: string, v: string, rep: string)
    requires t != [] && |rep| > 0
    ensures Substitute(t, v, rep) != []
    ensures Substitute(t, v, rep)[0] == if Matches(t, v) then rep[0] else t[0]
  {
  }

  /**
   * A text of characters other than `A` and `B` that starts the output of
   * `re.sub` already starts its input: the output only departs from the input
   * where a replacement begins, with an `A` or a `B`.
   */
  lemma {:induction false} OutputPrefix(t: string, v: string, rep: string, w: string)
    requires SafeReplacement(rep)
    requires forall k :: 0 <= k < |w| ==> w[k] != 'A' && w[k] != 'B'
    requires w <= Substitute(t, v, rep)
    ensures w <= t
    decreases |t|
  {
    if w != [] && t != [] {
      SubstituteFirst(t, v, rep);
      if !Matches(t, v) {
        assert w[1..] <= Substitute(t[1..], v, rep);
        OutputPrefix(t[1..], v, rep, w[1..]);
      }
    }
  }

  /**
   * A text without `A` or `B` after its first character that starts
   * `[c] + Substitute(t)` also starts `[c] + t`.
   */
  lemma HeadPrefix(c: char, t: string, v: string, rep: string, needle: string)
    requires SafeReplacement(rep) && needle != []
    requires forall k :: 0 < k < |needle| ==> needle[k] != 'A' && needle[k] != 'B'
    ensures needle <= [c] + Substitute(t, v, rep) ==> needle <= [c] + t
  {
    if needle <= [c] + Substitute(t, v, rep) {
      var w := needle[1..];
      assert w <= Substitute(t, v, rep);
      forall k | 0 <= k < |w| ensures w[k] != 'A' && w[k] != 'B' {
        assert w[k] == needle[k + 1];
      }
      OutputPrefix(t, v, rep, w);
      assert needle == [c] + w;
      assert ([c] + t)[..|needle|] == [c] + t[..|w|];
    }
  }

  /** Prepending a character and running `re.sub` on the rest creates no match of one needle. */
  lemma HeadNeedle(c: char, t: string, v: string, rep: string, u: string, needle: string)
    requires SafeReplacement(rep) && IsNumeral(u)
    requires needle == IntNeedle(u) || needle == FracNeedle(u)
    requires !(needle <= [c] + t)
    ensures !(needle <= [c] + Substitute(t, v, rep))
  {
    NeedleChars(u, needle);
    HeadPrefix(c, t, v, rep, needle);
  }

  /**
   * No match starts at the first character of `[c] + Substitute(t)` unless one
   * starts at the first character of `[c] + t`.
   */
  lemma HeadWindow(c: char, t: string, v: string, rep: string, u: string)
    requires SafeReplacement(rep) && IsNumeral(u)
    requires !Matches([c] + t, u)
    ensures !Matches([c] + Substitute(t, v, rep), u)
  {
    MatchesPrefix([c] + Substitute(t, v, rep), u);
    MatchesPrefix([c] + t, u);
    HeadNeedle(c, t, v, rep, u, IntNeedle(u));
    HeadNeedle(c, t, v, rep, u, FracNeedle(u));
  }

  /**
   * A replacement followed by a match-free tail is free of matches: no match
   * starts inside the replacement, and none inside the tail.
   */
  lemma AfterReplacement(rep: string, tail: string, u: string)
    requires SafeReplacement(rep) && IsNumeral(u) && NoMatch(tail, u)
    ensures NoMatch(rep + tail, u)
  {
    var o := rep + tail;
    forall i | 0 <= i <= |o| ensures !Matches(o[i..], u) {
      if i >= |rep| {
        assert o[i..] == tail[i - |rep|..];
      } else {
        assert o[i..] == rep[i..] + tail;
        ReplacementWindow(rep, i, tail, u);
      }
    }
  }

  /**
   * The central fact of the engine: after `re.sub` with rule v, the text
   * holds no match of v, and no match of any other numeral u that the input
   * did not already hold. Replacements never produce a match, neither on
   * their own nor together with the text around them.
   */
  lemma {:induction false} SubstituteClears(s: string, v: string, rep: string, u: string)
    requires IsNumeral(v) && IsNumeral(u) && SafeReplacement(rep)
    requires u == v || NoMatch(s, u)
    ensures NoMatch(Substitute(s, v, rep), u)
    decreases |s|
  {
    if s == [] {
      MatchesPrefix([], u);
    } else if Matches(s, v) {
      var n := MatchLen(s, v);
      if u != v {
        NoMatchSuffix(s, n, u);
      }
      SubstituteClears(s[n..], v, rep, u);
      AfterReplacement(rep, Substitute(s[n..], v, rep), u);
    } else {
      if u != v {
        NoMatchSuffix(s, 1, u);
        assert s[0..] == s;
      }
      SubstituteClears(s[1..], v, rep, u);
      var tail := Substitute(s[1..], v, rep);
      var o := [s[0]] + tail;
      forall i | 0 <= i <= |o| ensures !Matches(o[i..], u) {
        if i == 0 {
          assert [s[0]] + s[1..] == s;
          HeadWindow(s[0], s[1..], v, rep, u);
        } else {
          assert o[i..] == tail[i - 1..];
        }
      }
    }
  }

  /**
   * A character after which no match can still be under way: the closing
   * parenthesis that ends every needle, or a character neither needle uses.
   */
  predicate Separator(c: char, v: string) {
    c == ')' || (c !in IntNeedle(v) && c !in FracNeedle(v))
  }

  /** A text that is empty or ends with a separator. */
  predicate Boundary(a: string, v: string) {
    a == [] || Separator(a[|a| - 1], v)
  }

  /**
   * A character before which no match can be under way: the `B` that starts
   * every needle and occurs nowhere else in one, or a character of neither
   * needle.
   */
  predicate Opener(c: char, v: string) {
    c == 'B' || (c !in IntNeedle(v) && c !in FracNeedle(v))
  }

  /** A split of a text into a and b that no match of the rule for v can cross. */
  predicate Cut(a: string, b: string, v: string) {
    Boundary(a, v) || (b != [] && Opener(b[0], v))
  }

  /** A needle found at the start of a + b lies inside a when no match crosses the split. */
  lemma NeedleInside(a: string, b: string, v: string, needle: string)
    requires IsNumeral(v) && a != [] && Cut(a, b, v)
    requires needle == IntNeedle(v) || needle == FracNeedle(v)
    ensures needle <= a + b <==> needle <= a
  {
    NeedleChars(v, needle);
    if |needle| > |a| {
      if Boundary(a, v) {
        var c := a[|a| - 1];
        assert (a + b)[|a| - 1] == c;
        assert needle[|a| - 1] in needle;
        assert needle[|a| - 1] != ')';
      } else {
        assert (a + b)[|a|] == b[0];
        assert needle[|a|] in needle;
        assert needle[|a|] != 'B';
      }
    } else {
      assert (a + b)[..|needle|] == a[..|needle|];
    }
  }

  /** Across a cut the text after it cannot change whether, or how long, a match at the start is. */
  lemma MatchInside(a: string, b: string, v: string)
    requires IsNumeral(v) && a != [] && Cut(a, b, v)
    ensures Matches(a + b, v) == Matches(a, v)
    ensures MatchLen(a + b, v) == MatchLen(a, v)
  {
    MatchesPrefix(a + b, v);
    MatchesPrefix(a, v);
    NeedleInside(a, b, v, IntNeedle(v));
    NeedleInside(a, b, v, FracNeedle(v));
  }

  /** `re.sub` works on the two sides of a cut separately. */
  lemma {:induction false} SubstituteAppend(a: string, b: string, v: string, rep: string)
    requires IsNumeral(v) && Cut(a, b, v)
    ensures Substitute(a + b, v, rep) == Substitute(a, v, rep) + Substitute(b, v, rep)
    decreases |a|
  {
    if a == [] {
      assert a + b == b;
    } else {
      MatchInside(a, b, v);
      if Matches(a, v) {
        var n := MatchLen(a, v);
        assert (a + b)[n..] == a[n..] + b;
        assert Cut(a[n..], b, v) by {
          if a[n..] != [] {
            assert a[n..][|a[n..]| - 1] == a[|a| - 1];
          }
        }
        SubstituteAppend(a[n..], b, v, rep);
        assert Substitute(a + b, v, rep) == rep + (Substitute(a[n..], v, rep) + Substitute(b, v, rep));
        AppendAssoc(rep, Substitute(a[n..], v, rep), Substitute(b, v, rep));
      } else {
        assert (a + b)[1..] == a[1..] + b;
        assert Cut(a[1..], b, v) by {
          if a[1..] != [] {
            assert a[1..][|a[1..]| - 1] == a[|a| - 1];
          }
        }
        SubstituteAppend(a[1..], b, v, rep);
        assert Substitute(a + b, v, rep) == [a[0]] + (Substitute(a[1..], v, rep) + Substitute(b, v, rep));
        AppendAssoc([a[0]], Substitute(a[1..], v, rep), Substitute(b, v, rep));
      }
    }
  }

  /**
   * Every occurrence is rewritten: a call with the literal v, bare or with
   * `.0`, becomes the replacement wherever it stands, and the text on either
   * side is rewritten on its own.
   */
  lemma SubstituteOccurrence(a: string, needle: string, b: string, v: string, rep: string)
    requires IsNumeral(v)
    requires needle == IntNeedle(v) || needle == FracNeedle(v)
    ensures Substitute(a + needle + b, v, rep) == Substitute(a, v, rep) + rep + Substitute(b, v, rep)
  {
    NeedleChars(v, needle);
    assert a + needle + b == a + (needle + b);
    assert (needle + b)[0] == 'B';
    SubstituteAppend(a, needle + b, v, rep);
    SubstituteAppend(needle, b, v, rep);
    SubstituteCall(v, rep, needle);
  }

  /** A call with another rule's literal passes through `re.sub` as it is, wherever it stands. */
  lemma SubstituteThrough(a: string, needle: string, b: string, u: string, v: string, rep: string)
    requires IsNumeral(u) && IsNumeral(v) && u != v
    requires needle == IntNeedle(u) || needle == FracNeedle(u)
    ensures Substitute(a + needle + b, v, rep) == Substitute(a, v, rep) + needle + Substitute(b, v, rep)
  {
    NeedleChars(u, needle);
    assert a + needle + b == a + (needle + b);
    assert (needle + b)[0] == 'B';
    SubstituteAppend(a, needle + b, v, rep);
    SubstituteAppend(needle, b, v, rep);
    OtherNeedle(u, v, needle);
    SubstituteNoMatch(needle, v, rep);
  }

  /** A safe replacement at the front is kept by `re.sub`, which goes on after it. */
  lemma {:induction false} SubstituteSafeFrom(rep: string, j: nat, y: string, u: string, r: string)
    requires SafeReplacement(rep) && IsNumeral(u) && j <= |rep|
    ensures Substitute(rep[j..] + y, u, r) == rep[j..] + Substitute(y, u, r)
    decreases |rep| - j
  {
    if j < |rep| {
      var t := rep[j..] + y;
      ReplacementWindow(rep, j, y, u);
      assert t[0] == rep[j];
      assert t[1..] == rep[j + 1..] + y;
      SubstituteSafeFrom(rep, j + 1, y, u, r);
      assert rep[j..] == [rep[j]] + rep[j + 1..];
      AppendAssoc([rep[j]], rep[j + 1..], Substitute(y, u, r));
    } else {
      assert rep[j..] + y == y;
    }
  }

  /** The replacement of an earlier rule passes through `re.sub` as it is, wherever it stands. */
  lemma SubstituteAround(a: string, rep: string, b: string, u: string, r: string)
    requires SafeReplacement(rep) && IsNumeral(u)
    ensures Substitute(a + rep + b, u, r) == Substitute(a, u, r) + rep + Substitute(b, u, r)
  {
    assert Opener(rep[0], u) by {
      NeedleChars(u, IntNeedle(u));
      NeedleChars(u, FracNeedle(u));
    }
    assert a + rep + b == a + (rep + b);
    assert (rep + b)[0] == rep[0];
    SubstituteAppend(a, rep + b, u, r);
    SubstituteSafeFrom(rep, 0, b, u, r);
    assert rep[0..] == rep;
    AppendAssoc(Substitute(a, u, r), rep, Substitute(b, u, r));
  }

  /** A common prefix does not change the prefix relation. */
  lemma PrefixCancel(w: string, x: string, y: string)
    ensures w + x <= w + y <==> x <= y
  {
    if w + x <= w + y {
      assert x == (w + x)[|w|..] == (w + y)[|w|..|w| + |x|] == y[..|x|];
    }
    if x <= y {
      assert w + x == (w + y)[..|w| + |x|];
    }
  }

  /** Two texts free of `)`, each closed by a `)`: one is a prefix of the other only when they are equal. */
  lemma ClosedPrefix(x: string, y: string)
    requires ')' !in x && ')' !in y
    ensures x + ")" <= y + ")" <==> x == y
  {
    if |x| < |y| {
      assert (y + ")")[|x|] == y[|x|];
      assert (x + ")")[|x|] == ')';
    } else if |x| == |y| {
      assert (x + ")")[..|x|] == x;
      assert (y + ")")[..|x|] == y;
    }
  }

  /**
   * Exact-token matching: the rule for u matches the call
   * `BorderRadius.circular(arg)` exactly when arg is u or u followed by `.0`;
   * it never fires inside a longer numeral or on another fraction.
   */
  lemma ExactToken(arg: string, u: string)
    requires IsNumeral(u)
    requires forall j :: 0 <= j < |arg| ==> arg[j] != 'B' && arg[j] != ')'
    ensures NoMatch(Wrapper + arg + ")", u) <==> arg != u && arg != u + ".0"
  {
    var t := Wrapper + arg + ")";
    ExactTokenStart(arg, u);
    ExactTokenLater(arg, u);
    assert t[0..] == t;
  }

  /** At the start of the call, the rule for u matches exactly when arg is u or u followed by `.0`. */
  lemma ExactTokenStart(arg: string, u: string)
    requires IsNumeral(u)
    requires forall j :: 0 <= j < |arg| ==> arg[j] != ')'
    ensures Matches(Wrapper + arg + ")", u) <==> arg == u || arg == u + ".0"
  {
    var t := Wrapper + arg + ")";
    NeedleChars(u, IntNeedle(u));
    assert ')' !in u + ".0" by {
      assert forall j :: 0 <= j < |u + ".0"| ==> (u + ".0")[j] != ')';
    }
    assert t == Wrapper + (arg + ")");
    assert IntNeedle(u) == Wrapper + (u + ")");
    assert FracNeedle(u) == Wrapper + ((u + ".0") + ")");
    PrefixCancel(Wrapper, u + ")", arg + ")");
    PrefixCancel(Wrapper, (u + ".0") + ")", arg + ")");
    ClosedPrefix(u, arg);
    ClosedPrefix(u + ".0", arg);
    MatchesPrefix(t, u);
  }

  /** Past its first character the call holds no `B`, so no match starts there. */
  lemma ExactTokenLater(arg: string, u: string)
    requires IsNumeral(u)
    requires forall j :: 0 <= j < |arg| ==> arg[j] != 'B'
    ensures var t := Wrapper + arg + ")"; forall i :: 0 < i <= |t| ==> !Matches(t[i..], u)
  {
    var t := Wrapper + arg + ")";
    NeedleChars(u, IntNeedle(u));
    NeedleChars(u, FracNeedle(u));
    WrapperChars();
    forall i | 0 < i <= |t| ensures !Matches(t[i..], u) {
      MatchesPrefix(t[i..], u);
      if i < |t| {
        assert t[i..][0] == t[i];
        if i < |Wrapper| {
          assert t[i] == Wrapper[i];
        } else if i < |Wrapper| + |arg| {
          assert t[i] == arg[i - |Wrapper|];
        }
      }
    }
  }

  /** The needles of one numeral hold no match of a different numeral. */
  lemma OtherNeedle(v: string, u: string, needle: string)
    requires IsNumeral(v) && IsNumeral(u) && u != v
    requires needle == IntNeedle(v) || needle == FracNeedle(v)
    ensures NoMatch(needle, u)
  {
    if needle == IntNeedle(v) {
      if |v| == |u| + 2 {
        assert (u + ".0")[|u|] == '.';
        assert IsDigit(v[|u|]);
      }
      ExactToken(v, u);
    } else {
      var arg := v + ".0";
      assert needle == Wrapper + arg + ")";
      if |u| == |v| + 2 {
        assert arg[|v|] == '.';
        assert IsDigit(u[|v|]);
      }
      if |u| == |v| {
        assert arg[..|v|] == v;
        assert (u + ".0")[..|u|] == u;
      }
      assert forall j :: 0 <= j < |arg| ==> arg[j] != 'B' && arg[j] != ')';
      ExactToken(arg, u);
    }
  }

  /** A text without the letter `B` holds no match: every needle starts with it. */
  lemma NoMatchWithoutB(s: string, u: string)
    requires IsNumeral(u) && 'B' !in s
    ensures NoMatch(s, u)
  {
    NeedleChars(u, IntNeedle(u));
    NeedleChars(u, FracNeedle(u));
    forall i | 0 <= i <= |s| ensures !Matches(s[i..], u) {
      MatchesPrefix(s[i..], u);
      if i < |s| {
        assert s[i..][0] == s[i];
      }
    }
  }

  /** A prefix of a text free of matches is free of matches. */
  lemma NoMatchPrefix(a: string, b: string, u: string)
    requires NoMatch(a + b, u)
    ensures NoMatch(a, u)
  {
    forall i | 0 <= i <= |a| ensures !Matches(a[i..], u) {
      assert (a + b)[i..] == a[i..] + b;
      MatchesPrefix(a[i..], u);
      MatchesPrefix(a[i..] + b, u);
    }
  }

  /** A needle cannot run from a into b when b starts with a character the needle lacks. */
  lemma NeedleBefore(a: string, b: string, needle: string)
    requires b != [] && b[0] !in needle
    ensures needle <= a + b <==> needle <= a
  {
    if |needle| > |a| {
      assert (a + b)[|a|] == b[0];
      assert needle[|a|] in needle;
    } else {
      assert (a + b)[..|needle|] == a[..|needle|];
    }
  }

  /**
   * Two texts free of matches stay free of matches when joined, provided no
   * match can run across the joint.
   */
  lemma NoMatchJoin(a: string, b: string, u: string)
    requires IsNumeral(u) && NoMatch(a, u) && NoMatch(b, u) && Cut(a, b, u)
    ensures NoMatch(a + b, u)
  {
    forall i | 0 <= i <= |a + b| ensures !Matches((a + b)[i..], u) {
      if i >= |a| {
        assert (a + b)[i..] == b[i - |a|..];
      } else {
        assert (a + b)[i..] == a[i..] + b;
        assert Cut(a[i..], b, u) by {
          assert a[i..][|a[i..]| - 1] == a[|a| - 1];
        }
        MatchInside(a[i..], b, u);
      }
    }
  }

  /**
   * A call whose argument is no `B`-free, `)`-free spelling of v passes
   * through `re.sub` as it is, wherever it stands.
   */
  lemma SubstitutePast(a: string, arg: string, b: string, v: string, rep: string)
    requires IsNumeral(v) && arg != v && arg != v + ".0"
    requires forall j :: 0 <= j < |arg| ==> arg[j] != 'B' && arg[j] != ')'
    ensures Substitute(a + (Wrapper + arg + ")") + b, v, rep) ==
      Substitute(a, v, rep) + (Wrapper + arg + ")") + Substitute(b, v, rep)
  {
    var call := Wrapper + arg + ")";
    WrapperChars();
    assert a + call + b == a + (call + b);
    assert (call + b)[0] == 'B';
    SubstituteAppend(a, call + b, v, rep);
    assert call[|call| - 1] == ')';
    SubstituteAppend(call, b, v, rep);
    ExactToken(arg, v);
    SubstituteNoMatch(call, v, rep);
  }

  /** Such a call adds no match: the rule matches around it exactly when it matches one of the sides. */
  lemma NoMatchPast(a: string, arg: string, b: string, v: string)
    requires IsNumeral(v) && arg != v && arg != v + ".0"
    requires forall j :: 0 <= j < |arg| ==> arg[j] != 'B' && arg[j] != ')'
    ensures NoMatch(a + (Wrapper + arg + ")") + b, v) <==> NoMatch(a, v) && NoMatch(b, v)
  {
    var call := Wrapper + arg + ")";
    var whole := a + call + b;
    assert whole == a + (call + b) == (a + call) + b;
    if NoMatch(whole, v) {
      NoMatchPrefix(a, call + b, v);
      assert whole[|a + call|..] == b;
      NoMatchSuffix(whole, |a + call|, v);
    }
    if NoMatch(a, v) && NoMatch(b, v) {
      WrapperChars();
      ExactToken(arg, v);
      assert call[|call| - 1] == ')';
      NoMatchJoin(call, b, v);
      assert (call + b)[0] == 'B';
      NoMatchJoin(a, call + b, v);
    }
  }
}
