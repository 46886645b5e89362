/**
 * Text primitives the rewriter relies on: substring search (Python's `in`
 * on strings), suffix tests, `str.strip`, `str.split('\n')` and
 * `'\n'.join`, a character-for-character replacement (`str.replace` with a
 * one-character pattern) and `list.insert`.
 */
module Text {

  /** `needle in s` on Python strings: needle starts at some position of s. */
  predicate Contains(s: string, needle: string)
    decreases |s|
  {
    needle <= s || (s != [] && Contains(s[1..], needle))
  }

  /** `in` is occurrence at some index. */
  lemma {:induction false} ContainsAt(s: string, needle: string)
    ensures Contains(s, needle) <==> exists i :: 0 <= i <= |s| && needle <= s[i..]
    decreases |s|
  {
    assert s[0..] == s;
    if s != [] {
      ContainsAt(s[1..], needle);
      if exists i :: 0 <= i <= |s| - 1 && needle <= s[1..][i..] {
        var i :| 0 <= i <= |s| - 1 && needle <= s[1..][i..];
        assert s[1..][i..] == s[i + 1..];
      }
      if exists i :: 0 <= i <= |s| && needle <= s[i..] {
        var i :| 0 <= i <= |s| && needle <= s[i..];
        if i > 0 {
          assert s[i..] == s[1..][i - 1..];
        }
      }
    }
  }

  /** A needle that starts at index i of s is in s. */
  lemma ContainsWitness(s: string, needle: string, i: nat)
    requires i <= |s| && needle <= s[i..]
    ensures Contains(s, needle)
  {
    ContainsAt(s, needle);
  }

  /**
   * `s.startswith(prefix)`, one character at a time. Both the rule
   * patterns and the import scan use it; `StartsWithIsPrefix` ties it to
   * Dafny's prefix relation `<=`.
   */
  predicate StartsWith(s: string, prefix: string) {
    prefix == [] || (s != [] && s[0] == prefix[0] && StartsWith(s[1..], prefix[1..]))
  }

  /** `startswith` is the sequence-prefix relation. */
  lemma {:induction false} StartsWithIsPrefix(s: string, prefix: string)
    ensures StartsWith(s, prefix) <==> prefix <= s
  {
    if prefix != [] && s != [] {
      StartsWithIsPrefix(s[1..], prefix[1..]);
      assert prefix <= s <==> s[0] == prefix[0] && prefix[1..] <= s[1..];
    }
  }

  /** `s.endswith(suffix)`. */
  predicate EndsWith(s: string, suffix: string) {
    |suffix| <= |s| && s[|s| - |suffix|..] == suffix
  }

  /** Occurrence is transitive: a needle found in a part is found in the whole. */
  lemma ContainsTransitive(a: string, b: string, c: string)
    requires Contains(a, b) && Contains(b, c)
    ensures Contains(a, c)
  {
    ContainsAt(a, b);
    ContainsAt(b, c);
    var i :| 0 <= i <= |a| && b <= a[i..];
    var j :| 0 <= j <= |b| && c <= b[j..];
    assert c <= a[i + j..] by {
      assert forall k :: 0 <= k < |c| ==> c[k] == b[j + k] == a[i + j + k];
    }
    ContainsWitness(a, c, i + j);
  }

  /** The middle of a concatenation occurs in the concatenation. */
  lemma ContainsMiddle(a: string, b: string, c: string)
    ensures Contains(a + b + c, b)
  {
    assert b <= (a + b + c)[|a|..];
    ContainsWitness(a + b + c, b, |a|);
  }

  /** A suffix of the middle of a concatenation occurs in the concatenation. */
  lemma ContainsSuffix(a: string, s: string, b: string, suffix: string)
    requires EndsWith(s, suffix)
    ensures Contains(a + s + b, suffix)
  {
    var k := |s| - |suffix|;
    assert a + s + b == (a + s[..k]) + suffix + b;
    ContainsMiddle(a + s[..k], suffix, b);
  }

  /** The whitespace characters `str.strip()` removes, restricted to ASCII. */
  predicate IsSpace(c: char) {
    c == ' ' || c == '\t' || c == '\n' || c == '\r' || c == '\U{0B}' || c == '\U{0C}'
    || c == '\U{1C}' || c == '\U{1D}' || c == '\U{1E}' || c == '\U{1F}'
  }

  /** `s.lstrip()`: leading whitespace dropped. */
  function LStrip(s: string): string {
    if s != [] && IsSpace(s[0]) then LStrip(s[1..]) else s
  }

  /** `s.rstrip()`: trailing whitespace dropped. */
  function RStrip(s: string): string {
    if s != [] && IsSpace(s[|s| - 1]) then RStrip(s[..|s| - 1]) else s
  }

  /** `s.strip()`. */
  function Strip(s: string): string {
    RStrip(LStrip(s))
  }

  /** `lstrip` keeps a suffix that starts with a non-space and drops only whitespace. */
  lemma {:induction false} LStripShape(s: string)
    ensures var r := LStrip(s);
      && |r| <= |s| && r == s[|s| - |r|..]
      && (r == [] || !IsSpace(r[0]))
      && forall j :: 0 <= j < |s| - |r| ==> IsSpace(s[j])
  {
    if s != [] && IsSpace(s[0]) {
      var t := s[1..];
      LStripShape(t);
      var r := LStrip(t);
      assert s[|s| - |r|..] == t[|t| - |r|..];
      forall j | 0 <= j < |s| - |r| ensures IsSpace(s[j]) {
        if j > 0 {
          assert s[j] == t[j - 1];
        }
      }
    }
  }

  /** `rstrip` keeps a prefix that ends with a non-space and drops only whitespace. */
  lemma {:induction false} RStripShape(s: string)
    ensures var r := RStrip(s);
      && |r| <= |s| && r == s[..|r|]
      && (r == [] || !IsSpace(r[|r| - 1]))
      && forall j :: |r| <= j < |s| ==> IsSpace(s[j])
  {
    if s != [] && IsSpace(s[|s| - 1]) {
      var t := s[..|s| - 1];
      RStripShape(t);
      var r := RStrip(t);
      assert s[..|r|] == t[..|r|];
      forall j | |r| <= j < |s| ensures IsSpace(s[j]) {
        if j < |t| {
          assert s[j] == t[j];
        }
      }
    }
  }

  /** Text that neither starts nor ends with whitespace is its own stripped form. */
  lemma StripUnpadded(s: string)
    requires s != [] && !IsSpace(s[0]) && !IsSpace(s[|s| - 1])
    ensures Strip(s) == s
  {
  }

  /** `'\n'.join(lines)`. */
  function JoinLines(lines: seq<string>): string {
    if |lines| == 0 then ""
    else if |lines| == 1 then lines[0]
    else lines[0] + "\n" + JoinLines(lines[1..])
  }

  /**
   * `s.split('\n')`: at least one piece, no piece holds a newline, and
   * joining the pieces with newlines gives s back.
   */
  function SplitLines(s: string): (r: seq<string>)
    ensures |r| >= 1
    ensures forall j :: 0 <= j < |r| ==> '\n' !in r[j]
    ensures JoinLines(r) == s
  {
    if s == [] then [""]
    else
      var rest := SplitLines(s[1..]);
      if s[0] == '\n' then
        assert s == "\n" + s[1..];
        [""] + rest
      else
        var r := [[s[0]] + rest[0]] + rest[1..];
        assert r[1..] == rest[1..];
        assert s == [s[0]] + s[1..];
        r
  }

  /** Splitting a line followed by a newline peels off exactly that line. */
  lemma {:induction false} SplitLinesCons(a: string, b: string)
    requires '\n' !in a
    ensures SplitLines(a + "\n" + b) == [a] + SplitLines(b)
  {
    if a == [] {
      assert (a + "\n" + b)[1..] == b;
    } else {
      assert (a + "\n" + b)[1..] == a[1..] + "\n" + b;
      SplitLinesCons(a[1..], b);
      assert [a[0]] + a[1..] == a;
    }
  }

  /** A text without newlines splits into itself alone. */
  lemma {:induction false} SplitLinesSingle(a: string)
    requires '\n' !in a
    ensures SplitLines(a) == [a]
  {
    if a != [] {
      SplitLinesSingle(a[1..]);
      assert [a[0]] + a[1..] == a;
    }
  }

  /** `split('\n')` undoes `'\n'.join` on newline-free lines. */
  lemma {:induction false} SplitJoinLines(lines: seq<string>)
    requires |lines| >= 1
    requires forall j :: 0 <= j < |lines| ==> '\n' !in lines[j]
    ensures SplitLines(JoinLines(lines)) == lines
  {
    if |lines| == 1 {
      SplitLinesSingle(lines[0]);
    } else {
      SplitJoinLines(lines[1..]);
      SplitLinesCons(lines[0], JoinLines(lines[1..]));
    }
  }

  /** Concatenation is associative. */
  lemma AppendAssoc(a: string, b: string, c: string)
    ensures a + (b + c) == (a + b) + c
  {
  }

  /** Joining two non-empty runs of lines puts one newline between their joins. */
  lemma {:induction false} JoinLinesAppend(xs: seq<string>, ys: seq<string>)
    requires |xs| >= 1 && |ys| >= 1
    ensures JoinLines(xs + ys) == JoinLines(xs) + "\n" + JoinLines(ys)
  {
    if |xs| == 1 {
      assert (xs + ys)[1..] == ys;
    } else {
      assert (xs + ys)[1..] == xs[1..] + ys;
      JoinLinesAppend(xs[1..], ys);
    }
  }

  /** Every line occurs in the joined text. */
  lemma {:induction false} JoinLinesContains(lines: seq<string>, k: nat)
    requires k < |lines|
    ensures Contains(JoinLines(lines), lines[k])
  {
    if |lines| == 1 {
      ContainsMiddle("", lines[0], "");
      assert "" + lines[0] + "" == lines[0];
    } else if k == 0 {
      ContainsMiddle("", lines[0], "\n" + JoinLines(lines[1..]));
      assert "" + lines[0] + ("\n" + JoinLines(lines[1..])) == JoinLines(lines);
    } else {
      JoinLinesContains(lines[1..], k - 1);
      ContainsMiddle(lines[0] + "\n", JoinLines(lines[1..]), "");
      assert lines[0] + "\n" + JoinLines(lines[1..]) + "" == JoinLines(lines);
      ContainsTransitive(JoinLines(lines), JoinLines(lines[1..]), lines[k]);
    }
  }

  /** `s.replace(from, to)` for one-character from and to. */
  function ReplaceChar(s: string, from: char, to: char): (r: string)
    ensures |r| == |s|
    ensures forall j :: 0 <= j < |s| ==> r[j] == if s[j] == from then to else s[j]
  {
    if s == [] then [] else [if s[0] == from then to else s[0]] + ReplaceChar(s[1..], from, to)
  }

  /** `xs.insert(k, x)` for 0 <= k <= len(xs). */
  function Insert<T>(xs: seq<T>, k: nat, x: T): seq<T>
    requires k <= |xs|
  {
    xs[..k] + [x] + xs[k..]
  }

  /** The inserted item sits at position k, with the items before and after it in order. */
  lemma InsertShape<T>(xs: seq<T>, k: nat, x: T)
    requires k <= |xs|
    ensures var r := Insert(xs, k, x);
      |r| == |xs| + 1 && r[k] == x && r[..k] == xs[..k] && r[k + 1..] == xs[k..]
  {
    var r := Insert(xs, k, x);
    assert r[..k] == xs[..k];
    assert r[k + 1..] == xs[k..];
  }
}
