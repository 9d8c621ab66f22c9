/**
 * Header-label normalisation: the `camelCase` helper of GoogleSheetsDB.
 *
 * The source lower-cases the header and then runs the global replacement
 * `/[^a-zA-Z0-9]+(.)/g` with the captured character upper-cased. The
 * model follows the regular-expression engine literally: the separator
 * run is greedy and backtracks, and `.` (no `s` flag) does not match a
 * line terminator. Case mapping is ASCII only.
 */
module HeaderKeys {
  import opened Options

  predicate IsAlnum(c: char) {
    'a' <= c <= 'z' || 'A' <= c <= 'Z' || '0' <= c <= '9'
  }

  /** The characters the wildcard `.` refuses to match. */
  predicate IsLineTerminator(c: char) {
    c == '\n' || c == '\r' || c == '\U{2028}' || c == '\U{2029}'
  }

  predicate NoLineTerminators(s: string) {
    forall i :: 0 <= i < |s| ==> !IsLineTerminator(s[i])
  }

  predicate AllAlnum(s: string) {
    forall i :: 0 <= i < |s| ==> IsAlnum(s[i])
  }

  function LowerChar(c: char): char {
    if 'A' <= c <= 'Z' then (c as int + 32) as char else c
  }

  function UpperChar(c: char): char {
    if 'a' <= c <= 'z' then (c as int - 32) as char else c
  }

  /** `String.prototype.toLowerCase`, restricted to ASCII letters. */
  function Lower(s: string): (r: string)
    ensures |r| == |s|
    ensures forall i :: 0 <= i < |s| ==> r[i] == LowerChar(s[i])
  {
    if s == [] then [] else [LowerChar(s[0])] + Lower(s[1..])
  }

  /** Length of the run of non-alphanumeric characters that starts `s`. */
  function RunLength(s: string): (n: nat)
    ensures n <= |s|
    ensures forall i :: 0 <= i < n ==> !IsAlnum(s[i])
    ensures n < |s| ==> IsAlnum(s[n])
  {
    if s == [] || IsAlnum(s[0]) then 0 else 1 + RunLength(s[1..])
  }

  /**
   * Backtracking of the greedy run: the largest position `k` in `1..top`
   * where `.` can match, if any.
   */
  function LastMatchable(s: string, top: nat): (r: Option<nat>)
    requires top < |s|
    ensures r.Some? ==> 1 <= r.value <= top && !IsLineTerminator(s[r.value])
    ensures r.Some? ==> forall j :: r.value < j <= top ==> IsLineTerminator(s[j])
    ensures r.None? ==> forall j :: 1 <= j <= top ==> IsLineTerminator(s[j])
  {
    if top == 0 then None
    else if !IsLineTerminator(s[top]) then Some(top)
    else LastMatchable(s, top - 1)
  }

  /**
   * The global replacement of `/[^a-zA-Z0-9]+(.)/g` by the upper-cased
   * capture, scanning left to right: a match is replaced and scanning goes
   * on after it; where no match starts, the character is kept.
   */
  function ReplaceSeparators(s: string): (r: string)
    ensures |r| <= |s|
    ensures s != [] ==> r != []
    decreases |s|
  {
    if s == [] then []
    else if IsAlnum(s[0]) then [s[0]] + ReplaceSeparators(s[1..])
    else
      var n := RunLength(s);
      var top := if n < |s| then n else n - 1;
      match LastMatchable(s, top)
      case Some(k) => [UpperChar(s[k])] + ReplaceSeparators(s[k + 1..])
      case None => [s[0]] + ReplaceSeparators(s[1..])
  }

  /** `camelCase(str)`: lower-case, then replace separator runs. */
  function CamelCase(header: string): (key: string)
    ensures |key| <= |header|
    ensures header != [] ==> key != []
  {
    ReplaceSeparators(Lower(header))
  }

  /**
   * Reference definition, a one-pass fold: alphanumeric characters are
   * copied, upper-cased when a separator run precedes them; a run is
   * dropped, except that a run at the very end leaves its last character.
   * `pending` is the last character of the run being skipped.
   */
  function CamelFold(s: string, pending: Option<char>): string {
    if s == [] then (if pending.Some? then [pending.value] else [])
    else if IsAlnum(s[0]) then
      [if pending.Some? then UpperChar(s[0]) else s[0]] + CamelFold(s[1..], None)
    else CamelFold(s[1..], Some(s[0]))
  }

  lemma {:induction false} FoldSkipsRun(s: string, m: nat, p: Option<char>)
    requires 1 <= m <= RunLength(s)
    ensures CamelFold(s, p) == CamelFold(s[m..], Some(s[m - 1]))
  {
    if m > 1 {
      FoldSkipsRun(s, m - 1, p);
      assert s[m - 1..][1..] == s[m..];
    }
  }

  /** For labels without line terminators the regex replacement is the fold. */
  lemma {:induction false} ReplaceMatchesFold(s: string)
    requires NoLineTerminators(s)
    ensures ReplaceSeparators(s) == CamelFold(s, None)
    decreases |s|
  {
    if s == [] {
    } else if IsAlnum(s[0]) {
      ReplaceMatchesFold(s[1..]);
    } else {
      var n := RunLength(s);
      FoldSkipsRun(s, n, None);
      if n < |s| {
        assert LastMatchable(s, n) == Some(n);
        assert s[n..][1..] == s[n + 1..];
        ReplaceMatchesFold(s[n + 1..]);
      } else if n > 1 {
        assert LastMatchable(s, n - 1) == Some(n - 1);
      } else {
        assert LastMatchable(s, 0) == None;
      }
    }
  }

  lemma {:induction false} LowerKeepsLineTerminatorsOut(s: string)
    requires NoLineTerminators(s)
    ensures NoLineTerminators(Lower(s))
  {
  }

  /** `camelCase` is the reference fold applied to the lower-cased header. */
  lemma CamelCaseIsFold(header: string)
    requires NoLineTerminators(header)
    ensures CamelCase(header) == CamelFold(Lower(header), None)
  {
    LowerKeepsLineTerminatorsOut(header);
    ReplaceMatchesFold(Lower(header));
  }

  lemma {:induction false} FoldOfAlnum(w: string, rest: string)
    requires AllAlnum(w)
    ensures CamelFold(w + rest, None) == w + CamelFold(rest, None)
  {
    if w == [] {
      assert w + rest == rest;
    } else {
      assert (w + rest)[0] == w[0] && (w + rest)[1..] == w[1..] + rest;
      assert IsAlnum(w[0]);
      assert CamelFold(w + rest, None) == [w[0]] + CamelFold(w[1..] + rest, None);
      assert AllAlnum(w[1..]) by {
        forall i | 0 <= i < |w[1..]| ensures IsAlnum(w[1..][i]) {
          assert w[1..][i] == w[i + 1];
        }
      }
      FoldOfAlnum(w[1..], rest);
      assert w == [w[0]] + w[1..];
    }
  }

  /** A header made only of letters and digits is just lower-cased. */
  lemma CamelCaseOfWord(header: string)
    requires AllAlnum(header)
    ensures CamelCase(header) == Lower(header)
  {
    CamelCaseIsFold(header);
    FoldOfAlnum(Lower(header), []);
    assert Lower(header) + [] == Lower(header);
  }

  lemma {:induction false} LowerDistributes(a: string, b: string)
    ensures Lower(a + b) == Lower(a) + Lower(b)
  {
    assert |Lower(a + b)| == |Lower(a) + Lower(b)|;
    forall i | 0 <= i < |a + b|
      ensures Lower(a + b)[i] == (Lower(a) + Lower(b))[i]
    {
      if i < |a| {
        assert (a + b)[i] == a[i];
        assert (Lower(a) + Lower(b))[i] == Lower(a)[i];
      } else {
        assert (a + b)[i] == b[i - |a|];
        assert (Lower(a) + Lower(b))[i] == Lower(b)[i - |a|];
      }
    }
  }

  lemma LowerKeepsAlnum(s: string)
    requires AllAlnum(s)
    ensures AllAlnum(Lower(s))
  {
  }

  lemma LowerSplitsFirst(w: string)
    requires w != []
    ensures Lower(w)[0] == LowerChar(w[0]) && Lower(w)[1..] == Lower(w[1..])
  {
  }

  lemma LowerKeepsSeparators(sep: string)
    requires forall i :: 0 <= i < |sep| ==> !IsAlnum(sep[i])
    ensures Lower(sep) == sep
  {
  }

  lemma LowerOfJoined(first: string, sep: string, second: string)
    requires forall i :: 0 <= i < |sep| ==> !IsAlnum(sep[i])
    ensures Lower(first + sep + second) == Lower(first) + (sep + Lower(second))
  {
    var l1, l2 := Lower(first), Lower(second);
    calc {
      Lower(first + sep + second);
    == { LowerDistributes(first + sep, second); }
      Lower(first + sep) + l2;
    == { LowerDistributes(first, sep); LowerKeepsSeparators(sep); }
      l1 + sep + l2;
    ==
      l1 + (sep + l2);
    }
  }

  /** Letters and digits are copied by the replacement: no match starts at them. */
  lemma {:induction false} ReplaceOfAlnum(w: string, rest: string)
    requires AllAlnum(w)
    ensures ReplaceSeparators(w + rest) == w + ReplaceSeparators(rest)
    decreases |w|
  {
    if w == [] {
      assert w + rest == rest;
    } else {
      assert (w + rest)[0] == w[0] && (w + rest)[1..] == w[1..] + rest;
      assert IsAlnum(w[0]);
      assert AllAlnum(w[1..]) by {
        forall i | 0 <= i < |w[1..]| ensures IsAlnum(w[1..][i]) {
          assert w[1..][i] == w[i + 1];
        }
      }
      ReplaceOfAlnum(w[1..], rest);
      assert w == [w[0]] + w[1..];
    }
  }

  /** The separator run that starts `sep + w` is exactly `sep` when `w` starts with a letter or digit. */
  lemma {:induction false} RunOfSeparators(sep: string, w: string)
    requires forall i :: 0 <= i < |sep| ==> !IsAlnum(sep[i])
    requires w != [] && IsAlnum(w[0])
    ensures RunLength(sep + w) == |sep|
    decreases |sep|
  {
    if sep == [] {
      assert sep + w == w;
    } else {
      assert (sep + w)[0] == sep[0] && (sep + w)[1..] == sep[1..] + w;
      RunOfSeparators(sep[1..], w);
    }
  }

  /** A run of `n` separators followed by a letter or digit is one match. */
  lemma {:induction false} MatchAfterRun(s: string, n: nat)
    requires 0 < n < |s| && RunLength(s) == n && IsAlnum(s[n])
    ensures ReplaceSeparators(s) == [UpperChar(s[n])] + ReplaceSeparators(s[n + 1..])
  {
    assert !IsAlnum(s[0]);
    assert !IsLineTerminator(s[n]);
    assert LastMatchable(s, n) == Some(n);
  }

  /**
   * A match of `/[^a-zA-Z0-9]+(.)/` on a separator run followed by a letter
   * or digit: the greedy run takes the whole separator, whatever line
   * terminators it holds, and `.` captures the letter or digit.
   */
  lemma {:induction false} ReplaceOfRun(sep: string, w: string)
    requires sep != [] && forall i :: 0 <= i < |sep| ==> !IsAlnum(sep[i])
    requires w != [] && IsAlnum(w[0])
    ensures ReplaceSeparators(sep + w) == [UpperChar(w[0])] + ReplaceSeparators(w[1..])
  {
    RunOfSeparators(sep, w);
    JoinedAt(sep, w);
    MatchAfterRun(sep + w, |sep|);
  }

  /** The first character after `a` in `a + w`, and what follows it. */
  lemma JoinedAt(a: string, w: string)
    requires w != []
    ensures |a| < |a + w| && (a + w)[|a|] == w[0] && (a + w)[|a| + 1..] == w[1..]
  {
  }

  /**
   * Two words joined by a separator run: the run disappears and the first
   * character after it is upper-cased (`Login_Time` becomes `loginTime`).
   */
  lemma {:induction false} CamelCaseJoinsWords(first: string, sep: string, second: string)
    requires AllAlnum(first) && AllAlnum(second) && second != []
    requires sep != [] && forall i :: 0 <= i < |sep| ==> !IsAlnum(sep[i])
    ensures CamelCase(first + sep + second)
         == Lower(first) + [UpperChar(LowerChar(second[0]))] + Lower(second[1..])
  {
    var l1, l2 := Lower(first), Lower(second);
    LowerOfJoined(first, sep, second);
    LowerKeepsAlnum(first);
    LowerKeepsAlnum(second);
    ReplaceOfAlnum(l1, sep + l2);
    ReplaceOfRun(sep, l2);
    LowerSplitsFirst(second);
    assert AllAlnum(l2[1..]) by {
      forall i | 0 <= i < |l2[1..]| ensures IsAlnum(l2[1..][i]) {
        assert l2[1..][i] == l2[i + 1];
      }
    }
    ReplaceOfAlnum(l2[1..], []);
    assert l2[1..] + [] == l2[1..];
  }

  lemma {:induction false} FoldShape(s: string, p: Option<char>)
    ensures var r := CamelFold(s, p);
      && (forall i :: 0 <= i < |r| - 1 ==> IsAlnum(r[i]))
      && (s != [] && !IsAlnum(s[|s| - 1]) ==> r != [] && r[|r| - 1] == s[|s| - 1])
      && (s != [] && IsAlnum(s[|s| - 1]) ==> r != [] && IsAlnum(r[|r| - 1]))
  {
    if s != [] {
      FoldShape(s[1..], if IsAlnum(s[0]) then None else Some(s[0]));
      if |s| > 1 {
        assert s[1..][|s[1..]| - 1] == s[|s| - 1];
      }
    }
  }

  /**
   * A key never keeps a separator inside it; a header ending in a separator
   * keeps that last character at the end of the key, and a header ending in
   * a letter or digit gives a key ending in one.
   */
  lemma KeyShape(header: string)
    requires NoLineTerminators(header)
    ensures var key := CamelCase(header);
      && (forall i :: 0 <= i < |key| - 1 ==> IsAlnum(key[i]))
      && (header != [] && !IsAlnum(header[|header| - 1]) ==> key != [] && key[|key| - 1] == header[|header| - 1])
      && (header != [] && IsAlnum(header[|header| - 1]) ==> key != [] && IsAlnum(key[|key| - 1]))
  {
    CamelCaseIsFold(header);
    FoldShape(Lower(header), None);
  }
}
