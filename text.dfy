/**
 * The JavaScript string primitives the scraper relies on: the regex
 * character classes `\d`, `\D`, `\s`, `\S` and `.`, `String.prototype.replace`
 * and `split` with a one-character pattern, `trim` and `indexOf`.
 */
module Text {
  import opened Wrappers

  /** `\d`: the ASCII digits only. */
  predicate IsDigit(c: char) { '0' <= c <= '9' }

  /** The characters a regex `.` refuses (ECMAScript LineTerminator). */
  predicate IsLineTerminator(c: char) {
    c == '\n' || c == '\r' || c == '\U{2028}' || c == '\U{2029}'
  }

  /**
   * `\s`, and what `trim`, `parseFloat` and `parseInt` skip: ECMAScript
   * WhiteSpace (tab, vertical tab, form feed, space, no-break space,
   * byte order mark and the Unicode space separators) plus LineTerminator.
   */
  predicate IsSpace(c: char) {
    IsLineTerminator(c) || c == '\t' || c == '\U{B}' || c == '\U{C}' || c == ' '
    || c == '\U{A0}' || c == '\U{1680}' || ('\U{2000}' <= c <= '\U{200A}')
    || c == '\U{202F}' || c == '\U{205F}' || c == '\U{3000}' || c == '\U{FEFF}'
  }

  /** The regex character classes the scraper's patterns use. */
  datatype CharClass = Digit | NonDigit | Space | NonSpace

  predicate In(c: char, k: CharClass) {
    match k
    case Digit => IsDigit(c)
    case NonDigit => !IsDigit(c)
    case Space => IsSpace(c)
    case NonSpace => !IsSpace(c)
  }

  /** Every character of `s` belongs to class `k`. */
  predicate All(s: string, k: CharClass) {
    forall i :: 0 <= i < |s| ==> In(s[i], k)
  }

  /** End of the longest run of class-`k` characters starting at `i` (a greedy `k*`). */
  function RunEnd(s: string, i: nat, k: CharClass): (j: nat)
    requires i <= |s|
    ensures i <= j <= |s| && All(s[i..j], k)
    ensures j == |s| || !In(s[j], k)
    decreases |s| - i
  {
    if i < |s| && In(s[i], k) then RunEnd(s, i + 1, k) else i
  }

  /** Start of the longest run of class-`k` characters ending at `j`. */
  function RunStart(s: string, j: nat, k: CharClass): (i: nat)
    requires j <= |s|
    ensures i <= j && All(s[i..j], k)
    ensures i == 0 || !In(s[i - 1], k)
  {
    if 0 < j && In(s[j - 1], k) then
      var i := RunStart(s, j - 1, k);
      assert s[i..j] == s[i..j - 1] + [s[j - 1]];
      i
    else j
  }

  /** A maximal run is determined by its start: any run that cannot be extended is RunEnd's. */
  lemma {:induction false} RunEndUnique(s: string, i: nat, j: nat, k: CharClass)
    requires i <= j <= |s| && All(s[i..j], k)
    requires j == |s| || !In(s[j], k)
    ensures RunEnd(s, i, k) == j
    decreases j - i
  {
    if i < j {
      assert s[i..j][0] == s[i];
      AllSuffix(s, i, j, k);
      RunEndUnique(s, i + 1, j, k);
    }
  }

  /** Every class-`k` run starting at `i` lies inside the greedy one. */
  lemma {:induction false} RunEndCovers(s: string, i: nat, j: nat, k: CharClass)
    requires i <= j <= |s| && All(s[i..j], k)
    ensures j <= RunEnd(s, i, k)
    decreases j - i
  {
    if i < j {
      assert s[i..j][0] == s[i];
      AllSuffix(s, i, j, k);
      RunEndCovers(s, i + 1, j, k);
    }
  }

  /** Dropping the first character of a class-`k` run leaves a class-`k` run. */
  lemma AllSuffix(s: string, i: nat, j: nat, k: CharClass)
    requires i < j <= |s| && All(s[i..j], k)
    ensures All(s[i + 1..j], k)
  {
    forall m | i + 1 <= m < j ensures In(s[m], k) {
      assert s[i..j][m - i] == s[m];
    }
  }

  /** Part of a class-`k` run is a class-`k` run. */
  lemma AllInner(s: string, i: nat, j: nat, m: nat, k: CharClass)
    requires i <= j <= m <= |s| && All(s[i..m], k)
    ensures All(s[j..m], k)
  {
    forall n | j <= n < m ensures In(s[n], k) {
      assert s[i..m][n - i] == s[n];
    }
  }

  /** Two class-`k` runs side by side make one. */
  lemma AllConcat(a: string, b: string, k: CharClass)
    requires All(a, k) && All(b, k)
    ensures All(a + b, k)
  {
  }

  /** A slice is the two slices on either side of any cut inside it. */
  lemma SliceSplit(s: string, a: nat, b: nat, c: nat)
    requires a <= b <= c <= |s|
    ensures s[a..c] == s[a..b] + s[b..c]
  {
  }

  /** First index of `c` in `s`, as `indexOf` finds it. */
  function IndexOf(s: string, c: char): (r: Option<nat>)
    ensures r.None? <==> c !in s
    ensures r.Some? ==> r.value < |s| && s[r.value] == c && c !in s[..r.value]
  {
    if |s| == 0 then None
    else if s[0] == c then Some(0)
    else
      match IndexOf(s[1..], c)
      case None => None
      case Some(i) =>
        assert s[..i + 1] == [s[0]] + s[1..][..i];
        Some(i + 1)
  }

  /** `s.replace(c, r)` with a one-character string pattern: only the first `c` is replaced. */
  function ReplaceFirst(s: string, c: char, r: string): (t: string)
  {
    match IndexOf(s, c)
    case None => s
    case Some(i) => s[..i] + r + s[i + 1..]
  }

  /** The first `c` of `s` is the one at `k` when none comes before it. */
  lemma {:induction false} IndexOfUnique(s: string, c: char, k: nat)
    requires k < |s| && s[k] == c && c !in s[..k]
    ensures IndexOf(s, c) == Some(k)
  {
    if 0 < k {
      assert s[..k][0] == s[0];
      assert s[1..][..k - 1] == s[..k][1..];
      IndexOfUnique(s[1..], c, k - 1);
    }
  }

  /** `replace` rewrites the first `c`, whatever follows it. */
  lemma ReplaceFirstAt(p: string, q: string, c: char, r: string)
    requires c !in p
    ensures ReplaceFirst(p + [c] + q, c, r) == p + r + q
  {
    assert (p + [c] + q)[..|p|] == p;
    IndexOfUnique(p + [c] + q, c, |p|);
    assert (p + [c] + q)[|p| + 1..] == q;
  }

  /** `s.split(c)` with a one-character separator: the pieces between the `c`s, at least one. */
  function Split(s: string, c: char): (parts: seq<string>)
    ensures |parts| >= 1
    ensures forall k :: 0 <= k < |parts| ==> c !in parts[k]
    decreases |s|
  {
    match IndexOf(s, c)
    case None => [s]
    case Some(i) => [s[..i]] + Split(s[i + 1..], c)
  }

  /** `parts.join(sep)`. */
  function Join(parts: seq<string>, sep: string): string
  {
    if |parts| == 0 then ""
    else if |parts| == 1 then parts[0]
    else parts[0] + sep + Join(parts[1..], sep)
  }

  /** `xs.reverse()`, as a new sequence. */
  function Reverse<T>(xs: seq<T>): (ys: seq<T>)
    ensures |ys| == |xs| && forall k :: 0 <= k < |xs| ==> ys[k] == xs[|xs| - 1 - k]
  {
    seq(|xs|, k requires 0 <= k < |xs| => xs[|xs| - 1 - k])
  }

  /** Joining the pieces of a split with the separator gives back the text. */
  lemma {:induction false} JoinSplit(s: string, c: char)
    ensures Join(Split(s, c), [c]) == s
    decreases |s|
  {
    match IndexOf(s, c)
    case None =>
    case Some(i) =>
      var rest := Split(s[i + 1..], c);
      var parts := [s[..i]] + rest;
      assert parts[0] == s[..i] && parts[1..] == rest;
      assert Join(parts, [c]) == s[..i] + [c] + Join(rest, [c]);
      JoinSplit(s[i + 1..], c);
      assert s == s[..i] + [c] + s[i + 1..];
  }

  /** Joining three pieces puts the separator between them. */
  lemma JoinThree(a: string, b: string, d: string, sep: string)
    ensures Join([a, b, d], sep) == a + sep + (b + sep + d)
  {
    assert Join([d], sep) == d;
    assert [b, d][1..] == [d];
    assert Join([b, d], sep) == b + sep + d;
    assert [a, b, d][1..] == [b, d];
  }

  /** `s.split(c)[0]`: the text before the first `c`, or all of `s`. */
  lemma SplitFirst(s: string, c: char)
    ensures var t := Split(s, c)[0];
      c !in t && t <= s && (t == s || s[|t|] == c)
  {
  }

  /** Splitting text with the separator only between its pieces gives those pieces. */
  lemma SplitThree(a: string, b: string, d: string, c: char)
    requires c !in a && c !in b && c !in d
    ensures Split(a + [c] + b + [c] + d, c) == [a, b, d]
  {
    var t := b + [c] + d;
    assert Split(t, c) == [b, d] by {
      SplitAt(b, d, c);
      assert Split(d, c) == [d];
    }
    assert a + [c] + b + [c] + d == a + [c] + t;
    SplitAt(a, t, c);
  }

  /** A piece without the separator, then the separator: the piece comes first, then the rest's pieces. */
  lemma SplitAt(a: string, t: string, c: char)
    requires c !in a
    ensures Split(a + [c] + t, c) == [a] + Split(t, c)
  {
    var s := a + [c] + t;
    assert s[..|a|] == a && s[|a| + 1..] == t;
    IndexOfUnique(s, c, |a|);
  }

  /** `s.trim()`: `s` without its leading and trailing whitespace. */
  function Trim(s: string): (t: string)
    ensures exists a: nat, b: nat :: IsTrimOf(s, a, b) && t == s[a..b]
  {
    var a := RunEnd(s, 0, Space);
    var b := RunStart(s, |s|, Space);
    if b <= a then
      assert IsTrimOf(s, a, a) by {
        AllInner(s, b, a, |s|, Space);
        assert s[..a] == s[0..a] && s[a..] == s[a..|s|];
      }
      []
    else
      assert s[a..b][0] == s[a] && s[a..b][b - a - 1] == s[b - 1];
      assert IsTrimOf(s, a, b) by {
        assert s[..a] == s[0..a];
        assert s[b..] == s[b..|s|];
      }
      s[a..b]
  }

  /** `s[a..b]` is `s` cut between whitespace-only ends, with no whitespace left at either end. */
  ghost predicate IsTrimOf(s: string, a: nat, b: nat) {
    a <= b <= |s| && All(s[..a], Space) && All(s[b..], Space)
    && (a < b ==> !IsSpace(s[a]) && !IsSpace(s[b - 1]))
  }

  /** Trimming is idempotent: a trimmed string has no whitespace to lose. */
  lemma TrimIdempotent(s: string)
    ensures Trim(Trim(s)) == Trim(s)
  {
    var t := Trim(s);
    var a: nat, b: nat :| IsTrimOf(s, a, b) && t == s[a..b];
    assert t != [] ==> t[0] == s[a] && t[|t| - 1] == s[b - 1];
    RunEndUnique(t, 0, 0, Space);
    assert RunStart(t, |t|, Space) == |t|;
    assert t[0..|t|] == t;
  }

  /** `pat` occurs in `s` at index `i`. */
  ghost predicate OccursAt(s: string, pat: string, i: nat) {
    i + |pat| <= |s| && s[i..i + |pat|] == pat
  }

  /** `s.indexOf(pat, i) !== -1`. */
  predicate ContainsFrom(s: string, pat: string, i: nat)
    requires i <= |s|
    ensures ContainsFrom(s, pat, i) <==> exists k :: i <= k && OccursAt(s, pat, k)
    decreases |s| - i
  {
    if i + |pat| <= |s| && s[i..i + |pat|] == pat then
      assert OccursAt(s, pat, i);
      true
    else if i == |s| then
      assert forall k :: i <= k && OccursAt(s, pat, k) ==> k == i;
      false
    else
      assert forall k :: i <= k && OccursAt(s, pat, k) ==> k == i || i + 1 <= k;
      ContainsFrom(s, pat, i + 1)
  }

  /** `s.indexOf(pat) !== -1`. */
  predicate Contains(s: string, pat: string)
  {
    ContainsFrom(s, pat, 0)
  }
}
