/**
 * `parsePrice` (src/scrapers/apartment.js:8-12): drop the first `.`, turn
 * the first `,` into `.`, take the group of the leftmost match of
 * `(\d+\D?\d*)\s*€` and read it with `parseFloat`; `null` when nothing matches.
 */
module Price {
  import opened Wrappers
  import opened Text
  import opened Numbers

  /** `text.replace('.', '').replace(',', '.')`: only the first `.` and the first `,` are touched. */
  function Sanitize(text: string): string {
    ReplaceFirst(ReplaceFirst(text, '.', ""), ',', ".")
  }

  /** `t` is a word of the group `\d+\D?\d*`, split after its leading digits at `a`. */
  ghost predicate IsPriceTokenAt(t: string, a: nat) {
    0 < a <= |t| && All(t[..a], Digit) && (a == |t| || (!IsDigit(t[a]) && All(t[a + 1..], Digit)))
  }

  /** `t` is a word of the group `\d+\D?\d*`: digits, at most one non-digit, digits. */
  ghost predicate IsPriceToken(t: string) {
    exists a: nat :: IsPriceTokenAt(t, a)
  }

  /** `\s*€` matches at `e`: whitespace, then the euro sign. */
  ghost predicate EuroFollows(s: string, e: nat) {
    exists p: nat :: e <= p < |s| && All(s[e..p], Space) && s[p] == '€'
  }

  /** The pattern matches at `i` with its group covering `s[i..e]`. */
  ghost predicate PriceMatch(s: string, i: nat, e: nat) {
    i <= e <= |s| && IsPriceToken(s[i..e]) && EuroFollows(s, e)
  }

  /**
   * `exec` returns the match at `i` whose group ends at `e`: no match
   * starts further left, and none at `i` has a longer group.
   */
  ghost predicate IsExecMatch(s: string, i: nat, e: nat) {
    PriceMatch(s, i, e)
    && (forall e': nat :: PriceMatch(s, i, e') ==> e' <= e)
    && (forall k: nat, e': nat :: k < i ==> !PriceMatch(s, k, e'))
  }

  /** Scanning `\s*€` at `e`. */
  predicate EuroAt(s: string, e: nat)
    requires e <= |s|
  {
    var p := RunEnd(s, e, Space);
    p < |s| && s[p] == '€'
  }

  lemma EuroAtIff(s: string, e: nat)
    requires e <= |s|
    ensures EuroAt(s, e) <==> EuroFollows(s, e)
  {
    if EuroFollows(s, e) {
      var p: nat :| e <= p < |s| && All(s[e..p], Space) && s[p] == '€';
      RunEndUnique(s, e, p, Space);
    }
  }

  /**
   * The group the backtracking matcher reports for a match starting at `i`,
   * if any. `\d+` first takes the whole digit run ending at `j`; `\D?` then
   * first tries to take `s[j]` and `\d*` the digits after it. Only if no `€`
   * follows that does `\D?` give up `s[j]`, leaving the group `s[i..j]`.
   * Shorter `\d+` runs leave a digit in front of `\s*€` and add nothing.
   */
  function CaptureAt(s: string, i: nat): Option<nat>
  {
    if i >= |s| || !IsDigit(s[i]) then None
    else
      var j := RunEnd(s, i, Digit);
      if j < |s| && EuroAt(s, RunEnd(s, j + 1, Digit)) then Some(RunEnd(s, j + 1, Digit))
      else if EuroAt(s, j) then Some(j)
      else None
  }

  /** A `\s*€` never starts on a digit. */
  lemma EuroFollowsNotDigit(s: string, e: nat)
    requires EuroFollows(s, e)
    ensures e < |s| && !IsDigit(s[e])
  {
    var p: nat :| e <= p < |s| && All(s[e..p], Space) && s[p] == '€';
    if e < p {
      assert s[e..p][0] == s[e];
    }
  }

  /** What `CaptureAt` reports is a match. */
  lemma CaptureAtSound(s: string, i: nat)
    requires CaptureAt(s, i).Some?
    ensures PriceMatch(s, i, CaptureAt(s, i).value)
  {
    var j := RunEnd(s, i, Digit);
    var e := CaptureAt(s, i).value;
    EuroAtIff(s, e);
    var t := s[i..e];
    assert t[..j - i] == s[i..j];
    if e == j {
      assert IsPriceTokenAt(t, j - i);
    } else {
      assert t[j - i] == s[j];
      assert t[j - i + 1..] == s[j + 1..e];
      assert IsPriceTokenAt(t, j - i);
    }
  }

  /** Every match at `i` has a group no longer than the one `CaptureAt` reports. */
  lemma CaptureAtLongest(s: string, i: nat, e: nat)
    requires PriceMatch(s, i, e)
    ensures CaptureAt(s, i).Some? && e <= CaptureAt(s, i).value
  {
    var a: nat :| IsPriceTokenAt(s[i..e], a);
    TokenInPlace(s, i, e, a);
    EuroFollowsNotDigit(s, e);
    EuroAtIff(s, e);
    CaptureAtCovers(s, i, e, a);
  }

  lemma CaptureAtCovers(s: string, i: nat, e: nat, a: nat)
    requires i < i + a <= e < |s| && IsDigit(s[i]) && All(s[i..i + a], Digit)
    requires i + a == e || (!IsDigit(s[i + a]) && All(s[i + a + 1..e], Digit))
    requires !IsDigit(s[e]) && EuroAt(s, e)
    ensures CaptureAt(s, i).Some? && e <= CaptureAt(s, i).value
  {
    if i + a == e {
      RunEndUnique(s, i, e, Digit);
      CaptureAtOfRun(s, i, e);
    } else {
      RunEndUnique(s, i, i + a, Digit);
      RunEndUnique(s, i + a + 1, e, Digit);
      CaptureAtOfSplit(s, i, i + a, e);
    }
  }

  /** With `\s*€` right after the digit run, there is a group, at least the run. */
  lemma CaptureAtOfRun(s: string, i: nat, j: nat)
    requires i < |s| && IsDigit(s[i]) && RunEnd(s, i, Digit) == j && EuroAt(s, j)
    ensures CaptureAt(s, i).Some? && j <= CaptureAt(s, i).value
  {
  }

  /** With `\s*€` after the digit run, one character and a second digit run, that is the group. */
  lemma CaptureAtOfSplit(s: string, i: nat, j: nat, e: nat)
    requires i < |s| && IsDigit(s[i]) && RunEnd(s, i, Digit) == j && j < |s|
    requires RunEnd(s, j + 1, Digit) == e && EuroAt(s, e)
    ensures CaptureAt(s, i) == Some(e)
  {
  }

  /** The shape of a token `s[i..e]`, read off in `s` itself. */
  lemma TokenInPlace(s: string, i: nat, e: nat, a: nat)
    requires i <= e <= |s| && IsPriceTokenAt(s[i..e], a)
    ensures i < i + a <= e && IsDigit(s[i]) && All(s[i..i + a], Digit)
    ensures i + a == e || (!IsDigit(s[i + a]) && All(s[i + a + 1..e], Digit))
  {
    var t := s[i..e];
    assert t[..a] == s[i..i + a] && t[..a][0] == s[i];
    if i + a < e {
      assert t[a] == s[i + a] && t[a + 1..] == s[i + a + 1..e];
    }
  }

  /** At every position, `CaptureAt` reports exactly the longest group of a match there. */
  lemma CaptureAtIsLongestMatch(s: string)
    ensures forall i: nat :: CaptureAt(s, i).Some? ==> PriceMatch(s, i, CaptureAt(s, i).value)
    ensures forall i: nat, e: nat :: PriceMatch(s, i, e) ==> CaptureAt(s, i).Some? && e <= CaptureAt(s, i).value
  {
    forall i: nat | CaptureAt(s, i).Some? ensures PriceMatch(s, i, CaptureAt(s, i).value) {
      CaptureAtSound(s, i);
    }
    forall i: nat, e: nat | PriceMatch(s, i, e) ensures CaptureAt(s, i).Some? && e <= CaptureAt(s, i).value {
      CaptureAtLongest(s, i, e);
    }
  }

  /** The scan of `exec` over the start positions `i`, `i + 1`, ..., `|s|`: the first with a match. */
  function ScanFrom(s: string, i: nat): (r: Option<(nat, nat)>)
    requires i <= |s|
    ensures r.Some? ==> i <= r.value.0 && CaptureAt(s, r.value.0) == Some(r.value.1)
    ensures r.Some? ==> forall k: nat :: i <= k < r.value.0 ==> CaptureAt(s, k).None?
    ensures r.None? ==> forall k: nat :: i <= k ==> CaptureAt(s, k).None?
    decreases |s| - i
  {
    match CaptureAt(s, i)
    case Some(e) => Some((i, e))
    case None => if i == |s| then None else ScanFrom(s, i + 1)
  }

  /** `priceRegex[1]`: the group of the match `exec` returns, or `None` when there is none. */
  function PriceToken(s: string): Option<string>
  {
    match ScanFrom(s, 0)
    case None => None
    case Some((i, e)) => Some(s[i..e])
  }

  /**
   * `PriceToken` is `exec`: nothing when no match exists anywhere, and
   * otherwise the group of the leftmost match, taken as long as possible.
   */
  lemma PriceTokenIsExec(s: string)
    ensures PriceToken(s).None? <==> forall i: nat, e: nat :: !PriceMatch(s, i, e)
    ensures PriceToken(s).Some? ==> exists i: nat, e: nat :: IsExecMatch(s, i, e) && PriceToken(s).value == s[i..e]
    ensures PriceToken(s).Some? ==> IsPriceToken(PriceToken(s).value)
  {
    CaptureAtIsLongestMatch(s);
    match ScanFrom(s, 0)
    case None =>
    case Some((i, e)) =>
      assert CaptureAt(s, i) == Some(e);
      assert IsExecMatch(s, i, e);
  }

  /** `parsePrice(text)`: `None` for `null`, otherwise `parseFloat` of the group. */
  function ParsePrice(text: string): Option<JsNumber>
  {
    match PriceToken(Sanitize(text))
    case None => None
    case Some(token) => Some(ParseFloat(token))
  }

  /** `parsePrice` is `null` exactly when the sanitized text has no match, and a match always reads as a finite (exact) number. */
  lemma ParsePriceNullIff(text: string)
    ensures ParsePrice(text).None? <==> forall i: nat, e: nat :: !PriceMatch(Sanitize(text), i, e)
    ensures ParsePrice(text).Some? ==> ParsePrice(text).value.Finite?
  {
    PriceTokenIsExec(Sanitize(text));
    if PriceToken(Sanitize(text)).Some? {
      var token := PriceToken(Sanitize(text)).value;
      PriceTokenLeadingDigit(token);
      ParseFloatOfLeadingDigit(token);
    }
  }

  lemma PriceTokenLeadingDigit(token: string)
    requires IsPriceToken(token)
    ensures |token| > 0 && IsDigit(token[0])
  {
    var a: nat :| IsPriceTokenAt(token, a);
    assert token[..a][0] == token[0];
  }

  /** The scan stops at the first position with a match. */
  lemma {:induction false} ScanFromFinds(s: string, i: nat, n: nat, e: nat)
    requires i <= n <= |s| && CaptureAt(s, n) == Some(e)
    requires forall k: nat :: k < n ==> CaptureAt(s, k).None?
    ensures ScanFrom(s, i) == Some((n, e))
    decreases n - i
  {
    if i < n {
      ScanFromFinds(s, i + 1, n, e);
    }
  }

  /** Digits, one separator, digits, whitespace and `€` at `n`: the separator is kept in the group. */
  lemma CaptureAtSeparated(u: string, n: nat, j: nat, m: nat, p: nat)
    requires n < j < m <= p < |u| && All(u[n..j], Digit) && !IsDigit(u[j])
    requires All(u[j + 1..m], Digit) && !IsDigit(u[m]) && All(u[m..p], Space) && u[p] == '€'
    ensures CaptureAt(u, n) == Some(m)
  {
    assert IsDigit(u[n]) by {
      assert u[n..j][0] == u[n];
    }
    assert RunEnd(u, n, Digit) == j by {
      RunEndUnique(u, n, j, Digit);
    }
    assert RunEnd(u, j + 1, Digit) == m by {
      RunEndUnique(u, j + 1, m, Digit);
    }
    assert EuroAt(u, m) by {
      RunEndUnique(u, m, p, Space);
    }
  }

  /** Only the first `.` goes and only the first `,` becomes `.`. */
  lemma SanitizeGrouped(pre: string, ip: string, grp: string, rest: string)
    requires '.' !in pre && ',' !in pre && All(ip, Digit) && All(grp, Digit)
    ensures Sanitize(pre + ip + "." + grp + "," + rest) == pre + (ip + grp) + "." + rest
  {
    DigitsHaveNoSeparator(ip);
    DigitsHaveNoSeparator(grp);
    var text := pre + ip + "." + grp + "," + rest;
    assert ReplaceFirst(text, '.', "") == pre + ip + grp + "," + rest by {
      assert '.' !in pre + ip;
      assert text == (pre + ip) + ['.'] + (grp + "," + rest);
      ReplaceFirstAt(pre + ip, grp + "," + rest, '.', "");
    }
    assert ReplaceFirst(pre + ip + grp + "," + rest, ',', ".") == pre + ip + grp + "." + rest by {
      assert ',' !in pre + ip + grp;
      assert pre + ip + grp + "," + rest == (pre + ip + grp) + [','] + rest;
      ReplaceFirstAt(pre + ip + grp, rest, ',', ".");
    }
    assert pre + ip + grp == pre + (ip + grp);
  }

  /** After text without digits, `digits.digits`, whitespace and `€` give the group `exec` captures. */
  lemma PriceTokenOfDecimal(pre: string, ds: string, frac: string, ws: string, rest: string)
    requires All(pre, NonDigit) && |ds| > 0 && All(ds, Digit) && All(frac, Digit) && All(ws, Space)
    requires |rest| > |frac| + |ws| && rest[..|frac|] == frac && rest[|frac|..|frac| + |ws|] == ws
    requires rest[|frac| + |ws|] == '€'
    ensures PriceToken(pre + ds + "." + rest) == Some(ds + "." + frac)
  {
    var u := pre + ds + "." + rest;
    CaptureAtDecimal(pre, ds, frac, ws, rest);
    assert u[..|pre|] == pre;
    PriceTokenAt(u, |pre|, |pre| + |ds| + 1 + |frac|);
    PointSlice(pre, ds, rest, |frac|);
  }

  /** The group `digits.digits` before whitespace and `€`, at the first digit. */
  lemma CaptureAtDecimal(pre: string, ds: string, frac: string, ws: string, rest: string)
    requires |ds| > 0 && All(ds, Digit) && All(frac, Digit) && All(ws, Space)
    requires |rest| > |frac| + |ws| && rest[..|frac|] == frac && rest[|frac|..|frac| + |ws|] == ws
    requires rest[|frac| + |ws|] == '€'
    ensures CaptureAt(pre + ds + "." + rest, |pre|) == Some(|pre| + |ds| + 1 + |frac|)
  {
    var u := pre + ds + "." + rest;
    var n, j := |pre|, |pre| + |ds|;
    var m := j + 1 + |frac|;
    var p := m + |ws|;
    assert u[n..j] == ds && u[j] == '.';
    assert u[j + 1..m] == frac && u[m..p] == ws && u[p] == '€' by {
      assert u[j + 1..] == rest;
      assert u[j + 1..m] == rest[..|frac|];
      assert u[m..p] == rest[|frac|..|frac| + |ws|];
    }
    assert !IsDigit(u[m]) by {
      if m < p {
        assert u[m] == u[m..p][0];
      }
    }
    CaptureAtSeparated(u, n, j, m, p);
  }

  /** The group cut out of `pre + ds + "." + rest`: the digits, the point and the start of the rest. */
  lemma PointSlice(pre: string, ds: string, rest: string, k: nat)
    requires k <= |rest|
    ensures (pre + ds + "." + rest)[|pre|..|pre| + |ds| + 1 + k] == ds + "." + rest[..k]
  {
    var u := pre + ds + "." + rest;
    var n, j := |pre|, |pre| + |ds|;
    assert u[n..j] == ds && u[j] == '.' && u[j + 1..j + 1 + k] == rest[..k];
    assert u[n..j + 1 + k] == u[n..j] + [u[j]] + u[j + 1..j + 1 + k];
  }

  /** No match starts inside a prefix without digits. */
  lemma NoCaptureBefore(u: string, n: nat)
    requires n <= |u| && All(u[..n], NonDigit)
    ensures forall k: nat :: k < n ==> CaptureAt(u, k).None?
  {
    forall k: nat | k < n ensures CaptureAt(u, k).None? {
      assert u[..n][k] == u[k];
    }
  }

  /** A match after a prefix without digits is the one `exec` reports. */
  lemma PriceTokenAt(u: string, n: nat, m: nat)
    requires n <= |u| && All(u[..n], NonDigit) && CaptureAt(u, n) == Some(m)
    ensures n <= m <= |u| && PriceToken(u) == Some(u[n..m])
  {
    NoCaptureBefore(u, n);
    ScanFromFinds(u, 0, n, m);
    CaptureAtSound(u, n);
  }

  /**
   * A price written `1.234,56 €` (after text without digits, `.` or `,`)
   * reads as the digits on both sides of the `.` together with those after
   * the `,` as a fraction: the thousands separator is dropped and the
   * decimal comma becomes a point.
   */
  lemma ParsePriceGrouped(pre: string, ip: string, grp: string, frac: string, ws: string, tail: string)
    requires All(pre, NonDigit) && '.' !in pre && ',' !in pre
    requires |ip| > 0 && All(ip, Digit) && All(grp, Digit) && All(frac, Digit) && All(ws, Space)
    ensures var value := DigitsValue(ip + grp + frac);
      ParsePrice(pre + ip + "." + grp + "," + (frac + ws + "€" + tail)) == Some(Finite(Decimal(value, -|frac|)))
  {
    AllConcat(ip, grp, Digit);
    PriceTokenGrouped(pre, ip, grp, frac, ws, tail);
    ParsePriceOfPoint(pre + ip + "." + grp + "," + (frac + ws + "€" + tail), ip + grp, frac);
  }

  /** The group captured from `1.234,56 €` after sanitizing: `1234.56`. */
  lemma PriceTokenGrouped(pre: string, ip: string, grp: string, frac: string, ws: string, tail: string)
    requires All(pre, NonDigit) && '.' !in pre && ',' !in pre
    requires |ip| > 0 && All(ip, Digit) && All(grp, Digit) && All(frac, Digit) && All(ws, Space)
    ensures PriceToken(Sanitize(pre + ip + "." + grp + "," + (frac + ws + "€" + tail))) == Some(ip + grp + "." + frac)
  {
    AllConcat(ip, grp, Digit);
    var rest := frac + ws + "€" + tail;
    assert rest[..|frac|] == frac && rest[|frac|..|frac| + |ws|] == ws && rest[|frac| + |ws|] == '€';
    PriceTokenOfDecimal(pre, ip + grp, frac, ws, rest);
    SanitizeGrouped(pre, ip, grp, rest);
  }

  /** A captured `digits.digits` reads as its digits with the point moved in by the fraction's length. */
  lemma ParsePriceOfPoint(text: string, ds: string, frac: string)
    requires |ds| > 0 && All(ds, Digit) && All(frac, Digit)
    requires PriceToken(Sanitize(text)) == Some(ds + "." + frac)
    ensures ParsePrice(text) == Some(Finite(Decimal(DigitsValue(ds + frac), -|frac|)))
  {
    ParseFloatOfPoint(ds, frac);
  }

  /**
   * A whole price written `850 €` reads as its digits. `\D?` takes the space
   * before the `€`, so the group is `850 `, which `parseFloat` reads as 850.
   */
  lemma ParsePriceOfInteger(pre: string, ds: string, tail: string)
    requires All(pre, NonDigit) && |ds| > 0 && All(ds, Digit)
    requires '.' !in pre + tail && ',' !in pre + tail
    ensures ParsePrice(pre + ds + " €" + tail) == Some(Finite(Decimal(DigitsValue(ds), 0)))
  {
    var u := pre + ds + " €" + tail;
    assert (ds + " ")[..|ds|] == ds;
    assert PriceToken(Sanitize(u)) == Some(ds + " ") by {
      PriceTokenOfInteger(pre, ds, tail);
    }
    ParseFloatOfDigits(ds + " ", |ds|);
  }

  /** The group captured from `850 €`: the digits and the space. */
  lemma PriceTokenOfInteger(pre: string, ds: string, tail: string)
    requires All(pre, NonDigit) && |ds| > 0 && All(ds, Digit)
    requires '.' !in pre + tail && ',' !in pre + tail
    ensures PriceToken(Sanitize(pre + ds + " €" + tail)) == Some(ds + " ")
  {
    var u := pre + ds + " €" + tail;
    var n := |pre|;
    var j := n + |ds|;
    assert u[..n] == pre && u[n..j] == ds && u[n..j + 1] == ds + " ";
    assert u[j] == ' ' && u[j + 1] == '€';
    assert '.' !in u && ',' !in u by {
      DigitsHaveNoSeparator(ds);
    }
    SanitizeUnchanged(u);
    CaptureAtSeparated(u, n, j, j + 1, j + 1);
    PriceTokenAt(u, n, j + 1);
  }

  /**
   * Thousands grouped with a space are cut at the space: `1 234 €` matches
   * with the group `1 234`, and `parseFloat` stops reading at the space, so
   * the price is 1.
   */
  lemma ParsePriceSpaceGrouped(pre: string, ip: string, grp: string, tail: string)
    requires All(pre, NonDigit) && |ip| > 0 && All(ip, Digit) && |grp| > 0 && All(grp, Digit)
    requires '.' !in pre + tail && ',' !in pre + tail
    ensures ParsePrice(pre + ip + " " + grp + " €" + tail) == Some(Finite(Decimal(DigitsValue(ip), 0)))
  {
    var u := pre + ip + " " + grp + " €" + tail;
    var token := ip + " " + grp;
    assert token[..|ip|] == ip && token[|ip|] == ' ';
    assert PriceToken(Sanitize(u)) == Some(token) by {
      PriceTokenSpaceGrouped(pre, ip, grp, tail);
    }
    ParseFloatOfDigits(token, |ip|);
  }

  /** The group captured from `1 234 €`: both digit runs and the space between them. */
  lemma PriceTokenSpaceGrouped(pre: string, ip: string, grp: string, tail: string)
    requires All(pre, NonDigit) && |ip| > 0 && All(ip, Digit) && |grp| > 0 && All(grp, Digit)
    requires '.' !in pre + tail && ',' !in pre + tail
    ensures PriceToken(Sanitize(pre + ip + " " + grp + " €" + tail)) == Some(ip + " " + grp)
  {
    var u := pre + ip + " " + grp + " €" + tail;
    var n := |pre|;
    var j := n + |ip|;
    var m := j + 1 + |grp|;
    assert u[..n] == pre && u[n..j] == ip && u[j + 1..m] == grp && u[n..m] == ip + " " + grp;
    assert u[j] == ' ' && u[m] == ' ' && u[m + 1] == '€';
    assert All(u[m..m + 1], Space) by {
      assert u[m..m + 1] == " ";
    }
    assert '.' !in u && ',' !in u by {
      DigitsHaveNoSeparator(ip);
      DigitsHaveNoSeparator(grp);
    }
    SanitizeUnchanged(u);
    CaptureAtSeparated(u, n, j, m, m + 1);
    PriceTokenAt(u, n, m);
  }

  /** Text without `.` and `,` is left as it is. */
  lemma SanitizeUnchanged(u: string)
    requires '.' !in u && ',' !in u
    ensures Sanitize(u) == u
  {
  }

  lemma DigitsHaveNoSeparator(ds: string)
    requires All(ds, Digit)
    ensures '.' !in ds && ',' !in ds
  {
  }
}
