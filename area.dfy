/**
 * `parseArea` (src/scrapers/apartment.js:3-6): take the group of the
 * leftmost match of `(\d*.\d*) m²`, turn its first `,` into `.` and read it
 * with `parseFloat`; `null` when nothing matches. The `.` of the pattern is
 * not escaped, so it stands for any one character except a line terminator.
 */
module Area {
  import opened Wrappers
  import opened Text
  import opened Numbers

  /** The literal that ends the pattern: a space, `m` and the superscript two. */
  const Unit: string := " m\U{B2}"

  /** ` m²` occurs at `e`. */
  predicate UnitAt(s: string, e: nat) {
    e + |Unit| <= |s| && s[e..e + |Unit|] == Unit
  }

  /** `t` is a word of the group `\d*.\d*`, its one free character at `a`. */
  ghost predicate IsAreaTokenAt(t: string, a: nat) {
    a < |t| && All(t[..a], Digit) && !IsLineTerminator(t[a]) && All(t[a + 1..], Digit)
  }

  /** `t` is a word of the group `\d*.\d*`: digits, one character, digits. */
  ghost predicate IsAreaToken(t: string) {
    exists a: nat :: IsAreaTokenAt(t, a)
  }

  /** The pattern matches at `i` with its group covering `s[i..e]`. */
  ghost predicate AreaMatch(s: string, i: nat, e: nat) {
    i <= e <= |s| && IsAreaToken(s[i..e]) && UnitAt(s, e)
  }

  /**
   * `exec` returns the match at `i` whose group ends at `e`: no match
   * starts further left, and none at `i` has a longer group.
   */
  ghost predicate IsAreaExec(s: string, i: nat, e: nat) {
    AreaMatch(s, i, e)
    && (forall e': nat :: AreaMatch(s, i, e') ==> e' <= e)
    && (forall k: nat, e': nat :: k < i ==> !AreaMatch(s, k, e'))
  }

  /**
   * The group the backtracking matcher reports for a match starting at `i`,
   * if any. The first `\d*` takes the whole digit run ending at `j`, `.`
   * takes `s[j]` and the second `\d*` the digits after it; if ` m²` does not
   * follow, the first `\d*` gives back its last digit for `.` to take, after
   * which the second `\d*` can only end at `j` again. Giving back more
   * digits ends the group at `j` as well, so nothing else can match.
   */
  function CaptureAt(s: string, i: nat): Option<nat>
    requires i <= |s|
  {
    var j := RunEnd(s, i, Digit);
    if j < |s| && !IsLineTerminator(s[j]) && UnitAt(s, RunEnd(s, j + 1, Digit)) then Some(RunEnd(s, j + 1, Digit))
    else if i < j && UnitAt(s, j) then Some(j)
    else None
  }

  /** What `CaptureAt` reports is a match. */
  lemma CaptureAtSound(s: string, i: nat)
    requires i <= |s| && CaptureAt(s, i).Some?
    ensures AreaMatch(s, i, CaptureAt(s, i).value)
  {
    var j := RunEnd(s, i, Digit);
    var e := CaptureAt(s, i).value;
    var t := s[i..e];
    if j < |s| && !IsLineTerminator(s[j]) && UnitAt(s, RunEnd(s, j + 1, Digit)) {
      assert t[..j - i] == s[i..j] && t[j - i] == s[j] && t[j - i + 1..] == s[j + 1..e];
      assert IsAreaTokenAt(t, j - i);
    } else {
      assert s[i..j][j - i - 1] == s[j - 1];
      assert t[..j - i - 1] == s[i..j - 1] && t[j - i - 1] == s[j - 1] && t[j - i..] == [];
      assert IsAreaTokenAt(t, j - i - 1);
    }
  }

  /** The shape of a token `s[i..e]`, read off in `s` itself. */
  lemma TokenInPlace(s: string, i: nat, e: nat, a: nat)
    requires i <= e <= |s| && IsAreaTokenAt(s[i..e], a)
    ensures i + a < e && All(s[i..i + a], Digit) && !IsLineTerminator(s[i + a]) && All(s[i + a + 1..e], Digit)
  {
    var t := s[i..e];
    assert t[..a] == s[i..i + a] && t[a] == s[i + a] && t[a + 1..] == s[i + a + 1..e];
  }

  /** ` m²` starts with a space, so never with a digit. */
  lemma UnitNotDigit(s: string, e: nat)
    requires UnitAt(s, e)
    ensures e < |s| && !IsDigit(s[e])
  {
    assert s[e] == s[e..e + |Unit|][0];
  }

  /** Every match at `i` has a group no longer than the one `CaptureAt` reports. */
  lemma CaptureAtLongest(s: string, i: nat, e: nat)
    requires AreaMatch(s, i, e)
    ensures CaptureAt(s, i).Some? && e <= CaptureAt(s, i).value
  {
    var a: nat :| IsAreaTokenAt(s[i..e], a);
    TokenInPlace(s, i, e, a);
    UnitNotDigit(s, e);
    CaptureAtCovers(s, i, e, a);
  }

  lemma CaptureAtCovers(s: string, i: nat, e: nat, a: nat)
    requires i + a < e < |s| && All(s[i..i + a], Digit) && !IsLineTerminator(s[i + a])
    requires All(s[i + a + 1..e], Digit) && !IsDigit(s[e]) && UnitAt(s, e)
    ensures CaptureAt(s, i).Some? && e <= CaptureAt(s, i).value
  {
    var j := RunEnd(s, i, Digit);
    RunEndCovers(s, i, i + a, Digit);
    if j == i + a {
      RunEndUnique(s, j + 1, e, Digit);
    } else {
      assert e == j by {
        RunEndUnique(s, i + a + 1, e, Digit);
        AllSuffixFrom(s, i, i + a + 1, j);
        RunEndUnique(s, i + a + 1, j, Digit);
      }
    }
  }

  /** A digit run from `i` to `j` is one from any `m` in between. */
  lemma AllSuffixFrom(s: string, i: nat, m: nat, j: nat)
    requires i <= m <= j <= |s| && All(s[i..j], Digit)
    ensures All(s[m..j], Digit)
  {
    forall k | m <= k < j ensures IsDigit(s[k]) {
      assert s[i..j][k - i] == s[k];
    }
  }

  /** At every position, `CaptureAt` reports exactly the longest group of a match there. */
  lemma CaptureAtIsLongestMatch(s: string)
    ensures forall i: nat :: i <= |s| && CaptureAt(s, i).Some? ==> AreaMatch(s, i, CaptureAt(s, i).value)
    ensures forall i: nat, e: nat :: AreaMatch(s, i, e) ==> i <= |s| && CaptureAt(s, i).Some? && e <= CaptureAt(s, i).value
  {
    forall i: nat | i <= |s| && CaptureAt(s, i).Some? ensures AreaMatch(s, i, CaptureAt(s, i).value) {
      CaptureAtSound(s, i);
    }
    forall i: nat, e: nat | AreaMatch(s, i, e) ensures i <= |s| && CaptureAt(s, i).Some? && e <= CaptureAt(s, i).value {
      CaptureAtLongest(s, i, e);
    }
  }

  /** The scan of `exec` over the start positions `i`, `i + 1`, ..., `|s|`: the first with a match. */
  function ScanFrom(s: string, i: nat): (r: Option<(nat, nat)>)
    requires i <= |s|
    ensures r.Some? ==> i <= r.value.0 <= |s| && CaptureAt(s, r.value.0) == Some(r.value.1)
    ensures r.Some? ==> forall k: nat :: i <= k < r.value.0 ==> CaptureAt(s, k).None?
    ensures r.None? ==> forall k: nat :: i <= k <= |s| ==> CaptureAt(s, k).None?
    decreases |s| - i
  {
    match CaptureAt(s, i)
    case Some(e) => Some((i, e))
    case None => if i == |s| then None else ScanFrom(s, i + 1)
  }

  /** `areaRegex[1]`: the group of the match `exec` returns, or `None` when there is none. */
  function AreaToken(s: string): Option<string>
  {
    match ScanFrom(s, 0)
    case None => None
    case Some((i, e)) => Some(s[i..e])
  }

  /**
   * `AreaToken` is `exec`: nothing when no match exists anywhere, and
   * otherwise the group of the leftmost match, taken as long as possible.
   */
  lemma AreaTokenIsExec(s: string)
    ensures AreaToken(s).None? <==> forall i: nat, e: nat :: !AreaMatch(s, i, e)
    ensures AreaToken(s).Some? ==> exists i: nat, e: nat :: IsAreaExec(s, i, e) && AreaToken(s).value == s[i..e]
  {
    CaptureAtIsLongestMatch(s);
    match ScanFrom(s, 0)
    case None =>
    case Some((i, e)) =>
      assert IsAreaExec(s, i, e);
  }

  /** A group is never empty and carries at most one character other than a digit. */
  lemma AreaTokenShape(s: string)
    requires AreaToken(s).Some?
    ensures var t := AreaToken(s).value;
      |t| > 0 && forall p, q :: 0 <= p < q < |t| ==> IsDigit(t[p]) || IsDigit(t[q])
  {
    AreaTokenIsExec(s);
    var t := AreaToken(s).value;
    var i: nat, e: nat :| IsAreaExec(s, i, e) && t == s[i..e];
    var a: nat :| IsAreaTokenAt(t, a);
    forall p, q | 0 <= p < q < |t| ensures IsDigit(t[p]) || IsDigit(t[q]) {
      if p < a {
        assert t[..a][p] == t[p];
      } else {
        assert t[a + 1..][q - a - 1] == t[q];
      }
    }
  }

  /** `parseArea(text)`: `None` for `null`, otherwise `parseFloat` of the group with its first `,` made a `.`. */
  function ParseArea(text: string): Option<JsNumber>
  {
    match AreaToken(text)
    case None => None
    case Some(token) => Some(ParseFloat(ReplaceFirst(token, ',', ".")))
  }

  /** `parseArea` is `null` exactly when the text has no match. */
  lemma ParseAreaNullIff(text: string)
    ensures ParseArea(text).None? <==> forall i: nat, e: nat :: !AreaMatch(text, i, e)
  {
    AreaTokenIsExec(text);
  }

  /** A character that `parseFloat` skips or reads as the start of a number when a digit follows it. */
  predicate StartsNumber(c: char) {
    IsSpace(c) || c == '+' || c == '-' || c == '.' || c == ','
  }

  /**
   * A match is read as NaN, and not as `null`, exactly when its group has no
   * digit at all, or starts with a character that cannot start a number.
   */
  lemma ParseAreaNaNIff(text: string)
    requires AreaToken(text).Some?
    ensures var t := AreaToken(text).value;
      |t| > 0 && (ParseArea(text).value.NaN? <==> !IsDigit(t[0]) && (|t| == 1 || !StartsNumber(t[0])))
  {
    AreaTokenIsExec(text);
    var t := AreaToken(text).value;
    var i: nat, e: nat :| IsAreaExec(text, i, e) && t == text[i..e];
    var a: nat :| IsAreaTokenAt(t, a);
    TokenNaNIff(t, a);
  }

  /** `parseFloat` of a group `digits c digits` once its first `,` is a `.`. */
  lemma TokenNaNIff(t: string, a: nat)
    requires IsAreaTokenAt(t, a)
    ensures ParseFloat(ReplaceFirst(t, ',', ".")).NaN? <==> !IsDigit(t[0]) && (|t| == 1 || !StartsNumber(t[0]))
  {
    var u := ReplaceFirst(t, ',', ".");
    if IsDigit(t[0]) {
      assert u[0] == t[0] by {
        if ',' in t {
          assert IndexOf(t, ',').value > 0;
        }
      }
      ParseFloatOfLeadingDigit(u);
    } else {
      assert a == 0;
      var ds := t[1..];
      var c := if t[0] == ',' then '.' else t[0];
      assert t == [t[0]] + ds;
      assert u == [c] + ds by {
        NoCommaInDigits(ds);
        if t[0] == ',' {
          ReplaceFirstAt([], ds, ',', ".");
        } else {
          assert ',' !in t;
        }
      }
      LeadingCharNaNIff(c, ds);
    }
  }

  lemma NoCommaInDigits(ds: string)
    requires All(ds, Digit)
    ensures ',' !in ds
  {
  }

  /** `parseFloat` of one character other than a digit followed by digits. */
  lemma LeadingCharNaNIff(c: char, ds: string)
    requires !IsDigit(c) && c != ',' && All(ds, Digit)
    ensures ParseFloat([c] + ds).NaN? <==> ds == [] || !(IsSpace(c) || c == '+' || c == '-' || c == '.')
  {
    var u := [c] + ds;
    assert u[1..] == ds;
    if ds == [] {
      assert u == [c];
    } else {
      assert IsDigit(u[1]) by {
        assert u[1] == ds[0];
      }
      if IsSpace(c) {
        assert RunEnd(u, 0, Space) == 1 by {
          RunEndUnique(u, 0, 1, Space);
        }
      } else if c == '+' || c == '-' {
        RunEndUnique(u, 0, 0, Space);
      } else if c == '.' {
        RunEndUnique(u, 0, 0, Space);
        RunEndUnique(u, 1, |u|, Digit);
      } else {
        RunEndUnique(u, 0, 0, Space);
        assert !StartsWithInfinity(u) by {
          assert IsDigit(u[1]);
        }
      }
    }
  }

  /** The area a page usually shows, `65,5 m²` (commas already made points): the group is `65.5`. */
  lemma ParseAreaOfDecimal(ds: string, frac: string, tail: string)
    requires |ds| > 0 && All(ds, Digit) && All(frac, Digit)
    ensures var value := DigitsValue(ds + frac);
      ParseArea(ds + "." + frac + (Unit + tail)) == Some(Finite(Decimal(value, -|frac|)))
  {
    AllConcat(ds, frac, Digit);
    var rest := Unit + tail;
    var s := ds + "." + frac + rest;
    var j := |ds|;
    var e := j + 1 + |frac|;
    assert s[..j] == ds && s[j] == '.' && s[j + 1..e] == frac && s[e..e + |Unit|] == Unit;
    assert CaptureAt(s, 0) == Some(e) by {
      assert s[0..j] == ds;
      RunEndUnique(s, 0, j, Digit);
      UnitNotDigit(s, e);
      RunEndUnique(s, j + 1, e, Digit);
    }
    assert AreaToken(s) == Some(ds + "." + frac) by {
      assert s[0..e] == ds + "." + frac;
    }
    ParseAreaOfPoint(s, ds, frac);
  }

  /** A captured `digits.digits` reads as its digits with the point moved in by the fraction's length. */
  lemma ParseAreaOfPoint(text: string, ds: string, frac: string)
    requires |ds| > 0 && All(ds, Digit) && All(frac, Digit)
    requires AreaToken(text) == Some(ds + "." + frac)
    ensures ParseArea(text) == Some(Finite(Decimal(DigitsValue(ds + frac), -|frac|)))
  {
    NoCommaInDigits(ds);
    NoCommaInDigits(frac);
    assert ',' !in ds + "." + frac;
    ParseFloatOfPoint(ds, frac);
  }
}
