/**
 * `parseAvailableFrom` (src/scrapers/apartment.js:39-62): the move-in text
 * decides, in this order, between a date (`Bezugsfrei ab 01.03.24`), an
 * immediate move-in (`sofort`) and nothing known. The `Date` built from the
 * date text and the clock it is compared with stay outside the model: the
 * date is kept as the string handed to `new Date`, and whether that date
 * lies in the past is the parameter `before`.
 */
module AvailableFrom {
  import opened Wrappers
  import opened Text

  /** The two fields `parseAvailableFrom` returns. */
  datatype Availability = Availability(availableFrom: Option<string>, isAvailable: bool)

  /**
   * The text matches `^\D+(\d{1,2}\.\d{1,2}\.\d{2})\s*$` with the group
   * `dd.mm.yy`: non-digits, a day and a month of one or two digits, a year
   * of two, and whitespace up to the end.
   */
  ghost predicate DateShape(s: string, pre: string, dd: string, mm: string, yy: string, ws: string) {
    s == pre + dd + "." + mm + "." + yy + ws
    && |pre| >= 1 && All(pre, NonDigit)
    && 1 <= |dd| <= 2 && All(dd, Digit)
    && 1 <= |mm| <= 2 && All(mm, Digit)
    && |yy| == 2 && All(yy, Digit)
    && All(ws, Space)
  }

  /**
   * `dateRegex[1]`, or `None` when the pattern does not match. `\D+` can
   * only stop at the first digit, and each digit count must reach the next
   * `.` (or, for the year, the whitespace before the end) exactly.
   */
  function DateGroup(s: string): Option<string>
  {
    var j := RunEnd(s, 0, NonDigit);
    var d := RunEnd(s, j, Digit);
    if j == 0 || d == j || d > j + 2 || d == |s| || s[d] != '.' then None
    else
      var m := RunEnd(s, d + 1, Digit);
      if m == d + 1 || m > d + 3 || m == |s| || s[m] != '.' then None
      else
        var y := RunEnd(s, m + 1, Digit);
        if y != m + 3 || RunEnd(s, y, Space) != |s| then None
        else Some(s[j..y])
  }

  /** A matching text yields the group `dd.mm.yy`. */
  lemma DateGroupComplete(s: string, pre: string, dd: string, mm: string, yy: string, ws: string)
    requires DateShape(s, pre, dd, mm, yy, ws)
    ensures DateGroup(s) == Some(dd + "." + mm + "." + yy)
  {
    var j := |pre|;
    var d := j + |dd|;
    var m := d + 1 + |mm|;
    var y := m + 1 + |yy|;
    var g := dd + "." + mm + "." + yy;
    assert s == pre + g + ws;
    assert s[0..j] == pre;
    assert s[j..y] == g;
    assert s[y..|s|] == ws;
    assert s[j..d] == dd;
    assert s[d] == '.';
    assert s[d + 1..m] == mm;
    assert s[m] == '.';
    assert s[m + 1..y] == yy;
    DateGroupAt(s, j, d, m, y);
  }

  /** The group read off by positions: the first digit at `j`, the points at `d` and `m`, the year ending at `y`. */
  lemma DateGroupAt(s: string, j: nat, d: nat, m: nat, y: nat)
    requires 1 <= j < d <= j + 2 && d < m <= d + 3 && y == m + 3 && y <= |s|
    requires All(s[0..j], NonDigit) && All(s[j..d], Digit) && s[d] == '.'
    requires All(s[d + 1..m], Digit) && s[m] == '.' && All(s[m + 1..y], Digit) && All(s[y..|s|], Space)
    requires d + 1 < m <= d + 3
    ensures DateGroup(s) == Some(s[j..y])
  {
    assert RunEnd(s, 0, NonDigit) == j by {
      assert s[j] == s[j..d][0];
      RunEndUnique(s, 0, j, NonDigit);
    }
    assert RunEnd(s, j, Digit) == d by {
      RunEndUnique(s, j, d, Digit);
    }
    assert RunEnd(s, d + 1, Digit) == m by {
      RunEndUnique(s, d + 1, m, Digit);
    }
    assert RunEnd(s, m + 1, Digit) == y by {
      if y < |s| {
        assert s[y] == s[y..|s|][0];
      }
      RunEndUnique(s, m + 1, y, Digit);
    }
    assert RunEnd(s, y, Space) == |s| by {
      RunEndUnique(s, y, |s|, Space);
    }
    DateGroupOfRuns(s, j, d, m, y);
  }

  /** `DateGroup` once the runs it measures are known to end at `j`, `d`, `m`, `y` and `|s|`. */
  lemma DateGroupOfRuns(s: string, j: nat, d: nat, m: nat, y: nat)
    requires 1 <= j < d <= j + 2 && d + 1 < m <= d + 3 && y == m + 3 && y <= |s|
    requires s[d] == '.' && s[m] == '.'
    requires RunEnd(s, 0, NonDigit) == j && RunEnd(s, j, Digit) == d && RunEnd(s, d + 1, Digit) == m
    requires RunEnd(s, m + 1, Digit) == y && RunEnd(s, y, Space) == |s|
    ensures DateGroup(s) == Some(s[j..y])
  {
  }

  /** A group is only reported for a matching text. */
  lemma DateGroupSound(s: string)
    requires DateGroup(s).Some?
    ensures exists pre, dd, mm, yy, ws :: DateShape(s, pre, dd, mm, yy, ws) && DateGroup(s).value == dd + "." + mm + "." + yy
  {
    var j := RunEnd(s, 0, NonDigit);
    var d := RunEnd(s, j, Digit);
    var m := RunEnd(s, d + 1, Digit);
    var y := RunEnd(s, m + 1, Digit);
    DateShapeOfRuns(s, j, d, m, y);
  }

  /** The runs `DateGroup` measures cut a matching text. */
  lemma DateShapeOfRuns(s: string, j: nat, d: nat, m: nat, y: nat)
    requires 1 <= j < d <= j + 2 && d + 1 < m <= d + 3 && y == m + 3 && y <= |s|
    requires s[d] == '.' && s[m] == '.'
    requires RunEnd(s, 0, NonDigit) == j && RunEnd(s, j, Digit) == d && RunEnd(s, d + 1, Digit) == m
    requires RunEnd(s, m + 1, Digit) == y && RunEnd(s, y, Space) == |s|
    ensures DateShape(s, s[0..j], s[j..d], s[d + 1..m], s[m + 1..y], s[y..|s|])
    ensures s[j..y] == s[j..d] + "." + s[d + 1..m] + "." + s[m + 1..y]
  {
    DateShapeAt(s, j, d, m, y);
  }

  /** The pieces between the positions `DateGroupAt` names make a matching text. */
  lemma DateShapeAt(s: string, j: nat, d: nat, m: nat, y: nat)
    requires 1 <= j < d <= j + 2 && d + 1 < m <= d + 3 && y == m + 3 && y <= |s|
    requires All(s[0..j], NonDigit) && All(s[j..d], Digit) && s[d] == '.'
    requires All(s[d + 1..m], Digit) && s[m] == '.' && All(s[m + 1..y], Digit) && All(s[y..|s|], Space)
    ensures DateShape(s, s[0..j], s[j..d], s[d + 1..m], s[m + 1..y], s[y..|s|])
    ensures s[j..y] == s[j..d] + "." + s[d + 1..m] + "." + s[m + 1..y]
  {
    DatePieces(s, j, d, m, y);
  }

  /** Cutting at the two points: the text and the group are their pieces put back together. */
  lemma DatePieces(s: string, j: nat, d: nat, m: nat, y: nat)
    requires j < d < m < y <= |s| && s[d] == '.' && s[m] == '.'
    ensures s == s[0..j] + s[j..d] + "." + s[d + 1..m] + "." + s[m + 1..y] + s[y..|s|]
    ensures s[j..y] == s[j..d] + "." + s[d + 1..m] + "." + s[m + 1..y]
  {
    assert s[d..d + 1] == "." && s[m..m + 1] == ".";
    assert s[j..y] == s[j..d] + "." + s[d + 1..m] + "." + s[m + 1..y] by {
      SliceSplit(s, j, d, d + 1);
      SliceSplit(s, j, d + 1, m);
      SliceSplit(s, j, m, m + 1);
      SliceSplit(s, j, m + 1, y);
    }
    assert s == s[0..j] + s[j..y] + s[y..|s|] by {
      SliceSplit(s, 0, j, y);
      SliceSplit(s, 0, y, |s|);
      assert s == s[0..|s|];
    }
  }

  /** `'20' + group.split('.').reverse().join('-')`: the string handed to `new Date`. */
  function DateString(group: string): string {
    "20" + Join(Reverse(Split(group, '.')), "-")
  }

  /** The date string puts year, month and day in that order, none of them padded. */
  lemma DateStringOfParts(dd: string, mm: string, yy: string)
    requires All(dd, Digit) && All(mm, Digit) && All(yy, Digit)
    ensures DateString(dd + "." + mm + "." + yy) == "20" + yy + "-" + mm + "-" + dd
  {
    assert '.' !in dd && '.' !in mm && '.' !in yy by {
      NoPointInDigits(dd);
      NoPointInDigits(mm);
      NoPointInDigits(yy);
    }
    var g := dd + "." + mm + "." + yy;
    var parts := Split(g, '.');
    assert parts == [dd, mm, yy] by {
      SplitThree(dd, mm, yy, '.');
    }
    var joined := Join(Reverse(parts), "-");
    assert joined == yy + "-" + (mm + "-" + dd) by {
      assert Reverse(parts) == [yy, mm, dd];
      JoinThree(yy, mm, dd, "-");
    }
    assert "20" + joined == "20" + yy + "-" + mm + "-" + dd;
  }

  lemma NoPointInDigits(ds: string)
    requires All(ds, Digit)
    ensures '.' !in ds
  {
  }

  /**
   * `parseAvailableFrom(text)`, with `before(d)` standing for
   * `new Date(d).getTime() < new Date().getTime()`. An empty text is falsy
   * and gives nothing; a date wins over `sofort`; `sofort` anywhere in the
   * text, with that case, means available now.
   */
  function ParseAvailableFrom(text: string, before: string -> bool): (r: Availability)
    ensures text == "" ==> r == Availability(None, false)
    ensures r.availableFrom.Some? <==> DateGroup(text).Some?
    ensures r.availableFrom.Some? ==> r.isAvailable == before(r.availableFrom.value)
    ensures r.availableFrom.None? ==> (r.isAvailable <==> text != "" && Contains(text, "sofort"))
  {
    if text != "" then
      match DateGroup(text)
      case Some(group) =>
        var dateStr := DateString(group);
        Availability(Some(dateStr), before(dateStr))
      case None =>
        if Contains(text, "sofort") then Availability(None, true)
        else Availability(None, false)
    else
      Availability(None, false)
  }

  /**
   * A date at the end of the text decides, even when `sofort` comes before
   * it: `sofort ab 01.03.24` yields the date `2024-03-01`.
   */
  lemma DateWins(text: string, pre: string, dd: string, mm: string, yy: string, ws: string, before: string -> bool)
    requires DateShape(text, pre, dd, mm, yy, ws)
    ensures ParseAvailableFrom(text, before).availableFrom == Some("20" + yy + "-" + mm + "-" + dd)
  {
    DateGroupComplete(text, pre, dd, mm, yy, ws);
    DateStringOfParts(dd, mm, yy);
  }

  /**
   * Without a date the text counts as available exactly when `sofort`
   * occurs in it somewhere.
   */
  lemma SofortIff(text: string, before: string -> bool)
    requires forall pre, dd, mm, yy, ws :: !DateShape(text, pre, dd, mm, yy, ws)
    ensures ParseAvailableFrom(text, before).availableFrom.None?
    ensures ParseAvailableFrom(text, before).isAvailable <==> exists k :: OccursAt(text, "sofort", k)
  {
    if DateGroup(text).Some? {
      DateGroupSound(text);
    }
    if text == "" {
      assert forall k :: !OccursAt(text, "sofort", k);
    }
  }
}
