/**
  The footer of key hints (src/action.rs): hints are packed greedily into rows, and the longest prefix of them
  that packs into two rows is shown, with a help hint that says whether any are hidden.
 */
module Footer {
  import opened Wrappers

  const FOOTER_MAX_ROWS: nat := 2

  /** The actions the footer tells apart; every other one is an `OtherAction`. */
  datatype ActionId = ViewHelp | ViewCommandLine | ViewFilter | DetailSearch | OtherAction(id: nat)

  datatype FooterHint = FooterHint(actionId: ActionId, key: string, caption: string) {
    function Width(): nat { |key| + 1 + |caption| }
  }

  // ----- rows

  /** A row's hints are two columns apart. */
  function RowWidth(row: seq<FooterHint>): nat {
    if row == [] then 0
    else
      var n := |row| - 1;
      RowWidth(row[..n]) + (if n == 0 then 0 else 2) + row[n].Width()
  }

  /** `FooterHint::text`, and a row as it is drawn. */
  function Text(hint: FooterHint): string {
    hint.key + " " + hint.caption
  }

  function Drawn(row: seq<FooterHint>): string {
    if row == [] then ""
    else if |row| == 1 then Text(row[0])
    else Text(row[0]) + "  " + Drawn(row[1..])
  }

  lemma {:induction false} DrawnAppends(row: seq<FooterHint>, hint: FooterHint)
    ensures Drawn(row + [hint]) == if row == [] then Text(hint) else Drawn(row) + "  " + Text(hint)
  {
    if row == [] {
      assert row + [hint] == [hint];
    } else {
      DrawnAppends(row[1..], hint);
      assert (row + [hint])[1..] == row[1..] + [hint];
    }
  }

  /** The width that rows are packed by is the number of characters drawn. */
  lemma {:induction false} WidthIsDrawn(row: seq<FooterHint>)
    ensures RowWidth(row) == |Drawn(row)|
  {
    if row != [] {
      var n := |row| - 1;
      WidthIsDrawn(row[..n]);
      DrawnAppends(row[..n], row[n]);
      assert row[..n] + [row[n]] == row;
    }
  }

  function Flatten(rows: seq<seq<FooterHint>>): seq<FooterHint> {
    if rows == [] then [] else rows[0] + Flatten(rows[1..])
  }

  /** How many hints the first row takes when `n` are in it: more as long as they fit. */
  function Extend(hints: seq<FooterHint>, width: nat, n: nat): (m: nat)
    requires 1 <= n <= |hints|
    ensures n <= m <= |hints|
    decreases |hints| - n
  {
    if n < |hints| && RowWidth(hints[..n + 1]) <= width then Extend(hints, width, n + 1) else n
  }

  lemma {:induction false} ExtendIsMaximal(hints: seq<FooterHint>, width: nat, n: nat)
    requires 1 <= n <= |hints|
    ensures var m := Extend(hints, width, n);
            && (m > n ==> RowWidth(hints[..m]) <= width)
            && (m < |hints| ==> RowWidth(hints[..m + 1]) > width)
    decreases |hints| - n
  {
    if n < |hints| && RowWidth(hints[..n + 1]) <= width {
      ExtendIsMaximal(hints, width, n + 1);
    }
  }

  function Greedy(hints: seq<FooterHint>, width: nat): seq<seq<FooterHint>>
    decreases |hints|
  {
    if hints == [] then []
    else
      var n := Extend(hints, width, 1);
      [hints[..n]] + Greedy(hints[n..], width)
  }

  lemma EmptyRowWidth()
    ensures RowWidth([]) == 0
  {
  }

  /** The rows so far are greedy rows, and the last one is the start of the next greedy row. */
  ghost predicate GreedySoFar(hints: seq<FooterHint>, width: nat, rows: seq<seq<FooterHint>>, i: nat)
    requires i <= |hints|
  {
    && rows != []
    && var row := rows[|rows| - 1];
       && row != []
       && Extend(row + hints[i..], width, 1) == Extend(row + hints[i..], width, |row|)
       && Greedy(hints, width) == rows[..|rows| - 1] + Greedy(row + hints[i..], width)
  }

  /** The rows after one more hint. */
  function Placed(rows: seq<seq<FooterHint>>, hint: FooterHint, width: nat): seq<seq<FooterHint>>
    requires rows != []
  {
    var last := |rows| - 1;
    if rows[last] != [] && RowWidth(rows[last]) + 2 + hint.Width() > width then rows + [[hint]]
    else rows[last := rows[last] + [hint]]
  }

  lemma RowWidthAppends(row: seq<FooterHint>, hint: FooterHint)
    ensures RowWidth(row + [hint]) == RowWidth(row) + (if row == [] then 0 else 2) + hint.Width()
  {
    assert (row + [hint])[..|row|] == row;
  }

  lemma FirstHintIsGreedy(hints: seq<FooterHint>, width: nat)
    requires hints != []
    ensures GreedySoFar(hints, width, [[hints[0]]], 1)
  {
    hide Greedy, Extend, RowWidth;
    assert [hints[0]] + hints[1..] == hints;
    assert [[hints[0]]][..0] + Greedy(hints, width) == Greedy(hints, width);
  }

  /** A row that the next hint does not fit in is a whole greedy row. */
  lemma RowCloses(row: seq<FooterHint>, rest: seq<FooterHint>, width: nat)
    requires row != [] && rest != []
    requires Extend(row + rest, width, 1) == Extend(row + rest, width, |row|)
    requires RowWidth(row + [rest[0]]) > width
    ensures Greedy(row + rest, width) == [row] + Greedy(rest, width)
  {
    hide RowWidth;
    var all := row + rest;
    assert all[..|row| + 1] == row + [rest[0]];
    assert all[..|row|] == row && all[|row|..] == rest;
  }

  lemma NextRowIsGreedy(hints: seq<FooterHint>, width: nat, rows: seq<seq<FooterHint>>, i: nat)
    requires i < |hints| && GreedySoFar(hints, width, rows, i)
    requires RowWidth(rows[|rows| - 1]) + 2 + hints[i].Width() > width
    ensures GreedySoFar(hints, width, rows + [[hints[i]]], i + 1)
  {
    hide Greedy, Extend, RowWidth;
    var row, rest := rows[|rows| - 1], hints[i..];
    RowWidthAppends(row, hints[i]);
    RowCloses(row, rest, width);
    assert [hints[i]] + hints[i + 1..] == rest;
    assert (rows + [[hints[i]]])[..|rows|] == rows[..|rows| - 1] + [row];
    assert rows[..|rows| - 1] + ([row] + Greedy(rest, width)) == rows[..|rows| - 1] + [row] + Greedy(rest, width);
  }

  lemma NextHintIsGreedy(hints: seq<FooterHint>, width: nat, rows: seq<seq<FooterHint>>, i: nat)
    requires i < |hints| && GreedySoFar(hints, width, rows, i)
    requires RowWidth(rows[|rows| - 1]) + 2 + hints[i].Width() <= width
    ensures GreedySoFar(hints, width, rows[|rows| - 1 := rows[|rows| - 1] + [hints[i]]], i + 1)
  {
    hide Greedy, RowWidth;
    var row := rows[|rows| - 1];
    var all := row + hints[i..];
    var after := rows[|rows| - 1 := row + [hints[i]]];
    RowWidthAppends(row, hints[i]);
    assert all[..|row| + 1] == row + [hints[i]];
    assert row + [hints[i]] + hints[i + 1..] == all;
    assert after[..|after| - 1] == rows[..|rows| - 1];
  }

  lemma PlacingIsGreedy(hints: seq<FooterHint>, width: nat, rows: seq<seq<FooterHint>>, i: nat)
    requires i < |hints| && rows != []
    requires if i == 0 then rows == [[]] else rows[|rows| - 1] != [] && GreedySoFar(hints, width, rows, i)
    ensures GreedySoFar(hints, width, Placed(rows, hints[i], width), i + 1)
    ensures var row, after := rows[|rows| - 1], Placed(rows, hints[i], width);
            RowWidth(after[|after| - 1])
            == (if |after| > |rows| || row == [] then 0 else RowWidth(row) + 2) + hints[i].Width()
  {
    hide Greedy, Extend, RowWidth, GreedySoFar;
    RowWidthAppends(rows[|rows| - 1], hints[i]);
    RowWidthAppends([], hints[i]);
    EmptyRowWidth();
    assert [] + [hints[i]] == [hints[i]];
    if i == 0 {
      assert Placed(rows, hints[i], width) == [[hints[0]]];
      FirstHintIsGreedy(hints, width);
    } else if RowWidth(rows[|rows| - 1]) + 2 + hints[i].Width() > width {
      NextRowIsGreedy(hints, width, rows, i);
    } else {
      NextHintIsGreedy(hints, width, rows, i);
    }
  }

  lemma LastRowIsGreedy(hints: seq<FooterHint>, width: nat, rows: seq<seq<FooterHint>>)
    requires GreedySoFar(hints, width, rows, |hints|)
    ensures rows == Greedy(hints, width)
  {
    hide RowWidth;
    var row := rows[|rows| - 1];
    assert row + hints[|hints|..] == row;
    assert row[..|row|] == row && row[|row|..] == [];
    assert Greedy(row, width) == [row];
    assert rows == rows[..|rows| - 1] + [row];
  }

  /** `footer_rows`: the greedy rows, and one empty row when there is nothing to show. */
  method FooterRows(hints: seq<FooterHint>, width: nat) returns (rows: seq<seq<FooterHint>>)
    ensures rows == if hints == [] then [[]] else Greedy(hints, width)
  {
    hide Greedy, Extend, RowWidth, GreedySoFar;
    rows := [[]];
    var used := 0;
    assert RowWidth([]) == 0 by { EmptyRowWidth(); }
    var i := 0;
    while i < |hints|
      invariant i <= |hints| && rows != []
      invariant used == RowWidth(rows[|rows| - 1])
      invariant if i == 0 then rows == [[]] else rows[|rows| - 1] != [] && GreedySoFar(hints, width, rows, i)
    {
      ghost var before := rows;
      var hint := hints[i];
      var separator := if rows[|rows| - 1] == [] then 0 else 2;
      if used + separator + hint.Width() > width && rows[|rows| - 1] != [] {
        rows := rows + [[]];
        used := 0;
      }
      separator := if rows[|rows| - 1] == [] then 0 else 2;
      used := used + separator + hint.Width();
      rows := rows[|rows| - 1 := rows[|rows| - 1] + [hint]];
      PlacingIsGreedy(hints, width, before, i);
      assert [] + [hint] == [hint];
      assert (before + [[]])[|before| := [] + [hint]] == before + [[hint]];
      assert rows == Placed(before, hint, width);
      i := i + 1;
    }
    if i > 0 {
      LastRowIsGreedy(hints, width, rows);
    }
  }

  // ----- the greedy rows are best

  /** A row is acceptable when it fits, or when it is a single hint, which no packing can help. */
  predicate Acceptable(row: seq<FooterHint>, width: nat) {
    |row| <= 1 || RowWidth(row) <= width
  }

  ghost predicate Splits(rows: seq<seq<FooterHint>>, hints: seq<FooterHint>, width: nat) {
    Flatten(rows) == hints && forall k :: 0 <= k < |rows| ==> Acceptable(rows[k], width)
  }

  lemma {:induction false} GreedySplits(hints: seq<FooterHint>, width: nat)
    ensures Splits(Greedy(hints, width), hints, width)
    ensures forall k :: 0 <= k < |Greedy(hints, width)| ==> Greedy(hints, width)[k] != []
    decreases |hints|
  {
    if hints != [] {
      var n := Extend(hints, width, 1);
      ExtendIsMaximal(hints, width, 1);
      GreedySplits(hints[n..], width);
      assert hints == hints[..n] + hints[n..];
    }
  }

  lemma {:induction false} DroppingFirstNarrows(row: seq<FooterHint>)
    requires row != []
    ensures RowWidth(row[1..]) + row[0].Width() <= RowWidth(row)
    decreases |row|
  {
    var n := |row| - 1;
    if n > 0 {
      DroppingFirstNarrows(row[..n]);
      assert row[1..][..n - 1] == row[..n][1..];
    }
  }

  lemma {:induction false} PartsAreNarrower(hints: seq<FooterHint>, from: nat, to: nat, n: nat)
    requires from <= to <= n <= |hints|
    ensures RowWidth(hints[from..to]) <= RowWidth(hints[..n])
    decreases from, n
  {
    if to < n {
      PartsAreNarrower(hints, from, to, n - 1);
      assert hints[..n][..n - 1] == hints[..n - 1];
    } else if from > 0 {
      PartsAreNarrower(hints, from - 1, to, n);
      DroppingFirstNarrows(hints[from - 1..to]);
      assert hints[from - 1..to][1..] == hints[from..to];
    }
  }

  /** No acceptable first row is longer than the greedy one. */
  lemma FirstRowIsLongest(hints: seq<FooterHint>, width: nat, n: nat)
    requires 1 <= n <= |hints| && Acceptable(hints[..n], width)
    ensures n <= Extend(hints, width, 1)
  {
    var m := Extend(hints, width, 1);
    ExtendIsMaximal(hints, width, 1);
    if m < n {
      PartsAreNarrower(hints, 0, m + 1, n);
    }
  }

  /** Starting inside the first row, the first row ends where it did or later. */
  lemma GreedyRowsEndNoEarlier(hints: seq<FooterHint>, width: nat, j: nat)
    requires 0 < j < |hints| && j < Extend(hints, width, 1)
    ensures Extend(hints, width, 1) <= j + Extend(hints[j..], width, 1)
  {
    var n := Extend(hints, width, 1);
    ExtendIsMaximal(hints, width, 1);
    PartsAreNarrower(hints, j, n, n);
    assert hints[j..][..n - j] == hints[j..n];
    FirstRowIsLongest(hints[j..], width, n - j);
  }

  /** Starting later never takes more greedy rows. */
  lemma {:induction false} SuffixNeedsNoMoreRows(hints: seq<FooterHint>, width: nat, j: nat)
    requires j <= |hints|
    ensures |Greedy(hints[j..], width)| <= |Greedy(hints, width)|
    decreases |hints|
  {
    hide RowWidth, Extend;
    if j == |hints| {
    } else if j == 0 {
      assert hints[j..] == hints;
    } else {
      var n := Extend(hints, width, 1);
      if n <= j {
        SuffixNeedsNoMoreRows(hints[n..], width, j - n);
        assert hints[n..][j - n..] == hints[j..];
      } else {
        var rest := hints[j..];
        GreedyRowsEndNoEarlier(hints, width, j);
        var m := Extend(rest, width, 1);
        SuffixNeedsNoMoreRows(hints[n..], width, j + m - n);
        assert hints[n..][j + m - n..] == rest[m..];
      }
    }
  }

  /** Greedy packing is optimal: no split of the same hints, in order, into acceptable rows has fewer rows. */
  lemma {:induction false} GreedyIsOptimal(hints: seq<FooterHint>, width: nat, rows: seq<seq<FooterHint>>)
    requires Splits(rows, hints, width)
    ensures |Greedy(hints, width)| <= |rows|
    decreases |rows|
  {
    hide RowWidth, Extend;
    if hints != [] {
      var n := |rows[0]|;
      assert hints[..n] == rows[0] && hints[n..] == Flatten(rows[1..]);
      GreedyIsOptimal(hints[n..], width, rows[1..]);
      if n == 0 {
        assert hints[n..] == hints;
      } else {
        FirstRowIsLongest(hints, width, n);
        var m := Extend(hints, width, 1);
        SuffixNeedsNoMoreRows(hints[n..], width, m - n);
        assert hints[n..][m - n..] == hints[m..];
      }
    }
  }

  /** The greedy row count never grows with the width. */
  lemma WiderNeedsNoMoreRows(hints: seq<FooterHint>, narrow: nat, wide: nat)
    requires narrow <= wide
    ensures |Greedy(hints, wide)| <= |Greedy(hints, narrow)|
  {
    GreedySplits(hints, narrow);
    GreedyIsOptimal(hints, wide, Greedy(hints, narrow));
  }

  ghost predicate AllFit(rows: seq<seq<FooterHint>>, width: nat) {
    forall k :: 0 <= k < |rows| ==> RowWidth(rows[k]) <= width
  }

  predicate EachFits(hints: seq<FooterHint>, width: nat) {
    forall k :: 0 <= k < |hints| ==> hints[k].Width() <= width
  }

  lemma HintIsNoWider(row: seq<FooterHint>, k: nat)
    requires k < |row|
    ensures row[k].Width() <= RowWidth(row)
  {
    PartsAreNarrower(row, k, k + 1, |row|);
    assert row[..|row|] == row && row[k..k + 1] == [row[k]];
    assert [row[k]][..0] == [];
  }

  lemma {:induction false} RowsHoldEveryHint(rows: seq<seq<FooterHint>>, width: nat)
    ensures AllFit(rows, width) ==> EachFits(Flatten(rows), width)
    decreases |rows|
  {
    if rows != [] {
      RowsHoldEveryHint(rows[1..], width);
      if AllFit(rows, width) {
        assert AllFit(rows[1..], width) by {
          assert forall k :: 0 <= k < |rows[1..]| ==> rows[1..][k] == rows[k + 1];
        }
        forall k | 0 <= k < |Flatten(rows)|
          ensures Flatten(rows)[k].Width() <= width
        {
          if k < |rows[0]| { HintIsNoWider(rows[0], k); }
        }
      }
    }
  }

  lemma {:induction false} SingleRowsFit(rows: seq<seq<FooterHint>>, width: nat)
    requires forall k :: 0 <= k < |rows| ==> Acceptable(rows[k], width)
    requires EachFits(Flatten(rows), width)
    ensures AllFit(rows, width)
    decreases |rows|
  {
    if rows != [] {
      var flat, rest := Flatten(rows), Flatten(rows[1..]);
      forall k | 0 <= k < |rest|
        ensures rest[k].Width() <= width
      {
        assert flat[k + |rows[0]|] == rest[k];
      }
      SingleRowsFit(rows[1..], width);
      if |rows[0]| == 1 {
        assert flat[0] == rows[0][0];
        assert rows[0][..0] == [];
      }
    }
  }

  /** Every greedy row fits exactly when every hint fits alone; then no split into fitting rows has fewer. */
  lemma FooterRowsFit(hints: seq<FooterHint>, width: nat)
    ensures AllFit(Greedy(hints, width), width) <==> EachFits(hints, width)
    ensures forall rows: seq<seq<FooterHint>> :: Flatten(rows) == hints && AllFit(rows, width) ==>
              |Greedy(hints, width)| <= |rows|
  {
    var greedy := Greedy(hints, width);
    GreedySplits(hints, width);
    RowsHoldEveryHint(greedy, width);
    if EachFits(hints, width) {
      SingleRowsFit(greedy, width);
    }
    forall rows: seq<seq<FooterHint>> | Flatten(rows) == hints && AllFit(rows, width)
      ensures |greedy| <= |rows|
    {
      GreedyIsOptimal(hints, width, rows);
    }
  }

  // ----- what the footer shows

  predicate LeadsTheFooter(hint: FooterHint) {
    hint.actionId.ViewCommandLine? || hint.actionId.ViewFilter? || hint.actionId.DetailSearch?
  }

  /** How many hints come before the help hint. */
  function HelpIndex(hints: seq<FooterHint>): (n: nat)
    ensures n <= |hints|
  {
    if hints == [] || !LeadsTheFooter(hints[0]) then 0 else 1 + HelpIndex(hints[1..])
  }

  function HelpHint(hidden: bool): FooterHint {
    FooterHint(ViewHelp, "?", if hidden then "more" else "help")
  }

  /** The footer with the first `visible` hints in it. */
  function WithHelp(available: seq<FooterHint>, visible: nat): seq<FooterHint>
    requires visible <= |available|
  {
    var hints := available[..visible];
    hints[..HelpIndex(hints)] + [HelpHint(visible < |available|)] + hints[HelpIndex(hints)..]
  }

  lemma HelpIsAlwaysThere(available: seq<FooterHint>, visible: nat)
    requires visible <= |available|
    ensures WithHelp(available, visible) != []
  {
  }

  /** A help hint at `at`, after all the leading hints, that says whether any of the others is hidden. */
  ghost predicate HelpStandsAt(hints: seq<FooterHint>, at: nat, others: seq<FooterHint>, hidden: bool) {
    && at < |hints|
    && hints[at].actionId == ViewHelp && Text(hints[at]) == (if hidden then "? more" else "? help")
    && hints[..at] + hints[at + 1..] == others
    && (forall k :: 0 <= k < at ==> LeadsTheFooter(hints[k]))
    && (at + 1 < |hints| ==> !LeadsTheFooter(hints[at + 1]))
  }

  lemma {:induction false} LeadersComeFirst(hints: seq<FooterHint>)
    ensures forall k :: 0 <= k < HelpIndex(hints) ==> LeadsTheFooter(hints[k])
    ensures HelpIndex(hints) < |hints| ==> !LeadsTheFooter(hints[HelpIndex(hints)])
  {
    if hints != [] {
      LeadersComeFirst(hints[1..]);
    }
  }

  lemma HelpIsHelp(hidden: bool)
    ensures HelpHint(hidden).actionId == ViewHelp
  {
  }

  lemma HelpText(hidden: bool)
    ensures Text(HelpHint(hidden)) == if hidden then "? more" else "? help"
  {
    var caption := if hidden then "more" else "help";
    assert "?" + " " + caption == if hidden then "? more" else "? help";
  }

  lemma InsertedAt<T>(items: seq<T>, at: nat, item: T)
    requires at <= |items|
    ensures var all := items[..at] + [item] + items[at..];
            && |all| == |items| + 1 && all[at] == item
            && all[..at] + all[at + 1..] == items
            && (forall k :: 0 <= k < at ==> all[k] == items[k])
            && (at < |items| ==> all[at + 1] == items[at])
  {
  }

  /** The footer is a prefix of the available hints, in order, with the help hint after the leading ones. */
  lemma HelpStandsAfterTheLeaders(available: seq<FooterHint>, visible: nat)
    requires visible <= |available|
    ensures HelpStandsAt(WithHelp(available, visible), HelpIndex(available[..visible]),
                         available[..visible], visible < |available|)
  {
    hide Text, HelpHint, HelpIndex, LeadsTheFooter;
    var hints, hidden := available[..visible], visible < |available|;
    LeadersComeFirst(hints);
    InsertedAt(hints, HelpIndex(hints), HelpHint(hidden));
    HelpText(hidden);
    HelpIsHelp(hidden);
  }

  predicate CanShow(available: seq<FooterHint>, visible: nat, width: nat)
    requires visible <= |available|
  {
    var hints := WithHelp(available, visible);
    |Greedy(hints, width)| <= FOOTER_MAX_ROWS && EachFits(hints, width)
  }

  /** The most hints, up to `visible`, that can be shown. */
  function MostShown(available: seq<FooterHint>, visible: nat, width: nat): (most: Option<nat>)
    requires visible <= |available|
    ensures most.Some? ==> most.value <= visible
  {
    if CanShow(available, visible, width) then Some(visible)
    else if visible == 0 then None
    else MostShown(available, visible - 1, width)
  }

  lemma {:induction false} MostShownIsMost(available: seq<FooterHint>, visible: nat, width: nat, v: nat)
    requires v <= visible <= |available|
    ensures var most := MostShown(available, visible, width);
            && (most.Some? ==> CanShow(available, most.value, width))
            && (CanShow(available, v, width) ==> most.Some? && v <= most.value)
    decreases visible
  {
    hide CanShow;
    if !CanShow(available, visible, width) && visible > 0 {
      MostShownIsMost(available, visible - 1, width, if v < visible then v else 0);
    }
  }

  /** `footer_actions_filtered`, from the hints that apply, in order of priority. */
  method FooterActions(available: seq<FooterHint>, width: nat) returns (hints: seq<FooterHint>)
    ensures hints == match MostShown(available, |available|, width)
                     case None => []
                     case Some(visible) => WithHelp(available, visible)
  {
    hide Greedy, Extend, RowWidth, WithHelp;
    var visible: nat := |available|;
    while true
      invariant visible <= |available|
      invariant MostShown(available, |available|, width) == MostShown(available, visible, width)
      decreases visible
    {
      var candidate := WithHelp(available, visible);
      HelpIsAlwaysThere(available, visible);
      var rows := FooterRows(candidate, width);
      var fits := true;
      var k := 0;
      while k < |candidate|
        invariant k <= |candidate|
        invariant fits == forall j :: 0 <= j < k ==> candidate[j].Width() <= width
      {
        fits := fits && candidate[k].Width() <= width;
        k := k + 1;
      }
      if |rows| <= FOOTER_MAX_ROWS && fits {
        return candidate;
      }
      if visible == 0 {
        return [];
      }
      visible := visible - 1;
    }
  }

  /**
    The footer is as full as two rows allow: a prefix can be shown exactly when some split of it into at most two
    fitting rows exists.
   */
  lemma CanShowExactly(available: seq<FooterHint>, visible: nat, width: nat)
    requires visible <= |available|
    ensures CanShow(available, visible, width) <==>
              exists rows: seq<seq<FooterHint>> ::
                Flatten(rows) == WithHelp(available, visible) && AllFit(rows, width) && |rows| <= 2
  {
    hide Greedy, WithHelp, RowWidth;
    var hints := WithHelp(available, visible);
    FooterRowsFit(hints, width);
    GreedySplits(hints, width);
    if rows: seq<seq<FooterHint>> :| Flatten(rows) == hints && AllFit(rows, width) && |rows| <= FOOTER_MAX_ROWS {
      RowsHoldEveryHint(rows, width);
    }
  }

  /** Widening the terminal never hides an action: what is visible only grows, by whole hints at the end. */
  lemma WideningNeverHides(available: seq<FooterHint>, narrow: nat, wide: nat)
    requires narrow <= wide
    ensures var before, after := MostShown(available, |available|, narrow), MostShown(available, |available|, wide);
            before.Some? ==>
              && after.Some? && before.value <= after.value
              && available[..before.value] <= available[..after.value]
  {
    hide MostShown, Greedy, WithHelp;
    var before := MostShown(available, |available|, narrow);
    if before.Some? {
      MostShownIsMost(available, |available|, narrow, 0);
      WiderNeedsNoMoreRows(WithHelp(available, before.value), narrow, wide);
      MostShownIsMost(available, |available|, wide, before.value);
    }
  }
}
