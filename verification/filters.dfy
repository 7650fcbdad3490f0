/** The filter engine behind the inline buttons: `button_handler` records the
    user's filter and combination choices, and `export_results` selects the
    rows of the last batch that match them. Retry times are compared with
    the current time `now`, in whole seconds. */
module Filters {
  import opened Base
  import opened Text
  import opened Verdict
  import opened Batch

  const FilterPrefix: string := "filter_"
  const ComboPrefix: string := "combo_"

  /** `current_filter` and `combo_filter` of the user's session; the empty
      string stands for a key that was never set, as `.get(key, '')` reads it. */
  datatype Choice = Choice(currentFilter: string, comboFilter: string)

  predicate StartsWith(s: string, prefix: string) {
    |s| >= |prefix| && s[..|prefix|] == prefix
  }

  /** The row has a retry time still in the future. */
  predicate RetryPending(r: CheckResult, now: int) {
    r.nextRetry.Some? && r.nextRetry.value > now
  }

  /** The `both_and` test: not on WhatsApp, and no retry time or one still in
      the future. */
  predicate BothAnd(r: CheckResult, now: int) {
    IsOff(r) && (r.nextRetry.None? || r.nextRetry.value > now)
  }

  /** The `both_or` test: not on WhatsApp, or no retry time, or one still in
      the future. */
  predicate BothOr(r: CheckResult, now: int) {
    IsOff(r) || r.nextRetry.None? || r.nextRetry.value > now
  }

  function RetryPendingAt(now: int): CheckResult -> bool { r => RetryPending(r, now) }
  function BothAndAt(now: int): CheckResult -> bool { r => BothAnd(r, now) }
  function BothOrAt(now: int): CheckResult -> bool { r => BothOr(r, now) }

  /** The row test a choice stands for, `None` when the choice leaves the rows
      as they are. The named filter is looked at first; the combination only
      when the named filter is none of `on`, `off` and `retry`. */
  function Criterion(c: Choice, now: int): Option<CheckResult -> bool>
  {
    if c.currentFilter == "on" then Some(IsOn)
    else if c.currentFilter == "off" then Some(IsOff)
    else if c.currentFilter == "retry" then Some(RetryPendingAt(now))
    else if c.comboFilter == "both_and" then Some(BothAndAt(now))
    else if c.comboFilter == "both_or" then Some(BothOrAt(now))
    else None
  }

  /** The rows a filtered export keeps: those passing the chosen test, in
      their batch order. */
  function Select(results: seq<CheckResult>, c: Choice, now: int): (rows: seq<CheckResult>)
    ensures IsSubsequence(rows, results)
    ensures Criterion(c, now).None? ==> rows == results
    ensures Criterion(c, now).Some? ==> forall i :: 0 <= i < |rows| ==> Criterion(c, now).value(rows[i])
  {
    match Criterion(c, now)
    case None =>
      SubsequenceRefl(results);
      results
    case Some(p) =>
      FilterIsSubsequence(p, results);
      Filter(p, results)
  }

  /** What an export answers. */
  datatype ExportOutcome = NoResults | NoMatches | Exported(rows: seq<CheckResult>, desc: string)

  /** `export_results`: with no rows from a batch nothing is exported; the
      "all" export takes every row; otherwise the selection is exported,
      described by the named filter or, when it is unset, the combination. */
  function Export(results: seq<CheckResult>, c: Choice, exportAll: bool, now: int): (e: ExportOutcome)
    ensures e.NoResults? <==> |results| == 0
    ensures exportAll && |results| > 0 ==> e == Exported(results, "all")
    ensures !exportAll && |results| > 0 ==>
              (e.NoMatches? <==> |Select(results, c, now)| == 0)
    ensures e.Exported? ==> |e.rows| > 0 && IsSubsequence(e.rows, results)
    ensures e.Exported? && !exportAll ==> e.rows == Select(results, c, now)
    ensures e.Exported? && !exportAll ==>
              e.desc == if c.currentFilter != "" then c.currentFilter else c.comboFilter
  {
    if |results| == 0 then NoResults
    else
      var rows := if exportAll then results else Select(results, c, now);
      var desc := if exportAll then "all" else if c.currentFilter != "" then c.currentFilter else c.comboFilter;
      SubsequenceRefl(results);
      if |rows| == 0 then NoMatches else Exported(rows, desc)
  }

  /** What pressing a button answers. */
  datatype Reply =
    | FilterMenu
    | FilterSet
    | ComboOptions
    | ComboSet(confirmed: bool)
    | ExportDone(outcome: ExportOutcome)
    | NoReply

  datatype Pressed = Pressed(choice: Choice, reply: Reply)

  /** `button_handler` for the callback `data`, tried in the source's order:
      the menu button, a `filter_` button, the two export buttons, a `combo_`
      button. Anything else changes nothing and answers nothing. */
  function Press(results: seq<CheckResult>, c: Choice, data: string, now: int): (p: Pressed)
    ensures p.choice.currentFilter != c.currentFilter ==> StartsWith(data, FilterPrefix) && data != "filter_menu"
    ensures p.choice.comboFilter != c.comboFilter ==> StartsWith(data, ComboPrefix)
    ensures p.choice.currentFilter == c.currentFilter || p.choice.comboFilter == c.comboFilter
    ensures p.reply.ExportDone? <==> data == "export_filtered" || data == "export_all"
    ensures p.reply.ExportDone? ==> p.choice == c && p.reply.outcome == Export(results, c, data == "export_all", now)
    ensures p.reply.NoReply? ==> p.choice == c
  {
    if data == "filter_menu" then Pressed(c, FilterMenu)
    else if StartsWith(data, FilterPrefix) then
      assert data[0] == FilterPrefix[0];
      var c' := c.(currentFilter := RemoveAll(data, FilterPrefix));
      Pressed(c', if data == "filter_combo" then ComboOptions else FilterSet)
    else if data == "export_filtered" || data == "export_all" then
      Pressed(c, ExportDone(Export(results, c, data == "export_all", now)))
    else if StartsWith(data, ComboPrefix) then
      var combo := RemoveAll(data, ComboPrefix);
      Pressed(c.(comboFilter := combo), ComboSet(combo == "both_and" || combo == "both_or"))
    else Pressed(c, NoReply)
  }

  /** Pressing the button for a named filter records that name, provided the
      name is not `menu` and lacks one of the prefix's characters (as `on`,
      `off`, `retry` and `combo` all lack `_`). */
  lemma PressFilterButton(results: seq<CheckResult>, c: Choice, name: string, k: nat, now: int)
    requires name != "menu"
    requires k < |FilterPrefix| && FilterPrefix[k] !in name
    ensures Press(results, c, FilterPrefix + name, now).choice == c.(currentFilter := name)
  {
    var data := FilterPrefix + name;
    assert data[..|FilterPrefix|] == FilterPrefix;
    assert data[|FilterPrefix|..] == name;
    RemoveAllLeading(FilterPrefix, name);
    RemoveAllMissingChar(name, FilterPrefix, k);
  }

  /** Pressing a combination button records its name, provided the name lacks
      one of the prefix's characters (as `both_and` and `both_or` lack `c`). */
  lemma PressComboButton(results: seq<CheckResult>, c: Choice, name: string, k: nat, now: int)
    requires k < |ComboPrefix| && ComboPrefix[k] !in name
    ensures Press(results, c, ComboPrefix + name, now).choice == c.(comboFilter := name)
  {
    var data := ComboPrefix + name;
    assert data[..|ComboPrefix|] == ComboPrefix;
    assert !StartsWith(data, FilterPrefix) by {
      assert data[0] != FilterPrefix[0];
    }
    assert data != "filter_menu" && data != "export_filtered" && data != "export_all" by {
      assert data[0] == 'c';
    }
    RemoveAllLeading(ComboPrefix, name);
    RemoveAllMissingChar(name, ComboPrefix, k);
  }

  /** A row is in the `retry` selection exactly when it is a batch row whose
      retry time is still in the future. */
  lemma RetrySelection(results: seq<CheckResult>, c: Choice, now: int, r: CheckResult)
    requires c.currentFilter == "retry"
    ensures r in Select(results, c, now) <==> r in results && RetryPending(r, now)
  {
    FilterMembership(RetryPendingAt(now), results, r);
  }

  /** The `on` and `off` selections share no row, and for the rows of a
      batch they add up to all of them. */
  lemma OnOffSplit(results: seq<CheckResult>, now: int)
    requires forall i :: 0 <= i < |results| ==> IsOn(results[i]) || IsOff(results[i])
    ensures |Select(results, Choice("on", ""), now)| + |Select(results, Choice("off", ""), now)| == |results|
    ensures forall r :: r in Select(results, Choice("on", ""), now) ==> r !in Select(results, Choice("off", ""), now)
  {
    CountsCover(results);
    forall r | r in Select(results, Choice("on", ""), now)
      ensures r !in Select(results, Choice("off", ""), now)
    {
      FilterMembership(IsOn, results, r);
      FilterMembership(IsOff, results, r);
    }
  }

  /** Whatever the named filter was, once it is none of the three recognised
      ones the combination decides; an unrecognised combination keeps every
      row. */
  lemma UnrecognisedChoiceKeepsAll(results: seq<CheckResult>, c: Choice, now: int)
    requires c.currentFilter !in {"on", "off", "retry"}
    requires c.comboFilter !in {"both_and", "both_or"}
    ensures Select(results, c, now) == results
  {
  }

  /** The `both_and` selection is an order-preserving part of the `both_or`
      one. */
  lemma BothAndWithinBothOr(results: seq<CheckResult>, name: string, now: int)
    requires name !in {"on", "off", "retry"}
    ensures IsSubsequence(Select(results, Choice(name, "both_and"), now),
                          Select(results, Choice(name, "both_or"), now))
  {
    FilterMonotone(BothAndAt(now), BothOrAt(now), results);
  }

  /** On the rows of a batch, where only numbers not on WhatsApp carry a
      retry time, `both_and` selects exactly what `retry` selects and
      `both_or` selects every row. */
  lemma CombosOnBatchRows(results: seq<CheckResult>, name: string, now: int)
    requires name !in {"on", "off", "retry"}
    requires forall i :: 0 <= i < |results| ==> ResultConsistent(results[i])
    ensures Select(results, Choice(name, "both_and"), now) == Select(results, Choice("retry", ""), now)
    ensures Select(results, Choice(name, "both_or"), now) == results
  {
    FilterSame(BothAndAt(now), RetryPendingAt(now), results);
    FilterKeepsAll(BothOrAt(now), results);
  }

  /** Two tests that agree on every row select the same rows. */
  lemma {:induction false} FilterSame(p: CheckResult -> bool, q: CheckResult -> bool, s: seq<CheckResult>)
    requires forall i :: 0 <= i < |s| ==> p(s[i]) == q(s[i])
    ensures Filter(p, s) == Filter(q, s)
    decreases |s|
  {
    if |s| > 0 {
      FilterSame(p, q, s[1..]);
    }
  }

  /** Choosing a filter and then pressing "Export Filtered" exports with that
      filter. */
  lemma ChooseThenExport(results: seq<CheckResult>, c: Choice, name: string, k: nat, now: int)
    requires name != "menu"
    requires k < |FilterPrefix| && FilterPrefix[k] !in name
    ensures var c' := Press(results, c, FilterPrefix + name, now).choice;
            Press(results, c', "export_filtered", now).reply
            == ExportDone(Export(results, c.(currentFilter := name), false, now))
  {
    PressFilterButton(results, c, name, k, now);
    assert !StartsWith("export_filtered", FilterPrefix) by {
      assert "export_filtered"[0] != FilterPrefix[0];
    }
  }
}
