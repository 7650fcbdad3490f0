/** `set_retry_and_check`: the reply to the retry question is read, then every
    extracted number is checked in order, recorded in the ledger under the
    text the user typed, and turned into a result row under its cleaned
    form; a progress report is made every five numbers and after the last
    one. Each number's timestamps come from a single clock reading, passed
    in as `times`. */
module Batch {
  import opened Base
  import opened Text
  import opened Phone
  import opened Verdict
  import opened Ledger

  const DefaultRetryHours: int := 24
  const MinRetryHours: int := 1
  const MaxRetryHours: int := 168

  /** A progress report is made after every this many numbers. */
  const ProgressEvery: nat := 5

  /** One row of `check_results`. `nextRetry` stands for the optional
      `next_retry` key. */
  datatype CheckResult = CheckResult(phone: string, status: Status, checkTime: int, nextRetry: Option<int>)

  predicate IsOn(r: CheckResult) { r.status == OnWhatsApp }

  predicate IsOff(r: CheckResult) { r.status == NotOnWhatsApp }

  /** A row carries a retry time exactly when its number was found not to be
      registered. */
  predicate ResultConsistent(r: CheckResult) {
    r.nextRetry.Some? <==> IsOff(r)
  }

  /** How the reply to the retry question is taken. */
  datatype RetryChoice = Hours(hours: int) | OutOfRange | NotANumber

  /** `text.lower() == '/skip'`. */
  predicate IsSkip(reply: string) {
    LowersTo(reply, "/skip")
  }

  predicate InRetryRange(h: int) {
    MinRetryHours <= h <= MaxRetryHours
  }

  /** The reply handling at the top of `set_retry_and_check`: `/skip` in any
      case keeps the default, anything else must parse as an integer in the
      accepted range. */
  function ChooseRetryHours(reply: string): (c: RetryChoice)
    ensures c.Hours? ==> InRetryRange(c.hours)
    ensures IsSkip(reply) ==> c == Hours(DefaultRetryHours)
    ensures c.Hours? <==> IsSkip(reply) || (ParseInt(reply).Some? && InRetryRange(ParseInt(reply).value))
    ensures c.NotANumber? <==> !IsSkip(reply) && ParseInt(reply).None?
    ensures c.Hours? && !IsSkip(reply) ==> ParseInt(reply) == Some(c.hours)
  {
    if IsSkip(reply) then Hours(DefaultRetryHours)
    else match ParseInt(reply)
      case None => NotANumber
      case Some(h) => if InRetryRange(h) then Hours(h) else OutOfRange
  }

  /** A number reply is never mistaken for `/skip`. */
  lemma DigitsAreNotSkip(reply: string)
    requires |reply| > 0 && IsDigit(reply[0])
    ensures !IsSkip(reply)
  {
    assert LowerChar(reply[0]) == reply[0];
  }

  /** Every hour count in the accepted range can be chosen by sending it. */
  lemma ChooseShownHours(n: nat)
    requires InRetryRange(n)
    ensures ChooseRetryHours(ShowNat(n)) == Hours(n)
  {
    ParseShowNat(n);
    DigitsAreNotSkip(ShowNat(n));
  }

  /** A reply holding a number behind an ASCII separator U+001C to U+001F
      is refused as not a number, since `int()` does not ignore it. */
  lemma SeparatorReplyIsNotANumber(c: char, n: nat)
    requires '\U{1C}' <= c <= '\U{1F}'
    ensures ChooseRetryHours([c] + ShowNat(n)) == NotANumber
  {
    var reply := [c] + ShowNat(n);
    assert LowerChar(reply[0]) == c;
    NoSlashNotSkip(reply);
    ParseIntRejectsSeparator(c, n);
  }

  lemma NoSlashNotSkip(reply: string)
    requires |reply| > 0 && LowerChar(reply[0]) != '/'
    ensures !IsSkip(reply)
  {
  }

  /** The row made for one number: the cleaned number, or the raw text should
      the cleaning come back empty, its status, and the retry time for numbers
      not on WhatsApp. */
  function ResultFor(raw: string, status: Status, retryHours: int, now: int): (r: CheckResult)
    ensures r.phone == Clean(raw) && IsCanonical(r.phone)
    ensures r.status == status && r.checkTime == now
    ensures ResultConsistent(r)
    ensures r.nextRetry.Some? ==> r.nextRetry.value == now + retryHours * SecondsPerHour
  {
    var cleaned := Clean(raw);
    var phone := if |cleaned| > 0 then cleaned else raw;
    var nextRetry := if status == NotOnWhatsApp then Some(now + retryHours * SecondsPerHour) else None;
    CheckResult(phone, status, now, nextRetry)
  }

  /** The rows of a batch, in input order. */
  function Results(numbers: seq<string>, retryHours: int, times: seq<int>): (rs: seq<CheckResult>)
    requires |times| == |numbers|
    ensures |rs| == |numbers|
    ensures forall i :: 0 <= i < |rs| ==> rs[i].phone == Clean(numbers[i]) && rs[i].checkTime == times[i]
    ensures forall i :: 0 <= i < |rs| ==> rs[i].status == CheckNumber(numbers[i])
    ensures forall i :: 0 <= i < |rs| ==> (IsOn(rs[i]) || IsOff(rs[i])) && ResultConsistent(rs[i])
    ensures forall i :: 0 <= i < |rs| && rs[i].nextRetry.Some? ==>
              rs[i].nextRetry.value == times[i] + retryHours * SecondsPerHour
  {
    seq(|numbers|, i requires 0 <= i < |numbers| => ResultFor(numbers[i], CheckNumber(numbers[i]), retryHours, times[i]))
  }

  /** The `update_status` calls of a batch: keyed by the raw input text. */
  function Updates(numbers: seq<string>, retryHours: int, times: seq<int>): (us: seq<Update>)
    requires |times| == |numbers|
    ensures Phones(us) == numbers
  {
    seq(|numbers|, i requires 0 <= i < |numbers| => Update(numbers[i], CheckNumber(numbers[i]), retryHours, times[i]))
  }

  /** Counts of the rows with either decided status. */
  function CountOn(rs: seq<CheckResult>): nat { |Filter(IsOn, rs)| }

  function CountOff(rs: seq<CheckResult>): nat { |Filter(IsOff, rs)| }

  /** One progress message: numbers done, numbers in the batch, and the
      counts of each verdict so far. */
  datatype Report = Report(processed: nat, total: nat, on: nat, off: nat)

  /** `i % 5 == 0 or i == len(numbers)`. */
  predicate ProgressDue(i: nat, total: nat) {
    i % ProgressEvery == 0 || i == total
  }

  function Snapshot(rs: seq<CheckResult>, total: nat): Report
  {
    Report(|rs|, total, CountOn(rs), CountOff(rs))
  }

  /** The reports made while the rows `rs` were produced, one after every
      row whose 1-based position is due. */
  function Reports(rs: seq<CheckResult>, total: nat): seq<Report>
    decreases |rs|
  {
    if |rs| == 0 then []
    else
      var prior := Reports(rs[..|rs| - 1], total);
      if ProgressDue(|rs|, total) then prior + [Snapshot(rs, total)] else prior
  }

  /** The checking loop: for each number, check it, record it, make its row
      and report progress when due. */
  method RunBatch(numbers: seq<string>, retryHours: int, times: seq<int>, ledger: Ledger)
    returns (results: seq<CheckResult>, ledger': Ledger, reports: seq<Report>)
    requires |times| == |numbers|
    ensures results == Results(numbers, retryHours, times)
    ensures ledger' == ApplyUpdates(ledger, Updates(numbers, retryHours, times))
    ensures reports == Reports(results, |numbers|)
  {
    ghost var all := Results(numbers, retryHours, times);
    ghost var us := Updates(numbers, retryHours, times);
    results, ledger', reports := [], ledger, [];
    for i := 0 to |numbers|
      invariant results == all[..i]
      invariant ledger' == ApplyUpdates(ledger, us[..i])
      invariant reports == Reports(results, |numbers|)
    {
      var number := numbers[i];
      var status := CheckNumber(number);
      ResultsStep(numbers, retryHours, times, i);
      UpdatesStep(numbers, retryHours, times, ledger, i);
      ledger' := UpdateStatus(ledger', number, status, retryHours, times[i]);
      var row := ResultFor(number, status, retryHours, times[i]);
      ReportsSnoc(results, row, |numbers|);
      results := results + [row];
      if ProgressDue(i + 1, |numbers|) {
        reports := reports + [Snapshot(results, |numbers|)];
      }
    }
    assert all[..|numbers|] == all && us[..|numbers|] == us;
  }

  lemma ResultsAt(numbers: seq<string>, retryHours: int, times: seq<int>, i: nat)
    requires |times| == |numbers| && i < |numbers|
    ensures Results(numbers, retryHours, times)[i] == ResultFor(numbers[i], CheckNumber(numbers[i]), retryHours, times[i])
  {
  }

  lemma SnocPrefix<T>(s: seq<T>, i: nat)
    requires i < |s|
    ensures s[..i + 1] == s[..i] + [s[i]]
  {
  }

  lemma ResultsStep(numbers: seq<string>, retryHours: int, times: seq<int>, i: nat)
    requires |times| == |numbers| && i < |numbers|
    ensures var all := Results(numbers, retryHours, times);
            all[..i + 1] == all[..i] + [ResultFor(numbers[i], CheckNumber(numbers[i]), retryHours, times[i])]
  {
    ResultsAt(numbers, retryHours, times, i);
    SnocPrefix(Results(numbers, retryHours, times), i);
  }

  /** One turn of the checking loop updates the ledger for the current
      number. */
  lemma UpdatesStep(numbers: seq<string>, retryHours: int, times: seq<int>, ledger: Ledger, i: nat)
    requires |times| == |numbers| && i < |numbers|
    ensures var us := Updates(numbers, retryHours, times);
            ApplyUpdates(ledger, us[..i + 1])
            == UpdateStatus(ApplyUpdates(ledger, us[..i]), numbers[i], CheckNumber(numbers[i]), retryHours, times[i])
  {
    var us := Updates(numbers, retryHours, times);
    var prefix := us[..i + 1];
    assert prefix[..i] == us[..i];
    assert prefix[i] == Update(numbers[i], CheckNumber(numbers[i]), retryHours, times[i]);
  }

  /** A new row adds a report exactly when its position is due. */
  lemma ReportsSnoc(rs: seq<CheckResult>, row: CheckResult, total: nat)
    ensures Reports(rs + [row], total)
            == Reports(rs, total) + if ProgressDue(|rs| + 1, total) then [Snapshot(rs + [row], total)] else []
  {
    assert (rs + [row])[..|rs|] == rs;
  }

  /** A batch can only report the two decided verdicts, so every progress
      report accounts for each number processed so far. */
  lemma {:induction false} ReportsBalanced(rs: seq<CheckResult>, total: nat)
    requires forall i :: 0 <= i < |rs| ==> IsOn(rs[i]) || IsOff(rs[i])
    ensures forall j :: 0 <= j < |Reports(rs, total)| ==>
              Reports(rs, total)[j].on + Reports(rs, total)[j].off == Reports(rs, total)[j].processed
    decreases |rs|
  {
    if |rs| > 0 {
      ReportsBalanced(rs[..|rs| - 1], total);
      CountsCover(rs);
    }
  }

  predicate IsUndecided(r: CheckResult) { !IsOn(r) && !IsOff(r) }

  /** With no undecided row, the two counts add up to the number of rows. */
  lemma CountsCover(rs: seq<CheckResult>)
    requires forall i :: 0 <= i < |rs| ==> IsOn(rs[i]) || IsOff(rs[i])
    ensures CountOn(rs) + CountOff(rs) == |rs|
  {
    FilterPartition3(IsOn, IsOff, IsUndecided, rs);
    FilterKeepsNone(IsUndecided, rs);
  }

  /** Whatever the rows, the two running counts never exceed the rows seen. */
  lemma CountsBound(rs: seq<CheckResult>)
    ensures CountOn(rs) + CountOff(rs) <= |rs|
  {
    FilterPartition3(IsOn, IsOff, IsUndecided, rs);
  }

  /** Every report is made at a due position and shows the counts of the
      rows up to that position; every due position reached has its report. */
  lemma ReportsAtDuePositions(rs: seq<CheckResult>, total: nat)
    ensures forall x :: x in Reports(rs, total) ==>
              1 <= x.processed <= |rs| && ProgressDue(x.processed, total)
              && x == Snapshot(rs[..x.processed], total)
    ensures forall m :: 1 <= m <= |rs| && ProgressDue(m, total) ==> Snapshot(rs[..m], total) in Reports(rs, total)
  {
    ReportsAreSnapshots(rs, total);
    DuePositionsReported(rs, total);
  }

  lemma {:induction false} ReportsAreSnapshots(rs: seq<CheckResult>, total: nat)
    ensures forall x :: x in Reports(rs, total) ==>
              1 <= x.processed <= |rs| && ProgressDue(x.processed, total)
              && x == Snapshot(rs[..x.processed], total)
    decreases |rs|
  {
    if |rs| > 0 {
      var prior := rs[..|rs| - 1];
      ReportsAreSnapshots(prior, total);
      forall m | 1 <= m <= |prior|
        ensures prior[..m] == rs[..m]
      {
      }
      assert rs[..|rs|] == rs;
    }
  }

  lemma {:induction false} DuePositionsReported(rs: seq<CheckResult>, total: nat)
    ensures forall m :: 1 <= m <= |rs| && ProgressDue(m, total) ==> Snapshot(rs[..m], total) in Reports(rs, total)
    decreases |rs|
  {
    if |rs| > 0 {
      var prior := rs[..|rs| - 1];
      DuePositionsReported(prior, total);
      forall m | 1 <= m <= |prior|
        ensures prior[..m] == rs[..m]
      {
      }
      assert rs[..|rs|] == rs;
    }
  }

  /** One report every five numbers, plus a final one when the batch size is
      not a multiple of five. */
  lemma {:induction false} ReportCount(rs: seq<CheckResult>, total: nat)
    requires |rs| <= total
    ensures |Reports(rs, total)|
            == |rs| / ProgressEvery + (if |rs| == total && total % ProgressEvery != 0 then 1 else 0)
    decreases |rs|
  {
    if |rs| > 0 {
      ReportCount(rs[..|rs| - 1], total);
    }
  }

  /** The last report of a non-empty batch covers the whole batch. */
  lemma FinalReport(rs: seq<CheckResult>)
    requires |rs| > 0
    ensures var reports := Reports(rs, |rs|);
            |reports| > 0 && reports[|reports| - 1] == Snapshot(rs, |rs|)
  {
  }

  /** The ledger's keys after a batch are the old keys and the raw inputs, so
      two spellings of the same number make two entries. */
  lemma BatchLedgerKeys(l: Ledger, numbers: seq<string>, retryHours: int, times: seq<int>)
    requires |times| == |numbers|
    ensures ApplyUpdates(l, Updates(numbers, retryHours, times)).Keys == l.Keys + set p | p in numbers
  {
    ApplyUpdatesKeys(l, Updates(numbers, retryHours, times));
  }

  /** A number that occurs `k` times in a batch has its attempts raised by
      `k`, even when its occurrences are duplicates within one batch. */
  lemma BatchAttempts(l: Ledger, numbers: seq<string>, retryHours: int, times: seq<int>, phone: string)
    requires |times| == |numbers|
    ensures PriorAttempts(ApplyUpdates(l, Updates(numbers, retryHours, times)), phone)
            == PriorAttempts(l, phone) + multiset(numbers)[phone]
  {
    AttemptsCountUpdates(l, Updates(numbers, retryHours, times), phone);
    UpdatesForCountsPhones(Updates(numbers, retryHours, times), phone);
  }

  /** A batch keeps a retry-consistent ledger retry-consistent, and every row
      it produces is retry-consistent. */
  lemma BatchConsistent(l: Ledger, numbers: seq<string>, retryHours: int, times: seq<int>)
    requires |times| == |numbers| && LedgerConsistent(l)
    ensures LedgerConsistent(ApplyUpdates(l, Updates(numbers, retryHours, times)))
    ensures forall i :: 0 <= i < |numbers| ==> ResultConsistent(Results(numbers, retryHours, times)[i])
  {
    UpdatesPreserveConsistency(l, Updates(numbers, retryHours, times));
  }

  /** What the conversation step answers. */
  datatype Outcome =
    | AskAgainRange
    | AskAgainNumber
    | NoNumbersToCheck
    | Completed(results: seq<CheckResult>, reports: seq<Report>, store: Store,
                retryHours: int, onCount: nat, offCount: nat)

  /** `set_retry_and_check`: the reply is judged before the pending numbers
      are looked at; a completed batch records the caller's activity at
      `finished` and the summary counts of its rows. */
  method SetRetryAndCheck(reply: string, numbers: seq<string>, times: seq<int>, finished: int,
                          userId: string, store: Store) returns (outcome: Outcome)
    requires |times| == |numbers|
    ensures outcome.AskAgainRange? <==> ChooseRetryHours(reply).OutOfRange?
    ensures outcome.AskAgainNumber? <==> ChooseRetryHours(reply).NotANumber?
    ensures outcome.NoNumbersToCheck? <==> ChooseRetryHours(reply).Hours? && |numbers| == 0
    ensures outcome.Completed? ==>
              && outcome.retryHours == ChooseRetryHours(reply).hours
              && outcome.results == Results(numbers, outcome.retryHours, times)
              && outcome.store.checked == ApplyUpdates(store.checked, Updates(numbers, outcome.retryHours, times))
              && outcome.store.users == store.users[userId := Activity(finished, |numbers|)]
              && outcome.reports == Reports(outcome.results, |numbers|)
              && outcome.onCount == CountOn(outcome.results)
              && outcome.offCount == CountOff(outcome.results)
              && outcome.onCount + outcome.offCount == |numbers|
              && |outcome.reports| > 0
              && outcome.reports[|outcome.reports| - 1] == Report(|numbers|, |numbers|, outcome.onCount, outcome.offCount)
  {
    var choice := ChooseRetryHours(reply);
    if choice.OutOfRange? {
      return AskAgainRange;
    } else if choice.NotANumber? {
      return AskAgainNumber;
    }
    if |numbers| == 0 {
      return NoNumbersToCheck;
    }
    var results, checked, reports := RunBatch(numbers, choice.hours, times, store.checked);
    var users := store.users[userId := Activity(finished, |numbers|)];
    CountsCover(results);
    FinalReport(results);
    outcome := Completed(results, reports, Store(checked, users), choice.hours,
                         CountOn(results), CountOff(results));
  }
}
