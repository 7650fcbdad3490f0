/** The global `DataStore`: `checked_numbers`, the per-number ledger that
    `update_status` maintains, and `user_data`, the per-user activity that the
    batch run records. Timestamps are whole seconds passed in by the caller. */
module Ledger {
  import opened Base
  import opened Verdict

  const SecondsPerHour: int := 3600

  /** The ledger is written to disk whenever its size is a multiple of this. */
  const SaveEvery: nat := 10

  /** One `checked_numbers` entry. */
  datatype Record = Record(status: Status, lastCheck: int, nextRetry: Option<int>, attempts: nat)

  /** One `user_data` entry. */
  datatype Activity = Activity(lastCheck: int, totalChecked: nat)

  type Ledger = map<string, Record>

  datatype Store = Store(checked: Ledger, users: map<string, Activity>)

  /** `next_retry` is recorded exactly for numbers found not to be registered. */
  predicate RetryConsistent(r: Record) {
    r.nextRetry.Some? <==> r.status == NotOnWhatsApp
  }

  predicate LedgerConsistent(l: Ledger) {
    forall k :: k in l ==> RetryConsistent(l[k])
  }

  /** `checked_numbers.get(phone, {}).get('attempts', 0)`. */
  function PriorAttempts(l: Ledger, phone: string): nat
  {
    if phone in l then l[phone].attempts else 0
  }

  /** `update_status(phone, status, retry_hours)` at time `now`: the entry for
      `phone` is replaced, every other entry is left as it was. */
  function UpdateStatus(l: Ledger, phone: string, status: Status, retryHours: int, now: int): (l': Ledger)
    ensures phone in l'
    ensures l'[phone].status == status && l'[phone].lastCheck == now
    ensures l'[phone].nextRetry.Some? <==> status == NotOnWhatsApp
    ensures l'[phone].nextRetry.Some? ==> l'[phone].nextRetry.value == now + retryHours * SecondsPerHour
    ensures l'[phone].attempts == PriorAttempts(l, phone) + 1
    ensures l'.Keys == l.Keys + {phone}
    ensures forall k :: k in l && k != phone ==> l'[k] == l[k]
  {
    var nextRetry := if status == NotOnWhatsApp then Some(now + retryHours * SecondsPerHour) else None;
    l[phone := Record(status, now, nextRetry, PriorAttempts(l, phone) + 1)]
  }

  /** The "save now?" test made after every update: the number of distinct
      keys is a multiple of ten. It is not a count of updates. */
  predicate SaveDue(l: Ledger) {
    |l| % SaveEvery == 0
  }

  /** Updating a number already in the ledger does not change its size, so
      when the size is a multiple of ten every such update saves again. */
  lemma SaveRepeatsOnKnownNumbers(l: Ledger, phone: string, status: Status, retryHours: int, now: int)
    requires phone in l && SaveDue(l)
    ensures SaveDue(UpdateStatus(l, phone, status, retryHours, now))
  {
    assert UpdateStatus(l, phone, status, retryHours, now).Keys == l.Keys;
  }

  /** Updates of numbers already in the ledger leave its keys as they are. */
  lemma {:induction false} KnownNumbersKeepKeys(l: Ledger, us: seq<Update>)
    requires forall i :: 0 <= i < |us| ==> us[i].phone in l
    ensures ApplyUpdates(l, us).Keys == l.Keys
    decreases |us|
  {
    if |us| > 0 {
      KnownNumbersKeepKeys(l, us[..|us| - 1]);
    }
  }

  /** Conversely, when the size is not a multiple of ten, re-checking known
      numbers never saves, however many updates are made. */
  lemma KnownNumbersNeverSave(l: Ledger, us: seq<Update>)
    requires !SaveDue(l)
    requires forall i :: 0 <= i < |us| ==> us[i].phone in l
    ensures forall k :: 0 <= k <= |us| ==> !SaveDue(ApplyUpdates(l, us[..k]))
  {
    forall k | 0 <= k <= |us|
      ensures !SaveDue(ApplyUpdates(l, us[..k]))
    {
      KnownNumbersKeepKeys(l, us[..k]);
      assert |ApplyUpdates(l, us[..k]).Keys| == |l.Keys|;
    }
  }

  /** A number seen for the first time grows the ledger by one entry. */
  lemma NewNumberGrowsLedger(l: Ledger, phone: string, status: Status, retryHours: int, now: int)
    requires phone !in l
    ensures |UpdateStatus(l, phone, status, retryHours, now)| == |l| + 1
  {
    var l' := UpdateStatus(l, phone, status, retryHours, now);
    assert l'.Keys == l.Keys + {phone};
    assert |l'.Keys| == |l.Keys| + 1;
  }

  /** An update keeps every entry retry-consistent. */
  lemma UpdatePreservesConsistency(l: Ledger, phone: string, status: Status, retryHours: int, now: int)
    requires LedgerConsistent(l)
    ensures LedgerConsistent(UpdateStatus(l, phone, status, retryHours, now))
  {
  }

  /** The arguments of one `update_status` call. */
  datatype Update = Update(phone: string, status: Status, retryHours: int, now: int)

  /** The ledger after a sequence of updates, applied first to last. */
  function ApplyUpdates(l: Ledger, us: seq<Update>): Ledger
    decreases |us|
  {
    if |us| == 0 then l
    else
      var u := us[|us| - 1];
      UpdateStatus(ApplyUpdates(l, us[..|us| - 1]), u.phone, u.status, u.retryHours, u.now)
  }

  /** How many of the updates are for `phone`. */
  function UpdatesFor(us: seq<Update>, phone: string): nat
  {
    if |us| == 0 then 0
    else UpdatesFor(us[..|us| - 1], phone) + (if us[|us| - 1].phone == phone then 1 else 0)
  }

  /** `attempts` counts the checks: after `k` updates of a number, however they
      are interleaved with updates of other numbers, its attempts have grown
      by exactly `k`; a number not updated keeps its entry, or stays absent. */
  lemma {:induction false} AttemptsCountUpdates(l: Ledger, us: seq<Update>, phone: string)
    ensures PriorAttempts(ApplyUpdates(l, us), phone) == PriorAttempts(l, phone) + UpdatesFor(us, phone)
    ensures UpdatesFor(us, phone) == 0 ==> (phone in ApplyUpdates(l, us) <==> phone in l)
    ensures UpdatesFor(us, phone) == 0 && phone in l ==> ApplyUpdates(l, us)[phone] == l[phone]
    decreases |us|
  {
    if |us| > 0 {
      AttemptsCountUpdates(l, us[..|us| - 1], phone);
    }
  }

  /** A sequence of updates keeps the whole ledger retry-consistent. */
  lemma {:induction false} UpdatesPreserveConsistency(l: Ledger, us: seq<Update>)
    requires LedgerConsistent(l)
    ensures LedgerConsistent(ApplyUpdates(l, us))
    decreases |us|
  {
    if |us| > 0 {
      var u := us[|us| - 1];
      UpdatesPreserveConsistency(l, us[..|us| - 1]);
      UpdatePreservesConsistency(ApplyUpdates(l, us[..|us| - 1]), u.phone, u.status, u.retryHours, u.now);
    }
  }

  /** The numbers the updates are for, in order. */
  function Phones(us: seq<Update>): (ps: seq<string>)
    ensures |ps| == |us|
    ensures forall i :: 0 <= i < |us| ==> ps[i] == us[i].phone
  {
    seq(|us|, i requires 0 <= i < |us| => us[i].phone)
  }

  lemma PhonesSnoc(us: seq<Update>)
    requires |us| > 0
    ensures Phones(us) == Phones(us[..|us| - 1]) + [us[|us| - 1].phone]
  {
  }

  /** The per-number update count is the multiplicity of the number among
      the updated ones. */
  lemma {:induction false} UpdatesForCountsPhones(us: seq<Update>, phone: string)
    ensures UpdatesFor(us, phone) == multiset(Phones(us))[phone]
    decreases |us|
  {
    if |us| > 0 {
      UpdatesForCountsPhones(us[..|us| - 1], phone);
      PhonesSnoc(us);
    }
  }

  /** Updates add exactly the updated numbers to the ledger's keys. */
  lemma {:induction false} ApplyUpdatesKeys(l: Ledger, us: seq<Update>)
    ensures ApplyUpdates(l, us).Keys == l.Keys + set p | p in Phones(us)
    decreases |us|
  {
    if |us| > 0 {
      ApplyUpdatesKeys(l, us[..|us| - 1]);
      PhonesSnoc(us);
    }
  }
}
