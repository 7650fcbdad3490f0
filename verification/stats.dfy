/** The figures `/status` reports (`show_status`): global counts over the
    whole ledger, shared by every user, and the caller's own activity. */
module Stats {
  import opened Base
  import opened Verdict
  import opened Ledger

  datatype GlobalStats = GlobalStats(total: nat, onWhatsApp: nat, notOnWhatsApp: nat)

  datatype UserStats = UserStats(lastCheck: Option<int>, totalChecked: nat)

  /** The ledger keys whose latest status is `s`. */
  function KeysWith(l: Ledger, s: Status): set<string>
  {
    set k | k in l && l[k].status == s
  }

  /** The global block: the "not on WhatsApp" figure is computed as the total
      minus the registered ones, so it is the number of entries whose status
      is anything but `on_whatsapp`. */
  function GlobalCounts(l: Ledger): (g: GlobalStats)
    ensures g.total == |l|
    ensures g.onWhatsApp == |KeysWith(l, OnWhatsApp)|
    ensures g.notOnWhatsApp == |l.Keys - KeysWith(l, OnWhatsApp)|
  {
    var on := KeysWith(l, OnWhatsApp);
    assert l.Keys == on + (l.Keys - on);
    GlobalStats(|l|, |on|, |l| - |on|)
  }

  /** Entries whose status is `invalid` or `error` are counted as "not on
      WhatsApp" too. */
  lemma NotOnIncludesUndecided(l: Ledger)
    ensures GlobalCounts(l).notOnWhatsApp
            == |KeysWith(l, NotOnWhatsApp)| + |KeysWith(l, Invalid)| + |KeysWith(l, Error)|
  {
    var off, inv, err := KeysWith(l, NotOnWhatsApp), KeysWith(l, Invalid), KeysWith(l, Error);
    var rest := l.Keys - KeysWith(l, OnWhatsApp);
    assert rest == off + inv + err;
    assert off * inv == {} && (off + inv) * err == {};
    assert |off + inv| == |off| + |inv|;
    assert |off + inv + err| == |off + inv| + |err|;
  }

  /** The caller's own block: `Never` and `0` when the user has not run a
      batch yet. */
  function UserCounts(users: map<string, Activity>, userId: string): UserStats
  {
    if userId in users then UserStats(Some(users[userId].lastCheck), users[userId].totalChecked)
    else UserStats(None, 0)
  }

  /** After a completed batch of `n` numbers that finished at `finished`,
      the caller's block shows that batch, and every other user's block is
      what it was. */
  lemma UserCountsAfterBatch(users: map<string, Activity>, userId: string, finished: int, n: nat, other: string)
    ensures UserCounts(users[userId := Activity(finished, n)], userId) == UserStats(Some(finished), n)
    ensures other != userId ==> UserCounts(users[userId := Activity(finished, n)], other) == UserCounts(users, other)
  {
  }
}
