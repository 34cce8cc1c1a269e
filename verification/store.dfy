/** The ledger's storage helpers, each a function from the tables before the call
    to the tables after it (and to what the helper returns). Clock readings, the
    current date and tokens are parameters. */
module Store {
  import opened Schema

  /** `get_user`: the row of `uid`, if there is one. */
  function UserRow(t: Tables, uid: UserId): (r: Option<User>)
    ensures r.Some? <==> uid in t.users
    ensures r.Some? ==> r.value == t.users[uid]
  {
    if uid in t.users then Some(t.users[uid]) else None
  }

  /** `ensure_user`: insert a row with the column defaults unless `uid` already has one. */
  function EnsureUser(t: Tables, uid: UserId, username: Option<string>, referredBy: Option<UserId>): (r: Tables)
    ensures r.users.Keys == t.users.Keys + {uid}
    ensures forall v :: v in t.users ==> r.users[v] == t.users[v]
    ensures uid !in t.users ==>
      var u := r.users[uid];
      && u.username == username && u.referredBy == referredBy
      && u.balance == 0 && u.adBalance == 0 && u.offerBalance == 0 && u.referralBalance == 0
      && u.totalEarned == 0 && u.referralsCount == 0 && u.adsToday == 0
      && u.lastDailyBonus.None? && u.lastResetDate.None?
    ensures r.(users := t.users) == t
  {
    if uid in t.users then t else t.(users := t.users[uid := BlankUser(username, referredBy)])
  }

  /** `ensure_user` twice is `ensure_user` once, whatever the second call's arguments. */
  lemma EnsureUserIdempotent(t: Tables, uid: UserId, username: Option<string>, referredBy: Option<UserId>,
                             username': Option<string>, referredBy': Option<UserId>)
    ensures var once := EnsureUser(t, uid, username, referredBy);
            EnsureUser(once, uid, username', referredBy') == once
  {
  }

  /** `total_users`: the number of rows in `users`. */
  function TotalUsers(t: Tables): (n: nat)
    ensures n == 0 <==> t.users == map[]
  {
    |t.users|
  }

  /** `ensure_user` adds one to the user count exactly when the user was unknown. */
  lemma EnsureUserCountsOnce(t: Tables, uid: UserId, username: Option<string>, referredBy: Option<UserId>)
    ensures TotalUsers(EnsureUser(t, uid, username, referredBy)) == TotalUsers(t) + (if uid in t.users then 0 else 1)
  {
  }

  /** `credit`: add `amount` to one balance column of `uid`'s row, and to its lifetime
      total when `addTotal`; the journal entry is written even when there is no row. */
  function Credit(t: Tables, uid: UserId, amount: int, column: Column, addTotal: bool, kind: TxKind, now: int): (r: Tables)
    ensures r.journal == t.journal + [Transaction(uid, kind, amount, now)]
    ensures r.users.Keys == t.users.Keys
    ensures forall v :: v in t.users && v != uid ==> r.users[v] == t.users[v]
    ensures uid in t.users ==>
      var u, u' := t.users[uid], r.users[uid];
      && Amount(u', column) == Amount(u, column) + amount
      && (forall c :: c != column ==> Amount(u', c) == Amount(u, c))
      && u'.totalEarned == u.totalEarned + (if addTotal then amount else 0)
      && Profile(u') == Profile(u)
    ensures r.(users := t.users, journal := t.journal) == t
  {
    var users := if uid in t.users then t.users[uid := Credited(t.users[uid], column, amount, addTotal)] else t.users;
    t.(users := users, journal := t.journal + [Transaction(uid, kind, amount, now)])
  }

  /** `record_click`: append a click stamped with the current time. */
  function RecordClick(t: Tables, uid: UserId, token: Token, now: int): (r: Tables)
    ensures r.clicks == t.clicks + [Click(uid, token, now)]
    ensures r.(clicks := t.clicks) == t
  {
    t.(clicks := t.clicks + [Click(uid, token, now)])
  }

  predicate Matches(c: Click, uid: UserId, token: Token) {
    c.user == uid && c.token == token
  }

  /** `get_click`: the click of `uid` with `token` that has the greatest timestamp.
      Two such clicks with the same timestamp are the same value, so the order in
      which the database breaks ties does not matter. */
  function LatestClick(cs: seq<Click>, uid: UserId, token: Token): (r: Option<Click>)
    ensures r.None? <==> forall i :: 0 <= i < |cs| ==> !Matches(cs[i], uid, token)
    ensures r.Some? ==> r.value in cs && Matches(r.value, uid, token)
    ensures r.Some? ==> forall i :: 0 <= i < |cs| && Matches(cs[i], uid, token) ==> cs[i].ts <= r.value.ts
    decreases |cs|
  {
    if cs == [] then None
    else
      var prev := LatestClick(cs[..|cs| - 1], uid, token);
      var c := cs[|cs| - 1];
      if Matches(c, uid, token) && (prev.None? || prev.value.ts <= c.ts) then Some(c) else prev
  }

  /** Any matching click with the greatest timestamp is the one `get_click` returns. */
  lemma LatestClickUnique(cs: seq<Click>, uid: UserId, token: Token, c: Click)
    requires c in cs && Matches(c, uid, token)
    requires forall i :: 0 <= i < |cs| && Matches(cs[i], uid, token) ==> cs[i].ts <= c.ts
    ensures LatestClick(cs, uid, token) == Some(c)
  {
  }

  /** `inc_ads_today`: count one more ad for today, restarting the count on a new date. */
  function IncAdsToday(t: Tables, uid: UserId, today: Date): (r: Step<int>)
    ensures uid !in t.users ==> r.after == t && r.reply == 0
    ensures uid in t.users ==>
      var u := t.users[uid];
      && r.reply == (if u.lastResetDate == Some(today) then u.adsToday + 1 else 1)
      && r.after.users == t.users[uid := u.(adsToday := r.reply, lastResetDate := Some(today))]
    ensures r.after.(users := t.users) == t
  {
    if uid !in t.users then Step(t, 0)
    else
      var u := t.users[uid];
      if u.lastResetDate != Some(today) then
        Step(t.(users := t.users[uid := u.(lastResetDate := Some(today), adsToday := 1)]), 1)
      else
        var ads := u.adsToday + 1;
        Step(t.(users := t.users[uid := u.(adsToday := ads)]), ads)
  }

  /** `can_watch_more_ads`: an unknown user, or one whose count belongs to an earlier
      date, may always watch; otherwise today's count must be below the limit. */
  function CanWatchMoreAds(t: Tables, uid: UserId, maxPerDay: int, today: Date): (ok: bool)
    ensures uid !in t.users ==> ok
    ensures uid in t.users && t.users[uid].lastResetDate != Some(today) ==> ok
    ensures uid in t.users && t.users[uid].lastResetDate == Some(today) ==>
              (ok <==> t.users[uid].adsToday < maxPerDay)
  {
    if uid !in t.users then true
    else
      var u := t.users[uid];
      if u.lastResetDate != Some(today) then true else u.adsToday < maxPerDay
  }

  /** Counting an ad only after the quota check passes never takes today's count past the limit. */
  lemma CheckedIncStaysWithinLimit(t: Tables, uid: UserId, maxPerDay: int, today: Date)
    requires 1 <= maxPerDay
    requires CanWatchMoreAds(t, uid, maxPerDay, today)
    ensures var r := IncAdsToday(t, uid, today);
            && r.reply <= maxPerDay
            && (uid in t.users ==> r.after.users[uid].adsToday <= maxPerDay)
  {
  }

  /** `has_claimed_daily`: the row's bonus date is today. */
  function HasClaimedDaily(t: Tables, uid: UserId, today: Date): (claimed: bool)
    ensures claimed <==> uid in t.users && t.users[uid].lastDailyBonus == Some(today)
  {
    match UserRow(t, uid)
    case None => false
    case Some(u) => u.lastDailyBonus == Some(today)
  }

  /** `set_daily_bonus_claimed`: stamp today's date as the row's bonus date. */
  function SetDailyBonusClaimed(t: Tables, uid: UserId, today: Date): (r: Tables)
    ensures uid !in t.users ==> r == t
    ensures uid in t.users ==> r.users == t.users[uid := t.users[uid].(lastDailyBonus := Some(today))]
    ensures HasClaimedDaily(r, uid, today) <==> uid in t.users
    ensures r.(users := t.users) == t
  {
    if uid in t.users then t.(users := t.users[uid := t.users[uid].(lastDailyBonus := Some(today))]) else t
  }

  /** `add_referral_for`: one more referral on the referrer's row. */
  function AddReferralFor(t: Tables, referrer: UserId): (r: Tables)
    ensures referrer !in t.users ==> r == t
    ensures referrer in t.users ==>
      r.users == t.users[referrer := t.users[referrer].(referralsCount := t.users[referrer].referralsCount + 1)]
    ensures r.(users := t.users) == t
  {
    if referrer in t.users then
      var u := t.users[referrer];
      t.(users := t.users[referrer := u.(referralsCount := u.referralsCount + 1)])
    else t
  }

  /** Every withdrawal id in use lies below the auto-increment counter. */
  predicate IdsBelowCounter(t: Tables) {
    && 1 <= t.nextWithdrawId
    && forall id :: id in t.withdraws ==> 1 <= id < t.nextWithdrawId
  }

  /** `add_withdraw_request`: insert a pending request under the next auto-increment id. */
  function AddWithdrawRequest(t: Tables, uid: UserId, amount: int, now: int): (r: Step<int>)
    ensures IdsBelowCounter(t) ==> r.reply !in t.withdraws && IdsBelowCounter(r.after)
    ensures r.reply == t.nextWithdrawId
    ensures r.after.withdraws == t.withdraws[r.reply := Withdrawal(uid, amount, Pending, now)]
    ensures r.after.nextWithdrawId > r.reply
    ensures r.after.(withdraws := t.withdraws, nextWithdrawId := t.nextWithdrawId) == t
  {
    var wid := t.nextWithdrawId;
    Step(t.(withdraws := t.withdraws[wid := Withdrawal(uid, amount, Pending, now)], nextWithdrawId := wid + 1), wid)
  }

  /** `get_pending_withdraws`: the requests still waiting for a decision. */
  function PendingWithdraws(t: Tables): (p: map<int, Withdrawal>)
    ensures forall id :: id in p <==> id in t.withdraws && t.withdraws[id].status == Pending
    ensures forall id :: id in p ==> p[id] == t.withdraws[id]
  {
    map id | id in t.withdraws && t.withdraws[id].status == Pending :: t.withdraws[id]
  }

  /** `approve_withdraw`: only a pending request can be approved; approving debits the
      amount recorded with the request from `balance_micro`, with no sufficiency check
      and no journal entry, and marks the request approved. */
  function ApproveWithdraw(t: Tables, wid: int): (r: Step<bool>)
    ensures r.reply <==> wid in t.withdraws && t.withdraws[wid].status == Pending
    ensures !r.reply ==> r.after == t
    ensures r.reply ==>
      var w := t.withdraws[wid];
      && r.after.withdraws == t.withdraws[wid := w.(status := Approved)]
      && r.after.users.Keys == t.users.Keys
      && (w.user in t.users ==> r.after.users[w.user] == t.users[w.user].(balance := t.users[w.user].balance - w.amount))
      && (forall v :: v in t.users && v != w.user ==> r.after.users[v] == t.users[v])
    ensures r.after.(users := t.users, withdraws := t.withdraws) == t
  {
    if wid !in t.withdraws || t.withdraws[wid].status != Pending then Step(t, false)
    else
      var w := t.withdraws[wid];
      var users := if w.user in t.users
                   then t.users[w.user := t.users[w.user].(balance := t.users[w.user].balance - w.amount)]
                   else t.users;
      Step(t.(users := users, withdraws := t.withdraws[wid := w.(status := Approved)]), true)
  }

  /** A second approval of the same request fails and changes nothing: the debit happens at most once. */
  lemma ApproveTwiceFails(t: Tables, wid: int)
    ensures var once := ApproveWithdraw(t, wid).after;
            ApproveWithdraw(once, wid) == Step(once, false)
  {
  }

  /** `reject_withdraw`: mark the request rejected whatever its status, never touching a balance. */
  function RejectWithdraw(t: Tables, wid: int): (r: Step<bool>)
    ensures r.reply
    ensures wid !in t.withdraws ==> r.after == t
    ensures wid in t.withdraws ==> r.after.withdraws == t.withdraws[wid := t.withdraws[wid].(status := Rejected)]
    ensures r.after.(withdraws := t.withdraws) == t
  {
    if wid in t.withdraws then Step(t.(withdraws := t.withdraws[wid := t.withdraws[wid].(status := Rejected)]), true)
    else Step(t, true)
  }

  /** A decision on a pending request takes it, and only it, off the pending list. */
  lemma DecisionLeavesPending(t: Tables, wid: int)
    requires wid in t.withdraws && t.withdraws[wid].status == Pending
    ensures PendingWithdraws(ApproveWithdraw(t, wid).after) == PendingWithdraws(t) - {wid}
    ensures PendingWithdraws(RejectWithdraw(t, wid).after) == PendingWithdraws(t) - {wid}
  {
  }
}
