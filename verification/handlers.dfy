/** The ledger decisions of the bot's command and button handlers, of the offerwall
    postback and of the tracking link, each as one atomic step over the tables.
    Message text, keyboards and notifications are not part of these steps. */
module Handlers {
  import opened Schema
  import Store

  datatype AdClaim = AdCredited | ClickNotFound | WaitNotElapsed(elapsed: int) | DailyLimitReached
  datatype BonusClaim = BonusCredited | AlreadyClaimed
  datatype WithdrawReply = Submitted(wid: int, amount: int) | BelowMinimum(balance: int)
  /** What an approve or reject button answers; `NotAdmin` is the fall-through to "unknown action". */
  datatype AdminReply = NotAdmin | Answered(ok: bool)

  /** Every button press first makes sure the presser has a row (without a referrer). */
  function ButtonPrelude(t: Tables, uid: UserId, username: string): (r: Tables)
    ensures uid in r.users && r.users.Keys == t.users.Keys + {uid}
    ensures forall v :: v in t.users ==> r.users[v] == t.users[v]
    ensures uid !in t.users ==> r.users[uid] == BlankUser(Some(username), None)
    ensures r.(users := t.users) == t
  {
    Store.EnsureUser(t, uid, Some(username), None)
  }

  /** The tracking link: a click is recorded only for a non-zero user, an empty token stored
      as "none"; a user id outside the 64-bit range cannot be bound, so nothing is stored. */
  function Track(t: Tables, user: Option<UserId>, token: Token, now: int): (r: Tables)
    ensures user.None? || user.value == 0 || !FitsInt64(user.value) ==> r == t
    ensures user.Some? && user.value != 0 && FitsInt64(user.value) ==>
              r.clicks == t.clicks + [Click(user.value, if token == "" then "none" else token, now)]
    ensures r.(clicks := t.clicks) == t
  {
    if user.Some? && user.value != 0 && FitsInt64(user.value) then
      Store.RecordClick(t, user.value, if token == "" then "none" else token, now)
    else t
  }

  /** The referrer's row after one referral is paid: one more referral, and the referral
      bonus on its referral column and its lifetime total, journalled. */
  ghost predicate ReferralPaid(t: Tables, r: Tables, p: UserId, now: int)
    requires p in t.users
  {
    var u := t.users[p];
    && r.users == t.users[p := u.(referralsCount := u.referralsCount + 1,
                                  referralBalance := u.referralBalance + REFERRAL_BONUS_MICRO,
                                  totalEarned := u.totalEarned + REFERRAL_BONUS_MICRO)]
    && r.journal == t.journal + [Transaction(p, Referral, REFERRAL_BONUS_MICRO, now)]
    && r.(users := t.users, journal := t.journal) == t
  }

  /** `/start` with an optional argument (`None` when it is absent or not an integer):
      the caller gets a row without a referrer; a non-zero argument other than the
      caller's id that names an existing user pays that user a referral, on every call. An
      argument outside the 64-bit range makes the referrer lookup fail after the caller's
      row is in place, so nothing more changes. */
  function Start(t: Tables, uid: UserId, username: string, arg: Option<int>, now: int): (r: Step<Option<UserId>>)
    ensures var t1 := Store.EnsureUser(t, uid, Some(username), None);
      && (r.reply.Some? <==>
            arg.Some? && arg.value != uid && arg.value != 0 && FitsInt64(arg.value) && arg.value in t.users)
      && (r.reply.None? ==> r.after == t1)
      && (r.reply.Some? ==> r.reply == arg && ReferralPaid(t1, r.after, arg.value, now))
    ensures uid in r.after.users
    ensures r.after.users[uid].referredBy == (if uid in t.users then t.users[uid].referredBy else None)
  {
    var referredBy := if arg.Some? && arg.value != uid then arg else None;
    var t1 := Store.EnsureUser(t, uid, Some(username), None);
    if referredBy.Some? && referredBy.value != 0 && FitsInt64(referredBy.value)
       && Store.UserRow(t1, referredBy.value).Some? then
      var p := referredBy.value;
      var t2 := Store.AddReferralFor(t1, p);
      Step(Store.Credit(t2, p, REFERRAL_BONUS_MICRO, ReferralBalance, true, Referral, now), referredBy)
    else
      Step(t1, None)
  }

  /** The row after an ad is settled: the user's ad share on the ad column and the
      lifetime total, today's count advanced, `balance_micro` untouched, journalled. */
  ghost predicate AdSettled(t: Tables, r: Tables, uid: UserId, now: int, today: Date)
    requires uid in t.users
  {
    var u := t.users[uid];
    var count := if u.lastResetDate == Some(today) then u.adsToday + 1 else 1;
    && r.users == t.users[uid := u.(adBalance := u.adBalance + AD_USER_SHARE_MICRO,
                                    totalEarned := u.totalEarned + AD_USER_SHARE_MICRO,
                                    adsToday := count, lastResetDate := Some(today))]
    && r.journal == t.journal + [Transaction(uid, Ad, AD_USER_SHARE_MICRO, now)]
    && r.(users := t.users, journal := t.journal) == t
  }

  /** "I watched" for `token`: the claim is refused, changing nothing, when no click of the
      user carries the token, when fewer than WAIT_SECONDS have passed since the latest such
      click, or when today's quota is used up; otherwise the ad is paid and counted. */
  function ConfirmAd(t: Tables, uid: UserId, username: string, token: Token, now: int, today: Date): (r: Step<AdClaim>)
    ensures var t1 := Store.EnsureUser(t, uid, Some(username), None);
            var click := Store.LatestClick(t.clicks, uid, token);
      && (r.reply == ClickNotFound <==> click.None?)
      && (r.reply.WaitNotElapsed? <==> click.Some? && now - click.value.ts < WAIT_SECONDS)
      && (r.reply.WaitNotElapsed? ==> r.reply.elapsed == now - click.value.ts)
      && (r.reply == AdCredited <==>
            && click.Some? && now - click.value.ts >= WAIT_SECONDS
            && Store.CanWatchMoreAds(t1, uid, MAX_ADS_PER_DAY, today))
      && (r.reply != AdCredited ==> r.after == t1)
      && (r.reply == AdCredited ==> AdSettled(t1, r.after, uid, now, today))
  {
    var t1 := Store.EnsureUser(t, uid, Some(username), None);
    match Store.LatestClick(t1.clicks, uid, token)
    case None => Step(t1, ClickNotFound)
    case Some(click) =>
      var elapsed := now - click.ts;
      if elapsed < WAIT_SECONDS then Step(t1, WaitNotElapsed(elapsed))
      else if !Store.CanWatchMoreAds(t1, uid, MAX_ADS_PER_DAY, today) then Step(t1, DailyLimitReached)
      else
        var t2 := Store.Credit(t1, uid, AD_USER_SHARE_MICRO, AdBalance, true, Ad, now);
        Step(Store.IncAdsToday(t2, uid, today).after, AdCredited)
  }

  /** The daily bonus: refused, changing nothing, when the bonus date is already today;
      otherwise credited to `balance_micro` and the lifetime total, and today stamped. */
  function DailyBonus(t: Tables, uid: UserId, username: string, now: int, today: Date): (r: Step<BonusClaim>)
    ensures var t1 := Store.EnsureUser(t, uid, Some(username), None);
            var u := t1.users[uid];
      && (r.reply == AlreadyClaimed <==> u.lastDailyBonus == Some(today))
      && (r.reply == AlreadyClaimed ==> r.after == t1)
      && (r.reply == BonusCredited ==>
            && r.after.users == t1.users[uid := u.(balance := u.balance + DAILY_BONUS_MICRO,
                                                   totalEarned := u.totalEarned + DAILY_BONUS_MICRO,
                                                   lastDailyBonus := Some(today))]
            && r.after.journal == t1.journal + [Transaction(uid, Bonus, DAILY_BONUS_MICRO, now)]
            && r.after.(users := t1.users, journal := t1.journal) == t1)
  {
    var t1 := Store.EnsureUser(t, uid, Some(username), None);
    if Store.HasClaimedDaily(t1, uid, today) then Step(t1, AlreadyClaimed)
    else
      var t2 := Store.Credit(t1, uid, DAILY_BONUS_MICRO, Balance, true, Bonus, now);
      Step(Store.SetDailyBonusClaimed(t2, uid, today), BonusCredited)
  }

  /** A second claim on the same date is refused and changes nothing. */
  lemma DailyBonusOncePerDate(t: Tables, uid: UserId, username: string, now: int, now': int, today: Date)
    ensures var once := DailyBonus(t, uid, username, now, today).after;
            DailyBonus(once, uid, username, now', today) == Step(once, AlreadyClaimed)
  {
  }

  /** The withdraw button: refused when `balance_micro` is below the minimum; otherwise a
      pending request for the whole current `balance_micro` under a fresh id. No balance moves. */
  function Withdraw(t: Tables, uid: UserId, username: string, now: int): (r: Step<WithdrawReply>)
    ensures var t1 := Store.EnsureUser(t, uid, Some(username), None);
            var balance := t1.users[uid].balance;
      && (r.reply.BelowMinimum? <==> balance < WITHDRAW_MIN_MICRO)
      && (r.reply.BelowMinimum? ==> r == Step(t1, BelowMinimum(balance)))
      && (r.reply.Submitted? ==>
            && r.reply.wid == t1.nextWithdrawId && r.reply.amount == balance
            && (Store.IdsBelowCounter(t) ==> r.reply.wid !in t.withdraws)
            && r.after.withdraws == t.withdraws[r.reply.wid := Withdrawal(uid, balance, Pending, now)]
            && r.after.nextWithdrawId == t1.nextWithdrawId + 1
            && r.after.(withdraws := t1.withdraws, nextWithdrawId := t1.nextWithdrawId) == t1)
  {
    var t1 := Store.EnsureUser(t, uid, Some(username), None);
    var balance := match Store.UserRow(t1, uid) case Some(u) => u.balance case None => 0;
    if balance < WITHDRAW_MIN_MICRO then Step(t1, BelowMinimum(balance))
    else
      var s := Store.AddWithdrawRequest(t1, uid, balance, now);
      Step(s.after, Submitted(s.reply, balance))
  }

  /** The approve button: only the admin may press it; it succeeds only on a pending request
      and then debits exactly the amount recorded at request time from the owner's balance. */
  function AdminApprove(t: Tables, caller: UserId, username: string, wid: int): (r: Step<AdminReply>)
    ensures var t1 := Store.EnsureUser(t, caller, Some(username), None);
      && (caller != ADMIN_ID ==> r == Step(t1, NotAdmin))
      && (caller == ADMIN_ID ==>
            && r.reply.Answered?
            && (r.reply.ok <==> wid in t.withdraws && t.withdraws[wid].status == Pending)
            && (!r.reply.ok ==> r.after == t1)
            && (r.reply.ok ==>
                  var w := t.withdraws[wid];
                  && r.after.withdraws == t.withdraws[wid := w.(status := Approved)]
                  && r.after.users.Keys == t1.users.Keys
                  && (w.user in t1.users ==>
                        r.after.users[w.user] == t1.users[w.user].(balance := t1.users[w.user].balance - w.amount))
                  && (forall v :: v in t1.users && v != w.user ==> r.after.users[v] == t1.users[v])
                  && r.after.(users := t1.users, withdraws := t1.withdraws) == t1))
  {
    var t1 := Store.EnsureUser(t, caller, Some(username), None);
    if caller != ADMIN_ID then Step(t1, NotAdmin)
    else
      var s := Store.ApproveWithdraw(t1, wid);
      Step(s.after, Answered(s.reply))
  }

  /** The reject button: only the admin may press it; it marks the request rejected whatever
      its status, always answers success, and never touches a balance. */
  function AdminReject(t: Tables, caller: UserId, username: string, wid: int): (r: Step<AdminReply>)
    ensures var t1 := Store.EnsureUser(t, caller, Some(username), None);
      && (caller != ADMIN_ID ==> r == Step(t1, NotAdmin))
      && (caller == ADMIN_ID ==>
            && r.reply == Answered(true)
            && r.after.users == t1.users
            && r.after.withdraws ==
                 (if wid in t.withdraws then t.withdraws[wid := t.withdraws[wid].(status := Rejected)] else t.withdraws)
            && r.after.(withdraws := t1.withdraws) == t1)
  {
    var t1 := Store.EnsureUser(t, caller, Some(username), None);
    if caller != ADMIN_ID then Step(t1, NotAdmin)
    else
      var s := Store.RejectWithdraw(t1, wid);
      Step(s.after, Answered(s.reply))
  }

  /** What the postback endpoint answers: 400 without a subid, "OK" after the credit, or a
      server error when the subid or the share cannot be bound as a 64-bit integer. */
  datatype PostbackReply = MissingSubid | SubidOverflow | OfferCredited | ShareOverflow

  /** The offerwall postback with the user's share already in micro-units: refused, changing
      nothing, without a non-zero `subid` or with one outside the 64-bit range, which fails
      the row lookup before anything is written; otherwise a row is created if need be, and the share
      goes to the offer column, the lifetime total and the journal, unless it lies outside the
      64-bit range, in which case the credit fails and only the new row remains. */
  function Postback(t: Tables, subid: Option<UserId>, share: int, now: int): (r: Step<PostbackReply>)
    ensures r.reply == MissingSubid <==> subid.None? || subid.value == 0
    ensures r.reply == MissingSubid ==> r.after == t
    ensures r.reply == SubidOverflow <==> subid.Some? && subid.value != 0 && !FitsInt64(subid.value)
    ensures r.reply == SubidOverflow ==> r.after == t
    ensures r.reply == ShareOverflow <==>
              subid.Some? && subid.value != 0 && FitsInt64(subid.value) && !FitsInt64(share)
    ensures r.reply == ShareOverflow ==> r.after == Store.EnsureUser(t, subid.value, None, None)
    ensures r.reply == OfferCredited ==>
      var t1 := Store.EnsureUser(t, subid.value, None, None);
      var u := t1.users[subid.value];
      && r.after.users == t1.users[subid.value := u.(offerBalance := u.offerBalance + share,
                                                     totalEarned := u.totalEarned + share)]
      && r.after.journal == t1.journal + [Transaction(subid.value, Offer, share, now)]
      && r.after.(users := t1.users, journal := t1.journal) == t1
  {
    if subid.None? || subid.value == 0 then Step(t, MissingSubid)
    else if !FitsInt64(subid.value) then Step(t, SubidOverflow)
    else
      var t1 := Store.EnsureUser(t, subid.value, None, None);
      if !FitsInt64(share) then Step(t1, ShareOverflow)
      else Step(Store.Credit(t1, subid.value, share, OfferBalance, true, Offer, now), OfferCredited)
  }
}
