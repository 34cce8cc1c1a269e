/** Properties of the ledger over whole runs: what the journal accounts for, and the
    limits that hold however the handlers' steps are interleaved. */
module Audit {
  import opened Schema
  import Store
  import opened Handlers

  /** The sum of the journal's amounts for `uid`. */
  function Earned(j: seq<Transaction>, uid: UserId): int
    decreases |j|
  {
    if j == [] then 0
    else Earned(j[..|j| - 1], uid) + (if j[|j| - 1].user == uid then j[|j| - 1].amount else 0)
  }

  /** The sum of the journal's amounts of one kind for `uid`. */
  function EarnedAs(j: seq<Transaction>, uid: UserId, kind: TxKind): int
    decreases |j|
  {
    if j == [] then 0
    else EarnedAs(j[..|j| - 1], uid, kind) + (if j[|j| - 1].user == uid && j[|j| - 1].kind == kind then j[|j| - 1].amount else 0)
  }

  /** The number of the journal's entries of one kind for `uid`. */
  function CountAs(j: seq<Transaction>, uid: UserId, kind: TxKind): nat
    decreases |j|
  {
    if j == [] then 0
    else CountAs(j[..|j| - 1], uid, kind) + (if j[|j| - 1].user == uid && j[|j| - 1].kind == kind then 1 else 0)
  }

  lemma AppendOne(j: seq<Transaction>, tx: Transaction, uid: UserId)
    ensures Earned(j + [tx], uid) == Earned(j, uid) + (if tx.user == uid then tx.amount else 0)
    ensures forall kind :: EarnedAs(j + [tx], uid, kind) == EarnedAs(j, uid, kind) + (if tx.user == uid && tx.kind == kind then tx.amount else 0)
    ensures forall kind :: CountAs(j + [tx], uid, kind) == CountAs(j, uid, kind) + (if tx.user == uid && tx.kind == kind then 1 else 0)
  {
  }

  /** A user the journal never mentions has earned nothing by it. */
  lemma {:induction false} UnmentionedEarnedNothing(j: seq<Transaction>, uid: UserId)
    requires forall i :: 0 <= i < |j| ==> j[i].user != uid
    ensures Earned(j, uid) == 0
    ensures forall kind :: EarnedAs(j, uid, kind) == 0 && CountAs(j, uid, kind) == 0
  {
    if j != [] {
      var init := j[..|j| - 1];
      assert forall i :: 0 <= i < |init| ==> init[i] == j[i];
      UnmentionedEarnedNothing(init, uid);
      forall kind ensures EarnedAs(j, uid, kind) == 0 && CountAs(j, uid, kind) == 0 {
        assert EarnedAs(init, uid, kind) == 0 && CountAs(init, uid, kind) == 0;
      }
    }
  }

  /** A row agrees with the journal: its lifetime total is everything journalled for it, the
      ad, offer and referral columns are their kinds' sums, its referral count is the number
      of referral entries; and its ad count lies between zero and the daily limit. */
  ghost predicate RowAgrees(u: User, j: seq<Transaction>, uid: UserId) {
    && u.totalEarned == Earned(j, uid)
    && u.adBalance == EarnedAs(j, uid, Ad)
    && u.offerBalance == EarnedAs(j, uid, Offer)
    && u.referralBalance == EarnedAs(j, uid, Referral)
    && u.referralsCount == CountAs(j, uid, Referral)
    && 0 <= u.adsToday <= MAX_ADS_PER_DAY
  }

  /** The invariant the handlers keep: withdrawal ids below the counter, every journal entry
      about an existing user, every row in agreement with the journal. */
  ghost predicate Consistent(t: Tables) {
    && Store.IdsBelowCounter(t)
    && (forall i :: 0 <= i < |t.journal| ==> t.journal[i].user in t.users)
    && (forall uid :: uid in t.users ==> RowAgrees(t.users[uid], t.journal, uid))
  }

  lemma EmptyIsConsistent()
    ensures Consistent(EMPTY)
  {
  }

  lemma EnsureUserKeepsConsistent(t: Tables, uid: UserId, username: Option<string>)
    requires Consistent(t)
    ensures Consistent(Store.EnsureUser(t, uid, username, None))
  {
    if uid !in t.users {
      UnmentionedEarnedNothing(t.journal, uid);
    }
  }

  /** One journalled credit to an existing row, with every other row left alone, keeps the
      invariant once the credited row agrees with the longer journal. */
  lemma JournalledCreditKeepsConsistent(t: Tables, r: Tables, tx: Transaction)
    requires Consistent(t) && tx.user in t.users
    requires r.journal == t.journal + [tx] && r.withdraws == t.withdraws && r.nextWithdrawId == t.nextWithdrawId
    requires r.users.Keys == t.users.Keys
    requires forall v :: v in t.users && v != tx.user ==> r.users[v] == t.users[v]
    requires RowAgrees(r.users[tx.user], r.journal, tx.user)
    ensures Consistent(r)
  {
  }

  lemma StartKeepsConsistent(t: Tables, uid: UserId, username: string, arg: Option<int>, now: int)
    requires Consistent(t)
    ensures Consistent(Start(t, uid, username, arg, now).after)
  {
    var t1 := Store.EnsureUser(t, uid, Some(username), None);
    EnsureUserKeepsConsistent(t, uid, Some(username));
    var r := Start(t, uid, username, arg, now);
    if r.reply.Some? {
      var tx := Transaction(arg.value, Referral, REFERRAL_BONUS_MICRO, now);
      AppendOne(t1.journal, tx, arg.value);
      JournalledCreditKeepsConsistent(t1, r.after, tx);
    }
  }

  lemma ConfirmAdKeepsConsistent(t: Tables, uid: UserId, username: string, token: Token, now: int, today: Date)
    requires Consistent(t)
    ensures Consistent(ConfirmAd(t, uid, username, token, now, today).after)
  {
    var t1 := Store.EnsureUser(t, uid, Some(username), None);
    EnsureUserKeepsConsistent(t, uid, Some(username));
    var r := ConfirmAd(t, uid, username, token, now, today);
    if r.reply == AdCredited {
      var tx := Transaction(uid, Ad, AD_USER_SHARE_MICRO, now);
      AppendOne(t1.journal, tx, uid);
      JournalledCreditKeepsConsistent(t1, r.after, tx);
    }
  }

  lemma DailyBonusKeepsConsistent(t: Tables, uid: UserId, username: string, now: int, today: Date)
    requires Consistent(t)
    ensures Consistent(DailyBonus(t, uid, username, now, today).after)
  {
    var t1 := Store.EnsureUser(t, uid, Some(username), None);
    EnsureUserKeepsConsistent(t, uid, Some(username));
    var r := DailyBonus(t, uid, username, now, today);
    if r.reply == BonusCredited {
      var tx := Transaction(uid, Bonus, DAILY_BONUS_MICRO, now);
      AppendOne(t1.journal, tx, uid);
      JournalledCreditKeepsConsistent(t1, r.after, tx);
    }
  }

  /** Crediting an existing row's offer column, with the journal entry, keeps the invariant. */
  lemma OfferCreditKeepsConsistent(t: Tables, uid: UserId, share: int, now: int)
    requires Consistent(t) && uid in t.users
    ensures Consistent(Store.Credit(t, uid, share, OfferBalance, true, Offer, now))
  {
    var tx := Transaction(uid, Offer, share, now);
    AppendOne(t.journal, tx, uid);
    JournalledCreditKeepsConsistent(t, Store.Credit(t, uid, share, OfferBalance, true, Offer, now), tx);
  }

  lemma PostbackKeepsConsistent(t: Tables, subid: Option<UserId>, share: int, now: int)
    requires Consistent(t)
    ensures Consistent(Postback(t, subid, share, now).after)
  {
    if subid.Some? && subid.value != 0 && FitsInt64(subid.value) {
      EnsureUserKeepsConsistent(t, subid.value, None);
      if FitsInt64(share) {
        OfferCreditKeepsConsistent(Store.EnsureUser(t, subid.value, None, None), subid.value, share, now);
      }
    }
  }


  lemma WithdrawKeepsConsistent(t: Tables, uid: UserId, username: string, now: int)
    requires Consistent(t)
    ensures Consistent(Withdraw(t, uid, username, now).after)
  {
    EnsureUserKeepsConsistent(t, uid, Some(username));
  }

  lemma AdminKeepsConsistent(t: Tables, caller: UserId, username: string, wid: int)
    requires Consistent(t)
    ensures Consistent(AdminApprove(t, caller, username, wid).after)
    ensures Consistent(AdminReject(t, caller, username, wid).after)
  {
    EnsureUserKeepsConsistent(t, caller, Some(username));
  }

  /** One input to the ledger: a command, a button press, a visit of the tracking link or
      an offerwall postback, with the clock, the date and the token it sees. `Press` is any
      button whose only ledger effect is the row every press makes sure of. */
  datatype Event =
    | StartCmd(uid: UserId, username: string, arg: Option<int>, now: int)
    | Press(uid: UserId, username: string)
    | TrackLink(user: Option<UserId>, token: Token, now: int)
    | ConfirmAdButton(uid: UserId, username: string, token: Token, now: int, today: Date)
    | DailyBonusButton(uid: UserId, username: string, now: int, today: Date)
    | WithdrawButton(uid: UserId, username: string, now: int)
    | ApproveButton(uid: UserId, username: string, wid: int)
    | RejectButton(uid: UserId, username: string, wid: int)
    | OfferPostback(subid: Option<UserId>, share: int, now: int)

  function Apply(t: Tables, e: Event): Tables {
    match e
    case StartCmd(uid, username, arg, now) => Start(t, uid, username, arg, now).after
    case Press(uid, username) => ButtonPrelude(t, uid, username)
    case TrackLink(user, token, now) => Track(t, user, token, now)
    case ConfirmAdButton(uid, username, token, now, today) => ConfirmAd(t, uid, username, token, now, today).after
    case DailyBonusButton(uid, username, now, today) => DailyBonus(t, uid, username, now, today).after
    case WithdrawButton(uid, username, now) => Withdraw(t, uid, username, now).after
    case ApproveButton(uid, username, wid) => AdminApprove(t, uid, username, wid).after
    case RejectButton(uid, username, wid) => AdminReject(t, uid, username, wid).after
    case OfferPostback(subid, share, now) => Postback(t, subid, share, now).after
  }

  /** The tables after the events, in order. */
  function Run(t: Tables, es: seq<Event>): Tables
    decreases |es|
  {
    if es == [] then t else Run(Apply(t, es[0]), es[1..])
  }

  lemma ApplyKeepsConsistent(t: Tables, e: Event)
    requires Consistent(t)
    ensures Consistent(Apply(t, e))
  {
    match e
    case StartCmd(uid, username, arg, now) => StartKeepsConsistent(t, uid, username, arg, now);
    case Press(uid, username) => EnsureUserKeepsConsistent(t, uid, Some(username));
    case TrackLink(user, token, now) =>
    case ConfirmAdButton(uid, username, token, now, today) => ConfirmAdKeepsConsistent(t, uid, username, token, now, today);
    case DailyBonusButton(uid, username, now, today) => DailyBonusKeepsConsistent(t, uid, username, now, today);
    case WithdrawButton(uid, username, now) => WithdrawKeepsConsistent(t, uid, username, now);
    case ApproveButton(uid, username, wid) => AdminKeepsConsistent(t, uid, username, wid);
    case RejectButton(uid, username, wid) => AdminKeepsConsistent(t, uid, username, wid);
    case OfferPostback(subid, share, now) => PostbackKeepsConsistent(t, subid, share, now);
  }

  /** From an empty database, or any state that agrees with its journal, every run keeps
      every row in agreement with the journal and every ad count within the daily limit. */
  lemma {:induction false} RunKeepsConsistent(t: Tables, es: seq<Event>)
    requires Consistent(t)
    ensures Consistent(Run(t, es))
    decreases |es|
  {
    if es != [] {
      ApplyKeepsConsistent(t, es[0]);
      RunKeepsConsistent(Apply(t, es[0]), es[1..]);
    }
  }

  // ---------------------------------------------------------------------------
  // Rows are never deleted, and the lifetime total never falls.

  /** Every postback in the run carries a share of at least zero. */
  ghost predicate ShareNonNegative(es: seq<Event>) {
    forall i :: 0 <= i < |es| && es[i].OfferPostback? ==> es[i].share >= 0
  }

  lemma ApplyKeepsEarned(t: Tables, e: Event, uid: UserId)
    requires uid in t.users
    requires e.OfferPostback? ==> e.share >= 0
    ensures uid in Apply(t, e).users
    ensures Apply(t, e).users[uid].totalEarned >= t.users[uid].totalEarned
  {
  }

  /** Across any run, a user's row survives and its lifetime total never decreases,
      as long as no postback carries a negative share. */
  lemma {:induction false} TotalEarnedNeverFalls(t: Tables, es: seq<Event>, uid: UserId)
    requires uid in t.users && ShareNonNegative(es)
    ensures uid in Run(t, es).users
    ensures Run(t, es).users[uid].totalEarned >= t.users[uid].totalEarned
    decreases |es|
  {
    if es != [] {
      ApplyKeepsEarned(t, es[0], uid);
      assert ShareNonNegative(es[1..]) by {
        forall i | 0 <= i < |es[1..]| && es[1..][i].OfferPostback? ensures es[1..][i].share >= 0 {
          assert es[1..][i] == es[i + 1];
        }
      }
      TotalEarnedNeverFalls(Apply(t, es[0]), es[1..], uid);
    }
  }

  // ---------------------------------------------------------------------------
  // A withdrawal is approved, and its amount debited, at most once.

  /** The event is an admin approval of `wid` that succeeds on the tables `t`. */
  predicate ApprovesNow(t: Tables, e: Event, wid: int) {
    e.ApproveButton? && e.wid == wid && AdminApprove(t, e.uid, e.username, wid).reply == Answered(true)
  }

  /** How many events of the run approve `wid` successfully. */
  function Approvals(t: Tables, es: seq<Event>, wid: int): nat
    decreases |es|
  {
    if es == [] then 0
    else (if ApprovesNow(t, es[0], wid) then 1 else 0) + Approvals(Apply(t, es[0]), es[1..], wid)
  }

  predicate Decided(t: Tables, wid: int) {
    wid in t.withdraws && t.withdraws[wid].status != Pending
  }

  lemma ApplyKeepsDecided(t: Tables, e: Event, wid: int)
    requires Store.IdsBelowCounter(t) && Decided(t, wid)
    ensures Store.IdsBelowCounter(Apply(t, e)) && Decided(Apply(t, e), wid)
    ensures !ApprovesNow(t, e, wid)
  {
  }

  /** Once a request has left `pending` (approved, or rejected) no later event approves it. */
  lemma {:induction false} DecidedStaysUnapproved(t: Tables, es: seq<Event>, wid: int)
    requires Store.IdsBelowCounter(t) && Decided(t, wid)
    ensures Approvals(t, es, wid) == 0
    decreases |es|
  {
    if es != [] {
      ApplyKeepsDecided(t, es[0], wid);
      DecidedStaysUnapproved(Apply(t, es[0]), es[1..], wid);
    }
  }

  lemma ApplyKeepsIds(t: Tables, e: Event)
    requires Store.IdsBelowCounter(t)
    ensures Store.IdsBelowCounter(Apply(t, e))
  {
  }

  /** In any run, each withdrawal request is approved, and so debited, at most once. */
  lemma {:induction false} ApprovedAtMostOnce(t: Tables, es: seq<Event>, wid: int)
    requires Store.IdsBelowCounter(t)
    ensures Approvals(t, es, wid) <= 1
    ensures Decided(t, wid) ==> Approvals(t, es, wid) == 0
    decreases |es|
  {
    if Decided(t, wid) {
      DecidedStaysUnapproved(t, es, wid);
    } else if es != [] {
      ApplyKeepsIds(t, es[0]);
      if ApprovesNow(t, es[0], wid) {
        DecidedStaysUnapproved(Apply(t, es[0]), es[1..], wid);
      } else {
        ApprovedAtMostOnce(Apply(t, es[0]), es[1..], wid);
      }
    }
  }

  // ---------------------------------------------------------------------------
  // The daily bonus is paid at most once per date.

  /** The event is a daily-bonus claim by `uid` that is paid on the tables `t`. */
  predicate PaysBonusNow(t: Tables, e: Event, uid: UserId) {
    e.DailyBonusButton? && e.uid == uid && DailyBonus(t, uid, e.username, e.now, e.today).reply == BonusCredited
  }

  function BonusesPaid(t: Tables, es: seq<Event>, uid: UserId): nat
    decreases |es|
  {
    if es == [] then 0
    else (if PaysBonusNow(t, es[0], uid) then 1 else 0) + BonusesPaid(Apply(t, es[0]), es[1..], uid)
  }

  /** Every daily-bonus claim of `uid` in the run is made on date `d`. */
  ghost predicate BonusClaimsOn(es: seq<Event>, uid: UserId, d: Date) {
    forall i :: 0 <= i < |es| && es[i].DailyBonusButton? && es[i].uid == uid ==> es[i].today == d
  }

  predicate ClaimedOn(t: Tables, uid: UserId, d: Date) {
    uid in t.users && t.users[uid].lastDailyBonus == Some(d)
  }

  lemma ApplyKeepsClaimed(t: Tables, e: Event, uid: UserId, d: Date)
    requires ClaimedOn(t, uid, d)
    requires e.DailyBonusButton? && e.uid == uid ==> e.today == d
    ensures ClaimedOn(Apply(t, e), uid, d)
    ensures !PaysBonusNow(t, e, uid)
  {
  }

  lemma BonusClaimsOnTail(es: seq<Event>, uid: UserId, d: Date)
    requires es != [] && BonusClaimsOn(es, uid, d)
    ensures BonusClaimsOn(es[1..], uid, d)
  {
  }

  lemma {:induction false} ClaimedStaysUnpaid(t: Tables, es: seq<Event>, uid: UserId, d: Date)
    requires ClaimedOn(t, uid, d) && BonusClaimsOn(es, uid, d)
    ensures BonusesPaid(t, es, uid) == 0
    decreases |es|
  {
    if es != [] {
      ApplyKeepsClaimed(t, es[0], uid, d);
      BonusClaimsOnTail(es, uid, d);
      ClaimedStaysUnpaid(Apply(t, es[0]), es[1..], uid, d);
    }
  }

  /** In a run within one date `d`, a user is paid the daily bonus at most once, and not
      at all when the bonus was already claimed on `d`. */
  lemma {:induction false} BonusAtMostOncePerDate(t: Tables, es: seq<Event>, uid: UserId, d: Date)
    requires BonusClaimsOn(es, uid, d)
    ensures BonusesPaid(t, es, uid) <= 1
    ensures ClaimedOn(t, uid, d) ==> BonusesPaid(t, es, uid) == 0
    decreases |es|
  {
    if ClaimedOn(t, uid, d) {
      ClaimedStaysUnpaid(t, es, uid, d);
    } else if es != [] {
      BonusClaimsOnTail(es, uid, d);
      if PaysBonusNow(t, es[0], uid) {
        ClaimedStaysUnpaid(Apply(t, es[0]), es[1..], uid, d);
      } else {
        BonusAtMostOncePerDate(Apply(t, es[0]), es[1..], uid, d);
      }
    }
  }

  // ---------------------------------------------------------------------------
  // No more than MAX_ADS_PER_DAY ads are paid to a user within one date.

  /** The event is an ad confirmation by `uid` that is paid on the tables `t`. */
  predicate PaysAdNow(t: Tables, e: Event, uid: UserId) {
    e.ConfirmAdButton? && e.uid == uid && ConfirmAd(t, uid, e.username, e.token, e.now, e.today).reply == AdCredited
  }

  function AdsPaid(t: Tables, es: seq<Event>, uid: UserId): nat
    decreases |es|
  {
    if es == [] then 0
    else (if PaysAdNow(t, es[0], uid) then 1 else 0) + AdsPaid(Apply(t, es[0]), es[1..], uid)
  }

  /** The ads already counted for `uid` on date `d`. */
  function UsedOn(t: Tables, uid: UserId, d: Date): int {
    if uid in t.users && t.users[uid].lastResetDate == Some(d) then t.users[uid].adsToday else 0
  }

  /** Every ad confirmation of `uid` in the run is made on date `d`. */
  ghost predicate AdClaimsOn(es: seq<Event>, uid: UserId, d: Date) {
    forall i :: 0 <= i < |es| && es[i].ConfirmAdButton? && es[i].uid == uid ==> es[i].today == d
  }

  lemma ApplyCountsAds(t: Tables, e: Event, uid: UserId, d: Date)
    requires e.ConfirmAdButton? && e.uid == uid ==> e.today == d
    ensures UsedOn(Apply(t, e), uid, d) == UsedOn(t, uid, d) + (if PaysAdNow(t, e, uid) then 1 else 0)
  {
  }

  lemma AdClaimsOnTail(es: seq<Event>, uid: UserId, d: Date)
    requires es != [] && AdClaimsOn(es, uid, d)
    ensures AdClaimsOn(es[1..], uid, d)
  {
  }

  /** In a run within one date `d`, the ads paid to a user never exceed what is left of
      that date's quota: MAX_ADS_PER_DAY less the ads already counted on `d`. */
  lemma {:induction false} AdsPaidWithinQuota(t: Tables, es: seq<Event>, uid: UserId, d: Date)
    requires Consistent(t) && AdClaimsOn(es, uid, d)
    ensures AdsPaid(t, es, uid) + UsedOn(t, uid, d) <= MAX_ADS_PER_DAY
    decreases |es|
  {
    if es == [] {
      assert uid in t.users ==> RowAgrees(t.users[uid], t.journal, uid);
    } else {
      ApplyCountsAds(t, es[0], uid, d);
      ApplyKeepsConsistent(t, es[0]);
      AdClaimsOnTail(es, uid, d);
      AdsPaidWithinQuota(Apply(t, es[0]), es[1..], uid, d);
    }
  }

  // ---------------------------------------------------------------------------
  // Behaviours of the code as written.

  /** The wait is inclusive: with quota left, a claim exactly WAIT_SECONDS after the latest
      click is paid, and one a second earlier is refused. */
  lemma WaitIsInclusive(t: Tables, uid: UserId, username: string, token: Token, ts: int, today: Date)
    requires Store.LatestClick(t.clicks, uid, token) == Some(Click(uid, token, ts))
    requires Store.CanWatchMoreAds(Store.EnsureUser(t, uid, Some(username), None), uid, MAX_ADS_PER_DAY, today)
    ensures ConfirmAd(t, uid, username, token, ts + WAIT_SECONDS - 1, today).reply == WaitNotElapsed(WAIT_SECONDS - 1)
    ensures ConfirmAd(t, uid, username, token, ts + WAIT_SECONDS, today).reply == AdCredited
  {
  }

  /** Every `/start` that names an existing other user pays that user again. */
  lemma RepeatedStartPaysAgain(t: Tables, uid: UserId, username: string, p: UserId, now: int, now': int)
    requires p in t.users && p != uid && p != 0 && FitsInt64(p)
    ensures var first := Start(t, uid, username, Some(p), now);
            var second := Start(first.after, uid, username, Some(p), now');
            && first.reply == Some(p) && second.reply == Some(p)
            && second.after.users[p].referralsCount == t.users[p].referralsCount + 2
            && second.after.users[p].referralBalance == t.users[p].referralBalance + 2 * REFERRAL_BONUS_MICRO
  {
  }

  /** Rejecting an approved request marks it rejected, answers success and keeps the debit. */
  lemma RejectAfterApproveKeepsDebit(t: Tables, wid: int, username: string)
    requires wid in t.withdraws && t.withdraws[wid].status == Pending && t.withdraws[wid].user in t.users
    ensures var w := t.withdraws[wid];
            var approved := AdminApprove(t, ADMIN_ID, username, wid);
            var rejected := AdminReject(approved.after, ADMIN_ID, username, wid);
            && approved.reply == Answered(true) && rejected.reply == Answered(true)
            && rejected.after.withdraws[wid].status == Rejected
            && rejected.after.users[w.user].balance == t.users[w.user].balance - w.amount
  {
  }

  /** Two requests made before either is decided each record the whole balance, and
      approving both debits it twice: nothing stops the balance going negative. */
  lemma TwoRequestsOverdraw(t: Tables, uid: UserId, username: string, now: int, now': int)
    requires Store.IdsBelowCounter(t)
    requires uid in t.users && t.users[uid].balance >= WITHDRAW_MIN_MICRO
    ensures var b := t.users[uid].balance;
            var first := Withdraw(t, uid, username, now);
            var second := Withdraw(first.after, uid, username, now');
            && first.reply == Submitted(first.reply.wid, b)
            && second.reply == Submitted(second.reply.wid, b)
            && first.reply.wid != second.reply.wid
            && var a := AdminApprove(second.after, ADMIN_ID, "", first.reply.wid);
               var a' := AdminApprove(a.after, ADMIN_ID, "", second.reply.wid);
               && a.reply == Answered(true) && a'.reply == Answered(true)
               && a'.after.users[uid].balance == -b
  {
  }
}
