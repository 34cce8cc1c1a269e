/** The ledger database as an object whose four tables are updated in place. Each
    method is one helper or one handler branch, done step by step as the bot does it,
    and is proved to leave exactly the tables its specification function describes. */
module Db {
  import opened Schema
  import Store
  import Handlers
  import Audit

  class Ledger {
    var users: map<UserId, User>
    var clicks: seq<Click>
    var withdraws: map<int, Withdrawal>
    var nextWithdrawId: int
    var journal: seq<Transaction>

    function State(): Tables
      reads this
    {
      Tables(users, clicks, withdraws, nextWithdrawId, journal)
    }

    /** The tables agree with the journal (see `Audit.Consistent`). */
    ghost predicate Valid()
      reads this
    {
      Audit.Consistent(State())
    }

    /** `init_db` on a new database: four empty tables. */
    constructor ()
      ensures State() == EMPTY
      ensures Valid()
    {
      users, clicks, withdraws, nextWithdrawId, journal := map[], [], map[], 1, [];
      Audit.EmptyIsConsistent();
    }

    // -------------------------------------------------------------------------
    // Storage helpers

    method EnsureUser(uid: UserId, username: Option<string>, referredBy: Option<UserId>)
      modifies this
      ensures State() == Store.EnsureUser(old(State()), uid, username, referredBy)
    {
      if uid !in users {
        users := users[uid := BlankUser(username, referredBy)];
      }
    }

    method Credit(uid: UserId, amount: int, column: Column, addTotal: bool, kind: TxKind, now: int)
      modifies this
      ensures State() == Store.Credit(old(State()), uid, amount, column, addTotal, kind, now)
    {
      if uid in users {
        users := users[uid := Credited(users[uid], column, amount, false)];
        if addTotal {
          users := users[uid := users[uid].(totalEarned := users[uid].totalEarned + amount)];
        }
      }
      journal := journal + [Transaction(uid, kind, amount, now)];
    }

    method RecordClick(uid: UserId, token: Token, now: int) returns (ts: int)
      modifies this
      ensures ts == now
      ensures State() == Store.RecordClick(old(State()), uid, token, now)
    {
      ts := now;
      clicks := clicks + [Click(uid, token, ts)];
    }

    /** `get_click`: one pass over the clicks, keeping the latest match seen so far. */
    method GetClick(uid: UserId, token: Token) returns (found: Option<Click>)
      ensures found == Store.LatestClick(clicks, uid, token)
    {
      found := None;
      var i := 0;
      while i < |clicks|
        invariant 0 <= i <= |clicks|
        invariant found == Store.LatestClick(clicks[..i], uid, token)
      {
        assert clicks[..i + 1][..i] == clicks[..i];
        var c := clicks[i];
        if Store.Matches(c, uid, token) && (found.None? || found.value.ts <= c.ts) {
          found := Some(c);
        }
        i := i + 1;
      }
      assert clicks[..i] == clicks;
    }

    method IncAdsToday(uid: UserId, today: Date) returns (count: int)
      modifies this
      ensures Step(State(), count) == Store.IncAdsToday(old(State()), uid, today)
    {
      if uid !in users {
        return 0;
      }
      var u := users[uid];
      if u.lastResetDate != Some(today) {
        users := users[uid := u.(lastResetDate := Some(today), adsToday := 1)];
        return 1;
      }
      count := u.adsToday + 1;
      users := users[uid := u.(adsToday := count)];
    }

    method SetDailyBonusClaimed(uid: UserId, today: Date)
      modifies this
      ensures State() == Store.SetDailyBonusClaimed(old(State()), uid, today)
    {
      if uid in users {
        users := users[uid := users[uid].(lastDailyBonus := Some(today))];
      }
    }

    method AddReferralFor(referrer: UserId)
      modifies this
      ensures State() == Store.AddReferralFor(old(State()), referrer)
    {
      if referrer in users {
        users := users[referrer := users[referrer].(referralsCount := users[referrer].referralsCount + 1)];
      }
    }

    method AddWithdrawRequest(uid: UserId, amount: int, now: int) returns (wid: int)
      modifies this
      ensures Step(State(), wid) == Store.AddWithdrawRequest(old(State()), uid, amount, now)
    {
      wid := nextWithdrawId;
      withdraws := withdraws[wid := Withdrawal(uid, amount, Pending, now)];
      nextWithdrawId := nextWithdrawId + 1;
    }

    method ApproveWithdraw(wid: int) returns (ok: bool)
      modifies this
      ensures Step(State(), ok) == Store.ApproveWithdraw(old(State()), wid)
    {
      if wid !in withdraws {
        return false;
      }
      var w := withdraws[wid];
      if w.status != Pending {
        return false;
      }
      if w.user in users {
        users := users[w.user := users[w.user].(balance := users[w.user].balance - w.amount)];
      }
      withdraws := withdraws[wid := w.(status := Approved)];
      ok := true;
    }

    method RejectWithdraw(wid: int) returns (ok: bool)
      modifies this
      ensures Step(State(), ok) == Store.RejectWithdraw(old(State()), wid)
    {
      if wid in withdraws {
        withdraws := withdraws[wid := withdraws[wid].(status := Rejected)];
      }
      ok := true;
    }

    // -------------------------------------------------------------------------
    // Handler branches that move the ledger

    method Start(uid: UserId, username: string, arg: Option<int>, now: int) returns (referrer: Option<UserId>)
      requires Valid()
      modifies this
      ensures Valid()
      ensures Step(State(), referrer) == Handlers.Start(old(State()), uid, username, arg, now)
    {
      var referredBy: Option<UserId> := None;
      if arg.Some? && arg.value != uid {
        referredBy := arg;
      }
      EnsureUser(uid, Some(username), None);
      referrer := None;
      if referredBy.Some? && referredBy.value != 0 && FitsInt64(referredBy.value)
         && Store.UserRow(State(), referredBy.value).Some? {
        AddReferralFor(referredBy.value);
        Credit(referredBy.value, REFERRAL_BONUS_MICRO, ReferralBalance, true, Referral, now);
        referrer := referredBy;
      }
      Audit.StartKeepsConsistent(old(State()), uid, username, arg, now);
    }

    /** Any button press whose only ledger effect is the presser's row. */
    method Press(uid: UserId, username: string)
      requires Valid()
      modifies this
      ensures Valid()
      ensures State() == Handlers.ButtonPrelude(old(State()), uid, username)
    {
      EnsureUser(uid, Some(username), None);
      Audit.EnsureUserKeepsConsistent(old(State()), uid, Some(username));
    }

    method Track(user: Option<UserId>, token: Token, now: int)
      requires Valid()
      modifies this
      ensures Valid()
      ensures State() == Handlers.Track(old(State()), user, token, now)
    {
      if user.Some? && user.value != 0 && FitsInt64(user.value) {
        var _ := RecordClick(user.value, if token == "" then "none" else token, now);
      }
    }

    method ConfirmAd(uid: UserId, username: string, token: Token, now: int, today: Date) returns (reply: Handlers.AdClaim)
      requires Valid()
      modifies this
      ensures Valid()
      ensures Step(State(), reply) == Handlers.ConfirmAd(old(State()), uid, username, token, now, today)
    {
      Audit.ConfirmAdKeepsConsistent(State(), uid, username, token, now, today);
      EnsureUser(uid, Some(username), None);
      var click := GetClick(uid, token);
      if click.None? {
        return Handlers.ClickNotFound;
      }
      var elapsed := now - click.value.ts;
      if elapsed < WAIT_SECONDS {
        return Handlers.WaitNotElapsed(elapsed);
      }
      if !Store.CanWatchMoreAds(State(), uid, MAX_ADS_PER_DAY, today) {
        return Handlers.DailyLimitReached;
      }
      Credit(uid, AD_USER_SHARE_MICRO, AdBalance, true, Ad, now);
      var _ := IncAdsToday(uid, today);
      reply := Handlers.AdCredited;
    }

    method DailyBonus(uid: UserId, username: string, now: int, today: Date) returns (reply: Handlers.BonusClaim)
      requires Valid()
      modifies this
      ensures Valid()
      ensures Step(State(), reply) == Handlers.DailyBonus(old(State()), uid, username, now, today)
    {
      Audit.DailyBonusKeepsConsistent(State(), uid, username, now, today);
      EnsureUser(uid, Some(username), None);
      if Store.HasClaimedDaily(State(), uid, today) {
        return Handlers.AlreadyClaimed;
      }
      Credit(uid, DAILY_BONUS_MICRO, Balance, true, Bonus, now);
      SetDailyBonusClaimed(uid, today);
      reply := Handlers.BonusCredited;
    }

    method Withdraw(uid: UserId, username: string, now: int) returns (reply: Handlers.WithdrawReply)
      requires Valid()
      modifies this
      ensures Valid()
      ensures Step(State(), reply) == Handlers.Withdraw(old(State()), uid, username, now)
    {
      Audit.WithdrawKeepsConsistent(State(), uid, username, now);
      EnsureUser(uid, Some(username), None);
      var balance := if uid in users then users[uid].balance else 0;
      if balance < WITHDRAW_MIN_MICRO {
        return Handlers.BelowMinimum(balance);
      }
      var wid := AddWithdrawRequest(uid, balance, now);
      reply := Handlers.Submitted(wid, balance);
    }

    method Approve(caller: UserId, username: string, wid: int) returns (reply: Handlers.AdminReply)
      requires Valid()
      modifies this
      ensures Valid()
      ensures Step(State(), reply) == Handlers.AdminApprove(old(State()), caller, username, wid)
    {
      Audit.AdminKeepsConsistent(State(), caller, username, wid);
      EnsureUser(caller, Some(username), None);
      if caller != ADMIN_ID {
        return Handlers.NotAdmin;
      }
      var ok := ApproveWithdraw(wid);
      reply := Handlers.Answered(ok);
    }

    method Reject(caller: UserId, username: string, wid: int) returns (reply: Handlers.AdminReply)
      requires Valid()
      modifies this
      ensures Valid()
      ensures Step(State(), reply) == Handlers.AdminReject(old(State()), caller, username, wid)
    {
      Audit.AdminKeepsConsistent(State(), caller, username, wid);
      EnsureUser(caller, Some(username), None);
      if caller != ADMIN_ID {
        return Handlers.NotAdmin;
      }
      var ok := RejectWithdraw(wid);
      reply := Handlers.Answered(ok);
    }

    method Postback(subid: Option<UserId>, share: int, now: int) returns (reply: Handlers.PostbackReply)
      requires Valid()
      modifies this
      ensures Valid()
      ensures Step(State(), reply) == Handlers.Postback(old(State()), subid, share, now)
    {
      Audit.PostbackKeepsConsistent(State(), subid, share, now);
      if subid.None? || subid.value == 0 {
        return Handlers.MissingSubid;
      }
      if !FitsInt64(subid.value) {
        return Handlers.SubidOverflow;
      }
      EnsureUser(subid.value, None, None);
      if !FitsInt64(share) {
        return Handlers.ShareOverflow;
      }
      Credit(subid.value, share, OfferBalance, true, Offer, now);
      reply := Handlers.OfferCredited;
    }
  }
}
