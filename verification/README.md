# Earnly reward ledger, modelled in Dafny

Earnly is a Telegram bot that pays users in micro-units (1 micro = $0.001). Users earn by
watching ads, completing offerwall tasks, claiming a daily bonus and referring other users,
and they can ask to withdraw. Behind its handlers and its SQLite calls sits a small
transactional ledger over four tables:

- `users`: one row per user, with four independent balance columns (`balance_micro`,
  `ad_balance_micro`, `offer_balance_micro`, `referral_balance_micro`), the lifetime
  `total_earned_micro`, the referral count and referrer, the date of the last daily bonus,
  and the date and count of today's ads;
- `clicks`: the tracking-link visits (user, token, timestamp);
- `withdraws`: withdrawal requests under auto-increment ids, each pending, approved or rejected;
- `transactions`: the append-only journal of credits.

This project models that ledger.

- `schema.dfy` (module `Schema`) holds the rows and tables as values, and the configuration
  at its default values.
- `store.dfy` (module `Store`) gives each storage helper of `main.py` as a function from the
  tables before the call to the tables after it.
- `handlers.dfy` (module `Handlers`) does the same for the ledger branches of `/start`, the
  button handler, the offerwall postback and the tracking link.
- `ledger.dfy` (module `Db`) is the database as an object, class `Ledger`, whose fields are
  the four tables. Its methods do each helper's read-then-update step by step and call each
  other the way the handlers do. Each method is proved to leave exactly the tables that its
  function in `Store` or `Handlers` describes. The handler methods also keep the journal
  invariant.
- `audit.dfy` (module `Audit`) states what holds over any sequence of inputs. The journal
  accounts for every credited column except `balance_micro`. Each withdrawal is approved at most once. The daily
  bonus is paid at most once per date. No more ads are paid on a date than the daily quota
  leaves.

Clock readings (`now`, in seconds), the current date (`today`, ISO text) and tokens are
parameters.

### Behaviour as written

The model follows the code, including where it departs from what a ledger design might
promise:

- The four balance columns are independent. Ad, offer and referral credits go to their own
  column. Only the daily bonus credits `balance_micro`, which is the only column that a
  withdrawal reads and debits.
- Approving a request debits the amount recorded with it. There is no check that the balance
  covers it, and no journal entry. Two requests made before either is decided can both be
  approved (`Audit.TwoRequestsOverdraw`).
- `reject_withdraw` does not look at the status. It can mark an approved request rejected,
  and the debit stays (`Audit.RejectAfterApproveKeepsDebit`).
- Every `/start` that names an existing other user pays a referral again
  (`Audit.RepeatedStartPaysAgain`). `referred_by` is never set from `/start`.
- A value outside the 64-bit range cannot be bound by the database driver, and the call
  that binds it raises. A postback `subid` like that fails the first lookup, so nothing is
  written (reply `SubidOverflow`). A postback share like that fails the credit after the
  row is in place (reply `ShareOverflow`). A tracking-link user like that stores no click.
  A `/start` referrer id like that pays nothing after the caller's row is in place.
- Python truthiness decides three guards. A referrer id, postback `subid` or tracking-link
  user equal to 0 counts as absent.

## Model

| member | source | states |
|---|---|---|
| `Store.UserRow` | main.py:107-110 | the row of a user is returned exactly when one exists |
| `Store.EnsureUser` | main.py:99-105 | the user has a row afterwards; existing rows and all other tables are untouched; a new row has every balance and counter 0, both dates null, and the given username and referrer |
| `Store.EnsureUserIdempotent` | main.py:99-105 | a second `ensure_user` for the same id changes nothing, whatever its arguments |
| `Store.TotalUsers` | main.py:205-207 | the number of user rows, zero exactly when there are none |
| `Store.EnsureUserCountsOnce` | main.py:205-207 | `ensure_user` raises the user count by one exactly when the user was unknown |
| `Store.Credit` | main.py:112-119 | exactly the named column grows by the amount, `total_earned_micro` grows by it iff `add_total`, the rest of the row and every other row are unchanged, an unknown user changes no row, and exactly one journal entry (user, type, amount, time) is appended in every case |
| `Store.RecordClick` | main.py:121-126 | one click (user, token, now) is appended and nothing else changes |
| `Store.LatestClick` | main.py:128-131 | none exactly when no click of the user carries the token; otherwise a matching click whose timestamp is at least that of every matching click |
| `Store.LatestClickUnique` | main.py:128-131 | any matching click with the greatest timestamp is the one returned, so the database's tie order cannot change the answer |
| `Store.IncAdsToday` | main.py:133-145 | unknown user: returns 0 and changes nothing; count from an earlier date: count 1 and the reset date set to today; same date: count + 1 stored and returned; nothing else changes |
| `Store.CanWatchMoreAds` | main.py:147-155 | true for an unknown user and for a count from an earlier date, whatever that count; otherwise true iff today's count is below the limit |
| `Store.CheckedIncStaysWithinLimit` | main.py:379-385 | counting an ad only after the quota check passed never takes the stored count above the limit |
| `Store.HasClaimedDaily` | main.py:157-162 | true iff the user has a row whose bonus date is today |
| `Store.SetDailyBonusClaimed` | main.py:164-168 | only the user's bonus date changes, to today; afterwards the claim check answers true iff the user has a row |
| `Store.AddReferralFor` | main.py:170-173 | the referrer's referral count grows by one and nothing else changes; an unknown referrer changes nothing |
| `Store.AddWithdrawRequest` | main.py:175-181 | a pending request (user, amount, now) is stored under the counter's id, which is the id returned, which is fresh while every id lies below the counter, and the counter moves past it |
| `Store.PendingWithdraws` | main.py:183-186 | exactly the requests whose status is pending, with their rows |
| `Store.ApproveWithdraw` | main.py:188-198 | succeeds iff the request exists and is pending; on failure nothing changes; on success the owner's `balance_micro` falls by the recorded amount with no sufficiency check, the request becomes approved, and nothing else changes |
| `Store.ApproveTwiceFails` | main.py:188-198 | approving the same request again fails and changes nothing |
| `Store.RejectWithdraw` | main.py:200-203 | always answers true, marks an existing request rejected whatever its status, and touches nothing else |
| `Store.DecisionLeavesPending` | main.py:183-203 | approving or rejecting a pending request removes it, and only it, from the pending list |
| `Handlers.ButtonPrelude` | main.py:348-353 | every button press gives the presser a row without a referrer and changes nothing else |
| `Handlers.Track` | main.py:291-301 | a click is recorded, with an empty token stored as "none", only for a non-zero user within the 64-bit range; nothing else changes |
| `Handlers.Start` | main.py:320-339 | the caller gets a row; a referral is paid iff the argument is a non-zero integer within the 64-bit range, other than the caller's id, naming an existing user, and then the referrer gets one more referral, the bonus on its referral column and lifetime total, and one journal entry; otherwise nothing changes beyond the caller's row; the caller's `referred_by` is never set |
| `Handlers.ConfirmAd` | main.py:369-385 | nothing changes beyond the presser's row when there is no click for (user, token), when fewer than WAIT_SECONDS passed since the latest one (exactly WAIT_SECONDS is enough), or when the quota check fails; otherwise the ad share is added to the ad column and lifetime total, today's count advances, `balance_micro` is untouched and one journal entry is appended |
| `Handlers.DailyBonus` | main.py:400-405 | refused, changing nothing beyond the presser's row, iff the bonus date is today; otherwise `balance_micro` and the lifetime total grow by the bonus, the bonus date becomes today, and one journal entry is appended |
| `Handlers.DailyBonusOncePerDate` | main.py:400-405 | a second claim on the same date is refused and changes nothing |
| `Handlers.Withdraw` | main.py:437-443 | refused iff `balance_micro` is below the minimum; otherwise a pending request for the whole current `balance_micro` under the counter's id, which is fresh, with the counter advanced by one and no balance moved |
| `Handlers.AdminApprove` | main.py:457-469 | a non-admin changes nothing beyond its row; for the admin it succeeds iff the request is pending, and then debits exactly the recorded amount from the owner's `balance_micro` and marks the request approved |
| `Handlers.AdminReject` | main.py:471-480 | a non-admin changes nothing beyond its row; for the admin it answers success, marks the request rejected whatever its status and never touches a row |
| `Handlers.Postback` | main.py:305-315 | refused, changing nothing, without a non-zero `subid` or with one outside the 64-bit range; otherwise the user gets a row if needed; a share outside the 64-bit range fails the credit and leaves only that row; any other share goes to the offer column and the lifetime total, and one journal entry is appended |
| `Audit.EmptyIsConsistent` | main.py:59-97 | the freshly created database agrees with its (empty) journal |
| `Audit.EnsureUserKeepsConsistent` | main.py:99-105 | a new row agrees with the journal, which mentions no unknown user |
| `Audit.StartKeepsConsistent` | main.py:320-339 | `/start` keeps every row in agreement with the journal |
| `Audit.ConfirmAdKeepsConsistent` | main.py:369-385 | ad settlement keeps every row in agreement with the journal and every ad count within the daily limit |
| `Audit.DailyBonusKeepsConsistent` | main.py:400-405 | the daily bonus keeps every row in agreement with the journal |
| `Audit.OfferCreditKeepsConsistent` | main.py:112-119 | crediting an existing row's offer column with its journal entry keeps every row in agreement with the journal |
| `Audit.PostbackKeepsConsistent` | main.py:305-315 | the postback keeps every row in agreement with the journal |
| `Audit.WithdrawKeepsConsistent` | main.py:437-443 | a withdrawal request keeps the invariant, ids included |
| `Audit.AdminKeepsConsistent` | main.py:457-480 | approving and rejecting keep the invariant |
| `Audit.ApplyKeepsConsistent` | main.py:112-119 | every input keeps the invariant |
| `Audit.RunKeepsConsistent` | main.py:112-119 | over any run: every lifetime total is the sum of the user's journal entries; the ad, offer and referral columns are the sums of their kinds; the referral count is the number of referral entries; every ad count is at most MAX_ADS_PER_DAY; every journal entry names an existing user |
| `Audit.ApplyKeepsEarned` | main.py:112-119 | one input keeps a user's row and does not lower its lifetime total, given a non-negative postback share |
| `Audit.TotalEarnedNeverFalls` | main.py:112-119 | over any run with non-negative postback shares, a user's row survives and its lifetime total never decreases |
| `Audit.ApplyKeepsIds` | main.py:175-181 | every input keeps all withdrawal ids below the auto-increment counter |
| `Audit.ApplyKeepsDecided` | main.py:188-203 | a request that has left pending stays out of pending, and no input approves it |
| `Audit.DecidedStaysUnapproved` | main.py:188-198 | over any run, a request that has left pending is never approved again |
| `Audit.ApprovedAtMostOnce` | main.py:188-198 | over any run, each request is approved, and so debited, at most once |
| `Audit.ApplyKeepsClaimed` | main.py:157-168 | a bonus date of `d` survives every input whose bonus claims for the user are made on `d`, and no such input pays the bonus |
| `Audit.ClaimedStaysUnpaid` | main.py:400-405 | once the bonus is claimed on `d`, no run within `d` pays it again |
| `Audit.BonusAtMostOncePerDate` | main.py:400-405 | within one date, a user is paid the daily bonus at most once |
| `Audit.ApplyCountsAds` | main.py:379-385 | the ads counted for a user on `d` grow by one exactly when an input pays that user an ad on `d`, and otherwise stay the same |
| `Audit.AdsPaidWithinQuota` | main.py:379-385 | within one date, the ads paid to a user never exceed MAX_ADS_PER_DAY less those already counted that date |
| `Audit.WaitIsInclusive` | main.py:375-378 | with quota left, a claim exactly WAIT_SECONDS after the latest click is paid and one a second earlier is refused |
| `Audit.RepeatedStartPaysAgain` | main.py:333-339 | two `/start` calls naming the same existing referrer pay two referrals |
| `Audit.RejectAfterApproveKeepsDebit` | main.py:200-203 | rejecting an approved request answers success, marks it rejected and keeps the debit |
| `Audit.TwoRequestsOverdraw` | main.py:437-443 | two requests made before either is decided each record the whole balance, and approving both leaves the balance at minus that amount |
| `Db.Ledger.constructor` | main.py:59-97 | a new database has four empty tables, withdrawal ids starting at 1, and satisfies the invariant |
| `Db.Ledger.EnsureUser` | main.py:99-105 | the tables become `Store.EnsureUser` of the old tables |
| `Db.Ledger.Credit` | main.py:112-119 | the column update, the separate total update and the journal insert together leave `Store.Credit` of the old tables |
| `Db.Ledger.RecordClick` | main.py:121-126 | returns now; the tables become `Store.RecordClick` of the old tables |
| `Db.Ledger.GetClick` | main.py:128-131 | one pass over the clicks returns `Store.LatestClick` |
| `Db.Ledger.IncAdsToday` | main.py:133-145 | the tables and the returned count are those of `Store.IncAdsToday` |
| `Db.Ledger.SetDailyBonusClaimed` | main.py:164-168 | the tables become `Store.SetDailyBonusClaimed` of the old tables |
| `Db.Ledger.AddReferralFor` | main.py:170-173 | the tables become `Store.AddReferralFor` of the old tables |
| `Db.Ledger.AddWithdrawRequest` | main.py:175-181 | the tables and the returned id are those of `Store.AddWithdrawRequest` |
| `Db.Ledger.ApproveWithdraw` | main.py:188-198 | the tables and the answer are those of `Store.ApproveWithdraw` |
| `Db.Ledger.RejectWithdraw` | main.py:200-203 | the tables and the answer are those of `Store.RejectWithdraw` |
| `Db.Ledger.Start` | main.py:320-339 | keeps the invariant; the tables and the paid referrer are those of `Handlers.Start` |
| `Db.Ledger.Press` | main.py:348-353 | keeps the invariant; the tables become `Handlers.ButtonPrelude` of the old tables |
| `Db.Ledger.Track` | main.py:291-301 | keeps the invariant; the tables become `Handlers.Track` of the old tables |
| `Db.Ledger.ConfirmAd` | main.py:369-385 | keeps the invariant; the tables and the reply are those of `Handlers.ConfirmAd` |
| `Db.Ledger.DailyBonus` | main.py:400-405 | keeps the invariant; the tables and the reply are those of `Handlers.DailyBonus` |
| `Db.Ledger.Withdraw` | main.py:437-443 | keeps the invariant; the tables and the reply are those of `Handlers.Withdraw` |
| `Db.Ledger.Approve` | main.py:457-469 | keeps the invariant; the tables and the reply are those of `Handlers.AdminApprove` |
| `Db.Ledger.Reject` | main.py:471-480 | keeps the invariant; the tables and the reply are those of `Handlers.AdminReject` |
| `Db.Ledger.Postback` | main.py:305-315 | keeps the invariant; the tables and the reply are those of `Handlers.Postback` |

## Left out

- FastAPI startup and shutdown, the webhook receiver and the redirect response. Only the
  click recording of the tracking link is modelled. These parts are transport.
- Telegram presentation is left out: message text, keyboards, the balance and referral
  screens, admin and user notifications, and the broadcast. These are display and network
  sends.
- Floating-point money is left out: `micro_to_usd`, the USD to micro conversion and the 80%
  share in the postback, and `int(round(AD_REWARD_MICRO * 0.80))`. The postback takes the
  user's share as an integer input. The ad share is the constant 8, the default reward's
  80%.
- Configuration from the environment: the model uses the source's default values.
- Random tokens, the system clock and the current date are parameters. The source reads
  `time.time()` for the elapsed wait but the naive `datetime.utcnow().timestamp()` for click
  and journal times. These two agree only on a host whose local zone is UTC. The model uses
  one clock.
- Parsing is left out. The `/start` argument is an optional integer, with `None` for
  missing or non-numeric. The request id of an approve or reject button is an integer. A
  non-numeric one raises in the source after the presser's row has been ensured and before
  any other ledger step; that effect alone is `Db.Ledger.Press` (the `Press` event).
- The watch-ad button only makes a token and a link. Its ledger effect, the presser's row,
  is `Db.Ledger.Press`.
- `top_users`, the leaderboard and the admin statistics are read-only displays, and SQL
  leaves the leaderboard's tie order unspecified.
- SQLite connections and SQL text are left out. So are the races between a check and its
  update across connections: each helper and each handler branch is one atomic step.
- Audit.Consistent does not relate `balance_micro` to the journal. Approvals write no
  journal entry, and a rejection can overwrite an approval's status.
- Handlers.AdminApprove and Handlers.AdminReject do not check the request id against the
  64-bit range. For an id outside it the source raises, and the model answers as for an
  unknown id. The tables agree whenever every stored request id is within range. Telegram
  user ids are taken as given.
- Store.Credit does not model SQLite turning an integer column into REAL when `field + ?`
  passes the 64-bit range. Only the postback's share can get there, and the model bounds
  that share itself but not the sums of many in-range shares.
- Audit.TotalEarnedNeverFalls assumes non-negative postback shares, because the source
  credits whatever amount a postback carries.
