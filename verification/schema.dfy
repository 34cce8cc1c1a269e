/** The four tables of the reward ledger, as values.

    One micro-unit is $0.001. Every amount, balance, counter and timestamp is an
    unbounded integer. SQLite's INTEGER values are 64-bit: a parameter outside that
    range cannot be bound at all (see `FitsInt64`). The values an outside caller
    chooses are checked against it: the postback's `subid` and share, the tracking
    link's user and the `/start` referrer id. Dates are the ISO date text the
    ledger stores and compares; NULL columns are `None`. */
module Schema {

  datatype Option<+T> = None | Some(value: T)

  type UserId = int
  type Date = string
  type Token = string

  // Configuration, at the values the source uses when no environment override is set.
  const DAILY_BONUS_MICRO := 1
  const REFERRAL_BONUS_MICRO := 1
  const WITHDRAW_MIN_MICRO := 1000
  const MAX_ADS_PER_DAY := 10
  const WAIT_SECONDS := 30
  const ADMIN_ID: UserId := 7589508564
  /** The user's 80% share of the default gross ad reward of 10 micro-units. */
  const AD_USER_SHARE_MICRO := 8

  const INT64_MIN := -0x8000_0000_0000_0000
  const INT64_MAX := 0x7FFF_FFFF_FFFF_FFFF

  /** An integer the database driver can bind as an SQLite INTEGER parameter. */
  predicate FitsInt64(n: int) {
    INT64_MIN <= n <= INT64_MAX
  }

  /** The four independent balance columns of a user row that a credit may name. */
  datatype Column = Balance | AdBalance | OfferBalance | ReferralBalance

  /** The `type` tag of a journal entry, one per kind of credit the ledger makes. */
  datatype TxKind = Ad | Offer | Referral | Bonus

  /** A row of the `users` table; the user id is its key in `Tables.users`. */
  datatype User = User(
    username: Option<string>,
    balance: int,
    adBalance: int,
    offerBalance: int,
    referralBalance: int,
    totalEarned: int,
    referralsCount: int,
    referredBy: Option<UserId>,
    lastDailyBonus: Option<Date>,
    lastResetDate: Option<Date>,
    adsToday: int)

  /** A row of the `clicks` table (its auto-increment id plays no part in any lookup). */
  datatype Click = Click(user: UserId, token: Token, ts: int)

  datatype Status = Pending | Approved | Rejected

  /** A row of the `withdraws` table; the id is its key in `Tables.withdraws`. */
  datatype Withdrawal = Withdrawal(user: UserId, amount: int, status: Status, requestedAt: int)

  /** A row of the append-only `transactions` journal. */
  datatype Transaction = Transaction(user: UserId, kind: TxKind, amount: int, createdAt: int)

  /** The whole database. `nextWithdrawId` is the auto-increment counter of `withdraws`. */
  datatype Tables = Tables(
    users: map<UserId, User>,
    clicks: seq<Click>,
    withdraws: map<int, Withdrawal>,
    nextWithdrawId: int,
    journal: seq<Transaction>)

  /** What a ledger step leaves behind, together with what it answers. */
  datatype Step<+R> = Step(after: Tables, reply: R)

  /** The database right after the tables are created: empty, withdraw ids starting at 1. */
  const EMPTY := Tables(map[], [], map[], 1, [])

  /** A freshly inserted row: the column defaults, with the given username and referrer. */
  function BlankUser(username: Option<string>, referredBy: Option<UserId>): User {
    User(username, 0, 0, 0, 0, 0, 0, referredBy, None, None, 0)
  }

  function Amount(u: User, c: Column): int {
    match c
    case Balance => u.balance
    case AdBalance => u.adBalance
    case OfferBalance => u.offerBalance
    case ReferralBalance => u.referralBalance
  }

  /** Everything in a row except its money columns. */
  function Profile(u: User): User {
    u.(balance := 0, adBalance := 0, offerBalance := 0, referralBalance := 0, totalEarned := 0)
  }

  /** The row after `amount` is added to column `c`, and to the lifetime total when `addTotal`. */
  function Credited(u: User, c: Column, amount: int, addTotal: bool): User {
    var u' := match c
      case Balance => u.(balance := u.balance + amount)
      case AdBalance => u.(adBalance := u.adBalance + amount)
      case OfferBalance => u.(offerBalance := u.offerBalance + amount)
      case ReferralBalance => u.(referralBalance := u.referralBalance + amount);
    if addTotal then u'.(totalEarned := u.totalEarned + amount) else u'
  }
}
