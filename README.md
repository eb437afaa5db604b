# UOS score bot: token amounts, vesting withdrawals and message parsing

This project models the computational core of the UOS score bot for
Telegram. The bot reports the balances of a UOS blockchain account and links
Telegram users to UOS accounts. The model covers four parts.

- **`EosioToken`** (`src/eosio.token.js`). It models the token amount
  constructor. The constructor reads its argument with `parseFloat` and
  rejects "Unexpected value" when there is no number. An integer in the
  safe-integer range whose text has no `'.'` is taken as pre-scaled and
  divided by `10^decimal`. Any other number is kept as read. The module also
  models `toString`: en-US digit grouping, exactly `decimal` fraction digits,
  then `' '` and the symbol. The digit-level helpers live in `Digits`, and
  the JavaScript number built-ins (`parseFloat`, `Number.isSafeInteger`,
  `toFixed`) live in `JsNumber`. Amounts are exact `real`s.
- **`BalanceManager`** (`src/balance.manager.js`). It models:
  - the two vesting calculators, time-locked and activity-locked;
  - `getBalances`, which builds the balance report from up to four account
    rows;
  - the markdown template the report is shown with.

  The clock and the environment (vesting window and activity multiplier) are
  parameters. `getBalances` is a method that starts from an all-zero record
  and overwrites fields as rows arrive. It is proved equal to the function
  `Balances`, and the lemmas are stated about that function.
- **`UosScoreBot`** (`src/uos.score.bot.js`). It models:
  - the older aggregator `_getBalances`, as a method proved against
    `LegacyBalances`;
  - the ownership loop of `/link`, as a method whose loop carries the hidden
    `lastIndex` of the shared global regular expression;
  - the decision structure of `linkCommand`;
  - the name resolution and checks of `checkUser`.
- **`ActionParts`** (`src/telegraf-action-parts.js`). It models the
  `^!([^@\s]+)\s([^\s]+)$` decomposition of a text message. The middleware
  is a method over a `Context` class; the method writes `ctx.state.action`
  on a match and calls `next()` exactly once.

Modelling notes:

- **Number inputs.** A constructor argument that is a JavaScript number is
  represented by its `String()` text. Both `parseFloat` and the `'.'` test
  see exactly that text.
- **The pre-scaled branch.** In this case `src/eosio.token.js:11` stores the
  `toFixed(decimal)` text of `num / 10^decimal`, not a number. The division
  is done in doubles before `toFixed` runs. For decimal 4 the text denotes
  `num / 10^4` exactly while `num / 10^4 < 2^39`, that is for `num` below
  about 5.5·10^15. Above that, the double's rounding can move the last
  digit ("549755813888.0002" for 5497558138880003). The model leaves that
  out along with the rest of IEEE-754 (see "Left out"). Every later use
  (`*`, `-`, `Intl.NumberFormat.format`) converts the text back to its
  number, so the model stores the number.
- **Rounding.** `toFixed` and `Intl.NumberFormat` round the exact amount
  half away from zero (`JsNumber.Units`).
- **`withdrawal.decimal` is 4.** `getBalances` always builds the withdrawal
  token with the default `decimal`, so the value is 4 there
  (`BalanceManager.Available` makes use of this).
- **The `'@'` in checkUser.** `name.replace('@', '')` removes the first
  `'@'`. In that branch the name starts with `'@'`, so the model drops the
  first character.
- **Behaviour of the code worth noting:**
  - The time-locked amount has no upper clamp. Past the end of the window it
    keeps growing (`TimeLimitPastEnd`, `TimeLockedUncapped`).
  - Rendering and then re-reading an amount gives back the rounded amount
    only below 1000 (`RenderRoundTrip`). From 1000 on, the en-US `','` ends
    the number `parseFloat` reads (`RoundTripFailsExample`).
  - A text that does not parse rejects the whole report, because the
    constructor throws (`BalancesDefaults`).
  - The emission cap holds for the calculator (`ActivityAtMostEmission`),
    but `getBalances` never hands the emission row to it (Findings, row 1).

## Model

| member | source | states |
|---|---|---|
| EosioToken.Make | src/eosio.token.js:5-17 | construction fails with "Unexpected value" exactly when no number starts the text; decimal and symbol are stored; a safe integer without '.' is divided by 10^decimal, anything else keeps the parsed number |
| EosioToken.MakeZero | src/eosio.token.js:5-11 | new EosioToken(0) is the amount 0 with 4 digits and symbol UOS |
| EosioToken.MakeOfDigits | src/eosio.token.js:10-11 | any digit string in the safe range is taken as pre-scaled: its value over 10^decimal |
| EosioToken.MakeOfDecimal | src/eosio.token.js:10-13 | any text with a '.' after its digits keeps the decimal number it spells, unscaled |
| EosioToken.MakeScaledExample | src/eosio.token.js:10-11 | "12345" is 1.2345 UOS |
| EosioToken.MakeDecimalExample | src/eosio.token.js:10-13 | "100.0000 UOS" is 100 UOS |
| EosioToken.RenderShape | src/eosio.token.js:18-24 | toString is a sign, an integer part with a ',' between each group of three digits, '.' and exactly decimal fraction digits (none when decimal is 0), then ' ' and the symbol; the digits spell the rounded amount |
| EosioToken.RenderRounding | src/eosio.token.js:18-24 | the printed amount is within half a unit of the last printed digit of the stored amount |
| EosioToken.RenderRoundTrip | src/eosio.token.js:10-24 | below 1000 the rendered text read back by the constructor (same decimal and symbol) gives the rounded amount, not rescaled |
| EosioToken.RenderHundredExample | src/eosio.token.js:18-24 | 100 UOS renders as "100.0000 UOS" |
| EosioToken.RenderGroupedExample | src/eosio.token.js:18-24 | 1234.5 UOS renders as "1,234.5000 UOS" |
| EosioToken.RoundTripFailsExample | src/eosio.token.js:6-24 | "1,234.5000 UOS" reads back as 1 UOS: the ',' ends the number |
| EosioToken.MakeStopsEarly | src/eosio.token.js:6-13 | digits cut off by a character other than a digit or '.', in a text with a '.' later on, give their own value unscaled |
| JsNumber.ParseFloatNaN | src/eosio.token.js:6-8 | parseFloat is NaN exactly when, after whitespace and a sign, no digit (or '.' and a digit) follows |
| JsNumber.UnitsNear | src/eosio.token.js:18 | the rounded digit count is within half a unit of the exact amount |
| JsNumber.ToFixedPoint | src/balance.manager.js:87 | w.toFixed(d) contains a '.' exactly when d > 0 |
| JsNumber.ToFixedParses | src/balance.manager.js:87 | parseFloat of w.toFixed(d) is w rounded to d places |
| Digits.GroupShape | src/eosio.token.js:18 | en-US grouping keeps the digits in order and puts a ',' at every fourth place from the right |
| BalanceManager.Available | src/balance.manager.js:86-90 | the clamped result is never negative, is the zero token when the amount is not positive, and has 4 digits and symbol UOS |
| BalanceManager.AvailableConstructed | src/balance.manager.js:87 | new EosioToken(w.toFixed(d)) for a positive w is the token Available gives (rounded, not rescaled when d > 0) |
| BalanceManager.AvailableNear | src/balance.manager.js:86-87 | a positive amount printed and read back is off by at most half a unit of its last digit |
| BalanceManager.TimeLocked | src/balance.manager.js:73-91 | getAvailTimeLockedWithdrawal: zero when total*(now-start)/(end-start) - withdrawal is not positive, otherwise that amount to half a unit; never negative |
| BalanceManager.ActivityLimit | src/balance.manager.js:104-114 | the accrual is the smaller of the time share and emission times multiplier, and is one of the two |
| BalanceManager.ActivityLocked | src/balance.manager.js:93-123 | getAvailActivityLockedWithdrawal: zero when the accrual less the withdrawal is not positive, otherwise that amount to half a unit; never negative |
| BalanceManager.TimeLimitMonotone | src/balance.manager.js:84 | for a window with start < end and a non-negative deposit, the time share never decreases with now |
| BalanceManager.TimeLimitBeforeStart | src/balance.manager.js:84 | the time share is not positive until the window opens |
| BalanceManager.TimeLimitPastEnd | src/balance.manager.js:84 | past the end of the window the time share exceeds the deposit (no cap) |
| BalanceManager.AvailableMonotone | src/balance.manager.js:86-90 | clamping and rounding keep the order of amounts |
| BalanceManager.TimeLockedBeforeStart | src/balance.manager.js:84-90 | with non-negative deposit and withdrawal nothing is available before the window opens |
| BalanceManager.TimeLockedMonotone | src/balance.manager.js:84-90 | the time-locked available amount never decreases as time passes |
| BalanceManager.ActivityAtMostTime | src/balance.manager.js:104-122 | the activity-locked amount is at most the time-locked amount for the same deposit |
| BalanceManager.ActivityAtMostEmission | src/balance.manager.js:110-122 | the activity-locked amount is at most emission times multiplier less the withdrawal, clamped |
| BalanceManager.ActivityZeroEmission | src/balance.manager.js:110-122 | a zero emission total releases nothing once the withdrawal is not negative |
| BalanceManager.TimeLockedHalfway | src/balance.manager.js:84-88 | 100 UOS halfway through the window: 50 available |
| BalanceManager.TimeLockedEarly | src/balance.manager.js:84-90 | before the window opens: 0 available |
| BalanceManager.TimeLockedUncapped | src/balance.manager.js:84-88 | 100 UOS at twice the window length: 200 available |
| BalanceManager.ActivityLockedTie | src/balance.manager.js:112-116 | emission 10 times 5 ties with the time share 50: the time share is kept and 50 is available |
| BalanceManager.GetBalances | src/balance.manager.js:19-71 | the step-by-step record updates yield exactly the report Balances describes, or the constructor's error |
| BalanceManager.BalancesDefaults | src/balance.manager.js:20-70 | a report comes back exactly when every amount text parses; a field whose row is missing keeps the zero token; the name is the account name |
| BalanceManager.BalancesTokenRowOnly | src/balance.manager.js:32-38 | with only the token row the report holds its three amounts and zero locked fields |
| BalanceManager.BalancesUnlockedNonNegative | src/balance.manager.js:48 | neither "can withdraw" field is ever negative |
| BalanceManager.ActvUnlockedAlwaysZero | src/balance.manager.js:54-67 | the activity-locked "can withdraw" amount is zero whatever the rows say, once the withdrawal is not negative |
| BalanceManager.EmissionRowUnused | src/balance.manager.js:60-64 | the emission row's content never changes the report |
| BalanceManager.CorrectedChangesActivityOnly | src/balance.manager.js:54-67 | the corrected report differs from the written one only in the activity-locked "can withdraw" amount |
| BalanceManager.CorrectedActvUnlocked | src/balance.manager.js:57-63 | with the emission row's amount as the emission total, the activity-locked amount is the calculator's result and at most the time-locked one |
| BalanceManager.EmissionIgnoredExample | src/balance.manager.js:110 | deposit 100, emission 10, multiplier 5, halfway: 0 as written, 50 as intended |
| BalanceManager.MarkdownLines | src/balance.manager.js:10-17 | the message is six lines: the header, then Liquid, Stake NET, Stake CPU, the time-locked pair and the activity-locked pair, in that order, each amount rendered by toString |
| BalanceManager.TemplateLines | src/balance.manager.js:10-17 | the template cut at its line breaks gives its six lines back |
| UosScoreBot.GetLegacyBalances | src/uos.score.bot.js:257-289 | the step-by-step record updates of _getBalances yield exactly LegacyBalances |
| UosScoreBot.LegacyAgreesWithBalances | src/uos.score.bot.js:257-289 | the older report prints what getBalances stores for the same rows, but prints the raw withdrawals where getBalances computes what can be withdrawn; the two fail on the same rows |
| UosScoreBot.LegacyMissingRows | src/uos.score.bot.js:258-286 | without the token row the liquid and stake fields are absent (not zero); a missing vesting row prints as the zero token; the name is always set |
| UosScoreBot.Exec | src/uos.score.bot.js:68-71 | exec with the g flag succeeds exactly when lastIndex is 0 and the whole url matches; success leaves lastIndex at the url's length, failure resets it to 0 |
| UosScoreBot.LinkFound | src/uos.score.bot.js:66-75 | the loop's found is true exactly when some source the shared pattern actually matches captures the Telegram name |
| UosScoreBot.LinkFoundCorrected | src/uos.score.bot.js:68-75 | with a fresh match per source, found is true exactly when some source is a full t.me link to the name |
| UosScoreBot.AcceptedOwns | src/uos.score.bot.js:68-75 | the loop never accepts a source the intended check rejects |
| UosScoreBot.HitThenMiss | src/uos.score.bot.js:68-75 | the source right after a matched one is never matched |
| UosScoreBot.HitAlternates | src/uos.score.bot.js:68-75 | in a run of matching urls the loop matches every other one |
| UosScoreBot.HitIsMatchWhenApart | src/uos.score.bot.js:68-75 | without two matching urls in a row, the loop's match is exactly a full match |
| UosScoreBot.AcceptedWhenApart | src/uos.score.bot.js:66-75 | without two matching urls in a row, the loop decides as intended |
| UosScoreBot.SecondLinkMissed | src/uos.score.bot.js:68-75 | two t.me links in a row with the user's own second: the user owns the account but is not recognised |
| UosScoreBot.LinkCommand | src/uos.score.bot.js:50-107 | each reply of /link happens exactly when: the name is not 12 long; the account is unknown; the caller is already linked; the details are empty; they do not parse or have no sources; no source matches; otherwise the account linked is (caller id, Telegram name, argument) |
| UosScoreBot.CheckUser | src/uos.score.bot.js:128-145 | '@name' fails exactly when the name is not in the accounts table, and resolves through it; no name resolves to the caller's own account; every name looked up is 12 long |
| UosScoreBot.Checked | src/uos.score.bot.js:144-145 | "no name" exactly for an empty name, "bad length" exactly for a non-empty name not 12 long, otherwise the lookup |
| UosScoreBot.CheckUserNoName | src/uos.score.bot.js:132-144 | checkUser stops at "no name" exactly when no name was given and the caller has no linked account (or one with an empty name), or '@name' leads to an empty account name |
| ActionParts.ParseAction | src/telegraf-action-parts.js:3-13 | a match keeps the whole text, and its parts are a command without '@' or whitespace and an argument without whitespace, with text = '!' + command + one whitespace + argument |
| ActionParts.ParseActionComplete | src/telegraf-action-parts.js:3-13 | every '!' + command + one whitespace + argument is read back into exactly those parts (the decomposition is unique) |
| ActionParts.ParseActionRejectsArg | src/telegraf-action-parts.js:3 | after the command and one whitespace, an empty argument or one holding whitespace gives no match |
| ActionParts.ParseActionOneSeparator | src/telegraf-action-parts.js:3 | two whitespace characters between command and argument give no match |
| ActionParts.Context.Next | src/telegraf-action-parts.js:8 | next() hands the update on and changes nothing else |
| ActionParts.Middleware | src/telegraf-action-parts.js:6-16 | next() is called exactly once; on a match ctx.state.action is the parsed action, otherwise it is unchanged; the message is untouched |

## Left out

- I/O is left out: Telegram replies, command registration, launching and
  logging. The model keeps the decision each command reaches
  (`LinkOutcome`, `CheckOutcome`), not the reply text. The reply text
  concatenates environment variables and markdown helpers of
  `src/account.manager.js`, which is not part of this model.
- The database (knex) and the chain API are left out. What they answer is
  an input:
  - an `Option` row, None for an empty answer;
  - whether the score lookup found the account;
  - the caller's linked account;
  - the accounts table as a map keyed by Telegram name.

  `src/uos-api.js`, which `index.js` loads, is not part of this model. This
  includes `getUosAccountEmissionBalance`. The JSON.parse of the account
  details is therefore an abstract input (`DetailsAnswer`).
- The clock, `process.env` and `new Date(...)` parsing are left out. `now`,
  `start`, `end` and the multiplier are parameters, with the multiplier
  already a finite number. An unset multiplier, which makes the emission
  cap NaN, is not modelled.
- One `now` stands for the two clock reads. The time calculator reads the
  clock at `src/balance.manager.js:77`. The activity calculator reads it
  again at `src/balance.manager.js:97`, after the awaited fetches, so its
  instant is in fact later.
- `addAccount` failing, and an exception thrown by a reply, are left out.
  They are I/O failures after the decision the model makes.
- The lookup after checkUser's checks is left out, because it is a call
  into the API.
- IEEE-754 doubles are left out: amounts are exact reals.
  - The model has no binary rounding, no overflow and no negative zero.
  - An empty window (`end == start`, which gives Infinity or NaN) is
    excluded by a precondition.
  - `toFixed` for amounts of 10^21 or more (exponent notation) is not
    modelled.
- `parseFloat`'s exponent notation and the text "Infinity" are left out.
  The model reads a plain signed decimal prefix.
- `Intl.NumberFormat` is left out for more than 20 fraction digits, which
  throws a RangeError: `decimal` is unbounded in the model.
- Concurrency is left out: the fetches are awaited one after another, so
  there is none.
- Lengths are left out as UTF-16 counts. Strings are sequences of Unicode
  scalar values, so `length === 12` counts characters, which differs from
  JavaScript only for characters outside the Basic Multilingual Plane.
- A source whose `sourceUrl` is missing is not modelled separately. `exec`
  then sees the text "undefined", which never matches, so it is passed in as
  that text.

## Findings

| source | as written | input that shows it | evidently intended | confidence | as-written member | corrected member |
|---|---|---|---|---|---|---|
| src/balance.manager.js:57-63 | the emission row is stored in `bal.emission`, but the calculator reads `bal.total_emission`, which is fixed at the zero token, so the activity-locked "can withdraw" amount is always 0 when the multiplier is set to a finite number and the withdrawal is non-negative | activity row total 100, withdrawal 0; emission row total 10; multiplier 5; halfway through the window: 0 is reported | the emission row's amount caps the activity-locked accrual: 50 here | not executed | BalanceManager.ActvUnlockedAlwaysZero | BalanceManager.CorrectedActvUnlocked |
| src/uos.score.bot.js:68-75 | one global (`g`) pattern is reused across the loop, so after a successful `exec` the next `exec` starts at `lastIndex > 0`, fails and resets; a matching source right after a matched one is never checked | sources `["https://t.me/other", "https://t.me/me"]` with Telegram name `me`: not recognised | every source is matched on its own: recognised | not executed | UosScoreBot.SecondLinkMissed | UosScoreBot.LinkFoundCorrected |
