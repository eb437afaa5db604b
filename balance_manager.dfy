/** src/balance.manager.js: the vesting withdrawal calculators, the balance
    report that BalanceManager.getBalances assembles from up to four account
    rows, and the markdown it is shown with.

    The clock (`new Date().getTime()`) and the environment (the vesting window
    UOS_TIMELOCK_START / UOS_TIMELOCK_END and UOS_ACTLOCK_MULTIPLIER) are
    parameters: `now`, a `Settings` value. Times are milliseconds. */
module BalanceManager {
  import opened Wrappers
  import opened Digits
  import opened JsNumber
  import opened EosioToken

  /** The vesting window, as the environment gives it, and the activity
      multiplier (the environment string, read as a number by `*`). */
  datatype Settings = Settings(start: int, end: int, multiplier: real)

  /** The `balance` argument of getAvailTimeLockedWithdrawal. */
  datatype Vested = Vested(total: Token, withdrawal: Token)

  /** The `bal` record getBalances builds for the activity-locked row: the
      calculator reads `totalEmission`; the emission row, when present, lands
      in `emission`. */
  datatype ActivityVested = ActivityVested(total: Token, withdrawal: Token, totalEmission: Token, emission: Option<Token>)

  // ---------------------------------------------------------------------
  // The calculators
  // ---------------------------------------------------------------------

  /** The share of `total` the elapsed part of the window releases. There is
      no cap at `end`: past the window it keeps growing. */
  function TimeLimit(total: real, now: int, start: int, end: int): real
    requires end != start
  {
    total * (now - start) as real / (end - start) as real
  }

  /** The clamp both calculators end with: a positive amount is printed with
      toFixed(d) and read back by the token constructor (AvailableConstructed
      shows that this is the token the constructor yields), everything else is
      new EosioToken(0). The printed text has a '.' as soon as d > 0, so the
      amount is then the rounded w, not rescaled; with d = 0 it is a digit
      string, which the constructor takes as pre-scaled. */
  function Available(w: real, d: nat): (r: Token)
    ensures r.decimal == 4 && r.symbol == "UOS"
    ensures r.value >= 0.0
    ensures w <= 0.0 ==> r.value == 0.0
  {
    if w <= 0.0 then Zero()
    else if d > 0 then Token(Units(w, d) as real / Pow10(d) as real, 4, "UOS")
    else if Units(w, 0) <= MaxSafeInteger then Token(Units(w, 0) as real / 10000.0, 4, "UOS")
    else Token(Units(w, 0) as real, 4, "UOS")
  }

  /** new EosioToken(w.toFixed(d)) for a positive w is the token Available
      gives. */
  lemma AvailableConstructed(w: real, d: nat)
    requires w > 0.0
    ensures Make(ToFixed(w, d)) == Ok(Available(w, d))
  {
    if d == 0 {
      ConstructedWhole(w, d);
    } else {
      ConstructedFraction(w, d);
    }
  }

  lemma ConstructedFraction(w: real, d: nat)
    requires w > 0.0 && d > 0
    ensures Make(ToFixed(w, d)) == Ok(Token(Units(w, d) as real / Pow10(d) as real, 4, "UOS"))
  {
    ToFixedParses(w, d);
    ToFixedPoint(w, d);
    MadeOf(ToFixed(w, d), Units(w, d) as real / Pow10(d) as real);
  }

  lemma ConstructedWhole(w: real, d: nat)
    requires w > 0.0 && d == 0
    ensures Make(ToFixed(w, d)) == Ok(Available(w, d))
  {
    ToFixedParses(w, d);
    ToFixedPoint(w, d);
    var n := Units(w, d) as real / Pow10(d) as real;
    var text, m := ToFixed(w, d), Units(w, 0);
    WholeUnits(w, d, n);
    MadeOf(text, n);
    AvailableWhole(w, d, m);
    assert '.' !in text;
    var x := if IsSafeInteger(n) && '.' !in text then n / 10000.0 else n;
    assert Make(text) == Ok(Token(x, 4, "UOS"));
    assert Available(w, d) == Token(x, 4, "UOS");
  }

  lemma AvailableWhole(w: real, d: nat, m: nat)
    requires w > 0.0 && d == 0 && m == Units(w, 0)
    ensures Available(w, d) == Token(if m <= MaxSafeInteger then m as real / 10000.0 else m as real, 4, "UOS")
  {
  }

  /** The constructor with its default digits and symbol, on a text whose
      number is x. */
  lemma MadeOf(text: string, x: real)
    requires ParseFloat(text) == Some(x)
    ensures Make(text) == Ok(Token(if IsSafeInteger(x) && '.' !in text then x / 10000.0 else x, 4, "UOS"))
  {
    ParseFloatNaN(text);
    assert Pow10(4) == 10000;
  }

  lemma WholeUnits(w: real, d: nat, n: real)
    requires d == 0 && n == Units(w, d) as real / Pow10(d) as real
    ensures n == Units(w, 0) as real
    ensures IsSafeInteger(n) <==> Units(w, 0) <= MaxSafeInteger
  {
    assert n.Floor == Units(w, 0);
  }

  /** A positive w that is printed and read back is off by at most half a
      unit of its last digit. */
  lemma AvailableNear(w: real, d: nat)
    requires w > 0.0 && d > 0
    ensures Abs(Available(w, d).value - w) * Pow10(d) as real <= 0.5
  {
    HalfUnit(w, Units(w, d) as real, Pow10(d) as real);
    assert Available(w, d).value == Units(w, d) as real / Pow10(d) as real;
  }

  /** getAvailTimeLockedWithdrawal: the released share of the deposit less
      what was already withdrawn, or zero when that is not positive. */
  function TimeLocked(b: Vested, now: int, s: Settings): (r: Token)
    requires s.end != s.start
    ensures r.value >= 0.0 && r.decimal == 4 && r.symbol == "UOS"
    ensures var w := TimeLimit(b.total.value, now, s.start, s.end) - b.withdrawal.value;
            (w <= 0.0 ==> r.value == 0.0) &&
            (w > 0.0 && b.withdrawal.decimal > 0 ==> Abs(r.value - w) * Pow10(b.withdrawal.decimal) as real <= 0.5)
  {
    var w := TimeLimit(b.total.value, now, s.start, s.end) - b.withdrawal.value;
    if w > 0.0 && b.withdrawal.decimal > 0 then AvailableNear(w, b.withdrawal.decimal); Available(w, b.withdrawal.decimal)
    else Available(w, b.withdrawal.decimal)
  }

  /** The smaller of the time share and the emission cap; on a tie the time
      share is kept (the comparison is a strict `<`). */
  function ActivityLimit(b: ActivityVested, now: int, s: Settings): (l: real)
    requires s.end != s.start
    ensures l <= TimeLimit(b.total.value, now, s.start, s.end)
    ensures l <= b.totalEmission.value * s.multiplier
    ensures l == TimeLimit(b.total.value, now, s.start, s.end) || l == b.totalEmission.value * s.multiplier
  {
    var wTime := TimeLimit(b.total.value, now, s.start, s.end);
    var wActivity := b.totalEmission.value * s.multiplier;
    if wActivity < wTime then wActivity else wTime
  }

  /** getAvailActivityLockedWithdrawal: the smaller of the time share and
      the emission cap, less what was already withdrawn, or zero. */
  function ActivityLocked(b: ActivityVested, now: int, s: Settings): (r: Token)
    requires s.end != s.start
    ensures r.value >= 0.0 && r.decimal == 4 && r.symbol == "UOS"
    ensures var w := ActivityLimit(b, now, s) - b.withdrawal.value;
            (w <= 0.0 ==> r.value == 0.0) &&
            (w > 0.0 && b.withdrawal.decimal > 0 ==> Abs(r.value - w) * Pow10(b.withdrawal.decimal) as real <= 0.5)
  {
    var w := ActivityLimit(b, now, s) - b.withdrawal.value;
    if w > 0.0 && b.withdrawal.decimal > 0 then AvailableNear(w, b.withdrawal.decimal); Available(w, b.withdrawal.decimal)
    else Available(w, b.withdrawal.decimal)
  }

  // ---------------------------------------------------------------------
  // Properties of the calculators
  // ---------------------------------------------------------------------

  lemma DivMonotone(x: real, y: real, p: real)
    requires x <= y && p > 0.0
    ensures x / p <= y / p
  {
  }

  /** The time share grows with `now` inside and outside the window. */
  lemma {:induction false} TimeLimitMonotone(total: real, now1: int, now2: int, start: int, end: int)
    requires start < end && total >= 0.0 && now1 <= now2
    ensures TimeLimit(total, now1, start, end) <= TimeLimit(total, now2, start, end)
  {
    MulMonotone((now1 - start) as real, (now2 - start) as real, total);
    assert total * (now1 - start) as real <= total * (now2 - start) as real;
    DivMonotone(total * (now1 - start) as real, total * (now2 - start) as real, (end - start) as real);
  }

  /** Nothing is released before the window opens. */
  lemma TimeLimitBeforeStart(total: real, now: int, start: int, end: int)
    requires start < end && total >= 0.0 && now <= start
    ensures TimeLimit(total, now, start, end) <= 0.0
  {
    TimeLimitMonotone(total, now, start, start, end);
    assert TimeLimit(total, start, start, end) == 0.0;
  }

  /** Clamping and rounding keep the order of the amounts. */
  lemma AvailableMonotone(w1: real, w2: real, d: nat)
    requires w1 <= w2 && d > 0
    ensures Available(w1, d).value <= Available(w2, d).value
  {
    if w1 > 0.0 {
      UnitsMonotone(w1, w2, d);
      DivMonotone(Units(w1, d) as real, Units(w2, d) as real, Pow10(d) as real);
    }
  }

  /** With a non-negative deposit and withdrawal, the time-locked amount is
      zero until the window opens. */
  lemma TimeLockedBeforeStart(b: Vested, now: int, s: Settings)
    requires s.start < s.end && b.total.value >= 0.0 && b.withdrawal.value >= 0.0 && now <= s.start
    ensures TimeLocked(b, now, s).value == 0.0
  {
    TimeLimitBeforeStart(b.total.value, now, s.start, s.end);
  }

  /** The time-locked amount never decreases as time passes. */
  lemma TimeLockedMonotone(b: Vested, now1: int, now2: int, s: Settings)
    requires s.start < s.end && b.total.value >= 0.0 && b.withdrawal.decimal > 0 && now1 <= now2
    ensures TimeLocked(b, now1, s).value <= TimeLocked(b, now2, s).value
  {
    TimeLimitMonotone(b.total.value, now1, now2, s.start, s.end);
    AvailableMonotone(TimeLimit(b.total.value, now1, s.start, s.end) - b.withdrawal.value,
                      TimeLimit(b.total.value, now2, s.start, s.end) - b.withdrawal.value,
                      b.withdrawal.decimal);
  }

  /** Past the end of the window the released share exceeds the deposit:
      the amount is not capped at total - withdrawal. */
  lemma TimeLimitPastEnd(total: real, now: int, start: int, end: int)
    requires start < end && total > 0.0 && now > end
    ensures TimeLimit(total, now, start, end) > total
  {
    var span := (end - start) as real;
    var elapsed := (now - start) as real;
    assert elapsed > span;
    assert total * elapsed > total * span by {
      assert total * elapsed - total * span == total * (elapsed - span);
    }
    assert total * span / span == total;
    assert total * elapsed / span > total * span / span;
  }

  /** The activity-locked amount is never more than the time-locked one for
      the same deposit. */
  lemma ActivityAtMostTime(b: ActivityVested, now: int, s: Settings)
    requires s.end != s.start && b.withdrawal.decimal > 0
    ensures ActivityLocked(b, now, s).value <= TimeLocked(Vested(b.total, b.withdrawal), now, s).value
  {
    AvailableMonotone(ActivityLimit(b, now, s) - b.withdrawal.value,
                      TimeLimit(b.total.value, now, s.start, s.end) - b.withdrawal.value,
                      b.withdrawal.decimal);
  }

  /** ... nor more than the emission cap allows. */
  lemma ActivityAtMostEmission(b: ActivityVested, now: int, s: Settings)
    requires s.end != s.start && b.withdrawal.decimal > 0
    ensures ActivityLocked(b, now, s).value <= Available(b.totalEmission.value * s.multiplier - b.withdrawal.value, b.withdrawal.decimal).value
  {
    AvailableMonotone(ActivityLimit(b, now, s) - b.withdrawal.value,
                      b.totalEmission.value * s.multiplier - b.withdrawal.value,
                      b.withdrawal.decimal);
  }

  /** A zero emission total releases nothing, whatever the time and the
      multiplier, once the withdrawal is not negative. */
  lemma ActivityZeroEmission(b: ActivityVested, now: int, s: Settings)
    requires s.end != s.start && b.totalEmission.value == 0.0 && b.withdrawal.value >= 0.0
    ensures ActivityLocked(b, now, s).value == 0.0
  {
    assert b.totalEmission.value * s.multiplier == 0.0;
  }

  // ---------------------------------------------------------------------
  // Worked cases: a deposit of 100 UOS over a window of length 100
  // ---------------------------------------------------------------------

  /** Halfway through the window half of the deposit is available. */
  lemma TimeLockedHalfway(b: Vested, s: Settings)
    requires b.total.value == 100.0 && b.withdrawal.value == 0.0 && b.withdrawal.decimal == 4
    requires s.start == 0 && s.end == 100
    ensures TimeLocked(b, 50, s).value == 50.0
  {
    assert TimeLimit(100.0, 50, 0, 100) == 50.0;
    HalfwayUnits(50.0, 4);
  }

  lemma HalfwayUnits(x: real, d: nat)
    requires x == 50.0 && d == 4
    ensures Available(x, d).value == 50.0
  {
    assert Pow10(d) == 10000;
    assert Units(x, d) == 500000;
  }

  /** A day before the window opens nothing is available. */
  lemma TimeLockedEarly(b: Vested, s: Settings)
    requires b.total.value == 100.0 && b.withdrawal.value == 0.0
    requires s.start == 0 && s.end == 100
    ensures TimeLocked(b, -1, s).value == 0.0
  {
    TimeLockedBeforeStart(b, -1, s);
  }

  /** Twice the window length after it opened, twice the deposit is
      available: there is no cap at the deposit. */
  lemma TimeLockedUncapped(b: Vested, s: Settings)
    requires b.total.value == 100.0 && b.withdrawal.value == 0.0 && b.withdrawal.decimal == 4
    requires s.start == 0 && s.end == 100
    ensures TimeLocked(b, 200, s).value == 200.0
  {
    assert TimeLimit(100.0, 200, 0, 100) == 200.0;
    UncappedUnits(200.0, 4);
  }

  lemma UncappedUnits(x: real, d: nat)
    requires x == 200.0 && d == 4
    ensures Available(x, d).value == 200.0
  {
    assert Pow10(d) == 10000;
    assert Units(x, d) == 2000000;
  }

  /** An emission total of 10 with multiplier 5 ties with the time share
      halfway through; either way 50 is available. */
  lemma ActivityLockedTie(b: ActivityVested, s: Settings)
    requires b.total.value == 100.0 && b.withdrawal.value == 0.0 && b.withdrawal.decimal == 4
    requires b.totalEmission.value == 10.0 && s.multiplier == 5.0
    requires s.start == 0 && s.end == 100
    ensures ActivityLimit(b, 50, s) == TimeLimit(b.total.value, 50, s.start, s.end)
    ensures ActivityLocked(b, 50, s).value == 50.0
  {
    assert TimeLimit(100.0, 50, 0, 100) == 50.0;
    HalfwayUnits(50.0, 4);
  }

  // ---------------------------------------------------------------------
  // getBalances
  // ---------------------------------------------------------------------

  /** The non-empty answer of getUosAccountBalance: the three amounts as the
      chain prints them (or the number 0, whose text is "0"). */
  datatype TokenRow = TokenRow(liquid: string, stakeNet: string, stakeCpu: string)

  /** A non-empty row of a vesting contract's balance table. */
  datatype VestedRow = VestedRow(total: string, withdrawal: string)

  /** A non-empty answer of getUosAccountEmissionBalance. */
  datatype EmissionRow = EmissionRow(total: string)

  /** The accountB record: every amount is a token. */
  datatype Report = Report(name: string, liquid: Token, stakeNet: Token, stakeCpu: Token,
                           timeLocked: Token, timeUnlocked: Token, actvLocked: Token, actvUnlocked: Token)

  /** Every amount text the call hands to the token constructor reads as a
      number; otherwise the constructor throws and getBalances rejects. The
      emission row is fetched, and so parsed, only for an activity row. */
  predicate RowsParse(tokenRow: Option<TokenRow>, timeRow: Option<VestedRow>,
                      actvRow: Option<VestedRow>, emissionRow: Option<EmissionRow>)
  {
    (tokenRow.Some? ==> StartsNumber(tokenRow.value.liquid) && StartsNumber(tokenRow.value.stakeNet)
                        && StartsNumber(tokenRow.value.stakeCpu)) &&
    (timeRow.Some? ==> StartsNumber(timeRow.value.total) && StartsNumber(timeRow.value.withdrawal)) &&
    (actvRow.Some? ==> StartsNumber(actvRow.value.total) && StartsNumber(actvRow.value.withdrawal)
                       && (emissionRow.Some? ==> StartsNumber(emissionRow.value.total)))
  }

  /** new EosioToken(text) for a text that reads as a number. */
  function Amount(text: string): (t: Token)
    requires StartsNumber(text)
    ensures Make(text) == Ok(t)
  {
    Make(text).value
  }

  /** An amount that is there, or the zero token that stays in its field. */
  function AmountOr(text: Option<string>): Token
    requires text.Some? ==> StartsNumber(text.value)
  {
    if text.Some? then Amount(text.value) else Zero()
  }

  /** What getBalances resolves to, field by field: each field is the zero
      token unless its row is there; the time-locked row feeds the time
      calculator, the activity-locked row the activity calculator with a
      zero emission total (the emission row is parsed and set aside). */
  function Balances(name: string, tokenRow: Option<TokenRow>, timeRow: Option<VestedRow>,
                    actvRow: Option<VestedRow>, emissionRow: Option<EmissionRow>,
                    now: int, s: Settings): Result<Report>
    requires s.end != s.start
  {
    if !RowsParse(tokenRow, timeRow, actvRow, emissionRow) then Err(UnexpectedValue)
    else Ok(Assemble(name, tokenRow, timeRow, actvRow, emissionRow, Zero(), now, s))
  }

  /** The report once every text parses, with the emission total the
      activity calculator is given. */
  function Assemble(name: string, tokenRow: Option<TokenRow>, timeRow: Option<VestedRow>,
                    actvRow: Option<VestedRow>, emissionRow: Option<EmissionRow>,
                    totalEmission: Token, now: int, s: Settings): Report
    requires s.end != s.start && RowsParse(tokenRow, timeRow, actvRow, emissionRow)
  {
    var timeUnlocked :=
      if timeRow.Some?
      then TimeLocked(Vested(Amount(timeRow.value.total), Amount(timeRow.value.withdrawal)), now, s)
      else Zero();
    var actvUnlocked :=
      if actvRow.Some?
      then ActivityLocked(ActivityVested(Amount(actvRow.value.total), Amount(actvRow.value.withdrawal), totalEmission,
                                         if emissionRow.Some? then Some(Amount(emissionRow.value.total)) else None),
                          now, s)
      else Zero();
    Report(name,
           AmountOr(if tokenRow.Some? then Some(tokenRow.value.liquid) else None),
           AmountOr(if tokenRow.Some? then Some(tokenRow.value.stakeNet) else None),
           AmountOr(if tokenRow.Some? then Some(tokenRow.value.stakeCpu) else None),
           AmountOr(if timeRow.Some? then Some(timeRow.value.total) else None),
           timeUnlocked,
           AmountOr(if actvRow.Some? then Some(actvRow.value.total) else None),
           actvUnlocked)
  }

  /** getBalances(accountName): start from an all-zero record and overwrite
      its fields as each row arrives; the rows the API answers are inputs,
      None for an empty answer. A constructor that throws rejects the call. */
  method GetBalances(name: string, tokenRow: Option<TokenRow>, timeRow: Option<VestedRow>,
                     actvRow: Option<VestedRow>, emissionRow: Option<EmissionRow>,
                     now: int, s: Settings) returns (r: Result<Report>)
    requires s.end != s.start
    ensures r == Balances(name, tokenRow, timeRow, actvRow, emissionRow, now, s)
  {
    var zero := Zero();
    var report := Report(name, zero, zero, zero, zero, zero, zero, zero);

    if tokenRow.Some? {
      var liquid :- Make(tokenRow.value.liquid);
      report := report.(liquid := liquid);
      var stakeNet :- Make(tokenRow.value.stakeNet);
      report := report.(stakeNet := stakeNet);
      var stakeCpu :- Make(tokenRow.value.stakeCpu);
      report := report.(stakeCpu := stakeCpu);
    }

    if timeRow.Some? {
      var total :- Make(timeRow.value.total);
      var withdrawal :- Make(timeRow.value.withdrawal);
      var bal := Vested(total, withdrawal);
      report := report.(timeLocked := bal.total);
      report := report.(timeUnlocked := TimeLocked(bal, now, s));
    }

    if actvRow.Some? {
      var total :- Make(actvRow.value.total);
      var withdrawal :- Make(actvRow.value.withdrawal);
      var bal := ActivityVested(total, withdrawal, zero, None);
      if emissionRow.Some? {
        var emission :- Make(emissionRow.value.total);
        bal := bal.(emission := Some(emission));
      }
      report := report.(actvLocked := bal.total);
      report := report.(actvUnlocked := ActivityLocked(bal, now, s));
    }

    return Ok(report);
  }

  /** A report always comes back unless a text fails to parse; a field whose
      row is missing keeps the zero token. */
  lemma BalancesDefaults(name: string, tokenRow: Option<TokenRow>, timeRow: Option<VestedRow>,
                         actvRow: Option<VestedRow>, emissionRow: Option<EmissionRow>, now: int, s: Settings)
    requires s.end != s.start
    ensures var r := Balances(name, tokenRow, timeRow, actvRow, emissionRow, now, s);
            (r.Ok? <==> RowsParse(tokenRow, timeRow, actvRow, emissionRow)) &&
            (r.Err? ==> r.error == UnexpectedValue) &&
            (r.Ok? ==> r.value.name == name) &&
            (r.Ok? && tokenRow.None? ==> r.value.liquid == r.value.stakeNet == r.value.stakeCpu == Zero()) &&
            (r.Ok? && timeRow.None? ==> r.value.timeLocked == r.value.timeUnlocked == Zero()) &&
            (r.Ok? && actvRow.None? ==> r.value.actvLocked == r.value.actvUnlocked == Zero())
  {
  }

  /** With only the token row present the report carries its amounts and
      zero locked fields, and no error. */
  lemma BalancesTokenRowOnly(name: string, row: TokenRow, emissionRow: Option<EmissionRow>, now: int, s: Settings)
    requires s.end != s.start
    requires StartsNumber(row.liquid) && StartsNumber(row.stakeNet) && StartsNumber(row.stakeCpu)
    ensures Balances(name, Some(row), None, None, emissionRow, now, s)
         == Ok(Report(name, Amount(row.liquid), Amount(row.stakeNet), Amount(row.stakeCpu),
                      Zero(), Zero(), Zero(), Zero()))
  {
  }

  /** Neither unlocked field is ever negative. */
  lemma BalancesUnlockedNonNegative(name: string, tokenRow: Option<TokenRow>, timeRow: Option<VestedRow>,
                                    actvRow: Option<VestedRow>, emissionRow: Option<EmissionRow>, now: int, s: Settings)
    requires s.end != s.start
    ensures var r := Balances(name, tokenRow, timeRow, actvRow, emissionRow, now, s);
            r.Ok? ==> r.value.timeUnlocked.value >= 0.0 && r.value.actvUnlocked.value >= 0.0
  {
  }

  /** The activity-locked unlocked amount is zero whatever the rows say,
      once the withdrawal is not negative: the emission total handed to the
      calculator is the zero token. */
  lemma ActvUnlockedAlwaysZero(name: string, tokenRow: Option<TokenRow>, timeRow: Option<VestedRow>,
                               actvRow: Option<VestedRow>, emissionRow: Option<EmissionRow>, now: int, s: Settings)
    requires s.end != s.start
    requires RowsParse(tokenRow, timeRow, actvRow, emissionRow)
    requires actvRow.Some? ==> Amount(actvRow.value.withdrawal).value >= 0.0
    ensures Balances(name, tokenRow, timeRow, actvRow, emissionRow, now, s).value.actvUnlocked.value == 0.0
  {
    if actvRow.Some? {
      var total := Amount(actvRow.value.total);
      var withdrawal := Amount(actvRow.value.withdrawal);
      var emission := if emissionRow.Some? then Some(Amount(emissionRow.value.total)) else None;
      ActivityZeroEmission(ActivityVested(total, withdrawal, Zero(), emission), now, s);
    }
  }

  /** What the emission row holds makes no difference to the report. */
  lemma EmissionRowUnused(name: string, tokenRow: Option<TokenRow>, timeRow: Option<VestedRow>,
                          actvRow: Option<VestedRow>, e1: Option<EmissionRow>, e2: Option<EmissionRow>,
                          now: int, s: Settings)
    requires s.end != s.start
    requires RowsParse(tokenRow, timeRow, actvRow, e1) && RowsParse(tokenRow, timeRow, actvRow, e2)
    ensures Balances(name, tokenRow, timeRow, actvRow, e1, now, s) == Balances(name, tokenRow, timeRow, actvRow, e2, now, s)
  {
    if actvRow.Some? {
      var b := ActivityVested(Amount(actvRow.value.total), Amount(actvRow.value.withdrawal), Zero(), None);
      var o1 := if e1.Some? then Some(Amount(e1.value.total)) else None;
      var o2 := if e2.Some? then Some(Amount(e2.value.total)) else None;
      ActivityIgnoresEmission(b, o1, o2, now, s);
    }
  }

  lemma ActivityIgnoresEmission(b: ActivityVested, o1: Option<Token>, o2: Option<Token>, now: int, s: Settings)
    requires s.end != s.start
    ensures ActivityLocked(b.(emission := o1), now, s) == ActivityLocked(b.(emission := o2), now, s)
  {
    assert ActivityLimit(b.(emission := o1), now, s) == ActivityLimit(b.(emission := o2), now, s);
  }

  // ---------------------------------------------------------------------
  // getBalances as evidently intended: the emission row caps the activity
  // ---------------------------------------------------------------------

  /** The emission total the activity calculator should read: the emission
      row's amount, or zero without one. */
  function EmissionTotal(emissionRow: Option<EmissionRow>): Token
    requires emissionRow.Some? ==> StartsNumber(emissionRow.value.total)
  {
    AmountOr(if emissionRow.Some? then Some(emissionRow.value.total) else None)
  }

  /** getBalances with the emission row's amount stored where the activity
      calculator reads it. */
  function BalancesCorrected(name: string, tokenRow: Option<TokenRow>, timeRow: Option<VestedRow>,
                             actvRow: Option<VestedRow>, emissionRow: Option<EmissionRow>,
                             now: int, s: Settings): Result<Report>
    requires s.end != s.start
  {
    if !RowsParse(tokenRow, timeRow, actvRow, emissionRow) then Err(UnexpectedValue)
    else if actvRow.Some? then Ok(Assemble(name, tokenRow, timeRow, actvRow, emissionRow, EmissionTotal(emissionRow), now, s))
    else Ok(Assemble(name, tokenRow, timeRow, actvRow, emissionRow, Zero(), now, s))
  }

  /** The corrected report differs from the one written only in the
      activity-locked unlocked amount. */
  lemma CorrectedChangesActivityOnly(name: string, tokenRow: Option<TokenRow>, timeRow: Option<VestedRow>,
                                     actvRow: Option<VestedRow>, emissionRow: Option<EmissionRow>, now: int, s: Settings)
    requires s.end != s.start
    ensures var r := BalancesCorrected(name, tokenRow, timeRow, actvRow, emissionRow, now, s);
            var wrong := Balances(name, tokenRow, timeRow, actvRow, emissionRow, now, s);
            r.Ok? == wrong.Ok? && (r.Ok? ==> r.value == wrong.value.(actvUnlocked := r.value.actvUnlocked))
  {
  }

  /** In the corrected report the emission row's amount is the emission
      total the activity calculator reads, so the activity-locked unlocked
      amount is capped both by the time share and (ActivityAtMostEmission)
      by the emission total times the multiplier. */
  lemma CorrectedActvUnlocked(name: string, tokenRow: Option<TokenRow>, timeRow: Option<VestedRow>,
                              actv: VestedRow, emissionRow: Option<EmissionRow>, now: int, s: Settings)
    requires s.end != s.start
    requires RowsParse(tokenRow, timeRow, Some(actv), emissionRow)
    ensures var r := BalancesCorrected(name, tokenRow, timeRow, Some(actv), emissionRow, now, s);
            var b := ActivityVested(Amount(actv.total), Amount(actv.withdrawal), EmissionTotal(emissionRow),
                                    if emissionRow.Some? then Some(Amount(emissionRow.value.total)) else None);
            r.Ok? && r.value.actvUnlocked == ActivityLocked(b, now, s) &&
            r.value.actvUnlocked.value <= TimeLocked(Vested(b.total, b.withdrawal), now, s).value
  {
    var b := ActivityVested(Amount(actv.total), Amount(actv.withdrawal), EmissionTotal(emissionRow),
                            if emissionRow.Some? then Some(Amount(emissionRow.value.total)) else None);
    assert b.withdrawal.decimal == 4;
    ActivityAtMostTime(b, now, s);
    var r := Assemble(name, tokenRow, timeRow, Some(actv), emissionRow, EmissionTotal(emissionRow), now, s);
    assert r.actvUnlocked == ActivityLocked(b, now, s);
    assert BalancesCorrected(name, tokenRow, timeRow, Some(actv), emissionRow, now, s) == Ok(r);
  }

  /** A deposit of 100 with an emission total of 10 and multiplier 5,
      halfway through the window: as written nothing can be withdrawn, as
      intended 50. */
  lemma EmissionIgnoredExample(actv: VestedRow, emission: EmissionRow, s: Settings)
    requires s.start == 0 && s.end == 100 && s.multiplier == 5.0
    requires StartsNumber(actv.total) && Amount(actv.total).value == 100.0
    requires StartsNumber(actv.withdrawal) && Amount(actv.withdrawal).value == 0.0
    requires StartsNumber(emission.total) && Amount(emission.total).value == 10.0
    ensures var r := Balances("", None, None, Some(actv), Some(emission), 50, s);
            r.Ok? && r.value.actvUnlocked.value == 0.0
    ensures var r := BalancesCorrected("", None, None, Some(actv), Some(emission), 50, s);
            r.Ok? && r.value.actvUnlocked.value == 50.0
  {
    ActvUnlockedAlwaysZero("", None, None, Some(actv), Some(emission), 50, s);
    var b := ActivityVested(Amount(actv.total), Amount(actv.withdrawal), Amount(emission.total), Some(Amount(emission.total)));
    ActivityLockedTie(b, s);
  }

  // ---------------------------------------------------------------------
  // uosAccountBalanceToMarkdown
  // ---------------------------------------------------------------------

  /** The first line of the balance message. */
  function Header(name: string): string
  {
    "UOS account " + name + "\U{00B0} balances:"
  }

  /** A template line: six spaces of indentation, then the body as inline
      code. */
  function Line(body: string): string
  {
    "      `" + body + "`"
  }

  /** uosAccountBalanceToMarkdown: each amount as toString renders it,
      put into the template. */
  function BalanceMarkdown(r: Report): string
  {
    Template(r.name, Render(r.liquid), Render(r.stakeNet), Render(r.stakeCpu),
             Render(r.timeLocked), Render(r.timeUnlocked), Render(r.actvLocked), Render(r.actvUnlocked))
  }

  /** The message template with the interpolated texts: the header and
      five indented lines, one below the other. */
  function Template(name: string, liquid: string, stakeNet: string, stakeCpu: string,
                    timeLocked: string, timeUnlocked: string, actvLocked: string, actvUnlocked: string): string
  {
    JoinLines(TemplateLinesOf(name, liquid, stakeNet, stakeCpu, timeLocked, timeUnlocked, actvLocked, actvUnlocked))
  }

  function TemplateLinesOf(name: string, liquid: string, stakeNet: string, stakeCpu: string,
                           timeLocked: string, timeUnlocked: string, actvLocked: string, actvUnlocked: string): seq<string>
  {
    [Header(name),
     Line("     Liquid: " + liquid),
     Line("  Stake NET: " + stakeNet),
     Line("  Stake CPU: " + stakeCpu),
     Line("Time Locked: " + timeLocked + ", can withdraw: " + timeUnlocked),
     Line("Actv Locked: " + actvLocked + ", can withdraw: " + actvUnlocked)]
  }

  /** The index of the first line break in s, or |s| without one
      (LineEndFirst). */
  function LineEnd(s: string): (i: nat)
    ensures i <= |s|
  {
    if s == [] || s[0] == '\n' then 0 else 1 + LineEnd(s[1..])
  }

  lemma {:induction false} LineEndFirst(s: string)
    ensures '\n' !in s[..LineEnd(s)]
    ensures LineEnd(s) < |s| ==> s[LineEnd(s)] == '\n'
  {
    if s != [] && s[0] != '\n' {
      LineEndFirst(s[1..]);
      assert s[..LineEnd(s)] == [s[0]] + s[1..][..LineEnd(s[1..])];
    }
  }

  /** The text cut at its line breaks. */
  function SplitLines(s: string): seq<string>
    decreases |s|
  {
    var i := LineEnd(s);
    if i == |s| then [s] else [s[..i]] + SplitLines(s[i + 1..])
  }

  lemma {:induction false} LineEndOf(a: string, rest: string)
    requires '\n' !in a && (rest == [] || rest[0] == '\n')
    ensures LineEnd(a + rest) == |a|
    decreases |a|
  {
    if a != [] {
      assert a[0] in a;
      assert (a + rest)[1..] == a[1..] + rest;
      assert '\n' !in a[1..] by {
        forall k | 0 <= k < |a[1..]| ensures a[1..][k] != '\n' { assert a[1..][k] in a; }
      }
      LineEndOf(a[1..], rest);
    } else {
      assert a + rest == rest;
    }
  }

  /** A line without a break, then a break, then the rest. */
  lemma SplitCons(a: string, b: string)
    requires '\n' !in a
    ensures SplitLines(a + "\n" + b) == [a] + SplitLines(b)
  {
    var t := a + "\n" + b;
    LineEndOf(a, "\n" + b);
    assert t == a + ("\n" + b);
    assert t[..|a|] == a;
    assert t[|a| + 1..] == b;
  }

  lemma SplitOne(a: string)
    requires '\n' !in a
    ensures SplitLines(a) == [a]
  {
    LineEndOf(a, []);
    assert a + [] == a;
  }

  /** A rendered amount is on one line when its symbol is. */
  lemma RenderOneLine(t: Token)
    requires '\n' !in t.symbol
    ensures '\n' !in Render(t)
  {
    var sign, integer, fraction := RenderShape(t);
    assert '\n' !in integer by {
      forall k | 0 <= k < |integer| ensures integer[k] != '\n' {
        assert integer[k] == ',' || IsDigit(integer[k]);
      }
    }
    assert '\n' !in fraction by {
      forall k | 0 <= k < |fraction| ensures fraction[k] != '\n' { assert IsDigit(fraction[k]); }
    }
    var head := sign + integer;
    assert '\n' !in head;
    if t.decimal > 0 {
      assert '\n' !in head + "." + fraction + " " + t.symbol;
    } else {
      assert '\n' !in head + " " + t.symbol;
    }
  }

  /** The balance message is six lines: the header, then Liquid, Stake NET,
      Stake CPU, the time-locked pair and the activity-locked pair, in that
      order, each amount as toString renders it. */
  lemma MarkdownLines(r: Report)
    requires '\n' !in r.name
    requires '\n' !in r.liquid.symbol && '\n' !in r.stakeNet.symbol && '\n' !in r.stakeCpu.symbol
    requires '\n' !in r.timeLocked.symbol && '\n' !in r.timeUnlocked.symbol
    requires '\n' !in r.actvLocked.symbol && '\n' !in r.actvUnlocked.symbol
    ensures SplitLines(BalanceMarkdown(r))
         == [Header(r.name),
             Line("     Liquid: " + Render(r.liquid)),
             Line("  Stake NET: " + Render(r.stakeNet)),
             Line("  Stake CPU: " + Render(r.stakeCpu)),
             Line("Time Locked: " + Render(r.timeLocked) + ", can withdraw: " + Render(r.timeUnlocked)),
             Line("Actv Locked: " + Render(r.actvLocked) + ", can withdraw: " + Render(r.actvUnlocked))]
  {
    RenderOneLine(r.liquid);
    RenderOneLine(r.stakeNet);
    RenderOneLine(r.stakeCpu);
    RenderOneLine(r.timeLocked);
    RenderOneLine(r.timeUnlocked);
    RenderOneLine(r.actvLocked);
    RenderOneLine(r.actvUnlocked);
    TemplateLines(r.name, Render(r.liquid), Render(r.stakeNet), Render(r.stakeCpu),
                  Render(r.timeLocked), Render(r.timeUnlocked), Render(r.actvLocked), Render(r.actvUnlocked));
  }

  lemma TemplateLines(name: string, liquid: string, stakeNet: string, stakeCpu: string,
                      timeLocked: string, timeUnlocked: string, actvLocked: string, actvUnlocked: string)
    requires '\n' !in name && '\n' !in liquid && '\n' !in stakeNet && '\n' !in stakeCpu
    requires '\n' !in timeLocked && '\n' !in timeUnlocked && '\n' !in actvLocked && '\n' !in actvUnlocked
    ensures SplitLines(Template(name, liquid, stakeNet, stakeCpu, timeLocked, timeUnlocked, actvLocked, actvUnlocked))
         == TemplateLinesOf(name, liquid, stakeNet, stakeCpu, timeLocked, timeUnlocked, actvLocked, actvUnlocked)
  {
    var lines := TemplateLinesOf(name, liquid, stakeNet, stakeCpu, timeLocked, timeUnlocked, actvLocked, actvUnlocked);
    TemplateNoBreaks(name, liquid, stakeNet, stakeCpu, timeLocked, timeUnlocked, actvLocked, actvUnlocked);
    SplitJoin(lines);
  }

  lemma TemplateNoBreaks(name: string, liquid: string, stakeNet: string, stakeCpu: string,
                         timeLocked: string, timeUnlocked: string, actvLocked: string, actvUnlocked: string)
    requires '\n' !in name && '\n' !in liquid && '\n' !in stakeNet && '\n' !in stakeCpu
    requires '\n' !in timeLocked && '\n' !in timeUnlocked && '\n' !in actvLocked && '\n' !in actvUnlocked
    ensures var lines := TemplateLinesOf(name, liquid, stakeNet, stakeCpu, timeLocked, timeUnlocked, actvLocked, actvUnlocked);
            |lines| == 6 && forall i :: 0 <= i < |lines| ==> '\n' !in lines[i]
  {
    HeaderOneLine(name);
    TaggedOneLine("     Liquid: ", liquid);
    TaggedOneLine("  Stake NET: ", stakeNet);
    TaggedOneLine("  Stake CPU: ", stakeCpu);
    PairOneLine("Time Locked: ", timeLocked, timeUnlocked);
    PairOneLine("Actv Locked: ", actvLocked, actvUnlocked);
  }

  lemma HeaderOneLine(name: string)
    requires '\n' !in name
    ensures '\n' !in Header(name)
  {
  }

  lemma TaggedOneLine(tag: string, a: string)
    requires '\n' !in tag && '\n' !in a
    ensures '\n' !in Line(tag + a)
  {
  }

  lemma PairOneLine(tag: string, a: string, b: string)
    requires '\n' !in tag && '\n' !in a && '\n' !in b
    ensures '\n' !in Line(tag + a + ", can withdraw: " + b)
  {
  }

  /** Lines put back together with a break between each two. */
  function JoinLines(lines: seq<string>): string
    requires |lines| >= 1
  {
    if |lines| == 1 then lines[0] else lines[0] + "\n" + JoinLines(lines[1..])
  }

  /** Cutting joined lines at their breaks gives the lines back. */
  lemma {:induction false} SplitJoin(lines: seq<string>)
    requires |lines| >= 1 && forall i :: 0 <= i < |lines| ==> '\n' !in lines[i]
    ensures SplitLines(JoinLines(lines)) == lines
  {
    if |lines| == 1 {
      SplitOne(lines[0]);
    } else {
      SplitJoin(lines[1..]);
      SplitCons(lines[0], JoinLines(lines[1..]));
      assert [lines[0]] + lines[1..] == lines;
    }
  }
}
