/** src/uos.score.bot.js: the older balance report (_getBalances), the
    ownership check of /link, and the account-name checks of /link and
    /check. Replies, the database and the chain are inputs: what the
    database and the API answered is passed in. */
module UosScoreBot {
  import opened Wrappers
  import opened JsNumber
  import opened EosioToken
  import opened BalanceManager

  // ---------------------------------------------------------------------
  // _getBalances
  // ---------------------------------------------------------------------

  /** accountB with its token_balance: the amounts as toString renders
      them. The source nests every amount under token_balance; here they
      sit beside the name in one flat record. The three token-row fields
      are absent (None) without that row. */
  datatype LegacyReport = LegacyReport(name: string, liquid: Option<string>, stakeNet: Option<string>,
                                       stakeCpu: Option<string>, timeLocked: string, timeLockedW: string,
                                       actvLocked: string, actvLockedW: string)

  /** Every amount text the older report hands to the token constructor
      reads as a number. */
  predicate LegacyRowsParse(tokenRow: Option<TokenRow>, timeRow: Option<VestedRow>, actvRow: Option<VestedRow>)
  {
    RowsParse(tokenRow, timeRow, actvRow, None)
  }

  /** A rendered amount, if its text is there. */
  function RenderedOr(text: Option<string>): Option<string>
    requires text.Some? ==> StartsNumber(text.value)
  {
    if text.Some? then Some(Render(Amount(text.value))) else None
  }

  /** A rendered amount, or the rendered zero token. */
  function RenderedOrZero(text: Option<string>): string
    requires text.Some? ==> StartsNumber(text.value)
  {
    if text.Some? then Render(Amount(text.value)) else Render(Zero())
  }

  /** What _getBalances resolves to: the rendered deposit and the rendered
      withdrawal of each vesting row, with no vesting limit applied. */
  function LegacyBalances(name: string, tokenRow: Option<TokenRow>, timeRow: Option<VestedRow>,
                          actvRow: Option<VestedRow>): Result<LegacyReport>
  {
    if !LegacyRowsParse(tokenRow, timeRow, actvRow) then Err(UnexpectedValue)
    else
      Ok(LegacyReport(name,
                      RenderedOr(if tokenRow.Some? then Some(tokenRow.value.liquid) else None),
                      RenderedOr(if tokenRow.Some? then Some(tokenRow.value.stakeNet) else None),
                      RenderedOr(if tokenRow.Some? then Some(tokenRow.value.stakeCpu) else None),
                      RenderedOrZero(if timeRow.Some? then Some(timeRow.value.total) else None),
                      RenderedOrZero(if timeRow.Some? then Some(timeRow.value.withdrawal) else None),
                      RenderedOrZero(if actvRow.Some? then Some(actvRow.value.total) else None),
                      RenderedOrZero(if actvRow.Some? then Some(actvRow.value.withdrawal) else None)))
  }

  /** _getBalances(that, accountName): fill in accountB.token_balance one
      field at a time as the rows arrive. */
  method GetLegacyBalances(name: string, tokenRow: Option<TokenRow>, timeRow: Option<VestedRow>,
                           actvRow: Option<VestedRow>) returns (r: Result<LegacyReport>)
    ensures r == LegacyBalances(name, tokenRow, timeRow, actvRow)
  {
    var zero := Render(Zero());
    var report := LegacyReport(name, None, None, None, "", "", "", "");

    if tokenRow.Some? {
      var liquid :- Make(tokenRow.value.liquid);
      report := report.(liquid := Some(Render(liquid)));
      var stakeNet :- Make(tokenRow.value.stakeNet);
      report := report.(stakeNet := Some(Render(stakeNet)));
      var stakeCpu :- Make(tokenRow.value.stakeCpu);
      report := report.(stakeCpu := Some(Render(stakeCpu)));
    }

    if timeRow.Some? {
      var total :- Make(timeRow.value.total);
      report := report.(timeLocked := Render(total));
      var withdrawal :- Make(timeRow.value.withdrawal);
      report := report.(timeLockedW := Render(withdrawal));
    } else {
      report := report.(timeLocked := zero);
      report := report.(timeLockedW := zero);
    }

    if actvRow.Some? {
      var total :- Make(actvRow.value.total);
      report := report.(actvLocked := Render(total));
      var withdrawal :- Make(actvRow.value.withdrawal);
      report := report.(actvLockedW := Render(withdrawal));
    } else {
      report := report.(actvLocked := zero);
      report := report.(actvLockedW := zero);
    }

    assert LegacyRowsParse(tokenRow, timeRow, actvRow);
    assert report.liquid == RenderedOr(if tokenRow.Some? then Some(tokenRow.value.liquid) else None);
    assert report.stakeNet == RenderedOr(if tokenRow.Some? then Some(tokenRow.value.stakeNet) else None);
    assert report.stakeCpu == RenderedOr(if tokenRow.Some? then Some(tokenRow.value.stakeCpu) else None);
    assert report.timeLocked == RenderedOrZero(if timeRow.Some? then Some(timeRow.value.total) else None);
    assert report.timeLockedW == RenderedOrZero(if timeRow.Some? then Some(timeRow.value.withdrawal) else None);
    assert report.actvLocked == RenderedOrZero(if actvRow.Some? then Some(actvRow.value.total) else None);
    assert report.actvLockedW == RenderedOrZero(if actvRow.Some? then Some(actvRow.value.withdrawal) else None);
    return Ok(report);
  }

  /** The older report prints what getBalances stores for the same rows:
      the same token amounts and deposits, but the withdrawals themselves
      where getBalances computes what can be withdrawn. It reads no emission
      row, so it fails only where getBalances without one fails. */
  lemma LegacyAgreesWithBalances(name: string, tokenRow: Option<TokenRow>, timeRow: Option<VestedRow>,
                                 actvRow: Option<VestedRow>, now: int, s: Settings)
    requires s.end != s.start
    ensures var legacy := LegacyBalances(name, tokenRow, timeRow, actvRow);
            var report := Balances(name, tokenRow, timeRow, actvRow, None, now, s);
            legacy.Ok? == report.Ok? &&
            (legacy.Ok? ==>
               legacy.value.name == report.value.name &&
               (tokenRow.Some? ==> legacy.value.liquid == Some(Render(report.value.liquid)) &&
                                   legacy.value.stakeNet == Some(Render(report.value.stakeNet)) &&
                                   legacy.value.stakeCpu == Some(Render(report.value.stakeCpu))) &&
               legacy.value.timeLocked == Render(report.value.timeLocked) &&
               legacy.value.actvLocked == Render(report.value.actvLocked) &&
               (timeRow.Some? ==> legacy.value.timeLockedW == Render(Amount(timeRow.value.withdrawal))) &&
               (actvRow.Some? ==> legacy.value.actvLockedW == Render(Amount(actvRow.value.withdrawal))))
  {
  }

  /** Without the token row the older report has no liquid or staked
      fields at all; a missing vesting row prints as the zero token. */
  lemma LegacyMissingRows(name: string, tokenRow: Option<TokenRow>, timeRow: Option<VestedRow>,
                          actvRow: Option<VestedRow>)
    ensures var r := LegacyBalances(name, tokenRow, timeRow, actvRow);
            (r.Ok? <==> LegacyRowsParse(tokenRow, timeRow, actvRow)) &&
            (r.Ok? ==> r.value.name == name) &&
            (r.Ok? ==> (r.value.liquid.None? <==> tokenRow.None?)) &&
            (r.Ok? && tokenRow.None? ==> r.value.stakeNet.None? && r.value.stakeCpu.None?) &&
            (r.Ok? && timeRow.None? ==> r.value.timeLocked == r.value.timeLockedW == Render(Zero())) &&
            (r.Ok? && actvRow.None? ==> r.value.actvLocked == r.value.actvLockedW == Render(Zero()))
  {
  }

  // ---------------------------------------------------------------------
  // The ownership check of linkCommand
  // ---------------------------------------------------------------------

  /** \w: an ASCII letter, digit or '_'. */
  predicate IsWordChar(c: char)
  {
    ('a' <= c <= 'z') || ('A' <= c <= 'Z') || ('0' <= c <= '9') || c == '_'
  }

  /** The characters an unescaped '.' does not match. */
  predicate IsLineTerminator(c: char)
  {
    c == '\n' || c == '\r' || c == '\U{2028}' || c == '\U{2029}'
  }

  /** The whole url matches ^https://t.me/(\w+)$ with its '.' a wildcard:
      "https://t", any character but a line terminator, "me/", and one or
      more word characters up to the end. */
  predicate FullMatch(url: string)
  {
    |url| >= 14 && url[..9] == "https://t" && !IsLineTerminator(url[9]) && url[10..13] == "me/"
    && forall k :: 13 <= k < |url| ==> IsWordChar(url[k])
  }

  /** pattern.exec(url) for the shared pattern with the g flag: the search
      starts at lastIndex, and '^' only matches at 0, so the match succeeds
      only from 0; it then leaves lastIndex at the end of the match, and a
      failure resets it to 0. */
  function Exec(lastIndex: nat, url: string): (r: (Option<string>, nat))
    ensures r.0.Some? <==> lastIndex == 0 && FullMatch(url)
    ensures r.0.Some? ==> r.0.value == url[13..] && r.1 == |url| > 0
    ensures r.0.None? ==> r.1 == 0
  {
    if lastIndex == 0 && FullMatch(url) then (Some(url[13..]), |url|) else (None, 0)
  }

  /** Whether the loop's exec succeeds on source i: the url matches and the
      previous exec did not succeed. */
  predicate Hit(urls: seq<string>, i: nat)
    requires i < |urls|
    decreases i
  {
    FullMatch(urls[i]) && (i == 0 || !Hit(urls, i - 1))
  }

  /** Some source the loop's exec matches captures the user's name. */
  predicate Accepted(urls: seq<string>, tgName: Option<string>)
  {
    exists i :: 0 <= i < |urls| && Hit(urls, i) && tgName == Some(urls[i][13..])
  }

  /** The for loop of linkCommand over uosAccountDetails.usersSources,
      given their sourceUrl fields, with the hidden lastIndex of the shared
      pattern as a variable of the loop. tgName is None when the user has no
      Telegram username. */
  method LinkFound(urls: seq<string>, tgName: Option<string>) returns (found: bool)
    ensures found <==> Accepted(urls, tgName)
  {
    found := false;
    var lastIndex: nat := 0;
    for i := 0 to |urls|
      invariant lastIndex > 0 <==> i > 0 && Hit(urls, i - 1)
      invariant found <==> exists j :: 0 <= j < i && Hit(urls, j) && tgName == Some(urls[j][13..])
    {
      var test := Exec(lastIndex, urls[i]);
      lastIndex := test.1;
      if test.0.Some? && tgName == Some(test.0.value) {
        found := true;
      }
    }
  }

  /** What the check evidently means: some source is a t.me link to the
      user's name. */
  predicate Owns(urls: seq<string>, tgName: Option<string>)
  {
    exists i :: 0 <= i < |urls| && FullMatch(urls[i]) && tgName == Some(urls[i][13..])
  }

  /** The loop as intended: a fresh match for every source. */
  method LinkFoundCorrected(urls: seq<string>, tgName: Option<string>) returns (found: bool)
    ensures found <==> Owns(urls, tgName)
  {
    found := false;
    for i := 0 to |urls|
      invariant found <==> exists j :: 0 <= j < i && FullMatch(urls[j]) && tgName == Some(urls[j][13..])
    {
      var test := Exec(0, urls[i]);
      if test.0.Some? && tgName == Some(test.0.value) {
        found := true;
      }
    }
  }

  /** The loop never accepts a source the intended check rejects. */
  lemma AcceptedOwns(urls: seq<string>, tgName: Option<string>)
    ensures Accepted(urls, tgName) ==> Owns(urls, tgName)
  {
  }

  /** The source right after one the loop matched is never matched. */
  lemma HitThenMiss(urls: seq<string>, i: nat)
    requires i + 1 < |urls| && Hit(urls, i)
    ensures !Hit(urls, i + 1)
  {
  }

  /** In a run of matching urls the loop matches every other one: after a
      matched source the next is skipped and the one after is matched
      again. */
  lemma HitAlternates(urls: seq<string>, i: nat)
    requires i + 2 < |urls| && Hit(urls, i)
    requires FullMatch(urls[i + 1]) && FullMatch(urls[i + 2])
    ensures !Hit(urls, i + 1) && Hit(urls, i + 2)
  {
  }

  /** Without two matching urls in a row the loop is the intended check. */
  lemma {:induction false} HitIsMatchWhenApart(urls: seq<string>, i: nat)
    requires i < |urls|
    requires forall j :: 0 <= j < i ==> !(FullMatch(urls[j]) && FullMatch(urls[j + 1]))
    ensures Hit(urls, i) <==> FullMatch(urls[i])
  {
    if i > 0 {
      HitIsMatchWhenApart(urls, i - 1);
    }
  }

  lemma AcceptedWhenApart(urls: seq<string>, tgName: Option<string>)
    requires forall j :: 0 <= j < |urls| - 1 ==> !(FullMatch(urls[j]) && FullMatch(urls[j + 1]))
    ensures Accepted(urls, tgName) <==> Owns(urls, tgName)
  {
    forall i | 0 <= i < |urls|
      ensures Hit(urls, i) <==> FullMatch(urls[i])
    {
      HitIsMatchWhenApart(urls, i);
    }
  }

  /** Two t.me links in a row, the user's own second: the loop skips it and
      the user is not recognised. ["https://t.me/other", "https://t.me/me"]
      with the name "me" is such a case. */
  lemma SecondLinkMissed(first: string, second: string)
    requires FullMatch(first) && FullMatch(second) && first[13..] != second[13..]
    ensures !Accepted([first, second], Some(second[13..]))
    ensures Owns([first, second], Some(second[13..]))
  {
    var urls := [first, second];
    assert Hit(urls, 0);
    assert !Hit(urls, 1);
    assert urls[1] == second;
  }

  // ---------------------------------------------------------------------
  // linkCommand
  // ---------------------------------------------------------------------

  /** A row of the accounts table: Telegram user id and name, UOS account. */
  datatype LinkedAccount = LinkedAccount(tgUid: int, tgName: Option<string>, uosName: string)

  /** The parsed account details: the sourceUrl of each entry of
      usersSources, or None when the profile has no usersSources. */
  datatype Details = Details(usersSources: Option<seq<string>>)

  /** What JSON.parse made of the account details: a parse error, an empty
      profile (None) or a profile. */
  datatype DetailsAnswer = Unparsable | Parsed(details: Option<Details>)

  /** The reply linkCommand ends with. */
  datatype LinkOutcome =
    | InvalidName        // the argument is not exactly 12 characters long
    | AccountNotFound    // getUosAccountScore answered nothing
    | AlreadyLinked(account: LinkedAccount)
    | DetailsNotFound    // the profile is empty
    | ParseError         // JSON.parse failed, or the profile has no usersSources
    | NotOwner           // no source links to the user's Telegram name
    | Linked(account: LinkedAccount)

  /** The name check of /link: an argument of exactly 12 characters. */
  predicate ValidUosName(uosName: Option<string>)
  {
    uosName.Some? && |uosName.value| == 12
  }

  /** linkCommand: the argument, the caller's Telegram id and name, and what
      the chain and the database answered (whether the score lookup found
      the account, the caller's linked account, the account details). */
  method LinkCommand(uosName: Option<string>, tgUid: int, tgName: Option<string>, scoreFound: bool,
                     linked: Option<LinkedAccount>, details: DetailsAnswer) returns (outcome: LinkOutcome)
    ensures outcome == InvalidName <==> !ValidUosName(uosName)
    ensures outcome == AccountNotFound <==> ValidUosName(uosName) && !scoreFound
    ensures outcome.AlreadyLinked? <==> ValidUosName(uosName) && scoreFound && linked.Some?
    ensures outcome.AlreadyLinked? ==> outcome.account == linked.value
    ensures outcome == DetailsNotFound <==> ValidUosName(uosName) && scoreFound && linked.None? && details == Parsed(None)
    ensures outcome == ParseError <==>
              ValidUosName(uosName) && scoreFound && linked.None? &&
              (details.Unparsable? || (details.details.Some? && details.details.value.usersSources.None?))
    ensures outcome.Linked? <==>
              ValidUosName(uosName) && scoreFound && linked.None? && details.Parsed? && details.details.Some? &&
              details.details.value.usersSources.Some? && Accepted(details.details.value.usersSources.value, tgName)
    ensures outcome.Linked? ==> outcome.account == LinkedAccount(tgUid, tgName, uosName.value)
  {
    if !ValidUosName(uosName) {
      return InvalidName;
    }
    if !scoreFound {
      return AccountNotFound;
    }
    if linked.Some? {
      return AlreadyLinked(linked.value);
    }
    match details {
      case Unparsable =>
        outcome := ParseError;
      case Parsed(None) =>
        outcome := DetailsNotFound;
      case Parsed(Some(profile)) =>
        if profile.usersSources.None? {
          outcome := ParseError;
        } else {
          var found := LinkFound(profile.usersSources.value, tgName);
          if found {
            outcome := Linked(LinkedAccount(tgUid, tgName, uosName.value));
          } else {
            outcome := NotOwner;
          }
        }
    }
  }

  // ---------------------------------------------------------------------
  // checkUser
  // ---------------------------------------------------------------------

  /** How checkUser ends: one of its three assertions fails, or the score
      lookup is made for a 12-character name (with the Telegram name it was
      reached through, if any). */
  datatype CheckOutcome =
    | NotLinked             // '@name' is not in the accounts table
    | NoName                // no name given and none linked to the caller
    | BadLength             // the name is not exactly 12 characters long
    | Lookup(name: string, telegramName: Option<string>)

  /** The name checkUser looks up: '@name' through the accounts table by
      Telegram name, no name (undefined or empty) as the caller's own linked
      account, anything else as given. */
  function CheckUser(name: Option<string>, directory: map<string, LinkedAccount>,
                     caller: Option<LinkedAccount>): (r: CheckOutcome)
    ensures r.Lookup? ==> |r.name| == 12
    ensures r == NotLinked <==> name.Some? && |name.value| > 0 && name.value[0] == '@' && name.value[1..] !in directory
    ensures r.Lookup? && name.Some? && |name.value| > 0 && name.value[0] != '@' ==> r == Lookup(name.value, None)
    ensures r.Lookup? && name.Some? && |name.value| > 0 && name.value[0] == '@' ==>
              r == Lookup(directory[name.value[1..]].uosName, directory[name.value[1..]].tgName)
    ensures r.Lookup? && (name.None? || name.value == "") ==> caller.Some? && r == Lookup(caller.value.uosName, None)
  {
    if name.Some? && name.value != "" && name.value[0] == '@' then
      var key := name.value[1..];
      if key !in directory then NotLinked
      else
        var account := directory[key];
        Checked(Some(account.uosName), account.tgName)
    else if name.None? || name.value == "" then
      if caller.Some? then Checked(Some(caller.value.uosName), None) else Checked(name, None)
    else
      Checked(name, None)
  }

  /** The two assertions after the resolution: a name, then its length. */
  function Checked(name: Option<string>, telegramName: Option<string>): (r: CheckOutcome)
    ensures r == NoName <==> name.None? || name.value == ""
    ensures r == BadLength <==> name.Some? && name.value != "" && |name.value| != 12
    ensures r.Lookup? ==> r == Lookup(name.value, telegramName)
  {
    if name.None? || name.value == "" then NoName
    else if |name.value| != 12 then BadLength
    else Lookup(name.value, telegramName)
  }

  /** checkUser stops at "no name" exactly when no name was given and the
      caller has no linked account, or one with an empty UOS name, or when
      '@name' leads to an account with an empty UOS name. */
  lemma CheckUserNoName(name: Option<string>, directory: map<string, LinkedAccount>, caller: Option<LinkedAccount>)
    ensures CheckUser(name, directory, caller) == NoName <==>
              ((name.None? || name.value == "") && (caller.None? || caller.value.uosName == "")) ||
              (name.Some? && |name.value| > 0 && name.value[0] == '@' && name.value[1..] in directory &&
               directory[name.value[1..]].uosName == "")
  {
  }
}
