/**
 * `AuthService` of `src/auth/auth.service.ts`: the phone-number verification
 * code request. The service draws a six-digit code, refuses the request when
 * (outside develop mode) the number already has ten requests in today's
 * window, posts the code to the SMS vendor, appends one row to the
 * append-only `authHistory` table, and reports whether a user with that phone
 * number exists.
 *
 * The database tables are sequences held by the service object, and the SMS
 * vendor is an object that records every request posted to it. The random
 * draw (an offset in [0, 900000)), whether the vendor call throws, and the
 * two clock readings are parameters of `SendVerificationCode`.
 */
module Auth {
  import opened Wrappers
  import opened Strings
  import opened DateUtils
  import opened Collaborators

  /** Requests per phone number per day allowed outside develop mode. */
  const DailyRequestLimit: nat := 10

  const RateLimitMessage: string := "하루에 10번 이상 인증 코드를 요청할 수 없습니다."
  const DispatchFailedMessage: string := "인증 코드 전송에 실패했습니다."

  const AligoUrl: string := "https://apis.aligo.in/send/"
  const AligoUserId: string := "codeclip"
  const AligoSender: string := "031-376-2399"
  const MessagePrefix: string := "[LastLy]\n인증번호는 "
  const MessageSuffix: string := " 입니다."

  /** A row of the `authHistory` table. */
  datatype AuthHistory = AuthHistory(phoneNumber: string, code: string, createDate: int)

  /** A row of the `user` table (only `phone` is consulted here). */
  datatype User = User(id: int, phone: string, name: string)

  /** The two NestJS exceptions `sendVerificationCode` throws (HTTP 400 and 500). */
  datatype HttpException =
    | BadRequestException(message: string)
    | InternalServerErrorException(message: string)

  /** The value `sendVerificationCode` resolves to: `{ isUser }`. */
  datatype VerificationResponse = VerificationResponse(isUser: bool)

  /** The form posted to the SMS vendor. */
  datatype AligoRequest = AligoRequest(url: string, key: Option<string>, userId: string, sender: string, receiver: string, msg: string)

  // ---------------------------------------------------------------------------
  // the code and the message
  // ---------------------------------------------------------------------------

  /**
   * `Math.floor(100000 + Math.random() * 900000).toString()` with the random
   * part already drawn as a whole offset below 900000: always six decimal digits,
   * reading as a number in [100000, 999999].
   */
  function VerificationCode(offset: nat): (code: string)
    requires offset < 900000
    ensures |code| == 6 && AllDigits(code) && code[0] != '0'
    ensures DecimalValue(code) == 100000 + offset
  {
    SixDigitNumeral(100000 + offset);
    NatToDecimal(100000 + offset)
  }

  /** The SMS text: `[LastLy]\n인증번호는 ${code} 입니다.`, the code between the fixed prefix and suffix. */
  function VerificationMessage(code: string): (msg: string)
    ensures |msg| == |MessagePrefix| + |code| + |MessageSuffix|
    ensures msg[..|MessagePrefix|] == MessagePrefix && msg[|msg| - |MessageSuffix|..] == MessageSuffix
    ensures msg[|MessagePrefix|..|msg| - |MessageSuffix|] == code
  {
    MessagePrefix + code + MessageSuffix
  }

  /** Reads the code back out of an SMS text of the form `VerificationMessage` produces. */
  function MessageCode(msg: string): Option<string>
  {
    if |msg| >= |MessagePrefix| + |MessageSuffix|
       && msg[..|MessagePrefix|] == MessagePrefix
       && msg[|msg| - |MessageSuffix|..] == MessageSuffix
    then Some(msg[|MessagePrefix|..|msg| - |MessageSuffix|])
    else None
  }

  /** The code embedded in the SMS is recoverable from it, so different codes give different messages. */
  lemma MessageCarriesCode(code: string)
    ensures MessageCode(VerificationMessage(code)) == Some(code)
  {
    var msg := VerificationMessage(code);
    assert msg[..|MessagePrefix|] == MessagePrefix;
    assert msg[|msg| - |MessageSuffix|..] == MessageSuffix;
    assert msg[|MessagePrefix|..|msg| - |MessageSuffix|] == code;
  }

  // ---------------------------------------------------------------------------
  // the queries
  // ---------------------------------------------------------------------------

  /** The `where` clause of the history query: same phone number, `gte <= createDate <= lte`. */
  predicate Matches(row: AuthHistory, phoneNumber: string, gte: int, lte: int)
  {
    row.phoneNumber == phoneNumber && gte <= row.createDate <= lte
  }

  /**
   * `authHistory.findMany({ where: ... })`: the rows that match, in table order.
   * Every matching row is returned as many times as the table holds it and no
   * other row is returned, so the result's length is the number of matching rows.
   */
  function FindMany(history: seq<AuthHistory>, phoneNumber: string, gte: int, lte: int): (rows: seq<AuthHistory>)
    ensures forall row :: row in rows <==> row in history && Matches(row, phoneNumber, gte, lte)
    ensures |rows| <= |history|
  {
    if history == [] then []
    else
      var rest := FindMany(history[1..], phoneNumber, gte, lte);
      assert forall row :: row in history <==> row == history[0] || row in history[1..];
      if Matches(history[0], phoneNumber, gte, lte) then [history[0]] + rest else rest
  }

  /**
   * The query keeps every matching row as many times as the table holds it and
   * drops every other row, so the count the rate limit compares with ten is the
   * number of matching rows in the table.
   */
  lemma {:induction false} FindManyMultiplicity(history: seq<AuthHistory>, phoneNumber: string, gte: int, lte: int)
    ensures var rows := FindMany(history, phoneNumber, gte, lte);
      forall row :: multiset(rows)[row] == (if Matches(row, phoneNumber, gte, lte) then multiset(history)[row] else 0)
  {
    if history != [] {
      FindManyMultiplicity(history[1..], phoneNumber, gte, lte);
      var rest := FindMany(history[1..], phoneNumber, gte, lte);
      assert history == [history[0]] + history[1..];
      assert multiset(history) == multiset([history[0]]) + multiset(history[1..]);
      assert multiset([history[0]] + rest) == multiset([history[0]]) + multiset(rest);
    }
  }

  /** Appending a row adds it to the query result exactly when it matches. */
  lemma {:induction false} FindManyAppend(history: seq<AuthHistory>, row: AuthHistory, phoneNumber: string, gte: int, lte: int)
    ensures FindMany(history + [row], phoneNumber, gte, lte)
         == FindMany(history, phoneNumber, gte, lte) + (if Matches(row, phoneNumber, gte, lte) then [row] else [])
  {
    if history != [] {
      assert (history + [row])[1..] == history[1..] + [row];
      FindManyAppend(history[1..], row, phoneNumber, gte, lte);
    }
  }

  /** A table whose every row matches is returned whole. */
  lemma {:induction false} FindManyAllMatch(history: seq<AuthHistory>, phoneNumber: string, gte: int, lte: int)
    requires forall i :: 0 <= i < |history| ==> Matches(history[i], phoneNumber, gte, lte)
    ensures FindMany(history, phoneNumber, gte, lte) == history
  {
    if history != [] {
      FindManyAllMatch(history[1..], phoneNumber, gte, lte);
    }
  }

  /** A table none of whose rows match gives an empty result. */
  lemma {:induction false} FindManyNoneMatch(history: seq<AuthHistory>, phoneNumber: string, gte: int, lte: int)
    requires forall i :: 0 <= i < |history| ==> !Matches(history[i], phoneNumber, gte, lte)
    ensures FindMany(history, phoneNumber, gte, lte) == []
  {
    if history != [] {
      FindManyNoneMatch(history[1..], phoneNumber, gte, lte);
    }
  }

  predicate HasUserWithPhone(users: seq<User>, phoneNumber: string)
  {
    exists i :: 0 <= i < |users| && users[i].phone == phoneNumber
  }

  /** `user.findFirst({ where: { phone } })`: the first user with that phone, or `null`. */
  function FindFirstUser(users: seq<User>, phoneNumber: string): (user: Option<User>)
    ensures user.Some? ==> user.value.phone == phoneNumber && user.value in users
    ensures user.Some? <==> HasUserWithPhone(users, phoneNumber)
  {
    if users == [] then None
    else if users[0].phone == phoneNumber then Some(users[0])
    else
      var rest := FindFirstUser(users[1..], phoneNumber);
      assert HasUserWithPhone(users[1..], phoneNumber) ==> HasUserWithPhone(users, phoneNumber) by {
        if HasUserWithPhone(users[1..], phoneNumber) {
          var i :| 0 <= i < |users[1..]| && users[1..][i].phone == phoneNumber;
          assert users[i + 1].phone == phoneNumber;
        }
      }
      assert HasUserWithPhone(users, phoneNumber) ==> HasUserWithPhone(users[1..], phoneNumber) by {
        if HasUserWithPhone(users, phoneNumber) {
          var i :| 0 <= i < |users| && users[i].phone == phoneNumber;
          assert i > 0 && users[1..][i - 1].phone == phoneNumber;
        }
      }
      rest
  }

  // ---------------------------------------------------------------------------
  // the daily window and the daily cap
  // ---------------------------------------------------------------------------

  /** The history rows of `phoneNumber` inside the window [00:00:00, 23:59:59] of local day `day`. */
  function RequestsOnDay(history: seq<AuthHistory>, phoneNumber: string, day: int, tz: int): seq<AuthHistory>
  {
    FindMany(history, phoneNumber, day * MsPerDay - tz, day * MsPerDay - tz + LastSecondOfDay)
  }

  /**
   * The bounds of the rate-limit query, `combineDateAndTime(today, "00:00:00")`
   * and `combineDateAndTime(today, "23:59:59")`: local midnight of `today`'s day
   * and 23:59:59.000 of the same day. Both strings parse, so neither bound is an
   * Invalid Date, and the window is never empty.
   */
  method RateLimitWindow(today: int, tz: int) returns (gte: int, lte: int)
    ensures gte == StartOfDay(today, tz) && lte == StartOfDay(today, tz) + LastSecondOfDay
    ensures gte <= lte
  {
    TodayWindow(today, tz);
    var start := CombineDateAndTime(today, DayStartClock, tz);
    var end := CombineDateAndTime(today, DayEndClock, tz);
    gte := start.value;
    lte := end.value;
  }

  /**
   * The rows the rate limit counts for a request whose shifted clock reads
   * `today`: exactly the rows of that phone number created on the request's
   * local day, up to and including 23:59:59.000 (a row in the last 999 ms of
   * the day is not counted).
   */
  function TodaysRequests(history: seq<AuthHistory>, phoneNumber: string, today: int, tz: int): (rows: seq<AuthHistory>)
    ensures forall row :: row in rows <==>
      && row in history && row.phoneNumber == phoneNumber
      && Day(row.createDate, tz) == Day(today, tz)
      && TimeWithinDay(row.createDate, tz) <= LastSecondOfDay
  {
    DayWindowMembership(history, phoneNumber, today, tz);
    RequestsOnDay(history, phoneNumber, Day(today, tz), tz)
  }

  lemma DayWindowMembership(history: seq<AuthHistory>, phoneNumber: string, today: int, tz: int)
    ensures forall row :: row in RequestsOnDay(history, phoneNumber, Day(today, tz), tz) <==>
      && row in history && row.phoneNumber == phoneNumber
      && Day(row.createDate, tz) == Day(today, tz)
      && TimeWithinDay(row.createDate, tz) <= LastSecondOfDay
  {
    forall row | row in history && row.phoneNumber == phoneNumber
      ensures row in RequestsOnDay(history, phoneNumber, Day(today, tz), tz) <==>
        Day(row.createDate, tz) == Day(today, tz) && TimeWithinDay(row.createDate, tz) <= LastSecondOfDay
    {
      InTodayWindow(row.createDate, today, tz);
    }
  }

  /** No phone number has more than the daily limit of rows in any day's window. */
  ghost predicate WithinDailyCap(history: seq<AuthHistory>, tz: int)
  {
    forall phoneNumber, day :: |RequestsOnDay(history, phoneNumber, day, tz)| <= DailyRequestLimit
  }

  /** A table of at most ten rows is within the cap. */
  lemma SmallTableWithinCap(history: seq<AuthHistory>, tz: int)
    requires |history| <= DailyRequestLimit
    ensures WithinDailyCap(history, tz)
  {
    forall phoneNumber, day
      ensures |RequestsOnDay(history, phoneNumber, day, tz)| <= DailyRequestLimit
    {
    }
  }

  /**
   * The daily cap is an invariant of successful production requests, provided
   * the row's creation time (the second clock reading) falls on the same local
   * day as the rate-limit check (the first).
   */
  lemma DailyCapPreserved(history: seq<AuthHistory>, row: AuthHistory, today: int, tz: int)
    requires WithinDailyCap(history, tz)
    requires |TodaysRequests(history, row.phoneNumber, today, tz)| < DailyRequestLimit
    requires Day(row.createDate, tz) == Day(today, tz)
    ensures WithinDailyCap(history + [row], tz)
  {
    forall phoneNumber, day
      ensures |RequestsOnDay(history + [row], phoneNumber, day, tz)| <= DailyRequestLimit
    {
      var gte := day * MsPerDay - tz;
      var lte := gte + LastSecondOfDay;
      FindManyAppend(history, row, phoneNumber, gte, lte);
      if Matches(row, phoneNumber, gte, lte) {
        WindowOfDay(row.createDate, day, tz);
        assert RequestsOnDay(history, phoneNumber, day, tz) == TodaysRequests(history, row.phoneNumber, today, tz);
      } else {
        assert |RequestsOnDay(history, phoneNumber, day, tz)| <= DailyRequestLimit;
      }
    }
  }

  /**
   * The first ordering condition of `DailyCapPreservedInOrder` (no stored row
   * later than the check) cannot be dropped: ten rows stamped at the start of
   * day 1, a check made during day 0 (which counts none of them), and a row
   * stamped on day 1 leave eleven rows in day 1's window. Rows stamped after the
   * check's own clock reading arise only from other requests running
   * concurrently or from a clock that runs backwards.
   */
  lemma DailyCapCanBeExceededAcrossMidnight()
    ensures var rows := seq(10, _ => AuthHistory("010-0000-0000", "123456", MsPerDay));
      var late := AuthHistory("010-0000-0000", "654321", MsPerDay);
      && WithinDailyCap(rows, 0)
      && |TodaysRequests(rows, "010-0000-0000", 0, 0)| == 0
      && |RequestsOnDay(rows + [late], "010-0000-0000", 1, 0)| == 11
  {
    var phone := "010-0000-0000";
    var rows := seq(10, _ => AuthHistory(phone, "123456", MsPerDay));
    var late := AuthHistory(phone, "654321", MsPerDay);
    var all := rows + [late];
    FindManyAllMatch(all, phone, MsPerDay, MsPerDay + LastSecondOfDay);
    FindManyNoneMatch(rows, phone, 0, LastSecondOfDay);
    SmallTableWithinCap(rows, 0);
  }

  /**
   * The second ordering condition of `DailyCapPreservedInOrder` (the new row no
   * earlier than the check) cannot be dropped either: day 0 holds ten rows, a
   * check made on day 1 counts none of them, and a row stamped back on day 0
   * leaves eleven rows in day 0's window.
   */
  lemma DailyCapCanBeExceededByEarlierStamp()
    ensures var rows := seq(10, _ => AuthHistory("010-0000-0000", "123456", 0));
      var early := AuthHistory("010-0000-0000", "654321", 0);
      && WithinDailyCap(rows, 0)
      && (forall row :: row in rows ==> row.createDate <= MsPerDay)
      && |TodaysRequests(rows, "010-0000-0000", MsPerDay, 0)| == 0
      && |RequestsOnDay(rows + [early], "010-0000-0000", 0, 0)| == 11
  {
    var phone := "010-0000-0000";
    var rows := seq(10, _ => AuthHistory(phone, "123456", 0));
    var early := AuthHistory(phone, "654321", 0);
    FindManyAllMatch(rows + [early], phone, 0, LastSecondOfDay);
    FindManyNoneMatch(rows, phone, MsPerDay, MsPerDay + LastSecondOfDay);
    SmallTableWithinCap(rows, 0);
  }

  /**
   * The cap bounds the window [00:00:00, 23:59:59.000], not the whole day: rows
   * created in the last 999 ms of a day are never counted, so a request checked
   * in that last second passes however many such rows the number already has.
   */
  lemma LastSecondRowsUncounted(history: seq<AuthHistory>, phoneNumber: string, today: int, tz: int)
    requires forall i :: 0 <= i < |history| ==> TimeWithinDay(history[i].createDate, tz) > LastSecondOfDay
    ensures TodaysRequests(history, phoneNumber, today, tz) == []
  {
    var rows := TodaysRequests(history, phoneNumber, today, tz);
    if rows != [] {
      HeadIsMember(rows);
      assert false;
    }
  }

  lemma HeadIsMember(rows: seq<AuthHistory>)
    requires rows != []
    ensures rows[0] in rows
  {
  }

  /**
   * Any number `n` of requests checked at 23:59:59.500 all pass the rate limit:
   * each one's check sees no rows, yet the day then holds `n` rows of that number.
   */
  lemma LastSecondRequestsUnlimited(n: nat)
    ensures var phone := "010-0000-0000";
      var rows := seq(n, _ => AuthHistory(phone, "123456", LastSecondOfDay + 500));
      && |TodaysRequests(rows, phone, LastSecondOfDay + 500, 0)| == 0
      && |FindMany(rows, phone, 0, MsPerDay - 1)| == n
  {
    var phone := "010-0000-0000";
    var rows := seq(n, _ => AuthHistory(phone, "123456", LastSecondOfDay + 500));
    FindManyAllMatch(rows, phone, 0, MsPerDay - 1);
    LastSecondRowsUncounted(rows, phone, LastSecondOfDay + 500, 0);
  }

  /**
   * The daily cap is an invariant of successful production requests made one
   * after another on a clock that does not run backwards: every stored row is
   * no later than the request's clock reading, which is no later than the new
   * row's timestamp. The new row may land on a later day than the check; that
   * day then holds no earlier rows.
   */
  lemma DailyCapPreservedInOrder(history: seq<AuthHistory>, row: AuthHistory, today: int, tz: int)
    requires WithinDailyCap(history, tz)
    requires |TodaysRequests(history, row.phoneNumber, today, tz)| < DailyRequestLimit
    requires forall old_row :: old_row in history ==> old_row.createDate <= today
    requires today <= row.createDate
    ensures WithinDailyCap(history + [row], tz)
  {
    DayMonotone(today, row.createDate, tz);
    if Day(row.createDate, tz) == Day(today, tz) {
      DailyCapPreserved(history, row, today, tz);
    } else {
      forall phoneNumber, day
        ensures |RequestsOnDay(history + [row], phoneNumber, day, tz)| <= DailyRequestLimit
      {
        var gte := day * MsPerDay - tz;
        var lte := gte + LastSecondOfDay;
        assert |RequestsOnDay(history, phoneNumber, day, tz)| <= DailyRequestLimit;
        FindManyAppend(history, row, phoneNumber, gte, lte);
        if Matches(row, phoneNumber, gte, lte) {
          WindowOfDay(row.createDate, day, tz);
          forall i | 0 <= i < |history|
            ensures !Matches(history[i], phoneNumber, gte, lte)
          {
            assert history[i] in history;
            DayMonotone(history[i].createDate, today, tz);
            BeforeWindowOfDay(history[i].createDate, day, tz);
          }
          FindManyNoneMatch(history, phoneNumber, gte, lte);
        }
      }
    }
  }

  /**
   * The check and the insert are separate steps: two requests that both count
   * nine rows before either inserts both pass, leaving eleven rows in the day.
   */
  lemma DailyCapExceededByInterleavedRequests()
    ensures var phone := "010-0000-0000";
      var rows := seq(9, _ => AuthHistory(phone, "123456", 0));
      var first := AuthHistory(phone, "111111", 0);
      var second := AuthHistory(phone, "222222", 0);
      && WithinDailyCap(rows, 0)
      && |TodaysRequests(rows, phone, 0, 0)| == 9 < DailyRequestLimit
      && |RequestsOnDay(rows + [first] + [second], phone, 0, 0)| == 11
  {
    var phone := "010-0000-0000";
    var rows := seq(9, _ => AuthHistory(phone, "123456", 0));
    var first := AuthHistory(phone, "111111", 0);
    var second := AuthHistory(phone, "222222", 0);
    FindManyAllMatch(rows, phone, 0, LastSecondOfDay);
    FindManyAllMatch(rows + [first] + [second], phone, 0, LastSecondOfDay);
    SmallTableWithinCap(rows, 0);
  }

  // ---------------------------------------------------------------------------
  // the SMS vendor
  // ---------------------------------------------------------------------------

  /** The SMS vendor's endpoint, as the list of requests posted to it. */
  class AligoGateway {
    var received: seq<AligoRequest>

    constructor()
      ensures received == []
    {
      received := [];
    }

    /**
     * `axios.post(...)`: the request reaches the vendor's log, and the call
     * throws exactly when `fails` (network failure, error status) says so. The
     * response body is never read by the caller.
     */
    method Post(request: AligoRequest, fails: bool) returns (threw: bool)
      modifies this`received
      ensures received == old(received) + [request]
      ensures threw == fails
    {
      received := received + [request];
      threw := fails;
    }
  }

  // ---------------------------------------------------------------------------
  // the service
  // ---------------------------------------------------------------------------

  class AuthService {
    /** `configService`: read at call time for `ALIGO_KEY`. */
    const config: Config
    /** `IS_DEV`, fixed when the service is constructed. */
    const isDev: bool
    /** The host's local-time offset used by `setHours`. */
    const tz: int
    /** The SMS vendor. */
    const sms: AligoGateway
    /** The `authHistory` table. */
    var authHistory: seq<AuthHistory>
    /** The `user` table. */
    var users: seq<User>

    /** `IS_DEV` is true exactly when `NODE_ENV` is `"develop"`; `"production"` or an unset value give false. */
    constructor(config: Config, tz: int, sms: AligoGateway, authHistory: seq<AuthHistory>, users: seq<User>)
      ensures isDev <==> Get(config, NodeEnvKey) == Some("develop")
      ensures this.config == config && this.tz == tz && this.sms == sms
      ensures this.authHistory == authHistory && this.users == users
    {
      this.config := config;
      this.isDev := Get(config, NodeEnvKey) == Some("develop");
      this.tz := tz;
      this.sms := sms;
      this.authHistory := authHistory;
      this.users := users;
    }

    /** The rate-limit query: the rows of `phoneNumber` inside the window of `today`. */
    method FindTodaysRequests(phoneNumber: string, today: int) returns (history: seq<AuthHistory>)
      ensures history == TodaysRequests(authHistory, phoneNumber, today, tz)
    {
      var gte, lte := RateLimitWindow(today, tz);
      history := FindMany(authHistory, phoneNumber, gte, lte);
    }

    /**
     * `sendVerificationCode(phoneNumber)`. `offset` is the random draw
     * `floor(Math.random() * 900000)`, `sendThrows` whether the vendor call
     * throws, and `requestClock` and `insertClock` the two readings of the
     * current time (for the rate-limit window and for the new row's `createDate`).
     */
    method SendVerificationCode(phoneNumber: string, offset: nat, sendThrows: bool, requestClock: int, insertClock: int)
      returns (r: Result<VerificationResponse, HttpException>)
      requires offset < 900000
      modifies this`authHistory, sms`received
      ensures var code := VerificationCode(offset);
        var count := |TodaysRequests(old(authHistory), phoneNumber, GetKoreanDate(requestClock), tz)|;
        if !isDev && count >= DailyRequestLimit then
          && r == Failure(BadRequestException(RateLimitMessage))
          && authHistory == old(authHistory)
          && sms.received == old(sms.received)
        else
          && sms.received == old(sms.received) +
               [AligoRequest(AligoUrl, Get(config, AligoKeyKey), AligoUserId, AligoSender, phoneNumber, VerificationMessage(code))]
          && (sendThrows ==>
                r == Failure(InternalServerErrorException(DispatchFailedMessage)) && authHistory == old(authHistory))
          && (!sendThrows ==>
                && r == Success(VerificationResponse(HasUserWithPhone(users, phoneNumber)))
                && authHistory == old(authHistory) + [AuthHistory(phoneNumber, code, GetKoreanDate(insertClock))])
      ensures isDev ==> (r.Success? <==> !sendThrows)
      ensures r.Failure? && r.error.BadRequestException? ==> !isDev
      ensures old(authHistory) <= authHistory && |authHistory| <= |old(authHistory)| + 1
      ensures r.Success? ==> MessageCode(sms.received[|sms.received| - 1].msg) == Some(authHistory[|authHistory| - 1].code)
      ensures !isDev && old(WithinDailyCap(authHistory, tz))
              && requestClock <= insertClock
              && (forall row :: row in old(authHistory) ==> row.createDate <= GetKoreanDate(requestClock))
              ==> WithinDailyCap(authHistory, tz)
      ensures !isDev && old(WithinDailyCap(authHistory, tz))
              && Day(GetKoreanDate(insertClock), tz) == Day(GetKoreanDate(requestClock), tz)
              ==> WithinDailyCap(authHistory, tz)
    {
      var code := VerificationCode(offset);
      var today := GetKoreanDate(requestClock);
      var history := FindTodaysRequests(phoneNumber, today);
      if !isDev && |history| >= DailyRequestLimit {
        r := Failure(BadRequestException(RateLimitMessage));
        return;
      }
      var request := AligoRequest(AligoUrl, Get(config, AligoKeyKey), AligoUserId, AligoSender, phoneNumber, VerificationMessage(code));
      var threw := sms.Post(request, sendThrows);
      if threw {
        r := Failure(InternalServerErrorException(DispatchFailedMessage));
        return;
      }
      var row := AuthHistory(phoneNumber, code, GetKoreanDate(insertClock));
      if !isDev && WithinDailyCap(authHistory, tz) {
        if Day(row.createDate, tz) == Day(today, tz) {
          DailyCapPreserved(authHistory, row, today, tz);
        }
        if requestClock <= insertClock && forall old_row :: old_row in authHistory ==> old_row.createDate <= today {
          DailyCapPreservedInOrder(authHistory, row, today, tz);
        }
      }
      authHistory := authHistory + [row];
      MessageCarriesCode(code);
      var user := FindFirstUser(users, phoneNumber);
      r := Success(VerificationResponse(user.Some?));
    }
  }
}
