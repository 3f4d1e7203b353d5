/**
 * The bot's conversation: each user has a session, a finite-state-machine
 * state plus a data dictionary, and each incoming message or button press is
 * routed to the first registered handler whose filters match, exactly as the
 * dispatcher does, then applied to the session, the spreadsheet and the
 * registry. The transport, the clock, identifiers and the reachability of the
 * spreadsheet service come in through `Env`.
 */
module Bot {
  import opened Wrappers
  import opened Text
  import opened TimeUtils
  import opened Models
  import opened SheetsClient
  import opened UsersRepo

  /** A real calendar instant in the bot's fixed local zone, or in UTC. */
  type Instant = dt: DateTime | TimeUtils.Valid(dt) witness DateTime(1, 1, 1, 0, 0, 0)

  /** `None` plus the states of `TripStates`, `EditStates` and `PhotoStates`. */
  datatype FsmState =
    | Idle
    | WaitingStartTime | WaitingOdometerStart | WaitingEndTime | WaitingOdometerEnd
    | WaitingProject | WaitingAddress | WaitingComment | WaitingConfirmation
    | WaitingFieldChoice | WaitingNewValue
    | WaitingManualOdoBars

  /** The keys the handlers keep in the session's data dictionary; `None` is an absent key. */
  datatype SessionData = SessionData(
    startTime: Option<Instant>,
    endTime: Option<Instant>,
    odometerStart: Option<int>,
    odometerEnd: Option<int>,
    project: Option<string>,
    address: Option<string>,
    comment: Option<string>,
    editEntry: Option<RowDict>,
    editField: Option<string>,
    photoManual: Option<bool>)

  const NoData := SessionData(None, None, None, None, None, None, None, None, None, None)

  datatype Session = Session(state: FsmState, data: SessionData)

  /** `state.clear()`: no state and no data. */
  const Cleared := Session(Idle, NoData)

  datatype Event =
    | Text(text: string)
    | Photo
    | Callback(data: string)

  /**
   * Which program handles the update: `bot.py` as written, or with the two
   * corrections listed under the README's findings (a readable `created_at`
   * stamp, and an edit button that looks up the pressing user).
   */
  datatype Build = AsWritten | Corrected

  /** What the outside world supplies to one update; `botId` is the bot's own Telegram id. */
  datatype Env = Env(
    userId: int,
    botId: int,
    nowLocal: Instant,
    nowUtc: Instant,
    freshUid: string,
    sheetsUp: bool,
    fuelBars: int,
    build: Build)

  datatype World = World(sheet: seq<Row>, registry: Registry)

  /** What the user is told, in substance. */
  datatype Reply =
    | NoHandler | Silent | Prompt | Invalid | NotRegistered | Failed | Crashed
    | Registered | Listed(rows: seq<RowDict>)
    | Saved | NotSaved | NoEntries | EditExpired | NotFound | Updated | NotUpdated

  // ---------------------------------------------------------------- routing

  predicate StartsWith(s: string, prefix: string)
  {
    |prefix| <= |s| && s[..|prefix|] == prefix
  }

  /** The `Command(name)` filter: the first whitespace-separated token is `/name`. */
  predicate IsCommand(text: string, name: string)
  {
    var ws := Words(text);
    |ws| > 0 && ws[0] == "/" + name
  }

  const PhotoConfirmPrefix := "confirm_photo"
  const PhotoManualPrefix := "manual_photo"
  const PhotoRetakePrefix := "retake_photo"

  /** The message handlers; a photo has a handler of its own. */
  datatype MessageHandler =
    | HandlePhotoManualInput | CmdStart | HandleRegistration | CmdNew
    | StartTimeInput | OdometerStartInput | EndTimeInput | OdometerEndInput
    | ProjectInput | AddressInput | CommentInput
    | CmdLast | CmdEditLast | EditNewValue | CmdExport | CmdHelp
    | NoMessageHandler

  /** The callback-query handlers. */
  datatype CallbackHandler =
    | HandlePhotoConfirm | HandlePhotoManual | HandlePhotoRetake | CallbackNewEntry
    | StartTimeNow | StartTimeManual | EndTimeNow | EndTimeManual
    | SkipProject | SkipAddress | ConfirmSave
    | CallbackLast | CallbackEditLast | EditFieldChoice | CallbackExport | CallbackHelp
    | Cancel | MainMenu | GoBack
    | NoCallbackHandler

  /** The message handlers, in the order they are registered. */
  function RouteText(st: FsmState, t: string): (h: MessageHandler)
    ensures h == HandlePhotoManualInput <==> st == WaitingManualOdoBars
    ensures h == HandleRegistration ==> st == Idle
    ensures h == StartTimeInput ==> st == WaitingStartTime
    ensures h == OdometerStartInput ==> st == WaitingOdometerStart
    ensures h == EndTimeInput ==> st == WaitingEndTime
    ensures h == OdometerEndInput ==> st == WaitingOdometerEnd
    ensures h == ProjectInput ==> st == WaitingProject
    ensures h == AddressInput ==> st == WaitingAddress
    ensures h == CommentInput ==> st == WaitingComment
    ensures h == EditNewValue ==> st == WaitingNewValue
  {
    if st == WaitingManualOdoBars then HandlePhotoManualInput
    else if IsCommand(t, "start") then CmdStart
    else if st == Idle then HandleRegistration
    else if IsCommand(t, "new") then CmdNew
    else if st == WaitingStartTime then StartTimeInput
    else if st == WaitingOdometerStart then OdometerStartInput
    else if st == WaitingEndTime then EndTimeInput
    else if st == WaitingOdometerEnd then OdometerEndInput
    else if st == WaitingProject then ProjectInput
    else if st == WaitingAddress then AddressInput
    else if st == WaitingComment then CommentInput
    else if IsCommand(t, "last") then CmdLast
    else if IsCommand(t, "edit_last") then CmdEditLast
    else if st == WaitingNewValue then EditNewValue
    else if IsCommand(t, "export") then CmdExport
    else if IsCommand(t, "help") then CmdHelp
    else NoMessageHandler
  }

  /** The callback-query handlers, in the order they are registered. */
  function RouteCallback(st: FsmState, d: string): (h: CallbackHandler)
    ensures h == StartTimeNow ==> st == WaitingStartTime
    ensures h == EndTimeNow ==> st == WaitingEndTime
    ensures h == SkipProject ==> st == WaitingProject
    ensures h == SkipAddress ==> st == WaitingAddress
    ensures h == ConfirmSave ==> st == WaitingConfirmation && d == "confirm_save"
    ensures h == EditFieldChoice ==> st == WaitingFieldChoice
  {
    if StartsWith(d, PhotoConfirmPrefix + ":") then HandlePhotoConfirm
    else if StartsWith(d, PhotoManualPrefix + ":") then HandlePhotoManual
    else if StartsWith(d, PhotoRetakePrefix + ":") then HandlePhotoRetake
    else if d == "new_entry" then CallbackNewEntry
    else if d == "time_now" && st == WaitingStartTime then StartTimeNow
    else if d == "time_manual" && st == WaitingStartTime then StartTimeManual
    else if d == "end_time_now" && st == WaitingEndTime then EndTimeNow
    else if d == "end_time_manual" && st == WaitingEndTime then EndTimeManual
    else if d == "skip_project" && st == WaitingProject then SkipProject
    else if d == "skip_address" && st == WaitingAddress then SkipAddress
    else if d == "confirm_save" && st == WaitingConfirmation then ConfirmSave
    else if d == "last_entries" then CallbackLast
    else if d == "edit_last" then CallbackEditLast
    else if StartsWith(d, "edit_") && st == WaitingFieldChoice then EditFieldChoice
    else if d == "export" then CallbackExport
    else if d == "help" then CallbackHelp
    else if d == "cancel" then Cancel
    else if d == "main_menu" then MainMenu
    else if d == "go_back" then GoBack
    else NoCallbackHandler
  }

  // ---------------------------------------------------------------- photo flow

  /** `build_photo_confirm_kb`: the data of the "correct" button. */
  function EncodePhotoConfirm(userId: int, odo: int, bars: int): string
  {
    PhotoConfirmPrefix + ":" + IntToString(userId) + ":" + IntToString(odo) + ":" + IntToString(bars)
  }

  /** `handle_photo_confirm`'s decoding: exactly four `:`-separated parts, the last two integers. */
  function DecodePhotoConfirm(d: string): (r: Option<(string, int, int)>)
    ensures r.Some? ==> |SplitOn(d, ':')| == 4 && r.value.0 == SplitOn(d, ':')[1]
  {
    var parts := SplitOn(d, ':');
    if |parts| != 4 then None
    else
      var odo, bars := ParseInt(parts[2]), ParseInt(parts[3]);
      if odo.None? || bars.None? then None else Some((parts[1], odo.value, bars.value))
  }

  lemma IntTextNoColon(n: int)
    ensures ':' !in IntToString(n)
  {
  }

  /** The four parts the "correct" button's data splits into. */
  lemma {:induction false} PhotoConfirmParts(userId: int, odo: int, bars: int)
    ensures SplitOn(EncodePhotoConfirm(userId, odo, bars), ':')
         == [PhotoConfirmPrefix, IntToString(userId), IntToString(odo), IntToString(bars)]
  {
    var u, o, b := IntToString(userId), IntToString(odo), IntToString(bars);
    IntTextNoColon(userId);
    IntTextNoColon(odo);
    IntTextNoColon(bars);
    var tail := o + [':'] + b;
    var mid := u + [':'] + tail;
    assert EncodePhotoConfirm(userId, odo, bars) == PhotoConfirmPrefix + [':'] + mid;
    SplitOnJoin(PhotoConfirmPrefix, ':', mid);
    SplitOnJoin(u, ':', tail);
    SplitOnJoin(o, ':', b);
    SplitOnNoSep(b, ':');
  }

  /** The "correct" button decodes back to the reading it was built from. */
  lemma PhotoConfirmRoundTrip(userId: int, odo: int, bars: int)
    ensures DecodePhotoConfirm(EncodePhotoConfirm(userId, odo, bars)) == Some((IntToString(userId), odo, bars))
  {
    PhotoConfirmParts(userId, odo, bars);
    IntToStringRoundTrip(odo);
    IntToStringRoundTrip(bars);
  }

  /**
   * `handle_photo_manual_input`'s parsing: the first two whitespace-separated
   * tokens are integers and the bar count lies in `0..fuelBars`; further tokens
   * are ignored.
   */
  function ParseOdoBars(t: string, fuelBars: int): (r: Option<(int, int)>)
    ensures var ws := Words(Strip(t));
      r.Some? <==> |ws| >= 2 && ParseInt(ws[0]).Some? && ParseInt(ws[1]).Some?
                   && 0 <= ParseInt(ws[1]).value <= fuelBars
    ensures r.Some? ==> 0 <= r.value.1 <= fuelBars
    ensures r.Some? ==> var ws := Words(Strip(t));
      ParseInt(ws[0]) == Some(r.value.0) && ParseInt(ws[1]) == Some(r.value.1)
  {
    var parts := Words(Strip(t));
    if |parts| < 2 then None
    else
      var odo, bars := ParseInt(parts[0]), ParseInt(parts[1]);
      if odo.None? || bars.None? || bars.value < 0 || bars.value > fuelBars then None
      else Some((odo.value, bars.value))
  }

  lemma IntTextNoSpace(n: int)
    ensures |IntToString(n)| > 0 && NoSpace(IntToString(n))
  {
  }

  /** `odo bars` typed as two integers with the bar count in range is accepted as typed. */
  lemma ParseOdoBarsTyped(odo: int, bars: int, fuelBars: int)
    requires 0 <= bars <= fuelBars
    ensures ParseOdoBars(IntToString(odo) + " " + IntToString(bars), fuelBars) == Some((odo, bars))
  {
    var o, b := IntToString(odo), IntToString(bars);
    IntTextNoSpace(odo);
    IntTextNoSpace(bars);
    var t := o + " " + b;
    assert !IsSpace(t[0]) && !IsSpace(t[|t| - 1]);
    StripStripped(t);
    WordsTwo(o, b);
    IntToStringRoundTrip(odo);
    IntToStringRoundTrip(bars);
  }

  // ---------------------------------------------------------------- registration

  /** `handle_registration`'s check on the stripped name. */
  predicate NameAcceptable(name: string)
  {
    |name| >= 3 && |Words(name)| >= 2
  }

  /** Nothing, or a single space, holds no word. */
  lemma ShortSpaceNoWords(s: string)
    ensures |s| <= 1 && (s == [] || IsSpace(s[0])) ==> Words(s) == []
  {
    if |s| == 1 && IsSpace(s[0]) {
      assert s[1..] == [];
      assert TrimLeft(s) == [];
    }
  }

  /** Text that starts with a space and still holds a word has at least two characters. */
  lemma WordAfterSpace(rest: string)
    requires |Words(rest)| >= 1 && (rest == [] || IsSpace(rest[0]))
    ensures |rest| >= 2
  {
    ShortSpaceNoWords(rest);
  }

  /** After the first word of `s` come a space and at least one more character. */
  lemma SecondWordAfterSpace(s: string)
    requires |Words(s)| >= 2
    ensures |TrimLeft(s)| >= |TakeWord(TrimLeft(s))| + 2
  {
    var w, rest := WordsFirst(s);
    WordAfterSpace(rest);
  }

  /** Two words need at least three characters, so the length test never decides anything. */
  lemma TwoWordsLongEnough(name: string)
    requires |Words(name)| >= 2
    ensures |name| >= 3
    ensures NameAcceptable(name)
  {
    SecondWordAfterSpace(name);
    var t := TrimLeft(name);
    assert Words(name)[0] == TakeWord(t);
  }

  /** The name check comes down to the word count. */
  lemma NameCheckIsWordCount(name: string)
    ensures NameAcceptable(name) <==> |Words(name)| >= 2
  {
    if |Words(name)| >= 2 {
      TwoWordsLongEnough(name);
    }
  }

  lemma StripIdempotent(s: string)
    ensures Strip(Strip(s)) == Strip(s)
  {
    StripStripped(Strip(s));
  }

  // ---------------------------------------------------------------- session consistency

  /** The question asked after each trip question, in the order the trip is entered. */
  function NextTripState(st: FsmState): FsmState
  {
    match st
    case WaitingStartTime => WaitingOdometerStart
    case WaitingOdometerStart => WaitingEndTime
    case WaitingEndTime => WaitingOdometerEnd
    case WaitingOdometerEnd => WaitingProject
    case WaitingProject => WaitingAddress
    case WaitingAddress => WaitingComment
    case WaitingComment => WaitingConfirmation
    case _ => st
  }

  /** Stored readings agree: odometers not negative, the trip not ending before it starts or below its start reading. */
  predicate DataOk(d: SessionData)
  {
    && (d.odometerStart.Some? ==> d.odometerStart.value >= 0)
    && (d.endTime.Some? ==> d.startTime.Some? && !CalendarLess(d.endTime.value, d.startTime.value))
    && (d.odometerEnd.Some? ==> d.odometerStart.Some? && d.odometerStart.value <= d.odometerEnd.value)
  }

  predicate TripComplete(d: SessionData)
  {
    d.startTime.Some? && d.endTime.Some? && d.odometerStart.Some? && d.odometerEnd.Some?
  }

  /** The readings agree, and each trip state holds what the questions before it collected. */
  predicate Consistent(s: Session)
  {
    && DataOk(s.data)
    && match s.state
       case WaitingStartTime => s.data.endTime.None? && s.data.odometerEnd.None?
       case WaitingOdometerStart => s.data.startTime.Some? && s.data.endTime.None? && s.data.odometerEnd.None?
       case WaitingEndTime => s.data.startTime.Some? && s.data.odometerStart.Some?
       case WaitingOdometerEnd => s.data.startTime.Some? && s.data.odometerStart.Some? && s.data.endTime.Some?
       case WaitingProject => TripComplete(s.data)
       case WaitingAddress => TripComplete(s.data)
       case WaitingConfirmation => TripComplete(s.data) && s.data.comment.Some?
       case _ => true
  }

  // ---------------------------------------------------------------- actions

  /**
   * What a handler does: set the session (and reply), or ask the spreadsheet
   * or registry for a write whose result decides the rest.
   */
  datatype Action =
    | Set(session: Session, reply: Reply)
    | AppendTrip(entry: TripEntry)
    | UpdateTrip(rowNumber: int, entry: TripEntry)
    | RegisterName(name: string)

  function Stay(s: Session, r: Reply): Action
  {
    Set(s, r)
  }

  predicate Unchanged(a: Action, s: Session)
  {
    a.Set? && a.session == s
  }

  /** A session the action sets is consistent when the one it started from was. */
  predicate KeepsConsistent(s: Session, a: Action)
  {
    Consistent(s) && a.Set? ==> Consistent(a.session)
  }

  /** `start_new_entry`: a fresh session waiting for the start time. */
  function StartNewEntry(): Session
  {
    Session(WaitingStartTime, NoData)
  }

  /** `handle_registration`: a new user's stripped text becomes the name if it passes the check. */
  function OnRegistration(s: Session, reg: Registry, t: string, env: Env): (a: Action)
    ensures Unchanged(a, s) || a.RegisterName?
    ensures KeepsConsistent(s, a)
  {
    var name := Strip(t);
    if reg.IsRegistered(env.userId) then Stay(s, Prompt)
    else if !NameAcceptable(name) then Stay(s, Invalid) else RegisterName(name)
  }

  /** `cmd_new`: only a registered user starts a trip, and starting one drops the session's data. */
  function OnCmdNew(s: Session, reg: Registry, env: Env): (a: Action)
    ensures reg.IsRegistered(env.userId) ==> a == Set(StartNewEntry(), Prompt)
    ensures !reg.IsRegistered(env.userId) ==> a == Stay(s, NotRegistered)
    ensures KeepsConsistent(s, a)
  {
    if !reg.IsRegistered(env.userId) then Stay(s, NotRegistered) else Set(StartNewEntry(), Prompt)
  }

  /** A start time is stored and the start odometer is asked for. */
  function AcceptStartTime(s: Session, start: Instant): (a: Action)
    ensures a.Set?
    ensures s.state == WaitingStartTime ==> KeepsConsistent(s, a)
  {
    Set(Session(WaitingOdometerStart, s.data.(startTime := Some(start))), Prompt)
  }

  /** `handle_start_time_input`: a readable time is accepted, anything else refused. */
  function OnStartTimeInput(s: Session, t: string, env: Env): (a: Action)
    ensures a.Set?
    ensures s.state == WaitingStartTime ==> KeepsConsistent(s, a)
  {
    match ParseDateTimeInput(t, env.nowLocal)
    case None => Stay(s, Invalid)
    case Some(dt) => AcceptStartTime(s, dt)
  }

  /**
   * The odometer handlers' reading, `int(text.strip())`; `int` strips surrounding
   * whitespace itself, so the explicit strip changes nothing. Negative readings
   * are refused.
   */
  function ReadOdometer(t: string): (r: Option<nat>)
    ensures r.Some? <==> ParseInt(t).Some? && ParseInt(t).value >= 0
    ensures r.Some? ==> ParseInt(t) == Some(r.value as int)
  {
    var v := ParseInt(t);
    if v.None? || v.value < 0 then None else Some(v.value)
  }

  /** A start reading is stored and the end time is asked for. */
  function AcceptOdometerStart(s: Session, v: nat): (a: Action)
    ensures a.Set?
    ensures s.state == WaitingOdometerStart ==> KeepsConsistent(s, a)
  {
    Set(Session(WaitingEndTime, s.data.(odometerStart := Some(v))), Prompt)
  }

  /** `handle_odometer_start`: a reading that is a whole number at least 0 is accepted. */
  function OnOdometerStartInput(s: Session, t: string): (a: Action)
    ensures a.Set?
    ensures s.state == WaitingOdometerStart ==> KeepsConsistent(s, a)
  {
    match ReadOdometer(t)
    case None => Stay(s, Invalid)
    case Some(v) => AcceptOdometerStart(s, v)
  }

  /**
   * The end time is checked against the stored start with `validate_time_sequence`:
   * it is accepted exactly when it is not earlier; a missing start raises `KeyError`.
   */
  function AcceptEndTime(s: Session, end: Instant): (a: Action)
    ensures a.Set?
    ensures s.state == WaitingEndTime ==> KeepsConsistent(s, a)
  {
    match s.data.startTime
    case None => Stay(s, Crashed)
    case Some(start) =>
      if !ValidateTimeSequence(start, end) then Stay(s, Invalid)
      else Set(Session(WaitingOdometerEnd, s.data.(endTime := Some(end))), Prompt)
  }

  /** `handle_end_time_input`: an unreadable time is refused before the start is looked at. */
  function OnEndTimeInput(s: Session, t: string, env: Env): (a: Action)
    ensures a.Set?
    ensures s.state == WaitingEndTime ==> KeepsConsistent(s, a)
  {
    match ParseDateTimeInput(t, env.nowLocal)
    case None => Stay(s, Invalid)
    case Some(dt) => AcceptEndTime(s, dt)
  }

  /**
   * The end reading is checked against the stored start reading: it is accepted
   * when not below it, so an equal reading is a trip of 0 km; a missing start
   * reading raises `KeyError`.
   */
  function AcceptOdometerEnd(s: Session, v: nat): (a: Action)
    ensures a.Set?
    ensures s.state == WaitingOdometerEnd ==> KeepsConsistent(s, a)
  {
    match s.data.odometerStart
    case None => Stay(s, Crashed)
    case Some(os) =>
      if v < os then Stay(s, Invalid)
      else Set(Session(WaitingProject, s.data.(odometerEnd := Some(v))), Prompt)
  }

  /** `handle_odometer_end`: a reading that is a whole number at least 0 goes on to the check. */
  function OnOdometerEndInput(s: Session, t: string): (a: Action)
    ensures a.Set?
    ensures s.state == WaitingOdometerEnd ==> KeepsConsistent(s, a)
  {
    match ReadOdometer(t)
    case None => Stay(s, Invalid)
    case Some(v) => AcceptOdometerEnd(s, v)
  }

  /** `show_confirmation` reads these keys and the registration; a missing one raises. */
  predicate ConfirmationReady(d: SessionData, reg: Registry, userId: int)
  {
    TripComplete(d) && d.comment.Some? && reg.IsRegistered(userId)
  }

  /**
   * `handle_comment`: the stripped comment is stored first; the summary is then
   * shown, or raises and leaves the user at the comment question.
   */
  function OnCommentInput(s: Session, reg: Registry, t: string, env: Env): (a: Action)
    ensures a.Set? && (a.session.state == s.state || a.session.state == WaitingConfirmation)
    ensures a.session.data == s.data.(comment := Some(Strip(t)))
    ensures s.state == WaitingComment ==> KeepsConsistent(s, a)
  {
    var d := s.data.(comment := Some(Strip(t)));
    if ConfirmationReady(d, reg, env.userId) then Set(Session(WaitingConfirmation, d), Prompt)
    else Set(Session(s.state, d), Crashed)
  }

  function OrEmptyText(o: Option<string>): string
  {
    match o
    case Some(v) => v
    case None => ""
  }

  /**
   * The `created_at` stamp `callback_confirm_save` writes. As written it is
   * `get_utc_iso_string()`, which never reads back; corrected, it is a `Z`
   * stamp that reads back as the current UTC instant.
   */
  function CreatedStamp(env: Env): (stamp: string)
    ensures env.build == AsWritten ==> ParseStamp(stamp) == None
    ensures env.build == Corrected ==> ParseStamp(stamp) == Some(Stamp(env.nowUtc, Some(0)))
  {
    match env.build
    case AsWritten => AsWrittenStampUnreadable(env.nowUtc); UtcIsoStringAsWritten(env.nowUtc)
    case Corrected => ZuluStampReadsBack(env.nowUtc); ZuluIsoString(env.nowUtc)
  }

  /**
   * The author whose entries the "edit last" button looks up. As written,
   * `callback_edit_last` hands the button's message to `start_edit_last_entry`,
   * which takes the author from that message, and the bot sent that message;
   * corrected, it is the user who pressed the button.
   */
  function EditButtonAuthor(env: Env): (id: int)
    ensures env.build == AsWritten ==> id == env.botId
    ensures env.build == Corrected ==> id == env.userId
  {
    match env.build
    case AsWritten => env.botId
    case Corrected => env.userId
  }

  /**
   * The entry `callback_confirm_save` builds from the session: built exactly when
   * the trip is complete, the comment given, the user registered and the end
   * reading not below the start; stamped by `CreatedStamp`, authored by the
   * user, named by a fresh identifier.
   */
  function TripFromSession(d: SessionData, reg: Registry, env: Env): (r: Option<TripEntry>)
  {
    if d.startTime.None? || d.endTime.None? || d.odometerStart.None? || d.odometerEnd.None? then None
    else
      var user := reg.GetUser(env.userId);
      if user.None? || d.comment.None? then None
      else
        var (date, timeStart) := FormatForSheets(d.startTime.value);
        var (_, timeEnd) := FormatForSheets(d.endTime.value);
        var os, oe := d.odometerStart.value, d.odometerEnd.value;
        match NewTripEntry(date, timeStart, timeEnd, os, oe, oe - os, user.value.fullName,
                           Some(OrEmptyText(d.project)), Some(OrEmptyText(d.address)), d.comment.value,
                           CreatedStamp(env), env.userId, None, env.freshUid)
        case Success(e) => Some(e)
        case Failure(_) => None
  }

  /** `callback_confirm_save`: asks for the session's trip to be appended, or raises. */
  function OnConfirmSave(s: Session, reg: Registry, env: Env): (a: Action)
    ensures (a.AppendTrip? && TripFromSession(s.data, reg, env) == Some(a.entry)) || Unchanged(a, s)
    ensures KeepsConsistent(s, a)
  {
    match TripFromSession(s.data, reg, env)
    case None => Stay(s, Crashed)
    case Some(e) => AppendTrip(e)
  }

  /** The edit window of `start_edit_last_entry`, in minutes. */
  const EditLimitMinutes := 15

  /**
   * `start_edit_last_entry` for the entries authored by `authorId`: the bottom-most
   * such row is kept in the session for editing, provided its stamp is readable,
   * carries an offset and is at most 15 minutes old; otherwise nothing changes.
   */
  function StartEditLast(s: Session, sheet: seq<Row>, authorId: int, env: Env): (a: Action)
    ensures Unchanged(a, s) || (a.Set? && a.session.state == WaitingFieldChoice)
    ensures var last := LastUserEntry(sheet, authorId);
      if last.Some? && IsWithinEditTimeLimit(Lookup(last.value, "created_at", ""), env.nowUtc, EditLimitMinutes)
      then a == Set(Session(WaitingFieldChoice, s.data.(editEntry := last)), Prompt)
      else a.Set? && a.session == s && a.reply == (if last.None? then NoEntries else EditExpired)
    ensures KeepsConsistent(s, a)
  {
    match LastUserEntry(sheet, authorId)
    case None => Stay(s, NoEntries)
    case Some(entry) =>
      if !IsWithinEditTimeLimit(Lookup(entry, "created_at", ""), env.nowUtc, EditLimitMinutes) then Stay(s, EditExpired)
      else Set(Session(WaitingFieldChoice, s.data.(editEntry := Some(entry))), Prompt)
  }

  /** `handle_edit_field_choice`: the field is the button data with every `edit_` removed. */
  function OnEditFieldChoice(s: Session, d: string): Action
  {
    var field := ReplaceAll(d, "edit_", "");
    Set(Session(WaitingNewValue, s.data.(editField := Some(field))), Prompt)
  }

  /**
   * The entry `handle_edit_new_value` rebuilds from the edited dictionary: the
   * stored date and both times must read back, the numeric cells must be
   * integers with the end reading not below the start, the user must be
   * registered; the engineer becomes the registered name and the distance is
   * recomputed, while the stamp and the identifier are carried over.
   */
  function EditedTrip(entry: RowDict, rowUid: string, reg: Registry, userId: int, freshUid: string): (r: Option<TripEntry>)
  {
    if "date" !in entry || "time_start" !in entry || "time_end" !in entry then None
    else if ParseSheetsDateTime(entry["date"], entry["time_start"]).None?
         || ParseSheetsDateTime(entry["date"], entry["time_end"]).None? then None
    else if "odometer_start" !in entry || "odometer_end" !in entry || "distance_km" !in entry then None
    else
      var os, oe, dist := ParseInt(entry["odometer_start"]), ParseInt(entry["odometer_end"]), ParseInt(entry["distance_km"]);
      var user := reg.GetUser(userId);
      if os.None? || oe.None? || dist.None? || user.None? || "created_at" !in entry then None
      else
        match NewTripEntry(entry["date"], entry["time_start"], entry["time_end"], os.value, oe.value, dist.value,
                           user.value.fullName, Some(Lookup(entry, "project", "")), Some(Lookup(entry, "address", "")),
                           Lookup(entry, "comment", ""), entry["created_at"], userId, Some(rowUid), freshUid)
        case Success(e) => Some(e)
        case Failure(_) => None
  }

  /** The dictionary being edited, with the chosen field set to the stripped text. */
  function EditedEntry(d: SessionData, t: string): RowDict
    requires d.editField.Some? && d.editEntry.Some?
  {
    d.editEntry.value[d.editField.value := Strip(t)]
  }

  /**
   * `handle_edit_new_value`: the edit ends whatever happens once the field and the
   * entry are there; a rewrite is asked for only for the row found by the
   * entry's identifier among the user's own rows.
   */
  function OnEditNewValue(s: Session, w: World, t: string, env: Env): (a: Action)
    ensures Unchanged(a, s) || Unchanged(a, Cleared) || a.UpdateTrip?
    ensures KeepsConsistent(s, a)
    ensures a.UpdateTrip? ==> 1 <= a.rowNumber <= |w.sheet|
  {
    if s.data.editField.None? || s.data.editEntry.None? then Stay(s, Crashed)
    else
      var entry := EditedEntry(s.data, t);
      var rowUid := Lookup(entry, "row_uid", "");
      if rowUid == "" then Set(Cleared, NotFound)
      else
        match FindByUid(w.sheet, rowUid, env.userId)
        case None => Set(Cleared, NotFound)
        case Some((n, _)) =>
          match EditedTrip(entry, rowUid, w.registry, env.userId, env.freshUid)
          case None => Set(Cleared, Failed)
          case Some(e) => UpdateTrip(n, e)
  }

  /**
   * `handle_photo_manual_input`: silent unless manual input was requested;
   * otherwise the request is reset whatever the text. Nothing is ever saved: a
   * well-formed reading reaches `append_measurement`, which the client does not
   * have, and the resulting error is reported like a malformed one.
   */
  function OnPhotoManualInput(s: Session, t: string, env: Env): (a: Action)
    ensures a.Set? && a.session.state == s.state
    ensures KeepsConsistent(s, a)
  {
    if s.data.photoManual != Some(true) then Stay(s, Silent)
    else
      var reset := Session(s.state, s.data.(photoManual := Some(false)));
      match ParseOdoBars(t, env.fuelBars)
      case None => Set(reset, Invalid)
      case Some(_) => Set(reset, Invalid)
  }

  /** `handle_photo_confirm`: decoding may fail, and saving always does, for the same reason. */
  function OnPhotoConfirm(s: Session, d: string): Action
  {
    match DecodePhotoConfirm(d)
    case None => Stay(s, Failed)
    case Some(_) => Stay(s, Failed)
  }

  predicate IsTripQuestion(st: FsmState)
  {
    st in {WaitingStartTime, WaitingOdometerStart, WaitingEndTime, WaitingOdometerEnd,
           WaitingProject, WaitingAddress, WaitingComment}
  }

  /**
   * The text handlers of the trip questions. An answer either moves on to the
   * next question or, refused, changes nothing; only the comment is stored even
   * when the summary that follows it fails.
   */
  function TripAnswer(s: Session, w: World, t: string, env: Env): (a: Action)
    requires IsTripQuestion(s.state)
    ensures a.Set?
    ensures KeepsConsistent(s, a)
  {
    match s.state
    case WaitingStartTime => OnStartTimeInput(s, t, env)
    case WaitingOdometerStart => OnOdometerStartInput(s, t)
    case WaitingEndTime => OnEndTimeInput(s, t, env)
    case WaitingOdometerEnd => OnOdometerEndInput(s, t)
    case WaitingProject => Set(Session(WaitingAddress, s.data.(project := Some(Strip(t)))), Prompt)
    case WaitingAddress => Set(Session(WaitingComment, s.data.(address := Some(Strip(t)))), Prompt)
    case WaitingComment => OnCommentInput(s, w.registry, t, env)
  }

  /** The handler of a text message, as routed by `RouteText`. */
  function TextAction(s: Session, w: World, t: string, env: Env): (a: Action)
    ensures !a.AppendTrip?
    ensures a.UpdateTrip? ==> s.state == WaitingNewValue && 1 <= a.rowNumber <= |w.sheet|
                              && a == OnEditNewValue(s, w, t, env)
    ensures a.RegisterName? ==> s.state == Idle
    ensures KeepsConsistent(s, a)
    ensures RouteText(s.state, t) == CmdEditLast ==> a == StartEditLast(s, w.sheet, env.userId, env)
  {
    match RouteText(s.state, t)
    case HandlePhotoManualInput => OnPhotoManualInput(s, t, env)
    case CmdStart => Stay(s, Prompt)
    case HandleRegistration => OnRegistration(s, w.registry, t, env)
    case CmdNew => OnCmdNew(s, w.registry, env)
    case StartTimeInput => TripAnswer(s, w, t, env)
    case OdometerStartInput => TripAnswer(s, w, t, env)
    case EndTimeInput => TripAnswer(s, w, t, env)
    case OdometerEndInput => TripAnswer(s, w, t, env)
    case ProjectInput => TripAnswer(s, w, t, env)
    case AddressInput => TripAnswer(s, w, t, env)
    case CommentInput => TripAnswer(s, w, t, env)
    case CmdLast => Stay(s, Listed(LastRows(w.sheet, 5)))
    case CmdEditLast => StartEditLast(s, w.sheet, env.userId, env)
    case EditNewValue => OnEditNewValue(s, w, t, env)
    case CmdExport => Stay(s, Prompt)
    case CmdHelp => Stay(s, Prompt)
    case NoMessageHandler => Stay(s, NoHandler)
  }

  /**
   * The handler of a button press, as routed by `RouteCallback`. The edit button
   * looks up the entries of `EditButtonAuthor`.
   */
  function CallbackAction(s: Session, w: World, d: string, env: Env): (a: Action)
    ensures !a.UpdateTrip? && !a.RegisterName?
    ensures a.AppendTrip? ==> s.state == WaitingConfirmation && d == "confirm_save"
                              && TripFromSession(s.data, w.registry, env) == Some(a.entry)
    ensures KeepsConsistent(s, a)
    ensures s.state == WaitingConfirmation && d == "confirm_save" ==> a.AppendTrip? || Unchanged(a, s)
    ensures RouteCallback(s.state, d) == CallbackEditLast ==> a == StartEditLast(s, w.sheet, EditButtonAuthor(env), env)
  {
    match RouteCallback(s.state, d)
    case HandlePhotoConfirm => OnPhotoConfirm(s, d)
    case HandlePhotoManual => Set(Session(WaitingManualOdoBars, s.data.(photoManual := Some(true))), Prompt)
    case HandlePhotoRetake => Stay(s, Prompt)
    case CallbackNewEntry => Set(StartNewEntry(), Prompt)
    case StartTimeNow => Set(Session(WaitingOdometerStart, s.data.(startTime := Some(env.nowLocal))), Prompt)
    case StartTimeManual => Stay(s, Prompt)
    case EndTimeNow => AcceptEndTime(s, env.nowLocal)
    case EndTimeManual => Stay(s, Prompt)
    case SkipProject => Set(Session(WaitingAddress, s.data.(project := Some(""))), Prompt)
    case SkipAddress => Set(Session(WaitingComment, s.data.(address := Some(""))), Prompt)
    case ConfirmSave => OnConfirmSave(s, w.registry, env)
    case CallbackLast => Stay(s, Listed(LastRows(w.sheet, 5)))
    case CallbackEditLast => StartEditLast(s, w.sheet, EditButtonAuthor(env), env)
    case EditFieldChoice => OnEditFieldChoice(s, d)
    case CallbackExport => Stay(s, Prompt)
    case CallbackHelp => Stay(s, Prompt)
    case Cancel => Set(Cleared, Prompt)
    case MainMenu => Set(Cleared, Prompt)
    case GoBack => Set(Session(WaitingComment, s.data), Prompt)
    case NoCallbackHandler => Stay(s, NoHandler)
  }

  /**
   * The action of the handler the event is routed to. Only the confirmation
   * asks for an append, only a new value in an edit for a rewrite, only a
   * new user's text for a registration; a consistent session stays consistent.
   */
  function Plan(s: Session, w: World, ev: Event, env: Env): (a: Action)
    ensures KeepsConsistent(s, a)
    ensures a.AppendTrip? ==> s.state == WaitingConfirmation && ev == Callback("confirm_save")
                              && TripFromSession(s.data, w.registry, env) == Some(a.entry)
    ensures a.UpdateTrip? ==> s.state == WaitingNewValue && ev.Text? && 1 <= a.rowNumber <= |w.sheet|
                              && a == OnEditNewValue(s, w, ev.text, env)
    ensures a.RegisterName? ==> s.state == Idle && ev.Text?
    ensures s.state == WaitingConfirmation && ev == Callback("confirm_save") ==> a.AppendTrip? || Unchanged(a, s)
  {
    match ev
    case Photo => Stay(s, Failed)
    case Text(t) => TextAction(s, w, t, env)
    case Callback(d) => CallbackAction(s, w, d, env)
  }

  datatype Outcome = Outcome(session: Session, world: World, reply: Reply)

  /**
   * Carrying out an action: a session to set, or the write it asks for and
   * what the handler does with the write's result. A refused append keeps the
   * session so the user can press the button again; an edit ends either way.
   */
  function Perform(s: Session, w: World, a: Action, env: Env): (o: Outcome)
    requires w.registry.Valid()
    ensures o.world.registry.Valid()
  {
    match a
    case Set(s', r) => Outcome(s', w, r)
    case AppendTrip(e) =>
      if env.sheetsUp && !IsDuplicate(w.sheet, e) then Outcome(Cleared, w.(sheet := w.sheet + [ToSheetsRow(e)]), Saved)
      else Outcome(s, w, NotSaved)
    case UpdateTrip(n, e) =>
      if env.sheetsUp && n >= 1 then Outcome(Cleared, w.(sheet := UpdatedSheet(w.sheet, n, ToSheetsRow(e))), Updated)
      else Outcome(Cleared, w, NotUpdated)
    case RegisterName(name) =>
      Outcome(s, w.(registry := w.registry.Register(env.userId, name, env.nowUtc)), Registered)
  }
  /**
   * One update for one user: the routed handler's action, with the write it asks
   * for carried out. The spreadsheet grows by the session's trip only when a
   * confirmation is saved, which ends the session; a refused append leaves
   * everything as it was; an existing row is rewritten only at the end of an
   * edit; only a new user's text changes the registry.
   */
  function Step(s: Session, w: World, ev: Event, env: Env): (o: Outcome)
    requires w.registry.Valid()
    ensures o.world.registry.Valid()
    ensures Consistent(s) ==> Consistent(o.session)
    ensures o.world.sheet != w.sheet ==>
      (s.state == WaitingConfirmation && ev == Callback("confirm_save")) || (s.state == WaitingNewValue && ev.Text?)
    ensures s.state == WaitingConfirmation && o.world.sheet != w.sheet ==>
      && TripFromSession(s.data, w.registry, env).Some?
      && o.world.sheet == w.sheet + [ToSheetsRow(TripFromSession(s.data, w.registry, env).value)]
      && o.session == Cleared && o.reply == Saved
    ensures s.state == WaitingConfirmation && ev == Callback("confirm_save") && o.world.sheet == w.sheet ==> o.session == s
    ensures s.state == WaitingNewValue ==> |o.world.sheet| == |w.sheet|
    ensures o.world.registry != w.registry ==> s.state == Idle && ev.Text? && o.session == s
  {
    Perform(s, w, Plan(s, w, ev, env), env)
  }
}
