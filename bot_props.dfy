/**
 * What the conversation guarantees, stated over the handlers of `Bot` and over
 * whole updates (`Bot.Step`): how each trip question treats an answer, what a
 * saved trip holds, that a save is never committed twice, how long a saved
 * trip stays editable, what an edit rewrites, how a new user is registered,
 * and that the photo flow never writes anything.
 */
module BotProperties {
  import opened Wrappers
  import opened Text
  import opened TimeUtils
  import opened Models
  import opened SheetsClient
  import opened UsersRepo
  import opened Bot

  // ---------------------------------------------------------------- routing fixed button data

  lemma NotPrefix(d: string, p: string)
    requires |p| > 0 && (|d| < |p| || d[0] != p[0])
    ensures !StartsWith(d, p)
  {
    if |d| >= |p| {
      assert d[..|p|][0] == d[0];
    }
  }

  /** "Cancel" reaches its handler from any state. */
  lemma CancelRoutes(st: FsmState)
    ensures RouteCallback(st, "cancel") == Cancel
  {
    NotPrefix("cancel", PhotoConfirmPrefix + ":");
    NotPrefix("cancel", PhotoManualPrefix + ":");
    NotPrefix("cancel", PhotoRetakePrefix + ":");
    NotPrefix("cancel", "edit_");
  }

  /** "Main menu" reaches its handler from any state. */
  lemma MainMenuRoutes(st: FsmState)
    ensures RouteCallback(st, "main_menu") == MainMenu
  {
    NotPrefix("main_menu", PhotoConfirmPrefix + ":");
    NotPrefix("main_menu", PhotoManualPrefix + ":");
    NotPrefix("main_menu", PhotoRetakePrefix + ":");
    NotPrefix("main_menu", "edit_");
  }

  /** "Back" reaches its handler from any state. */
  lemma GoBackRoutes(st: FsmState)
    ensures RouteCallback(st, "go_back") == GoBack
  {
    NotPrefix("go_back", PhotoConfirmPrefix + ":");
    NotPrefix("go_back", PhotoManualPrefix + ":");
    NotPrefix("go_back", PhotoRetakePrefix + ":");
    NotPrefix("go_back", "edit_");
  }

  /** The edit button reaches its handler from any state, the field choice included. */
  lemma EditButtonRoutes(st: FsmState)
    ensures RouteCallback(st, "edit_last") == CallbackEditLast
  {
    NotPrefix("edit_last", PhotoConfirmPrefix + ":");
    NotPrefix("edit_last", PhotoManualPrefix + ":");
    NotPrefix("edit_last", PhotoRetakePrefix + ":");
  }

  /** "save" reaches the save handler at the confirmation and no handler anywhere else outside the photo flow. */
  lemma ConfirmButtonRoutes(st: FsmState)
    ensures RouteCallback(st, "confirm_save") == if st == WaitingConfirmation then ConfirmSave else NoCallbackHandler
  {
    NotPrefix("confirm_save", PhotoConfirmPrefix + ":");
    NotPrefix("confirm_save", PhotoManualPrefix + ":");
    NotPrefix("confirm_save", PhotoRetakePrefix + ":");
    NotPrefix("confirm_save", "edit_");
  }

  // ---------------------------------------------------------------- trip questions

  /**
   * `d'` differs from `d` at most in the key the question `st` collects, and
   * holds there the value the answer `t` gives: the time it is read as, the
   * reading `int` gives, or for the three text questions the stripped text.
   */
  predicate StoresOnly(st: FsmState, d: SessionData, d': SessionData, t: string, nowLocal: Instant)
  {
    match st
    case WaitingStartTime =>
      d'.startTime.Some? && ParseDateTimeInput(t, nowLocal) == Some(d'.startTime.value) && d' == d.(startTime := d'.startTime)
    case WaitingOdometerStart =>
      d'.odometerStart.Some? && ReadOdometer(t).Some? && ReadOdometer(t).value == d'.odometerStart.value && d' == d.(odometerStart := d'.odometerStart)
    case WaitingEndTime =>
      d'.endTime.Some? && ParseDateTimeInput(t, nowLocal) == Some(d'.endTime.value) && d' == d.(endTime := d'.endTime)
    case WaitingOdometerEnd =>
      d'.odometerEnd.Some? && ReadOdometer(t).Some? && ReadOdometer(t).value == d'.odometerEnd.value && d' == d.(odometerEnd := d'.odometerEnd)
    case WaitingProject => d' == d.(project := Some(Strip(t)))
    case WaitingAddress => d' == d.(address := Some(Strip(t)))
    case WaitingComment => d' == d.(comment := Some(Strip(t)))
    case _ => d' == d
  }

  /**
   * An answer to a trip question is refused and changes nothing, or is stored
   * under the question's own key and the next question is asked; the comment
   * alone is stored even when the summary after it fails.
   */
  lemma TripAnswerStaysOrAdvances(s: Session, w: World, t: string, env: Env)
    requires IsTripQuestion(s.state)
    ensures var a := TripAnswer(s, w, t, env);
      || a.session == s
      || (StoresOnly(s.state, s.data, a.session.data, t, env.nowLocal)
          && (a.session.state == NextTripState(s.state) || (s.state == WaitingComment && a.session.state == s.state)))
  {
    if s.state == WaitingStartTime || s.state == WaitingEndTime {
      TimeAnswerStaysOrAdvances(s, w, t, env);
    } else if s.state == WaitingOdometerStart || s.state == WaitingOdometerEnd {
      OdometerAnswerStaysOrAdvances(s, w, t, env);
    } else if s.state == WaitingComment {
      assert TripAnswer(s, w, t, env) == OnCommentInput(s, w.registry, t, env);
    }
  }

  /** `TripAnswerStaysOrAdvances` for the two time questions. */
  lemma TimeAnswerStaysOrAdvances(s: Session, w: World, t: string, env: Env)
    requires s.state == WaitingStartTime || s.state == WaitingEndTime
    ensures var a := TripAnswer(s, w, t, env);
      || a.session == s
      || (StoresOnly(s.state, s.data, a.session.data, t, env.nowLocal) && a.session.state == NextTripState(s.state))
  {
    var p := ParseDateTimeInput(t, env.nowLocal);
    if p.Some? {
      if s.state == WaitingStartTime {
        assert TripAnswer(s, w, t, env) == AcceptStartTime(s, p.value);
      } else {
        assert TripAnswer(s, w, t, env) == AcceptEndTime(s, p.value);
      }
    }
  }

  /** `TripAnswerStaysOrAdvances` for the two odometer questions. */
  lemma OdometerAnswerStaysOrAdvances(s: Session, w: World, t: string, env: Env)
    requires s.state == WaitingOdometerStart || s.state == WaitingOdometerEnd
    ensures var a := TripAnswer(s, w, t, env);
      || a.session == s
      || (StoresOnly(s.state, s.data, a.session.data, t, env.nowLocal) && a.session.state == NextTripState(s.state))
  {
    var v := ReadOdometer(t);
    if v.Some? {
      if s.state == WaitingOdometerStart {
        assert TripAnswer(s, w, t, env) == AcceptOdometerStart(s, v.value);
      } else {
        assert TripAnswer(s, w, t, env) == AcceptOdometerEnd(s, v.value);
      }
    }
  }

  /** The "skip" button at the project question stores `""` and asks for the address. */
  lemma SkipProjectStoresEmpty(s: Session, w: World, env: Env)
    requires w.registry.Valid() && s.state == WaitingProject
    ensures Step(s, w, Callback("skip_project"), env)
            == Outcome(Session(WaitingAddress, s.data.(project := Some(""))), w, Prompt)
  {
    NotPrefix("skip_project", PhotoConfirmPrefix + ":");
    NotPrefix("skip_project", PhotoManualPrefix + ":");
    NotPrefix("skip_project", PhotoRetakePrefix + ":");
  }

  /** The "skip" button at the address question stores `""` and asks for the comment. */
  lemma SkipAddressStoresEmpty(s: Session, w: World, env: Env)
    requires w.registry.Valid() && s.state == WaitingAddress
    ensures Step(s, w, Callback("skip_address"), env)
            == Outcome(Session(WaitingComment, s.data.(address := Some(""))), w, Prompt)
  {
    NotPrefix("skip_address", PhotoConfirmPrefix + ":");
    NotPrefix("skip_address", PhotoManualPrefix + ":");
    NotPrefix("skip_address", PhotoRetakePrefix + ":");
  }

  /**
   * While a trip is being entered every text goes to the question's handler,
   * except `/start` and `/new`, which are registered before them: `/last`,
   * `/help` and the rest are taken as answers.
   */
  lemma TripTextRouting(s: Session, w: World, t: string, env: Env)
    requires IsTripQuestion(s.state) && !IsCommand(t, "start") && !IsCommand(t, "new")
    ensures TextAction(s, w, t, env) == TripAnswer(s, w, t, env)
  {
    var h := RouteText(s.state, t);
    assert h in {StartTimeInput, OdometerStartInput, EndTimeInput, OdometerEndInput,
                 ProjectInput, AddressInput, CommentInput};
  }

  /** A trip answer typed as text is performed as its handler decides, with the sheet and registry untouched. */
  lemma TripTextStep(s: Session, w: World, t: string, env: Env)
    requires w.registry.Valid() && IsTripQuestion(s.state) && !IsCommand(t, "start") && !IsCommand(t, "new")
    ensures var a := TripAnswer(s, w, t, env);
      Step(s, w, Text(t), env) == Outcome(a.session, w, a.reply)
  {
    TripTextRouting(s, w, t, env);
  }

  /** The project answer is stored stripped and the address is asked next. */
  lemma ProjectAnswerStored(s: Session, w: World, t: string, env: Env)
    requires s.state == WaitingProject
    ensures TripAnswer(s, w, t, env) == Set(Session(WaitingAddress, s.data.(project := Some(Strip(t)))), Prompt)
  {
  }

  /** The address answer is stored stripped and the comment is asked next. */
  lemma AddressAnswerStored(s: Session, w: World, t: string, env: Env)
    requires s.state == WaitingAddress
    ensures TripAnswer(s, w, t, env) == Set(Session(WaitingComment, s.data.(address := Some(Strip(t)))), Prompt)
  {
  }

  /** A start time that reads as a date-time is stored and the start reading is asked next. */
  lemma StartTimeAnswer(s: Session, t: string, env: Env, dt: DateTime)
    requires ParseDateTimeInput(t, env.nowLocal) == Some(dt)
    ensures OnStartTimeInput(s, t, env) == Set(Session(WaitingOdometerStart, s.data.(startTime := Some(dt))), Prompt)
  {
  }

  /** A time answer that does not read as a date-time keeps the session as it was. */
  lemma UnreadableTimeKept(s: Session, t: string, env: Env)
    requires ParseDateTimeInput(t, env.nowLocal).None?
    ensures OnStartTimeInput(s, t, env) == Set(s, Invalid)
    ensures OnEndTimeInput(s, t, env) == Set(s, Invalid)
  {
  }

  /** `now` (in any case, with surrounding blanks) as the start time stores the local time. */
  lemma NowStartTime(s: Session, t: string, env: Env)
    requires Lower(Strip(t)) in NowWords
    ensures OnStartTimeInput(s, t, env) == Set(Session(WaitingOdometerStart, s.data.(startTime := Some(env.nowLocal))), Prompt)
  {
  }

  /** A zero-padded `DD.MM.YYYY HH:MM` start time is stored as that minute exactly when it names a real one. */
  lemma TypedStartFull(s: Session, d: nat, m: nat, y: nat, h: nat, mi: nat, env: Env)
    requires d < 100 && m < 100 && y < 10000 && h < 100 && mi < 100
    ensures OnStartTimeInput(s, TypedFull(d, m, y, h, mi), env)
            == if ValidDate(y, m, d) && ValidClock(h, mi)
               then Set(Session(WaitingOdometerStart, s.data.(startTime := Some(DateTime(y, m, d, h, mi, 0)))), Prompt)
               else Set(s, Invalid)
  {
    ParseTypedFull(d, m, y, h, mi, env.nowLocal);
  }

  /** A bare `HH:MM` typed as the start time stores that minute of today's local date. */
  lemma TypedStartClock(s: Session, h: nat, mi: nat, env: Env)
    requires h < 100 && mi < 100
    ensures OnStartTimeInput(s, TypedClock(h, mi), env)
            == if ValidClock(h, mi)
               then Set(Session(WaitingOdometerStart, s.data.(startTime := Some(env.nowLocal.(hour := h, minute := mi, second := 0)))), Prompt)
               else Set(s, Invalid)
  {
    ParseTypedClock(h, mi, env.nowLocal);
  }

  /** A whole number typed as the start reading is stored exactly when it is not negative. */
  lemma TypedOdometerStart(s: Session, n: int)
    ensures OnOdometerStartInput(s, IntToString(n))
            == if n >= 0 then Set(Session(WaitingEndTime, s.data.(odometerStart := Some(n))), Prompt)
               else Set(s, Invalid)
  {
    IntToStringRoundTrip(n);
  }

  /**
   * An end time is accepted exactly when it is not earlier than the stored start;
   * an equal one is a trip of no duration.
   */
  lemma EndTimeCheck(s: Session, end: Instant)
    requires s.data.startTime.Some?
    ensures AcceptEndTime(s, end)
            == if Seconds(end) < Seconds(s.data.startTime.value) then Set(s, Invalid)
               else Set(Session(WaitingOdometerEnd, s.data.(endTime := Some(end))), Prompt)
  {
    SecondsOrder(s.data.startTime.value, end);
  }

  /**
   * An end time that reads as a date-time is stored, and the end reading asked
   * next, exactly when it is not earlier than the stored start.
   */
  lemma EndTimeAnswer(s: Session, t: string, env: Env, dt: DateTime)
    requires s.data.startTime.Some? && ParseDateTimeInput(t, env.nowLocal) == Some(dt)
    ensures OnEndTimeInput(s, t, env)
            == if Seconds(dt) < Seconds(s.data.startTime.value) then Set(s, Invalid)
               else Set(Session(WaitingOdometerEnd, s.data.(endTime := Some(dt))), Prompt)
  {
    EndTimeCheck(s, dt);
  }

  /** `now` as the end time stores the local time exactly when it is not earlier than the stored start. */
  lemma NowEndTime(s: Session, t: string, env: Env)
    requires s.data.startTime.Some? && Lower(Strip(t)) in NowWords
    ensures OnEndTimeInput(s, t, env)
            == if Seconds(env.nowLocal) < Seconds(s.data.startTime.value) then Set(s, Invalid)
               else Set(Session(WaitingOdometerEnd, s.data.(endTime := Some(env.nowLocal))), Prompt)
  {
    EndTimeCheck(s, env.nowLocal);
  }

  /** A whole number typed as the end reading is stored exactly when it is not below the start reading. */
  lemma TypedOdometerEnd(s: Session, os: nat, n: int)
    requires s.data.odometerStart == Some(os)
    ensures OnOdometerEndInput(s, IntToString(n))
            == if n >= os then Set(Session(WaitingProject, s.data.(odometerEnd := Some(n))), Prompt)
               else Set(s, Invalid)
  {
    IntToStringRoundTrip(n);
  }

  /** With a start reading missing, a readable end reading raises and nothing changes. */
  lemma OdometerEndWithoutStart(s: Session, t: string)
    requires s.data.odometerStart.None? && ReadOdometer(t).Some?
    ensures OnOdometerEndInput(s, t) == Set(s, Crashed)
  {
  }

  /**
   * In a consistent session the summary after the comment is shown whenever the
   * user is registered: every earlier question has been answered.
   */
  lemma CommentLeadsToConfirmation(s: Session, reg: Registry, t: string, env: Env)
    requires Consistent(s) && s.state == WaitingComment && TripComplete(s.data) && reg.IsRegistered(env.userId)
    ensures OnCommentInput(s, reg, t, env)
            == Set(Session(WaitingConfirmation, s.data.(comment := Some(Strip(t)))), Prompt)
  {
  }

  // ---------------------------------------------------------------- the saved trip

  /**
   * The entry built at confirmation exists exactly when the session holds the
   * whole trip and a comment, the user is registered and the end reading is not
   * below the start; it carries the start's date, both clock readings, the two
   * readings and their difference, the registered name, the optional fields
   * (empty when skipped or absent), the build's stamp, the user's id and a fresh
   * identifier.
   */
  lemma TripFromSessionSpec(d: SessionData, reg: Registry, env: Env)
    ensures TripFromSession(d, reg, env).Some?
            <==> ConfirmationReady(d, reg, env.userId) && d.odometerStart.value <= d.odometerEnd.value
    ensures TripFromSession(d, reg, env).Some? ==>
      var e := TripFromSession(d, reg, env).value;
      && (e.date, e.timeStart) == FormatForSheets(d.startTime.value)
      && e.timeEnd == FormatForSheets(d.endTime.value).1
      && e.odometerStart == d.odometerStart.value && e.odometerEnd == d.odometerEnd.value
      && e.distanceKm == d.odometerEnd.value - d.odometerStart.value >= 0
      && e.engineer == reg.users[env.userId].fullName
      && e.project == Some(OrEmptyText(d.project)) && e.address == Some(OrEmptyText(d.address))
      && e.comment == d.comment.value
      && e.createdAt == CreatedStamp(env)
      && e.authorTgId == env.userId
      && e.rowUid == env.freshUid
  {
  }

  /** A consistent session at the confirmation always yields an entry for a registered user. */
  lemma ConsistentConfirmationBuilds(s: Session, reg: Registry, env: Env)
    requires Consistent(s) && s.state == WaitingConfirmation && reg.IsRegistered(env.userId)
    ensures TripFromSession(s.data, reg, env).Some?
  {
    TripFromSessionSpec(s.data, reg, env);
  }

  /** Pressing "save" at the confirmation routes to the save handler. */
  lemma ConfirmRoutesToSave(s: Session, w: World, env: Env)
    requires s.state == WaitingConfirmation
    ensures Plan(s, w, Callback("confirm_save"), env) == OnConfirmSave(s, w.registry, env)
  {
    ConfirmButtonRoutes(s.state);
  }

  /**
   * Saving a consistent trip of a registered user appends exactly its row and
   * ends the session when the spreadsheet is reachable and the entry is no
   * duplicate; otherwise the sheet and the session stay as they were, so the
   * button can be pressed again.
   */
  lemma ConfirmSaves(s: Session, w: World, env: Env)
    requires w.registry.Valid()
    requires Consistent(s) && s.state == WaitingConfirmation && w.registry.IsRegistered(env.userId)
    ensures TripFromSession(s.data, w.registry, env).Some?
    ensures var e := TripFromSession(s.data, w.registry, env).value;
      Step(s, w, Callback("confirm_save"), env)
      == if env.sheetsUp && !IsDuplicate(w.sheet, e)
         then Outcome(Cleared, w.(sheet := w.sheet + [ToSheetsRow(e)]), Saved)
         else Outcome(s, w, NotSaved)
  {
    ConsistentConfirmationBuilds(s, w.registry, env);
    ConfirmRoutesToSave(s, w, env);
  }

  /**
   * As written, the duplicate check never refuses: the entry's own stamp does
   * not read back, so saving appends the trip whenever the spreadsheet is
   * reachable, however recently the same trip was saved.
   */
  lemma AsWrittenConfirmIgnoresDuplicates(s: Session, w: World, env: Env)
    requires w.registry.Valid() && env.build == AsWritten
    requires Consistent(s) && s.state == WaitingConfirmation && w.registry.IsRegistered(env.userId)
    ensures TripFromSession(s.data, w.registry, env).Some?
    ensures var e := TripFromSession(s.data, w.registry, env).value;
      Step(s, w, Callback("confirm_save"), env)
      == if env.sheetsUp then Outcome(Cleared, w.(sheet := w.sheet + [ToSheetsRow(e)]), Saved)
         else Outcome(s, w, NotSaved)
  {
    ConfirmSaves(s, w, env);
    TripFromSessionSpec(s.data, w.registry, env);
  }

  /**
   * Corrected, saving the same user's trip again less than 30 seconds after a
   * save is refused, and nothing changes.
   */
  lemma CorrectedResubmitRefused(s: Session, w: World, prev: TripEntry, t0: Instant, env: Env)
    requires w.registry.Valid() && env.build == Corrected && |w.sheet| >= 1
    requires Consistent(s) && s.state == WaitingConfirmation && w.registry.IsRegistered(env.userId)
    requires prev.createdAt == ZuluIsoString(t0) && prev.authorTgId == env.userId
    requires -30 < Seconds(env.nowUtc) - Seconds(t0) < 30
    ensures var w' := w.(sheet := w.sheet + [ToSheetsRow(prev)]);
      Step(s, w', Callback("confirm_save"), env) == Outcome(s, w', NotSaved)
  {
    var w' := w.(sheet := w.sheet + [ToSheetsRow(prev)]);
    ConfirmSaves(s, w', env);
    TripFromSessionSpec(s.data, w.registry, env);
    var e := TripFromSession(s.data, w.registry, env).value;
    ZuluResubmitIsDuplicate(w.sheet, prev, e, t0, env.nowUtc);
  }

  /**
   * A trip is committed at most once: once a save has changed the sheet the
   * session is cleared, and pressing "save" again changes nothing.
   */
  lemma NoDoubleCommit(s: Session, w: World, env: Env, env2: Env)
    requires w.registry.Valid()
    requires var o := Step(s, w, Callback("confirm_save"), env); o.world.sheet != w.sheet
    ensures var o := Step(s, w, Callback("confirm_save"), env);
      && o.session == Cleared
      && Step(o.session, o.world, Callback("confirm_save"), env2).world == o.world
  {
  }

  // ---------------------------------------------------------------- the edit window

  /** The stored row of an entry reads back its stamp. */
  lemma StoredStamp(e: TripEntry)
    ensures Lookup(ZipHeaders(ToSheetsRow(e)), "created_at", "") == e.createdAt
  {
    StoredRowFields(e);
    HeadersShape();
    assert Headers[CreatedAtColumn] == "created_at";
  }

  /**
   * Corrected, `start_edit_last_entry` for the author of a trip saved at
   * `env.nowUtc` opens it for editing exactly while at most 15 minutes have
   * passed, from whatever session the author is in; after that the edit is
   * refused as expired.
   */
  lemma SavedTripEditableForFifteenMinutes(s: Session, w: World, env: Env, s2: Session, env2: Env)
    requires w.registry.Valid() && |w.sheet| >= 1 && env.build == Corrected
    requires s.state == WaitingConfirmation
    requires var o := Step(s, w, Callback("confirm_save"), env); o.world.sheet != w.sheet
    requires env2.userId == env.userId
    ensures var e := TripFromSession(s.data, w.registry, env).value;
      var o := Step(s, w, Callback("confirm_save"), env);
      StartEditLast(s2, o.world.sheet, env2.userId, env2)
      == if Seconds(env2.nowUtc) - Seconds(env.nowUtc) <= EditLimitMinutes * 60
         then Set(Session(WaitingFieldChoice, s2.data.(editEntry := Some(ZipHeaders(ToSheetsRow(e))))), Prompt)
         else Set(s2, EditExpired)
  {
    var o := Step(s, w, Callback("confirm_save"), env);
    var e := TripFromSession(s.data, w.registry, env).value;
    TripFromSessionSpec(s.data, w.registry, env);
    LastUserEntryAfterAppend(w.sheet, e);
    StoredStamp(e);
    EditWindowClosedInterval(env.nowUtc, env2.nowUtc, EditLimitMinutes);
  }

  /**
   * As written, a trip just saved can never be edited by `/edit_last`: from any
   * state where the command reaches its handler, the handler finds the trip as
   * the author's last entry and refuses it as expired. (In the idle state the
   * save leaves, the command does not reach it: see `SavedThenEditCommandShowsMenu`.)
   */
  lemma AsWrittenSavedTripNeverEditable(s: Session, w: World, env: Env, s2: Session, t: string, env2: Env)
    requires w.registry.Valid() && |w.sheet| >= 1 && env.build == AsWritten
    requires s.state == WaitingConfirmation
    requires var o := Step(s, w, Callback("confirm_save"), env); o.world.sheet != w.sheet
    requires env2.userId == env.userId
    requires IsCommand(t, "edit_last")
    requires s2.state != WaitingManualOdoBars && s2.state != Idle && !IsTripQuestion(s2.state)
    ensures var o := Step(s, w, Callback("confirm_save"), env);
      Step(s2, o.world, Text(t), env2) == Outcome(s2, o.world, EditExpired)
  {
    var o := Step(s, w, Callback("confirm_save"), env);
    var e := TripFromSession(s.data, w.registry, env).value;
    TripFromSessionSpec(s.data, w.registry, env);
    LastUserEntryAfterAppend(w.sheet, e);
    StoredStamp(e);
    AsWrittenEditWindowClosed(env.nowUtc, env2.nowUtc, EditLimitMinutes);
    EditCommandOpensOwnEntry(s2, o.world, t, env2);
  }

  /**
   * Corrected, pressing the edit button in the session the save leaves opens
   * the saved trip exactly while at most 15 minutes have passed; after that
   * the session stays as it was.
   */
  lemma CorrectedSavedTripEditableByButton(s: Session, w: World, env: Env, env2: Env)
    requires w.registry.Valid() && |w.sheet| >= 1 && env.build == Corrected
    requires s.state == WaitingConfirmation
    requires var o := Step(s, w, Callback("confirm_save"), env); o.world.sheet != w.sheet
    requires env2.userId == env.userId && env2.build == Corrected
    ensures var e := TripFromSession(s.data, w.registry, env).value;
      var o := Step(s, w, Callback("confirm_save"), env);
      Step(o.session, o.world, Callback("edit_last"), env2).session
      == if Seconds(env2.nowUtc) - Seconds(env.nowUtc) <= EditLimitMinutes * 60
         then Session(WaitingFieldChoice, o.session.data.(editEntry := Some(ZipHeaders(ToSheetsRow(e)))))
         else o.session
  {
    var o := Step(s, w, Callback("confirm_save"), env);
    SavedTripEditableForFifteenMinutes(s, w, env, o.session, env2);
    EditButtonStep(o.session, o.world, env2);
  }

  /**
   * In the idle state `handle_registration`, registered ahead of every command
   * but `/start`, takes every other text, commands included: a registered user
   * is shown the main menu and nothing changes.
   */
  lemma IdleTextShowsMenu(s: Session, w: World, t: string, env: Env)
    requires w.registry.Valid() && s.state == Idle && !IsCommand(t, "start") && w.registry.IsRegistered(env.userId)
    ensures Step(s, w, Text(t), env) == Outcome(s, w, Prompt)
  {
  }

  /**
   * For either build, `/edit_last` sent straight after a save never reaches the
   * edit handler: the save leaves the session idle, and there the text only
   * brings up the main menu.
   */
  lemma SavedThenEditCommandShowsMenu(s: Session, w: World, env: Env, t: string, env2: Env)
    requires w.registry.Valid() && s.state == WaitingConfirmation
    requires var o := Step(s, w, Callback("confirm_save"), env); o.world.sheet != w.sheet
    requires env2.userId == env.userId && IsCommand(t, "edit_last")
    ensures var o := Step(s, w, Callback("confirm_save"), env);
      Step(o.session, o.world, Text(t), env2) == Outcome(Cleared, o.world, Prompt)
  {
    var o := Step(s, w, Callback("confirm_save"), env);
    TripFromSessionSpec(s.data, w.registry, env);
    assert "/edit_last" != "/start";
    IdleTextShowsMenu(o.session, o.world, t, env2);
  }

  /** A text rendered for a number reads back as that number, so distinct numbers render distinctly. */
  lemma IntTextInjective(a: int, b: int)
    requires IntToString(a) == IntToString(b)
    ensures a == b
  {
    IntToStringRoundTrip(a);
    IntToStringRoundTrip(b);
  }

  /** A row saved by one user is never attributed to another. */
  lemma SavedRowNotOthers(e: TripEntry, other: int)
    requires other != e.authorTgId
    ensures !AuthorMatch(ToSheetsRow(e), other)
  {
    RowReadsBack(e);
    HeadersShape();
    if AuthorMatch(ToSheetsRow(e), other) {
      IntTextInjective(e.authorTgId, other);
    }
  }

  /** A row of another author appended at the bottom does not change an author's last entry. */
  lemma LastUserEntryIgnoresOthers(sheet: seq<Row>, row: Row, authorTgId: int)
    requires !AuthorMatch(row, authorTgId)
    ensures LastUserEntry(sheet + [row], authorTgId) == LastUserEntry(sheet, authorTgId)
  {
    var sheet' := sheet + [row];
    if |sheet| >= 1 {
      assert sheet'[..|sheet'| - 1] == sheet;
    }
  }

  /**
   * The edit button as written looks up the bot's own entries, so a trip the
   * user has just saved leaves what pressing it does unchanged.
   */
  lemma EditButtonAsWrittenIgnoresSave(s: Session, w: World, env: Env, e: TripEntry)
    requires w.registry.Valid() && env.build == AsWritten && e.authorTgId != env.botId
    ensures var w' := w.(sheet := w.sheet + [ToSheetsRow(e)]);
      var o, o' := Step(s, w, Callback("edit_last"), env), Step(s, w', Callback("edit_last"), env);
      o'.session == o.session && o'.reply == o.reply && o'.world == w'
  {
    var w' := w.(sheet := w.sheet + [ToSheetsRow(e)]);
    EditButtonStep(s, w, env);
    EditButtonStep(s, w', env);
    SavedRowNotOthers(e, env.botId);
    LastUserEntryIgnoresOthers(w.sheet, ToSheetsRow(e), env.botId);
  }

  /** Pressing the edit button writes nothing: the outcome is the session and reply `StartEditLast` sets. */
  lemma EditButtonStep(s: Session, w: World, env: Env)
    requires w.registry.Valid()
    ensures var a := StartEditLast(s, w.sheet, EditButtonAuthor(env), env);
      a.Set? && Step(s, w, Callback("edit_last"), env) == Outcome(a.session, w, a.reply)
  {
    EditButtonRoutes(s.state);
  }

  /**
   * Since the bot never authors a trip, the edit button as written always
   * answers that there is nothing to edit, and nothing changes.
   */
  lemma EditButtonAsWrittenFindsNothing(s: Session, w: World, env: Env)
    requires w.registry.Valid() && env.build == AsWritten
    requires forall j :: 1 <= j < |w.sheet| ==> !AuthorMatch(w.sheet[j], env.botId)
    ensures Step(s, w, Callback("edit_last"), env) == Outcome(s, w, NoEntries)
  {
    EditButtonStep(s, w, env);
    LastAuthorIndexNone(w.sheet, env.botId);
  }

  /** The edit button, corrected, opens the pressing user's own last entry, from any state. */
  lemma EditButtonOpensOwnEntry(s: Session, w: World, env: Env)
    requires env.build == Corrected
    ensures CallbackAction(s, w, "edit_last", env) == StartEditLast(s, w.sheet, env.userId, env)
  {
    EditButtonRoutes(s.state);
  }

  /**
   * `/edit_last` opens the user's own last entry too, except where an earlier
   * handler takes every text: the registration, the trip questions and a
   * manual reading.
   */
  lemma EditCommandOpensOwnEntry(s: Session, w: World, t: string, env: Env)
    requires IsCommand(t, "edit_last")
    requires s.state != WaitingManualOdoBars && s.state != Idle && !IsTripQuestion(s.state)
    ensures TextAction(s, w, t, env) == StartEditLast(s, w.sheet, env.userId, env)
  {
    EditCommandRoutes(s.state, t);
  }

  /** Where it is not taken as an answer, `/edit_last` reaches its own handler. */
  lemma EditCommandRoutes(st: FsmState, t: string)
    requires IsCommand(t, "edit_last")
    requires st != WaitingManualOdoBars && st != Idle && !IsTripQuestion(st)
    ensures RouteText(st, t) == CmdEditLast
  {
    EditCommandDistinct();
  }

  /** The command names the dispatcher compares a first word with differ from `/edit_last`. */
  lemma EditCommandDistinct()
    ensures "/" + "start" != "/" + "edit_last" && "/" + "new" != "/" + "edit_last" && "/" + "last" != "/" + "edit_last"
  {
  }

  // ---------------------------------------------------------------- editing

  /** A field choice `edit_<f>` reaches the field-choice handler, unless `f` is `last`. */
  lemma FieldChoiceRoutes(f: string)
    requires f != "last"
    ensures RouteCallback(WaitingFieldChoice, "edit_" + f) == EditFieldChoice
  {
    var d := "edit_" + f;
    assert d[..5] == "edit_";
    assert d[0] == 'e' && d[1] == 'd';
    NotPrefix(d, PhotoConfirmPrefix + ":");
    NotPrefix(d, PhotoManualPrefix + ":");
    NotPrefix(d, PhotoRetakePrefix + ":");
    assert d[5..] == f;
    assert "edit_last"[5..] == "last";
  }

  /**
   * Choosing a field stores its name: the button's data with the prefix
   * removed. A field called `last` would be taken for the edit button instead.
   */
  lemma FieldChoiceStoresField(s: Session, w: World, f: string, env: Env)
    requires s.state == WaitingFieldChoice && f != "last"
    requires forall i: nat :: !OccursAt(f, "edit_", i)
    ensures CallbackAction(s, w, "edit_" + f, env)
            == Set(Session(WaitingNewValue, s.data.(editField := Some(f))), Prompt)
  {
    FieldChoiceRoutes(f);
    ReplaceAllPrefix(f, "edit_", "");
    ReplaceAllAbsent(f, "edit_", "");
    assert ReplaceAll("edit_" + f, "edit_", "") == f;
    assert CallbackAction(s, w, "edit_" + f, env) == OnEditFieldChoice(s, "edit_" + f);
  }

  /**
   * An edited dictionary can be rebuilt into an entry: the date and both
   * times are present and read as a sheet date-time, the three readings are
   * present and read as integers, the user is registered, the creation stamp
   * is present, and the end reading is not below the start reading.
   */
  predicate Rebuildable(entry: RowDict, reg: Registry, userId: int)
  {
    && "date" in entry && "time_start" in entry && "time_end" in entry
    && ParseSheetsDateTime(entry["date"], entry["time_start"]).Some?
    && ParseSheetsDateTime(entry["date"], entry["time_end"]).Some?
    && "odometer_start" in entry && "odometer_end" in entry && "distance_km" in entry
    && ParseInt(entry["odometer_start"]).Some? && ParseInt(entry["odometer_end"]).Some?
    && ParseInt(entry["distance_km"]).Some?
    && reg.IsRegistered(userId) && "created_at" in entry
    && ParseInt(entry["odometer_start"]).value <= ParseInt(entry["odometer_end"]).value
  }

  /** An edited dictionary is rebuilt into an entry exactly when it is `Rebuildable`. */
  lemma EditedTripDefined(entry: RowDict, rowUid: string, reg: Registry, userId: int, freshUid: string)
    ensures EditedTrip(entry, rowUid, reg, userId, freshUid).Some? <==> Rebuildable(entry, reg, userId)
  {
  }

  /**
   * The entry rebuilt from an edited row keeps the row's date, clock readings,
   * readings, stamp and identifier, takes the optional fields and the comment
   * from the dictionary, recomputes the distance and names the registered user
   * as engineer and author.
   */
  lemma EditedTripSpec(entry: RowDict, rowUid: string, reg: Registry, userId: int, freshUid: string)
    ensures EditedTrip(entry, rowUid, reg, userId, freshUid).Some? ==>
      var e := EditedTrip(entry, rowUid, reg, userId, freshUid).value;
      && e.date == entry["date"] && e.timeStart == entry["time_start"] && e.timeEnd == entry["time_end"]
      && ParseSheetsDateTime(e.date, e.timeStart).Some? && ParseSheetsDateTime(e.date, e.timeEnd).Some?
      && ParseInt(entry["odometer_start"]) == Some(e.odometerStart)
      && ParseInt(entry["odometer_end"]) == Some(e.odometerEnd)
      && e.distanceKm == e.odometerEnd - e.odometerStart >= 0
      && reg.IsRegistered(userId) && e.engineer == reg.users[userId].fullName
      && e.project == Some(Lookup(entry, "project", "")) && e.address == Some(Lookup(entry, "address", ""))
      && e.comment == Lookup(entry, "comment", "")
      && e.createdAt == entry["created_at"] && e.authorTgId == userId && e.rowUid == rowUid
  {
  }

  /**
   * A new value leads to a rewrite exactly of the row found by the edited
   * entry's identifier among the user's own rows, with the entry rebuilt from
   * the edited dictionary, whose chosen field holds the stripped text; a
   * found row whose entry can be rebuilt is always rewritten.
   */
  lemma EditNewValueSpec(s: Session, w: World, t: string, env: Env)
    ensures var a := OnEditNewValue(s, w, t, env);
      a.UpdateTrip? ==>
        && s.data.editField.Some? && s.data.editEntry.Some?
        && var entry := EditedEntry(s.data, t);
           var uid := Lookup(entry, "row_uid", "");
           && uid != ""
           && Lookup(entry, s.data.editField.value, "") == Strip(t)
           && FindByUid(w.sheet, uid, env.userId).Some?
           && a.rowNumber == FindByUid(w.sheet, uid, env.userId).value.0
           && EditedTrip(entry, uid, w.registry, env.userId, env.freshUid) == Some(a.entry)
    ensures s.data.editField.Some? && s.data.editEntry.Some? ==>
      var entry := EditedEntry(s.data, t);
      var uid := Lookup(entry, "row_uid", "");
      uid != "" && FindByUid(w.sheet, uid, env.userId).Some?
      && EditedTrip(entry, uid, w.registry, env.userId, env.freshUid).Some? ==>
        OnEditNewValue(s, w, t, env)
        == UpdateTrip(FindByUid(w.sheet, uid, env.userId).value.0,
                      EditedTrip(entry, uid, w.registry, env.userId, env.freshUid).value)
  {
  }

  /** Text in `WaitingNewValue` reaches the edit handler unless it is `/start`, `/new`, `/last` or `/edit_last`. */
  lemma EditTextRouting(s: Session, w: World, t: string, env: Env)
    requires s.state == WaitingNewValue
    requires !IsCommand(t, "start") && !IsCommand(t, "new") && !IsCommand(t, "last") && !IsCommand(t, "edit_last")
    ensures TextAction(s, w, t, env) == OnEditNewValue(s, w, t, env)
  {
    assert RouteText(s.state, t) == EditNewValue;
  }

  /**
   * A new value for a row that is found and whose edited entry can be rebuilt
   * rewrites that row in place and clears the session; with the sheet
   * unreachable the sheet stays as it was.
   */
  lemma EditStepWritesFoundRow(s: Session, w: World, t: string, env: Env, n: int, r: Row, e: TripEntry)
    requires w.registry.Valid() && s.state == WaitingNewValue
    requires !IsCommand(t, "start") && !IsCommand(t, "new") && !IsCommand(t, "last") && !IsCommand(t, "edit_last")
    requires s.data.editField.Some? && s.data.editEntry.Some?
    requires var entry := EditedEntry(s.data, t);
      var uid := Lookup(entry, "row_uid", "");
      && uid != "" && FindByUid(w.sheet, uid, env.userId) == Some((n, r))
      && EditedTrip(entry, uid, w.registry, env.userId, env.freshUid) == Some(e)
    ensures Step(s, w, Text(t), env)
            == if env.sheetsUp then Outcome(Cleared, w.(sheet := UpdatedSheet(w.sheet, n, ToSheetsRow(e))), Updated)
               else Outcome(Cleared, w, NotUpdated)
  {
    EditNewValueSpec(s, w, t, env);
    EditTextRouting(s, w, t, env);
    assert Plan(s, w, Text(t), env) == UpdateTrip(n, e);
  }


  /** An update from the edit that changes the sheet is the rewrite its handler asked for. */
  lemma EditStepRewrites(s: Session, w: World, t: string, env: Env)
    requires w.registry.Valid() && s.state == WaitingNewValue
    requires Step(s, w, Text(t), env).world.sheet != w.sheet
    ensures var a := Plan(s, w, Text(t), env);
      && a.UpdateTrip? && a == OnEditNewValue(s, w, t, env)
      && Step(s, w, Text(t), env).world.sheet == UpdatedSheet(w.sheet, a.rowNumber, ToSheetsRow(a.entry))
  {
  }

  /**
   * The rewrite an edit asks for targets the row carrying the entry's
   * identifier among the user's own rows, which afterwards still carries it
   * under the same number (see `EditStepRewrites` for the update that
   * performs it).
   */
  lemma EditRewritesOwnRow(s: Session, w: World, t: string, env: Env)
    requires OnEditNewValue(s, w, t, env).UpdateTrip?
    ensures var a := OnEditNewValue(s, w, t, env);
      && UidMatch(w.sheet[a.rowNumber - 1], a.entry.rowUid, env.userId)
      && FindByUid(UpdatedSheet(w.sheet, a.rowNumber, ToSheetsRow(a.entry)), a.entry.rowUid, env.userId)
         == Some((a.rowNumber, ToSheetsRow(a.entry)))
  {
    var a := OnEditNewValue(s, w, t, env);
    EditNewValueSpec(s, w, t, env);
    var entry := EditedEntry(s.data, t);
    var uid := Lookup(entry, "row_uid", "");
    EditedTripSpec(entry, uid, w.registry, env.userId, env.freshUid);
    assert a.entry.rowUid == uid;
    var found := FindByUid(w.sheet, uid, env.userId).value;
    assert found.0 == a.rowNumber && UidMatch(found.1, uid, env.userId);
    EditKeepsRowFindable(w.sheet, a.entry);
  }

  /** A chosen project, address or comment holds the stripped text in the rewritten entry. */
  lemma EditSetsChosenField(s: Session, w: World, t: string, env: Env)
    requires OnEditNewValue(s, w, t, env).UpdateTrip?
    ensures s.data.editField.Some?
    ensures var e := OnEditNewValue(s, w, t, env).entry;
      && (s.data.editField.value == "project" ==> e.project == Some(Strip(t)))
      && (s.data.editField.value == "address" ==> e.address == Some(Strip(t)))
      && (s.data.editField.value == "comment" ==> e.comment == Strip(t))
  {
    EditNewValueSpec(s, w, t, env);
    var entry := EditedEntry(s.data, t);
    EditedTripSpec(entry, Lookup(entry, "row_uid", ""), w.registry, env.userId, env.freshUid);
  }

  // ---------------------------------------------------------------- registration

  /**
   * A new user's text registers them exactly when its stripped form has at
   * least two words, and the stripped text becomes the name; a registered
   * user's text registers nothing.
   */
  lemma RegistrationDecision(s: Session, reg: Registry, t: string, env: Env)
    ensures OnRegistration(s, reg, t, env).RegisterName?
            <==> !reg.IsRegistered(env.userId) && |Words(Strip(t))| >= 2
    ensures OnRegistration(s, reg, t, env).RegisterName? ==> OnRegistration(s, reg, t, env).name == Strip(t)
  {
    NameCheckIsWordCount(Strip(t));
  }

  /**
   * After registration the user is stored under their id with the stripped
   * name and the UTC stamp, and nobody else's registration changes.
   */
  lemma RegistrationStores(s: Session, w: World, t: string, env: Env)
    requires w.registry.Valid() && s.state == Idle && !IsCommand(t, "start")
    requires !w.registry.IsRegistered(env.userId) && |Words(Strip(t))| >= 2
    ensures var o := Step(s, w, Text(t), env);
      && o.reply == Registered && o.session == s && o.world.sheet == w.sheet
      && o.world.registry.GetUser(env.userId) == Some(Registration(env.userId, Strip(t), ZuluIsoString(env.nowUtc)))
      && forall other :: other != env.userId ==> o.world.registry.GetUser(other) == w.registry.GetUser(other)
  {
    RegistrationStep(s, w, t, env);
    StripIdempotent(t);
  }

  /** The step that registers a new user: it only adds the stripped name to the registry. */
  lemma RegistrationStep(s: Session, w: World, t: string, env: Env)
    requires w.registry.Valid() && s.state == Idle && !IsCommand(t, "start")
    requires !w.registry.IsRegistered(env.userId) && |Words(Strip(t))| >= 2
    ensures Step(s, w, Text(t), env)
            == Outcome(s, w.(registry := w.registry.Register(env.userId, Strip(t), env.nowUtc)), Registered)
  {
    RegistrationAction(s, w, t, env);
    assert Plan(s, w, Text(t), env) == RegisterName(Strip(t));
  }

  /** A new user's text that passes the name check asks to register the stripped text. */
  lemma RegistrationAction(s: Session, w: World, t: string, env: Env)
    requires s.state == Idle && !IsCommand(t, "start")
    requires !w.registry.IsRegistered(env.userId) && |Words(Strip(t))| >= 2
    ensures TextAction(s, w, t, env) == RegisterName(Strip(t))
  {
    assert RouteText(s.state, t) == HandleRegistration;
    RegistrationDecision(s, w.registry, t, env);
  }

  // ---------------------------------------------------------------- photos

  /** A photo changes nothing: recognition is not available, and the user is told so. */
  lemma PhotoChangesNothing(s: Session, w: World, env: Env)
    requires w.registry.Valid()
    ensures Step(s, w, Photo, env) == Outcome(s, w, Failed)
  {
  }

  /** Confirming a recognised reading never saves it: the client has no measurement sheet. */
  lemma PhotoConfirmNeverSaves(s: Session, w: World, d: string, env: Env)
    requires w.registry.Valid() && StartsWith(d, PhotoConfirmPrefix + ":")
    ensures Step(s, w, Callback(d), env) == Outcome(s, w, Failed)
  {
  }

  /**
   * While a manual reading is awaited every text, commands included, goes to
   * the manual-input handler, which never writes; a requested reading is
   * consumed whatever was typed.
   */
  lemma ManualReadingNeverSaves(s: Session, w: World, t: string, env: Env)
    requires w.registry.Valid() && s.state == WaitingManualOdoBars
    ensures var o := Step(s, w, Text(t), env);
      && o.world == w && o.session.state == WaitingManualOdoBars
      && (s.data.photoManual == Some(true) ==> o.session.data == s.data.(photoManual := Some(false)) && o.reply == Invalid)
      && (s.data.photoManual != Some(true) ==> o.session == s && o.reply == Silent)
  {
  }

  /** A reading typed as `odo bars` with the bars in range is understood as typed, yet still not saved. */
  lemma ManualReadingUnderstoodNotSaved(s: Session, odo: int, bars: int, env: Env)
    requires s.data.photoManual == Some(true) && 0 <= bars <= env.fuelBars
    ensures ParseOdoBars(IntToString(odo) + " " + IntToString(bars), env.fuelBars) == Some((odo, bars))
    ensures OnPhotoManualInput(s, IntToString(odo) + " " + IntToString(bars), env)
            == Set(Session(s.state, s.data.(photoManual := Some(false))), Invalid)
  {
    ParseOdoBarsTyped(odo, bars, env.fuelBars);
  }

  // ---------------------------------------------------------------- leaving a flow

  /** "Cancel" and "main menu" end any flow and drop the session's data. */
  lemma CancelClears(s: Session, w: World, env: Env)
    ensures CallbackAction(s, w, "cancel", env) == Set(Cleared, Prompt)
    ensures CallbackAction(s, w, "main_menu", env) == Set(Cleared, Prompt)
  {
    CancelRoutes(s.state);
    MainMenuRoutes(s.state);
  }

  /** "Back" from any state returns to the comment question with the data kept. */
  lemma GoBackKeepsData(s: Session, w: World, env: Env)
    ensures CallbackAction(s, w, "go_back", env) == Set(Session(WaitingComment, s.data), Prompt)
  {
    GoBackRoutes(s.state);
  }
}
