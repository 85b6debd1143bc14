/** The profile dialog (`conv_handler`): `/conv` opens it, then it asks in
    turn for a gender, a photo, a location and a bio, writing each answer
    into the `users` table; `/skip` passes over the photo and the location,
    and `/cancel` ends it from any step. */
module ProfileDialog {
  import opened Common
  import Store
  import Paths

  /** Where the conversation of one user stands. `Idle` is "no conversation"
      (before `/conv`, and after ConversationHandler.END). */
  datatype Step = Idle | Gender | Photo | Location | Bio

  /** The callbacks the dialog registers, with the part of the update each
      one reads. */
  datatype Handler =
    | Conv
    | StoreGender(text: string)
    | StorePhoto
    | SkipPhoto
    | StoreLocation(point: GeoPoint)
    | SkipLocation
    | StoreBio(text: string)
    | Cancel

  /** The keyboard the user is offered and the alternatives of the filter
      `^(Boy|Girl|Other)$`. */
  const GenderChoices: seq<string> := ["Boy", "Girl", "Other"]

  /** `filters.Regex` runs Python's `re.search`, whose `$` matches at the end
      of the text and also just before a final newline. */
  predicate GenderFilter(t: string) {
    t in GenderChoices || (|t| > 0 && t[|t| - 1] == '\n' && t[..|t| - 1] in GenderChoices)
  }

  /** The table as a relation: the steps at which each callback is
      registered, the fallback being registered at every step of an open
      dialog and the entry point only when idle. */
  predicate Registered(s: Step, h: Handler) {
    match h
    case Conv => s == Idle
    case StoreGender(_) => s == Gender
    case StorePhoto => s == Photo
    case SkipPhoto => s == Photo
    case StoreLocation(_) => s == Location
    case SkipLocation => s == Location
    case StoreBio(_) => s == Bio
    case Cancel => s != Idle
  }

  /** The update a callback's filter lets through, carrying the part of it
      the callback reads. */
  predicate Accepts(h: Handler, e: Event) {
    match h
    case Conv => e == Command("conv")
    case StoreGender(t) => e == Text(t) && GenderFilter(t)
    case StorePhoto => e == PhotoMessage
    case SkipPhoto => e == SkipCommand
    case StoreLocation(p) => e == LocationMessage(p)
    case SkipLocation => e == SkipCommand
    case StoreBio(t) => e == Text(t)
    case Cancel => e == CancelCommand
  }

  /** The routing table: the entry point when idle, else the handlers of
      the current step in order, then the fallbacks. No re-entry. The
      filters registered at one step never accept the same update, so the
      order in which they are tried decides nothing: the callback chosen is
      the one registered at the step whose filter accepts the update. */
  function Route(s: Step, e: Event): (r: Option<Handler>)
    ensures forall h :: r == Some(h) <==> Registered(s, h) && Accepts(h, e)
  {
    match s
    case Idle => if e == Command("conv") then Some(Conv) else None
    case Gender =>
      if e.Text? && GenderFilter(e.text) then Some(StoreGender(e.text)) else Fallback(e, Cancel)
    case Photo =>
      if e.PhotoMessage? then Some(StorePhoto)
      else if e == SkipCommand then Some(SkipPhoto)
      else Fallback(e, Cancel)
    case Location =>
      if e.LocationMessage? then Some(StoreLocation(e.point))
      else if e == SkipCommand then Some(SkipLocation)
      else Fallback(e, Cancel)
    case Bio => if e.Text? then Some(StoreBio(e.text)) else Fallback(e, Cancel)
  }

  /** What each callback does to the tables and which state it returns, or
      the error it raises. */
  function Handle(h: Handler, u: User, db: Store.DbState): (r: Result<(Step, Store.DbState)>)
    ensures r.Failure? <==>
      !(h.SkipPhoto? || h.SkipLocation? || h.Cancel?) && (db.closed || (h.StorePhoto? && u.lastName.None?))
    ensures r.Failure? ==>
      r.error == if h.StorePhoto? && u.lastName.None? then MissingLastName else ClosedDatabase
    ensures r.Success? ==> r.value.1.hrv == db.hrv && (r.value.1.closed <==> db.closed || h.Cancel?)
    ensures r.Success? ==>
      forall s | Registered(s, h) :: r.value.0 == if h.Cancel? then Idle else Successor(s)
  {
    match h
    case Conv => Then(Store.Insert(db, Store.Users, u.firstName), Gender)
    case StoreGender(t) =>
      Then(Store.Update(db, Store.Users, Store.Gender, Store.Str(t), u.firstName), Photo)
    case StorePhoto =>
      (match Paths.ProfilePhotoPath(u)
       case Failure(err) => Failure(err)
       case Success(path) =>
         Then(Store.Update(db, Store.Users, Store.Photo, Store.Str(path), u.firstName), Location))
    case SkipPhoto => Success((Location, db))
    case StoreLocation(p) =>
      Then(Store.Update(db, Store.Users, Store.Location, Store.Geo(p), u.firstName), Bio)
    case SkipLocation => Success((Bio, db))
    case StoreBio(t) =>
      Then(Store.Update(db, Store.Users, Store.Bio, Store.Str(t), u.firstName), Idle)
    case Cancel => Success((Idle, Store.Close(db)))
  }

  /** One update: an unhandled event, or a handler that raises, leaves the
      state and the tables as they were. The dialog never moves anywhere but
      on to its fixed successor, or to the end on `/cancel`; a turn that
      stays at its step wrote nothing; the `hrv` table is never touched. */
  function Turn(s: Step, db: Store.DbState, u: User, e: Event): (r: (Step, Store.DbState))
    ensures r.0 in {s, Successor(s)} || (e == CancelCommand && r.0 == Idle)
    ensures r.0 == s ==> r.1 == db
    ensures r.1.hrv == db.hrv
  {
    match Route(s, e)
    case None => (s, db)
    case Some(h) =>
      match Handle(h, u, db)
      case Failure(_) => (s, db)
      case Success(r) => r
  }

  /** A sequence of updates from one sender whose names stay the same. */
  function Run(s: Step, db: Store.DbState, u: User, es: seq<Event>): (Step, Store.DbState)
    decreases |es|
  {
    if es == [] then (s, db)
    else
      var r := Turn(s, db, u, es[0]);
      Run(r.0, r.1, u, es[1..])
  }

  /** The state each step hands over to when its input is accepted. */
  function Successor(s: Step): Step {
    match s
    case Idle => Gender
    case Gender => Photo
    case Photo => Location
    case Location => Bio
    case Bio => Idle
  }

  // ---------------------------------------------------------------------
  // Lemmas

  /** The gender filter accepts the three choices, and each of them followed
      by one newline, and nothing else. */
  lemma GenderFilterAccepts(t: string)
    ensures GenderFilter(t) <==>
      t in {"Boy", "Girl", "Other", "Boy\n", "Girl\n", "Other\n"}
  {
    if |t| > 0 && t[|t| - 1] == '\n' && t[..|t| - 1] in GenderChoices {
      var w := t[..|t| - 1];
      assert t == w + "\n";
      assert w == "Boy" || w == "Girl" || w == "Other";
    }
    if t == "Boy\n" {
      assert t[..|t| - 1] == "Boy";
    } else if t == "Girl\n" {
      assert t[..|t| - 1] == "Girl";
    } else if t == "Other\n" {
      assert t[..|t| - 1] == "Other";
    }
  }

  /** `/conv` when idle adds one row holding only the user's first name and
      enters GENDER; on a closed connection it raises and nothing happens.
      Any other update is ignored while idle. */
  lemma ConvStartsDialog(db: Store.DbState, u: User, e: Event)
    ensures e != Command("conv") ==> Turn(Idle, db, u, e) == (Idle, db)
    ensures e == Command("conv") && db.closed ==> Turn(Idle, db, u, e) == (Idle, db)
    ensures e == Command("conv") && !db.closed ==>
      Turn(Idle, db, u, e).0 == Gender
      && Store.InsertedInto(db, Turn(Idle, db, u, e).1, Store.Users, u.firstName)
  {
    Store.InsertAppendsOneRow(db, Store.Users, u.firstName);
  }

  /** `/conv` in the middle of the dialog is not handled: the step and the
      tables stay as they are. */
  lemma NoReentry(s: Step, db: Store.DbState, u: User)
    requires s != Idle
    ensures Turn(s, db, u, Command("conv")) == (s, db)
  {
  }

  /** GENDER handles only text accepted by the gender filter, which it
      writes to `gender` of every row with the user's first name before
      moving to PHOTO; every other update but `/cancel` changes nothing. */
  lemma GenderStep(db: Store.DbState, u: User, e: Event)
    requires e != CancelCommand
    ensures var r := Turn(Gender, db, u, e);
      if e.Text? && GenderFilter(e.text) && !db.closed then
        r.0 == Photo && Store.UpdatedIn(db, r.1, Store.Users, Store.Gender, Store.Str(e.text), u.firstName)
      else
        r == (Gender, db)
  {
    if e.Text? && GenderFilter(e.text) {
      Store.UpdateSetsOneColumn(db, Store.Users, Store.Gender, Store.Str(e.text), u.firstName);
    }
  }

  /** PHOTO stores `users/<first><last>.jpg` and moves to LOCATION; `/skip`
      moves to LOCATION and writes nothing; anything else but `/cancel`,
      and a photo from a user without a last name, changes nothing. */
  lemma PhotoStep(db: Store.DbState, u: User, e: Event)
    requires e != CancelCommand
    ensures var r := Turn(Photo, db, u, e);
      if e == PhotoMessage && !db.closed && u.lastName.Some? then
        r.0 == Location
        && Store.UpdatedIn(db, r.1, Store.Users, Store.Photo,
                           Store.Str("users/" + u.firstName + u.lastName.value + ".jpg"), u.firstName)
      else if e == SkipCommand then
        r == (Location, db)
      else
        r == (Photo, db)
  {
    if e == PhotoMessage && u.lastName.Some? {
      Store.UpdateSetsOneColumn(db, Store.Users, Store.Photo,
                                Store.Str("users/" + u.firstName + u.lastName.value + ".jpg"), u.firstName);
    }
  }

  /** LOCATION stores the shared location and moves to BIO; `/skip` moves
      to BIO and writes nothing; anything else but `/cancel` changes nothing. */
  lemma LocationStep(db: Store.DbState, u: User, e: Event)
    requires e != CancelCommand
    ensures var r := Turn(Location, db, u, e);
      if e.LocationMessage? && !db.closed then
        r.0 == Bio && Store.UpdatedIn(db, r.1, Store.Users, Store.Location, Store.Geo(e.point), u.firstName)
      else if e == SkipCommand then
        r == (Bio, db)
      else
        r == (Location, db)
  {
    if e.LocationMessage? {
      Store.UpdateSetsOneColumn(db, Store.Users, Store.Location, Store.Geo(e.point), u.firstName);
    }
  }

  /** BIO accepts any text that is not a command, stores it and ends the
      dialog; a command other than `/cancel` (`/skip` included), a photo or
      a location changes nothing. */
  lemma BioStep(db: Store.DbState, u: User, e: Event)
    requires e != CancelCommand
    ensures var r := Turn(Bio, db, u, e);
      if e.Text? && !db.closed then
        r.0 == Idle && Store.UpdatedIn(db, r.1, Store.Users, Store.Bio, Store.Str(e.text), u.firstName)
      else
        r == (Bio, db)
  {
    if e.Text? {
      Store.UpdateSetsOneColumn(db, Store.Users, Store.Bio, Store.Str(e.text), u.firstName);
    }
  }

  /** `/cancel` ends the dialog from every step, writes no cell and closes
      the connection that both dialogs share. */
  lemma CancelEndsDialog(s: Step, db: Store.DbState, u: User)
    requires s != Idle
    ensures Turn(s, db, u, CancelCommand) == (Idle, db.(closed := true))
  {
  }

  /** The profile dialog never touches the `hrv` table, never reopens the
      connection, and once the connection is closed it changes no table. */
  lemma TurnConfinedToUsers(s: Step, db: Store.DbState, u: User, e: Event)
    ensures Turn(s, db, u, e).1.hrv == db.hrv
    ensures db.closed ==> Turn(s, db, u, e).1 == db
    ensures Turn(s, db, u, e).1.closed == (db.closed || (s != Idle && e == CancelCommand))
  {
  }

  lemma TurnPreservesWellFormed(s: Step, db: Store.DbState, u: User, e: Event)
    requires Store.WellFormed(db)
    ensures Store.WellFormed(Turn(s, db, u, e).1)
  {
    match Route(s, e)
    case None =>
    case Some(h) =>
      match h
      case Conv => if !db.closed { Store.InsertPreservesWellFormed(db, Store.Users, u.firstName); }
      case StoreGender(t) =>
        if !db.closed { Store.UpdatePreservesWellFormed(db, Store.Users, Store.Gender, Store.Str(t), u.firstName); }
      case StorePhoto =>
        if !db.closed && u.lastName.Some? {
          var path := Paths.ProfilePhotoPath(u).value;
          Store.UpdatePreservesWellFormed(db, Store.Users, Store.Photo, Store.Str(path), u.firstName);
        }
      case StoreLocation(p) =>
        if !db.closed { Store.UpdatePreservesWellFormed(db, Store.Users, Store.Location, Store.Geo(p), u.firstName); }
      case StoreBio(t) =>
        if !db.closed { Store.UpdatePreservesWellFormed(db, Store.Users, Store.Bio, Store.Str(t), u.firstName); }
      case _ =>
  }

  /** The updates a user sends to go through the whole dialog, skipping the
      photo or the location when they choose to. */
  function Script(gender: string, sendPhoto: bool, location: Option<GeoPoint>, bio: string): seq<Event> {
    [ Command("conv"),
      Text(gender),
      if sendPhoto then PhotoMessage else SkipCommand,
      match location case Some(p) => LocationMessage(p) case None => SkipCommand,
      Text(bio) ]
  }

  /** Names the tables after one update. */
  lemma TurnResult(s: Step, db: Store.DbState, u: User, e: Event) returns (after: Store.DbState)
    ensures Turn(s, db, u, e).1 == after
  {
    after := Turn(s, db, u, e).1;
  }

  /** A run of five updates that pass through the five steps in order. */
  lemma RunOfFive(db: Store.DbState, u: User, es: seq<Event>, d1: Store.DbState, d2: Store.DbState,
                  d3: Store.DbState, d4: Store.DbState, d5: Store.DbState)
    requires |es| == 5
    requires Turn(Idle, db, u, es[0]) == (Gender, d1)
    requires Turn(Gender, d1, u, es[1]) == (Photo, d2)
    requires Turn(Photo, d2, u, es[2]) == (Location, d3)
    requires Turn(Location, d3, u, es[3]) == (Bio, d4)
    requires Turn(Bio, d4, u, es[4]) == (Idle, d5)
    ensures Run(Idle, db, u, es) == (Idle, d5)
  {
    assert Run(Bio, d4, u, es[4..]) == (Idle, d5) by { assert es[4..][1..] == []; }
    assert Run(Location, d3, u, es[3..]) == (Idle, d5) by { assert es[3..][1..] == es[4..]; }
    assert Run(Photo, d2, u, es[2..]) == (Idle, d5) by { assert es[2..][1..] == es[3..]; }
    assert Run(Gender, d1, u, es[1..]) == (Idle, d5) by { assert es[1..][1..] == es[2..]; }
  }

  /** One update of the script's table effects, or none when the step was skipped. */
  predicate UpdatedOrSkipped(before: Store.DbState, after: Store.DbState, sent: bool,
                             col: Store.Column, v: Store.Value, name: string) {
    if sent then Store.UpdatedIn(before, after, Store.Users, col, v, name) else after == before
  }

  /** The cells a completed dialog leaves in its row. */
  function Answers(gender: string, photo: Store.Value, location: Store.Value, bio: string): map<Store.Column, Store.Value> {
    map[Store.Gender := Store.Str(gender), Store.Photo := photo,
        Store.Location := location, Store.Bio := Store.Str(bio)]
  }

  /** The columns a completed dialog has written: gender and bio always,
      photo and location when they were sent. */
  function Answered(sendPhoto: bool, sendLocation: bool): set<Store.Column> {
    {Store.Gender, Store.Bio} + (if sendPhoto then {Store.Photo} else {})
      + (if sendLocation then {Store.Location} else {})
  }

  /** `after` is `before` with one new `users` row for `name` holding
      `answers`; older rows of that name carry the same values in the
      `answered` columns, rows of other names and the `hrv` table are as
      they were. */
  predicate AddedAnswers(before: Store.DbState, after: Store.DbState, name: string,
                         answers: map<Store.Column, Store.Value>, answered: set<Store.Column>) {
    && after.hrv == before.hrv && after.closed == before.closed
    && Store.AddedRow(before.users, after.users, name, answers, answered)
  }

  /** The `/conv` INSERT starts the added row with NULLs. */
  lemma InsertStartsAnswers(db: Store.DbState, d1: Store.DbState, name: string)
    requires Store.InsertedInto(db, d1, Store.Users, name)
    ensures AddedAnswers(db, d1, name, Store.Nulls(Store.Users), {})
  {
    Store.AppendStartsAddedRow(db.users, d1.users, name, Store.Users);
  }

  /** One more answered (or skipped) step extends the added row. */
  lemma AnswerExtends(db: Store.DbState, mid: Store.DbState, after: Store.DbState, name: string,
                      cells: map<Store.Column, Store.Value>, agreed: set<Store.Column>,
                      sent: bool, col: Store.Column, v: Store.Value)
    requires AddedAnswers(db, mid, name, cells, agreed)
    requires UpdatedOrSkipped(mid, after, sent, col, v, name)
    ensures AddedAnswers(db, after, name, if sent then cells[col := v] else cells,
                         if sent then agreed + {col} else agreed)
  {
    if sent {
      Store.UpdateExtendsAddedRow(db.users, mid.users, after.users, name, cells, agreed, col, v);
    }
  }

  /** The table effects of a complete run, composed step by step. */
  lemma {:induction false} ScriptEffects(db: Store.DbState, d1: Store.DbState, d2: Store.DbState,
                                         d3: Store.DbState, d4: Store.DbState, d5: Store.DbState,
                                         name: string, gender: string, sendPhoto: bool, photo: Store.Value,
                                         sendLocation: bool, loc: Store.Value, bio: string)
    requires Store.InsertedInto(db, d1, Store.Users, name)
    requires Store.UpdatedIn(d1, d2, Store.Users, Store.Gender, Store.Str(gender), name)
    requires UpdatedOrSkipped(d2, d3, sendPhoto, Store.Photo, photo, name)
    requires UpdatedOrSkipped(d3, d4, sendLocation, Store.Location, loc, name)
    requires Store.UpdatedIn(d4, d5, Store.Users, Store.Bio, Store.Str(bio), name)
    ensures AddedAnswers(db, d5, name, Answers(gender, if sendPhoto then photo else Store.Null,
                                               if sendLocation then loc else Store.Null, bio),
                         Answered(sendPhoto, sendLocation))
  {
    var c1 := Store.Nulls(Store.Users);
    InsertStartsAnswers(db, d1, name);
    AnswerExtends(db, d1, d2, name, c1, {}, true, Store.Gender, Store.Str(gender));
    var c2, g2 := c1[Store.Gender := Store.Str(gender)], {} + {Store.Gender};
    AnswerExtends(db, d2, d3, name, c2, g2, sendPhoto, Store.Photo, photo);
    var c3, g3 := if sendPhoto then c2[Store.Photo := photo] else c2,
                  if sendPhoto then g2 + {Store.Photo} else g2;
    AnswerExtends(db, d3, d4, name, c3, g3, sendLocation, Store.Location, loc);
    var c4, g4 := if sendLocation then c3[Store.Location := loc] else c3,
                  if sendLocation then g3 + {Store.Location} else g3;
    AnswerExtends(db, d4, d5, name, c4, g4, true, Store.Bio, Store.Str(bio));
    AnswersInOrder(gender, sendPhoto, photo, sendLocation, loc, bio);
    assert g4 + {Store.Bio} == Answered(sendPhoto, sendLocation);
  }

  /** Writing the answers one column at a time into a row of NULLs gives `Answers`. */
  lemma AnswersInOrder(gender: string, sendPhoto: bool, photo: Store.Value,
                       sendLocation: bool, loc: Store.Value, bio: string)
    ensures var c2 := Store.Nulls(Store.Users)[Store.Gender := Store.Str(gender)];
      var c3 := if sendPhoto then c2[Store.Photo := photo] else c2;
      var c4 := if sendLocation then c3[Store.Location := loc] else c3;
      c4[Store.Bio := Store.Str(bio)]
        == Answers(gender, if sendPhoto then photo else Store.Null, if sendLocation then loc else Store.Null, bio)
  {
    var c2 := Store.Nulls(Store.Users)[Store.Gender := Store.Str(gender)];
    var c3 := if sendPhoto then c2[Store.Photo := photo] else c2;
    var c4 := if sendLocation then c3[Store.Location := loc] else c3;
    var m := c4[Store.Bio := Store.Str(bio)];
    var a := Answers(gender, if sendPhoto then photo else Store.Null, if sendLocation then loc else Store.Null, bio);
    assert m.Keys == a.Keys;
    forall c | c in a ensures m[c] == a[c] {
    }
  }

  /** A complete run of the dialog on an open connection ends it and leaves
      exactly one new `users` row, whose columns hold the answers given (a
      skipped step leaves its column NULL). Any answer the gender filter
      accepts will do, a trailing newline included. Only the photo step
      needs a last name. Because every step updates by first name, older rows with the
      same name get the same gender and bio (and photo and location when
      those are sent) and keep their other cells; rows of other names and
      the `hrv` table are untouched. */
  lemma {:induction false} CompleteRun(db: Store.DbState, u: User, gender: string, sendPhoto: bool,
                                         location: Option<GeoPoint>, bio: string)
    requires !db.closed && (sendPhoto ==> u.lastName.Some?) && GenderFilter(gender)
    ensures var r := Run(Idle, db, u, Script(gender, sendPhoto, location, bio));
      r.0 == Idle && AddedAnswers(db, r.1, u.firstName, Answers(gender,
              if sendPhoto then Store.Str("users/" + u.firstName + u.lastName.value + ".jpg") else Store.Null,
              match location case Some(p) => Store.Geo(p) case None => Store.Null,
              bio), Answered(sendPhoto, location.Some?))
  {
    var es := Script(gender, sendPhoto, location, bio);
    var path := if sendPhoto then Store.Str("users/" + u.firstName + u.lastName.value + ".jpg") else Store.Null;
    var loc := match location case Some(p) => Store.Geo(p) case None => Store.Null;
    var d1 := TurnResult(Idle, db, u, es[0]);
    var d2 := TurnResult(Gender, d1, u, es[1]);
    var d3 := TurnResult(Photo, d2, u, es[2]);
    var d4 := TurnResult(Location, d3, u, es[3]);
    var d5 := TurnResult(Bio, d4, u, es[4]);
    assert Turn(Idle, db, u, es[0]).0 == Gender && Store.InsertedInto(db, d1, Store.Users, u.firstName) by {
      ConvStartsDialog(db, u, es[0]);
    }
    assert Turn(Gender, d1, u, es[1]).0 == Photo
      && Store.UpdatedIn(d1, d2, Store.Users, Store.Gender, Store.Str(gender), u.firstName) by {
      GenderStep(d1, u, es[1]);
    }
    assert Turn(Photo, d2, u, es[2]).0 == Location
      && UpdatedOrSkipped(d2, d3, sendPhoto, Store.Photo, path, u.firstName) by {
      PhotoStep(d2, u, es[2]);
    }
    assert Turn(Location, d3, u, es[3]).0 == Bio
      && UpdatedOrSkipped(d3, d4, location.Some?, Store.Location, loc, u.firstName) by {
      LocationStep(d3, u, es[3]);
    }
    assert Turn(Bio, d4, u, es[4]).0 == Idle
      && Store.UpdatedIn(d4, d5, Store.Users, Store.Bio, Store.Str(bio), u.firstName) by {
      BioStep(d4, u, es[4]);
    }
    RunOfFive(db, u, es, d1, d2, d3, d4, d5);
    ScriptEffects(db, d1, d2, d3, d4, d5, u.firstName, gender, sendPhoto, path,
                  location.Some?, loc, bio);
    assert (if location.Some? then loc else Store.Null) == loc;
  }
}
