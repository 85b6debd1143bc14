/** The HRV dialog (`hrv_handler`): `/input` opens it, then it takes the
    summary, graphs and details images in turn, writing each file name into
    the `hrv` table; `/skip` at the graphs or details step ends it, and
    `/cancel` ends it from any step. */
module HrvDialog {
  import opened Common
  import Store
  import Paths

  /** Where the conversation of one user stands; `Idle` is "no conversation". */
  datatype Step = Idle | Summary | Graphs | Details

  /** The callbacks the dialog registers. */
  datatype Handler = HrvInput | StoreSummary | StoreGraphs | StoreDetails | SkipHrv | Cancel

  /** The table as a relation: the steps at which each callback is
      registered. */
  predicate Registered(s: Step, h: Handler) {
    match h
    case HrvInput => s == Idle
    case StoreSummary => s == Summary
    case StoreGraphs => s == Graphs
    case StoreDetails => s == Details
    case SkipHrv => s == Graphs || s == Details
    case Cancel => s != Idle
  }

  /** The update a callback's filter lets through. */
  predicate Accepts(h: Handler, e: Event) {
    match h
    case HrvInput => e == Command("input")
    case StoreSummary => e == PhotoMessage
    case StoreGraphs => e == PhotoMessage
    case StoreDetails => e == PhotoMessage
    case SkipHrv => e == SkipCommand
    case Cancel => e == CancelCommand
  }

  /** The routing table: the entry point when idle, else the handlers of
      the current step in order, then the fallbacks. SUMMARY has no `/skip`.
      The callback chosen is the one registered at the step whose filter
      accepts the update. */
  function Route(s: Step, e: Event): (r: Option<Handler>)
    ensures forall h :: r == Some(h) <==> Registered(s, h) && Accepts(h, e)
  {
    match s
    case Idle => if e == Command("input") then Some(HrvInput) else None
    case Summary => if e.PhotoMessage? then Some(StoreSummary) else Fallback(e, Cancel)
    case Graphs =>
      if e.PhotoMessage? then Some(StoreGraphs)
      else if e == SkipCommand then Some(SkipHrv)
      else Fallback(e, Cancel)
    case Details =>
      if e.PhotoMessage? then Some(StoreDetails)
      else if e == SkipCommand then Some(SkipHrv)
      else Fallback(e, Cancel)
  }

  /** Builds the image's file name, writes it into `col` and returns `next`. */
  function StoreImage(u: User, suffix: string, col: Store.Column, next: Step, db: Store.DbState)
    : (r: Result<(Step, Store.DbState)>)
    ensures r.Failure? <==> u.lastName.None? || db.closed || col !in Store.Schema(Store.Hrv)
    ensures r.Failure? ==> r.error == if u.lastName.None? then MissingLastName
                                      else if db.closed then ClosedDatabase else NoSuchColumn
    ensures r.Success? ==>
      && r.value.0 == next
      && r.value.1.users == db.users && |r.value.1.hrv| == |db.hrv| && !r.value.1.closed
  {
    match Paths.HrvPhotoPath(u, suffix)
    case Failure(err) => Failure(err)
    case Success(path) => Then(Store.Update(db, Store.Hrv, col, Store.Str(path), u.firstName), next)
  }

  /** What each callback does to the tables and which state it returns, or
      the error it raises. */
  function Handle(h: Handler, u: User, db: Store.DbState): (r: Result<(Step, Store.DbState)>)
    ensures r.Failure? <==> !(h.SkipHrv? || h.Cancel?) && (db.closed || (!h.HrvInput? && u.lastName.None?))
    ensures r.Failure? ==>
      r.error == if !h.HrvInput? && u.lastName.None? then MissingLastName else ClosedDatabase
    ensures r.Success? ==> r.value.1.users == db.users && (r.value.1.closed <==> db.closed || h.Cancel?)
    ensures r.Success? ==>
      forall s | Registered(s, h) :: r.value.0 == if h.Cancel? || h.SkipHrv? then Idle else Successor(s)
  {
    match h
    case HrvInput => Then(Store.Insert(db, Store.Hrv, u.firstName), Summary)
    case StoreSummary => StoreImage(u, Paths.SummarySuffix, Store.Summary, Graphs, db)
    case StoreGraphs => StoreImage(u, Paths.GraphsSuffix, Store.Graphs, Details, db)
    case StoreDetails => StoreImage(u, Paths.DetailsSuffix, Store.Details, Idle, db)
    case SkipHrv => Success((Idle, db))
    case Cancel => Success((Idle, Store.Close(db)))
  }

  /** One update: an unhandled event, or a handler that raises, leaves the
      state and the tables as they were. The dialog never moves anywhere but
      on to its fixed successor, or to the end on `/skip` or `/cancel`; a
      turn that stays at its step wrote nothing; the `users` table is never
      touched. */
  function Turn(s: Step, db: Store.DbState, u: User, e: Event): (r: (Step, Store.DbState))
    ensures r.0 in {s, Successor(s)} || ((e == CancelCommand || e == SkipCommand) && r.0 == Idle)
    ensures r.0 == s ==> r.1 == db
    ensures r.1.users == db.users
  {
    match Route(s, e)
    case None => (s, db)
    case Some(h) =>
      match Handle(h, u, db)
      case Failure(_) => (s, db)
      case Success(r) => r
  }

  /** A sequence of updates from one sender whose names stay the same. */
  function Run(s: Step, db: Store.DbState, u: User, es: seq<Event>): (Step, Store.DbState)
    decreases |es|
  {
    if es == [] then (s, db)
    else
      var r := Turn(s, db, u, es[0]);
      Run(r.0, r.1, u, es[1..])
  }

  /** The state each step hands over to when its image is accepted. */
  function Successor(s: Step): Step {
    match s
    case Idle => Summary
    case Summary => Graphs
    case Graphs => Details
    case Details => Idle
  }

  // ---------------------------------------------------------------------
  // Lemmas

  /** `/input` when idle adds one `hrv` row holding only the user's first
      name and enters SUMMARY; on a closed connection it raises and nothing
      happens. Any other update is ignored while idle. */
  lemma InputStartsDialog(db: Store.DbState, u: User, e: Event)
    ensures e != Command("input") ==> Turn(Idle, db, u, e) == (Idle, db)
    ensures e == Command("input") && db.closed ==> Turn(Idle, db, u, e) == (Idle, db)
    ensures e == Command("input") && !db.closed ==>
      Turn(Idle, db, u, e).0 == Summary
      && Store.InsertedInto(db, Turn(Idle, db, u, e).1, Store.Hrv, u.firstName)
  {
    Store.InsertAppendsOneRow(db, Store.Hrv, u.firstName);
  }

  /** `/input` in the middle of the dialog is not handled. */
  lemma NoReentry(s: Step, db: Store.DbState, u: User)
    requires s != Idle
    ensures Turn(s, db, u, Command("input")) == (s, db)
  {
  }

  /** SUMMARY accepts only a photo (with `/cancel` as the fallback): it
      stores `hrv/<first><last>-summary.jpg` and moves to GRAPHS. `/skip`,
      text and locations change nothing. */
  lemma SummaryStep(db: Store.DbState, u: User, e: Event)
    requires e != CancelCommand
    ensures Route(Summary, e).Some? <==> e == PhotoMessage
    ensures Turn(Summary, db, u, SkipCommand) == (Summary, db)
    ensures var r := Turn(Summary, db, u, e);
      if e == PhotoMessage && !db.closed && u.lastName.Some? then
        r.0 == Graphs
        && Store.UpdatedIn(db, r.1, Store.Hrv, Store.Summary,
                           Store.Str("hrv/" + u.firstName + u.lastName.value + "-summary.jpg"), u.firstName)
      else
        r == (Summary, db)
  {
    if e == PhotoMessage && u.lastName.Some? {
      assert "hrv/" + u.firstName + u.lastName.value + "-summary" + ".jpg"
          == "hrv/" + u.firstName + u.lastName.value + "-summary.jpg";
      Store.UpdateSetsOneColumn(db, Store.Hrv, Store.Summary,
                                Store.Str("hrv/" + u.firstName + u.lastName.value + "-summary.jpg"), u.firstName);
    }
  }

  /** GRAPHS stores `hrv/<first><last>-graphs.jpg` and moves to DETAILS;
      `/skip` ends the dialog without writing; anything else but `/cancel`
      changes nothing. */
  lemma GraphsStep(db: Store.DbState, u: User, e: Event)
    requires e != CancelCommand
    ensures var r := Turn(Graphs, db, u, e);
      if e == PhotoMessage && !db.closed && u.lastName.Some? then
        r.0 == Details
        && Store.UpdatedIn(db, r.1, Store.Hrv, Store.Graphs,
                           Store.Str("hrv/" + u.firstName + u.lastName.value + "-graphs.jpg"), u.firstName)
      else if e == SkipCommand then
        r == (Idle, db)
      else
        r == (Graphs, db)
  {
    if e == PhotoMessage && u.lastName.Some? {
      assert "hrv/" + u.firstName + u.lastName.value + "-graphs" + ".jpg"
          == "hrv/" + u.firstName + u.lastName.value + "-graphs.jpg";
      Store.UpdateSetsOneColumn(db, Store.Hrv, Store.Graphs,
                                Store.Str("hrv/" + u.firstName + u.lastName.value + "-graphs.jpg"), u.firstName);
    }
  }

  /** DETAILS stores `hrv/<first><last>-details.jpg` and ends the dialog;
      `/skip` ends it without writing; anything else but `/cancel` changes
      nothing. */
  lemma DetailsStep(db: Store.DbState, u: User, e: Event)
    requires e != CancelCommand
    ensures var r := Turn(Details, db, u, e);
      if e == PhotoMessage && !db.closed && u.lastName.Some? then
        r.0 == Idle
        && Store.UpdatedIn(db, r.1, Store.Hrv, Store.Details,
                           Store.Str("hrv/" + u.firstName + u.lastName.value + "-details.jpg"), u.firstName)
      else if e == SkipCommand then
        r == (Idle, db)
      else
        r == (Details, db)
  {
    if e == PhotoMessage && u.lastName.Some? {
      assert "hrv/" + u.firstName + u.lastName.value + "-details" + ".jpg"
          == "hrv/" + u.firstName + u.lastName.value + "-details.jpg";
      Store.UpdateSetsOneColumn(db, Store.Hrv, Store.Details,
                                Store.Str("hrv/" + u.firstName + u.lastName.value + "-details.jpg"), u.firstName);
    }
  }

  /** `/cancel` ends the dialog from every step, writes no cell and closes
      the connection that both dialogs share. */
  lemma CancelEndsDialog(s: Step, db: Store.DbState, u: User)
    requires s != Idle
    ensures Turn(s, db, u, CancelCommand) == (Idle, db.(closed := true))
  {
  }

  /** The HRV dialog never touches the `users` table, and once the
      connection is closed it changes no table. */
  lemma TurnConfinedToHrv(s: Step, db: Store.DbState, u: User, e: Event)
    ensures Turn(s, db, u, e).1.users == db.users
    ensures db.closed ==> Turn(s, db, u, e).1 == db
    ensures Turn(s, db, u, e).1.closed == (db.closed || (s != Idle && e == CancelCommand))
  {
  }

  lemma TurnPreservesWellFormed(s: Step, db: Store.DbState, u: User, e: Event)
    requires Store.WellFormed(db)
    ensures Store.WellFormed(Turn(s, db, u, e).1)
  {
    match Route(s, e)
    case None =>
    case Some(h) =>
      match h
      case HrvInput => if !db.closed { Store.InsertPreservesWellFormed(db, Store.Hrv, u.firstName); }
      case StoreSummary => ImagePreservesWellFormed(db, u, Paths.SummarySuffix, Store.Summary);
      case StoreGraphs => ImagePreservesWellFormed(db, u, Paths.GraphsSuffix, Store.Graphs);
      case StoreDetails => ImagePreservesWellFormed(db, u, Paths.DetailsSuffix, Store.Details);
      case _ =>
  }

  lemma ImagePreservesWellFormed(db: Store.DbState, u: User, suffix: string, col: Store.Column)
    requires Store.WellFormed(db)
    ensures forall next: Step :: StoreImage(u, suffix, col, next, db).Success? ==>
      Store.WellFormed(StoreImage(u, suffix, col, next, db).value.1)
  {
    if !db.closed && u.lastName.Some? && col in Store.Schema(Store.Hrv) {
      Store.UpdatePreservesWellFormed(db, Store.Hrv, col, Store.Str(Paths.HrvPhotoPath(u, suffix).value), u.firstName);
    }
  }

  /** `/input`, then `photos` images, then `/skip` if fewer than three. */
  function Script(photos: nat): seq<Event>
    requires 1 <= photos <= 3
  {
    if photos == 1 then [Command("input"), PhotoMessage, SkipCommand]
    else if photos == 2 then [Command("input"), PhotoMessage, PhotoMessage, SkipCommand]
    else [Command("input"), PhotoMessage, PhotoMessage, PhotoMessage]
  }

  /** The cells one completed HRV dialog leaves in its row: the file names
      of the images sent, NULL for the skipped ones. */
  function Images(u: User, photos: nat): map<Store.Column, Store.Value>
    requires u.lastName.Some?
  {
    var prefix := "hrv/" + u.firstName + u.lastName.value;
    map[Store.Summary := Store.Str(prefix + "-summary.jpg"),
        Store.Graphs := if photos >= 2 then Store.Str(prefix + "-graphs.jpg") else Store.Null,
        Store.Details := if photos >= 3 then Store.Str(prefix + "-details.jpg") else Store.Null]
  }

  /** The columns a completed dialog has written: the summary always, the
      graphs and the details when they were sent. */
  function Stored(photos: nat): set<Store.Column> {
    {Store.Summary} + (if photos >= 2 then {Store.Graphs} else {})
      + (if photos >= 3 then {Store.Details} else {})
  }

  /** `after` is `before` with one new `hrv` row for `name` holding `cells`;
      older rows of that name carry the same values in the `stored`
      columns, rows of other names and the `users` table are as they were. */
  predicate AddedImages(before: Store.DbState, after: Store.DbState, name: string,
                        cells: map<Store.Column, Store.Value>, stored: set<Store.Column>) {
    && after.users == before.users && after.closed == before.closed
    && Store.AddedRow(before.hrv, after.hrv, name, cells, stored)
  }

  /** One image stored, or the step skipped. */
  predicate StoredOrSkipped(before: Store.DbState, after: Store.DbState, sent: bool,
                            col: Store.Column, v: Store.Value, name: string) {
    if sent then Store.UpdatedIn(before, after, Store.Hrv, col, v, name) else after == before
  }

  /** The `/input` INSERT starts the added row with NULLs. */
  lemma InsertStartsImages(db: Store.DbState, d1: Store.DbState, name: string)
    requires Store.InsertedInto(db, d1, Store.Hrv, name)
    ensures AddedImages(db, d1, name, Store.Nulls(Store.Hrv), {})
  {
    Store.AppendStartsAddedRow(db.hrv, d1.hrv, name, Store.Hrv);
  }

  /** One more image stored (or skipped) extends the added row. */
  lemma ImageExtends(db: Store.DbState, mid: Store.DbState, after: Store.DbState, name: string,
                     cells: map<Store.Column, Store.Value>, stored: set<Store.Column>,
                     sent: bool, col: Store.Column, v: Store.Value)
    requires AddedImages(db, mid, name, cells, stored)
    requires StoredOrSkipped(mid, after, sent, col, v, name)
    ensures AddedImages(db, after, name, if sent then cells[col := v] else cells,
                        if sent then stored + {col} else stored)
  {
    if sent {
      Store.UpdateExtendsAddedRow(db.hrv, mid.hrv, after.hrv, name, cells, stored, col, v);
    }
  }

  /** The table effects of a complete run, composed step by step. */
  lemma {:induction false} ScriptEffects(db: Store.DbState, d1: Store.DbState, d2: Store.DbState,
                                         d3: Store.DbState, d4: Store.DbState, u: User, photos: nat)
    requires u.lastName.Some? && 1 <= photos <= 3
    requires Store.InsertedInto(db, d1, Store.Hrv, u.firstName)
    requires Store.UpdatedIn(d1, d2, Store.Hrv, Store.Summary, Images(u, photos)[Store.Summary], u.firstName)
    requires StoredOrSkipped(d2, d3, photos >= 2, Store.Graphs, Images(u, photos)[Store.Graphs], u.firstName)
    requires StoredOrSkipped(d3, d4, photos >= 3, Store.Details, Images(u, photos)[Store.Details], u.firstName)
    ensures AddedImages(db, d4, u.firstName, Images(u, photos), Stored(photos))
  {
    var name, want := u.firstName, Images(u, photos);
    var c1 := Store.Nulls(Store.Hrv);
    InsertStartsImages(db, d1, name);
    ImageExtends(db, d1, d2, name, c1, {}, true, Store.Summary, want[Store.Summary]);
    var c2, g2 := c1[Store.Summary := want[Store.Summary]], {} + {Store.Summary};
    ImageExtends(db, d2, d3, name, c2, g2, photos >= 2, Store.Graphs, want[Store.Graphs]);
    var c3, g3 := if photos >= 2 then c2[Store.Graphs := want[Store.Graphs]] else c2,
                  if photos >= 2 then g2 + {Store.Graphs} else g2;
    ImageExtends(db, d3, d4, name, c3, g3, photos >= 3, Store.Details, want[Store.Details]);
    assert (if photos >= 3 then c3[Store.Details := want[Store.Details]] else c3) == want;
    assert (if photos >= 3 then g3 + {Store.Details} else g3) == Stored(photos);
  }

  lemma TurnResult(s: Step, db: Store.DbState, u: User, e: Event) returns (after: Store.DbState)
    ensures Turn(s, db, u, e).1 == after
  {
    after := Turn(s, db, u, e).1;
  }

  /** A run of three updates ending at GRAPHS with `/skip`. */
  lemma RunOfThree(db: Store.DbState, u: User, es: seq<Event>, d1: Store.DbState, d2: Store.DbState,
                   d3: Store.DbState)
    requires |es| == 3
    requires Turn(Idle, db, u, es[0]) == (Summary, d1)
    requires Turn(Summary, d1, u, es[1]) == (Graphs, d2)
    requires Turn(Graphs, d2, u, es[2]) == (Idle, d3)
    ensures Run(Idle, db, u, es) == (Idle, d3)
  {
    assert Run(Graphs, d2, u, es[2..]) == (Idle, d3) by { assert es[2..][1..] == []; }
    assert Run(Summary, d1, u, es[1..]) == (Idle, d3) by { assert es[1..][1..] == es[2..]; }
  }

  /** A run of four updates through all four steps. */
  lemma RunOfFour(db: Store.DbState, u: User, es: seq<Event>, d1: Store.DbState, d2: Store.DbState,
                  d3: Store.DbState, d4: Store.DbState)
    requires |es| == 4
    requires Turn(Idle, db, u, es[0]) == (Summary, d1)
    requires Turn(Summary, d1, u, es[1]) == (Graphs, d2)
    requires Turn(Graphs, d2, u, es[2]) == (Details, d3)
    requires Turn(Details, d3, u, es[3]) == (Idle, d4)
    ensures Run(Idle, db, u, es) == (Idle, d4)
  {
    assert Run(Details, d3, u, es[3..]) == (Idle, d4) by { assert es[3..][1..] == []; }
    assert Run(Graphs, d2, u, es[2..]) == (Idle, d4) by { assert es[2..][1..] == es[3..]; }
    assert Run(Summary, d1, u, es[1..]) == (Idle, d4) by { assert es[1..][1..] == es[2..]; }
  }

  /** `/input` and the summary image, the first two updates of every script. */
  lemma Opening(db: Store.DbState, u: User, photos: nat) returns (d1: Store.DbState, d2: Store.DbState)
    requires !db.closed && u.lastName.Some? && 1 <= photos <= 3
    ensures Turn(Idle, db, u, Script(photos)[0]) == (Summary, d1)
    ensures Store.InsertedInto(db, d1, Store.Hrv, u.firstName)
    ensures Turn(Summary, d1, u, Script(photos)[1]) == (Graphs, d2)
    ensures Store.UpdatedIn(d1, d2, Store.Hrv, Store.Summary, Images(u, photos)[Store.Summary], u.firstName)
  {
    assert Script(photos)[0] == Command("input") && Script(photos)[1] == PhotoMessage;
    d1 := Turn(Idle, db, u, Command("input")).1;
    InputStartsDialog(db, u, Command("input"));
    d2 := Turn(Summary, d1, u, PhotoMessage).1;
    SummaryStep(d1, u, PhotoMessage);
  }

  /** A run that sends the summary and then either all the other images or
      `/skip` ends the dialog with one new `hrv` row holding the file names
      of the images sent and NULL for the rest. Older rows of the same name
      get the same file names and keep their other cells; rows of other
      names and the `users` table are untouched. */
  lemma {:induction false} CompleteRun(db: Store.DbState, u: User, photos: nat)
    requires !db.closed && u.lastName.Some? && 1 <= photos <= 3
    ensures var r := Run(Idle, db, u, Script(photos));
      r.0 == Idle && AddedImages(db, r.1, u.firstName, Images(u, photos), Stored(photos))
  {
    var es := Script(photos);
    var want := Images(u, photos);
    var d1, d2 := Opening(db, u, photos);
    var d3 := TurnResult(Graphs, d2, u, es[2]);
    assert Turn(Graphs, d2, u, es[2]).0 == (if photos >= 2 then Details else Idle)
      && StoredOrSkipped(d2, d3, photos >= 2, Store.Graphs, want[Store.Graphs], u.firstName) by {
      GraphsStep(d2, u, es[2]);
    }
    if photos == 1 {
      RunOfThree(db, u, es, d1, d2, d3);
      ScriptEffects(db, d1, d2, d3, d3, u, photos);
    } else {
      var d4 := TurnResult(Details, d3, u, es[3]);
      assert Turn(Details, d3, u, es[3]).0 == Idle
        && StoredOrSkipped(d3, d4, photos >= 3, Store.Details, want[Store.Details], u.firstName) by {
        DetailsStep(d3, u, es[3]);
      }
      RunOfFour(db, u, es, d1, d2, d3, d4);
      ScriptEffects(db, d1, d2, d3, d4, u, photos);
    }
  }
}
