/** The callbacks of both dialogs as imperative code over the shared
    connection: each runs its statement on `db` and returns the state the
    dialog moves to, or raises, in which case no table changed. Each is
    proved to do what `ProfileDialog.Handle` or `HrvDialog.Handle` says. */
module Handlers {
  import opened Common
  import Store
  import Paths
  import opened Connection
  import ProfileDialog
  import HrvDialog

  /** How a callback's return relates to the specification of its effect:
      on success it returns the specified state and the tables become the
      specified ones; on failure it raises that error and nothing changes. */
  predicate Performs<S(==)>(r: Result<S>, expected: Result<(S, Store.DbState)>,
                        before: Store.DbState, after: Store.DbState) {
    match expected
    case Success(p) => r == Success(p.0) && after == p.1
    case Failure(e) => r == Failure(e) && after == before
  }

  /** The state to return once the statement ran, or the error it raised. */
  function Next<S>(w: Result<()>, next: S): (r: Result<S>)
    ensures r.Success? <==> w.Success?
    ensures r.Success? ==> r.value == next
    ensures w.Failure? ==> r == Failure(w.error)
  {
    match w
    case Failure(e) => Failure(e)
    case Success(_) => Success(next)
  }

  // ---------------------------------------------------------------------
  // The profile dialog

  /** conv: insert a row holding the user's first name; ask for the gender. */
  method Conv(db: Database, u: User) returns (r: Result<ProfileDialog.Step>)
    modifies db
    ensures Performs(r, ProfileDialog.Handle(ProfileDialog.Conv, u, old(db.State())), old(db.State()), db.State())
  {
    var w := db.Insert(Store.Users, u.firstName);
    r := Next(w, ProfileDialog.Gender);
  }

  /** gender: store the chosen text in `gender`; ask for a photo. */
  method Gender(db: Database, u: User, text: string) returns (r: Result<ProfileDialog.Step>)
    modifies db
    ensures Performs(r, ProfileDialog.Handle(ProfileDialog.StoreGender(text), u, old(db.State())),
                     old(db.State()), db.State())
  {
    var w := db.Update(Store.Users, Store.Gender, Store.Str(text), u.firstName);
    r := Next(w, ProfileDialog.Photo);
  }

  /** photo: name the file after the user and store that name in `photo`;
      ask for a location. */
  method Photo(db: Database, u: User) returns (r: Result<ProfileDialog.Step>)
    modifies db
    ensures Performs(r, ProfileDialog.Handle(ProfileDialog.StorePhoto, u, old(db.State())), old(db.State()), db.State())
  {
    var path := Paths.ProfilePhotoPath(u);
    if path.Failure? {
      return Failure(path.error);
    }
    var w := db.Update(Store.Users, Store.Photo, Store.Str(path.value), u.firstName);
    r := Next(w, ProfileDialog.Location);
  }

  /** skip_photo: ask for a location without writing anything. */
  method SkipPhoto(u: User) returns (next: ProfileDialog.Step)
    ensures forall d :: ProfileDialog.Handle(ProfileDialog.SkipPhoto, u, d) == Success((next, d))
  {
    next := ProfileDialog.Location;
  }

  /** location: store the location in `location`; ask for the bio. */
  method Location(db: Database, u: User, p: GeoPoint) returns (r: Result<ProfileDialog.Step>)
    modifies db
    ensures Performs(r, ProfileDialog.Handle(ProfileDialog.StoreLocation(p), u, old(db.State())),
                     old(db.State()), db.State())
  {
    var w := db.Update(Store.Users, Store.Location, Store.Geo(p), u.firstName);
    r := Next(w, ProfileDialog.Bio);
  }

  /** skip_location: ask for the bio without writing anything. */
  method SkipLocation(u: User) returns (next: ProfileDialog.Step)
    ensures forall d :: ProfileDialog.Handle(ProfileDialog.SkipLocation, u, d) == Success((next, d))
  {
    next := ProfileDialog.Bio;
  }

  /** bio: store the text in `bio` and end the dialog. */
  method Bio(db: Database, u: User, text: string) returns (r: Result<ProfileDialog.Step>)
    modifies db
    ensures Performs(r, ProfileDialog.Handle(ProfileDialog.StoreBio(text), u, old(db.State())),
                     old(db.State()), db.State())
  {
    var w := db.Update(Store.Users, Store.Bio, Store.Str(text), u.firstName);
    r := Next(w, ProfileDialog.Idle);
  }

  /** cancel, the fallback of both dialogs: close the shared connection and
      end the dialog. */
  method Cancel(db: Database)
    modifies db
    ensures db.State() == Store.Close(old(db.State()))
    ensures forall u :: ProfileDialog.Handle(ProfileDialog.Cancel, u, old(db.State()))
                        == Success((ProfileDialog.Idle, db.State()))
    ensures forall u :: HrvDialog.Handle(HrvDialog.Cancel, u, old(db.State()))
                        == Success((HrvDialog.Idle, db.State()))
  {
    db.Close();
  }

  // ---------------------------------------------------------------------
  // The HRV dialog

  /** hrv_input: insert an `hrv` row holding the user's first name; wait for
      the summary. */
  method HrvInput(db: Database, u: User) returns (r: Result<HrvDialog.Step>)
    modifies db
    ensures Performs(r, HrvDialog.Handle(HrvDialog.HrvInput, u, old(db.State())), old(db.State()), db.State())
  {
    var w := db.Insert(Store.Hrv, u.firstName);
    r := Next(w, HrvDialog.Summary);
  }

  /** The body summary, graphs and details share: name the file after the
      user and the stage, and store that name in the stage's column. */
  method StoreImage(db: Database, u: User, suffix: string, col: Store.Column, next: HrvDialog.Step)
    returns (r: Result<HrvDialog.Step>)
    modifies db
    ensures Performs(r, HrvDialog.StoreImage(u, suffix, col, next, old(db.State())), old(db.State()), db.State())
  {
    var path := Paths.HrvPhotoPath(u, suffix);
    if path.Failure? {
      return Failure(path.error);
    }
    var w := db.Update(Store.Hrv, col, Store.Str(path.value), u.firstName);
    r := Next(w, next);
  }

  /** summary: store the summary image's file name; wait for the graphs. */
  method Summary(db: Database, u: User) returns (r: Result<HrvDialog.Step>)
    modifies db
    ensures Performs(r, HrvDialog.Handle(HrvDialog.StoreSummary, u, old(db.State())), old(db.State()), db.State())
  {
    r := StoreImage(db, u, Paths.SummarySuffix, Store.Summary, HrvDialog.Graphs);
  }

  /** graphs: store the graphs image's file name; wait for the details. */
  method Graphs(db: Database, u: User) returns (r: Result<HrvDialog.Step>)
    modifies db
    ensures Performs(r, HrvDialog.Handle(HrvDialog.StoreGraphs, u, old(db.State())), old(db.State()), db.State())
  {
    r := StoreImage(db, u, Paths.GraphsSuffix, Store.Graphs, HrvDialog.Details);
  }

  /** details: store the details image's file name and end the dialog. */
  method Details(db: Database, u: User) returns (r: Result<HrvDialog.Step>)
    modifies db
    ensures Performs(r, HrvDialog.Handle(HrvDialog.StoreDetails, u, old(db.State())), old(db.State()), db.State())
  {
    r := StoreImage(db, u, Paths.DetailsSuffix, Store.Details, HrvDialog.Idle);
  }

  /** skip_hrv: end the dialog without writing anything. */
  method SkipHrv(u: User) returns (next: HrvDialog.Step)
    ensures forall d :: HrvDialog.Handle(HrvDialog.SkipHrv, u, d) == Success((next, d))
  {
    next := HrvDialog.Idle;
  }
}
