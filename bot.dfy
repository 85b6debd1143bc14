/** The two dialogs side by side for one user: each keeps its own state,
    and both write through the one shared connection. Which dialog an
    update is delivered to is left to the library and is a parameter here. */
module Conversations {
  import opened Common
  import Store
  import opened Connection
  import ProfileDialog
  import HrvDialog
  import Handlers

  /** Where one user stands in each of the two dialogs. */
  datatype Chat = Chat(profile: ProfileDialog.Step, hrv: HrvDialog.Step)

  /** An update handed to one of the two dialogs. */
  datatype Delivery = ToProfile(event: Event) | ToHrv(event: Event)

  /** The dialog the update is delivered to takes its turn; the other one
      keeps its state, and the table it writes is left alone. */
  function Deliver(c: Chat, db: Store.DbState, u: User, d: Delivery): (r: (Chat, Store.DbState))
    ensures d.ToProfile? ==> r.0.hrv == c.hrv && r.1.hrv == db.hrv
    ensures d.ToHrv? ==> r.0.profile == c.profile && r.1.users == db.users
  {
    match d
    case ToProfile(e) =>
      var r := ProfileDialog.Turn(c.profile, db, u, e);
      (c.(profile := r.0), r.1)
    case ToHrv(e) =>
      var r := HrvDialog.Turn(c.hrv, db, u, e);
      (c.(hrv := r.0), r.1)
  }

  /** A sequence of updates to either dialog, each with the sender's names
      as that update carries them: the names are read afresh on every
      update, so they may change in the middle of a dialog. */
  function RunChat(c: Chat, db: Store.DbState, ds: seq<(User, Delivery)>): (Chat, Store.DbState)
    decreases |ds|
  {
    if ds == [] then (c, db)
    else
      var r := Deliver(c, db, ds[0].0, ds[0].1);
      RunChat(r.0, r.1, ds[1..])
  }

  // ---------------------------------------------------------------------
  // Lemmas

  /** `/input` in the middle of the profile dialog opens the HRV dialog
      beside it, and the profile dialog stays where it was. */
  lemma InputDuringProfile(c: Chat, db: Store.DbState, u: User)
    requires c.hrv == HrvDialog.Idle && !db.closed
    ensures var r := Deliver(c, db, u, ToHrv(Command("input")));
      r.0 == Chat(c.profile, HrvDialog.Summary) && Store.InsertedInto(db, r.1, Store.Hrv, u.firstName)
  {
    HrvDialog.InputStartsDialog(db, u, Command("input"));
  }

  /** `/cancel` in the profile dialog while the HRV dialog is open ends the
      profile dialog only, yet closes the connection the HRV dialog writes
      through: its next image is refused and it stays at the same step. */
  lemma CancelStrandsOtherDialog(c: Chat, db: Store.DbState, u: User)
    requires c.profile != ProfileDialog.Idle && c.hrv != HrvDialog.Idle
    ensures var r := Deliver(c, db, u, ToProfile(CancelCommand));
      && r == (Chat(ProfileDialog.Idle, c.hrv), Store.Close(db))
      && Deliver(r.0, r.1, u, ToHrv(PhotoMessage)) == r
  {
    ProfileDialog.CancelEndsDialog(c.profile, db, u);
    HrvDialog.TurnConfinedToHrv(c.hrv, Store.Close(db), u, PhotoMessage);
  }

  /** Once the connection is closed, no update changes a table. */
  lemma {:induction false} ClosedConnectionStoresNothing(c: Chat, db: Store.DbState, ds: seq<(User, Delivery)>)
    requires db.closed
    ensures RunChat(c, db, ds).1 == db
    decreases |ds|
  {
    if ds != [] {
      var (u, d) := ds[0];
      var r := Deliver(c, db, u, d);
      assert r.1 == db by {
        ProfileDialog.TurnConfinedToUsers(c.profile, db, u, d.event);
        HrvDialog.TurnConfinedToHrv(c.hrv, db, u, d.event);
      }
      ClosedConnectionStoresNothing(r.0, r.1, ds[1..]);
    }
  }

  /** On a closed connection `/conv` and `/input` no longer open their
      dialogs: the INSERT raises and the state stays idle. */
  lemma NoDialogOpensAfterClose(c: Chat, db: Store.DbState, u: User)
    requires db.closed && c == Chat(ProfileDialog.Idle, HrvDialog.Idle)
    ensures Deliver(c, db, u, ToProfile(Command("conv"))) == (c, db)
    ensures Deliver(c, db, u, ToHrv(Command("input"))) == (c, db)
  {
    ProfileDialog.ConvStartsDialog(db, u, Command("conv"));
    HrvDialog.InputStartsDialog(db, u, Command("input"));
  }

  /** Every update keeps every row's columns those of its table and the ids
      of each table distinct. */
  lemma {:induction false} RunPreservesWellFormed(c: Chat, db: Store.DbState, ds: seq<(User, Delivery)>)
    requires Store.WellFormed(db)
    ensures Store.WellFormed(RunChat(c, db, ds).1)
    decreases |ds|
  {
    if ds != [] {
      var (u, d) := ds[0];
      var r := Deliver(c, db, u, d);
      assert Store.WellFormed(r.1) by {
        ProfileDialog.TurnPreservesWellFormed(c.profile, db, u, d.event);
        HrvDialog.TurnPreservesWellFormed(c.hrv, db, u, d.event);
      }
      RunPreservesWellFormed(r.0, r.1, ds[1..]);
    }
  }

  /** The running application for one user: the state each dialog keeps
      for the user and the shared connection. */
  class Bot {
    var profile: ProfileDialog.Step
    var hrv: HrvDialog.Step
    const db: Database

    /** Where the user stands in the two dialogs. */
    function State(): Chat
      reads this
    {
      Chat(profile, hrv)
    }

    constructor (connection: Database)
      ensures db == connection
      ensures profile == ProfileDialog.Idle && hrv == HrvDialog.Idle
    {
      db := connection;
      profile := ProfileDialog.Idle;
      hrv := HrvDialog.Idle;
    }

    /** The profile dialog's handling of an update: run the callback its
        table selects and, unless it raised, move to the state it returns. */
    method ProfileTurn(u: User, e: Event)
      modifies this, db
      ensures (profile, db.State()) == ProfileDialog.Turn(old(profile), old(db.State()), u, e)
      ensures hrv == old(hrv)
    {
      match ProfileDialog.Route(profile, e)
      case None =>
      case Some(h) =>
        var r: Result<ProfileDialog.Step>;
        match h {
          case Conv => r := Handlers.Conv(db, u);
          case StoreGender(t) => r := Handlers.Gender(db, u, t);
          case StorePhoto => r := Handlers.Photo(db, u);
          case SkipPhoto => var next := Handlers.SkipPhoto(u); r := Success(next);
          case StoreLocation(p) => r := Handlers.Location(db, u, p);
          case SkipLocation => var next := Handlers.SkipLocation(u); r := Success(next);
          case StoreBio(t) => r := Handlers.Bio(db, u, t);
          case Cancel => Handlers.Cancel(db); r := Success(ProfileDialog.Idle);
        }
        if r.Success? {
          profile := r.value;
        }
    }

    /** The HRV dialog's handling of an update. */
    method HrvTurn(u: User, e: Event)
      modifies this, db
      ensures (hrv, db.State()) == HrvDialog.Turn(old(hrv), old(db.State()), u, e)
      ensures profile == old(profile)
    {
      match HrvDialog.Route(hrv, e)
      case None =>
      case Some(h) =>
        var r: Result<HrvDialog.Step>;
        match h {
          case HrvInput => r := Handlers.HrvInput(db, u);
          case StoreSummary => r := Handlers.Summary(db, u);
          case StoreGraphs => r := Handlers.Graphs(db, u);
          case StoreDetails => r := Handlers.Details(db, u);
          case SkipHrv => var next := Handlers.SkipHrv(u); r := Success(next);
          case Cancel => Handlers.Cancel(db); r := Success(HrvDialog.Idle);
        }
        if r.Success? {
          hrv := r.value;
        }
    }

    /** One update delivered to one of the dialogs. */
    method OnUpdate(u: User, d: Delivery)
      modifies this, db
      ensures (State(), db.State()) == Deliver(old(State()), old(db.State()), u, d)
    {
      match d
      case ToProfile(e) => ProfileTurn(u, e);
      case ToHrv(e) => HrvTurn(u, e);
    }
  }
}
