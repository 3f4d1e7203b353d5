/**
 * The running bot: the dispatcher's in-memory FSM storage (one session per
 * user), the spreadsheet client and the users repository, all updated in
 * place as updates arrive one at a time.
 */
module BotRuntime {
  import opened Wrappers
  import opened Models
  import opened SheetsClient
  import opened UsersRepo
  import opened Bot

  class TripBot {
    /** The FSM storage: a user absent from the map has no state and no data. */
    var sessions: map<int, Session>
    const ledger: Ledger
    const repo: UsersRepository

    /** The session the storage holds for `userId`. */
    function SessionOf(userId: int): (s: Session)
      reads this
      ensures userId !in sessions ==> s == Cleared
    {
      if userId in sessions then sessions[userId] else Cleared
    }

    /** What the handlers see of the spreadsheet and the registry. */
    function WorldNow(): (w: World)
      reads this, ledger, repo
      ensures w.sheet == ledger.rows && w.registry == repo.Snapshot()
    {
      World(ledger.rows, repo.Snapshot())
    }

    /** The registry is well formed and every stored session is consistent. */
    ghost predicate Valid()
      reads this, repo
    {
      && repo.Snapshot().Valid()
      && forall uid :: uid in sessions ==> Consistent(sessions[uid])
    }

    /** Starting up: empty FSM storage over an opened sheet client and repository. */
    constructor (ledger0: Ledger, repo0: UsersRepository)
      requires repo0.Snapshot().Valid()
      ensures ledger == ledger0 && repo == repo0 && sessions == map[]
      ensures Valid()
    {
      sessions := map[];
      ledger := ledger0;
      repo := repo0;
    }

    /**
     * Carrying out `a` for user `uid`, whose session was `s`: the write goes
     * through the client or the repository, and the user's new session is stored.
     */
    method Apply(uid: int, s: Session, a: Action, env: Env) returns (reply: Reply)
      requires repo.Snapshot().Valid() && uid == env.userId
      modifies this, ledger, repo
      ensures var o := Perform(s, old(WorldNow()), a, env);
        && sessions == old(sessions)[uid := o.session]
        && ledger.rows == o.world.sheet
        && repo.Snapshot() == o.world.registry
        && reply == o.reply
      ensures repo.file != old(repo.file) ==> repo.file == Some(Save(repo.Snapshot()))
    {
      ghost var w0 := WorldNow();
      ghost var o := Perform(s, w0, a, env);
      match a
      case Set(s', r) =>
        sessions := sessions[uid := s'];
        reply := r;
        assert repo.Snapshot() == w0.registry && o == Outcome(s', w0, r);
      case AppendTrip(e) =>
        var ok := ledger.AppendRow(e, env.sheetsUp);
        if ok {
          sessions := sessions[uid := Cleared];
          reply := Saved;
          assert o == Outcome(Cleared, w0.(sheet := w0.sheet + [ToSheetsRow(e)]), Saved);
        } else {
          sessions := sessions[uid := s];
          reply := NotSaved;
          assert o == Outcome(s, w0, NotSaved);
        }
        assert repo.Snapshot() == w0.registry;
      case UpdateTrip(n, e) =>
        var ok := ledger.UpdateRow(n, e, env.sheetsUp);
        sessions := sessions[uid := Cleared];
        reply := if ok then Updated else NotUpdated;
        assert repo.Snapshot() == w0.registry && o.session == Cleared && o.reply == reply;
      case RegisterName(name) =>
        var _ := repo.RegisterUser(uid, name, env.nowUtc);
        sessions := sessions[uid := s];
        reply := Registered;
        assert repo.Snapshot() == w0.registry.Register(uid, name, env.nowUtc);
        assert o == Outcome(s, w0.(registry := repo.Snapshot()), Registered);
    }

    /**
     * One update from user `env.userId`: route it, run the handler, perform
     * the write it asks for, and store the user's new session. The result is
     * exactly one `Step` of the conversation; the other users' sessions are
     * untouched and every stored session stays consistent.
     */
    method Handle(ev: Event, env: Env) returns (reply: Reply)
      requires Valid()
      modifies this, ledger, repo
      ensures Valid()
      ensures var o := Step(old(SessionOf(env.userId)), old(WorldNow()), ev, env);
        && sessions == old(sessions)[env.userId := o.session]
        && ledger.rows == o.world.sheet
        && repo.Snapshot() == o.world.registry
        && reply == o.reply
      ensures repo.file != old(repo.file) ==> repo.file == Some(Save(repo.Snapshot()))
    {
      var s := SessionOf(env.userId);
      ghost var w := WorldNow();
      ghost var o := Step(s, w, ev, env);
      assert Consistent(s) ==> Consistent(o.session);
      var a := Plan(s, WorldNow(), ev, env);
      reply := Apply(env.userId, s, a, env);
    }
  }
}
