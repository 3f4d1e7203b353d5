/**
 * The registered drivers: a dictionary from Telegram id to registration that
 * keeps insertion order, persisted as a JSON object whose keys are the ids as
 * text. The file's content is modelled as its list of key/value pairs in file
 * order, or `None` when there is no file.
 */
module UsersRepo {
  import opened Wrappers
  import opened Text
  import opened TimeUtils
  import opened Models

  /** The JSON object `users.json` holds: id text and registration, in order. */
  type UsersFile = seq<(string, Registration)>

  /** The repository's dictionary: the registrations and the order their ids were first inserted. */
  datatype Registry = Registry(users: map<int, Registration>, order: seq<int>)
  {
    ghost predicate Valid()
    {
      && (forall i, j :: 0 <= i < j < |order| ==> order[i] != order[j])
      && (forall id :: id in users <==> id in order)
    }

    /** `get_user`. */
    function GetUser(id: int): (r: Option<Registration>)
      ensures r.Some? <==> id in users
      ensures r.Some? ==> r.value == users[id]
    {
      if id in users then Some(users[id]) else None
    }

    /** `is_registered`. */
    predicate IsRegistered(id: int)
    {
      id in users
    }

    /** `get_user_name`. */
    function GetUserName(id: int): (r: Option<string>)
      ensures r.Some? <==> IsRegistered(id)
      ensures r.Some? ==> r.value == users[id].fullName
    {
      match GetUser(id)
      case Some(reg) => Some(reg.fullName)
      case None => None
    }

    /** `get_all_users_count`: the number of ids, each counted once. */
    function GetAllUsersCount(): (n: nat)
      requires Valid()
      ensures n == |order|
    {
      DistinctCard(order);
      assert forall x :: x in users.Keys <==> x in (set y | y in order);
      assert users.Keys == set x | x in order;
      |users.Keys|
    }

    /**
     * `get_user_list`: one `(id, name, created_at)` per registration, in
     * insertion order.
     */
    function GetUserList(): (list: seq<(int, string, string)>)
      requires Valid()
      ensures |list| == |order|
      ensures forall i :: 0 <= i < |list| ==>
        list[i].0 == order[i] && order[i] in users
        && list[i].1 == users[order[i]].fullName && list[i].2 == users[order[i]].createdAt
    {
      assert forall i :: 0 <= i < |order| ==> order[i] in order && order[i] in users;
      seq(|order|, i requires 0 <= i < |order| => (order[i], users[order[i]].fullName, users[order[i]].createdAt))
    }

    /** Storing under an id: a new id goes to the end of the order, a known one keeps its place. */
    function Put(id: int, reg: Registration): (r: Registry)
      requires Valid()
      ensures r.Valid()
      ensures r.users == users[id := reg]
      ensures r.order == if id in users then order else order + [id]
    {
      Registry(users[id := reg], if id in users then order else order + [id])
    }

    /**
     * `register_user`: the name is stored stripped and stamped with the UTC time;
     * registering again replaces the earlier registration.
     */
    function Register(id: int, fullName: string, nowUtc: DateTime): (r: Registry)
      requires Valid() && TimeUtils.Valid(nowUtc)
      ensures r.Valid()
      ensures r.GetUser(id) == Some(Registration(id, Strip(fullName), ZuluIsoString(nowUtc)))
      ensures forall other :: other != id ==> r.GetUser(other) == GetUser(other)
      ensures r.GetAllUsersCount() == GetAllUsersCount() + (if IsRegistered(id) then 0 else 1)
      ensures r.order == if IsRegistered(id) then order else order + [id]
    {
      Put(id, Registration(id, Strip(fullName), ZuluIsoString(nowUtc)))
    }
  }

  const Empty := Registry(map[], [])

  lemma {:induction false} DistinctCard(s: seq<int>)
    requires forall i, j :: 0 <= i < j < |s| ==> s[i] != s[j]
    ensures |set x | x in s| == |s|
  {
    if s != [] {
      var t := s[..|s| - 1];
      assert forall i, j :: 0 <= i < j < |t| ==> t[i] != t[j];
      DistinctCard(t);
      assert (set x | x in s) == (set x | x in t) + {s[|s| - 1]};
      assert s[|s| - 1] !in (set x | x in t);
    }
  }

  // ---------------------------------------------------------------- the file

  /**
   * The loop of `load_users` over the file's pairs: every key must read as an
   * integer (a later duplicate id overwrites an earlier one); one that does not
   * makes the whole load fail.
   */
  function LoadEntries(entries: UsersFile): (r: Option<Registry>)
    ensures r.Some? ==> r.value.Valid()
  {
    if entries == [] then Some(Empty)
    else
      var prefix := LoadEntries(entries[..|entries| - 1]);
      var last := entries[|entries| - 1];
      var id := ParseInt(last.0);
      if prefix.None? || id.None? then None
      else Some(prefix.value.Put(id.value, last.1))
  }

  /** Loading one more pair: it is stored under its key, or the load fails. */
  lemma LoadEntriesStep(entries: UsersFile, k: nat)
    requires k < |entries|
    ensures var prefix, id := LoadEntries(entries[..k]), ParseInt(entries[k].0);
      LoadEntries(entries[..k + 1])
      == if prefix.None? || id.None? then None else Some(prefix.value.Put(id.value, entries[k].1))
  {
    assert entries[..k + 1][..k] == entries[..k];
    assert entries[..k + 1][k] == entries[k];
  }

  /** One key that is not an integer makes the whole load fail, whatever follows it. */
  lemma {:induction false} LoadStopsAtBadKey(entries: UsersFile, k: nat)
    requires k < |entries| && ParseInt(entries[k].0).None?
    ensures LoadEntries(entries) == None
    decreases |entries|
  {
    if k < |entries| - 1 {
      var prefix := entries[..|entries| - 1];
      assert prefix[k] == entries[k];
      LoadStopsAtBadKey(prefix, k);
    }
  }

  /** `load_users`: no file is an empty repository, and so is a file that fails to load. */
  function Load(file: Option<UsersFile>): (r: Registry)
    ensures r.Valid()
  {
    match file
    case None => Empty
    case Some(entries) =>
      match LoadEntries(entries)
      case Some(reg) => reg
      case None => Empty
  }

  /** `save_users`: one pair per registration, keyed by the id as text, in insertion order. */
  function SaveOrder(users: map<int, Registration>, order: seq<int>): (f: UsersFile)
    requires forall id :: id in order ==> id in users
    ensures |f| == |order|
    ensures forall i :: 0 <= i < |f| ==> f[i] == (IntToString(order[i]), users[order[i]])
  {
    if order == [] then []
    else SaveOrder(users, order[..|order| - 1]) + [(IntToString(order[|order| - 1]), users[order[|order| - 1]])]
  }

  function Save(r: Registry): UsersFile
    requires r.Valid()
  {
    SaveOrder(r.users, r.order)
  }

  lemma {:induction false} SaveOrderAgrees(u1: map<int, Registration>, u2: map<int, Registration>, order: seq<int>)
    requires forall id :: id in order ==> id in u1 && id in u2 && u1[id] == u2[id]
    ensures SaveOrder(u1, order) == SaveOrder(u2, order)
  {
    if order != [] {
      SaveOrderAgrees(u1, u2, order[..|order| - 1]);
    }
  }

  /** The repository without its most recently inserted id. */
  function DropLast(r: Registry): (p: Registry)
    requires r.Valid() && |r.order| > 0
    ensures p.Valid() && |p.order| == |r.order| - 1
    ensures p.Put(r.order[|r.order| - 1], r.users[r.order[|r.order| - 1]]) == r
  {
    var last := r.order[|r.order| - 1];
    var p := Registry(r.users - {last}, r.order[..|r.order| - 1]);
    assert p.Put(last, r.users[last]).users == r.users;
    p
  }

  lemma SaveDropLast(r: Registry)
    requires r.Valid() && |r.order| > 0
    ensures var last := r.order[|r.order| - 1];
      Save(r) == Save(DropLast(r)) + [(IntToString(last), r.users[last])]
  {
    var p := DropLast(r);
    SaveOrderAgrees(r.users, p.users, p.order);
  }

  /** What `save_users` writes, `load_users` reads back as the same repository, order included. */
  lemma {:induction false} LoadSaveRoundTrip(r: Registry)
    requires r.Valid()
    ensures LoadEntries(Save(r)) == Some(r)
    ensures Load(Some(Save(r))) == r
    decreases |r.order|
  {
    if r.order == [] {
      assert forall id :: id !in r.users;
      assert r.users == map[];
    } else {
      var last := r.order[|r.order| - 1];
      var p := DropLast(r);
      LoadSaveRoundTrip(p);
      SaveDropLast(r);
      IntToStringRoundTrip(last);
      var f := Save(r);
      assert f[..|f| - 1] == Save(p);
      assert f[|f| - 1] == (IntToString(last), r.users[last]);
    }
  }

  // ---------------------------------------------------------------- the repository object

  class UsersRepository {
    var users: map<int, Registration>
    var order: seq<int>
    /** The content of `users.json`, `None` while the file does not exist. */
    var file: Option<UsersFile>

    function Snapshot(): Registry
      reads this
    {
      Registry(users, order)
    }

    /** Opening the repository loads whatever the file holds. */
    constructor (file0: Option<UsersFile>)
      ensures file == file0 && Snapshot() == Load(file0)
    {
      users, order := map[], [];
      file := file0;
      new;
      LoadUsers();
    }

    method LoadUsers()
      modifies this
      requires users == map[] && order == []
      ensures file == old(file) && Snapshot() == Load(file)
    {
      if file.None? {
        return;
      }
      var entries := file.value;
      var k := 0;
      while k < |entries|
        invariant 0 <= k <= |entries| && file == old(file)
        invariant LoadEntries(entries[..k]) == Some(Snapshot())
      {
        var id := ParseInt(entries[k].0);
        LoadEntriesStep(entries, k);
        if id.None? {
          users, order := map[], [];
          LoadFailsAt(entries, k);
          return;
        }
        var next := Snapshot().Put(id.value, entries[k].1);
        users, order := next.users, next.order;
        k := k + 1;
      }
      assert entries[..k] == entries;
    }

    method SaveUsers()
      modifies this
      requires Snapshot().Valid()
      ensures users == old(users) && order == old(order)
      ensures file == Some(Save(Snapshot()))
    {
      var data: UsersFile := [];
      var k := 0;
      while k < |order|
        invariant 0 <= k <= |order|
        invariant data == SaveOrder(users, order[..k])
      {
        assert order[..k + 1][..k] == order[..k];
        data := data + [(IntToString(order[k]), users[order[k]])];
        k := k + 1;
      }
      assert order[..k] == order;
      file := Some(data);
    }

    /** `register_user`: store the registration, then write the whole repository to the file. */
    method RegisterUser(id: int, fullName: string, nowUtc: DateTime) returns (reg: Registration)
      modifies this
      requires Snapshot().Valid() && TimeUtils.Valid(nowUtc)
      ensures reg == Registration(id, Strip(fullName), ZuluIsoString(nowUtc))
      ensures Snapshot() == old(Snapshot()).Register(id, fullName, nowUtc)
      ensures file == Some(Save(Snapshot()))
    {
      reg := Registration(id, Strip(fullName), ZuluIsoString(nowUtc));
      if id !in users {
        order := order + [id];
      }
      users := users[id := reg];
      SaveUsers();
    }
  }

  lemma LoadFailsAt(entries: UsersFile, k: nat)
    requires k < |entries| && ParseInt(entries[k].0).None?
    ensures Load(Some(entries)) == Empty
  {
    LoadStopsAtBadKey(entries, k);
  }
}
