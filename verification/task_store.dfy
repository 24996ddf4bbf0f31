/**
 * The persistent state both task repositories work on: the task table as a
 * map from id to task, the ids of the registered users, and the table's
 * identity counter.
 */
module TaskStore {
  import opened Wrappers
  import opened Domain

  datatype Db = Db(tasks: map<int, Tareas>, users: set<int>, nextId: int)

  /** The `(IsSuccess, Message)` pair every repository write returns. */
  datatype Reply = Reply(isSuccess: bool, message: string)

  /** A repository write: its reply, the resulting store, and the notifications it emitted, in order. */
  datatype Write = Write(reply: Reply, db: Db, effects: seq<Effect>)

  /**
   * An exception a repository write runs into. The save itself may throw a
   * database update error, carrying the innermost message, or anything else.
   * Once the save has committed, the change notifier or the hub broadcast
   * that follow it may throw as well.
   */
  datatype Fault =
    | DbUpdate(message: string)
    | Unexpected(message: string)
    | NotifyFailed(message: string)
    | BroadcastFailed(message: string)

  /** The save throws, so nothing is committed. */
  predicate SaveThrows(fault: Option<Fault>) {
    fault.Some? && (fault.value.DbUpdate? || fault.value.Unexpected?)
  }

  /** Something after the committed save throws. */
  predicate AfterSave(fault: Option<Fault>) {
    fault.Some? && (fault.value.NotifyFailed? || fault.value.BroadcastFailed?)
  }

  /** A write that failed and touched nothing. */
  function Reject(db: Db, message: string): Write {
    Write(Reply(false, message), db, [])
  }

  /** Every task is stored under its own id, and every id lies below the identity counter. */
  ghost predicate WellFormed(db: Db) {
    && db.nextId >= 1
    && forall k | k in db.tasks :: db.tasks[k].id == k && 1 <= k < db.nextId
  }

  /** No two stored tasks share a description. */
  ghost predicate UniqueDescriptions(tasks: map<int, Tareas>) {
    forall i, j | i in tasks && j in tasks && i != j :: tasks[i].description != tasks[j].description
  }

  /** Some stored task has description `d` (`Tareas.Any(x => x.Description == d)`). */
  predicate DescriptionTaken(tasks: map<int, Tareas>, d: Option<string>) {
    exists k | k in tasks :: tasks[k].description == d
  }

  /** The task with id `id`, or null (`FirstOrDefault(x => x.Id == id)` / `Find(id)`). */
  function Lookup(db: Db, id: int): (r: Option<Tareas>)
    ensures r.Some? <==> id in db.tasks
    ensures r.Some? ==> r.value == db.tasks[id]
  {
    if id in db.tasks then Some(db.tasks[id]) else None
  }

  /** An insert under the identity counter: the entry, with its id set to the new key. */
  function Insert(db: Db, entry: Tareas): (r: Db)
    requires WellFormed(db)
    ensures WellFormed(r) && r.users == db.users
    ensures r.tasks.Keys == db.tasks.Keys + {db.nextId} && db.nextId !in db.tasks
    ensures r.tasks[db.nextId] == entry.(id := db.nextId)
    ensures forall k | k in db.tasks :: r.tasks[k] == db.tasks[k]
  {
    Db(db.tasks[db.nextId := entry.(id := db.nextId)], db.users, db.nextId + 1)
  }

  /** An insert of a task whose description nobody holds keeps descriptions unique. */
  lemma InsertKeepsUnique(db: Db, entry: Tareas)
    requires WellFormed(db) && UniqueDescriptions(db.tasks)
    requires !DescriptionTaken(db.tasks, entry.description)
    ensures UniqueDescriptions(Insert(db, entry).tasks)
  {
    var r := Insert(db, entry).tasks;
    forall i, j | i in r && j in r && i != j
      ensures r[i].description != r[j].description
    {
      if i != db.nextId && j != db.nextId {
        assert r[i] == db.tasks[i] && r[j] == db.tasks[j];
      } else if i == db.nextId {
        assert j in db.tasks && r[j] == db.tasks[j];
      } else {
        assert i in db.tasks && r[i] == db.tasks[i];
      }
    }
  }

  /** A key under which a stored value sits. */
  lemma KeyOf<K, V>(m: map<K, V>, v: V) returns (k: K)
    requires v in m.Values
    ensures k in m && m[k] == v
  {
    k :| k in m.Keys && m[k] == v;
  }

  /** In a well-formed store a task is found under its own id exactly when it is stored at all. */
  lemma StoredUnderOwnId(db: Db)
    requires WellFormed(db)
    ensures forall t | t in db.tasks.Values :: t.id in db.tasks && db.tasks[t.id] == t
  {
    forall t | t in db.tasks.Values
      ensures t.id in db.tasks && db.tasks[t.id] == t
    {
      var k := KeyOf(db.tasks, t);
    }
  }

  /** Removing a task keeps the store well formed and descriptions unique. */
  lemma RemoveKeepsInvariants(db: Db, id: int)
    requires WellFormed(db) && UniqueDescriptions(db.tasks)
    ensures WellFormed(db.(tasks := db.tasks - {id}))
    ensures UniqueDescriptions((db.tasks - {id}))
  {
  }

  /** The smallest element of a non-empty finite set of ids exists. */
  lemma {:induction false} MinExists(s: set<int>) returns (m: int)
    requires s != {}
    ensures m in s && forall x | x in s :: m <= x
    decreases |s|
  {
    var y := PickOne(s);
    var rest := s - {y};
    if rest == {} {
      assert s == {y};
      m := y;
    } else {
      var n := MinExists(rest);
      m := if y < n then y else n;
      forall x | x in s ensures m <= x {
        if x != y { assert x in rest; }
      }
    }
  }

  /** Some element of a non-empty set. */
  ghost function PickOne<T>(s: set<T>): (x: T)
    requires s != {}
    ensures x in s
  {
    var x :| x in s; x
  }

  /** The smallest id of a non-empty set. */
  function MinKey(s: set<int>): (m: int)
    requires s != {}
    ensures m in s && forall x | x in s :: m <= x
  {
    assert exists m :: m in s && forall x | x in s :: m <= x by {
      var least := MinExists(s);
    }
    var m :| m in s && forall x | x in s :: m <= x; m
  }

  /** The table as a list in key order (`Tareas.ToListAsync()`): every stored task exactly once. */
  function Listing(tasks: map<int, Tareas>): (r: seq<Tareas>)
    ensures |r| == |tasks|
    ensures forall k | k in tasks :: tasks[k] in r
    ensures forall i | 0 <= i < |r| :: r[i] in tasks.Values
    decreases |tasks|
  {
    if tasks == map[] then []
    else
      var k := MinKey(tasks.Keys);
      var rest := tasks - {k};
      assert rest.Keys == tasks.Keys - {k};
      assert |rest.Keys| == |tasks.Keys| - 1;
      assert forall j | j in tasks && j != k :: j in rest && rest[j] == tasks[j];
      assert rest.Values <= tasks.Values;
      [tasks[k]] + Listing(rest)
  }
}
