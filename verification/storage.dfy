/**
 * `MemStorage`: the in-memory user and command-history tables behind the
 * routes. Ids come from two counters that only ever grow; the current time
 * that `createCommand` stamps on a record is passed in.
 */
module Storage {
  import opened Wrappers

  datatype User = User(id: nat, username: string, password: string)

  /** What `createUser` is given: everything but the id. */
  datatype InsertUser = InsertUser(username: string, password: string)

  /** One history record. `userId` is null when the caller gave none. */
  datatype Command = Command(
    id: nat,
    userId: Option<int>,
    command: string,
    output: Option<string>,
    error: Option<string>,
    status: string,
    executedAt: int,
    namespace: string,
    context: string)

  /** What `createCommand` is given: absent fields take defaults. */
  datatype InsertCommand = InsertCommand(
    userId: Option<int>,
    command: string,
    output: Option<string>,
    error: Option<string>,
    status: Option<string>,
    namespace: Option<string>,
    context: Option<string>)

  /** Every record sits under its own id. */
  ghost predicate KeyedById(commands: map<nat, Command>) {
    forall id :: id in commands ==> commands[id].id == id
  }

  /** History order: the later timestamp first; for equal timestamps the
      record created first (the sort is stable over creation order). */
  predicate NewerFirst(a: Command, b: Command) {
    a.executedAt > b.executedAt || (a.executedAt == b.executedAt && a.id < b.id)
  }

  predicate NewestFirst(s: seq<Command>) {
    forall i, j :: 0 <= i < j < |s| ==> NewerFirst(s[i], s[j])
  }

  /** The records of `userId` with ids in `from`..`bound - 1`, in id order,
      which is the order the table holds them in. */
  function OwnedFrom(commands: map<nat, Command>, userId: int, from: nat, bound: nat): (r: seq<Command>)
    requires KeyedById(commands)
    decreases bound - from
    ensures forall c :: c in r <==>
      c.id in commands && commands[c.id] == c && c.userId == Some(userId) && from <= c.id < bound
    ensures forall i, j :: 0 <= i < j < |r| ==> r[i].id < r[j].id
  {
    if from >= bound then []
    else
      var rest := OwnedFrom(commands, userId, from + 1, bound);
      if from in commands && commands[from].userId == Some(userId) then [commands[from]] + rest else rest
  }

  /** Places `c` among records already newest first. */
  function InsertNewestFirst(c: Command, s: seq<Command>): (r: seq<Command>)
    requires NewestFirst(s)
    requires forall x :: x in s ==> x.id != c.id
    ensures NewestFirst(r)
    ensures forall x :: x in r <==> x == c || x in s
    ensures |r| == |s| + 1
  {
    if s == [] then [c]
    else if NewerFirst(c, s[0]) then
      var r := [c] + s;
      forall i, j | 0 <= i < j < |r| ensures NewerFirst(r[i], r[j]) {
        if i == 0 && j > 1 {
          assert NewerFirst(s[0], s[j - 1]);
        }
      }
      r
    else
      var rest := InsertNewestFirst(c, s[1..]);
      var r := [s[0]] + rest;
      forall i, j | 0 <= i < j < |r| ensures NewerFirst(r[i], r[j]) {
        if i == 0 {
          assert r[j] == rest[j - 1] && rest[j - 1] in rest;
          if r[j] != c {
            var k :| 0 <= k < |s| - 1 && s[1..][k] == r[j];
            assert NewerFirst(s[0], s[k + 1]);
          }
        } else {
          assert r[i] == rest[i - 1] && r[j] == rest[j - 1];
        }
      }
      assert s == [s[0]] + s[1..];
      r
  }

  /** A stable insertion sort, newest first. */
  function SortNewestFirst(s: seq<Command>): (r: seq<Command>)
    requires forall i, j :: 0 <= i < j < |s| ==> s[i].id != s[j].id
    ensures NewestFirst(r)
    ensures forall x :: x in r <==> x in s
    ensures |r| == |s|
  {
    if s == [] then []
    else
      var rest := SortNewestFirst(s[1..]);
      assert forall x :: x in rest ==> x in s[1..];
      assert s == [s[0]] + s[1..];
      InsertNewestFirst(s[0], rest)
  }

  /** `getCommandHistory` on a table: the user's records, newest first. */
  function History(commands: map<nat, Command>, userId: int, bound: nat): (r: seq<Command>)
    requires KeyedById(commands)
    ensures NewestFirst(r)
    ensures forall c :: c in r <==>
      c.id in commands && commands[c.id] == c && c.userId == Some(userId) && c.id < bound
  {
    SortNewestFirst(OwnedFrom(commands, userId, 0, bound))
  }

  /** The table `clearCommandHistory` leaves: every record of `userId` gone. */
  function WithoutUser(commands: map<nat, Command>, userId: int): map<nat, Command> {
    map id | id in commands && commands[id].userId != Some(userId) :: commands[id]
  }

  /** The head of a newest-first sequence is newer than every other record in it. */
  lemma HeadIsNewest(s: seq<Command>, x: Command)
    requires NewestFirst(s) && x in s
    ensures x == s[0] || NewerFirst(s[0], x)
  {
    var i :| 0 <= i < |s| && s[i] == x;
    if i > 0 {
      assert NewerFirst(s[0], s[i]);
    }
  }

  /** Sequences with the same records are empty together. */
  lemma SameRecordsEmpty(a: seq<Command>, b: seq<Command>)
    requires forall c :: c in a <==> c in b
    ensures a == [] <==> b == []
  {
    if a != [] {
      assert a[0] in a;
    }
    if b != [] {
      assert b[0] in b;
    }
  }

  /** Two newest-first sequences with the same records are the same
      sequence: the history order is fully determined by the records. */
  lemma {:induction false} NewestFirstUnique(a: seq<Command>, b: seq<Command>)
    requires NewestFirst(a) && NewestFirst(b)
    requires forall c :: c in a <==> c in b
    ensures a == b
  {
    SameRecordsEmpty(a, b);
    if a != [] {
      HeadIsNewest(a, b[0]);
      HeadIsNewest(b, a[0]);
      forall c ensures c in a[1..] <==> c in b[1..] {
        if c in a[1..] {
          var i :| 0 <= i < |a| - 1 && a[1..][i] == c;
          assert NewerFirst(a[0], a[i + 1]) && a[i + 1] in a;
          var j :| 0 <= j < |b| && b[j] == c;
          assert j != 0;
          assert b[1..][j - 1] == c;
        }
        if c in b[1..] {
          var j :| 0 <= j < |b| - 1 && b[1..][j] == c;
          assert NewerFirst(b[0], b[j + 1]) && b[j + 1] in b;
          var i :| 0 <= i < |a| && a[i] == c;
          assert i != 0;
          assert a[1..][i - 1] == c;
        }
      }
      NewestFirstUnique(a[1..], b[1..]);
      assert a == [a[0]] + a[1..] && b == [b[0]] + b[1..];
    }
  }

  /** After clearing, the user has no history left. */
  lemma HistoryCleared(commands: map<nat, Command>, userId: int, bound: nat)
    requires KeyedById(commands)
    ensures KeyedById(WithoutUser(commands, userId))
    ensures History(WithoutUser(commands, userId), userId, bound) == []
  {
    SameRecordsEmpty(History(WithoutUser(commands, userId), userId, bound), []);
  }

  /** Clearing one user's history leaves every other user's history as it
      was, record for record and in the same order. */
  lemma OtherHistoriesKept(commands: map<nat, Command>, userId: int, other: int, bound: nat)
    requires KeyedById(commands) && other != userId
    ensures KeyedById(WithoutUser(commands, userId))
    ensures History(WithoutUser(commands, userId), other, bound) == History(commands, other, bound)
  {
    NewestFirstUnique(History(WithoutUser(commands, userId), other, bound), History(commands, other, bound));
  }

  class MemStorage {
    var users: map<nat, User>
    var commands: map<nat, Command>
    var userIdCounter: nat
    var commandIdCounter: nat
    /** Every id `createCommand` has handed out so far. */
    ghost var issuedCommandIds: set<nat>

    ghost predicate Valid()
      reads this
    {
      && userIdCounter >= 1 && commandIdCounter >= 1
      && (forall id :: id in users ==> 1 <= id < userIdCounter && users[id].id == id)
      && KeyedById(commands)
      && (forall id :: id in commands ==> id in issuedCommandIds)
      && (forall id :: id in issuedCommandIds <==> 1 <= id < commandIdCounter)
    }

    /** An empty store with the demo user `admin` as user 1. */
    constructor ()
      ensures Valid()
      ensures users == map[1 := User(1, "admin", "admin123")] && userIdCounter == 2
      ensures commands == map[] && commandIdCounter == 1 && issuedCommandIds == {}
    {
      users := map[];
      commands := map[];
      userIdCounter := 1;
      commandIdCounter := 1;
      issuedCommandIds := {};
      new;
      var _ := CreateUser(InsertUser("admin", "admin123"));
    }

    /** `getUser`: the user stored under `id`, if any. */
    function GetUser(id: int): (r: Option<User>)
      reads this
      requires Valid()
      ensures r.Some? <==> id in users
      ensures r.Some? ==> r.value == users[id] && r.value.id == id
    {
      if id in users then Some(users[id]) else None
    }

    /** The first user, in creation order from id `from` on, with that
        username. */
    function FindUserFrom(username: string, from: nat): (r: Option<User>)
      reads this
      requires Valid()
      decreases userIdCounter - from
      ensures r.Some? ==> from <= r.value.id && r.value.id in users && users[r.value.id] == r.value
      ensures r.Some? ==> r.value.username == username
      ensures r.Some? ==> forall id :: from <= id < r.value.id && id in users ==> users[id].username != username
      ensures r.None? <==> forall id :: from <= id && id in users ==> users[id].username != username
    {
      if from >= userIdCounter then None
      else if from in users && users[from].username == username then Some(users[from])
      else FindUserFrom(username, from + 1)
    }

    /** `getUserByUsername`: `find` over the users in creation order. */
    function GetUserByUsername(username: string): (r: Option<User>)
      reads this
      requires Valid()
      ensures r.Some? ==> r.value.id in users && users[r.value.id] == r.value && r.value.username == username
      ensures r.Some? ==> forall id :: id in users && users[id].username == username ==> r.value.id <= id
      ensures r.None? <==> forall id :: id in users ==> users[id].username != username
    {
      FindUserFrom(username, 0)
    }

    /** `createUser`: the next id, then the counter moves on. */
    method CreateUser(insertUser: InsertUser) returns (user: User)
      requires Valid()
      modifies this
      ensures Valid()
      ensures user == User(old(userIdCounter), insertUser.username, insertUser.password)
      ensures forall id :: id in old(users) ==> id < user.id
      ensures users == old(users)[user.id := user] && userIdCounter == old(userIdCounter) + 1
      ensures commands == old(commands) && commandIdCounter == old(commandIdCounter)
      ensures issuedCommandIds == old(issuedCommandIds)
    {
      var id := userIdCounter;
      userIdCounter := userIdCounter + 1;
      user := User(id, insertUser.username, insertUser.password);
      users := users[id := user];
    }

    /** `createCommand`, stamped with `now`: a fresh id, the command text
        copied, and defaults for what was not given. */
    method CreateCommand(insertCommand: InsertCommand, now: int) returns (command: Command)
      requires Valid()
      modifies this
      ensures Valid()
      ensures command.id == old(commandIdCounter) && command.id !in old(issuedCommandIds)
      ensures command.command == insertCommand.command && command.executedAt == now
      ensures command.output == insertCommand.output && command.error == insertCommand.error
      ensures command.userId == insertCommand.userId
      ensures command.status == insertCommand.status.GetOr("success")
      ensures command.namespace == insertCommand.namespace.GetOr("default")
      ensures command.context == insertCommand.context.GetOr("minikube")
      ensures commands == old(commands)[command.id := command]
      ensures commandIdCounter == old(commandIdCounter) + 1
      ensures issuedCommandIds == old(issuedCommandIds) + {command.id}
      ensures users == old(users) && userIdCounter == old(userIdCounter)
    {
      var id := commandIdCounter;
      commandIdCounter := commandIdCounter + 1;
      issuedCommandIds := issuedCommandIds + {id};
      command := Command(
        id,
        insertCommand.userId,
        insertCommand.command,
        insertCommand.output,
        insertCommand.error,
        insertCommand.status.GetOr("success"),
        now,
        insertCommand.namespace.GetOr("default"),
        insertCommand.context.GetOr("minikube"));
      commands := commands[id := command];
    }

    /** `getCommandHistory`: exactly the user's records, newest first. */
    function GetCommandHistory(userId: int): (r: seq<Command>)
      reads this
      requires Valid()
      ensures NewestFirst(r)
      ensures forall c :: c in r <==> c in commands.Values && c.userId == Some(userId)
    {
      var r := History(commands, userId, commandIdCounter);
      assert forall c :: c in commands.Values ==> c.id in commands && commands[c.id] == c;
      r
    }

    /** `clearCommandHistory`: walks a snapshot of the entries and deletes
        the user's records one by one. */
    method ClearCommandHistory(userId: int)
      requires Valid()
      modifies this
      ensures Valid()
      ensures commands == WithoutUser(old(commands), userId)
      ensures users == old(users) && userIdCounter == old(userIdCounter)
      ensures commandIdCounter == old(commandIdCounter) && issuedCommandIds == old(issuedCommandIds)
      ensures GetCommandHistory(userId) == []
      ensures forall other :: other != userId ==> GetCommandHistory(other) == old(GetCommandHistory(other))
    {
      var entries := commands;
      var pending := entries.Keys;
      while pending != {}
        invariant pending <= entries.Keys
        invariant forall id :: id in commands <==>
          id in entries && (id in pending || entries[id].userId != Some(userId))
        invariant forall id :: id in commands ==> commands[id] == entries[id]
        invariant users == old(users) && userIdCounter == old(userIdCounter)
        invariant commandIdCounter == old(commandIdCounter) && issuedCommandIds == old(issuedCommandIds)
        decreases pending
      {
        var id :| id in pending;
        if entries[id].userId == Some(userId) {
          commands := commands - {id};
        }
        pending := pending - {id};
      }
      assert commands == WithoutUser(entries, userId);
      HistoryCleared(entries, userId, commandIdCounter);
      forall other | other != userId
        ensures History(commands, other, commandIdCounter) == History(entries, other, commandIdCounter)
      {
        OtherHistoriesKept(entries, userId, other, commandIdCounter);
      }
    }
  }
}
