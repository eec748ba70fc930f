/** The per-server data layer of the bot (internal/commands/persistent.go).

    Every server owns two lazily loaded, file-backed objects: a roster mapping
    user ids to players and an active ("playing") set of ids.  A
    `PersistentObject` keeps the in-memory value, the `isLoaded` flag and the
    contents of its backing file; `Load` and `Save` move values between memory
    and the file, and every roster or active-set operation is a
    load-mutate-save sequence on one `Guild`.

    File-system failures are oracles: `readFails` says whether reading the
    backing file fails during the call, `writeFails` whether writing it (the
    directory creation, the temporary file or the rename) fails. */
module Persistent {
  import opened Wrappers

  /** A roster entry.  `skill` is `UnsetSkill` until a rank is given. */
  datatype Player = Player(name: string, skill: int)

  const UnsetSkill: int := -1
  const MinSkill: int := 0
  const MaxSkill: int := 100

  /** The errors of the store and of the command helpers built on it. */
  datatype Error =
    | ReadFailed                      // reading the backing file failed
    | DecodeFailed                    // the file did not decode as JSON
    | InvalidObject                   // "saved object is not valid" (a nil map)
    | WriteFailed                     // creating the directory, writing or renaming failed
    | UserNotFound                    // "cannot delete user: ID not found"
    | IdInUse(guestName: string)      // "cannot save guest ...: ID already in use"
    | GuestNotFound(guestId: string)  // "guest with id ... not found"
    | UserInfoUnavailable             // "failed to get user info"

  /** What the backing file holds.  `Missing` covers a missing server
      directory and a missing file alike; `Holds(None)` is a file whose JSON
      decodes to a nil map (the literal `null`). */
  datatype FileState<V> = Missing | Undecodable | Holds(contents: Option<map<string, V>>)

  /** What loading a file yields: the empty map when there is nothing there or
      the decoded value is invalid, an error when reading or decoding fails. */
  function Decode<V>(file: FileState<V>, readFails: bool): Result<map<string, V>, Error>
  {
    match file
    case Missing => Success(map[])
    case Undecodable => if readFails then Failure(ReadFailed) else Failure(DecodeFailed)
    case Holds(c) =>
      if readFails then Failure(ReadFailed)
      else if c.None? then Success(map[])
      else Success(c.value)
  }

  /** A value written by a successful save is read back unchanged by the next
      process that loads the file, and a nil value is repaired to empty. */
  lemma SavedValueReloads<V>(m: map<string, V>)
    ensures Decode(Holds(Some(m)), false) == Success(m)
    ensures Decode<V>(Holds(None), false) == Success(map[])
  {
  }

  /** A lazily loaded value backed by one file (`persistentObject[T]`).
      `data == None` is Go's nil map, the zero value before any load. */
  class PersistentObject<V> {
    var isLoaded: bool
    var data: Option<map<string, V>>
    var file: FileState<V>

    /** Once loaded, the in-memory value is a valid (non-nil) map. */
    ghost predicate Valid()
      reads this
    {
      isLoaded ==> data.Some?
    }

    constructor (file: FileState<V>)
      ensures Valid() && !isLoaded && data.None? && this.file == file
    {
      isLoaded := false;
      data := None;
      this.file := file;
    }

    /** The value `Load` leaves in memory, or the error it returns. */
    ghost function Loaded(readFails: bool): Result<map<string, V>, Error>
      reads this
      requires Valid()
    {
      if isLoaded then Success(data.value) else Decode(file, readFails)
    }

    /** Lazy and idempotent: once loaded nothing changes; otherwise the file
        is decoded, and a missing file or an invalid value becomes the empty map. */
    method Load(readFails: bool) returns (err: Option<Error>)
      requires Valid()
      modifies this
      ensures Valid() && file == old(file)
      ensures old(isLoaded) ==> err == None && isLoaded && data == old(data)
      ensures var r := old(Loaded(readFails));
        if r.Success? then err == None && isLoaded && data == Some(r.value)
        else err == Some(r.error) && unchanged(this)
    {
      if isLoaded {
        return None;
      }
      match file
      case Missing =>
        data := Some(map[]);
        isLoaded := true;
        return None;
      case Undecodable =>
        if readFails {
          return Some(ReadFailed);
        }
        return Some(DecodeFailed);
      case Holds(c) =>
        if readFails {
          return Some(ReadFailed);
        }
        data := if c.None? then Some(map[]) else c;
        isLoaded := true;
        return None;
    }

    /** The outcome of a save: a nil value is refused and nothing is written;
        a failed write leaves the previous file intact (the value goes to a
        temporary file that is then renamed over the real one); a successful
        one makes the file hold the in-memory value. */
    ghost predicate SaveOutcome(oldFile: FileState<V>, writeFails: bool, err: Option<Error>)
      reads this
    {
      if data.None? then err == Some(InvalidObject) && file == oldFile
      else if writeFails then err == Some(WriteFailed) && file == oldFile
      else err == None && file == Holds(data)
    }

    method Save(writeFails: bool) returns (err: Option<Error>)
      modifies this
      ensures isLoaded == old(isLoaded) && data == old(data)
      ensures SaveOutcome(old(file), writeFails, err)
    {
      if data.None? {
        return Some(InvalidObject);
      }
      if writeFails {
        return Some(WriteFailed);
      }
      file := Holds(data);
      return None;
    }
  }

  /** Clamping applied by `modifyPlayerSkill`. */
  function Clamp(x: int): (r: int)
    ensures MinSkill <= r <= MaxSkill
    ensures MinSkill <= x <= MaxSkill ==> r == x
    ensures x > MaxSkill ==> r == MaxSkill
    ensures x < MinSkill ==> r == MinSkill
  {
    if x > MaxSkill then MaxSkill else if x < MinSkill then MinSkill else x
  }

  /** The skill after a sequence of `modifyPlayerSkill` calls on one entry. */
  function ApplyDiffs(skill: int, diffs: seq<int>): int
    decreases |diffs|
  {
    if diffs == [] then skill else ApplyDiffs(Clamp(skill + diffs[0]), diffs[1..])
  }

  /** However many increases and decreases are applied, one or more of them
      leave the skill inside [0, 100], even when it started unset or out of range. */
  lemma {:induction false} ApplyDiffsInRange(skill: int, diffs: seq<int>)
    requires |diffs| > 0
    ensures MinSkill <= ApplyDiffs(skill, diffs) <= MaxSkill
    decreases |diffs|
  {
    if |diffs| > 1 {
      ApplyDiffsInRange(Clamp(skill + diffs[0]), diffs[1..]);
    }
  }

  /** The ids of a variadic argument list, as a set. */
  function Ids(ids: seq<string>): set<string>
  {
    set id | id in ids
  }

  /** The player a Go map lookup yields: the stored one, or the zero `Player`. */
  function Lookup(m: map<string, Player>, id: string): Player
  {
    if id in m then m[id] else Player("", 0)
  }

  /** Renames every roster entry named in `names`; other ids in `names` are ignored. */
  function Renamed(m: map<string, Player>, names: map<string, string>): (r: map<string, Player>)
    ensures r.Keys == m.Keys
    ensures forall id :: id in r ==> r[id].skill == m[id].skill
    ensures forall id :: id in r ==> r[id].name == (if id in names then names[id] else m[id].name)
  {
    map id | id in m :: if id in names then m[id].(name := names[id]) else m[id]
  }

  /** Renaming one more id changes only that id's entry, if it has one. */
  lemma RenameOne(m: map<string, Player>, names: map<string, string>, rest: set<string>, userId: string)
    requires userId in rest && rest <= names.Keys
    ensures var cur := Renamed(m, names - rest);
      Renamed(m, names - (rest - {userId})) ==
        if userId in cur then cur[userId := cur[userId].(name := names[userId])] else cur
  {
    var cur := Renamed(m, names - rest);
    var next := Renamed(m, names - (rest - {userId}));
    if userId in cur {
      var expected := cur[userId := cur[userId].(name := names[userId])];
      assert next.Keys == expected.Keys;
      forall id | id in next
        ensures next[id] == expected[id]
      {
      }
    } else {
      assert next.Keys == cur.Keys;
      forall id | id in next
        ensures next[id] == cur[id]
      {
      }
    }
  }

  /** Deletes ids in order until one is absent (then stops); the count says
      how many were deleted. */
  function DeleteEach(m: map<string, Player>, ids: seq<string>): (map<string, Player>, nat)
  {
    if ids == [] || ids[0] !in m then (m, 0)
    else
      var r := DeleteEach(m - {ids[0]}, ids[1..]);
      (r.0, r.1 + 1)
  }

  /** `deleteUsers` removes exactly the ids before the first missing one,
      and stops either at the end or at an id that is no longer there. */
  lemma {:induction false} DeleteEachRemovesPrefix(m: map<string, Player>, ids: seq<string>)
    ensures DeleteEach(m, ids).1 <= |ids|
    ensures DeleteEach(m, ids).0 == m - Ids(ids[..DeleteEach(m, ids).1])
    ensures DeleteEach(m, ids).1 < |ids| ==> ids[DeleteEach(m, ids).1] !in DeleteEach(m, ids).0
  {
    if ids != [] && ids[0] in m {
      DeleteEachRemovesPrefix(m - {ids[0]}, ids[1..]);
      var c := DeleteEach(m, ids).1;
      assert ids[..c] == [ids[0]] + ids[1..][..c - 1];
      assert Ids(ids[..c]) == {ids[0]} + Ids(ids[1..][..c - 1]);
    } else {
      assert ids[..0] == [];
      assert Ids(ids[..0]) == {};
    }
  }

  /** The active set after `addPlayingUsers`: a set union. */
  function AddIds(a: map<string, ()>, ids: seq<string>): map<string, ()>
  {
    map id | id in a.Keys + Ids(ids) :: ()
  }

  /** The active set after `removePlayingUsers`: a set difference. */
  function RemoveIds(a: map<string, ()>, ids: seq<string>): map<string, ()>
  {
    a - Ids(ids)
  }

  /** Before any id is handled, neither operation has changed the set. */
  lemma NoIdsYet(a: map<string, ()>, ids: seq<string>)
    ensures Ids(ids[..0]) == {}
    ensures AddIds(a, ids[..0]) == a && RemoveIds(a, ids[..0]) == a
  {
    assert ids[..0] == [];
    assert Ids(ids[..0]) == {};
    SameIdsSameSet(AddIds(a, ids[..0]), a);
    SameIdsSameSet(RemoveIds(a, ids[..0]), a);
  }

  /** Handling one more id inserts or deletes exactly that id. */
  lemma OneMoreId(a: map<string, ()>, ids: seq<string>, i: nat)
    requires i < |ids|
    ensures Ids(ids[..i + 1]) == Ids(ids[..i]) + {ids[i]}
    ensures AddIds(a, ids[..i + 1]) == AddIds(a, ids[..i])[ids[i] := ()]
    ensures RemoveIds(a, ids[..i + 1]) == RemoveIds(a, ids[..i]) - {ids[i]}
  {
    assert ids[..i + 1] == ids[..i] + [ids[i]];
    assert Ids(ids[..i + 1]) == Ids(ids[..i]) + {ids[i]};
    SameIdsSameSet(AddIds(a, ids[..i + 1]), AddIds(a, ids[..i])[ids[i] := ()]);
  }

  /** Whether every id is already in the set (so adding changes nothing). */
  predicate AllIn(ids: seq<string>, a: map<string, ()>)
  {
    forall i :: 0 <= i < |ids| ==> ids[i] in a
  }

  /** Whether some id is in the set (so removing changes something). */
  predicate AnyIn(ids: seq<string>, a: map<string, ()>)
  {
    exists i :: 0 <= i < |ids| && ids[i] in a
  }

  /** Two active sets with the same ids are the same set. */
  lemma SameIdsSameSet(x: map<string, ()>, y: map<string, ()>)
    requires x.Keys == y.Keys
    ensures x == y
  {
    forall id | id in x
      ensures x[id] == y[id]
    {
      var u: () := x[id];
      var v: () := y[id];
      match u case () => match v case () =>
    }
  }

  /** Adding changes membership exactly when some id was absent. */
  lemma AddChangesIff(a: map<string, ()>, ids: seq<string>)
    ensures AddIds(a, ids) == a <==> AllIn(ids, a)
  {
    if AllIn(ids, a) {
      assert Ids(ids) <= a.Keys;
      SameIdsSameSet(AddIds(a, ids), a);
    } else {
      var i :| 0 <= i < |ids| && ids[i] !in a;
      assert ids[i] in Ids(ids);
      assert ids[i] in AddIds(a, ids);
    }
  }

  /** Removing changes membership exactly when some id was present. */
  lemma RemoveChangesIff(a: map<string, ()>, ids: seq<string>)
    ensures RemoveIds(a, ids) == a <==> !AnyIn(ids, a)
  {
    if AnyIn(ids, a) {
      var i :| 0 <= i < |ids| && ids[i] in a;
      assert ids[i] in Ids(ids);
      assert ids[i] !in RemoveIds(a, ids);
    } else {
      assert Ids(ids) !! a.Keys;
      SameIdsSameSet(RemoveIds(a, ids), a);
    }
  }

  /** Adding and removing the same ids are idempotent, and removing undoes
      adding. */
  lemma AddRemoveInverse(a: map<string, ()>, ids: seq<string>)
    ensures AddIds(AddIds(a, ids), ids) == AddIds(a, ids)
    ensures RemoveIds(RemoveIds(a, ids), ids) == RemoveIds(a, ids)
    ensures RemoveIds(AddIds(a, ids), ids) == RemoveIds(a, ids)
  {
    SameIdsSameSet(AddIds(AddIds(a, ids), ids), AddIds(a, ids));
    SameIdsSameSet(RemoveIds(AddIds(a, ids), ids), RemoveIds(a, ids));
  }

  /** The two stores of one server (`players[serverID]`, `playing[serverID]`). */
  class Guild {
    const roster: PersistentObject<Player>
    const active: PersistentObject<()>

    ghost predicate Valid()
      reads this, roster, active
    {
      roster.Valid() && active.Valid() && roster as object != active as object
    }

    /** A server as set up at start-up: nothing loaded, both values nil. */
    constructor (rosterFile: FileState<Player>, activeFile: FileState<()>)
      ensures Valid() && fresh(roster) && fresh(active)
      ensures !roster.isLoaded && roster.data.None? && roster.file == rosterFile
      ensures !active.isLoaded && active.data.None? && active.file == activeFile
    {
      roster := new PersistentObject(rosterFile);
      active := new PersistentObject(activeFile);
    }

    /** `loadUserName`: the cached name of an id, if there is one. */
    method LoadUserName(userId: string, readFails: bool) returns (name: string, ok: bool, err: Option<Error>)
      requires Valid()
      modifies roster
      ensures Valid() && unchanged(active) && roster.file == old(roster.file)
      ensures match old(roster.Loaded(readFails))
        case Failure(e) => err == Some(e) && name == "" && !ok && unchanged(roster)
        case Success(m) =>
          err == None && roster.isLoaded && roster.data == Some(m) &&
          ok == (userId in m) && name == (if ok then m[userId].name else "")
    {
      name, ok := "", false;
      err := roster.Load(readFails);
      if err.Some? {
        return;
      }
      var m := roster.data.value;
      if userId in m {
        name, ok := m[userId].name, true;
      }
    }

    /** `saveUserName`: records a newly seen user with an unset skill; an id
        already in the roster is left as it is and nothing is saved. */
    method SaveUserName(userId: string, name: string, readFails: bool, writeFails: bool) returns (err: Option<Error>)
      requires Valid()
      modifies roster
      ensures Valid() && unchanged(active)
      ensures match old(roster.Loaded(readFails))
        case Failure(e) => err == Some(e) && unchanged(roster)
        case Success(m) =>
          roster.isLoaded &&
          if userId in m then
            err == None && roster.data == Some(m) && roster.file == old(roster.file)
          else
            roster.data == Some(m[userId := Player(name, UnsetSkill)]) &&
            roster.SaveOutcome(old(roster.file), writeFails, err)
    {
      err := roster.Load(readFails);
      if err.Some? {
        return;
      }
      var m := roster.data.value;
      if userId in m {
        return None;
      }
      roster.data := Some(m[userId := Player(name, UnsetSkill)]);
      err := roster.Save(writeFails);
    }

    /** `deleteUser`, as written: the roster entry is deleted and saved, but the
        second `Load` is the roster's again, so the active set is only cleaned
        when it happens to be in memory already; a never-loaded (nil) active set
        keeps the id in its file. */
    method DeleteUser(userId: string, readFails: bool, writeFails: bool) returns (err: Option<Error>)
      requires Valid()
      modifies roster, active
      ensures Valid()
      ensures match old(roster.Loaded(readFails))
        case Failure(e) => err == Some(e) && unchanged(roster, active)
        case Success(m) =>
          roster.isLoaded &&
          if userId !in m then
            err == Some(UserNotFound) && roster.data == Some(m) &&
            roster.file == old(roster.file) && unchanged(active)
          else if writeFails then
            err == Some(WriteFailed) && roster.data == Some(m - {userId}) &&
            roster.file == old(roster.file) && unchanged(active)
          else
            roster.data == Some(m - {userId}) && roster.file == Holds(roster.data) &&
            if old(active.data).Some? && userId in old(active.data).value then
              err == None && active.isLoaded == old(active.isLoaded) &&
              active.data == Some(old(active.data).value - {userId}) &&
              active.file == Holds(active.data)
            else
              err == None && unchanged(active)
    {
      err := roster.Load(readFails);
      if err.Some? {
        return;
      }
      var m := roster.data.value;
      if userId !in m {
        return Some(UserNotFound);
      }
      roster.data := Some(m - {userId});
      err := roster.Save(writeFails);
      if err.Some? {
        return;
      }
      err := roster.Load(readFails);
      if active.data.None? || userId !in active.data.value {
        return None;
      }
      active.data := Some(active.data.value - {userId});
      err := active.Save(writeFails);
    }

    /** `deleteUser` with the active set loaded before it is inspected (what
        the comment at that point of the source intends): once the call
        succeeds the id is gone from both collections, in memory and on disk. */
    method DeleteUserIntended(userId: string, readFails: bool, writeFails: bool) returns (err: Option<Error>)
      requires Valid()
      modifies roster, active
      ensures Valid()
      ensures err == None ==>
        roster.data.Some? && userId !in roster.data.value && roster.file == Holds(roster.data) &&
        active.data.Some? && userId !in active.data.value &&
        (old(active.Loaded(readFails)).Success? && userId in old(active.Loaded(readFails)).value ==>
           active.file == Holds(active.data))
      ensures match old(roster.Loaded(readFails))
        case Failure(e) => err == Some(e) && unchanged(roster, active)
        case Success(m) =>
          roster.isLoaded &&
          if userId !in m then
            err == Some(UserNotFound) && roster.data == Some(m) &&
            roster.file == old(roster.file) && unchanged(active)
          else if writeFails then
            err == Some(WriteFailed) && roster.data == Some(m - {userId}) &&
            roster.file == old(roster.file) && unchanged(active)
          else
            roster.data == Some(m - {userId}) && roster.file == Holds(roster.data) &&
            match old(active.Loaded(readFails))
            case Failure(e) => err == Some(e) && unchanged(active)
            case Success(a) =>
              err == None && active.isLoaded && active.data == Some(a - {userId}) &&
              (if userId in a then active.file == Holds(active.data) else active.file == old(active.file))
    {
      err := roster.Load(readFails);
      if err.Some? {
        return;
      }
      var m := roster.data.value;
      if userId !in m {
        return Some(UserNotFound);
      }
      roster.data := Some(m - {userId});
      err := roster.Save(writeFails);
      if err.Some? {
        return;
      }
      err := active.Load(readFails);
      if err.Some? {
        return;
      }
      var a := active.data.value;
      if userId !in a {
        assert a - {userId} == a;
        return None;
      }
      active.data := Some(a - {userId});
      err := active.Save(writeFails);
    }

    /** `deleteUsers`: not atomic.  Ids are deleted one at a time with a save
        after each; the first absent id (or failed save) ends the call with the
        earlier deletions already done.  Only when every id was deleted is the
        active set loaded, cleaned of all of them and saved. */
    method DeleteUsers(userIds: seq<string>, readFails: bool, writeFails: bool) returns (err: Option<Error>)
      requires Valid()
      modifies roster, active
      ensures Valid()
      ensures match old(roster.Loaded(readFails))
        case Failure(e) => err == Some(e) && unchanged(roster, active)
        case Success(m) =>
          roster.isLoaded &&
          if writeFails && userIds != [] then
            unchanged(active) && roster.file == old(roster.file) &&
            if userIds[0] in m then
              err == Some(WriteFailed) && roster.data == Some(m - {userIds[0]})
            else
              err == Some(UserNotFound) && roster.data == Some(m)
          else
            var (m', deleted) := DeleteEach(m, userIds);
            roster.data == Some(m') &&
            (if deleted > 0 then roster.file == Holds(Some(m')) else roster.file == old(roster.file)) &&
            if deleted < |userIds| then
              err == Some(UserNotFound) && unchanged(active)
            else
              match old(active.Loaded(readFails))
              case Failure(e) => err == Some(e) && unchanged(active)
              case Success(a) =>
                active.isLoaded && active.data == Some(a - Ids(userIds)) &&
                active.SaveOutcome(old(active.file), writeFails, err)
    {
      err := roster.Load(readFails);
      if err.Some? {
        return;
      }
      ghost var m := roster.data.value;
      ghost var oldFile := roster.file;
      for i := 0 to |userIds|
        invariant roster.Valid() && roster.isLoaded && roster.data.Some? && unchanged(active)
        invariant writeFails && userIds != [] ==> i == 0
        invariant i == 0 ==> roster.data == Some(m)
        invariant DeleteEach(m, userIds) ==
          (var r := DeleteEach(roster.data.value, userIds[i..]); (r.0, r.1 + i))
        invariant if i > 0 then roster.file == Holds(roster.data) else roster.file == oldFile
      {
        if userIds[i] !in roster.data.value {
          return Some(UserNotFound);
        }
        roster.data := Some(roster.data.value - {userIds[i]});
        err := roster.Save(writeFails);
        if err.Some? {
          return;
        }
        assert userIds[i..][1..] == userIds[i + 1..];
      }
      assert userIds[|userIds|..] == [];
      err := PurgePlaying(userIds, readFails, writeFails);
    }

    /** The second half of `deleteUsers`: loads the active set, removes every
        one of the ids from it and saves it, even when nothing was removed. */
    method PurgePlaying(userIds: seq<string>, readFails: bool, writeFails: bool) returns (err: Option<Error>)
      requires Valid()
      modifies active
      ensures Valid() && unchanged(roster)
      ensures match old(active.Loaded(readFails))
        case Failure(e) => err == Some(e) && unchanged(active)
        case Success(a) =>
          active.isLoaded && active.data == Some(a - Ids(userIds)) &&
          active.SaveOutcome(old(active.file), writeFails, err)
    {
      err := active.Load(readFails);
      if err.Some? {
        return;
      }
      ghost var a := active.data.value;
      NoIdsYet(a, userIds);
      for i := 0 to |userIds|
        invariant active.Valid() && active.isLoaded && active.file == old(active.file)
        invariant active.data == Some(a - Ids(userIds[..i]))
      {
        OneMoreId(a, userIds, i);
        if userIds[i] !in active.data.value {
          assert active.data.value - {userIds[i]} == active.data.value;
          continue;
        }
        active.data := Some(active.data.value - {userIds[i]});
      }
      assert userIds[..|userIds|] == userIds;
      err := active.Save(writeFails);
    }

    /** `addPlayingUsers`: set union; saved only when membership changed.
        Roster membership is not checked. */
    method AddPlayingUsers(userIds: seq<string>, readFails: bool, writeFails: bool) returns (err: Option<Error>)
      requires Valid()
      modifies active
      ensures Valid() && unchanged(roster)
      ensures match old(active.Loaded(readFails))
        case Failure(e) => err == Some(e) && unchanged(active)
        case Success(a) =>
          active.isLoaded && active.data == Some(AddIds(a, userIds)) &&
          if AllIn(userIds, a) then err == None && active.file == old(active.file)
          else active.SaveOutcome(old(active.file), writeFails, err)
    {
      err := active.Load(readFails);
      if err.Some? {
        return;
      }
      ghost var a := active.data.value;
      NoIdsYet(a, userIds);
      var change := false;
      for i := 0 to |userIds|
        invariant active.Valid() && active.isLoaded && active.file == old(active.file)
        invariant active.data == Some(AddIds(a, userIds[..i]))
        invariant change == !AllIn(userIds[..i], a)
      {
        OneMoreId(a, userIds, i);
        if userIds[i] !in active.data.value {
          active.data := Some(active.data.value[userIds[i] := ()]);
          change := true;
        } else {
          SameIdsSameSet(active.data.value[userIds[i] := ()], active.data.value);
        }
        assert userIds[..i + 1][i] == userIds[i];
      }
      assert userIds[..|userIds|] == userIds;
      if change {
        err := active.Save(writeFails);
      }
    }

    /** `removePlayingUsers`: set difference; saved only when membership changed. */
    method RemovePlayingUsers(userIds: seq<string>, readFails: bool, writeFails: bool) returns (err: Option<Error>)
      requires Valid()
      modifies active
      ensures Valid() && unchanged(roster)
      ensures match old(active.Loaded(readFails))
        case Failure(e) => err == Some(e) && unchanged(active)
        case Success(a) =>
          active.isLoaded && active.data == Some(RemoveIds(a, userIds)) &&
          if !AnyIn(userIds, a) then err == None && active.file == old(active.file)
          else active.SaveOutcome(old(active.file), writeFails, err)
    {
      err := active.Load(readFails);
      if err.Some? {
        return;
      }
      ghost var a := active.data.value;
      NoIdsYet(a, userIds);
      var change := false;
      for i := 0 to |userIds|
        invariant active.Valid() && active.isLoaded && active.file == old(active.file)
        invariant active.data == Some(RemoveIds(a, userIds[..i]))
        invariant change == AnyIn(userIds[..i], a)
      {
        OneMoreId(a, userIds, i);
        if userIds[i] in active.data.value {
          active.data := Some(active.data.value - {userIds[i]});
          change := true;
        } else {
          assert active.data.value - {userIds[i]} == active.data.value;
        }
        assert userIds[..i + 1][i] == userIds[i];
      }
      assert userIds[..|userIds|] == userIds;
      if change {
        err := active.Save(writeFails);
      }
    }

    /** `clearPlayingUsers`: empties the set and saves, without loading first,
        so `isLoaded` stays as it was. */
    method ClearPlayingUsers(writeFails: bool) returns (err: Option<Error>)
      requires Valid()
      modifies active
      ensures Valid() && unchanged(roster)
      ensures active.isLoaded == old(active.isLoaded) && active.data == Some(map[])
      ensures active.SaveOutcome(old(active.file), writeFails, err)
    {
      active.data := Some(map[]);
      err := active.Save(writeFails);
    }

    /** `getPlaying`: the roster record of every id in the active set, in an
        unspecified order (`ids` names the order chosen); an id without a
        roster entry yields the zero player. */
    method GetPlaying(readFails: bool) returns (players: seq<Player>, ghost ids: seq<string>, err: Option<Error>)
      requires Valid()
      modifies roster, active
      ensures Valid() && roster.file == old(roster.file) && active.file == old(active.file)
      ensures match old(active.Loaded(readFails))
        case Failure(e) => err == Some(e) && players == [] && unchanged(roster, active)
        case Success(a) =>
          active.isLoaded && active.data == Some(a) &&
          match old(roster.Loaded(readFails))
          case Failure(e) => err == Some(e) && players == [] && unchanged(roster)
          case Success(m) =>
            err == None && roster.isLoaded && roster.data == Some(m) &&
            |ids| == |players| &&
            (forall i, j :: 0 <= i < j < |ids| ==> ids[i] != ids[j]) &&
            (forall id :: id in a <==> id in ids) &&
            (forall i :: 0 <= i < |ids| ==> players[i] == Lookup(m, ids[i]))
    {
      players, ids := [], [];
      err := active.Load(readFails);
      if err.Some? {
        return;
      }
      var a := active.data.value;
      var userIds: seq<string> := [];
      var rest := a.Keys;
      while rest != {}
        invariant forall id :: id in a <==> id in rest || id in userIds
        invariant forall id :: id in rest ==> id !in userIds
        invariant forall i, j :: 0 <= i < j < |userIds| ==> userIds[i] != userIds[j]
        decreases rest
      {
        var id :| id in rest;
        userIds := userIds + [id];
        rest := rest - {id};
      }
      err := roster.Load(readFails);
      if err.Some? {
        return;
      }
      var m := roster.data.value;
      var result: seq<Player> := [];
      for i := 0 to |userIds|
        invariant |result| == i
        invariant forall k :: 0 <= k < i ==> result[k] == Lookup(m, userIds[k])
      {
        result := result + [Lookup(m, userIds[i])];
      }
      players, ids := result, userIds;
    }

    /** `getPlayingCount`: the size of the active set. */
    method GetPlayingCount(readFails: bool) returns (count: nat, err: Option<Error>)
      requires Valid()
      modifies active
      ensures Valid() && unchanged(roster) && active.file == old(active.file)
      ensures match old(active.Loaded(readFails))
        case Failure(e) => err == Some(e) && count == 0 && unchanged(active)
        case Success(a) => err == None && active.isLoaded && active.data == Some(a) && count == |a|
    {
      count := 0;
      err := active.Load(readFails);
      if err.Some? {
        return;
      }
      count := |active.data.value|;
    }

    /** `setPlayerSkill`: an absent id is a silent no-op (nothing saved); a
        present one gets the given skill, unclamped. */
    method SetPlayerSkill(userId: string, skill: int, readFails: bool, writeFails: bool) returns (err: Option<Error>)
      requires Valid()
      modifies roster
      ensures Valid() && unchanged(active)
      ensures match old(roster.Loaded(readFails))
        case Failure(e) => err == Some(e) && unchanged(roster)
        case Success(m) =>
          roster.isLoaded &&
          if userId !in m then
            err == None && roster.data == Some(m) && roster.file == old(roster.file)
          else
            roster.data == Some(m[userId := m[userId].(skill := skill)]) &&
            roster.SaveOutcome(old(roster.file), writeFails, err)
    {
      err := roster.Load(readFails);
      if err.Some? {
        return;
      }
      var m := roster.data.value;
      if userId !in m {
        return None;
      }
      var player := m[userId];
      player := player.(skill := skill);
      roster.data := Some(m[userId := player]);
      err := roster.Save(writeFails);
    }

    /** `modifyPlayerSkill`: adds `diff` and clamps to [0, 100], returning the
        previous and the new skill; an absent id yields (0, 0) and changes
        nothing, but the roster is saved in every case. */
    method ModifyPlayerSkill(userId: string, diff: int, readFails: bool, writeFails: bool)
      returns (prev: int, next: int, err: Option<Error>)
      requires Valid()
      modifies roster
      ensures Valid() && unchanged(active)
      ensures match old(roster.Loaded(readFails))
        case Failure(e) => err == Some(e) && prev == 0 && next == 0 && unchanged(roster)
        case Success(m) =>
          roster.isLoaded &&
          (if userId in m then
             prev == m[userId].skill && next == Clamp(prev + diff) &&
             roster.data == Some(m[userId := m[userId].(skill := next)])
           else
             prev == 0 && next == 0 && roster.data == Some(m)) &&
          roster.SaveOutcome(old(roster.file), writeFails, err)
    {
      prev, next := 0, 0;
      err := roster.Load(readFails);
      if err.Some? {
        return;
      }
      var m := roster.data.value;
      if userId in m {
        var player := m[userId];
        prev := player.skill;
        var skill := player.skill + diff;
        if skill > MaxSkill {
          skill := MaxSkill;
        } else if skill < MinSkill {
          skill := MinSkill;
        }
        next := skill;
        roster.data := Some(m[userId := player.(skill := skill)]);
      }
      err := roster.Save(writeFails);
    }

    /** `getPlayer`: the roster entry of an id, and whether there is one. */
    method GetPlayer(userId: string, readFails: bool) returns (player: Player, ok: bool, err: Option<Error>)
      requires Valid()
      modifies roster
      ensures Valid() && unchanged(active) && roster.file == old(roster.file)
      ensures match old(roster.Loaded(readFails))
        case Failure(e) => err == Some(e) && !ok && player == Player("", 0) && unchanged(roster)
        case Success(m) =>
          err == None && roster.isLoaded && roster.data == Some(m) &&
          ok == (userId in m) && player == Lookup(m, userId)
    {
      player, ok := Player("", 0), false;
      err := roster.Load(readFails);
      if err.Some? {
        return;
      }
      var m := roster.data.value;
      ok := userId in m;
      player := Lookup(m, userId);
    }

    /** `getPlayers`: a copy of the whole roster. */
    method GetPlayers(readFails: bool) returns (players: map<string, Player>, err: Option<Error>)
      requires Valid()
      modifies roster
      ensures Valid() && unchanged(active) && roster.file == old(roster.file)
      ensures match old(roster.Loaded(readFails))
        case Failure(e) => err == Some(e) && players == map[] && unchanged(roster)
        case Success(m) => err == None && roster.isLoaded && roster.data == Some(m) && players == m
    {
      players := map[];
      err := roster.Load(readFails);
      if err.Some? {
        return;
      }
      players := roster.data.value;
    }

    /** `updatePlayerNames`: renames the ids that are already in the roster
        (others in `names` are skipped), never touches a skill, and saves. */
    method UpdatePlayerNames(names: map<string, string>, readFails: bool, writeFails: bool) returns (err: Option<Error>)
      requires Valid()
      modifies roster
      ensures Valid() && unchanged(active)
      ensures match old(roster.Loaded(readFails))
        case Failure(e) => err == Some(e) && unchanged(roster)
        case Success(m) =>
          roster.isLoaded && roster.data == Some(Renamed(m, names)) &&
          roster.SaveOutcome(old(roster.file), writeFails, err)
    {
      err := roster.Load(readFails);
      if err.Some? {
        return;
      }
      ghost var m := roster.data.value;
      var rest := names.Keys;
      assert names - rest == map[];
      assert Renamed(m, map[]) == m;
      while rest != {}
        invariant rest <= names.Keys
        invariant roster.Valid() && roster.isLoaded && roster.file == old(roster.file)
        invariant roster.data == Some(Renamed(m, names - rest))
        decreases rest
      {
        var userId :| userId in rest;
        RenameOne(m, names, rest, userId);
        rest := rest - {userId};
        var cur := roster.data.value;
        if userId in cur {
          var player := cur[userId];
          player := player.(name := names[userId]);
          roster.data := Some(cur[userId := player]);
        }
      }
      assert names - {} == names;
      err := roster.Save(writeFails);
    }

    /** `saveGuest`: inserts a guest under a fresh id; an id already in use
        is an error and nothing changes. */
    method SaveGuest(guestId: string, guestName: string, skill: int, readFails: bool, writeFails: bool)
      returns (err: Option<Error>)
      requires Valid()
      modifies roster
      ensures Valid() && unchanged(active)
      ensures match old(roster.Loaded(readFails))
        case Failure(e) => err == Some(e) && unchanged(roster)
        case Success(m) =>
          roster.isLoaded &&
          if guestId in m then
            err == Some(IdInUse(guestName)) && roster.data == Some(m) && roster.file == old(roster.file)
          else
            roster.data == Some(m[guestId := Player(guestName, skill)]) &&
            roster.SaveOutcome(old(roster.file), writeFails, err)
    {
      err := roster.Load(readFails);
      if err.Some? {
        return;
      }
      var m := roster.data.value;
      if guestId in m {
        return Some(IdInUse(guestName));
      }
      roster.data := Some(m[guestId := Player(guestName, skill)]);
      err := roster.Save(writeFails);
    }

    /** `renamePlayer`: an absent id is an error; otherwise only that entry's
        name changes. */
    method RenamePlayer(guestId: string, guestName: string, readFails: bool, writeFails: bool)
      returns (err: Option<Error>)
      requires Valid()
      modifies roster
      ensures Valid() && unchanged(active)
      ensures match old(roster.Loaded(readFails))
        case Failure(e) => err == Some(e) && unchanged(roster)
        case Success(m) =>
          roster.isLoaded &&
          if guestId !in m then
            err == Some(GuestNotFound(guestId)) && roster.data == Some(m) && roster.file == old(roster.file)
          else
            roster.data == Some(m[guestId := m[guestId].(name := guestName)]) &&
            roster.SaveOutcome(old(roster.file), writeFails, err)
    {
      err := roster.Load(readFails);
      if err.Some? {
        return;
      }
      var m := roster.data.value;
      if guestId !in m {
        return Some(GuestNotFound(guestId));
      }
      var player := m[guestId];
      player := player.(name := guestName);
      roster.data := Some(m[guestId := player]);
      err := roster.Save(writeFails);
    }
  }

  /** A freshly started server whose files hold user "u" in both collections:
      `DeleteUser` succeeds, yet the active-set file still lists "u", so a
      later `GetPlaying` hands the team balancer a nameless zero player. */
  method DeleteUserLeavesStaleActiveEntry() returns (activeFile: FileState<()>, rosterFile: FileState<Player>)
    ensures rosterFile == Holds(Some(map[]))
    ensures activeFile == Holds(Some(map["u" := ()]))
  {
    var g := new Guild(Holds(Some(map["u" := Player("Ann", 50)])), Holds(Some(map["u" := ()])));
    var err := g.DeleteUser("u", false, false);
    assert map["u" := Player("Ann", 50)] - {"u"} == map[];
    activeFile, rosterFile := g.active.file, g.roster.file;
  }

  /** The same start with the corrected deletion: the id leaves the active-set
      file too. */
  method DeleteUserIntendedCleansActiveFile() returns (activeFile: FileState<()>, rosterFile: FileState<Player>)
    ensures rosterFile == Holds(Some(map[]))
    ensures activeFile == Holds(Some(map[]))
  {
    var g := new Guild(Holds(Some(map["u" := Player("Ann", 50)])), Holds(Some(map["u" := ()])));
    var err := g.DeleteUserIntended("u", false, false);
    assert map["u" := Player("Ann", 50)] - {"u"} == map[];
    assert map["u" := ()] - {"u"} == map[];
    activeFile, rosterFile := g.active.file, g.roster.file;
  }
}
