/** The `/guest` sub-commands (internal/commands/cmds_guests.go).

    A guest is a player outside the server, represented by a server role: its
    roster id is the role id prefixed with `g`.  Every handler takes the
    server's two persistent collections (a `Guild`), the user's options and
    the outcome of the calls it makes to the chat service, and returns what
    it replies.  The I/O outcomes are the `readFails` / `writeFails` flags of
    the store. */
module Guests {
  import opened Wrappers
  import opened Persistent

  /** What a guest handler replies. */
  datatype Reply =
    | Failed(err: Error)                    // the store's error text
    | RoleCreateFailed                      // the chat service refused to create the role
    | NameExists(name: string)
    | NotAGuest                             // the role is not a guest's
    | Added(name: string, skill: int)       // without a rank when the skill is unset
    | Removed(name: string)
    | AddedToPlaying(name: string)
    | RemovedFromPlaying(name: string)
    | SkillSet(name: string, skill: int)
    | Increased(name: string, prev: int, next: int)
    | Decreased(name: string, prev: int, next: int)
    | SkillShown(name: string, skill: int)
    | Listing(guests: seq<Player>)
    | Crashed                               // an index out of range aborts the handler

  /** The error a reply carries, if any. */
  function ErrorOf(reply: Reply): Option<Error>
  {
    if reply.Failed? then Some(reply.err) else None
  }

  /** The reply after a store call that ended with `err`. */
  function Outcome(err: Option<Error>, success: Reply): (reply: Reply)
    requires !success.Failed?
    ensures ErrorOf(reply) == err
    ensures err.None? <==> reply == success
  {
    if err.Some? then Failed(err.value) else success
  }

  /** A roster id that the guest listing takes for a guest's. */
  predicate IsGuestKey(id: string)
  {
    |id| > 0 && id[0] == 'g'
  }

  /** The roster id of the guest a role represents. */
  function GuestId(roleId: string): (id: string)
    ensures IsGuestKey(id) && id[1..] == roleId && |id| == |roleId| + 1
  {
    "g" + roleId
  }

  /** Distinct roles name distinct guests, and every guest key names a role. */
  lemma GuestIdsOfRoles(r1: string, r2: string, id: string)
    ensures GuestId(r1) == GuestId(r2) <==> r1 == r2
    ensures IsGuestKey(id) <==> |id| > 0 && id == GuestId(id[1..])
  {
    if GuestId(r1) == GuestId(r2) {
      assert r1 == GuestId(r1)[1..] == GuestId(r2)[1..] == r2;
    }
    if IsGuestKey(id) {
      assert id == [id[0]] + id[1..];
    }
  }

  /** Adding or removing one id, as the store's set operations do it. */
  lemma OneId(a: map<string, ()>, id: string)
    ensures AddIds(a, [id]) == a[id := ()]
    ensures RemoveIds(a, [id]) == a - {id}
    ensures AllIn([id], a) <==> id in a
    ensures AnyIn([id], a) <==> id in a
  {
    assert Ids([id]) == {id};
    SameIdsSameSet(AddIds(a, [id]), a[id := ()]);
  }

  /** Whether some roster entry already has this name (the scan of `addGuest`). */
  method NameTaken(players: map<string, Player>, name: string) returns (taken: bool)
    ensures taken <==> exists id :: id in players && players[id].name == name
  {
    var rest := players.Keys;
    while rest != {}
      invariant rest <= players.Keys
      invariant forall id :: id in players && id !in rest ==> players[id].name != name
      decreases rest
    {
      var id :| id in rest;
      if players[id].name == name {
        return true;
      }
      rest := rest - {id};
    }
    return false;
  }

  /** `addGuest`: refuses a name already on the roster, creates the role
      (`roleId` is what the chat service returned, `None` if it failed) and
      saves the guest under `g` + role id with the given skill, unset if none. */
  method AddGuest(g: Guild, guestName: string, skill: Option<int>, roleId: Option<string>,
                  readFails: bool, writeFails: bool) returns (reply: Reply)
    requires g.Valid()
    modifies g.roster
    ensures g.Valid() && unchanged(g.active)
    ensures var rank := if skill.Some? then skill.value else UnsetSkill;
      match old(g.roster.Loaded(readFails))
      case Failure(e) => reply == Failed(e) && unchanged(g.roster)
      case Success(m) =>
        g.roster.isLoaded &&
        if (exists id :: id in m && m[id].name == guestName) then
          reply == NameExists(guestName) && g.roster.data == Some(m) && g.roster.file == old(g.roster.file)
        else if roleId.None? then
          reply == RoleCreateFailed && g.roster.data == Some(m) && g.roster.file == old(g.roster.file)
        else if GuestId(roleId.value) in m then
          reply == Failed(IdInUse(guestName)) && g.roster.data == Some(m) && g.roster.file == old(g.roster.file)
        else
          g.roster.data == Some(m[GuestId(roleId.value) := Player(guestName, rank)]) &&
          g.roster.SaveOutcome(old(g.roster.file), writeFails, ErrorOf(reply)) &&
          reply == Outcome(ErrorOf(reply), Added(guestName, rank))
  {
    var rank := if skill.Some? then skill.value else UnsetSkill;
    var players, err := g.GetPlayers(readFails);
    if err.Some? {
      return Failed(err.value);
    }
    var taken := NameTaken(players, guestName);
    if taken {
      return NameExists(guestName);
    }
    if roleId.None? {
      return RoleCreateFailed;
    }
    err := g.SaveGuest(GuestId(roleId.value), guestName, rank, readFails, writeFails);
    reply := Outcome(err, Added(guestName, rank));
  }

  /** `removeGuest`: deletes the guest's roster entry and its place in the
      active set (through `deleteUsers` with the one id) and replies with the
      name read before.  Deleting the role is fire-and-forget. */
  method RemoveGuest(g: Guild, roleId: string, readFails: bool, writeFails: bool) returns (reply: Reply)
    requires g.Valid()
    modifies g.roster, g.active
    ensures g.Valid()
    ensures var id := GuestId(roleId);
      match old(g.roster.Loaded(readFails))
      case Failure(e) => reply == Failed(e) && unchanged(g.roster, g.active)
      case Success(m) =>
        g.roster.isLoaded &&
        if id !in m then
          reply == NotAGuest && g.roster.data == Some(m) && g.roster.file == old(g.roster.file) && unchanged(g.active)
        else
          g.roster.data == Some(m - {id}) &&
          if writeFails then
            reply == Failed(WriteFailed) && g.roster.file == old(g.roster.file) && unchanged(g.active)
          else
            g.roster.file == Holds(Some(m - {id})) &&
            match old(g.active.Loaded(readFails))
            case Failure(e) => reply == Failed(e) && unchanged(g.active)
            case Success(a) =>
              reply == Removed(m[id].name) && g.active.isLoaded &&
              g.active.data == Some(a - {id}) && g.active.file == Holds(g.active.data)
  {
    var id := GuestId(roleId);
    var player, ok, err := g.GetPlayer(id, readFails);
    if err.Some? {
      return Failed(err.value);
    }
    if !ok {
      return NotAGuest;
    }
    assert DeleteEach(g.roster.data.value, [id]) == (g.roster.data.value - {id}, 1);
    assert Ids([id]) == {id};
    err := g.DeleteUsers([id], readFails, writeFails);
    reply := Outcome(err, Removed(player.name));
  }

  /** `addGuestToPlaying`: puts the guest's id in the active set. */
  method AddGuestToPlaying(g: Guild, roleId: string, readFails: bool, writeFails: bool) returns (reply: Reply)
    requires g.Valid()
    modifies g.roster, g.active
    ensures g.Valid()
    ensures var id := GuestId(roleId);
      match old(g.roster.Loaded(readFails))
      case Failure(e) => reply == Failed(e) && unchanged(g.roster, g.active)
      case Success(m) =>
        g.roster.isLoaded && g.roster.data == Some(m) && g.roster.file == old(g.roster.file) &&
        if id !in m then reply == NotAGuest && unchanged(g.active)
        else
          match old(g.active.Loaded(readFails))
          case Failure(e) => reply == Failed(e) && unchanged(g.active)
          case Success(a) =>
            g.active.isLoaded && g.active.data == Some(a[id := ()]) &&
            if id in a then reply == AddedToPlaying(m[id].name) && g.active.file == old(g.active.file)
            else g.active.SaveOutcome(old(g.active.file), writeFails, ErrorOf(reply)) &&
                 reply == Outcome(ErrorOf(reply), AddedToPlaying(m[id].name))
  {
    var id := GuestId(roleId);
    var player, ok, err := g.GetPlayer(id, readFails);
    if err.Some? {
      return Failed(err.value);
    }
    if !ok {
      return NotAGuest;
    }
    ghost var a := g.active.Loaded(readFails);
    if a.Success? {
      OneId(a.value, id);
    }
    err := g.AddPlayingUsers([id], readFails, writeFails);
    reply := Outcome(err, AddedToPlaying(player.name));
  }

  /** `removeGuestFromPlaying`, as written: after checking the guest exists it
      ADDS the bare role id (without the `g`) to the active set, so the guest
      stays in the game and a nameless id joins it. */
  method RemoveGuestFromPlaying(g: Guild, roleId: string, readFails: bool, writeFails: bool) returns (reply: Reply)
    requires g.Valid()
    modifies g.roster, g.active
    ensures g.Valid()
    ensures var id := GuestId(roleId);
      match old(g.roster.Loaded(readFails))
      case Failure(e) => reply == Failed(e) && unchanged(g.roster, g.active)
      case Success(m) =>
        g.roster.isLoaded && g.roster.data == Some(m) && g.roster.file == old(g.roster.file) &&
        if id !in m then reply == NotAGuest && unchanged(g.active)
        else
          match old(g.active.Loaded(readFails))
          case Failure(e) => reply == Failed(e) && unchanged(g.active)
          case Success(a) =>
            g.active.isLoaded && g.active.data == Some(a[roleId := ()]) &&
            if roleId in a then reply == RemovedFromPlaying(m[id].name) && g.active.file == old(g.active.file)
            else g.active.SaveOutcome(old(g.active.file), writeFails, ErrorOf(reply)) &&
                 reply == Outcome(ErrorOf(reply), RemovedFromPlaying(m[id].name))
  {
    var id := GuestId(roleId);
    var player, ok, err := g.GetPlayer(id, readFails);
    if err.Some? {
      return Failed(err.value);
    }
    if !ok {
      return NotAGuest;
    }
    ghost var a := g.active.Loaded(readFails);
    if a.Success? {
      OneId(a.value, roleId);
    }
    err := g.AddPlayingUsers([roleId], readFails, writeFails);
    reply := Outcome(err, RemovedFromPlaying(player.name));
  }

  /** `removeGuestFromPlaying` as evidently intended: takes the guest's id out
      of the active set. */
  method RemoveGuestFromPlayingIntended(g: Guild, roleId: string, readFails: bool, writeFails: bool)
    returns (reply: Reply)
    requires g.Valid()
    modifies g.roster, g.active
    ensures g.Valid()
    ensures var id := GuestId(roleId);
      match old(g.roster.Loaded(readFails))
      case Failure(e) => reply == Failed(e) && unchanged(g.roster, g.active)
      case Success(m) =>
        g.roster.isLoaded && g.roster.data == Some(m) && g.roster.file == old(g.roster.file) &&
        if id !in m then reply == NotAGuest && unchanged(g.active)
        else
          match old(g.active.Loaded(readFails))
          case Failure(e) => reply == Failed(e) && unchanged(g.active)
          case Success(a) =>
            g.active.isLoaded && g.active.data == Some(a - {id}) && id !in g.active.data.value &&
            if id !in a then reply == RemovedFromPlaying(m[id].name) && g.active.file == old(g.active.file)
            else g.active.SaveOutcome(old(g.active.file), writeFails, ErrorOf(reply)) &&
                 reply == Outcome(ErrorOf(reply), RemovedFromPlaying(m[id].name))
  {
    var id := GuestId(roleId);
    var player, ok, err := g.GetPlayer(id, readFails);
    if err.Some? {
      return Failed(err.value);
    }
    if !ok {
      return NotAGuest;
    }
    ghost var a := g.active.Loaded(readFails);
    if a.Success? {
      OneId(a.value, id);
    }
    err := g.RemovePlayingUsers([id], readFails, writeFails);
    reply := Outcome(err, RemovedFromPlaying(player.name));
  }

  /** `setGuestSkill`: sets the guest's skill as given. */
  method SetGuestSkill(g: Guild, roleId: string, skill: int, readFails: bool, writeFails: bool) returns (reply: Reply)
    requires g.Valid()
    modifies g.roster
    ensures g.Valid() && unchanged(g.active)
    ensures var id := GuestId(roleId);
      match old(g.roster.Loaded(readFails))
      case Failure(e) => reply == Failed(e) && unchanged(g.roster)
      case Success(m) =>
        g.roster.isLoaded &&
        if id !in m then reply == NotAGuest && g.roster.data == Some(m) && g.roster.file == old(g.roster.file)
        else
          g.roster.data == Some(m[id := m[id].(skill := skill)]) &&
          g.roster.SaveOutcome(old(g.roster.file), writeFails, ErrorOf(reply)) &&
          reply == Outcome(ErrorOf(reply), SkillSet(m[id].name, skill))
  {
    var id := GuestId(roleId);
    var player, ok, err := g.GetPlayer(id, readFails);
    if err.Some? {
      return Failed(err.value);
    }
    if !ok {
      return NotAGuest;
    }
    err := g.SetPlayerSkill(id, skill, readFails, writeFails);
    reply := Outcome(err, SkillSet(player.name, skill));
  }

  /** `increaseGuestSkill` (`decrease` is false) and `decreaseGuestSkill`
      (`decrease` is true): moves the guest's skill by the amount, clamped to
      [0, 100], and reports the skill before and after. */
  method ChangeGuestSkill(g: Guild, roleId: string, amount: int, decrease: bool, readFails: bool, writeFails: bool)
    returns (reply: Reply)
    requires g.Valid()
    modifies g.roster
    ensures g.Valid() && unchanged(g.active)
    ensures var id := GuestId(roleId);
      var diff := if decrease then -amount else amount;
      match old(g.roster.Loaded(readFails))
      case Failure(e) => reply == Failed(e) && unchanged(g.roster)
      case Success(m) =>
        g.roster.isLoaded &&
        if id !in m then reply == NotAGuest && g.roster.data == Some(m) && g.roster.file == old(g.roster.file)
        else
          var next := Clamp(m[id].skill + diff);
          g.roster.data == Some(m[id := m[id].(skill := next)]) &&
          g.roster.SaveOutcome(old(g.roster.file), writeFails, ErrorOf(reply)) &&
          reply == Outcome(ErrorOf(reply),
                           if decrease then Decreased(m[id].name, m[id].skill, next)
                           else Increased(m[id].name, m[id].skill, next))
  {
    var id := GuestId(roleId);
    var player, ok, err := g.GetPlayer(id, readFails);
    if err.Some? {
      return Failed(err.value);
    }
    if !ok {
      return NotAGuest;
    }
    var prev, next;
    prev, next, err := g.ModifyPlayerSkill(id, if decrease then -amount else amount, readFails, writeFails);
    reply := Outcome(err, if decrease then Decreased(player.name, prev, next) else Increased(player.name, prev, next));
  }

  /** `showGuestSkill`: the guest's name and skill. */
  method ShowGuestSkill(g: Guild, roleId: string, readFails: bool) returns (reply: Reply)
    requires g.Valid()
    modifies g.roster
    ensures g.Valid() && unchanged(g.active) && g.roster.file == old(g.roster.file)
    ensures var id := GuestId(roleId);
      match old(g.roster.Loaded(readFails))
      case Failure(e) => reply == Failed(e) && unchanged(g.roster)
      case Success(m) =>
        g.roster.isLoaded && g.roster.data == Some(m) &&
        reply == if id in m then SkillShown(m[id].name, m[id].skill) else NotAGuest
  {
    var player, ok, err := g.GetPlayer(GuestId(roleId), readFails);
    if err.Some? {
      return Failed(err.value);
    }
    if !ok {
      return NotAGuest;
    }
    reply := SkillShown(player.name, player.skill);
  }

  // ---------------------------------------------------------------------
  // The guest listing

  /** Highest skill first. */
  predicate BySkillDescending(s: seq<Player>)
  {
    forall i, j :: 0 <= i < j < |s| ==> s[i].skill >= s[j].skill
  }

  /** A player at least as skilled as the head of an ordered list can go in
      front of it. */
  lemma ConsDescending(x: Player, s: seq<Player>)
    requires BySkillDescending(s) && (s == [] || x.skill >= s[0].skill)
    ensures BySkillDescending([x] + s)
  {
    var r := [x] + s;
    forall i, j | 0 <= i < j < |r|
      ensures r[i].skill >= r[j].skill
    {
      if i == 0 {
        assert r[j] == s[j - 1];
        assert s[0].skill >= s[j - 1].skill;
      } else {
        assert r[i] == s[i - 1] && r[j] == s[j - 1];
      }
    }
  }

  /** Places `p` into a list ordered highest skill first. */
  function Insert(p: Player, sorted: seq<Player>): (r: seq<Player>)
    requires BySkillDescending(sorted)
    ensures |r| == |sorted| + 1
    ensures r[0] == p || (sorted != [] && r[0] == sorted[0])
    ensures BySkillDescending(r)
    ensures multiset(r) == multiset(sorted) + multiset{p}
  {
    if sorted == [] then [p]
    else if sorted[0].skill >= p.skill then
      assert BySkillDescending(sorted[1..]);
      var tail := Insert(p, sorted[1..]);
      assert sorted == [sorted[0]] + sorted[1..];
      ConsDescending(sorted[0], tail);
      [sorted[0]] + tail
    else
      ConsDescending(p, sorted);
      [p] + sorted
  }

  /** `sort.Slice` by descending skill: ordered and a permutation (the
      source's sort is not stable, so equal skills may come in any order). */
  method SortBySkill(s: seq<Player>) returns (sorted: seq<Player>)
    ensures BySkillDescending(sorted) && multiset(sorted) == multiset(s)
  {
    sorted := [];
    for i := 0 to |s|
      invariant BySkillDescending(sorted) && multiset(sorted) == multiset(s[..i])
    {
      assert s[..i + 1] == s[..i] + [s[i]];
      sorted := Insert(s[i], sorted);
    }
    assert s[..|s|] == s;
  }

  /** The roster entries under the ids of `order`. */
  function EntriesOf(players: map<string, Player>, order: seq<string>): (r: seq<Player>)
    requires forall i :: 0 <= i < |order| ==> order[i] in players
    ensures |r| == |order|
  {
    seq(|order|, i requires 0 <= i < |order| => players[order[i]])
  }

  /** The guest ids of a roster: those starting with `g`. */
  function GuestKeys(players: map<string, Player>): set<string>
  {
    set id | id in players && IsGuestKey(id)
  }

  /** The filter of `showAllGuests`: every roster entry whose id starts with
      `g`, in map order (`order`), then sorted highest skill first.  An empty
      id aborts the handler, as indexing its first byte does. */
  method ListGuests(players: map<string, Player>) returns (guests: seq<Player>, ghost order: seq<string>, crashed: bool)
    ensures crashed <==> "" in players
    ensures !crashed ==>
      (forall i, j :: 0 <= i < j < |order| ==> order[i] != order[j]) &&
      (forall i :: 0 <= i < |order| ==> order[i] in GuestKeys(players)) &&
      (forall id :: id in GuestKeys(players) ==> id in order) &&
      multiset(guests) == multiset(EntriesOf(players, order)) &&
      BySkillDescending(guests)
    ensures crashed ==> guests == [] && order == []
  {
    guests, order, crashed := [], [], false;
    if "" in players {
      return [], [], true;
    }
    var found: seq<Player> := [];
    var rest := players.Keys;
    while rest != {}
      invariant rest <= players.Keys
      invariant forall i, j :: 0 <= i < j < |order| ==> order[i] != order[j]
      invariant forall i :: 0 <= i < |order| ==> order[i] in GuestKeys(players) && order[i] !in rest
      invariant forall id :: id in GuestKeys(players) && id !in rest ==> id in order
      invariant found == EntriesOf(players, order)
      decreases rest
    {
      var id :| id in rest;
      rest := rest - {id};
      if id[0] != 'g' {
        continue;
      }
      order := order + [id];
      found := found + [players[id]];
    }
    guests := SortBySkill(found);
  }

  /** `showAllGuests`: the listing of the roster's guests, or the store's error. */
  method ShowAllGuests(g: Guild, readFails: bool) returns (reply: Reply, ghost order: seq<string>)
    requires g.Valid()
    modifies g.roster
    ensures g.Valid() && unchanged(g.active) && g.roster.file == old(g.roster.file)
    ensures match old(g.roster.Loaded(readFails))
      case Failure(e) => reply == Failed(e) && unchanged(g.roster)
      case Success(m) =>
        g.roster.isLoaded && g.roster.data == Some(m) &&
        if "" in m then reply == Crashed
        else
          reply.Listing? &&
          (forall i :: 0 <= i < |order| ==> order[i] in GuestKeys(m)) &&
          (forall id :: id in GuestKeys(m) ==> id in order) &&
          (forall i, j :: 0 <= i < j < |order| ==> order[i] != order[j]) &&
          multiset(reply.guests) == multiset(EntriesOf(m, order)) &&
          BySkillDescending(reply.guests)
  {
    order := [];
    var players, err := g.GetPlayers(readFails);
    if err.Some? {
      return Failed(err.value), [];
    }
    var guests, crashed;
    guests, order, crashed := ListGuests(players);
    if crashed {
      return Crashed, order;
    }
    reply := Listing(guests);
  }

  // ---------------------------------------------------------------------
  // Removing a guest from the game, as written and as intended

  /** A freshly started server whose roster holds guest "g7" (role "7") and
      whose active set holds only that guest: `/guest playing_remove` on role
      "7" replies that the guest was removed, yet the saved active set still
      holds "g7" and now also "7". */
  method RemoveGuestFromPlayingKeepsGuest() returns (reply: Reply, activeFile: FileState<()>)
    ensures reply == RemovedFromPlaying("Ann")
    ensures activeFile == Holds(Some(map["g7" := (), "7" := ()]))
  {
    var g := new Guild(Holds(Some(map["g7" := Player("Ann", 50)])), Holds(Some(map["g7" := ()])));
    assert GuestId("7") == "g7";
    reply := RemoveGuestFromPlaying(g, "7", false, false);
    activeFile := g.active.file;
    assert map["g7" := ()]["7" := ()] == map["g7" := (), "7" := ()];
  }

  /** The same server and command as intended: the active set is left empty. */
  method RemoveGuestFromPlayingIntendedEmptiesGame() returns (reply: Reply, activeFile: FileState<()>)
    ensures reply == RemovedFromPlaying("Ann")
    ensures activeFile == Holds(Some(map[]))
  {
    var g := new Guild(Holds(Some(map["g7" := Player("Ann", 50)])), Holds(Some(map["g7" := ()])));
    assert GuestId("7") == "g7";
    reply := RemoveGuestFromPlayingIntended(g, "7", false, false);
    activeFile := g.active.file;
    assert map["g7" := ()] - {"g7"} == map[];
  }
}
