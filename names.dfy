/** Display names of server members (internal/commands/utils.go).

    A user's name is cached in the roster; on a miss it is fetched from the
    chat service's member record, which is modelled as the `member` argument
    (`None` when the lookup fails). */
module Names {
  import opened Wrappers
  import opened Persistent

  /** The user part of a member record. */
  datatype User = User(globalName: string, username: string)

  /** A member of a server: a per-server nickname and the user. */
  datatype Member = Member(nick: string, user: User)

  /** The first non-empty name of a list in order of preference, or "". */
  function FirstNonEmpty(names: seq<string>): (r: string)
    ensures r == "" || r in names
    ensures r == "" <==> forall i :: 0 <= i < |names| ==> names[i] == ""
  {
    if names == [] then ""
    else if names[0] != "" then names[0]
    else
      var rest := FirstNonEmpty(names[1..]);
      assert forall i :: 1 <= i < |names| ==> names[i] == names[1..][i - 1];
      rest
  }

  /** `getNameFromMember`: the nickname, else the global name, else the
      username. */
  function NameFromMember(member: Member): (name: string)
    ensures name in {member.nick, member.user.globalName, member.user.username}
  {
    if member.nick != "" then member.nick
    else if member.user.globalName != "" then member.user.globalName
    else member.user.username
  }

  /** The name chosen is the most preferred one that is set. */
  lemma NameIsMostPreferred(member: Member)
    ensures NameFromMember(member) == FirstNonEmpty([member.nick, member.user.globalName, member.user.username])
    ensures NameFromMember(member) == "" <==>
            member.nick == "" && member.user.globalName == "" && member.user.username == ""
  {
    var names := [member.nick, member.user.globalName, member.user.username];
    assert names[1..] == [member.user.globalName, member.user.username];
    assert names[1..][1..] == [member.user.username];
    assert names[1..][1..][1..] == [];
    assert FirstNonEmpty([member.user.username]) == member.user.username;
    assert FirstNonEmpty(names[1..]) ==
           if member.user.globalName != "" then member.user.globalName else member.user.username;
  }

  /** `getUserName`: the cached name; on a miss, the name from the member
      record, which is then cached with an unset skill (a failure to save is
      ignored).  A failed member lookup is an error. */
  method GetUserName(g: Guild, userId: string, member: Option<Member>, readFails: bool, writeFails: bool)
    returns (name: string, err: Option<Error>)
    requires g.Valid()
    modifies g.roster
    ensures g.Valid() && unchanged(g.active)
    ensures match old(g.roster.Loaded(readFails))
      case Failure(e) => err == Some(e) && name == "" && unchanged(g.roster)
      case Success(m) =>
        g.roster.isLoaded &&
        if userId in m then
          err == None && name == m[userId].name && g.roster.data == Some(m) && g.roster.file == old(g.roster.file)
        else if member.None? then
          err == Some(UserInfoUnavailable) && name == "" &&
          g.roster.data == Some(m) && g.roster.file == old(g.roster.file)
        else
          err == None && name == NameFromMember(member.value) &&
          g.roster.data == Some(m[userId := Player(name, UnsetSkill)]) &&
          if writeFails then g.roster.file == old(g.roster.file) else g.roster.file == Holds(g.roster.data)
  {
    var ok;
    name, ok, err := g.LoadUserName(userId, readFails);
    if err.Some? {
      return "", err;
    }
    if !ok {
      if member.None? {
        return "", Some(UserInfoUnavailable);
      }
      name := NameFromMember(member.value);
      var ignored := g.SaveUserName(userId, name, readFails, writeFails);
    }
  }
}
