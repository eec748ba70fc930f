# spikebot core, modelled in Dafny

spikebot is a chat bot that tracks, per server, a roster of players with a
skill rank (0 to 100, or unset) and the set of players taking part in the
next game. It splits the active players into teams of near-equal average
skill. This project models four parts of it:

- **The persistent store** (`persistent.dfy`, module `Persistent`). Each
  server has two lazily loaded, file-backed objects: the roster (user id to
  name and skill) and the active set of ids. `PersistentObject` holds the
  in-memory value, the `isLoaded` flag and what the backing file holds.
  `Guild` holds a server's two objects. Every roster or active-set
  operation is a method on `Guild` that loads, changes and saves them.
- **The `/teams` balancer** (`teams.dfy`, module `Teams`). The
  specification functions are `TeamSizes`, `Shuffle` (the Fisher-Yates
  shuffle of `rand.Shuffle`), `Averages`, `Gap` and the search `Search`.
  `CmdTeams` is the reply as written and `CmdTeamsIntended` the corrected
  one. The imperative `BalanceTeams` works over arrays as the source does
  and is proved to equal `CmdTeams`.
- **The `/guest` sub-commands** (`guests.dfy`, module `Guests`). A guest is
  a server role whose roster id is `g` + role id. The module covers adding,
  removing, joining and leaving the game, setting and moving skill, and
  showing one guest or all of them.
- **User names** (`names.dfy`, module `Names`) and **long replies**
  (`responder.dfy`, module `Responder`). A reply over 2000 bytes is cut near
  the limit, preferably at a newline and otherwise at white space. A
  continuation prompt is added, and the trimmed rest waits in a per-server
  buffer for `/continue`.

The outside world is passed in as parameters:

- **File-system outcome.** `readFails` and `writeFails` say whether the
  reads and the writes of one call fail.
- **Chat service results.** Parameters carry what it returns: the member
  record, the created role id, whether a send fails.
- **Randomness and the time budget.** `rolls` holds one list of draws per
  shuffle. Its length is the number of shuffles that fit in the 100 ms
  budget.
- **Numbers.** `float64` averages are exact reals.
- **Messages.** They are byte sequences, as Go strings are.

## Model

| member | source | states |
|---|---|---|
| Persistent.Decode | internal/commands/persistent.go:62-95 | (specification function, used by the rows below) a missing directory or file loads as the empty map; a read or decode error is returned; a nil (`null`) value is replaced by the empty map |
| Persistent.SavedValueReloads | internal/commands/persistent.go:62-117 | a map written by a successful save is loaded back unchanged, and a stored nil map loads as the empty map; with JSON abstracted into `FileState`, this round trip holds by construction of `Decode` |
| Persistent.PersistentObject.constructor | internal/commands/persistent.go:25-42 | a new object is not loaded, holds the nil map and is backed by the given file |
| Persistent.PersistentObject.Load | internal/commands/persistent.go:62-95 | once loaded, Load changes nothing and succeeds; otherwise memory holds exactly what `Decode` yields, or the error is returned and nothing changes |
| Persistent.PersistentObject.Save | internal/commands/persistent.go:97-117 | a nil value is refused ("saved object is not valid") and the file is kept; a failed write keeps the previous file (temporary file then rename); otherwise the file holds the in-memory value; memory is never changed |
| Persistent.Clamp | internal/commands/persistent.go:333-337 | the result is within [0, 100], equals the input when it is in range, and is the nearer bound otherwise |
| Persistent.ApplyDiffsInRange | internal/commands/persistent.go:323-342 | after any non-empty series of skill changes the skill is within [0, 100], whatever it started at; the induction only carries `Clamp`'s range through the steps |
| Persistent.Renamed | internal/commands/persistent.go:369-386 | renaming keeps the set of ids and every skill; an id in the name map gets its new name and every other id keeps its old one |
| Persistent.Lookup | internal/commands/persistent.go:344-353 | (specification function) a Go map read: the stored player, or the zero player (empty name, skill 0) for an absent id; `Guild.GetPlayer` and `Guild.GetPlaying` are specified with it |
| Persistent.DeleteEach | internal/commands/persistent.go:186-204 | (specification function) the roster loop of `deleteUsers`: deletes the ids in order and stops at the first absent one, returning the roster left and how many were deleted; `DeleteEachRemovesPrefix` states what it removes and `Guild.DeleteUsers` is specified with it |
| Persistent.DeleteEachRemovesPrefix | internal/commands/persistent.go:186-204 | the deletion loop stops at the first missing id: the roster loses exactly the ids before that point, and the id at the stop is not in it |
| Persistent.AddIds | internal/commands/persistent.go:222-240 | (specification function) the active set after `addPlayingUsers`: its ids together with the given ones; `AddChangesIff` and `AddRemoveInverse` state its properties and `Guild.AddPlayingUsers` is specified with it |
| Persistent.RemoveIds | internal/commands/persistent.go:242-260 | (specification function) the active set after `removePlayingUsers`: its ids without the given ones; `RemoveChangesIff` and `AddRemoveInverse` state its properties and `Guild.RemovePlayingUsers` is specified with it |
| Persistent.AddChangesIff | internal/commands/persistent.go:222-240 | adding ids leaves the active set unchanged if and only if every id was already in it (the condition under which no save is done) |
| Persistent.RemoveChangesIff | internal/commands/persistent.go:242-260 | removing ids leaves the active set unchanged if and only if none of them was in it |
| Persistent.AddRemoveInverse | internal/commands/persistent.go:222-260 | adding and removing are idempotent, and removing after adding the same ids equals removing alone |
| Persistent.Guild.constructor | internal/commands/persistent.go:25-42 | a server starts with both objects unloaded, over the given roster and active-set files |
| Persistent.Guild.LoadUserName | internal/commands/persistent.go:124-136 | on a successful load, reports whether the id is in the roster and its cached name; a load error is returned; no file changes |
| Persistent.Guild.SaveUserName | internal/commands/persistent.go:138-153 | an id already in the roster is left as it is; a new one is stored with the name and an unset skill (-1) and saved; a load error changes nothing |
| Persistent.Guild.DeleteUser | internal/commands/persistent.go:155-184 | as written: an unknown id is an error; the roster loses the id and is saved; the active set is changed and saved only if it was already in memory and holds the id, because line 174 loads the roster instead of the active set |
| Persistent.Guild.DeleteUserIntended | internal/commands/persistent.go:155-184 | corrected: on success the id is in neither the roster nor the active set, and the active file is rewritten whenever it held the id |
| Persistent.Guild.DeleteUsers | internal/commands/persistent.go:186-220 | deletes ids in order and stops at the first unknown one with an error; the roster is saved if anything was deleted; when all were found, the active set loses all of them and is saved; a failed roster write stops after the first deletion |
| Persistent.Guild.PurgePlaying | internal/commands/persistent.go:205-219 | the active set loses every given id and is saved; a load error changes nothing |
| Persistent.Guild.AddPlayingUsers | internal/commands/persistent.go:222-240 | the active set gains every id; it is saved only when it changed; the roster is untouched |
| Persistent.Guild.RemovePlayingUsers | internal/commands/persistent.go:242-260 | the active set loses every id; it is saved only when it changed; the roster is untouched |
| Persistent.Guild.ClearPlayingUsers | internal/commands/persistent.go:262-268 | the active set becomes empty without being loaded first and is saved |
| Persistent.Guild.GetPlaying | internal/commands/persistent.go:270-294 | returns one player per active id, each id once; an active id missing from the roster gives the zero player; either load error is returned; no file changes |
| Persistent.Guild.GetPlayingCount | internal/commands/persistent.go:296-304 | returns the size of the active set, or the load error |
| Persistent.Guild.SetPlayerSkill | internal/commands/persistent.go:306-321 | a known id gets exactly the given skill, not clamped, and the roster is saved; an unknown id is silently ignored |
| Persistent.Guild.ModifyPlayerSkill | internal/commands/persistent.go:323-342 | a known id's skill moves by the difference and is clamped to [0, 100]; the previous and new skills are returned; the roster is saved even when the id is unknown |
| Persistent.Guild.GetPlayer | internal/commands/persistent.go:344-353 | returns whether the id is in the roster and its entry (the zero player otherwise), or the load error |
| Persistent.Guild.GetPlayers | internal/commands/persistent.go:355-367 | returns the whole roster, or the load error and an empty map |
| Persistent.Guild.UpdatePlayerNames | internal/commands/persistent.go:369-386 | the roster becomes `Renamed(roster, names)` and is saved |
| Persistent.Guild.SaveGuest | internal/commands/persistent.go:388-405 | an id already in use is an error and changes nothing; otherwise the guest is added with its name and skill and the roster is saved |
| Persistent.Guild.RenamePlayer | internal/commands/persistent.go:407-423 | an unknown id is an error; otherwise only that entry's name changes, and the roster is saved |
| Persistent.DeleteUserLeavesStaleActiveEntry | internal/commands/persistent.go:170-182 | on a freshly started server whose roster and active set both hold "u", deleting "u" empties the roster file but leaves "u" in the active file |
| Persistent.DeleteUserIntendedCleansActiveFile | internal/commands/persistent.go:155-184 | on the same server, the corrected deletion empties both files |
| Teams.TeamSizes | internal/commands/cmds_teams.go:60-67 | there is one size per team, the sizes add up to the number of players, they never grow from one team to the next and differ by at most one, and every team has a player when there are at least as many players as teams |
| Teams.Swap | internal/commands/cmds_teams.go:71-73 | swapping two positions keeps the length |
| Teams.SwapPermutes | internal/commands/cmds_teams.go:71-73 | swapping two positions keeps the multiset of indices |
| Teams.Pick | internal/commands/cmds_teams.go:71-73 | the draw for position `i` is below `i + 1` |
| Teams.ShuffleDown | internal/commands/cmds_teams.go:71-73 | the Fisher-Yates pass of `rand.Shuffle` from position `i - 1` down to 1, each position swapped with one drawn at or below it; it keeps the length, and `ShuffleDownPermutes` proves it keeps the multiset |
| Teams.Shuffle | internal/commands/cmds_teams.go:71-73 | the whole shuffle of one loop iteration keeps the length; `ShufflePermutes` proves it is a permutation and `ShuffleInPlace` implements it on the array |
| Teams.ShufflePermutes | internal/commands/cmds_teams.go:71-73 | the Fisher-Yates shuffle keeps the multiset of indices, so the arrangement stays a permutation |
| Teams.Members | internal/commands/cmds_teams.go:78-92 | team `t` takes the next `sizes[t]` entries of the arrangement, and each is a valid player index |
| Teams.Averages | internal/commands/cmds_teams.go:78-92 | one average per team |
| Teams.TeamsOf | internal/commands/cmds_teams.go:106-116 | one team per size |
| Teams.MaxFrom | internal/commands/cmds_teams.go:75-88 | (specification function) `maxAverage` after the scoring loop: the running maximum of the averages from the start value 0; `MaxFromBounds` and `RunningStep` state its properties |
| Teams.MinFrom | internal/commands/cmds_teams.go:76-91 | (specification function) `minAverage` after the scoring loop: the running minimum from the start value 100; `MinFromBounds` and `RunningStep` state its properties |
| Teams.Gap | internal/commands/cmds_teams.go:93 | (specification function) `averageDiff`: the running maximum minus the running minimum; `GapIsLargestDifference` proves it is the largest difference of two team averages and `Score` returns it |
| Teams.Search | internal/commands/cmds_teams.go:70-104 | (specification function) the shuffle loop: shuffle, score, keep the arrangement if its spread is strictly smaller than the best, stop at a spread of at most 20 or after the last shuffle the budget allows; `SearchKeepsFit`, `SearchStopsAtFirstSmallGap`, `SearchKeepsSmallestGap` and `SearchFoundIffLastGapSmall` state its properties and `RunSearch` implements it |
| Teams.UnsetNames | internal/commands/cmds_teams.go:32-37 | (specification function) the names of the players whose skill is -1, in snapshot order; `UnsetNamesEmptyIff` states when it is empty and `CollectUnset` implements it |
| Teams.Balance | internal/commands/cmds_teams.go:26-123 | (specification function) the command on a snapshot: too few players, then unset ranks, then the search from the given starting best, reported as found when the best spread is at most 20; `BalanceOutcomes` states its outcomes |
| Teams.CmdTeams | internal/commands/cmds_teams.go:15-124 | (specification function) the command as written, with the search starting from the sentinel spread 100; `AsWrittenTeamsReply` and `SentinelIsNeverBeaten` state what it replies and `BalanceTeams` is proved equal to it |
| Teams.CmdTeamsIntended | internal/commands/cmds_teams.go:15-124 | (specification function) the command as evidently intended, with no sentinel so the first scored arrangement is always kept; `IntendedTeamsPartitionPlayers` states that its teams partition the players |
| Teams.SearchKeepsFit | internal/commands/cmds_teams.go:69-105 | the search never makes the best spread worse; its result is either the best it started with or a shuffled arrangement it scored, with that arrangement's own averages and spread, and it stays a permutation |
| Teams.SearchStopsAtFirstSmallGap | internal/commands/cmds_teams.go:94-104 | every shuffle before the last one scored had a spread above 20, and the search stops early only at a spread of at most 20 |
| Teams.SearchKeepsSmallestGap | internal/commands/cmds_teams.go:94-98 | the spread kept is at most every spread scored and at most the starting best, and it is one of them |
| Teams.SearchFoundIffLastGapSmall | internal/commands/cmds_teams.go:99-123 | from a starting best above 20, the result is at most 20 if and only if the last shuffle scored was |
| Teams.SkillSumBounds | internal/commands/cmds_teams.go:79-83 | with skills in [0, 100], a team's skill total is between 0 and 100 times its size |
| Teams.AveragesInRange | internal/commands/cmds_teams.go:84-85 | with skills in [0, 100], every team average is in [0, 100] |
| Teams.MaxFromBounds | internal/commands/cmds_teams.go:75-88 | the running maximum is at least its start and every average, and it is the start or one of the averages |
| Teams.MinFromBounds | internal/commands/cmds_teams.go:76-91 | the running minimum is at most its start and every average, and it is the start or one of the averages |
| Teams.GapIsLargestDifference | internal/commands/cmds_teams.go:75-93 | for averages in [0, 100], the spread is the largest difference between two team averages, it is reached by some pair, and it lies in [0, 100] |
| Teams.Select | internal/commands/cmds_teams.go:111-114 | one player per index |
| Teams.TeamsCoverArrangement | internal/commands/cmds_teams.go:106-116 | the teams, concatenated, are the players in arrangement order |
| Teams.SelectSameIndices | internal/commands/cmds_teams.go:106-116 | two arrangements with the same indices select the same multiset of players |
| Teams.SelectPermutation | internal/commands/cmds_teams.go:106-116 | a permutation of the player indices selects every player exactly once |
| Teams.UnsetNamesEmptyIff | internal/commands/cmds_teams.go:31-45 | the list of players with an unset rank is empty if and only if every skill is set |
| Teams.BalanceOutcomes | internal/commands/cmds_teams.go:26-123 | fewer players than teams is refused; otherwise any unset rank is refused; otherwise there is one team and one average per team, each team has its computed size, and "Teams found" is reported if and only if the spread is at most 20 |
| Teams.TotalSkillOfSelect | internal/commands/cmds_teams.go:79-83 | the skill total of an index list equals the total of the players it selects |
| Teams.ArrangedTeams | internal/commands/cmds_teams.go:75-116 | for a permutation, the teams hold every player exactly once, each average is its team's total over its size, and the spread is the largest difference of averages |
| Teams.IntendedTeamsPartitionPlayers | internal/commands/cmds_teams.go:15-124 | corrected: whenever there are enough players the reply lists teams; these hold every player exactly once with their true averages; and the reported spread is the largest difference of those averages |
| Teams.SentinelTeams | internal/commands/cmds_teams.go:52-59 | the initial best arrangement, all zeros, puts player 0 in every slot of every team |
| Teams.AsWrittenTeamsReply | internal/commands/cmds_teams.go:15-124 | as written: the reported spread never exceeds 100; below 100 the teams are a true partition with true averages; at 100 the reply is the untouched sentinel, with every average 0 and player 0 in every slot |
| Teams.PermutationsOfTwo | internal/commands/cmds_teams.go:71-73 | the only arrangements of two players are [0, 1] and [1, 0] |
| Teams.ExtremesAlwaysSpreadFully | internal/commands/cmds_teams.go:75-93 | players of skill 0 and 100 in two teams of one have a spread of exactly 100 in every arrangement |
| Teams.SentinelIsNeverBeaten | internal/commands/cmds_teams.go:52-98 | for the snapshot [skill 0, skill 100], `/teams 2` replies with the sentinel: not found, averages 0 and 0, and the first player of the snapshot (here the skill-0 one) listed in both teams |
| Teams.SoloTeamsOfTwo | internal/commands/cmds_teams.go:75-93 | with two teams of one, each team and each average is the player its arrangement entry names |
| Teams.SwapInPlace | internal/commands/cmds_teams.go:71-73 | the array afterwards is `Swap` of the array before |
| Teams.ShuffleInPlace | internal/commands/cmds_teams.go:71-73 | the array afterwards is `Shuffle` of the array before, under the same draws |
| Teams.TeamAverage | internal/commands/cmds_teams.go:79-84 | the inner loop's average for a team is `Average` of that team |
| Teams.Score | internal/commands/cmds_teams.go:75-93 | the averages array afterwards is `Averages` of the arrangement, and the returned spread is `Gap` of it |
| Teams.CopyInto | internal/commands/cmds_teams.go:96-97 | the destination afterwards equals the source |
| Teams.CollectUnset | internal/commands/cmds_teams.go:31-37 | the loop collects exactly `UnsetNames`, the names of players with an unset rank, in order |
| Teams.SearchStep | internal/commands/cmds_teams.go:70-105 | one loop iteration: keep the new arrangement if strictly better, then stop at a spread of at most 20 or at the deadline, else go on |
| Teams.NewBuffers | internal/commands/cmds_teams.go:52-59 | the best buffers start as the sentinel (spread 100, all-zero arrangement and averages) and the working arrangement is the identity |
| Teams.RunSearch | internal/commands/cmds_teams.go:52-105 | the imperative loop ends with exactly the best that `Search` yields from the identity and the sentinel |
| Teams.BalanceTeams | internal/commands/cmds_teams.go:15-124 | the array implementation replies exactly `CmdTeams` |
| Guests.Outcome | internal/commands/cmds_guests.go:71-81 | the reply carries the store's error if and only if there was one; otherwise it is the success reply |
| Guests.GuestId | internal/commands/cmds_guests.go:69 | a guest's roster id is the role id with `g` in front |
| Guests.IsGuestKey | internal/commands/cmds_guests.go:269-273 | (specification predicate) the listing's test that a roster id starts with `g`; `GuestIdsOfRoles` proves it accepts exactly the ids `GuestId` makes |
| Guests.GuestKeys | internal/commands/cmds_guests.go:269-278 | (specification function) the roster ids the listing keeps; `ListGuests` and `ShowAllGuests` are specified with it |
| Guests.GuestIdsOfRoles | internal/commands/cmds_guests.go:69-278 | distinct roles give distinct guest ids, and the listing's "starts with g" test accepts exactly the guest ids of some role |
| Guests.NameTaken | internal/commands/cmds_guests.go:54-59 | the scan reports a clash if and only if some roster entry has the name |
| Guests.AddGuest | internal/commands/cmds_guests.go:40-82 | a name on the roster is refused; a failed role creation is reported; otherwise the guest is stored under `g` + role id with the given skill, or -1 when none is given, and the save's outcome is replied |
| Guests.RemoveGuest | internal/commands/cmds_guests.go:84-109 | a role that is no guest is refused; otherwise the guest leaves the roster and the active set, and the name read before is replied |
| Guests.AddGuestToPlaying | internal/commands/cmds_guests.go:111-134 | a known guest's id joins the active set, which is saved only if it changed; the roster is unchanged |
| Guests.RemoveGuestFromPlaying | internal/commands/cmds_guests.go:136-159 | as written: a known guest's bare role id (without `g`) is ADDED to the active set, yet removal is replied |
| Guests.RemoveGuestFromPlayingIntended | internal/commands/cmds_guests.go:136-159 | corrected: the guest's id leaves the active set, which is saved only if it changed |
| Guests.SetGuestSkill | internal/commands/cmds_guests.go:161-185 | a known guest gets exactly the given skill, and the save's outcome is replied |
| Guests.ChangeGuestSkill | internal/commands/cmds_guests.go:187-239 | a known guest's skill moves up or down by the amount, clamped to [0, 100]; the reply carries the skill before and after |
| Guests.ShowGuestSkill | internal/commands/cmds_guests.go:241-258 | replies the guest's name and skill, or that the role is no guest; nothing is saved |
| Guests.Insert | internal/commands/cmds_guests.go:280-282 | inserting into a list ordered by descending skill keeps it ordered and adds exactly the one player |
| Guests.SortBySkill | internal/commands/cmds_guests.go:280-282 | the result is ordered by descending skill and is a permutation of the input |
| Guests.EntriesOf | internal/commands/cmds_guests.go:269-278 | one roster entry per listed id |
| Guests.ListGuests | internal/commands/cmds_guests.go:262-282 | an empty roster id aborts; otherwise the listing holds each roster entry whose id starts with `g` exactly once, highest skill first |
| Guests.ShowAllGuests | internal/commands/cmds_guests.go:260-291 | the listing of the guests, or the store's error; nothing is saved |
| Guests.RemoveGuestFromPlayingKeepsGuest | internal/commands/cmds_guests.go:152 | on a server whose game holds only guest "g7", removing it replies success but leaves {"g7", "7"} in the active file |
| Guests.RemoveGuestFromPlayingIntendedEmptiesGame | internal/commands/cmds_guests.go:136-159 | on the same server, the corrected command leaves the active file empty |
| Names.FirstNonEmpty | internal/commands/utils.go:26-35 | the result is "" or one of the names, and it is "" if and only if every name is empty |
| Names.NameFromMember | internal/commands/utils.go:26-35 | the name is the nickname, the global name or the username |
| Names.NameIsMostPreferred | internal/commands/utils.go:26-35 | the name is the first non-empty one of nickname, global name and username, and it is empty only when all three are |
| Names.GetUserName | internal/commands/utils.go:10-24 | a cached name is returned as it is; on a miss, a failed member lookup is an error; otherwise the member's preferred name is returned and cached with an unset skill, and a failed save is ignored |
| Responder.SplitWindowBounds | internal/responder/responder.go:50-57 | the prompt is 29 bytes, so a cut lands between byte 1871 and byte 1971 |
| Responder.LastNewline | internal/responder/responder.go:77 | the index is -1 or a newline, and no newline follows it |
| Responder.IsSpace | internal/responder/responder.go:79-81 | (specification predicate) `unicode.IsSpace` on a one-byte character: tab, newline, vertical tab, form feed, carriage return and space |
| Responder.LastSpace | internal/responder/responder.go:79-81 | the index is -1 or a white-space byte, and no white space follows it |
| Responder.SplitIndex | internal/responder/responder.go:76-83 | the cut lies in [1871, 1971]; it is the last newline of that window if there is one, else the window's last white space, else 1971 |
| Responder.LeadingSpace | internal/responder/responder.go:89 | the length of the white-space prefix: everything before it is space and the next byte is not |
| Responder.TrailingSpace | internal/responder/responder.go:89 | the start of the white-space suffix: everything after it is space and the byte before is not |
| Responder.TrimSpace | internal/responder/responder.go:89 | (specification function) `strings.TrimSpace`: the input without its leading and trailing white space; `TrimSpaceKeepsMiddle` proves only white space is removed and neither end of the result is space |
| Responder.TrimSpaceKeepsMiddle | internal/responder/responder.go:89 | trimming returns a contiguous slice with only white space cut on either side, and neither end of a non-empty result is space |
| Responder.Shown | internal/responder/responder.go:64-87 | what is sent is at most 2000 bytes unless it is the message itself, and a message within the limit is sent unchanged |
| Responder.Remainder | internal/responder/responder.go:89 | (specification function) what waits for `/continue`: the trimmed part of the message from the cut on; `SplitLosesOnlySpace` proves it is shorter than the message and loses only white space |
| Responder.CutLosesOnlySpace | internal/responder/responder.go:89 | the trimmed rest after a cut is a slice of the message, and only white space was dropped around it |
| Responder.SplitLosesOnlySpace | internal/responder/responder.go:76-90 | for an over-long message, the part sent is within 2000 bytes and is the message up to the cut plus the prompt; the buffered rest is the message after the cut minus white space at its ends |
| Responder.ResponseManager.constructor | internal/responder/responder.go:44-48 | a new manager has no buffers and has sent nothing |
| Responder.ResponseManager.UpdateBuffer | internal/responder/responder.go:116-142 | the server's buffer holds the new rest and every other buffer is unchanged |
| Responder.ResponseManager.GetBuffer | internal/responder/responder.go:144-156 | returns the server's pending rest and empties its buffer, or "" when the server has none |
| Responder.ResponseManager.InteractionRespond | internal/responder/responder.go:59-92 | sends the message, or its first part and the prompt when it is over 2000 bytes; a failed send is returned; after a successful split the rest is buffered; every message sent is within 2000 bytes |
| Responder.ResponseManager.InteractionContinue | internal/responder/responder.go:105-114 | takes the server's pending rest; with nothing pending it replies "no response output to continue"; otherwise it responds with the rest, which may split again |
| Responder.ShortReplyLeavesNothingToContinue | internal/responder/responder.go:64-114 | a 1500-byte reply is sent whole, and a following `/continue` finds nothing to show |

## Left out

- Mutexes and concurrency are left out. Every operation is atomic, so the
  lock that `getPlaying` leaves held on its early return
  (`internal/commands/persistent.go:272-274`) is not modelled.
- JSON encoding, file paths and directory layout are left out. A file is
  `Missing`, `Undecodable` or holds a map (or the JSON `null`).
  `setPlayersAndPlayingServerIDs` appears only as the `Guild` constructor
  for one server.
- I/O failures are one flag for all reads and one for all writes of a
  call. A call whose first write fails and second succeeds is not modelled.
- `rand.Shuffle`'s generator and the 100 ms context deadline are the
  `rolls` parameter, so the deadline can only fall after a shuffle is scored.
- Persistent.Guild.ModifyPlayerSkill / Persistent.ApplyDiffs / Teams.SkillSum:
  `int` is unbounded. The int64 wrap-around of `Skill += diff`
  (`internal/commands/persistent.go:332`, before the clamp) and of the team
  sum (`internal/commands/cmds_teams.go:81`) is not modelled. Only a roster
  file edited by hand reaches it, because the command options keep skills
  in 0 to 99.
- Teams.Mean: the conversion of the team sum to `float64` is exact here, so
  rounding of large sums is not modelled.
- Teams.Score: averages are exact reals, so `float64` rounding is not
  modelled.
- Responder.IsSpace: only the one-byte white-space characters count.
  `unicode.IsSpace` also accepts multi-byte runes (U+0085, U+00A0, U+2000
  and others), and `strings.LastIndexFunc` / `strings.TrimSpace` decode
  UTF-8. The model works on bytes.
- A cut can split a multi-byte UTF-8 character. The model is byte-level and
  does not track it.
- Calls to the chat service are parameters. This covers sending a reply,
  the member lookup, role creation and role deletion, which is
  fire-and-forget and ignored.
- Reply text formatting is not modelled. Replies are datatypes rather than
  `Sprintf` strings, and the listing's name padding is not computed.
- The `cmdGuest` dispatcher and option parsing are not modelled. Each
  sub-command is a separate method.
- `interactionRespond` and `interactionRespondf` in
  `internal/commands/utils.go:37-48` are direct calls to the chat service.
  `InteractionRespondf` only formats before calling `InteractionRespond`.
- `cmdTeams` reads its players through `getPlaying` (modelled as
  `Persistent.Guild.GetPlaying`). `BalanceTeams` and `CmdTeams` start from
  that snapshot and leave out the read-error reply.
- `deleteGuest` and `addPlayingUser`, called at
  `internal/commands/cmds_guests.go:100,127,152`, are not defined in
  `internal/commands/persistent.go`. They are modelled as `deleteUsers`
  with the one id and `addPlayingUsers` with the one id.
- `loadUserName` and `saveUserName` are called from `getUserName` with a
  server id. The model passes the `Guild`.
- Persistent.Guild.SetPlayerSkill: any integer is stored unclamped, as in
  the code. The range of the skill option, 0 to 99, is declared at
  `internal/commands/definitions.go:102-103` and enforced by the chat
  service, so the model does not assume it. Only `modifyPlayerSkill`
  clamps.
- Nothing makes the active set a subset of the roster. `getPlaying` gives
  the zero player for an active id missing from the roster. The model
  follows the code and does not claim the invariant.

## Findings

| source | as written | input that shows it | evidently intended | confidence | as-written member | corrected member |
|---|---|---|---|---|---|---|
| internal/commands/cmds_teams.go:52-98 | the best spread starts at 100 with an all-zero arrangement and is replaced only by a strictly smaller spread | two players of skill 0 and 100, `/teams 2`: every arrangement has spread 100, so the reply lists the first player of the snapshot (here the skill-0 one) in both teams, with averages 0 and 0 | the first scored arrangement is always kept, so the reply is a true partition of the players | not executed | Teams.SentinelIsNeverBeaten | Teams.IntendedTeamsPartitionPlayers |
| internal/commands/persistent.go:170-182 | the active set is loaded by calling `Load` on the roster object | a freshly started server whose roster and active files both hold "u": after deleting "u", the active file still holds "u" | the active set is loaded and loses the id | not executed | Persistent.DeleteUserLeavesStaleActiveEntry | Persistent.Guild.DeleteUserIntended |
| internal/commands/cmds_guests.go:152 | `removeGuestFromPlaying` calls the add operation with the bare role id | a game holding only guest "g7": `/guest playing_remove` on role "7" replies success, but the active file holds "g7" and "7" | the guest's id `g` + role id is removed from the active set | not executed | Guests.RemoveGuestFromPlayingKeepsGuest | Guests.RemoveGuestFromPlayingIntended |
