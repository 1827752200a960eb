# Werewolf game server: a Dafny model of the rule engine

This project models the rules of a small hidden-role werewolf game server: the
game state in `server/game.py`, the five roles in `server/roles.py`, the player
record in `server/models.py`, and the state logic inside the socket handlers of
`server/server.py`. Every operation is a pure function from a state (plus the
human replies and random draws it consumes) to a new state. Threads, sockets and
locks are gone.

Layout, one module per file:

- `types.dfy` (`Types`): `Option`, `Result` and the two errors the engine can
  raise. `EmptyMax` is `max()` of an empty sequence. `UnknownRole` is the role
  factory's `ValueError`.
- `roles.dfy` (`Roles`): the closed `Role` variant, role names, and `CreateRole`.
- `models.dfy` (`Models`): `Player`, the role predicates, single-seat updates,
  frame predicates, and lookup by name.
- `roster.dfy` (`Roster`): filtered seat lists, the draw standing for
  `random.choice`, the maximum-tally rule (unique leader), and alive counts.
- `tally.dfy` (`Tally`): the wolves' `defaultdict(int)` tally, kept as an
  association list in insertion order.
- `role_actions.dfy` (`RoleActions`): each role's night and day action, and the
  player-level dispatch.
- `shuffle.dfy` (`Shuffle`): `random.shuffle` as a Fisher–Yates pass over given draws.
- `game.py`'s rules in `game.dfy` (`WerewolfGame`): allocation, the election,
  the day vote and the badge transfer, night resolution, and the win check.
- `handlers.dfy` (`Handlers`): the status snapshot and its redaction, plus the
  effect of one human reply to each prompt.
- `phases.dfy` (`Phases`): the election, day and night phases with all their
  ballots and sub-phases in order.
- `run.dfy` (`GameLoop`): the `run_game` event loop.

Modelling conventions:

- **Seats.** A player is its seat index. The engine compares player objects by
  identity. A lookup by name (`next(p for p in players if p.name == x)`) finds
  the first seat carrying that name.
- **Half-votes.** Votes are counted in half-votes. An ordinary ballot is
  `OneVote` = 2. The sheriff's 1.5-vote day ballot is `SheriffVote` = 3.
- **Random draws.** `random.choice(c)` is `c[draw % |c|]`, with the draw given
  as input. `random.random() < p` is a boolean input. `random.shuffle` is a
  Fisher–Yates pass over given draws.
- **Replies.** A human reply is the one field the handler reads, as an
  `Option`. An empty reply, an undecodable one (`receive_message` returns
  `{}`), or one without the field is `None`.

Behaviour the code has and the model keeps, each stated by a lemma or a
contract:

- **Wolf ties.** A tie among the wolves' targets is broken by a random draw,
  not by sparing everyone (`WolfTieIsDrawn`).
- **Retry rounds.** The second and third rounds of the sheriff election look at
  tallies the first round already cleared. A first-round tie therefore elects
  nobody, unless a single player is alive (`TieElectsNobody`,
  `RetryRoundElectsOnlyLoneSurvivor`).
- **Failed election.** After a failed election the loop hands the badge at
  once to a random alive player. The transfer sits on the `if` whose `elif`
  runs the day phase, so on a day event it would take the day vote's place
  (`NoSheriffSkipsTheDay`). From a fresh game that day event never comes.
  The election runs on the first event, which is a night. The transfer after
  a failed election always finds a taker, because nobody wears a flag yet
  (`FirstNightCrowns`). Once a sheriff exists, every later event keeps one
  (`SheriffStays`, `PlayKeepsSheriff`). So the branch only ever takes the
  place of a night event's absent day vote.
- **Voted-out sheriff.** A sheriff voted out keeps its `sheriff` flag while the
  badge passes on (`VotedOutSheriffKeepsFlag`). A sheriff killed at night keeps
  the badge, and no transfer happens (`NightKillKeepsBadge`).
- **Human witch.** A human witch can save and poison in one reply. The witch can
  even revive and then kill the same player (`HumanWitchCanSpendBoth`,
  `SaveAndPoisonSamePlayer`). The computer witch spends at most one potion per
  night (`AiWitchSpendsAtMostOne`).
- **Kill order.** The witches act before the wolf kill is resolved, so tonight's
  victim cannot be saved (`TonightsVictimStaysDead`).
- **Late wolf votes.** The computer wolves vote only when the night is resolved,
  after the witches have acted: the kill counts their draws on the roster the
  witches leave (`NightVotes`, `HandleNightPhase`), so a wolf poisoned tonight
  has no say (`WitchedWolfHasNoSay`, `DeadWolvesCastNoVote`). Human wolves'
  replies are not checked against the candidate list: any name counts
  (`WolfReply`).
- **Computer ballots.** In the election, computer players vote only among the
  alive computer players (`AiSheriffVotes`, `ComputerVotesGoToComputers`). By
  day, a computer ballot always counts one vote, even from the sheriff
  (`AiDayVotes`).
- **Empty kill target.** A wolf target named `""` is falsy in the engine, so
  nobody dies for it (`Victim`).

## Model

| member | source | states |
|---|---|---|
| Roles.CreateRole | server/roles.py:111-125 | the factory succeeds exactly for the five role names, gives a fresh role whose name is the one asked for, and fails with that name otherwise |
| Roles.CreateRoleRoundTrip | server/roles.py:111-125 | building a role from the name of any fresh role gives that role back |
| Roles.NameIdentifiesKind | server/roles.py:14-94 | two roles have the same name exactly when they are the same variant |
| Models.NewPlayer | server/models.py:3-10 | a new player has the given name and computer flag, is alive, has no votes and no badge, and has no role |
| Models.RolePredicatesExclusive | server/models.py:22-32 | at most one of the four role predicates holds, and each holds exactly for its variant |
| Models.FindByName | server/server.py:137 | the lookup returns the first seat carrying the name, and nothing only when no seat carries it |
| Roster.Seats | server/game.py:31 | the filtered seat list holds exactly the seats that pass the filter, in increasing order, and is empty exactly when no seat passes |
| Roster.PickSeat | server/roles.py:20-22 | a draw over the seats passing a filter lands on a seat that passes it |
| Roster.LeadersSingleton | server/game.py:30-33 | the maximum-tally candidate list has exactly one entry iff one alive player is strictly ahead of every other alive player, and then it is that player |
| Roster.CountAliveIsCard | server/game.py:77-78 | the alive-wolf and alive-non-wolf counts are the sizes of the sets of such seats |
| Tally.Add | server/game.py:101-102 | adding to a name raises its count by the amount, leaves every other count alone, and adds the name to the keys |
| Tally.Merge | server/game.py:105-106 | merging two tallies adds their counts name by name and unites their keys |
| Tally.CountedKeys | server/game.py:101-106 | in a tally whose entries all count some votes, a name has an entry exactly when it has votes |
| Tally.CountedNonEmpty | server/game.py:109 | a tally whose entries all count some votes is non-empty exactly when some name has votes |
| Tally.AddKeepsCounted | server/game.py:102 | adding a positive amount keeps every entry positive |
| Tally.MergeKeepsCounted | server/game.py:105-106 | merging two tallies with positive entries gives one with positive entries |
| Tally.TopNameIsMax | server/game.py:110-111 | a name among the top candidates is in the tally and is counted at least as often as any name |
| RoleActions.WolfNight | server/roles.py:18-24 | a wolf returns a vote exactly when it is a computer player and some alive non-wolf exists, and the vote names the alive non-wolf its draw lands on; nothing changes |
| RoleActions.WitchNight | server/roles.py:45-65 | a human witch does nothing; a computer witch saves exactly when it holds the antidote, the roll succeeds and a dead non-wolf exists, reviving that player and spending the antidote; otherwise it poisons exactly when it holds the poison, the roll succeeds and an alive wolf exists, killing that wolf and spending the poison |
| RoleActions.WitchSave | server/roles.py:49-55 | the save revives a dead non-wolf whose name it reports, spends the antidote and keeps the poison, and changes nothing else |
| RoleActions.WitchPoison | server/roles.py:57-63 | the poison kills an alive wolf whose name it reports, spends the poison and keeps the antidote, and changes nothing else |
| RoleActions.AiWitchSpendsAtMostOne | server/roles.py:49-63 | one call of the witch's action never spends both potions |
| RoleActions.SeerNight | server/roles.py:74-87 | a seer reports exactly when it is a computer player and another player is alive; it names an alive other player and says wolf exactly when that player is a wolf; nothing changes |
| RoleActions.HunterDay | server/roles.py:99-109 | an alive hunter does nothing; a dead computer hunter shoots exactly when another player is alive, killing an alive other player and nothing else |
| RoleActions.NightAction | server/models.py:12-15 | without a role nothing happens; otherwise the role's own night action answers, and villagers and hunters do nothing at night |
| RoleActions.DayAction | server/models.py:17-20 | only a hunter acts by day; every other player, with or without a role, does nothing |
| RoleActions.NightActionOnlySpends | server/roles.py:42-63 | a night action changes no name, computer flag, tally or badge, and a role only loses potions, never the variant |
| Shuffle.Shuffle | server/game.py:21 | the shuffled deck is a permutation of the deck |
| WerewolfGame.DeckCounts | server/game.py:17-20 | from three players up the deck has one card per player: two wolves from five players up and one otherwise, one seer, one witch with both potions, and villagers for the rest |
| WerewolfGame.RandomAllocate | server/game.py:14-23 | every player gets a role and nothing else changes; from three players up the roles dealt are exactly the deck, whatever the shuffle drew, and with fewer players they are part of it |
| WerewolfGame.ClearVotes | server/game.py:46-48 | every tally is zero afterwards, and nothing else changes |
| WerewolfGame.ElectRounds | server/game.py:29-44 | the rounds fail exactly when nobody is alive |
| WerewolfGame.LeaderWinsRound | server/game.py:30-38 | a unique leader wins the round at hand and takes the badge |
| WerewolfGame.TieElectsNobody | server/game.py:29-43 | without a unique leader no round elects anyone, and the result is the cleared game |
| WerewolfGame.ElectSheriff | server/game.py:27-44 | the election fails exactly when nobody is alive; otherwise tallies end at zero and alive flags are unchanged; a unique leader becomes the sheriff with the badge and no other badge changes; without one only the tallies change |
| WerewolfGame.RetryRoundElectsOnlyLoneSurvivor | server/game.py:29-42 | a retry round, seeing cleared tallies, elects a player exactly when that player is the only one alive |
| WerewolfGame.TransferSheriff | server/game.py:66-74 | when some alive player lacks the badge, one such player takes it and becomes the sheriff; otherwise nothing changes; only badges and the sheriff change |
| WerewolfGame.TransferReachesEveryone | server/game.py:67-71 | every alive player without the badge can be drawn as the new sheriff |
| WerewolfGame.Eliminate | server/game.py:56-60 | voting out a seat kills exactly that seat; every seat keeps its name, role, potions and tally, only alive and sheriff flags may change, and nothing outside the roster but the sheriff changes |
| WerewolfGame.EliminateBadge | server/game.py:56-60 | the voted-out player keeps its flag; a non-holder leaves badges alone; a holder passes the badge to another alive player without one, if there is one |
| WerewolfGame.Vote | server/game.py:50-64 | the vote fails exactly when nobody is alive; otherwise tallies end at zero and no name or role changes; a unique leader is eliminated and the tallies cleared; without a unique leader the only change is that the tallies are cleared |
| WerewolfGame.VoteOnlyTakesLives | server/game.py:50-64 | nobody alive after the day vote was dead before it |
| WerewolfGame.VoteTakesAtMostOneLife | server/game.py:53-62 | only the unique leader can die in the day vote |
| WerewolfGame.VoteKeepsOneLivingSheriff | server/game.py:55-64 | if at most one living player wore the badge before the vote, the same holds after it |
| WerewolfGame.VotedOutSheriffKeepsFlag | server/game.py:56-60 | a sheriff voted out is dead and still flagged, and when the badge passes on, another living player carries the flag too |
| WerewolfGame.ClearedEliminationBadge | server/game.py:56-64 | after a holder is eliminated and the tallies cleared, the holder is dead and still flagged, and an alive non-holder, if there was one, now carries the flag too |
| WerewolfGame.DayActions | server/game.py:88-90 | the day counter goes up by one and nothing else changes |
| WerewolfGame.AiWolfVotes | server/game.py:97-103 | the computer wolves' tally has one entry per name, every entry counts at least one vote, every name in it is an alive non-wolf's, and each name is counted once for every alive computer wolf whose draw among the alive non-wolves lands on a seat carrying it (no vote at all when no alive non-wolf exists) |
| WerewolfGame.AiWolfVote | server/game.py:98-102 | one seat's turn adds one vote for the name its draw lands on exactly when it is an alive computer wolf and an alive non-wolf exists, adds only alive non-wolves' names, and keeps one positive entry per name |
| WerewolfGame.WolfTally | server/game.py:96-106 | the night's tally keeps one entry per name and counts each name as the number of alive computer wolves drawing it plus the human wolves' votes for it; when every human entry is positive, so is every entry |
| WerewolfGame.KillTarget | server/game.py:108-112 | a target is drawn exactly when the tally is not empty, and it is a name in the tally with the top count |
| WerewolfGame.Victim | server/game.py:114-116 | the kill lands on a seat exactly when the target is a non-empty name some seat carries, and then on the first seat carrying that name |
| WerewolfGame.SameSeatsVictim | server/game.py:114-116 | the kill lands on the same seat on any two rosters whose seats carry the same names |
| WerewolfGame.NightActions | server/game.py:92-120 | the human wolf tally is empty afterwards; a target exists exactly when the combined tally is not empty, and it has the top count; the victim seat dies and every other alive flag stays; only alive flags change among the players |
| WerewolfGame.NightKillsOnlyVictim | server/game.py:114-118 | the night resolution kills exactly the victim seat, if there is one, and nobody else |
| WerewolfGame.EmptyTallyKillsNobody | server/game.py:108-118 | with no wolf vote cast, nobody dies |
| WerewolfGame.WolfTieIsDrawn | server/game.py:109-112 | every name tied at the top is killed under some draw |
| WerewolfGame.CheckGameEnd | server/game.py:76-86 | the game is over exactly when no wolf is alive or the alive wolves are at least as many as the alive others |
| WerewolfGame.GameEndCases | server/game.py:76-86 | with every wolf dead the game is over; with a wolf alive and more non-wolves than wolves alive it goes on |
| Handlers.StatusFor | server/server.py:70-79 | the snapshot shows every seat's name, alive flag and badge and the day counter; a seat's role is shown exactly when it is the viewer's own or both are wolves, and is "未知" otherwise |
| Handlers.NonWolfSeesOnlyItself | server/server.py:74-76 | a non-wolf's snapshot does not depend on any other seat's role |
| Handlers.WolfSeesOnlyThePack | server/server.py:74-76 | a wolf's snapshot depends on other seats only through who is a wolf |
| Handlers.Ballot | server/server.py:137-139 | the first seat carrying the named player gains exactly the ballot's weight and every other seat gains nothing; the total rises by the weight exactly when the name is found |
| Handlers.DayWeight | server/server.py:154 | a day ballot weighs one vote, or one and a half exactly when the voter holds the badge |
| Handlers.PlayerDayVote | server/server.py:140-155 | a human day ballot changes only tallies: the named player's seat gains one and a half votes when the voter holds the badge and one otherwise, and no other seat gains anything |
| Handlers.PlayerSheriffVote | server/server.py:127-139 | a human election ballot changes only tallies: the named player's seat gains one vote and no other seat gains anything |
| Handlers.WolfReply | server/server.py:279-284 | a human wolf reply adds one to the count of whatever name it carries, checked against no list, keeps one entry per name and every entry positive, and changes nothing else |
| Handlers.ApplyWitchReply | server/server.py:298-313 | a human witch's save revives a named dead player when the witch holds the antidote; the poison kills a named player alive at that moment when the witch holds the poison; each spends its potion; both may apply in one reply; names, tallies and badges are unchanged |
| Handlers.HumanWitchCanSpendBoth | server/server.py:300-313 | naming a dead player to save and an alive player to poison spends both potions: the first is revived and the second killed |
| Handlers.SaveAndPoisonSamePlayer | server/server.py:300-313 | naming the same dead player for both potions spends both and leaves that player dead |
| Handlers.SeerAnswer | server/server.py:322-333 | a human seer gets an answer exactly when the name is found, and the answer says wolf exactly when that player is a wolf |
| Phases.HumanVotes | server/server.py:106-113 | the humans' ballots change only tallies; each seat gains the summed weight of the alive humans whose replies name it, and the total the summed weight of the alive humans whose replies name anybody |
| Phases.HumanBallot | server/server.py:133-139 | one seat's reply changes only tallies: an alive human's weight goes to the first seat carrying the name it gives and nowhere else, and the total rises by it exactly when the name is found |
| Phases.AiSheriffVotes | server/server.py:115-120 | the computer election ballots change only tallies: each seat gains one vote for every voter whose draw among the candidates lands on it, and the total rises by one vote per voter |
| Phases.AiSheriffVotesGoToCandidates | server/server.py:115-119 | a seat gaining a computer election vote is one of the candidates drawn from |
| Phases.ElectionTally | server/server.py:106-123 | after the election ballots each seat holds its old tally plus the weight of the alive humans naming it plus one vote per computer draw landing on it, and the total grows by both kinds of ballot |
| Phases.ComputerVotesGoToComputers | server/server.py:115-119 | in the election only alive computer players receive computer votes |
| Phases.AiDayVotes | server/server.py:252-262 | each computer player alive on the roster the day's prompts went out on, with someone else alive there, adds exactly one vote, whatever its badge, to the seat its draw among the other alive players lands on; each seat gains one vote per such draw, and only seats alive on that roster gain any |
| Phases.AiDayBallot | server/server.py:254-259 | one seat's computer day ballot changes only tallies: one vote for the other alive player its draw lands on when it is an alive computer player with someone else alive, nothing otherwise |
| Phases.AiDayVotesGoToOthers | server/server.py:255-259 | a seat gaining a computer day vote is alive and was drawn by a computer voter other than itself |
| Phases.HandleSheriffElection | server/server.py:103-125 | the election fails exactly when nobody is alive; otherwise alive flags are unchanged, tallies end at zero and only players and sheriff change; a player strictly ahead on the counted ballots becomes the sheriff and takes the badge while no other flag changes; without one neither the sheriff nor any badge changes |
| Phases.CountOfBallots | server/game.py:27-44 | electing on a roster that only gained tallies: it fails exactly when nobody is alive; otherwise only players and sheriff change, alive flags stay and tallies end at zero; a unique leader is crowned and no other flag moves; without one nothing about the badge changes |
| Phases.ElectionCrownsTheLiving | server/server.py:115-125 | a sheriff the election makes was alive at the vote and holds the badge |
| Phases.ElectionWithoutWinner | server/server.py:125 | an election that leaves nobody sheriff moves no badge |
| Phases.DayTally | server/server.py:241-265 | after the day ballots each seat holds its old tally plus the weight of the alive humans naming it, one and a half from the badge holder, plus one vote per computer draw landing on it, and the total grows by both kinds of ballot |
| Phases.HandleDayPhase | server/server.py:238-267 | the day fails exactly when nobody is alive; otherwise the day counter goes up by one and tallies end at zero; a player strictly ahead on the counted ballots is the only one to die; without one no alive flag, badge or sheriff changes |
| Phases.VoteOnBallots | server/game.py:50-64 | a day vote on a roster that only gained tallies kills, relative to the roster before the ballots, just its unique leader; without one it changes no alive flag, badge or sheriff |
| Phases.DayGivesNoLife | server/server.py:238-267 | nobody alive after the day was dead before it |
| Phases.DayTakesAtMostOneLife | server/server.py:238-267 | at most one player dies in the day phase |
| Phases.WolfPhase | server/server.py:159-170 | the wolf sub-phase changes only the human tally: each name gains one count per alive human wolf naming it |
| Phases.AiWitches | server/server.py:173-180 | the computer witches change no name, tally or badge, potions are only spent, only computer witches' seats change role, and a seat whose alive flag changes was an alive wolf or a dead non-wolf |
| Phases.AiWitchStep | server/roles.py:45-65 | one computer witch's action spends only its own potions and changes only the alive flag of an alive wolf or a dead non-wolf |
| Phases.NoAiWitchActs | server/server.py:175-178 | with no computer witch the sub-phase leaves the roster as it was |
| Phases.OneAiWitchActs | server/server.py:175-178 | with a single computer witch the sub-phase is exactly that witch's action |
| Phases.HumanWitches | server/server.py:181-190 | the human witches change no name, tally or badge, potions are only spent, and only human witches' seats change role |
| Phases.HumanWitchesTouchOnlyNamed | server/server.py:181-190 | an alive flag the human witches change belongs to a seat some human witch named to save or to poison |
| Phases.NoHumanWitchAnswers | server/server.py:181-190 | with no human witch the sub-phase leaves the roster as it was |
| Phases.OneHumanWitchAnswers | server/server.py:181-190 | with a single human witch the sub-phase is exactly that witch's reply applied |
| Phases.AiSeers | server/server.py:193-200 | the computer seers leave the roster exactly as it was |
| Phases.HandleNightPhase | server/server.py:156-236 | the night changes no name, tally or badge, potions are only spent, the human wolf tally is empty at dawn, and only the players and the kill target change; a target has the most of tonight's votes and, when every earlier human entry is positive, exists exactly when somebody has votes; the target's seat dies on top of what the witches did and no other alive flag or role changes |
| Phases.NightTallyCounts | server/game.py:96-112 | the tally the kill is drawn from counts, for each name, the earlier human entries, tonight's human wolf ballots, and the computer wolves' draws on the roster the witches and seers leave; when every earlier entry is positive it is empty exactly when nobody has votes |
| Phases.DeadWolvesCastNoVote | server/game.py:97-103 | the computer wolf count depends only on the draws of the computer wolves alive on the roster counted |
| Phases.WitchedWolfHasNoSay | server/server.py:231-236 | a wolf dead by the time the kill is resolved, poisoned tonight included, changes no count whatever its draw |
| Phases.TonightsVictimStaysDead | server/server.py:231-236 | the seat tonight's target names is dead when the night ends |
| GameLoop.EventAt | server/server.py:54-57 | events alternate, night first |
| GameLoop.ElectionStep | server/server.py:88-90 | the election is held exactly when there is no sheriff and none was held, and is marked as held afterwards; it never changes an alive flag or the kill target; when held it fails exactly when nobody is alive, keeps alive flags, clears tallies, crowns a unique leader, and without one leaves nobody sheriff and moves no badge; otherwise nothing changes |
| GameLoop.EventStep | server/server.py:84-97 | after any event the election has been held, and a sheriff exists unless every alive player already holds the badge; on a night event the night phase runs first, and the election and badge transfer after it leave its alive flags and kill target alone; once a sheriff exists, a night event is exactly the night phase and a day event exactly the day phase |
| GameLoop.AfterElection | server/server.py:91-94 | with no sheriff the event is exactly the badge transfer, so nobody dies and the day counter stays; on a night event no alive flag, kill target or human wolf tally changes; with a sheriff a night event changes nothing more and a day event is exactly the day phase |
| GameLoop.ElectionHeldOnce | server/server.py:88-90 | once the election was held, the election ballots never affect an event |
| GameLoop.NoSheriffSkipsTheDay | server/server.py:91-94 | on a day event with no sheriff after the election, the badge is handed out and no day vote happens; a game started with no flags never reaches this state, by FirstNightCrowns and SheriffStays |
| GameLoop.ElectionLeavesAnHeir | server/server.py:88-92 | an election held while nobody wears a flag ends with a sheriff or leaves an alive player without a flag |
| GameLoop.ElectionThenTransferCrowns | server/server.py:88-92 | in a game nobody wears a flag in, the election followed by the transfer always yields a sheriff |
| GameLoop.FirstNightCrowns | server/server.py:84-92 | the first night event of a game nobody wears a flag in ends with a sheriff whenever it succeeds |
| GameLoop.SheriffStays | server/server.py:84-97 | once a sheriff exists, every successful event keeps one |
| GameLoop.PlayKeepsSheriff | server/server.py:84-101 | a run started with a sheriff still has one at its end |
| GameLoop.NightKillKeepsBadge | server/server.py:86-94 | a night event never moves the badge once a sheriff exists, even if the sheriff dies that night |
| GameLoop.Play | server/server.py:84-101 | a run that stops leaves a finished game; a run that goes on after at least one event leaves an unfinished one; the election has been held once any event ran |
| GameLoop.PlayAppend | server/server.py:84-101 | the game is checked for its end after every event: a run over two input stretches stops where the run over the first stopped, on an error or a finished game, and otherwise continues from that game with the next event |
| GameLoop.FirstEvent | server/server.py:84-101 | a run's first event decides it: an error or a finished game ends it at once, on any later inputs alike; otherwise the run continues from that event's game |

## Left out

- Sockets, JSON encoding and decoding, broadcasts, `time.sleep` and all
  `print` logging are I/O. The handlers take the decoded reply fields as
  inputs.
- `start` (server/server.py:21-61) is left out: it accepts the connections,
  reads the names, runs the `wait_confirm` round and cancels the game when a
  player declines. The model starts from `NewGame` over seats already
  filled. `start` adds the humans first, so a human's socket index is its
  seat, and the model tells humans from computer players by the `is_ai`
  flag. `add_player` is list append.
- Threads and locks are replaced by fixed seat order. Tallies add up the same
  in any order. The order in which human wolves' names first enter their
  tally is insertion order, and in the server that depends on thread timing;
  the model fixes seat order. The deck holds one witch, so the human witches'
  interleaving does not arise.
- The messages sent to clients (candidate lists, the seer's result message,
  `game_end`) are not modelled. `SeerAnswer` gives the seer's verdict, and
  `StatusFor` gives the snapshot's content.
- The hunter sub-phase of the night (`process_hunters`) and the hunter branch
  of `player_night_action` are not modelled. The first is commented out and
  calls a predicate `Player` does not define. Nothing calls the hunter's day
  action; `RoleActions.HunterDay` models it as the role defines it.
- The probabilities 0.7 and 0.3 of the computer witch's rolls are not
  modelled; the rolls are boolean inputs.
- `server/events.py` is not part of this model: its `execute` methods are
  never called. The `client/` directory is a text client and an outdated
  server copy, and is not part of this model either.
- GameLoop.Play: models a finite prefix of the loop, one input per event. A
  game that never ends is seen only through its prefixes.
- Handlers.StatusFor: requires the viewer to hold a role. The engine reads the
  viewer's role name unconditionally and would crash on a player without one.
  After allocation every player holds a role.
- Phases.HandleNightPhase: requires the human wolf tally to have one entry per
  name, which is the shape of a dictionary. Every tally the model builds keeps
  this shape.
- Phases.HandleNightPhase: a target exists exactly when somebody has votes only
  if every entry of the human wolf tally counts some votes. An entry of zero
  would make the tally non-empty with nobody voted for. The engine's tally
  only ever gains entries by adding one, and `WolfReply` keeps every entry
  positive.
