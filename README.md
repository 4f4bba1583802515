# Auctioneer — a verified model of the auction core

Auctioneer is a Flask web application that runs a fantasy-baseball free-agent
auction. Managers nominate players into time slots, bid on them, and may match
the highest bid on a player they hold match rights for. A tiebreaker order
settles ties; the winner of a tie drops to the bottom of that order.

This project models the core of the application in Dafny and proves
properties of the model:

- the tiebreaker ledger (`tiebreaker.py`): dropping a winner to the bottom,
  and the batch edit that clears ranks and then reassigns them;
- the bid ledger and nomination lifecycle (`auction.py`, with the records of
  `model.py`): nominating, bidding, accepting a match, the league manager's
  update and delete, the open/match/closed listing and the results CSV;
- registration, login and the two view guards (`auth.py`); registration
  back-fills a bid of None for the new user on every nomination;
- slot scheduling (`slots.py` and its twin `blocks.py`, and `utils.py`):
  grouping slots by block, generating evenly spaced slots with their
  nomination window, deleting a round's future slots, and renumbering a round;
- the roster page's per-year salary totals (`rosters.py`);
- the league manager's user and player editors (`users.py`, `players.py`);
- the audit trail (`audit_log.py`): the journal, the wording of bid entries,
  the old/new value split of the edit loggers, and the filtered, paginated
  listing;
- the `init-db` command's import of `players.csv` and `slots.csv`
  (`commands.py`).

## Layout

| file | module | models |
|---|---|---|
| `wrappers.dfy` | `Wrappers` | `Option`, and Python truthiness of an optional integer |
| `text.dfy` | `Text` | `int()`, `str()`, `split`, `join`, `strip`, `replace`, `lower` |
| `sorting.dfy` | `Sorting` | Python's stable `sorted(key=...)` and list filtering |
| `model.dfy` | `Model` | the schema records, lookup by primary key, unique columns, `__str__` formats, bid ordering |
| `tiebreaker.dfy` | `Tiebreaker` | the `Ledger` class of tiebreaker orders |
| `auction.dfy` | `Auction` | the `Store` class of users and nominations with their bids |
| `auth.dfy` | `Auth` | register, login, `load_logged_in_user`, the guards |
| `utils.dfy` | `Utils` | `group_slots_by_block` |
| `schedule.dfy` | `Schedule` | the `SlotTable` class (slots.py and blocks.py) |
| `rosters.dfy` | `Rosters` | the `team_salary` accumulation |
| `users.dfy` | `Users` | the `Directory` class and the user editor |
| `players.dfy` | `Players` | the `Roster` class and the player editor |
| `audit_log.dfy` | `Audit` | the `Journal` class, the loggers and the listing |
| `commands.dfy` | `Commands` | the `Database` class and `init_db` |

Conventions:

- Times are whole minutes.
- Ids are natural numbers.
- An uncaught exception (ValueError from `int()`, IntegrityError at commit,
  AttributeError on `None`) is an outcome of its own, `Crashed`. It leaves
  the state as it was unless it comes after a commit, in which case the
  view's contract states what was committed.
- A flashed error is an outcome carrying the message text.
- Views that change the database are methods of a class whose fields are
  the tables. Each such method states its whole new state in terms of a
  function of the old state, and lemmas state what those functions mean.

## Model

| member | source | states |
|---|---|---|
| `Tiebreaker.Ledger.constructor` | auctioneer/model.py:12 | the ledger starts with the given users and orders, and the unique constraint holds |
| `Tiebreaker.Ledger.DropToBottom` | auctioneer/tiebreaker.py:74-99 | with the winner ranked, the new orders are `Dropped`, and the unique constraint still holds; with the winner unranked, a TypeError is raised exactly when some user is ranked, and nothing changes |
| `Tiebreaker.HitsRanked` | auctioneer/tiebreaker.py:79-83 | with an unranked winner, the first loop raises exactly when it meets a ranked user |
| `Tiebreaker.ScanAbove` | auctioneer/tiebreaker.py:77-87 | the first loop clears exactly the users ranked after the winner, records each one's order minus one, and computes the largest of their orders |
| `Tiebreaker.AssignAll` | auctioneer/tiebreaker.py:95-98 | the second loop gives every user of the updates dict its new order |
| `Tiebreaker.DropAssembled` | auctioneer/tiebreaker.py:77-99 | the two loops of `drop_to_tiebreaker_bottom` together compute `Dropped` |
| `Tiebreaker.MaxAboveBounds` | auctioneer/tiebreaker.py:78-85 | the running maximum is at least 0, is at least every order ranked after the winner, and stays 0 when nobody is ranked after it |
| `Tiebreaker.DropShifts` | auctioneer/tiebreaker.py:80-86 | every user ranked after the winner moves up by exactly one; every other user except the winner keeps its order; nobody gains or loses an order |
| `Tiebreaker.DropNoOp` | auctioneer/tiebreaker.py:89 | when nobody is ranked after the winner, no order changes |
| `Tiebreaker.DropPutsWinnerLast` | auctioneer/tiebreaker.py:84-90 | afterwards the winner's order is strictly greater than every other user's order |
| `Tiebreaker.DropGivesLargestOrder` | auctioneer/tiebreaker.py:84-90 | the winner's new order is the largest old order among the users ranked after it |
| `Tiebreaker.DropKeepsDistinct` | auctioneer/tiebreaker.py:80-99 | pairwise distinct orders stay pairwise distinct |
| `Tiebreaker.DropKeepsRelativeOrder` | auctioneer/tiebreaker.py:80-86 | any two ranked users other than the winner keep their relative order |
| `Tiebreaker.DropKeepsDense` | auctioneer/tiebreaker.py:80-99 | orders that are exactly 1..n stay exactly 1..n |
| `Tiebreaker.DropShiftedDense` | auctioneer/tiebreaker.py:80-99 | the same, in the case where somebody is ranked after the winner |
| `Tiebreaker.DropInRange` | auctioneer/tiebreaker.py:84-90 | with orders 1..n and the largest order after the winner being n, every new order lies in 1..n |
| `Tiebreaker.DropTopIsN` | auctioneer/tiebreaker.py:84-85 | with orders 1..n and somebody ranked after the winner, the largest order after the winner is n |
| `Tiebreaker.DropCovers` | auctioneer/tiebreaker.py:86-90 | with orders 1..n, every order 1..n is still held by someone after the drop |
| `Tiebreaker.ScanStep` | auctioneer/tiebreaker.py:80-87 | one step of the first drop loop clears and records exactly the user it looks at, when that user is ranked after the winner |
| `Tiebreaker.AssignStep` | auctioneer/tiebreaker.py:96-97 | one step of the assignment loop sets exactly one user's order |
| `Tiebreaker.ChangesStep` | auctioneer/tiebreaker.py:49-51 | one step of the edit loop adds the user to the changes exactly when its submitted value differs |
| `Tiebreaker.BlankStep` | auctioneer/tiebreaker.py:50 | recording a change clears that user's order |
| `Tiebreaker.ReadForm` | auctioneer/tiebreaker.py:36-51 | the edit loop stops with the "positive integers" error exactly when some submitted value is not a positive integer; otherwise it collects exactly the users whose value differs, and clears their orders |
| `Tiebreaker.EditAssembled` | auctioneer/tiebreaker.py:50-58 | clearing and then reassigning the changed users gives `Applied` |
| `Tiebreaker.Applied` | auctioneer/tiebreaker.py:56-58 | applying the changes keeps the set of users |
| `Tiebreaker.Ledger.Edit` | auctioneer/tiebreaker.py:33-69 | a value that is not a positive integer rejects the batch; no change saves nothing; colliding new orders roll the whole batch back with "must be unique"; otherwise exactly the changed users get their new order; the unique constraint always holds |
| `Model.FindBy` | auctioneer/auction.py:215 | the lookup of a row by its primary key (`db.session.get`, also at auctioneer/users.py:29 and auctioneer/players.py:26-28): finds a row with the id, or shows that none has it |
| `Auction.NextId` | auctioneer/model.py:63 | a new nomination's id is positive and larger than every id in use |
| `Auction.NominationCheck` | auctioneer/auction.py:106-121 | a bid that is not an integer (the empty bid included) raises; a bid below 10 reports "Minimum bid value is $10." and overrides a missing field; otherwise the first missing of player and slot is reported; the "required" and "must be an integer" messages can never be shown |
| `Auction.SeedBids` | auctioneer/auction.py:133-135 | the loop appends one bid per user, in user order: the nominator's holds the bid value, every other is None |
| `Auction.SeededFacts` | auctioneer/auction.py:126-135 | a new nomination has exactly one bid per user, and the only bid with a value is the nominator's, holding the bid value |
| `Auction.BidCheck` | auctioneer/auction.py:223-239 | bidding after the slot closes (strictly) flashes "Auction has closed."; at the closing minute it is still open; the nominator cannot clear their bid; a non-integer raises; a value below 10 is refused; an accepted value is at least 10 |
| `Auction.WithBid` | auctioneer/auction.py:244 | exactly one bid of one nomination gets the new value; everything else is unchanged |
| `Auction.WithBidKeepsInvariant` | auctioneer/auction.py:244-246 | setting a bid keeps one bid per user in every nomination, and the unique nomination columns |
| `Auction.MatchTakesTopBid` | auctioneer/auction.py:263-265 | accepting a match makes the nominator the winner, with a bid at least as high as every other bid of the nomination |
| `Auction.SameKeysKeepInvariant` | auctioneer/model.py:63-69 | a change that keeps every nomination's id, player, slot and bid owners keeps the store's invariant |
| `Auction.AddKeepsInvariant` | auctioneer/model.py:63-69 | adding a nomination with a fresh id and an unused player and slot keeps the unique columns and one bid per user |
| `Auction.MoveKeepsInvariant` | auctioneer/model.py:67-69 | moving a nomination to a slot no other nomination uses keeps the invariant |
| `Auction.RemoveKeepsInvariant` | auctioneer/model.py:79-84 | removing a nomination, bids and all, keeps the invariant |
| `Auction.Store.constructor` | auctioneer/model.py:60-84 | the store starts with the given users and no nomination, and the invariant holds |
| `Auction.Store.Nominate` | auctioneer/auction.py:100-147 | a failed check changes nothing; a player or slot already nominated fails the commit; otherwise one nomination is appended, with no winner and the seeded bids, and a player-nominated notification naming the nominator and the slot is added; a missing player or slot raises after the commit, with no notification |
| `Auction.Store.PlaceBid` | auctioneer/auction.py:212-250 | an unknown nomination aborts 404; a failed check changes nothing; otherwise only the actor's own bid on that nomination is replaced |
| `Auction.Store.Match` | auctioneer/auction.py:253-282 | anybody but the nominator gets 403; declining changes nothing here; accepting sets the nominator's bid to the top bid and makes them the winner, then adds an auction-won notification naming the player's manager and the first listed bid; a player without a manager who is a user raises after the accepted match is committed, with no notification |
| `Auction.Store.Update` | auctioneer/auction.py:162-191 | a non-manager gets 403; an unknown nomination 404; a missing slot is reported; a slot in use fails the commit; otherwise exactly the slot, matcher and winner are replaced, and a missing player raises while logging, after the commit |
| `Auction.Store.Delete` | auctioneer/auction.py:285-296 | a non-manager gets 403; an unknown nomination or one whose player is missing raises with nothing deleted; otherwise exactly that nomination is removed, with its bids |
| `Auction.JoinOne` | auctioneer/auction.py:41 | joining a nomination with the viewer's bids gives exactly one row |
| `Auction.NoJoin` | auctioneer/auction.py:41 | a viewer with no bid on a nomination gets no row for it |
| `Auction.OneRowPerNomination` | auctioneer/auction.py:41-44 | for a registered viewer the query yields exactly one row per nomination, joined with the viewer's bid |
| `Auction.Classify` | auctioneer/auction.py:50-59 | the listing loop: a row whose slot is missing raises; otherwise each list holds exactly the rows of its kind, in query order |
| `Auction.IndexStep` | auctioneer/auction.py:50-59 | one step of the listing loop appends the row to exactly the list of its kind |
| `Auction.Store.Index` | auctioneer/auction.py:38-66 | a row whose slot is missing raises; otherwise the three lists are the rows of each kind, each sorted by closing time, latest first |
| `Auction.ListsSplit` | auctioneer/auction.py:50-59 | the three lists together hold every row exactly once |
| `Auction.ListedOne` | auctioneer/auction.py:50-66 | one list holds exactly the rows of its kind, ordered latest first, rows with the same closing time in query order |
| `Auction.ListingFacts` | auctioneer/auction.py:50-66 | every row lands in exactly one list: ended with a winner → closed, ended with a matcher and no winner → match, otherwise open; each list is sorted latest first |
| `Auction.BidText` | auctioneer/auction.py:318 | `str()` of a bid value is non-empty and holds neither ';' nor ',' |
| `Auction.BidTexts` | auctioneer/auction.py:318 | one text per bid, in order |
| `Auction.ResultFields` | auctioneer/auction.py:302-319 | a result has the six columns of the header; it has none exactly when its player or winner is missing or the winner has no username |
| `Auction.ResultsShape` | auctioneer/auction.py:302-305 | the stream runs to its end exactly when every won nomination's row can be joined, and then has one line per won nomination |
| `Auction.StreamStopsAt` | auctioneer/auction.py:302-305 | a stream that stops at the first row without a username has sent exactly the lines of the won nominations before it |
| `Auction.StreamsStop` | auctioneer/auction.py:302-305 | every first failing row yields that truncated stream |
| `Auction.ResultLineRoundTrip` | auctioneer/auction.py:303-318 | a result line without ',' in its columns splits back into its six columns, and the Bids column splits back into the bid texts in listing order |
| `Auction.Store.ResultsText` | auctioneer/auction.py:299-327 | a crash before any output exactly when a won nomination's player or winner is missing; otherwise the header line first, then one line per won nomination when every winner has a username, and otherwise the lines before the first winner without one, the download stopping there |
| `Model.NewPlayer` | auctioneer/model.py:27-39 | a new player has the given required columns, no salary, contract, manager or matcher, and no hometown discount |
| `Model.Matching` | auctioneer/model.py:64-69 | the number of rows with a given key is at most the number of rows |
| `Model.NoneMatching` | auctioneer/model.py:64-69 | no row with the key means a count of zero |
| `Model.UniqueAtMostOne` | auctioneer/model.py:64-69 | a unique column holds each value at most once |
| `Model.OneNominationPerPlayerAndSlot` | auctioneer/model.py:64-69 | under the schema, a player is nominated at most once and a slot holds at most one nomination |
| `Model.UserLabel` | auctioneer/model.py:23-24 | `str(user)` is the username, or the team name when the username is empty or None |
| `Model.LabelsTellUsersApart` | auctioneer/model.py:8 | two users with set, non-empty usernames render differently |
| `Model.NominationLabel` | auctioneer/model.py:89-90 | `str(nomination)` starts with the player's name, ends with ')' and has the length of "name (position, team)" |
| `Model.Before` | auctioneer/model.py:90 | the text before the first given character is no longer than the text |
| `Model.BeforeAppend` | auctioneer/model.py:90 | reading up to a character skips a prefix that does not hold it |
| `Model.NameInLabelRoundTrip` | auctioneer/model.py:89-90 | the player's name is read back from the label when it holds no '(' |
| `Model.OrderedBids` | auctioneer/model.py:79-84 | a nomination lists as many bids as it has |
| `Model.OrderedBidsFacts` | auctioneer/model.py:82 | the listing is a permutation of the bids, values in descending order, NULL values last |
| `Model.FilteredValues` | auctioneer/model.py:82 | the valued part holds only values, the rest only NULLs |
| `Model.SortedValuesDescend` | auctioneer/model.py:82 | the valued bids sorted by value, largest first, descend |
| `Model.TopBidIsHighest` | auctioneer/model.py:82 | when any bid has a value, the first listed bid has the largest value |
| `Auth.UnclaimedTeams` | auctioneer/auth.py:34 | the offered teams are exactly the listed teams nobody has claimed, in list order |
| `Auth.SubsequenceOfTail` | auctioneer/auth.py:34 | a subsequence of the tail is a subsequence of the whole |
| `Auth.SubsequenceDropFirst` | auctioneer/auth.py:34 | dropping the first element keeps a subsequence |
| `Auth.RegisterError` | auctioneer/auth.py:43-50 | the first missing of username, password and team is reported; none exactly when all are given |
| `Auth.NextUserId` | auctioneer/model.py:7 | a new user's id is positive and larger than every id in use |
| `Auth.BackFilled` | auctioneer/auth.py:64-68 | every nomination is kept and gets one more bid |
| `Auth.BackFillKeepsInvariant` | auctioneer/auth.py:64-69 | after the back-fill every nomination has exactly one bid per user, the new user's being None, and the older bids are unchanged |
| `Auth.BackFill` | auctioneer/auth.py:64-69 | the loop appends a None bid for the new user to every nomination |
| `Auth.Register` | auctioneer/auth.py:22-79 | a missing field is reported and nothing changes; a taken username is reported as "already registered" and nothing changes; otherwise the user is added and every nomination back-filled |
| `Auth.FindByUsername` | auctioneer/auth.py:89-91 | finds a user with the username, or shows that none has it |
| `Auth.Login` | auctioneer/auth.py:82-105 | an unknown username and a wrong password give their own messages; a user whose password column is NULL makes the hash check raise; success stores exactly the user id in the session |
| `Auth.LoginSucceedsExactly` | auctioneer/auth.py:93-100 | with unique usernames, login raises exactly when that user has no stored hash, succeeds exactly when the stored hash checks, and the session holds that user's id |
| `Auth.LoggedInUser` | auctioneer/auth.py:108-115 | the loaded user is the one the session names, or none when the session names nobody that exists |
| `Auth.LoginThenLoad` | auctioneer/auth.py:98-115 | logging in and then loading the session's user gives back the user who logged in |
| `Auth.LoginRequired` | auctioneer/auth.py:124-132 | the view runs exactly when there is a user; otherwise the request is sent to the login page |
| `Auth.AdminRequired` | auctioneer/auth.py:135-143 | the view runs exactly for a league manager; another user gets 403; no user at all raises |
| `Auth.GuardedNeverRaises` | auctioneer/auth.py:124-143 | with both guards stacked, a missing user goes to the login page, a non-manager gets 403, and only a manager gets through |
| `Utils.GroupSlotsByBlock` | auctioneer/utils.py:4-14 | the result is `Groups`: each block's slots in input order, then sorted by closing time; the key order is `BlockOrder` |
| `Utils.Collect` | auctioneer/utils.py:5-9 | the first loop ends with `Collected`, each block that occurs mapped to its slots in input order, and with the key order `BlockOrder` |
| `Utils.AppendingCollects` | auctioneer/utils.py:5-9 | appending the slots one at a time, creating a block's list when the block is new, builds exactly `Collected` |
| `Utils.CollectStep` | auctioneer/utils.py:7-9 | one step of the first loop appends the slot to its own block's list and changes no other |
| `Utils.SortEach` | auctioneer/utils.py:11-12 | the second loop replaces every list by its sorted copy |
| `Utils.SortOne` | auctioneer/utils.py:12 | sorting one more entry advances the second loop |
| `Utils.AllSorted` | auctioneer/utils.py:11-14 | once every entry is sorted the dictionary is `Groups` |
| `Utils.GroupFacts` | auctioneer/utils.py:4-14 | a group holds exactly the slots of its block, as a permutation of them, sorted by closing time, slots with equal times in input order |
| `Utils.GroupKeys` | auctioneer/utils.py:7-8 | the keys are exactly the blocks that occur |
| `Utils.BlockOrderFacts` | auctioneer/utils.py:7-8 | `BlockOrder`, the dict's keys in order of first appearance, holds exactly the blocks of the rows, each once |
| `Utils.OrderStep` | auctioneer/utils.py:7-8 | one step of the first loop adds the slot's block at the end of the key order exactly when it is a new key |
| `Utils.SizesCons` | auctioneer/utils.py:6-9 | counting slots block by block, one more slot adds one to its block |
| `Utils.SizesTotal` | auctioneer/utils.py:6-9 | when every slot's block is listed, the counts add up to the number of slots |
| `Utils.EmptySizes` | auctioneer/utils.py:5 | no slots, no counts |
| `Utils.GroupSizes` | auctioneer/utils.py:4-14 | each group's size is its block's slot count |
| `Utils.GroupSizesAddUp` | auctioneer/utils.py:4-14 | the group sizes add up to the number of slots |
| `Schedule.CheckCreate` | auctioneer/slots.py:43-73 | text that is not an integer raises ValueError (the `except TypeError` never catches it); an existing number is reported and overrides a missing start date or time; otherwise the parsed number, count and spacing go ahead |
| `Schedule.Generated` | auctioneer/slots.py:82-84 | count slots are generated, none for a count below one |
| `Schedule.Generate` | auctioneer/slots.py:76-84 | the loop advances the closing time by the spacing for each slot |
| `Schedule.Converted` | auctioneer/slots.py:86 | the conversion keeps the number of slots |
| `Schedule.CreatedSlots` | auctioneer/slots.py:76-98 | the k-th created slot closes at start + k·spacing (converted); the nomination window opens a day less a minute before the last slot closes and closes five days before the first |
| `Schedule.CreateOwnsLabel` | auctioneer/slots.py:69-89 | after creating under a new number, that number's slots are exactly the new ones, and every other number's slots are untouched |
| `Schedule.AllKept` | auctioneer/slots.py:139-141 | a filter every slot passes keeps them all |
| `Schedule.DeleteFutureFacts` | auctioneer/slots.py:123-141 | the delete removes exactly the round's slots closing after now; what remains of the round is its slots closing at or before now, in order; other rounds are untouched; a slot closing exactly now is kept and not counted as closed; the closed count is at most what remains |
| `Schedule.FilterWeaker` | auctioneer/slots.py:128-140 | a weaker condition keeps at least as many slots |
| `Schedule.DeleteAsWritten` | auctioneer/slots.py:178-195 | the delete view as written raises and deletes nothing |
| `Schedule.DeleteAsWrittenKeepsFutureSlots` | auctioneer/slots.py:183 | a future slot of the round survives the view as written, while the intended delete removes it |
| `Schedule.Relabelled` | auctioneer/slots.py:166-167 | renumbering keeps the number of slots |
| `Schedule.Relabel` | auctioneer/slots.py:166-167 | the loop sets the new number on each slot of the old one |
| `Schedule.RelabelFacts` | auctioneer/slots.py:159-169 | renumbering to an unused number keeps closing times, gives the new number to exactly the old number's slots, leaves the others unchanged, and leaves no slot with the old number |
| `Schedule.SlotTable.constructor` | auctioneer/model.py:47-53 | the table starts with the given slots and no notification |
| `Schedule.SlotTable.Create` | auctioneer/slots.py:35-109 | a crash or a flashed error changes nothing; a start that does not parse or a count below one raises; otherwise the converted run is appended and the three notifications are scheduled |
| `Schedule.SlotTable.Edit` | auctioneer/slots.py:115-172 | "delete" (any case) removes the round's future slots, warns with the number of closed ones and cancels the three notifications; otherwise a non-integer raises, an existing number is reported, a new number renumbers the round, and the same number re-renders |
| `Schedule.SlotTable.Delete` | auctioneer/slots.py:178-195 | the corrected delete view removes the round's future slots and warns with the closed count |
| `Rosters.MinYear` | auctioneer/rosters.py:63 | the smallest year of the cap |
| `Rosters.MaxYear` | auctioneer/rosters.py:64 | the largest year of the cap |
| `Rosters.Extremes` | auctioneer/rosters.py:63-64 | a non-empty set of years has a smallest and a largest |
| `Rosters.AddPlayer` | auctioneer/rosters.py:68-74 | the inner loop raises exactly when the player counts in a year the cap lacks or has no salary; otherwise it adds the salary and one player to every year the player counts in, from the first cap year to the last year of the contract and the cap |
| `Rosters.TallyStep` | auctioneer/rosters.py:67-74 | adding the next player to the totals of the players before it |
| `Rosters.TeamSalary` | auctioneer/rosters.py:52-74 | an empty cap is reported and nothing is added up; otherwise the totals raise exactly when some player crashes, and are `Tallied` when none does |
| `Rosters.UnderContract` | auctioneer/rosters.py:68-71 | the players whose contract runs at least to the year |
| `Rosters.YearTotals` | auctioneer/rosters.py:67-74 | in every cap year, the player count is the number of players under contract that year and the salary is the sum of their salaries |
| `Rosters.NoCrashWhenContiguous` | auctioneer/rosters.py:71-72 | with every year between the first and last cap year present and every counted player salaried, adding up never raises |
| `Rosters.TotalsKeys` | auctioneer/rosters.py:62 | the totals have exactly the cap's years, and a year no contract reaches stays at zero |
| `Rosters.NothingCounted` | auctioneer/rosters.py:68-71 | when no contract reaches a year, its count and salary are zero |
| `Users.FormError` | auctioneer/users.py:42-54 | a tiebreaker order that is not an integer, the empty one included, yields "must be a number" and overrides the rest; otherwise the first missing of team name and short team name is reported; "Tiebreaker order is required." is never shown |
| `Users.Candidates` | auctioneer/users.py:60-78 | the six editable fields, each with its stored and submitted value |
| `Users.Updated` | auctioneer/users.py:81-86 | the six fields take the submitted values; the id, username and password stay |
| `Users.ChangedFields` | auctioneer/users.py:60-78 | a field is among the changes exactly when its stored and submitted values differ |
| `Users.OnlyDifferences` | auctioneer/users.py:60-78 | every recorded change is one of the six fields, with differing old and new values |
| `Users.NoChangesIffUnchanged` | auctioneer/users.py:60-89 | there are no changes exactly when the update leaves the user as it was |
| `Users.Note` | auctioneer/users.py:62-63 | one comparison records the field exactly when its values differ |
| `Users.Diff` | auctioneer/users.py:60-78 | the field-by-field comparison yields `Changes` |
| `Users.Directory.constructor` | auctioneer/model.py:7-12 | the table starts with the given users, ids and set tiebreaker orders distinct |
| `Users.Directory.Edit` | auctioneer/users.py:24-111 | an unknown user redirects with "User not found."; a GET or an invalid form changes nothing; a tiebreaker order another user holds raises at commit; otherwise the six fields are replaced, one audit entry with the changes' old and new values is logged exactly when something changed, and the success message names the team |
| `Players.Field` | auctioneer/players.py:32-33 | an empty field means nobody |
| `Players.IdTexts` | auctioneer/players.py:39 | the users' ids as text, one per user |
| `Players.FormError` | auctioneer/players.py:37-43 | no error exactly when both fields are empty or an existing user's id; an invalid matcher is the message reported even when the manager is invalid too |
| `Players.Chosen` | auctioneer/players.py:48-49 | an accepted field stores the id of a user whose id renders as the submitted text, or nobody |
| `Players.ChosenIsUnique` | auctioneer/players.py:39-49 | the stored id is the only one whose text was submitted |
| `Players.Roster.constructor` | auctioneer/model.py:27-39 | the table starts with the given players |
| `Players.Roster.Edit` | auctioneer/players.py:22-53 | a GET or an invalid form changes nothing; a valid form for a missing player raises; otherwise exactly the player's manager and matcher are replaced |
| `Audit.Keys` | auctioneer/audit_log.py:93-94 | one key per entry |
| `Audit.Fields` | auctioneer/audit_log.py:313-314 | one field name per change |
| `Audit.Encoded` | auctioneer/audit_log.py:110-111 | a dictionary is stored as JSON exactly when it is given and non-empty |
| `Audit.NewEntry` | auctioneer/audit_log.py:76-116 | the row carries the given fields; the actor is the given user or else the logged-in user; old and new values are stored exactly when non-empty; the client address and time come from the request |
| `Audit.BidKind` | auctioneer/audit_log.py:137-142 | no old value → "placed bid"; an old value and no new one → "removed bid"; both → "updated bid" |
| `Audit.BidValues` | auctioneer/audit_log.py:149-150 | a bid value is logged under "value" exactly when it is truthy, so a bid of 0 is dropped |
| `Audit.OldValues` | auctioneer/audit_log.py:313 | the old values under exactly the keys of the changes |
| `Audit.NewValues` | auctioneer/audit_log.py:314 | the new values under exactly the keys of the changes |
| `Audit.Rejoined` | auctioneer/audit_log.py:313-314 | pairing the two dictionaries keeps their length |
| `Audit.SplitRejoin` | auctioneer/audit_log.py:313-314 | splitting the changes into old and new values loses nothing: pairing them up again gives the changes back |
| `Audit.EditValuesStored` | auctioneer/audit_log.py:308-325 | an edit logger stores both dictionaries exactly when something changed, with the changes' keys |
| `Audit.Journal.constructor` | auctioneer/model.py:133-149 | the journal starts empty |
| `Audit.Journal.Log` | auctioneer/audit_log.py:76-116 | exactly one row, `NewEntry`, is appended, numbered after the last |
| `Audit.Journal.LogBid` | auctioneer/audit_log.py:135-153 | one sensitive "bid" row for the nomination, by the bidder, with the bid wording and the truthy values |
| `Audit.Journal.LogAdminPlayerEdit` | auctioneer/audit_log.py:308-325 | one "player" row with the change summary and the old/new split |
| `Audit.Journal.LogNominationEdit` | auctioneer/audit_log.py:346-363 | one "nomination" row with the change summary and the old/new split |
| `Audit.TotalPages` | auctioneer/audit_log.py:48 | at least one page, enough pages for every entry, and no page more than needed |
| `Audit.PageOf` | auctioneer/audit_log.py:50 | a page holds at most 50 entries |
| `Audit.PagesPrefix` | auctioneer/audit_log.py:50 | pages 1 to n, one after the other, are the first 50·n entries |
| `Audit.PagesCover` | auctioneer/audit_log.py:48-50 | reading pages 1 to `total_pages` lists every entry exactly once, in order |
| `Audit.PageBounds` | auctioneer/audit_log.py:48-50 | a page from 1 to `total_pages` is non-empty when there are entries; a page past it is empty |
| `Audit.ApplyFilters` | auctioneer/audit_log.py:31-45 | a user id that is not an integer raises; otherwise the rows are exactly the entries passing the three filters |
| `Audit.Index` | auctioneer/audit_log.py:18-71 | a page or user id that is not an integer raises; otherwise the listing is the requested page of the filtered entries, newest first, and the total and page count come from the same filters |
| `Audit.PageSlice` | auctioneer/audit_log.py:50 | a page holds only rows of the input and keeps their order |
| `Audit.ListingFacts` | auctioneer/audit_log.py:28-50 | every listed entry passes the filters, sensitive entries are hidden unless asked for, and the page is newest first |
| `Audit.FilterSame` | auctioneer/audit_log.py:31-45 | two filters that agree everywhere select the same entries |
| `Audit.FilterAll` | auctioneer/audit_log.py:31-36 | a filter every entry passes keeps them all |
| `Commands.CleanLine` | auctioneer/commands.py:18 | a cleaned players.csv line holds no double quote |
| `Commands.PlayerFields` | auctioneer/commands.py:17-20 | one more column than the cleaned line has commas; no column holds ',' or '"'; joining the columns with ',' gives the cleaned line |
| `Commands.PlayerLineRoundTrip` | auctioneer/commands.py:17-20 | a line written from clean columns and a newline is read back as those columns |
| `Commands.StripNewline` | auctioneer/commands.py:18 | the newline that ends a line is stripped |
| `Commands.PlayerRows` | auctioneer/commands.py:22-25 | the import fails exactly when a line has fewer than four columns; otherwise player i+1 takes columns 0 to 3 as Fantrax id, name, team and position |
| `Commands.ExtraColumnsIgnored` | auctioneer/commands.py:22-25 | columns past the fourth play no part |
| `Commands.SlotFields` | auctioneer/commands.py:29 | slots.csv columns keep their quotes; joining them gives the stripped line |
| `Commands.SlotRows` | auctioneer/commands.py:28-34 | the slot rows fail exactly when a line is short or its time does not parse; otherwise each row takes its block from column 0 and its time from column 1 |
| `Commands.ImportAsWritten` | auctioneer/commands.py:31-34 | as written, any slots.csv line makes the import fail |
| `Commands.Import` | auctioneer/commands.py:9-36 | the corrected import succeeds exactly when every line is well formed and the Fantrax ids are distinct, and then stores every player and every slot |
| `Commands.AsWrittenLosesImport` | auctioneer/commands.py:31-36 | with well-formed files holding a slot, the corrected import stores every player and slot while the code as written stores nothing |
| `Commands.Database.constructor` | auctioneer/model.py:27-53 | the database starts empty |
| `Commands.Database.InitDbAsWritten` | auctioneer/commands.py:9-36 | the command as written: the tables are dropped, and they end up empty whenever the import fails |
| `Commands.Database.InitDb` | auctioneer/commands.py:9-36 | the corrected command: the tables hold exactly `Import`, or are empty when it fails |
| `Text.ParseInt` | auctioneer/users.py:52 | `int()` of a sign and digits; None stands for ValueError |
| `Text.IntToString` | auctioneer/players.py:39 | `str()` of an integer is non-empty and starts with a sign or a digit |
| `Text.ParseIntOfIntToString` | auctioneer/players.py:39 | parsing the rendering of an integer gives the integer back |
| `Text.IntToStringInjective` | auctioneer/players.py:39 | two integers render the same exactly when they are equal |
| `Text.Split` | auctioneer/commands.py:18 | `split` always gives at least one field |
| `Text.SplitJoin` | auctioneer/commands.py:18 | joining the fields of a split gives the text back |
| `Text.JoinSplit` | auctioneer/auction.py:305 | splitting a join of separator-free fields gives the fields back |
| `Text.Strip` | auctioneer/commands.py:18 | `strip` never lengthens, leaves no such character at either end, and changes nothing when there is none |
| `Text.StripSlice` | auctioneer/commands.py:18 | `strip` removes a run of the character at each end and nothing else |
| `Text.Remove` | auctioneer/commands.py:18 | `replace(c, "")` removes every c and nothing else |
| `Text.Lower` | auctioneer/slots.py:123 | `lower` keeps the length and every lower-case letter |
| `Sorting.SortByFacts` | auctioneer/utils.py:12 | `sorted` is a permutation, ordered by the key, and stable |
| `Sorting.FilterMembers` | auctioneer/auction.py:50-59 | filtering keeps exactly the elements that pass |
| `Sorting.FilterFilter` | auctioneer/slots.py:139-141 | filtering twice is filtering once by both conditions |
| `Sorting.FilterSplit` | auctioneer/auction.py:50-59 | filtering by a condition and by its negation splits the rows: together they are a permutation of them |
| `Sorting.FilterAgree` | auctioneer/auction.py:50-59 | two conditions that agree on every row select the same rows |

## Left out

- Winner selection, tie resolution, hometown-discount matching, declining a
  match and the closing sweep: `close_nomination`, `get_open_slots_for_user`
  and `convert_slots_timezone` have no body in the code modelled. A declined
  match is the outcome `Declined`, with the rest handed to that code.
- Notifications: the slot views and the nominate and match views record the
  notifications they add as a list of events naming what the message
  reads; the message text, its send time and sending it (Discord, Slack)
  are not modelled.
- Auction.Store.Match: on a declined match the view adds the auction-won
  notification after `close_nomination`; that notification is not recorded,
  since what `close_nomination` leaves behind is not part of this model.
- Configuration lookup: the salary cap is a parameter.
- Password hashing: the hash of a submitted password is a parameter, and
  checking a password is a function parameter.
- Time: `utcnow()` is a parameter `now` in whole minutes; `strptime` is a
  parameter (`parseTime`, or a start already parsed); the US/Eastern to UTC
  conversion is a function parameter.
- `Text.ParseInt` models `int()` on an optional sign followed by ASCII
  digits; the surrounding whitespace and the underscores `int()` also
  accepts are not modelled.
- JSON encoding of the audit dictionaries is a function parameter, and the
  text of a change summary is not escaped.
- Reading `players.csv` and `slots.csv` and decoding them as UTF-8: the
  lines are given.
- The other audit loggers (`log_player_update`, `log_nomination`,
  `log_match_decision`, `log_player_signed`, `log_config_change`,
  `log_csv_import`, `log_tiebreaker_update`, the slot loggers): each only
  fixes the arguments of `log_audit`, which `Audit.Journal.Log` models.
- The dropdown lists of the audit listing and of the editors, the
  `index` listings of users and players, and all page rendering.
- A page number below one in the audit listing: the model reads it as
  offset 0, as SQLite does with a negative offset.
- Entries of the audit listing with the same creation time, and
  nominations with the same closing time, keep their query order; the
  database does not promise an order for them.
- The `print` of the player editor's two fields.
- The two guards are modelled once (`Auth.LoginRequired`,
  `Auth.AdminRequired`, `Auth.GuardedNeverRaises`) and not repeated in the
  contract of each view.
- Players.Roster.Edit: the source stores the submitted id text in an integer
  column, which the database converts; the model stores the id of the user
  whose id renders as that text.
- Auction.Store.Nominate: the source stores the submitted bid text in the
  nominator's integer `value` column, which the database converts; the model
  stores the integer that the same text parses to in the view's own check.
- Session plumbing, logging to the application logger, `logout`, and the
  `__init__`, `admin`, `static` and `overview` modules.

## Findings

| source | as written | input that shows it | evidently intended | confidence | as-written member | corrected member |
|---|---|---|---|---|---|---|
| auctioneer/slots.py:183 | `.scalars.all()` (also at auctioneer/blocks.py:183) reads an attribute of the bound method `scalars`, which raises AttributeError before anything is deleted | any POST to the delete view, e.g. round 1 with a slot closing after now | `.scalars().all()`: delete the round's slots closing after now and warn about the closed ones | not executed | `Schedule.DeleteAsWritten`, `Schedule.DeleteAsWrittenKeepsFutureSlots` | `Schedule.DeleteFutureFacts`, `Schedule.SlotTable.Delete` |
| auctioneer/commands.py:31-33 | `Slot(block=..., ends_at=...)` passes keywords the slot table (auctioneer/model.py:47-54) does not declare, so the default constructor raises TypeError; the tables are already dropped and the players never committed | a slots.csv with one well-formed line | build each slot row from its block and closing time, as auctioneer/auction.py and auctioneer/utils.py also read the slot table, so that every player and slot is stored. This is one instance of a general mismatch between the views and auctioneer/model.py: auctioneer/auth.py:54-57 (`User(team=...)`), auctioneer/auction.py:126-131 (`matcher_id`, `winner_id`) and the slot columns left unset at auctioneer/slots.py:83-89 fail against that schema in the same way. Every view, this command included, is modelled in its own view of the tables; `Commands.ImportAsWritten` is the command run against auctioneer/model.py's slot table | not executed | `Commands.ImportAsWritten`, `Commands.AsWrittenLosesImport` | `Commands.Import`, `Commands.Database.InitDb` |
