# A verified model of an in-memory Redis server

The server keeps typed values under keys, answers commands of many client sessions in RESP2, and runs
transactions. This project models the parts of it where an error would be hard to see, and proves what
they promise. The code that changes objects in place is modelled by classes and methods that change the
same fields; each method is proved against a plain specification, and the promises are proved about that.
SetLaws, Serving, Decoding, ListLaws and ExpiryLaws say what those specifications mean case by case, in terms
of look-ups, places and comparisons.

- **Keys, Entries, SkipLinks, SortedSet.** The sorted set: an indexable skip list with up to 32 levels, a
  span on every link, back pointers, a tail, a level that shrinks and grows, and a map from member to
  score. A ghost `spine` lists the head and the nodes in order. `Valid()` says that it is strictly sorted
  by (score, key), that every link on every level in use leads to the next node that reaches the level and
  that its span is the exact distance (for a null link, the distance to the last node), that `prev` and
  `tail` are the reverse chain, that the top level is in use unless it is the first, and that the map and
  `length` agree with the chain. Every mutator keeps it for every choice of node heights, and says what it
  does to the sequence of entries.
- **SetRuns, SetLaws.** The set seen from outside is a map. Every operation is a step of a machine on that
  map and every answer a function of it, so node heights cannot be observed (in unique mode: as long as
  heights do not decide about score 0).
- **UniqueMode.** What unique mode does at score 0, the one place where heights show.
- **SetIntersection, Zadd.** Intersection of any number of sets, and the ZADD command.
- **Transactions, Serving, CommandTable, Servers.** Sessions, MULTI/EXEC/DISCARD, the queue, and the
  microtasks that fill EXEC's reply array, first as one step function on a world of sessions over a shared
  store, then as objects whose methods take exactly that step.
- **Resp, Decoding.** The printer of replies, and a reader that inverts it.
- **Occurrences, Lists, ListRuns, ListLaws.** List commands on lists changed in place: LPUSH, RPUSH, LPOP,
  RPOP, LTRIM, LREM, RPOPLPUSH.
- **Expiry, ExpiryLaws.** The key space that drops an expired key only when it is looked up, EXPIRE and RENAME.

## What turned out not to hold

Each of these is stated as a theorem with its exact extent, or shown by a concrete input.

- `count` answers 0 for a range that holds exactly one of several elements (`SortedSets.SortedSet.Count`; a run
  that shows it: `SetRuns.CountForgetsOne`).
- `rank` has no answer for the member whose name is empty (`SortedSets.SortedSet.Rank`), and the access by
  index answers -1 with the head node (`SortedSets.SortedSet.Get`).
- In unique mode the score 0 collides with the value that the head carries. `add` does what it is meant to
  do, refuse a score exactly when another key has it and otherwise store it, if and only if it does not look
  for an untaken 0 in a chain whose topmost level starts at 0 or above (`SortedSets.FateIs`). Otherwise it
  refuses a score that nobody has, or drops the member from the chain without an error while the map still
  has it (`UniqueMode.ForgottenMember`). When the other members' scores have one sign, that sign says which
  (`UniqueMode.KeptWhen`); when they have both, it depends on the heights of the nodes
  (`UniqueMode.HeightsDecide`), and nowhere else does it (`UniqueMode.HeightsDoNotMatter`).
- LREM with a negative count compares places in the list with a number of occurrences, so it does not
  always take the last ones (`ListRuns.RemovesWrongOccurrence`; exactly when it does:
  `ListRuns.RemovesFromTail`).
- LTRIM with a stop far before the head keeps elements, because JavaScript's `slice` counts a negative end
  from the end once more (`ListRuns.TrimKeepsRange`; an input: `ListRuns.TrimKeepsTooMuch`).
- The names that are never queued are found by a substring test, and "discard" contains "scard": SCARD
  inside a transaction runs at once (`Transactions.ScardRunsInside`). It is the only other name of the
  command table that passes the test (`CommandTable.OnlyThese`).
- The logging in `Database.merge` calls a method of the value of plain keys, which have none. As the source
  is written, no ZADD with readable scores stores anything (`Zadd.ExecuteAsWritten`). `Zadd.Execute` is ZADD
  without that logging.
- A status or error text with a line end inside is not read back (`Resp.RoundTrip`), and then different
  replies can print alike (`Resp.DirtyLinesCollide`).
- Lazy expiry is indistinguishable from eager expiry only as long as the clock never goes back
  (`Expiry.ClockDecides`).

## Model

| member | source | states |
|---|---|---|
| SortedSets.SortedSet.constructor | src/resp/data/sorted-set.ts:159-162 | a new set is valid and empty |
| SortedSets.SortedSet.Empty | src/resp/data/sorted-set.ts:302-320 | from any state the set becomes valid and empty, on a fresh head |
| SortedSets.SortedSet.DescendForInsert | src/resp/data/sorted-set.ts:878-911 | the descent fails exactly when unique mode refuses the score; otherwise every update[i] is the level's last node before the sorted place and rank[i] its position, update[0] the place itself |
| SkipLinks.GrowLevels | src/resp/data/sorted-set.ts:914-922 | levels that come into use are correctly linked from the head, whose stale spans are reset, and the update vector covers them |
| SkipLinks.HangNode | src/resp/data/sorted-set.ts:929-936 | on the levels the new node reaches, links and spans become those of the longer chain |
| SkipLinks.StretchLevels | src/resp/data/sorted-set.ts:938-940 | on the levels above it, the link that passes over the new node grows by one |
| SkipLinks.SpliceIn | src/resp/data/sorted-set.ts:929-940 | together the two loops leave every link and span of every level right for the chain with the new node |
| SortedSets.SortedSet.AttachBack | src/resp/data/sorted-set.ts:942-949 | back pointers and tail are again the exact reverse chain |
| SortedSets.SortedSet.RandomLevel | src/resp/data/sorted-set.ts:1009-1017 | any height from 1 to 32 |
| SortedSets.SortedSet.Insert | src/resp/data/sorted-set.ts:867-953 | null exactly when unique mode refuses the score, and then nothing changes; otherwise the entry goes in at its sorted index, old[..r] + [new] + old[r..], with the whole skip list intact |
| SortedSets.SortedSet.DescendBefore | src/resp/data/sorted-set.ts:957-967 | on every level the last node before (score, key) |
| SkipLinks.Unlink | src/resp/data/sorted-set.ts:989-996 | every link and span of every level is right for the chain without the node |
| SortedSets.SortedSet.RemoveNode | src/resp/data/sorted-set.ts:983-1007 | one node leaves; links, spans, back pointers, tail and level are right again, and the level does not grow |
| SortedSets.SortedSet.DropEmptyLevels | src/resp/data/sorted-set.ts:1004-1006 | the level falls to the highest one in use, or 1 |
| SortedSets.SortedSet.Remove | src/resp/data/sorted-set.ts:955-981 | exactly the entry given leaves the chain, or nothing when it is not there |
| SortedSets.SortedSet.Rem | src/resp/data/sorted-set.ts:574-593 | the key leaves chain and map, its score is the answer, everything else stays |
| SortedSets.SortedSet.Add | src/resp/data/sorted-set.ts:188-231 | unless refused, the score is stored and the previous one answered; refused, which only happens in unique mode, the set is as before although the node was taken out and put back; the set stays valid if and only if it does not lose a member scored 0 to a score that another key has |
| SortedSets.SortedSet.IncrBy | src/resp/data/sorted-set.ts:331-364 | the sum is the old score, or 0 when absent, plus the increment, and is offered as add offers it |
| SortedSets.SortedSet.Card | src/resp/data/sorted-set.ts:243-249 | the number of entries |
| SortedSets.SortedSet.First | src/resp/data/sorted-set.ts:825-842 | the first node that scores at least min, or none |
| SortedSets.SortedSet.Get | src/resp/data/sorted-set.ts:844-865 | the node of rank index; the head for -1; otherwise none |
| SortedSets.SortedSet.Rank | src/resp/data/sorted-set.ts:539-572 | the index of the member's entry in the sorted sequence; none exactly for absent members and the empty name |
| SortedSets.SortedSet.Count | src/resp/data/sorted-set.ts:258-295 | the number of entries in [min, max], except that one of several counts as none |
| SortedSets.SortedSet.CountFrom | src/resp/data/sorted-set.ts:286-291 | the spans walked from a node add up to the distance to the last score up to max |
| SortedSets.CountSpec | src/resp/data/sorted-set.ts:258-295 | the two shortcuts of count agree with a plain filter of the entries |
| SortedSets.SortedSet.Range | src/resp/data/sorted-set.ts:383-464 | exactly the entries whose rank lies between start and stop, both included, negative ones counted from the end |
| SortedSets.SortedSet.RangeByScore | src/resp/data/sorted-set.ts:466-537 | the reply for the entries of a score range with inclusive or exclusive ends, which are those of SetLaws.ScoresListed |
| SetLaws.ScoresListed | src/resp/data/sorted-set.ts:507-536 | an entry is listed exactly when its score is above the minimum, or at it unless that is exclusive, and likewise below the maximum; absent and infinite ends bound nothing; each once, in order, the k-th item of the reply being the k-th entry |
| SetLaws.RanksListed | src/resp/data/sorted-set.ts:402-423 | exactly the ranks between start and stop are listed or taken, negative ends counted from the end, written out |
| SetLaws.ScoresLeft | src/resp/data/sorted-set.ts:674-727 | exactly the entries that miss one of the inclusive ends stay |
| SetLaws.ShowLists | src/resp/data/sorted-set.ts:786-801 | replies hold, one by one, the pairs of key and score, or the keys |
| SetLaws.KeyLessMeans | src/resp/data/sorted-set.ts:895 | keys are compared at the first unit in which they differ, or where one of them ends |
| SortedSets.SortedSet.ToArray | src/resp/data/sorted-set.ts:764-804 | all entries in order |
| SortedSets.SortedSet.KeyList | src/resp/data/sorted-set.ts:366-381 | all members in order |
| Entries.SiftIsSlice | src/resp/data/sorted-set.ts:466-537 | filtering by an inclusive range of scores is one block of the sorted sequence, between the places of its two ends |
| Entries.RanksAreWindow | src/resp/data/sorted-set.ts:402-423 | normalised bounds select exactly the ranks that the unnormalised ones describe |
| SortedSets.SortedSet.Expel | src/resp/data/sorted-set.ts:983-1007 | after one removal of a block the precomputed update vector is still the predecessor vector, although the level may have shrunk |
| SortedSets.SortedSet.RemRangeByRank | src/resp/data/sorted-set.ts:595-672 | exactly the entries of rank start up to but not including end leave, and their number is the answer |
| SortedSets.SortedSet.RemRangeByScore | src/resp/data/sorted-set.ts:674-727 | exactly the entries with scores in [min, max] leave, and their number is the answer |
| SortedSets.SortedSet.AddAll | src/resp/data/sorted-set.ts:233-241 | the entries are offered one after the other up to the first refusal; outside unique mode the map becomes the override of the old one by the other set's; a set merged with itself stays as it is; the other set is unchanged |
| SortedSets.MergedOverride | src/resp/data/sorted-set.ts:233-241 | outside unique mode offering all entries one after the other is map override and meets no refusal |
| SortedSets.PutSpec | src/resp/data/sorted-set.ts:188-231 | taking a key's entry out and splicing the new one in lists the updated map in order, and splicing the old one back restores the sequence |
| Entries.SortedListingUnique | src/resp/data/sorted-set.ts:764-804 | a set of entries has only one sorted listing |
| SortedSets.OthersRefuse | src/resp/data/sorted-set.ts:884-911 | the chain without a key refuses a score exactly when another key has it, or it is 0 and the topmost level starts at 0 or above |
| SortedSets.FateIs | src/resp/data/sorted-set.ts:188-231 | add refuses a score exactly when another key has it, and otherwise stores it, if and only if it does not look for an untaken 0 where the head stands for 0; what happens otherwise; and exactly when a key is lost |
| SortedSets.SignsDecide | src/resp/data/sorted-set.ts:884-911 | when the other members' scores have one sign, it decides whether the head stands for 0 |
| SortedSets.OfferIs | src/resp/data/sorted-set.ts:188-231 | where the outcome is foreseen, it is the one that the map determines |
| SetRuns.RankIs | src/resp/data/sorted-set.ts:539-572 | an index with the member's entry is the rank that the map alone determines |
| SetRuns.Apply | src/resp/data/sorted-set.ts:188-727 | every operation, queries and mutators, score 0 in unique mode included where it is foreseen, is the step of the machine on maps: new map and answer are functions of the old map |
| SetLaws.ScoreStep | src/resp/data/sorted-set.ts:574-593 | on the machine, score, rem, add without a score and empty in terms of the map |
| SetLaws.StoreStep | src/resp/data/sorted-set.ts:188-231 | on the machine, add and incrBy outside unique mode store the score and answer the old one |
| SetLaws.UniqueStep | src/resp/data/sorted-set.ts:188-231 | on the machine, unique mode refuses a score that another key has, and 0 where no other key has less, and then changes nothing |
| SetLaws.RankStep | src/resp/data/sorted-set.ts:539-572 | the rank of a named member is its place among all members in order |
| SetLaws.CountStep | src/resp/data/sorted-set.ts:258-295 | count is the number of keys whose scores meet both ends, except that one of several counts as none |
| SetLaws.RangeStep | src/resp/data/sorted-set.ts:383-464 | range answers with the keys whose places lie between the ends |
| SetLaws.RangeByScoreStep | src/resp/data/sorted-set.ts:466-537 | rangeByScore answers with the keys whose scores meet both ends, in order |
| SetLaws.RemRangeByScoreStep | src/resp/data/sorted-set.ts:674-727 | exactly the keys whose scores meet both ends go, and are counted |
| SetLaws.RemRangeByRankStep | src/resp/data/sorted-set.ts:595-672 | exactly the keys whose places lie from start to before end go, and are counted |
| SetLaws.CardStep | src/resp/data/sorted-set.ts:243-249 | card is the size of the map |
| SetRuns.Drive | src/resp/data/sorted-set.ts:188-727 | so is every run; in unique mode the set ends with all scores apart |
| SetRuns.Twins | src/resp/data/sorted-set.ts:1009-1017 | two sets driven by the same foreseen operations give equal answers whatever heights each drew |
| SetRuns.UniqueRunKeepsScoresApart | src/resp/data/sorted-set.ts:890-911 | on the machine, which loses nothing, no run of unique mode brings two keys to one score |
| UniqueMode.AddKeepsScoresApart | src/resp/data/sorted-set.ts:203-229 | on the set itself, add in unique mode leaves all scores apart if and only if it loses no key |
| SetRuns.CountForgetsOne | src/resp/data/sorted-set.ts:294 | a set of two in which a range lists one member and counts none |
| SetRuns.RankAfterGet | src/resp/data/sorted-set.ts:539-572 | rank inverts the access by index for every index |
| SetRuns.GetAfterRank | src/resp/data/sorted-set.ts:844-865 | access by index inverts rank for every member with a name |
| UniqueMode.KeptWhen | src/resp/data/sorted-set.ts:903-911 | where heights do not decide, unique mode does what it is meant to do if and only if no untaken 0 is looked for or all other scores are negative |
| UniqueMode.HeightsDoNotMatter | src/resp/data/sorted-set.ts:903-911 | any two valid sets with equal scores treat a score alike, unless an untaken 0 is looked for among scores of both signs |
| UniqueMode.ForeseenMeans | src/resp/data/sorted-set.ts:903-911 | an operation is foreseen if and only if heights do not decide about it and it loses no key |
| UniqueMode.Place | src/resp/data/sorted-set.ts:867-953 | add for a new key with the height that was drawn: one of the outcomes that add allows |
| UniqueMode.Build | src/resp/data/sorted-set.ts:1009-1017 | any listing that starts below 0 is reached by adding it in order, with the nodes of either sign the taller ones |
| UniqueMode.TallDecide | src/resp/data/sorted-set.ts:903-911 | among other scores of both signs the sign of the taller nodes decides whether the head stands for 0 |
| UniqueMode.HeightsDecide | src/resp/data/sorted-set.ts:903-911 | for every map of scores and every change in which an untaken 0 is looked for among scores of both signs, two runs of add reach valid sets with these scores, of which one does what is meant and one does not |
| UniqueMode.ForgottenMember | src/resp/data/sorted-set.ts:203-229 | a run of unique mode after which two keys have one score and one of them is not listed, with no error reported |
| SetIntersection.Intersect | src/resp/data/sorted-set.ts:37-100 | for any number of sets: the keys that all sets have, in the order of the last; a single non-empty set is a type error |
| SetIntersection.Binary | src/resp/data/sorted-set.ts:102-114 | the two-set version computes the same function |
| SetIntersection.Ternary | src/resp/data/sorted-set.ts:116-133 | so does the three-set version |
| SetIntersection.General | src/resp/data/sorted-set.ts:76-100 | so does counter stamping |
| SetIntersection.IntersectionIsExact | src/resp/data/sorted-set.ts:37-133 | that function lists a key exactly when every set has it, and once |
| SetIntersection.IntersectionInOrder | src/resp/data/sorted-set.ts:37-133 | the keys stand in the order of their scores in the last set, equal scores in the order of the keys |
| Zadd.ParseInput | src/resp/command/sset/zadd-command.ts:137-165 | a set of the members and scores given, or nothing exactly when some score is not a number |
| Zadd.ExecuteAsWritten | src/resp/data/database.ts:49-60 | as written, ZADD with readable scores fails with a type error, and whatever its parameters the key keeps what it held |
| Zadd.LogMerge | src/resp/data/database.ts:50-60 | the logging of merge throws exactly for a set that is not empty |
| Zadd.Execute | src/resp/command/sset/zadd-command.ts:99-135 | ZADD without that logging: even parameter count and unreadable scores fail and change nothing; otherwise the stored map is the old one overridden by the given one, and the reply is the growth in size |
| Zadd.Merge | src/resp/command/sset/zadd-command.ts:123-128 | a new set with the old scores overridden by the new ones; the old set is unchanged |
| Zadd.ReplyCountsNewMembers | src/resp/command/sset/zadd-command.ts:131 | the growth in size is the number of distinct members that were not there before |
| Zadd.GivenMembers | src/resp/command/sset/zadd-command.ts:144-155 | the members given are exactly the texts at the even positions from 2 on |
| Zadd.GivenIsLastMention | src/resp/command/sset/zadd-command.ts:144-155 | a member mentioned twice ends up with the score of its last mention |
| Servers.Session.QueueRequest | src/server/session.ts:84-90 | the request goes to the end of the queue, which is opened if need be |
| Servers.Session.AbortTransaction | src/server/session.ts:92-100 | inside a transaction queue and mark are dropped; outside nothing changes, the mark included |
| Servers.Session.GetTransaction | src/server/session.ts:102-108 | hands out the queue and closes the transaction |
| Servers.Session.StartTransaction | src/server/session.ts:120-128 | opens an empty queue and clears the mark; inside a transaction it loses the queue and keeps the mark |
| Servers.Server.Connect | src/server/resp-server.ts:131-153 | a new client gets a session of its own, out of transaction; nothing else changes |
| Servers.Server.Null | src/resp/command/null-command.ts:10-18 | marks the session, in a transaction or not, and names the command and its parameters |
| Servers.Server.Multi | src/resp/command/multi-command.ts:25-36 | takes the step of the world for MULTI |
| Servers.Server.Discard | src/resp/command/discard-command.ts:26-37 | takes the step of the world for DISCARD |
| Servers.Server.Exec | src/resp/command/exec-command.ts:32-54 | takes the step of the world for EXEC |
| Servers.Server.RunAll | src/resp/command/exec-command.ts:43-52 | the loop runs the queue first to last, each command on the store and current database that the one before it left and all with the database of the moment of EXEC; the replies wait as microtasks in that order |
| Servers.Server.ExecSync | src/resp/processor/command-wrapper.ts:36-110 | arity, queue or execute: the step of the world for every known command |
| Servers.Server.Receive | src/server/resp-server.ts:70-87 | serving a message is the world's step, whatever the command |
| Servers.Server.Settle | src/server/resp-server.ts:80-86 | running all microtasks publishes what the world settles to |
| Servers.Server.RunMicrotask | src/server/resp-server.ts:80-86 | one microtask is the world's step: a reply joins its array, or an answer is sent |
| Servers.Drive | src/server/resp-server.ts:70-87 | any interleaving of messages and microtasks on the objects is a run of the world, and what clients have got is a prefix of what they deserve, all of it once no microtask is left |
| Transactions.ControlNamesBypass | src/resp/processor/command-wrapper.ts:71-73 | EXEC, DISCARD and MULTI are never queued |
| Transactions.QueuedExactly | src/resp/processor/command-wrapper.ts:71-80 | inside a transaction a well-formed request is queued exactly when its name passes the source's substring test |
| Transactions.QueueInTurn | src/resp/command/exec-command.ts:43-52 | a queue of database commands runs first to last: there are states between the commands such that each command, handed the one database, leads from its state to the next and gives its reply |
| Serving.OutsideRuns | src/resp/processor/command-wrapper.ts:81-91 | outside a transaction a well-formed database command runs at once on the store and the session's database: store, current database and reply are what it makes of them, and nobody else changes |
| Serving.Unknown | src/resp/command/null-command.ts:10-18 | an unknown command is answered by name and parameters and marks the session, nothing else |
| Serving.Missized | src/resp/processor/command-wrapper.ts:49-55 | a wrong number of parameters, minimum and maximum written out, is answered by name and marks an open transaction, nothing else |
| Serving.OutsideControls | src/resp/command/multi-command.ts:30-35 | outside a transaction MULTI opens an unmarked one and answers OK; EXEC and DISCARD answer that they need one |
| Serving.InsideQueues | src/resp/processor/command-wrapper.ts:71-80 | inside one a request whose name does not pass the substring test goes to the end of the queue and is answered QUEUED |
| Serving.InsideControls | src/resp/command/discard-command.ts:31-36 | inside one MULTI does not nest, DISCARD drops it, EXEC of a marked one drops it with EXECABORT; nothing runs |
| Serving.ExecRuns | src/resp/command/exec-command.ts:37-53 | EXEC of an unmarked transaction runs its queue first to last, every command with the database of the moment of EXEC, and answers the replies in that order |
| Serving.SizedMeans | src/resp/processor/command-wrapper.ts:49 | a request is well-formed exactly when its command is known and the number of parameters lies between minimum and maximum, where there is one |
| Serving.QuotedInTurn | src/resp/command/null-command.ts:12-15 | the parameters of an unknown command are quoted one after the other |
| Transactions.ScardRunsInside | src/resp/processor/command-wrapper.ts:73 | SCARD inside a transaction runs at once on the store of that moment |
| CommandTable.OnlyThese | src/resp/processor/command-suite.ts:88-438 | of all names in the command table exactly exec, discard, multi and scard pass the substring test |
| Transactions.QueueHoldsBodies | src/resp/processor/command-wrapper.ts:71-80 | the queue holds nothing but database commands |
| Transactions.TransactionIsPrivate | src/server/session.ts:84-128 | over every interleaving, a session's transaction is a function of its own requests |
| Transactions.OpenTransaction | src/resp/processor/command-wrapper.ts:48-80 | while a transaction is open, exactly the well-formed queueable requests pile up in order, and exactly an arity failure or an unknown command marks it |
| Transactions.ExecDecides | src/resp/command/exec-command.ts:37-53 | for every interleaving between MULTI and EXEC: EXECABORT exactly when this client made a fault since MULTI, changing nothing; otherwise its queue runs as one step on the store of that moment; a mark from before MULTI plays no part, and the session ends out of transaction and unmarked |
| Serving.ExecInTurn | src/resp/command/exec-command.ts:37-53 | for every interleaving between MULTI and EXEC: a client who made no fault has its queueable requests run as one step, first to last, on the store of the moment of EXEC, and gets their replies in that order |
| Transactions.DiscardDrops | src/resp/command/discard-command.ts:31-36 | DISCARD ends the transaction, clears the mark and leaves the store alone, whatever happened since MULTI |
| Transactions.OpenTransactionIsIsolated | src/resp/processor/command-wrapper.ts:71-80 | nothing sent inside an open transaction touches the store, another session or another client's replies: the run without those requests is the same for all others, requests that pass the substring test excepted |
| Transactions.ServeSettles | src/resp/command/exec-command.ts:43-53 | with any microtasks still waiting, a request settles as one more reply, and EXEC's is the array of its commands' replies in queue order |
| Transactions.RunSettles | src/server/resp-server.ts:80-86 | over every interleaving of requests and microtasks, replies settle to what each request deserves, in the order of the requests |
| Transactions.TicksUnobservable | src/server/resp-server.ts:80-86 | where microtasks fall between requests makes no difference to any reply |
| Transactions.PublishedIsDeserved | src/server/resp-server.ts:80-86 | at any moment what clients got is a prefix of what they deserve, and all of it once no microtask is left |
| Resp.RespSerialize.Serialize | src/resp/protocol/resp-serialize.ts:26-62 | appends to its field exactly the printed form of its message, arrays recursively |
| Resp.RoundTrip | src/resp/protocol/resp-serialize.ts:26-62 | a token followed by anything is read back with the rest untouched, exactly when no status or error text in it has a line end; falsy strings read back as null |
| Resp.RoundTripMany | src/resp/protocol/resp-serialize.ts:29-32 | the same for sequences of tokens |
| Resp.UniquelyDecodable | src/resp/protocol/resp-serialize.ts:26-62 | equal output means equal replies and equal rest |
| Decoding.TextComesThrough | src/resp/protocol/resp-serialize.ts:42-48 | every non-empty text in a bulk string is read back as it is, whatever follows |
| Decoding.NumberComesThrough | src/resp/protocol/resp-serialize.ts:42-48 | every number but 0 in a bulk string is read back as its numeral |
| Decoding.NullIs | src/resp/protocol/resp-serialize.ts:42-48 | null is read exactly for undefined, the empty text and the number 0 |
| Decoding.LineComesThrough | src/resp/protocol/resp-serialize.ts:35-55 | status and error texts of one line are read back as they are |
| Decoding.IntegerComesThrough | src/resp/protocol/resp-serialize.ts:38-40 | every integer is read back |
| Decoding.ArrayComesThrough | src/resp/protocol/resp-serialize.ts:28-32 | of an array is read what would be read of each item alone, in order |
| Decoding.SameOutput | src/resp/protocol/resp-serialize.ts:26-62 | two tokens print alike if and only if they are equal up to the three null values, up to text and number of one numeral, and up to error tokens and those of an unexpected kind |
| Decoding.DecimalDigits | src/resp/protocol/resp-serialize.ts:29-47 | numerals are decimal digits, the most significant first |
| Decoding.Forms | src/resp/protocol/resp-serialize.ts:26-62 | the leading characters and line ends of each kind of reply |
| Decoding.ArrayForms | src/resp/protocol/resp-serialize.ts:28-32 | an array is its length and then its items in order |
| Resp.DirtyLinesCollide | src/resp/protocol/resp-serialize.ts:50-55 | with a line end in an error text one reply prints as two others |
| Resp.ReadSigned | src/resp/protocol/resp-serialize.ts:38-40 | printed numerals read back |
| Occurrences.StripOneMore | src/resp/command/list/lrem-command.ts:122-130 | splicing out one more occurrence, in front of those already gone, is right at its original index |
| Lists.Matching | src/resp/command/list/lrem-command.ts:82-86 | the places of the value, in order |
| Lists.Choose | src/resp/command/list/lrem-command.ts:91-117 | of these, the block from the first that passes the test to the last that is asked for |
| Lists.Delete | src/resp/command/list/lrem-command.ts:122-130 | taken back to front, exactly the chosen occurrences go |
| Lists.ListStore.Remove | src/resp/command/list/lrem-command.ts:58-146 | LREM on the list in place: reply and whole database as specified; no empty or shared list arises |
| Lists.ListStore.Move | src/resp/command/list/rpoplpush-command.ts:101-142 | RPOPLPUSH on two lists in place, or on one, as specified; no empty or shared list arises |
| Lists.ListStore.Push | src/resp/command/list/lpush-command.ts:36-67 | LPUSH puts the elements in front, the last one first, RPUSH at the end in order; the reply is the new length |
| Lists.ListStore.Pop | src/resp/command/list/rpop-command.ts:55-77 | LPOP and RPOP answer and take an end, and drop the key with its last element |
| Lists.ListStore.Trim | src/resp/command/list/ltrim-command.ts:69-132 | LTRIM leaves what JavaScript's slice of the normalised indices leaves, and drops an empty list |
| Lists.StaysNonEmpty | src/resp/command/list/rpoplpush-command.ts:126-139 | no operation leaves an empty list under a key |
| ListRuns.RemovesExactly | src/resp/command/list/lrem-command.ts:80-145 | for every count LREM takes min(abs(count), m) of m occurrences, all for 0, answers that number, and keeps everything else in order |
| ListRuns.RemovesFromHead | src/resp/command/list/lrem-command.ts:95-117 | for count 0 it leaves all other elements, for a positive one it does what head-to-tail removal does |
| ListRuns.RemovesPlaces | src/resp/command/list/lrem-command.ts:80-130 | what stays are the elements at all places but these, in order: places of the value, for a positive count with fewer than that many occurrences before, for a negative one from place m - abs(count) on with fewer than abs(count) occurrences from there |
| ListRuns.RemovesFromTail | src/resp/command/list/lrem-command.ts:100-105 | for a negative count it does what tail-to-head removal does if and only if there are no more occurrences than asked for, or all places before m - abs(count) hold the value, or between any two occurrences from that place on there are only occurrences |
| ListRuns.RemovesWrongOccurrence | src/resp/command/list/lrem-command.ts:101 | LREM -1 a on x a b a takes the first a |
| Occurrences.SameLeft | src/resp/command/list/lrem-command.ts:95-130 | two blocks of equally many occurrences leave the same list exactly when the occurrences they span lie side by side |
| ListRuns.TrimKeepsRange | src/resp/command/list/ltrim-command.ts:95-112 | LTRIM keeps the places from start to stop, negative ones counted from the end and all written out, if and only if stop is not so far before the head that the slice counts it again |
| ListRuns.TrimSlicesTwice | src/resp/command/list/ltrim-command.ts:103-111 | what it keeps then |
| ListRuns.TrimAll | src/resp/command/list/ltrim-command.ts:95-112 | LTRIM 0 -1 keeps everything |
| ListRuns.TrimKeepsTooMuch | src/resp/command/list/ltrim-command.ts:103-111 | LTRIM 0 -5 on a b c keeps a b |
| ListRuns.TrimOnlyCuts | src/resp/command/list/ltrim-command.ts:107-117 | LTRIM never adds a copy of any element |
| ListRuns.MoveConserves | src/resp/command/list/rpoplpush-command.ts:122-139 | RPOPLPUSH conserves the elements of its lists together, for two keys or one |
| ListRuns.PairConserved | src/resp/command/list/rpoplpush-command.ts:122-139 | as bags, source and destination together hold what they held, and no other key changes |
| ListRuns.RunConserves | src/resp/command/list/rpop-command.ts:55-77 | over every run of list commands, copies there plus copies given are copies there plus copies taken, for every element |
| ListRuns.Rotated | src/resp/command/list/rpoplpush-command.ts:122-128 | with one key, n applications answer the last n elements, last first, and bring them to the front |
| ListRuns.FullTurn | src/resp/command/list/rpoplpush-command.ts:101-142 | N applications on N elements answer them last to first and restore the list |
| ListRuns.Drive | src/resp/command/list/lpop-command.ts:41-64 | every run on lists in place answers as the run on values, and never leaves an empty or a shared list |
| ListRuns.RunsKeepNoEmptyList | src/resp/command/list/ltrim-command.ts:116-130 | no run leaves an empty list under a key |
| ListLaws.PushLaw | src/resp/command/list/rpush-command.ts:36-66 | RPUSH appends, LPUSH prepends one element after the other, and both answer the new length; no other key changes |
| ListLaws.PopLaw | src/resp/command/list/lpop-command.ts:41-64 | LPOP answers and takes the first element, RPOP the last, of an absent list nothing; no other key changes |
| ListLaws.TrimLaw | src/resp/command/list/ltrim-command.ts:69-132 | LTRIM leaves the trimmed list, and no key when it is empty, or refuses its indices |
| ListLaws.RemoveLaw | src/resp/command/list/lrem-command.ts:58-146 | LREM answers by how much the list has become shorter, and drops an empty one |
| ListLaws.MoveLaw | src/resp/command/list/rpoplpush-command.ts:101-142 | RPOPLPUSH answers the last element of one list, which becomes the first of the other, or of the same |
| ListLaws.PopAll | src/resp/command/list/rpop-command.ts:55-77 | popping a list to its end answers its elements from that end on and leaves no key |
| ListLaws.QueueOrStack | src/resp/command/list/lpush-command.ts:36-67 | a list filled at one end and emptied at one end is a queue when the ends differ and a stack when they do not, for every number of elements |
| Expiry.Database.Get | src/resp/data/database.ts:14-24 | drops the key looked up when it is overdue, and answers as if it had never been |
| Expiry.Database.Exists | src/resp/data/database.ts:9-12 | answers whether the key is there and not overdue |
| Expiry.Database.PutIfPresent | src/resp/data/database.ts:26-35 | replaces a live value only |
| Expiry.Database.PutIfAbsent | src/resp/data/database.ts:37-46 | keeps a live value, otherwise stores the new one |
| Expiry.Database.Merge | src/resp/data/database.ts:62-76 | stores the new value, or what the callback makes of a live old one; a callback may ask for the key to go |
| Expiry.Database.GetOrDefault | src/resp/data/database.ts:79-86 | answers the default for a key that is absent or overdue, and stores nothing |
| Expiry.Database.Rename | src/resp/data/database.ts:105-115 | moves whatever is stored, overdue or not |
| Expiry.ExpireCommand | src/resp/command/key/expire-command.ts:61-104 | missing key; a ttl that is no number, or more than the whole number its text starts with; below 1 an instant deadline, otherwise now plus ttl seconds, fractions included |
| Expiry.ExpiresOnTime | src/resp/command/key/expire-command.ts:84-90 | a key given an accepted ttl is there exactly until its time is up, at once for a ttl below 1 |
| Expiry.RenameCommand | src/resp/command/key/rename-command.ts:35-54 | fails for a missing or overdue key, otherwise moves the value |
| ExpiryLaws.RenameLaw | src/resp/data/database.ts:105-115 | RENAME moves a live value with its deadline over whatever is under the new key and leaves nothing under the old one; without a live value it fails and changes no live key; all other keys are as before |
| ExpiryLaws.ExpireLaw | src/resp/command/key/expire-command.ts:61-104 | EXPIRE of a missing or overdue key, with a refused ttl, and with an accepted one, in look-ups |
| ExpiryLaws.GetLaw | src/resp/data/database.ts:14-24 | get answers a live value and drops an overdue one; all other keys are as before |
| ExpiryLaws.ExistsLaw | src/resp/data/database.ts:9-12 | exists answers whether the key is live |
| ExpiryLaws.GetOrDefaultLaw | src/resp/data/database.ts:79-86 | the live value or the default, and nothing is stored |
| ExpiryLaws.PutLaw | src/dictionary.ts:95-98 | put stores the value and changes no other key |
| ExpiryLaws.PutIfPresentLaw | src/resp/data/database.ts:26-35 | a live value is replaced, and otherwise nothing is stored |
| ExpiryLaws.PutIfAbsentLaw | src/resp/data/database.ts:37-46 | a live value stays, otherwise the new one is stored |
| ExpiryLaws.MergeLaw | src/resp/data/database.ts:61-76 | a live value is merged with the new one by the callback, otherwise the new one is stored |
| ExpiryLaws.OverdueMeans | src/resp/data/database.ts:16-19 | a deadline passes when the clock is beyond its whole milliseconds; none and 0 never pass |
| Expiry.StepRefines | src/resp/data/database.ts:14-24 | with the same live keys, an operation answers the same lazily and eagerly, and leaves the same live keys |
| Expiry.RunRefines | src/resp/data/database.ts:9-115 | so does every run whose clock does not go back |
| Expiry.Drive | src/resp/data/database.ts:9-115 | the key space, driven by any such run, answers as a map that purges every overdue key before each operation |
| Expiry.ClockDecides | src/resp/data/database.ts:14-24 | no run by a given clock can tell the two apart if and only if the clock never goes back |
| Expiry.RenameNeedsItsGuard | src/resp/command/key/rename-command.ts:40-53 | without the look-up before it, renaming an overdue key would cost the live key it is renamed to |

## Left out

- SortedSets.SortedSet.AddAll: a merge into a set in unique mode in which heights decide or a key is lost is left out; the other set shares no node with this one, or is this one.
- SortedSets.SortedSet.Add: once unique mode has lost a member at score 0 the set is no longer valid, and nothing is claimed about what follows.
- SetRuns.Apply: operations of unique mode about which heights decide, or that lose a key (`UniqueMode.ForeseenMeans`), are not steps of the machine.
- SetRuns.Drive: nor are runs with such operations.
- SetRuns.Twins: nor are they compared; where heights decide, the answers do differ (`UniqueMode.HeightsDecide`).
- SetRuns.UniqueRunKeepsScoresApart: speaks of the machine; a set that loses a key ends with two keys at one score (`UniqueMode.AddKeepsScoresApart`).
- SortedSets.SortedSet.RandomLevel: the distribution of heights, and that tossing ends, are not modelled.
- SortedSets.SortedSet.constructor: the placeholder tail node that the field initialiser creates and the constructor's call of empty overwrites is left out, and the head's null key is the empty key; nodes keep their level objects as one sequence of links.
- Scores are real numbers: rounding, NaN and infinite scores are left out; bounds may be infinite.
- Zadd.Execute: does not have the logging block of the merge, with which no ZADD with readable scores stores anything; `Zadd.ExecuteAsWritten` has it. Scores come already read as numbers, and the key is not expired.
- Expiry.Database.Merge: does not have the logging block (`src/resp/data/database.ts:50-60`), which reads a sorted set and throws for every one that is not empty.
- Resp.RespSerialize.Serialize: lengths count UTF-16 units, as the source counts them; for text outside ASCII they differ from the bytes that are sent, and that step is not modelled. Numbers are integers.
- Servers.Server.Receive: commands that block, reply with promises or throw are left out, as are scripts and publish/subscribe.
- Servers.Server.ExecSync: the WRONGTYPE branch (`src/resp/processor/command-wrapper.ts:56-66`) and the subscriber branch (lines 67-69) are left out; commands declare their type under another name than the one read, and the subscribed flag is never set, so neither is taken. Lower-casing covers ASCII.
- Lists.ListStore.Push: events to waiting clients, and BLPOP, BRPOP and BRPOPLPUSH, are left out.
- Lists.ListStore.Remove: numeric parameters come already read, as integers or not; keys do not expire in this part and hold lists only.
- Expiry.Database.Get: one command reads the clock once; keys that JavaScript objects inherit, such as "constructor", are not modelled.
- Expiry.ExpireCommand: a ttl comes as what `Number` and `parseInt` make of its text; infinite ones, rounding, and deadlines that JavaScript prints with an exponent are left out.
- KEYS, DBSIZE and the count of DEL read raw entries and may see expired keys.
- Reading and writing single values, LINDEX, LSET, LRANGE, hashes, plain sets, bits, INFO, CLIENT, TIME: easy members.
- Sockets, the request parser, Lua, and the iterator and the aliases `del`, `set`, `slice`, `values` of the sorted set.
