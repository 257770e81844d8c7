# ROCS verification model

ROCS is a small robot message bus. Its clients talk JSON over sockets, but the
parts that decide what happens are five stateful pieces of C, four of them
standing on one doubly linked list. This project models those pieces and proves
what they do, also where that is not what their comments say.

- **The linked list** (`LinkedList`, `Chains`, `ListRuns`, `ExchangeSort`,
  `Rotation`). Heap nodes with `last`, `next` and `data`; a ghost sequence of
  cells says which nodes hang off a list pointer, with which payloads, and which
  back links are set. `ll_remove` clears `item->last` before it copies it to the
  successor, so the successor of a removed node always ends up without a back
  link ("severed"). The code is modelled as it is, and everything that rests on
  it states the exact condition under which removal does what it should.
- **The cron scheduler** (`CronSpec`, `CronMessages`, `CronOrder`, `Cron`). A table of jobs on a
  32-bit clock, fired by an equality test, rescheduled by modular addition and
  unlinked while the list is being walked. The schedule of a job is proved over
  whole runs of ticks, additions and deletions, for every tick step.
- **The wildcard matcher** (`Matcher`, `GlobAgreement`). Behind a star it starts
  over at the beginning of its subject, so literal segments may overlap. Its
  exact meaning is proved, and exactly which patterns it treats like the usual
  wildcard relation.
- **The server** (`LoginFilters`, `Routing`, `ServerSpec`, `ClientList`). The
  client array, the iterator that finds its place again by comparing addresses,
  and the accept/read/remove loop. An address is an allocation of the array and
  an index in it; `realloc` keeps the allocation or replaces it.
- **The receiver queue** (`Receiver`, `MessageQueue`). One producer thread and
  one consumer around a mutex, interleaved down to the single link assignments.
- **The GPIO divider** (`Gpio`). A counter of eight bits that decides which
  requests really read a pin.

`Witnesses` has, for the promises that hold only under a condition, small inputs
on which they fail.

Classes follow the C globals (`CronTable`, `ServerProcess`, `ProcessData`) and
records (`Node`). Each method that changes state is proved against a function on
values (`Abs() == Step(old(Abs()), ...)`), and the theorems over runs are about
that function. The environment is a parameter everywhere: results of writes and
reads, ready sets, accepted descriptors, whether `realloc` moves, which thread
runs next.

Where code and comments disagree the model follows the code:

- `ll_remove`, lines 153 and 156: see above.
- `del_cronjob` is meant to remove "all jobs matching the name". `jobequal`
  returns 1 for equal names while `ll_find` takes 0 for a match, so it removes
  the jobs of every other name (`Cron.JobEqualMatchesOthers`); the comment is met
  only on the empty table (`CronSpec.DeletesNamedExactly`).
- The matcher restarts from `subject`, not from `s`, at line 152, and never
  tries the empty suffix.
- Lines 209 and 278 of `server.c` close or drop a socket without `FD_CLR`. So
  the open sockets are among the monitored ones, but not the other way round
  (`ServerSpec.StaleExactly`), and the next `select` fails on the stale one
  (`ServerSpec.StaysCleanExactly`).

## Model

| member | source | states |
|---|---|---|
| `LinkedList.Node.Create` | rocsmq/src/linkedlist.c:10-22 | a new node carries its data and has neither neighbour |
| `LinkedList.GetLast` | rocsmq/src/linkedlist.c:35-43 | the last node of the chain, null for the null list |
| `LinkedList.Add` | rocsmq/src/linkedlist.c:45-78 | `LL_BACK` gives the list, then the items; `LL_FRONT` the items, then the list; `LL_SORT` the items in front with everything sorted; an unknown place loses the old list |
| `LinkedList.AddedAtEnds` | rocsmq/src/linkedlist.c:49-62 | at the back the nodes and payloads are those of the list followed by those of the items, in front the other way round, and two fully linked lists give a fully linked one |
| `LinkedList.AddedInOrder` | rocsmq/src/linkedlist.c:63-74 | in order the new nodes still come first, the list is fully linked, has the payloads of both with multiplicity, and is sorted for a total and transitive comparator |
| `LinkedList.AddFront` | rocsmq/src/linkedlist.c:49-53 | the new items, then the old list, joined by both links |
| `LinkedList.AddBack` | rocsmq/src/linkedlist.c:54-62 | the old list, then the new items, joined by both links; on the null list the items themselves |
| `LinkedList.AddSorted` | rocsmq/src/linkedlist.c:63-74 | the nodes of items and list in that order, fully linked, holding the sorted payloads of both |
| `LinkedList.AddNew` | rocsmq/src/linkedlist.c:10-62 | creating a node and adding it through `ll_add` with `LL_BACK` extends the list by exactly that node |
| `LinkedList.Exchange` | rocsmq/src/linkedlist.c:80-86 | payloads change places, no link changes |
| `LinkedList.FirstPass` | rocsmq/src/linkedlist.c:92-107 | one loop of the sort leaves the payloads of one selection pass, touches no link and compares n - 1 times |
| `LinkedList.SortBehind` | rocsmq/src/linkedlist.c:113-119 | the rest is sorted and hung behind the first node again, whose payload and back link stay |
| `LinkedList.Sort` | rocsmq/src/linkedlist.c:88-123 | same nodes, same chain order, payloads sorted, every back link but that of the head rebuilt, none needed on entry; n(n-1)/2 comparisons |
| `LinkedList.ComparisonsClosedForm` | rocsmq/src/linkedlist.c:99-117 | the number of comparisons is n(n-1)/2 |
| `LinkedList.ResortedIsSorted` | rocsmq/src/linkedlist.c:88-123 | for a comparator that is total and transitive on the payloads the sorted list is in order, has the same payloads with multiplicity, the same nodes in the same order, and is fully linked |
| `LinkedList.Find` | rocsmq/src/linkedlist.c:125-138 | the first node that the comparator maps to zero, null exactly when there is none |
| `LinkedList.Remove` | rocsmq/src/linkedlist.c:140-161 | every link it writes, for any item; for a member of a list the resulting list, cut behind the item when that is severed and not the head |
| `LinkedList.PopFront` | rocsmq/src/linkedlist.c:163-171 | takes off the head and severs the next node; null on the null list |
| `ExchangeSort.PassPermutes` | rocsmq/src/linkedlist.c:99-107 | a pass loses and invents no payload |
| `ExchangeSort.PassSelects` | rocsmq/src/linkedlist.c:99-107 | what a pass leaves in front may stand before every payload it passed |
| `ExchangeSort.SortPermutes` | rocsmq/src/linkedlist.c:88-123 | the sort is a permutation for every comparator, also an inconsistent one |
| `ExchangeSort.SortSorts` | rocsmq/src/linkedlist.c:88-123 | any two payloads end up in order, given a total and transitive comparator |
| `Chains.RemoveDeletesExactly` | rocsmq/src/linkedlist.c:140-161 | a removal deletes that node and no other if and only if it is the head or its back link is set |
| `Chains.RemoveKeepsFullyLinked` | rocsmq/src/linkedlist.c:153-158 | a removal keeps a fully linked list fully linked if and only if it takes the head or the tail |
| `Witnesses.SecondRemovalCuts` | rocsmq/src/linkedlist.c:152-158 | removing two neighbours from the middle of four linked nodes keeps the second and loses the last |
| `ListRuns.RunTells` | rocsmq/src/linkedlist.c:45-171 | through every run of back-adds, pops and removals, nodes that come back included, no node is twice in the chain and a node has its back link exactly while the node it was added behind has been in the list ever since, then its predecessor |
| `ListRuns.StepNodes` | rocsmq/src/linkedlist.c:45-171 | an addition puts the node behind the others, a removal takes out its node or what is behind it, a pop takes off the first; all other nodes stay in order |
| `ListRuns.AfterAnyRun` | rocsmq/src/linkedlist.c:45-171 | after any run from the empty list, removing a node deletes exactly it if and only if it is the head or the node it was added behind has been there ever since |
| `ListRuns.Perform` | rocsmq/src/linkedlist.c:45-171 | one addition, removal or pop on the heap is the step on values, and every node outside the list that is not loose has both links null |
| `ListRuns.PerformAll` | rocsmq/src/linkedlist.c:45-171 | so for whole runs from the empty list: the heap list is what the run on values says |
| `Rotation.HeadToBack` | linkedlist/src/test.c:38-41 | taking the head and adding it at the back turns rotation by k into rotation by k + 1, fully linked |
| `Rotation.TailToFront` | linkedlist/src/test.c:46-49 | taking the last and adding it in front turns rotation by k into rotation by k - 1 |
| `Rotation.RotatedMeans` | linkedlist/src/test.c:37-51 | rotation by k has the nodes and payloads from place k on, then those before it |
| `Rotation.RotateForward` | linkedlist/src/test.c:37-43 | any number k of rounds rotates by k modulo the length; a whole number of turns restores the list |
| `Rotation.RotateBackward` | linkedlist/src/test.c:45-51 | any number of rounds rotates the other way; a whole number of turns restores the list |
| `Chains.SafeWhenFullyLinked` | rocsmq-cron/src/rocs_cron.c:101-143 | removal during a walk over a fully linked list is safe if and only if no two neighbouring nodes behind the leading run are removed |
| `Chains.SweepExactly` | rocsmq-cron/src/rocs_cron.c:101-143 | the chain behind such a walk is exactly the survivors, in order, if and only if the walk was safe; and if it was not, a removed node is still in it |
| `Chains.SweepLeavesDead` | rocsmq-cron/src/rocs_cron.c:132-136 | an unsafe walk leaves a node in the chain that it has removed and freed |
| `Chains.SweepCutExactly` | rocsmq-cron/src/rocs_cron.c:132-136 | what an unsafe walk leaves: the survivors up to the first node that is not safe, that node, and nothing behind it |
| `Chains.SurvivorsContain` | rocsmq-cron/src/rocs_cron.c:101-143 | the survivors are exactly the updated payloads of the nodes that were not to go |
| `Chains.RemoveFirstDead` | rocsmq-cron/src/rocs_cron.c:76-81 | a list is safe if and only if removing its first match does not cut the chain and leaves a safe list; without a cut the survivors stay the same |
| `Chains.NeverCutsExactly` | rocsmq-cron/src/rocs_cron.c:76-81 | find-and-remove, repeated, never meets a severed node that is not the head if and only if the list was safe |
| `Chains.DeletionsExactly` | rocsmq-cron/src/rocs_cron.c:76-81 | what the repetition leaves is free of freed nodes if and only if the list was safe, and then it is exactly the survivors and the rest was freed |
| `Chains.DeletionsAreSweep` | rocsmq-cron/src/rocs_cron.c:76-81 | searching from the head again each time leaves what one walk leaves, whether it cuts the chain or not |
| `Chains.FoundAgain` | rocsmq-cron/src/rocs_cron.c:78-80 | behind a cut the next search comes to the node that was just freed, and removing it again would change nothing |
| `Witnesses.ExpiredNeighbours` | rocsmq-cron/src/rocs_cron.c:101-143 | two neighbouring jobs that expire on one tick: the second stays and the job behind it is lost |
| `CronSpec.WrapsAround` | rocsmq-cron/src/rocs_cron.c:92-123 | the sums and differences of the model are those of 32-bit unsigned integers |
| `CronSpec.ClockAfterWraps` | rocsmq-cron/src/rocs_cron.c:92 | n ticks move the clock by n steps modulo 2^32 |
| `CronSpec.UntilExactly` | rocsmq-cron/src/rocs_cron.c:92-110 | the wait for a time is the least positive number of ticks whose steps add up to it modulo 2^32, and never if there is none |
| `CronSpec.UntilMultiple` | rocsmq-cron/src/rocs_cron.c:92-110 | a time n steps ahead is shown after n ticks and not before |
| `CronSpec.UntilStepOne` | rocsmq-cron/src/rocs_cron.c:92-110 | with step one every time is shown, zero after 2^32 ticks |
| `CronSpec.UntilMoved` | rocsmq-cron/src/rocs_cron.c:61 | the wait depends only on the distance between clock and time, across wrap-around |
| `CronSpec.LifeOfAJob` | rocsmq-cron/src/rocs_cron.c:110-138 | a job is sent on exactly the ticks d, d + p, d + 2p, ... that its count grants, and leaves with the last of them; for every step, period and count |
| `CronSpec.SafePass` | rocsmq-cron/src/rocs_cron.c:101-143 | a safe pass updates every node that stays and drops every node that goes |
| `CronSpec.TableSchedule` | rocsmq-cron/src/rocs_cron.c:74-144 | the same schedule for a job in the table, through any run of ticks, additions and deletions that spare it and do not cut the chain |
| `CronSpec.CronSchedule` | rocsmq-cron/src/rocs_cron.c:60-144 | the schedule of a job from its addition: first when the clock has moved by offset + 1, then whenever it has moved by the period; sent exactly then, in the table exactly until the last firing |
| `CronSpec.CronScheduleStepOne` | rocsmq-cron/src/rocs_cron.c:60-144 | with the default step: firing j is tick k + 1 + jP, P the period or 2^32 for period zero |
| `CronSpec.DueNodes` | rocsmq-cron/src/rocs_cron.c:101-121 | a tick sends for exactly the nodes whose job is due |
| `CronMessages.TicksKeepContent` | rocsmq-cron/src/rocs_cron.c:123-130 | ticks change only due time and count of a job; name, data and period stay |
| `CronMessages.SendsWhatWasAdded` | rocsmq-cron/src/rocs_cron.c:60-138 | over a whole run from the addition exactly the scheduled ticks send for the job, one message each, with the name and data of the job that was added |
| `CronMessages.StepKeepsOrder` | rocsmq-cron/src/rocs_cron.c:60-144 | every tick, addition and deletion keeps the order of the jobs it keeps |
| `CronMessages.SentInOrderOfAddition` | rocsmq-cron/src/rocs_cron.c:67-142 | of two jobs due on the same tick of any run the one that was added earlier is sent first |
| `CronSpec.DeletionKeepsNamed` | rocsmq-cron/src/rocs_cron.c:71-84 | after a deletion that does not cut the chain exactly the jobs with the given name are left |
| `CronSpec.DeletesNamedExactly` | rocsmq-cron/src/rocs_cron.c:71-84 | a deletion, also one that cuts the chain, removes the jobs of that name and keeps the others, as its comment says, if and only if the table is empty |
| `Witnesses.NamedJobStays` | rocsmq-cron/src/rocs_cron.c:34-41 | deleting the name of the only job leaves it in the table |
| `Witnesses.DeletedNeighbours` | rocsmq-cron/src/rocs_cron.c:76-81 | two neighbouring jobs of another name behind a kept one: the second is freed and stays, and the job behind it is lost |
| `CronOrder.JobSortOrdersExactly` | rocsmq-cron/src/rocs_cron.c:27-32 | the signed difference of due times is a total and transitive order on a set of jobs if and only if all are due within 2^31 ticks of some base |
| `CronOrder.SortsByDueTime` | rocsmq-cron/src/rocs_cron.c:27-32 | in such a window the list sort orders jobs by their distance to the base, across wrap-around |
| `Witnesses.NoFirstJob` | rocsmq-cron/src/rocs_cron.c:27-32 | three jobs spread over the clock that each come before the next, all the way round |
| `Cron.FireIfDue` | rocsmq-cron/src/rocs_cron.c:110-132 | a due job is sent, rescheduled and counted down, and known to be expired when nothing is left; another is untouched |
| `Cron.Unlink` | rocsmq-cron/src/rocs_cron.c:134 | removal of the visited node: the table loses it, or is cut behind it, or, once cut, does not change |
| `Cron.Visit` | rocsmq-cron/src/rocs_cron.c:102-143 | one round of the walk: message, new table, kept jobs, and the jobs still to come |
| `Cron.Walk` | rocsmq-cron/src/rocs_cron.c:101-143 | the whole walk visits every job once, sends the due ones in list order and leaves the swept table; the table leads to a freed node exactly when it was not safe |
| `Cron.SafeMeansNotFreed` | rocsmq-cron/src/rocs_cron.c:133-136 | no freed node can be reached from the table after a walk if and only if the table was safe |
| `Cron.RemoveMatch` | rocsmq-cron/src/rocs_cron.c:78-79 | one removal of the deletion loop, for any table and place: the new table, and whether the chain was cut |
| `Cron.DeletingEnds` | rocsmq-cron/src/rocs_cron.c:76-81 | the loop ends stuck if and only if the table was not safe |
| `Cron.RemoveMatches` | rocsmq-cron/src/rocs_cron.c:76-81 | for any comparator and any table: what the loop leaves and frees, up to the first cut, and that there is one if and only if the table was not safe |
| `Cron.DeletionFacts` | rocsmq-cron/src/rocs_cron.c:76-81 | the table leads to no freed node if and only if it was safe; then it holds, in order, exactly the jobs that are not matched, and all others are freed |
| `Cron.JobEqualMatchesOthers` | rocsmq-cron/src/rocs_cron.c:34-41 | jobequal marks for deletion exactly the jobs of another name |
| `Cron.CronTable.constructor` | rocsmq-cron/src/rocs_cron.c:3-11 | an empty table with the clock at one |
| `Cron.CronTable.AddCronjob` | rocsmq-cron/src/rocs_cron.c:60-69 | the job is appended on a new node, due offset + 1 after the current time, modulo 2^32 |
| `Cron.CronTable.Tick` | rocsmq-cron/src/rocs_cron.c:86-144 | clock, table, messages in order and freed nodes after a tick, for every table; the table stays free of freed nodes if and only if it was safe |
| `Cron.CronTable.DelCronjob` | rocsmq-cron/src/rocs_cron.c:71-84 | for every table the new table and the freed nodes, up to the first cut; stuck if and only if the table was not safe, otherwise exactly the jobs with the given name are left |
| `Matcher.MessageMatch` | rocsmq/src/rocsmq.c:140-174 | the loops decide the relation `Matches`, and terminate on the length of the pattern |
| `Matcher.SegmentsPartition` | rocsmq/src/rocsmq.c:144-158 | the segments are the star-free pieces whose join with stars is the pattern |
| `Matcher.MatchesExactly` | rocsmq/src/rocsmq.c:140-174 | a subject matches if and only if its segments have ascending places, overlaps allowed: the first at the beginning, those behind a star inside the subject, the last ending with it unless a star follows |
| `GlobAgreement.GlobImpliesMatch` | rocsmq/src/rocsmq.c:140-174 | on a non-empty subject everything the usual wildcard relation accepts is accepted |
| `GlobAgreement.NoOverlapSuffices` | rocsmq/src/rocsmq.c:152-156 | when no segment can start inside the one before, nothing else is accepted |
| `GlobAgreement.OverlapWitness` | rocsmq/src/rocsmq.c:152-156 | every other pattern accepts some subject that is too short for its literal text |
| `GlobAgreement.AgreesExactly` | rocsmq/src/rocsmq.c:140-174 | matcher and wildcard relation agree on all non-empty subjects if and only if no segment of the pattern can start inside the one before |
| `GlobAgreement.OneSegmentAgrees` | rocsmq/src/rocsmq.c:140-174 | so they agree for every pattern with at most one non-empty segment |
| `GlobAgreement.TwoSegments` | rocsmq/src/rocsmq.c:148-158 | for two segments around one star they differ exactly on subjects shorter than both together |
| `GlobAgreement.EmptySubject` | rocsmq/src/rocsmq.c:149-157 | the empty subject matches only the empty pattern and the single star |
| `Witnesses.SegmentsOverlap` | rocsmq/src/rocsmq.c:152 | `abc` matches `ab*bc` |
| `Witnesses.TwoStarsOnNothing` | rocsmq/src/rocsmq.c:152 | the empty subject does not match two stars |
| `LoginFilters.NextToken` | rocsmq-server/src/clientlist.c:28-38 | one call of strtok: the next token and where the following call goes on |
| `LoginFilters.TokensAreRuns` | rocsmq-server/src/clientlist.c:28-39 | a string is a token of a login filter if and only if it is a maximal non-empty run between commas |
| `LoginFilters.TokensInOrder` | rocsmq-server/src/clientlist.c:28-39 | the tokens stand in the order of the text, each run once and none left out |
| `LoginFilters.HasTokens` | rocsmq-server/src/clientlist.c:28-39 | a login filter has a token if and only if it has a character other than the comma |
| `Routing.SendsExactlyOnce` | rocsmq-server/src/server.c:268-281 | a message goes exactly once, in client order, to exactly the clients that want it, with nobody dropped, if and only if as many writes as there are such clients are accepted; otherwise some write is refused |
| `Routing.DeliverToDelivers` | rocsmq-server/src/server.c:268-281 | what that delivery is: the clients that want the message, by ascending index, one accepted write each and none to anybody else |
| `Routing.SendRemovesExactlyRefused` | rocsmq-server/src/server.c:276-279 | for every pattern of failing writes and moves exactly the clients whose write failed are dropped and the order of the rest is kept |
| `Routing.WritesToWanting` | rocsmq-server/src/server.c:273-276 | whatever fails, only clients that want the message are ever written to |
| `Routing.OneRefusal` | rocsmq-server/src/server.c:268-281 | with exactly one failing write that client alone is dropped, and the others are each served exactly once if and only if the shifted client does not want the message, or, when the search starts over, nobody before did |
| `Routing.HarmlessServes` | rocsmq-server/src/server.c:268-281 | for one given pattern of failing writes and moves: when each failure leaves the search where nobody is missed or served again, the remaining clients that want the message are each served exactly once, in order, and nobody else is |
| `Routing.ServedInPlaceExactly` | rocsmq-server/src/server.c:268-281 | while the array stays in place, every pattern of failing writes leaves the remaining clients each served exactly once, in order, and nobody else, if and only if no two neighbouring clients want the message and the last wants it only if nobody else does |
| `Routing.ServedExactly` | rocsmq-server/src/server.c:268-281 | the same for every pattern of failing writes and moves, if and only if at most one client wants the message |
| `Witnesses.HarmUndone` | rocsmq-server/src/server.c:268-281 | two failures that each do harm and together none |
| `Witnesses.SkippedClient` | rocsmq-server/src/clientlist.c:155-162 | a client behind one whose write fails is never written to |
| `ServerSpec.WantsByFilter` | rocsmq-server/src/clientlist.c:122-142 | a client wants a message if and only if some comma-separated run of its login filter matches the id |
| `ServerSpec.AcceptAdds` | rocsmq-server/src/server.c:192-212 | a login adds one client behind the others, with that socket, which wants exactly the messages that a comma-separated run of its filter matches; descriptor zero changes nothing and a failed login adds nobody |
| `ServerSpec.PassFromDrops` | rocsmq-server/src/server.c:215-244 | a pass drops exactly the ready clients it found gone when it came to them and those that refused a write, and keeps the order of the rest |
| `ServerSpec.PassTellsWhy` | rocsmq-server/src/server.c:215-244 | each dropped client has the index at which the pass found it gone, or sent the message that it refused, and the other way round |
| `ServerSpec.PassSends` | rocsmq-server/src/server.c:215-244 | a pass sends exactly the messages that arrive from ready clients, index by index, each to the clients of the array at that point, and makes no other write |
| `ServerSpec.PassDelivers` | rocsmq-server/src/server.c:215-244 | at each index where a message arrives and as many writes are accepted as clients want it, there is one accepted write to each such client, in order, and no other |
| `ServerSpec.NextIsSound` | rocsmq-server/src/server.c:175-245 | one accept or pass keeps client sockets distinct, open and monitored, and the listening socket too |
| `ServerSpec.RunIsSound` | rocsmq-server/src/server.c:175-245 | and so does every run |
| `ServerSpec.EveryReachableState` | rocsmq-server/src/server.c:175-245 | every state that a newly started server reaches has distinct, open and monitored client sockets, and a monitored listening socket |
| `ServerSpec.AcceptKeepsFiltered` | rocsmq-server/src/clientlist.c:28-39 | a new connection keeps every client with at least one filter if and only if its login filter is not made of commas alone |
| `ServerSpec.CrashExactly` | rocsmq-server/src/clientlist.c:58 | no pass, whoever goes in it, frees a null filter list if and only if every client has a filter |
| `ServerSpec.FilteredRunsNeverCrash` | rocsmq-server/src/clientlist.c:58 | when every login has a filter, no step of any run does |
| `Witnesses.EmptyFilter` | rocsmq-server/src/clientlist.c:28-58 | a client logs in with a comma as its filter and goes again, and the server reads through a null pointer |
| `ServerSpec.StaleExactly` | rocsmq-server/src/server.c:207-209 | starting with none, a closed socket stays monitored if and only if a login failed, or a write was refused that a message of the pass calls for |
| `ServerSpec.NobodyRefusedExactly` | rocsmq-server/src/server.c:215-244 | a pass refuses nobody if and only if, message by message, as many writes are accepted as there are clients that want it |
| `ServerSpec.StaysCleanExactly` | rocsmq-server/src/server.c:185-189 | over a whole run no `select` meets a closed descriptor if and only if no login fails and no write is refused that a message calls for |
| `ServerSpec.SurvivesExactly` | rocsmq-server/src/server.c:185-245 | over a whole run the server meets no closed descriptor and no null filter list if and only if no login fails, no write is refused that a message calls for, and no client goes that has no filter |
| `Witnesses.RefusedWrite` | rocsmq-server/src/server.c:276-279 | a refused write leaves the closed socket of a client monitored |
| `Witnesses.FailedLogin` | rocsmq-server/src/server.c:207-209 | a failed login leaves a closed socket monitored |
| `ClientList.FilterMatch` | rocsmq-server/src/clientlist.c:122-142 | true exactly when some filter on the client's list matches |
| `ClientList.BuildFilters` | rocsmq-server/src/clientlist.c:26-39 | the filter list holds the tokens of the login filter in order |
| `ClientList.ServerProcess.constructor` | rocsmq-server/src/clientlist.c:3-4 | no clients; only the listening socket is open and monitored |
| `ClientList.ServerProcess.AddClient` | rocsmq-server/src/clientlist.c:9-45 | the client is appended with its name, socket and tokens, wherever the array goes |
| `ClientList.ServerProcess.FindClientIdx` | rocsmq-server/src/clientlist.c:108-116 | the index whose address is the given one, or -1 |
| `ClientList.ServerProcess.RemoveClientIdx` | rocsmq-server/src/clientlist.c:51-66 | the client is taken out, those behind it move up, its socket is closed |
| `ClientList.ServerProcess.RemoveClient` | rocsmq-server/src/clientlist.c:71-77 | the same for an address, whatever the other clients have; an unknown address changes nothing |
| `ClientList.ServerProcess.NextClientByMessage` | rocsmq-server/src/clientlist.c:146-174 | the cursor moves to the first wanting client behind where the address comparison puts it, for every address, also a dangling one |
| `ClientList.StartAfterRemoved` | rocsmq-server/src/clientlist.c:155-162 | behind a removed client the cursor skips the one that moved up, or starts over when there is none or the array has moved |
| `ClientList.ServerProcess.SendToOne` | rocsmq-server/src/server.c:273-279 | one round of send_all: the write, the removal and the next client |
| `ClientList.ServerProcess.SendAll` | rocsmq-server/src/server.c:268-281 | for every client array, the writes in order and the clients left, as `Routing.SendAll` has them, for every pattern of failures and moves; terminates on (clients, clients behind the cursor) |
| `ClientList.ServerProcess.Accept` | rocsmq-server/src/server.c:192-212 | descriptor zero is ignored; another is monitored, and becomes a client unless the login fails |
| `ClientList.ServerProcess.ServeClient` | rocsmq-server/src/server.c:215-244 | a ready client has its message sent on, with the writes that were made, or is dropped and no longer monitored, with none |
| `ClientList.ServerProcess.ServePass` | rocsmq-server/src/server.c:215-244 | the loop over the clients is the `Pass` step of the state machine and makes the writes of that pass, for every pass in which each client that goes has a filter |
| `Receiver.ReceiverAdds` | rocsmq/src/rocsmqthread.c:18-41 | the receiver thread adds its message in exactly one of its steps and changes nothing else of what was added |
| `Receiver.ConsumerAddsNothing` | rocsmq/src/rocsmqthread.c:46-116 | no step of the consumer loses, invents or reorders a message |
| `Receiver.RunKeepsGood` | rocsmq/src/rocsmqthread.c:18-116 | mutual exclusion, link shape, standing answers and conservation through every interleaving |
| `Receiver.EveryInterleaving` | rocsmq/src/rocsmqthread.c:18-116 | the messages that reached the receiving thread are those taken, then held, then queued, then pending, in order; fully linked whenever the mutex is free; an empty queue is never popped |
| `Receiver.ArrivingIsReceived` | rocsmq/src/rocsmqthread.c:35-36 | what the thread has received is what the events of the run gave it while it was receiving |
| `Receiver.ReceiverRound` | rocsmq/src/rocsmqthread.c:18-38 | a running receiver that gets a message adds exactly that message at the back and is ready for the next |
| `Receiver.ReceiverIdles` | rocsmq/src/rocsmqthread.c:34-38 | one that gets nothing changes nothing |
| `Receiver.ConsumerFindsNothing` | rocsmq/src/rocsmqthread.c:99-105 | asking an empty queue changes nothing and takes nothing |
| `Receiver.ConsumerTakesFirst` | rocsmq/src/rocsmqthread.c:46-105 | asking a queue with messages leads to taking the first one, and the queue loses exactly that |
| `Receiver.ConsumerSets` | rocsmq/src/rocsmqthread.c:110-116 | setting the flag sets it and nothing else |
| `Receiver.AnswerStands` | rocsmq/src/rocsmqthread.c:99-105 | once the queue is not empty no step of the receiver empties it or changes its head |
| `Receiver.AddInSteps` | rocsmq/src/rocsmqthread.c:22-23 | the link assignments of an addition make up an append at the back |
| `Receiver.PopInSteps` | rocsmq/src/rocsmqthread.c:50-52 | those of a pop make up a removal at the front |
| `Receiver.StopStep` | rocsmq/src/rocsmqthread.c:34-39 | after a stop what has been added plus what may still be added never grows |
| `Receiver.AtMostOneMore` | rocsmq/src/rocsmqthread.c:34-39 | after the last stop at most one more message is added, in every interleaving |
| `Receiver.StoppedForGood` | rocsmq/src/rocsmqthread.c:34-41 | a receiver that finds the flag off ends, and nothing is added after that, whatever follows |
| `MessageQueue.ProcessData.constructor` | rocsmq/src/rocsmqthread.c:10-12 | running, with an empty queue |
| `MessageQueue.ProcessData.Add` | rocsmq/src/rocsmqthread.c:18-26 | the message is appended and the list stays fully linked |
| `MessageQueue.ProcessData.GetMessage` | rocsmq/src/rocsmqthread.c:46-55 | the first message is taken and the list stays fully linked |
| `MessageQueue.ProcessData.HasMessages` | rocsmq/src/rocsmqthread.c:99-105 | true exactly when the queue is not empty |
| `MessageQueue.ProcessData.SetRunning` | rocsmq/src/rocsmqthread.c:110-116 | sets the flag and nothing else |
| `Gpio.Wrap` | rocsmq-gpio/src/customconfig.c:54 | conversion to eight bits keeps a number modulo 256 |
| `Gpio.CountsDown` | rocsmq-gpio/src/clientmain.c:234-235 | at every request the counter, read modulo 256, is the distance to the next multiple of the divider |
| `Gpio.SampledEveryPth` | rocsmq-gpio/src/clientmain.c:231-247 | a pin is read on exactly its requests 0, P, 2P, ... with P = inhibition mod 256, plus one, negative inhibitions included |
| `Gpio.PinStep` | rocsmq-gpio/src/clientmain.c:231-247 | a request moves exactly the pins whose name it matches |
| `Gpio.HandleName` | rocsmq-gpio/src/clientmain.c:229-249 | the inner loop counts down every matching pin and reads exactly those at zero, each once, by ascending index |
| `Gpio.ReadOnExactly` | rocsmq-gpio/src/clientmain.c:231-247 | a configured pin is read on a request if and only if its name matches and the number of matching requests before is a multiple of the divider |
| `Gpio.HandleRead` | rocsmq-gpio/src/clientmain.c:219-256 | over any list of names each pin is read exactly on its own schedule, whatever is requested of the others |

## Left out

- Sockets, `select`, signals, logging, delays, daemonizing: what they return is a choice of the environment; a signal handler that runs while its thread holds the mutex is not modelled.
- JSON parsing and configuration, base64, response text, command line parsing: thin wrappers around libraries.
- Payloads are values in the node instead of pointers to copies; allocation succeeds and strings have no size limit. So the null-payload test at `rocs_cron.c` line 106, which no list ever reaches, has no counterpart.
- The sum `get_timestamp() + 1` goes through a signed `int` in C; it is modelled as wrapping.
- LinkedList.Add: needs a list for `LL_FRONT` and items for `LL_FRONT` and `LL_SORT`, because the code dereferences them; a list and its items must not share nodes.
- LinkedList.PopFront: `ll_pop` with `LL_BACK` (needs two nodes and an intact back link) and with `LL_SORT` (never writes its out-parameter) are not part of this model; neither is `ll_destroy_list`.
- `linkedlist/src/linkedlist.c` is an older copy of the list and is not modelled.
- Cron.CronTable.DelCronjob: ends at the first removal that cuts the chain, because the search after it reads the node just freed (`Chains.FoundAgain`), to which C gives no meaning.
- CronSpec.CronSchedule: stated for runs in which no step cuts the chain, which `Allowed` spells out, and for one tick step throughout, as the configuration fixes it.
- MessageQueue.ProcessData.GetMessage: needs a message, because on an empty queue the code dereferences null; that this never happens is `Receiver.EveryInterleaving`.
- Receiver.EveryInterleaving: starting the thread, and the race between its start and the first `rocsmq_thread_set_running(1)`, are left out; the machine starts with the running thread. `rocsmq_thread_is_running`, the guard of the consumer's loop, only reads the flag under the mutex and has no counterpart.
- ListRuns.PerformAll: the nodes added are single ones; a node that left the list with a link of its own, popped with others behind it or lost behind a cut, would bring those others along and is not added again.
- Routing.HarmlessServes: for one given pattern of two or more failing writes the condition is sufficient, not necessary (`Witnesses.HarmUndone`), because a later failure can undo the harm of an earlier one; over all patterns `Routing.ServedInPlaceExactly` and `Routing.ServedExactly` are exact.
- ServerSpec.StaysCleanExactly: `select(500, ...)` looks at descriptors below 500 only, so a closed one from 500 on does not end the loop, and an open one from there on is never served; the model has no such bound.
- ServerSpec.RunIsSound: assumes that `accept` returns a descriptor that is not open; the loop is cut into accepts and passes, in any order, which includes the order of the code.
- ClientList.ServerProcess.RemoveClientIdx: needs a filter for the client it removes, because the code frees the first one unconditionally and reads through a null pointer when there is none; when a run meets this is `ServerSpec.SurvivesExactly`. The leak of the other filters, and what a freed client's memory holds, are not modelled.
- ClientList.ServerProcess.Accept: when `accept` fails it returns -1, which the code takes for a descriptor, and C gives setting it in a descriptor set no meaning; the model treats it as any other number. A login message that is shorter than expected leaves the client data uninitialised in C; the model has a failed login or a filter text. Handling of system messages is left out.
- Gpio.HandleRead: the value of a pin, the response and the write branch are left out; a pin count above 127 has already become a negative `int8` when the loop sees it, and then no pin is read.
- The CAN message map, the Lua, Tcl, cdb, espeak, sphinx, opencv, tty and i2c clients: foreign calls, or no property that holds.
