# Kamailio core: models and proofs

Dafny models of the stateful and arithmetic heart of the Kamailio SIP server (`src/core`), with proofs about
every input and every run:

* the **DNS cache**: a hash table and a last-used list over the same nodes, a byte counter and reference counts
  (`DnsModel`, `DnsLookup`, `DnsNames`, `DnsEmptyCname`, `DnsEvict`, `DnsRuns`, `DnsLedger` on values; `DnsRings`,
  `DnsTable`, `DnsHandle` in place);
* **SRV records**: the weighted iterator (`SrvSelect`, `SrvRuns`) and the re-sort through link pointers (`SrvOrder`);
* the **script interpreter**: exit by `longjmp` against exit by unwinding (`Script`, `ScriptEquiv`), what each
  statement runs (`ScriptLaws`), the interpreter that changes its context in place (`ScriptMachine`), and the jump
  tables that switches are turned into (`SwitchFix`);
* **Base58** (`Base58`, on `Numerals`), **Base64** and **base64url** (`Base64`, `Base64Url`);
* the **destination blocklist** (`Blocklist`, `BlocklistOps`, `BlocklistAdd` on values; `BlocklistChain`,
  `BlocklistTable` in place);
* **received-address aliases** in URIs (`RcvAlias`, `RcvSource`) and **lump lists** copied under allocation failure
  (`Lumps`).

Each operation is a method or a function proved against a specification, and the properties are lemmas about the
specification. Bytes, masks and shifts are numbers, quotients and remainders; timer ticks wrap at 32 bits (`Ticks`).
Times, clock readings, random numbers, allocation success, hash functions and whatever lies outside a component are
parameters, so that a theorem holds for all of them. A section under a lock is one step.

Places where the code and its comments disagree, or where the obvious property fails, follow the code:

* the zero-weight lottery of the SRV iterator is won by one of the S * 1001 pairs of draws, S being the weight sum
  (`SrvSelect.LotteryOdds`), and takes the last zero-weight record (the comment says the first);
* for lists of 256 SRV records and more the iterator hands out records again, before or after "no more records",
  unless every live one stands before index length mod 256 (`SrvSelect.WholeRunExactly`, `SrvSelect.RestartsAt256`,
  `SrvSelect.GoesBackAt320`);
* an empty CNAME met after another CNAME empties the name searched for, so that records of the name before it are
  missed (`DnsEmptyCname.EmptyCnameExactly`, `DnsEmptyCname.EmptyCnameHides`);
* SRV values above 16 bits are compared whole and stored cut (`SrvOrder.OutOfRangeBreaksOrder`);
* replacing a cached record unlinks the old entry even if another step has unlinked it meanwhile
  (`DnsRuns.RunFails`, `DnsRuns.FlushBetween`);
* a while loop lets a BREAK raised by its own condition out (`ScriptEquiv.LoopScope`, `ScriptEquiv.WhileLeaks`);
* an expression used as a statement does not catch BREAK, though the comment says so (`ScriptEquiv.BreakScope`);
* `return 0` inside a route leaves different RETURN flags under the two exits (`ScriptEquiv.FlagsExactly`);
* Base58 does not restore leading zero bytes (`Base58.RoundTripExactly`);
* a wildcard added to the blocklist beside an existing protocol does not block the others
  (`BlocklistAdd.WildcardShadowed`);
* `sip:x;alias=1.1.1.1~0~0`, the example in the comments of the alias functions, is not recognised by them
  (`RcvAlias.ShortestExample`).

## Model

| member | source | states |
|---|---|---|
| `Ticks.ReachedExactly` | src/core/timer_ticks.h:53-55 | a time is reached if and only if it lies fewer than 2^31 ticks behind, and otherwise it lies 1 to 2^31 ticks ahead |
| `SrvSelect.FullRun` | src/core/dns_cache.c:2292-2409 | for every record list whose 8-bit index suffices (fewer than 256 records, or no live one at or after index length mod 256) and every sequence of random numbers: repeated calls hand out each live record exactly once and then none forever, in a sorted list with priorities never going down |
| `SrvSelect.RunEnumerates` | src/core/dns_cache.c:2292-2409 | the same from any state of the cursor (group start and tried bitmap), for the records not handed out yet |
| `SrvSelect.WholeRunExactly` | src/core/dns_cache.c:2292-2409 | for lists of any length: every run hands out each live record once and then none if and only if the 8-bit index suffices |
| `SrvSelect.GoesBackAt320` | src/core/dns_cache.c:2292-2409 | 320 live records of one priority: one of the last group is handed out, the index becomes 0, and the next call hands out one of the first group again |
| `SrvSelect.NextTakesOne` | src/core/dns_cache.c:2292-2409 | one call hands out one remaining record of the lowest remaining priority and marks only it, or there is none left |
| `SrvSelect.NoneIsFinal` | src/core/dns_cache.c:2292-2409 | for lists of any length, after an answer "no more records": it is final if and only if no live record stands at or after index length mod 256, the index being kept in 8 bits |
| `SrvSelect.RestartsAt256` | src/core/dns_cache.c:2292-2409 | the smallest lists that fail: after the last of 256 live records the answer is none, and the next call starts over |
| `SrvSelect.NoneExactly` | src/core/dns_cache.c:2292-2409 | a call at the start of a group answers none exactly when no live record is left from there on |
| `SrvRuns.HandedOutExactly` | src/core/dns_cache.c:2292-2409 | for entries and times: a run of calls hands out a record if and only if the entry is permanent or the record expires 1 to 2^31 ticks from now; each at most once, none after a none, and in a sorted entry by priority |
| `SrvRuns.LiveExactly` | src/core/dns_cache.c:2339-2340 | what the iterator sees of a record: its priority, its weight, and whether its expiry lies ahead |
| `SrvRuns.ShareExactly` | src/core/dns_cache.c:2331-2382 | for entries: outside the lottery as many of the equally likely draws hand out a record of the group as its weight says, if it is in force and untried |
| `SrvSelect.NoDraw` | src/core/dns_cache.c:2359-2366 | a single open record is taken, and without any weight the last open one |
| `SrvSelect.ProportionalToWeight` | src/core/dns_cache.c:2331-2382 | of the S equally likely draws of a group with weight sum S, exactly w choose a given open record of weight w, and none chooses a closed or zero-weight one |
| `SrvSelect.SeedExactly` | src/core/dns_cache.c:2359-2382 | the same in terms of the random seed, outside the lottery |
| `SrvSelect.DrawExactly` | src/core/dns_cache.c:2331-2382 | the running-sum search returns the record whose weight interval holds the draw, and no other |
| `SrvSelect.DrawIsOpen` | src/core/dns_cache.c:2331-2382 | a draw between 1 and the sum always hits a live, untried record |
| `SrvSelect.LotteryWinner` | src/core/dns_cache.c:2346-2377 | when the zero-weight lottery is won, the last open record of weight zero is taken (the comment in the code says the first) |
| `SrvSelect.LotteryOdds` | src/core/dns_cache.c:2364-2366 | of the S * 1001 pairs of draws exactly one wins the lottery, if a zero-weight record is open |
| `SrvSelect.PairsExactly` | src/core/dns_cache.c:2331-2382 | the lottery included: a record is chosen by 1001 pairs of draws for each unit of its weight; the winning pair is taken from the first open record with weight and given to the last open one without |
| `SrvSelect.SumFits` | src/core/dns_cache.c:2331-2358 | the weight sum of a group never exceeds the 32-bit counter |
| `SrvSelect.GetNextRr` | src/core/dns_cache.c:2292-2409 | the loop over groups, with its in-out index and bitmap, computes exactly the specified next answer |
| `SrvSelect.TryGroup` | src/core/dns_cache.c:2325-2400 | scans one group and chooses in it; says whether the group is used up and where the next one starts |
| `SrvSelect.ScanGroup` | src/core/dns_cache.c:2325-2358 | fills the running sums so that each slot holds the sum of the open weights up to it, or 0 for a closed slot |
| `SrvSelect.Pick` | src/core/dns_cache.c:2359-2382 | chooses the slot the specification chooses, from the running sums and the two random numbers |
| `SrvOrder.RrList.Reorder` | src/core/dns_cache.c:4514-4551 | moving the changed record through link pointers leaves an acyclic list of the same records with the changed one at its rank among the others, wherever it was |
| `SrvOrder.PlacedOrdered` | src/core/dns_cache.c:4514-4551 | a record put at its rank among sorted records keeps the order if and only if the values compared and the values stored agree about every other record |
| `SrvOrder.PlacedExactly` | src/core/dns_cache.c:4519-4531 | a record goes behind those of lower priority number and behind those of its own priority with as much weight or more; the others keep their order |
| `SrvOrder.ReorderOrdered` | src/core/dns_cache.c:4514-4551 | with 16-bit values the list is sorted afterwards: priority ascending, weight descending within a priority |
| `SrvOrder.ReorderPermutes` | src/core/dns_cache.c:4514-4551 | no record is lost or invented by the move |
| `SrvOrder.OutOfRangeBreaksOrder` | src/core/dns_cache.c:4514-4551 | a concrete priority above 16 bits, compared whole but stored cut, after which the list is not sorted |
| `SrvOrder.RrList.FindPlace` | src/core/dns_cache.c:4519-4531 | the first scan stops at the link where the record belongs and notes the link to the record if it passed it |
| `SrvOrder.RrList.FindSelf` | src/core/dns_cache.c:4533-4537 | the second scan finds the link to the record behind the insertion place |
| `ScriptEquiv.JumpEqualsUnwind` | src/core/action.c:1576-1663 | for every script, route table and outside world: leaving by longjmp and leaving frame by frame do the same primitive actions in the same order, return the same code, remember the same code, agree on EXIT and DROP and end at recursion level 0 |
| `ScriptEquiv.FlagsExactly` | src/core/action.c:1585-1663 | RETURN and BREAK as well: the two builds agree on RETURN if and only if it was not raised when the exit left a route statement, on BREAK if and only if it was not raised when the exit left a route, a switch, a block or a loop |
| `ScriptEquiv.RouteFreeAgrees` | src/core/action.c:1585-1663 | a script without route statements at any depth leaves the same RETURN flag in both builds, in every world |
| `ScriptEquiv.RunMatches` | src/core/action.c:1576-1663 | below the outermost frame a list that returns is matched exactly, and one abandoned by longjmp by a return with EXIT raised, the same code, and RETURN and BREAK except what the statements left have absorbed |
| `ScriptEquiv.DoMatches` | src/core/action.c:349-1408 | the same for a single action of every kind |
| `ScriptEquiv.ListMatches` | src/core/action.c:1608-1655 | the same for the rest of a list |
| `ScriptEquiv.LoopMatches` | src/core/action.c:1381-1408 | the same for a while loop after any number of turns |
| `ScriptEquiv.ReturnFlagDiffers` | src/core/action.c:126-132 | the smallest script after which RETURN is raised under longjmp and not under unwinding |
| `ScriptEquiv.RouteScope` | src/core/action.c:670-716 | a route statement that was entered lets neither BREAK nor RETURN out and remembers its code |
| `ScriptEquiv.BlockScope` | src/core/action.c:1290-1296 | a block lets BREAK out exactly when it was empty and BREAK was pending before |
| `ScriptEquiv.SwitchScope` | src/core/action.c:1216-1380 | a switch of any of the three kinds lets BREAK out exactly when its own expression raised it and then failed without a default, or raised EXIT too |
| `ScriptEquiv.LoopScope` | src/core/action.c:1381-1408 | from any turn on, a while loop lets BREAK out if and only if an evaluation of its condition ended it, stopping it or as a runaway, and left BREAK raised |
| `ScriptEquiv.WhileLeaksCondition` | src/core/action.c:1381-1408 | the same for the statement, whatever flags are raised when it starts; an if lets the BREAK of its condition out only together with EXIT |
| `ScriptEquiv.WhileLeaks` | src/core/action.c:1381-1408 | two worlds in which a loop leaks: its condition ends it after one turn, and it runs away |
| `ScriptEquiv.BreakScope` | src/core/action.c:349-1408 | for every action, the exact condition on which BREAK is raised after it; with expressions that raise none and none pending, only break itself and the branches of an if let it out |
| `ScriptLaws.IfRuns` | src/core/action.c:1096-1121 | from the answer of the condition alone: EXIT ends the statement, a true condition runs the first list, a false or failed one the second, and an empty list is a success |
| `ScriptLaws.IfIgnores` | src/core/action.c:1112-1121 | the list not chosen does not matter |
| `ScriptLaws.RouteRuns` | src/core/action.c:703-716 | a route runs the list at its index, remembers its code and ends its RETURN and BREAK; another index is an error |
| `ScriptLaws.NamedRouteRuns` | src/core/action.c:673-697 | a route given by an expression is the route its value is looked up as, with the two errors of the look-up |
| `ScriptLaws.SwitchRuns` | src/core/action.c:1216-1247 | the list of the first label equal to the value runs, or the default; a failed expression takes the default, EXIT ends it, BREAK is caught |
| `ScriptLaws.JumpSwitchRuns` | src/core/action.c:1248-1289 | the same for a jump table: labels from first to last by their place, the others one by one |
| `ScriptLaws.MatchRuns` | src/core/action.c:1297-1380 | the same for a switch on strings, whose first matching label counts |
| `ScriptLaws.WhileRuns` | src/core/action.c:1381-1408 | a loop runs its body once for each time its condition holds, until the condition fails, the turns exceed max_while_loops, or the body stops it; and what it returns then |
| `ScriptLaws.WhileIsTurns` | src/core/action.c:1381-1408 | every loop is of this form, with at most max_while_loops turns |
| `ScriptLaws.SequenceRuns` | src/core/action.c:1608-1655 | what follows a part of a list runs from where the part ended, unless that was left by EXIT, RETURN or BREAK |
| `ScriptLaws.CallGoesOn` | src/core/action.c:128-135 | a module function that returns 0 ends the script, any other code is remembered and the script goes on |
| `ScriptLaws.DropEnds` | src/core/action.c:349-380 | what follows an exit, return, break or drop is not run; which of them end the script and which the list, and with what code |
| `ScriptLaws.DropOperands` | src/core/action.c:350-365 | the number may be the value of an expression or the code remembered |
| `ScriptLaws.CoreGoesOn` | src/core/action.c:1608-1655 | a core command is done, whatever its code, and the script goes on |
| `ScriptLaws.LevelRuns` | src/core/action.c:1585-1663 | the outermost list starts afresh and ends with the code of its exit, and no list runs below the deepest level |
| `ScriptLaws.BlockRuns` | src/core/action.c:1204-1215 | a block is its list with BREAK caught; an expression as a statement lets its BREAK out |
| `ScriptUnwind.Run` | src/core/action.c:1576-1663 | running a list, with every exit unwound frame by frame, ends for every script and restores the recursion level; mutually recursive routes and nested loops are covered by the measure of remaining levels, then list or turns |
| `ScriptJump.Run` | src/core/action.c:1576-1663 | the same with longjmp: it ends, a normal return restores the level, and at the outermost level it always returns normally |
| `ScriptUnwind.Loop` | src/core/action.c:1381-1408 | a while loop ends for every positive bound on its turns |
| `ScriptMachine.RunActCtx.RunActions` | src/core/action.c:1576-1663 | the loop over the action list, changing level, flags, code and trace in place, does what the longjmp semantics says |
| `ScriptMachine.RunActCtx.DoAction` | src/core/action.c:349-1408 | one action in place, likewise |
| `ScriptMachine.RunActCtx.DoRoute` | src/core/action.c:670-716 | a route statement in place, likewise, with its error codes |
| `ScriptMachine.RunActCtx.DoSwitch` | src/core/action.c:1216-1247 | a switch in place, likewise |
| `ScriptMachine.RunActCtx.DoJumpSwitch` | src/core/action.c:1248-1289 | a switch with a jump table in place, likewise |
| `ScriptMachine.RunActCtx.DoMatch` | src/core/action.c:1297-1380 | a switch on strings in place, likewise |
| `SwitchFix.FixSwitch` | src/core/switch.c:272-411 | duplicate labels are refused; a jump table is made if and only if some window of 100 labels holds more than 3, for a window that holds as many as any; and it chooses the same list as the cases for every value |
| `SwitchFix.FixedMeansSame` | src/core/switch.c:351-403 | a switch turned into such a table does the same as before in both builds of the interpreter, in every world and from every state |
| `SwitchFix.BestWindow` | src/core/switch.c:328-350 | the window chosen holds as many labels as any that starts at a label |
| `SwitchFix.Reach` | src/core/switch.c:331-341 | the inner loop finds the highest label in reach and the number of labels up to it, whatever their order |
| `SwitchFix.Fill` | src/core/switch.c:351-375 | every slot gets the list of its label or the default, and the array for the other labels, allocated from the number of hits, is filled exactly |
| `SwitchFix.HasDuplicate` | src/core/switch.c:277-284 | found if and only if two labels are equal |
| `ScriptMachine.RunActCtx.DoWhile` | src/core/action.c:1381-1408 | a while loop in place, likewise, with the bound on its turns |
| `Base58.DecodeEncode` | src/core/basex.c:339-478 | decoding an encoding gives the bytes without their leading zeros, for every byte string |
| `Base58.RoundTripExactly` | src/core/basex.c:339-478 | the round trip is exact if and only if there is no leading zero byte |
| `Base58.EncodeDecode` | src/core/basex.c:339-478 | the other way round a text survives if and only if it does not start with '1' |
| `Base58.Alphabet` | src/core/basex.c:329-330 | the digits are the ASCII letters and digits but 0, I, O and l, in their ASCII order, both ways |
| `Base58.Examples` | src/core/basex.c:436-478 | three texts: 9 is A, 1 0 is 5R, 0 0 57 is 11z |
| `Base58.EncodingFits` | src/core/basex.c:352-395 | an encoding can be decoded in a buffer of a given size, any integer, if and only if the size is 2 at least and holds the bytes without their leading zeros and a final 0 |
| `Base58.LengthBound` | src/core/basex.c:450 | 256^n <= 58^(n*138/100+1) for every n, with integer division |
| `Base58.NoCarryOut` | src/core/basex.c:454-460 | hence the carry is zero when the digit loop reaches the first digit |
| `Base58.Encode` | src/core/basex.c:436-478 | the buffer gets one '1' for each leading zero byte and then the shortest base-58 numeral of the number; it fails exactly when that does not fit, and reports the size needed; a negative size is compared as a large unsigned one, so that everything fits |
| `Base58.ToDigits` | src/core/basex.c:450-463 | the digit buffer denotes the number of all bytes, its first nonzero digit is found, and from there on it is the encoding after one '1' for each leading zero byte |
| `Base58.AddByte` | src/core/basex.c:455-459 | one byte more: the buffer denotes 256 times the old number plus the byte, and the mark moves no further than the nonzero digits |
| `Base58.EncodeResult` | src/core/basex.c:462-475 | leading '1's and the digits after the first nonzero one are the encoding |
| `Base58.Decode` | src/core/basex.c:339-427 | it succeeds if and only if every character is a base-58 digit and the number is below 256^(size-1); then the bytes are the shortest ones of the number |
| `Base58.MulAddDigit` | src/core/basex.c:382-387 | multiplying the 32-bit limbs by 58 and adding a digit is exact: the mask on the carry loses nothing |
| `Base58.TopLimbExact` | src/core/basex.c:357-395 | without a carry, testing the top limb against the mask is exactly the test whether the number fits |
| `Base58.CarryIsTooBig` | src/core/basex.c:388-391 | a carry out of the top limb means that the number cannot fit |
| `Base58.NumberGrows` | src/core/basex.c:373-396 | a text that is too big stays too big whatever follows, so failing early is right |
| `Base58.ReadNumber` | src/core/basex.c:369-396 | the digit loop leaves the number in the limbs, or stops exactly when no continuation could fit |
| `Base58.WriteBytes` | src/core/basex.c:398-416 | the limbs are written as the big-endian bytes of the number, the top limb cut to what is left |
| `Base58.SkipZeros` | src/core/basex.c:418-426 | the result starts at the first nonzero byte |
| `Numerals.ShortestUnique` | src/core/basex.c:339-478 | a numeral without leading zero is determined by its value, so the two specifications are the only possible ones |
| `DnsRuns.RunKeeps` | src/core/dns_cache.c:506-832 | after any run of get, put, add, remove, clean, free-memory, flush, record replacement and deletion, handle copy and reset that ends: both lists hold the same entries, each once and in the bucket of its name; the byte counter is the sum of the linked sizes; every count is one for the link plus the references outstanding; what was destroyed stays destroyed and out of reach |
| `DnsRuns.RunFails` | src/core/dns_cache.c:4555-4564 | a run does not end if and only if it comes to a replacement whose old entry is out of the lists after the new one was added |
| `DnsRuns.ReplaceExactly` | src/core/dns_cache.c:4555-4578 | a replacement keeps the books if and only if its old entry is still linked after a successful add; an entry in use, linked and not long expired, always is |
| `DnsRuns.FlushBetween` | src/core/dns_cache.c:4371-4564 | a run that fails: the record fetched, the cache flushed, the changed record put in its place |
| `DnsRuns.UsedInTimeGoes` | src/core/dns_cache.c:4555-4578 | a run in which every replacement meets its old entry in use ends |
| `DnsRuns.RefcountsFromStart` | src/core/dns_cache.c:177-192 | from start-up on, for every run that ends, an entry is destroyed exactly when it is unlinked and its last reference is given back, and never twice |
| `DnsRuns.StepKeeps` | src/core/dns_cache.c:506-832 | every single step that ends keeps all of this, and every step ends but a replacement that unlinks its old entry a second time |
| `DnsModel.RemoveInv` | src/core/dns_cache.c:506-528 | unlinking keeps both lists, the counter and the counts in step |
| `DnsModel.TouchInv` | src/core/dns_cache.c:593-601 | a hit moves the entry to the end of the last-used list and keeps the invariant |
| `DnsModel.LinkInv` | src/core/dns_cache.c:822-829 | linking a new entry in both lists keeps the invariant |
| `DnsModel.PutInv` | src/core/dns_cache.c:177-192 | giving a reference back keeps the counts, and destroys at zero only |
| `DnsModel.IncInv` | src/core/dns_cache.c:744-756 | taking one keeps them |
| `DnsLookup.FindIsLookup` | src/core/dns_cache.c:540-635 | the search that removes expired entries and reorders the last-used list returns the first unexpired match in chain order, positive CNAMEs followed and the name emptied by an empty one that follows another: what a search that changes nothing returns |
| `DnsLookup.FindRefines` | src/core/dns_cache.c:540-635 | the same from any point of a scan in progress |
| `DnsLookup.TurnIsFirst` | src/core/dns_cache.c:566-632 | the entry a turn of that search stops at is unexpired, matches, and is the first such one in the chain; it finds none exactly when there is none |
| `DnsEmptyCname.EmptyCnameExactly` | src/core/dns_cache.c:540-635 | a lookup that meets no empty CNAME after another CNAME answers like one that passes empty CNAMEs by; one that meets it returns that CNAME, and the answers are equal if and only if nothing in the rest of the chain matches the name it was met under |
| `DnsEmptyCname.EmptyCnameHides` | src/core/dns_cache.c:625-632 | the smallest case: a leads to b, and an empty CNAME of b hides the record of b behind it |
| `DnsLookup.FindResult` | src/core/dns_cache.c:540-635 | a result is linked, unexpired or permanent and last in the last-used list; only expired entries have gone, and no user lost a reference |
| `DnsLookup.FindKeepsAnswers` | src/core/dns_cache.c:566-635 | what a search removes changes no later answer, for any name and type, at any time at which the expired entries are still expired |
| `DnsLookup.CnameCycle` | src/core/dns_cache.c:540-635 | a lookup that enters a cycle of CNAMEs ends with an error |
| `DnsLookup.ErrorExactly` | src/core/dns_cache.c:540-635 | a lookup ends with an error if and only if the name is empty or leads through more than MAX_CNAME_CHAIN + 1 CNAMEs |
| `DnsNames.SameNameExactly` | src/core/dns_cache.c:594-606 | names are the same if and only if they agree place by place but for the case of letters |
| `DnsNames.CaseIgnored` | src/core/dns_cache.c:540-635 | such names are looked up alike: same answer, same table afterwards |
| `DnsNames.AnswerExactly` | src/core/dns_cache.c:540-635 | without an alias of the name a lookup succeeds if and only if the cache holds a record of that name and type that is permanent or expires 1 to 2^31 ticks from now, and returns one |
| `DnsNames.AnswerIsReached` | src/core/dns_cache.c:540-635 | with aliases, what is returned is an entry of a name that the name asked for leads to |
| `DnsNames.SweepsExactly` | src/core/dns_cache.c:577-586 | what a lookup removes is no longer in force and unused or 300 seconds past its expiry; one that finds nothing has removed all of that in its chain |
| `DnsNames.ExpiredExactly` | src/core/dns_cache.c:577-578 | expired means not permanent and not ahead |
| `DnsNames.DelayExactly` | src/core/dns_cache.c:580-582 | the delay has passed 4800 ticks after the expiry |
| `DnsEvict.FreeMemResult` | src/core/dns_cache.c:694-734 | either the memory is down to the target or every survivor is permanent, protected by expired_only, or referenced and within the delay; no evicted entry was used more recently than an evictable one that was spared |
| `DnsEvict.FreeMemStopsInTime` | src/core/dns_cache.c:694-734 | it does not evict needlessly: if anything went, one of the entries evicted, put back, would exceed the target |
| `DnsEvict.FreeMemThins` | src/core/dns_cache.c:694-734 | only evictable entries have gone, every other entry and every reference is as before |
| `DnsEvict.CleanThins` | src/core/dns_cache.c:643-692 | the same for the cleaning that looks at a bounded number of entries, the bound being unsigned |
| `DnsEvict.CleanAll` | src/core/dns_cache.c:643-692 | a cleaning allowed to look at every entry leaves nothing evictable |
| `DnsEvict.CleanLooks` | src/core/dns_cache.c:643-692 | a bounded cleaning is a freeing of memory without target over the entries it looks at |
| `DnsEvict.AddResult` | src/core/dns_cache.c:799-832 | a successful add leaves the memory below the maximum and the entry newest in both lists; a failed one links nothing |
| `DnsEvict.AddExactly` | src/core/dns_cache.c:799-832 | an add that fits evicts nothing; otherwise it leaves 7/8 of the memory in use or nothing that may go, takes out no more than it must, only what may go, and succeeds if and only if the entry fits then |
| `DnsEvict.EvictableExactly` | src/core/dns_cache.c:713-722 | what may go: not permanent, expired if only expired ones may, and unused or 300 seconds past its expiry |
| `DnsEvict.FreeMemCounts` | src/core/dns_cache.c:694-734 | the number reported is the number of entries that went |
| `DnsRuns.AddSpares` | src/core/dns_cache.c:4555-4566 | winning memory for the new entry never evicts an old one that is held and not past its delay |
| `DnsRuns.FlushResult` | src/core/dns_cache.c:4071-4087 | a flush leaves exactly the permanent entries, or none when forced |
| `DnsLedger.RunMoves` | src/core/dns_cache.c:177-756 | over any run the references to an entry change by those taken less those given back: a lookup takes one on what it returns, a copied handle one for each it holds |
| `DnsLedger.DestroyedExactly` | src/core/dns_cache.c:177-192 | from start-up on, an entry is destroyed exactly when it is out of the lists and everything taken on it has been given back |
| `DnsLedger.StepMoves` | src/core/dns_cache.c:177-832 | the same for every single step |
| `DnsLedger.DeleteExactly` | src/core/dns_cache.c:4596-4606 | of the entries in force a deletion takes out the one a lookup returns, if of the type given and not permanent, and no other |
| `DnsLedger.ReplacedExactly` | src/core/dns_cache.c:4555-4566 | a replacement that succeeds puts the new entry in and takes the old one out; one that fails does neither |
| `DnsTable.Table.RemoveEntry` | src/core/dns_cache.c:506-528 | on the two circular lists: the entry is out of both, the counter is less its size, its count dropped, and the conditions on which debug_lu_lst aborts do not hold before or after |
| `DnsTable.Table.NotCorrupt` | src/core/dns_cache.c:474-500 | in a valid table none of the conditions that abort is met |
| `DnsTable.Table.UnlinkLu` | src/core/dns_cache.c:511-514 | unlinking from the last-used ring, both consistency checks included |
| `DnsTable.Table.HashFind` | src/core/dns_cache.c:540-635 | the scan over the circular chain, with the next element read in advance and entries removed under it, does what the specified find does, lists and counts included |
| `DnsTable.Table.FreeMemory` | src/core/dns_cache.c:694-734 | the walk along the last-used list, likewise |
| `DnsTable.Table.CleanCache` | src/core/dns_cache.c:643-692 | the bounded walk, likewise |
| `DnsTable.Table.AddEntry` | src/core/dns_cache.c:799-832 | adding, with memory won first if needed, likewise |
| `DnsTable.Table.HashGet` | src/core/dns_cache.c:744-756 | find and take a reference, likewise |
| `DnsTable.Table.PutRef` | src/core/dns_cache.c:177-192 | a reference given back, and the entry destroyed at zero |
| `DnsTable.Table.TouchEntry` | src/core/dns_cache.c:593-601 | the bookkeeping of a hit on the rings |
| `DnsTable.Table.FlushCache` | src/core/dns_cache.c:4071-4087 | all buckets flushed, the rings kept |
| `DnsTable.Table.DeleteEntry` | src/core/dns_cache.c:4596-4606 | the entry found goes unless it is permanent or of another type |
| `DnsTable.Table.ReplaceWith` | src/core/dns_cache.c:4555-4578 | the new entry linked, the old one unlinked and given back, on failure only given back; for an old entry out of the lists it reports, from the null link itself, that unlinking would follow it |
| `DnsTable.Table.LinksTell` | src/core/dns_cache.c:506-516 | an entry has null links exactly when it is out of the lists |
| `DnsTable.Table.constructor` | src/core/dns_cache.c:348-440 | an empty cache with its rings |
| `DnsRings.HashAppend` | src/core/clist.h:70-76 | appending to a circular list makes the ring of the longer sequence, every other link as before |
| `DnsRings.HashRm` | src/core/clist.h:85-91 | removing makes the ring of the sequence without the element, which is left unlinked |
| `DnsRings.LuAppend` | src/core/clist.h:70-76 | the same for the last-used links of the same nodes |
| `DnsRings.LuRm` | src/core/clist.h:85-91 | and for removing |
| `DnsHandle.SrvHandle.PutAllRefs` | src/core/dns_cache.h:215-232 | every reference the handle owns goes back once, and it owns none afterwards |
| `DnsHandle.SrvHandle.Ref` | src/core/dns_cache.h:237-247 | one reference more for each one held |
| `DnsHandle.SrvHandle.CopyFrom` | src/core/dns_cache.h:252-257 | the copy has every field of the original, owns as many references, and the counts say so |
| `DnsHandle.SrvHandle.Reset` | src/core/dns_cache.h:309-327 | gives back the SRV and address references, keeps the NAPTR one and both sets of tried records, and starts over |
| `DnsHandle.CopyThenPut` | src/core/dns_cache.h:215-257 | a copy made and put again leaves every count as it was |
| `BlocklistTable.RunKeeps` | src/core/dst_blocklist.c:538-780 | after any run of lookup, add, delete, timer and flush: entries stand in their buckets, no two could be meant by one query (same address and port, equal protocols or a wildcard), the IPv6 bit is true to the address, and the byte counter is the sum of the sizes and below its limit |
| `BlocklistTable.StepKeeps` | src/core/dst_blocklist.c:538-780 | every operation keeps this |
| `Blocklist.LookupIsPlain` | src/core/dst_blocklist.c:538-780 | for a concrete protocol a lookup equals a lookup in the plain set of live entries: it hits if and only if one matches, and that one is unique |
| `Blocklist.BlockedExactly` | src/core/dst_blocklist.c:538-780 | a lookup hits if and only if an entry of the table has the address and port, the protocol or none on one side, and 1 to 2^31 ticks to go, and answers with the flags of one that has |
| `Blocklist.FindKeepsAnswers` | src/core/dst_blocklist.c:538-569 | the expired entries a search drops change no later answer |
| `Blocklist.DelLeaves` | src/core/dst_blocklist.c:576-611 | after a delete nothing matching is left for a concrete protocol; for the wildcard, if and only if there was at most one match |
| `Blocklist.DelExactly` | src/core/dst_blocklist.c:576-611 | of the entries with time to go a delete takes out the one that blocks the destination and no other; for the wildcard one of those that do |
| `Blocklist.SearchLive` | src/core/dst_blocklist.c:538-569 | a search drops expired entries only and keeps the order of the others |
| `BlocklistOps.CleanResult` | src/core/dst_blocklist.c:626-681 | a cleaning keeps the table in order; stopped by its target it has reached it; not cut short it leaves nothing that was due when it began; and later lookups are answered as if it had not run |
| `BlocklistOps.CleanPassed` | src/core/dst_blocklist.c:639-677 | a cleaning begins where the last one stopped and goes round: buckets passed hold nothing due, buckets not reached are as they were |
| `BlocklistOps.CleanInTime` | src/core/dst_blocklist.c:662-669 | it gives up only when a reading of the clock is late, and without time to spend after the first bucket with entries |
| `BlocklistOps.CleanBucketResult` | src/core/dst_blocklist.c:644-660 | in one bucket only due entries go, all of them unless the target stops it, and the counter follows |
| `BlocklistAdd.AddInv` | src/core/dst_blocklist.c:692-755 | adding keeps the table in order and the counter below its limit |
| `BlocklistAdd.AddBlocks` | src/core/dst_blocklist.c:692-755 | a destination added successfully is blocked, with the flags given, if and only if its expiry lies ahead in 32-bit time |
| `BlocklistAdd.AddBlocksUntil` | src/core/dst_blocklist.c:692-755 | a destination added for a number of ticks is blocked until then, with the flags it had and those given, and not afterwards, in 32-bit time |
| `BlocklistAdd.AddRoom` | src/core/dst_blocklist.c:719-747 | when an add runs short of room, what it frees at most, and its three return values |
| `BlocklistAdd.NewestFirst` | src/core/dst_blocklist.c:526-530 | a new entry answers first when its destination is asked for without a protocol |
| `BlocklistAdd.WildcardCovers` | src/core/dst_blocklist.c:692-755 | a wildcard added successfully blocks a protocol if and only if it made an entry of its own or the protocol was blocked before |
| `BlocklistAdd.WildcardShadowed` | src/core/dst_blocklist.c:714-717 | the failing family: one protocol added, then the wildcard, and a third protocol is still let through |
| `BlocklistAdd.AddOthers` | src/core/dst_blocklist.c:692-755 | no later answer about another address or port changes, whether the add merges, cleans, inserts or fails |
| `BlocklistAdd.InsertInv` | src/core/dst_blocklist.c:723-751 | inserting keeps the table in order if and only if nothing in the bucket conflicts with the new entry |
| `BlocklistTable.FlushAnswers` | src/core/dst_blocklist.c:1056-1080 | after a flush a lookup finds what it found before if that was permanent, and nothing otherwise |
| `BlocklistTable.Table.Find` | src/core/dst_blocklist.c:538-569 | the walk through the places that hold the pointers, unlinking as it goes, leaves linked lists of the entries the specification leaves, the other lists untouched, and returns the entry it finds |
| `BlocklistTable.Table.Delete` | src/core/dst_blocklist.c:576-611 | likewise for deleting, with its return value |
| `BlocklistTable.Table.IsBlocklisted` | src/core/dst_blocklist.c:760-780 | the flags of the entry found, or none; an empty bucket is not walked |
| `BlocklistTable.Table.CleanExpired` | src/core/dst_blocklist.c:626-681 | the loop over all buckets from where the last cleaning stopped, with its removals, its two ways to stop early and the place it stores |
| `BlocklistTable.Table.AddIp` | src/core/dst_blocklist.c:692-755 | merge, or clean and insert, with the three return values and the place where the next cleaning starts |
| `BlocklistTable.Table.FlushAll` | src/core/dst_blocklist.c:1056-1080 | all buckets, permanent entries kept |
| `BlocklistTable.Table.RemoveAt` | src/core/dst_blocklist.c:556-560 | one entry unlinked through the place that points to it: its list is the old one without it, the others are as before, and the counter is less its size |
| `BlocklistTable.Table.AddEntry` | src/core/dst_blocklist.c:736-750 | a new entry becomes the head of its list |
| `BlocklistChain.Chain.Unlink` | src/core/dst_blocklist.c:556-557 | the list stays linked, each entry once, and the place now points to the next entry |
| `BlocklistChain.Chain.Prepend` | src/core/dst_blocklist.c:526-530 | the list of the new entry and the old ones |
| `RcvAlias.AddedIsFound` | src/core/dset.c:1037-1087 | for every URI, also one with aliases already: the alias just added is the one found if and only if the URI has 6 characters at least and the value 11 |
| `RcvAlias.RoundTrip` | src/core/dset.c:974-1211 | restoring gives back the URI and the source as a URI of address, port and transport; trimming gives the same URI |
| `RcvAlias.Ip4RoundTrip` | src/core/dset.c:974-1127 | every IPv4 source and port can be restored from a URI of 6 characters or more |
| `RcvSource.RestoredTells` | src/core/dset.c:1025-1127 | read back, the restored source gives the address, the port as a number and the name of the transport: tcp, tls, sctp, ws for WS and WSS, and none otherwise |
| `RcvSource.ReadsBack` | src/core/dset.c:1106-1122 | the same of the text itself |
| `RcvSource.SourceTexts` | src/core/dset.c:1106-1122 | the literal text for each protocol |
| `RcvSource.AliasTexts` | src/core/dset.c:993-1013 | the literal alias for each protocol code |
| `RcvSource.DecimalExactly` | src/core/dset.c:988 | a port is written in decimal digits, most significant first, without a leading zero |
| `RcvSource.OctetExactly` | src/core/dset.c:985 | and so are the numbers of an address |
| `RcvAlias.AddedIsLost` | src/core/dset.c:1037-1054 | otherwise nothing is found, or a tag of the URI itself that stands after place 5 is |
| `RcvAlias.ShortestExample` | src/core/dset.c:1037-1054 | the example in the code's own comment cannot be read back |
| `RcvAlias.PeelReverse` | src/core/dset.c:974-1211 | aliases added one after the other come off in reverse order, each with its own source |
| `RcvAlias.ParseExact` | src/core/dset.c:1037-1087 | reading succeeds if and only if the last tag that leaves room and stands after place 5 starts a complete value that ends its parameter |
| `RcvAlias.Conservation` | src/core/dset.c:1098-1104 | the URI is what is left with tag and value put back in their place |
| `RcvAlias.TrimIsRestore` | src/core/dset.c:1134-1211 | trimming finds an alias exactly when restoring does and leaves the same URI |
| `RcvAlias.AddRcvAlias` | src/core/dset.c:974-1018 | the buffer gets the URI with its alias and a final NUL, inside its bounds; too small a buffer is refused and left alone |
| `RcvAlias.RestoreRcvAlias` | src/core/dset.c:1025-1127 | both buffers get what was specified, every write inside them; the three return codes |
| `RcvAlias.TrimRcvAlias` | src/core/dset.c:1134-1211 | likewise for trimming |
| `RcvAlias.ReadAlias` | src/core/dset.c:1037-1087 | the backward scan and the two searches for '~' compute the specified reading |
| `Lumps.Pkg.DupR` | src/core/data_lump.c:538-595 | for every list and every point where an allocation fails: a copy or nothing; on failure every node allocated on the way has been freed once; on success the copy has the shape and contents of the source, marked, with no link of another kind; the source is unchanged |
| `Lumps.Pkg.Dup` | src/core/data_lump.c:604-610 | no copy if and only if the list is empty or one of the allocations it needs fails |
| `Lumps.Pkg.FreeShallow` | src/core/data_lump.c:518-534 | frees a node and its two lists, each node once |
| `Lumps.Pkg.FreeDuped` | src/core/data_lump.c:613-646 | frees every node once, and of the texts exactly those of nodes that are not copies |
| `Lumps.TextsExactly` | src/core/data_lump.c:466-480 | these are the values of the added lumps that are not marked as copies |
| `Lumps.Pkg.DupThenFree` | src/core/data_lump.c:538-646 | a copy made and freed leaves allocated nodes and texts as they were |
| `Lumps.CopiesOwnNothing` | src/core/data_lump.c:559-560 | a copy owns none of the texts it shares |
| `Base64.Encode` | src/core/basex.h:562-616 | on both alignment paths and for both byte orders the output is the encoding of section 4 of RFC 4648; too small a buffer is refused with the size needed |
| `Base64.InitTable` | src/core/basex.c:176-193 | the 8K table holds, for each 12 bits, its two characters in memory order |
| `Base64.PutQuad` | src/core/basex.h:574-596 | two look-ups give the four characters of a 24-bit group, byte by byte or two at a time |
| `Base64.IndexGroups` | src/core/basex.h:208-209 | the two 12-bit indices split a 24-bit group into its four 6-bit groups |
| `Base64.RoundTrip` | src/core/basex.h:562-719 | decoding the encoding of a nonempty string gives the string |
| `Base64.Decode` | src/core/basex.h:663-719 | the loop computes the specified bytes for every input, digits or not, and returns 0 exactly on malformed lengths and padding |
| `Base64.Alphabets` | src/core/basex.h:497-552 | the two character functions and the URL tables are inverse to each other and have no other digits |
| `Base64.AlphabetOrder` | src/core/basex.h:497-552 | the digits are capitals, small letters, numerals and the two others, in this order and each kind in ASCII order, and nothing else is one |
| `Base64.EncodedValue` | src/core/basex.h:562-616 | without its '=' the text denotes in base 64 the number the bytes denote in base 256, times 16 or 4 where bits were filled up |
| `Base64.EncodedPads` | src/core/basex.h:597-614 | behind the digits there is '=' only |
| `Base64Url.RoundTrip` | src/core/basex.c:529-632 | decoding undoes encoding on every nonempty string with all, some or none of its trailing '=' |
| `Base64Url.UrlEncode` | src/core/basex.c:529-578 | the output is the encoding of section 5 of RFC 4648 and a NUL; every refusal and its condition |
| `Base64Url.UrlDecode` | src/core/basex.c:580-632 | the output is the decoding and a NUL; it fails exactly when the length computed is not positive or does not fit or a character is not a digit |

## Left out

- ScriptUnwind.Run: assumes a `max_while_loops` other than 0, which means no bound in the code and then no promise of an end
- ScriptJump.Run: expressions, module functions and message operations are oracles of the trace so far; a `longjmp` from inside an expression is not modelled
- ScriptEquiv.JumpEqualsUnwind: the outside world answers both builds alike; that nested scripts run by `run_actions_safe` get a fresh context only in the build with longjmp is not modelled
- SwitchFix.FixSwitch: labels are the 32-bit values of the table and their differences do not overflow; the joining of the case lists for fall-through and the shortcuts for empty, default-only and constant switches come before it
- SrvSelect.FullRun: for the lists whose 8-bit index suffices; `SrvSelect.WholeRunExactly` says that no others are handed out rightly
- DnsLookup.FindIsLookup: the build without `DNS_WATCHDOG_SUPPORT`, which keeps expired entries while the DNS servers are down
- DnsEmptyCname.EmptyCnameExactly: what follows a lost name is said for caches without an unexpired entry of the empty name, which such a search would then find
- DnsRuns.RunKeeps: the default mode only, without `DNS_CACHE_MODE_RMUNLINKED`, which destroys entries whatever their count
- DnsTable.Table.AddEntry: the check of the memory limit made before the lock is taken is not a step of the model
- DnsModel.RemoveInv: the byte counter is unbounded; it does not wrap at 32 bits
- Base58.Encode: for a negative size the caller's buffer is taken to hold the result, which the code does not check
- Base58.Decode: null pointers and a negative text size are not inputs of the model
- Base64.Decode: null pointers and negative lengths are not inputs of the model; lengths do not overflow
- Base64Url.UrlDecode: characters of the table are read as signed; `ilen * 6` does not overflow
- BlocklistTable.RunKeeps: an add is one step; the lock is given up while memory is freed, and `BlocklistAdd.InsertInv` says exactly when another process in that window breaks the order; the counter does not wrap
- BlocklistTable.Table.IsBlocklisted: the permanent flag does not exempt an entry from expiry, as in the code
- RcvAlias.RoundTrip: the text of the source address is a parameter (any text without '~' and ';'); only the IPv4 form is built from its bytes; the tag has its only semicolon in front
- The resolver, NAPTR selection, record cloning and the layout of entries in shared memory: entries are objects
- Configuration, RPC, logging, statistics, timers and start-up
- `q_base64_enc`, `q_base64_dec`, base16 and the smaller base64 tables: they would only add easy members
- Sorted insertion and deep copying of lumps, and reply lumps
- Ignore masks, event callbacks and the message-level wrappers of the blocklist
