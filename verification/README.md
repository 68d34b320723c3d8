# A verified model of tacppd

tacppd is a TACACS+ daemon written in C++. This project models the parts of it that carry real invariants and proves
what they keep over every input, run or interleaving. A method that holds a mutex in the daemon is one atomic step here.

Run `dafny verify dfyconfig.toml` to check everything.

## What is modelled

- **XML file database** (`db/xml-db.cc`). The driver edits one text buffer in place while a parser walks an untouched
  copy; a running offset maps positions between the two. `XmlEscape` has the entity passes, `XmlReader` and `XmlDoc` a
  reader of the subset of XML that the driver's files use, `XmlTable` the row text, `XmlPass` the callbacks as steps on
  values, `XmlEdit` the operations on a list of units, `XmlRefine` and `XmlInsert` the proof that a pass over the text
  is the operation on units, `XmlTrim` the exact condition under which deletion removes only rows and white space,
  `XmlRows`, `XmlRuns` and `XmlValues` the step to tables of rows, runs of operations and column values, `XmlTyped` the
  step to tables of typed values without any text, `XmlStart` the exact files from which every run deletes cleanly,
  `ConNumbers` the numbers of connections, and `XmlDriver` the driver itself with its buffer, its connections and the
  callbacks in place.
- **Command lines and configuration** (`src/Command.cc`, `src/CoreAccess.cc`, `src/CoreData.cc`). `LineSplitter` is the
  scanner with quotes, escapes and comments, `AccessLists` the lists with their printing, `ConfigReplay` the theorem
  that printing and replaying rebuilds them, `Completion` the insertion of a common prefix, `Text` decimal text.
- **NetFlow aggregator** (`src/NetFlow.cc`). `NetFlow` has the three-level map of flow objects refining a flat map, the
  expiry of one source, and conservation of traffic over whole runs.
- **Internet checksum** (`src/Icmp.cc`). `Checksum`, against the one's complement sum of RFC 1071.
- **Bundle and listener** (`src/ServerTrack.cc`, `src/CoreBundle.cc`, `src/Listener.cc`, `src/CoreListener.cc`).
  `ServerTrack`, `Bundle` and `Listener`.
- **Restart scans** (`src/AModify.cc`, `src/TacDb.cc`, `src/CoreDevice.cc`). `AvpModify` and `DeviceUsers`.
- **Address pools** (`src/CorePool.cc`, `include/ipaddr.h`). `IpAddr` and `AddressPool`.
- **Stored passwords** (`src/TacDb.cc`, `src/Utils.cc`). `Base64` and `PasswordCrypt`.

## Where the code does not do what it seems to promise

Each of these is kept as coded, with the exact condition under which the promise holds.

- Deletion in the XML file is clean exactly when white space follows every matching row (`XmlTrim.DeleteIsCleanIff`).
  Not every file without rows is a safe start: every run from it deletes cleanly if and only if each of its table tags
  is followed by blanks and then a line break (`XmlStart.CleanRunsIff`). Files without tables are a safe start
  (`XmlRuns.NoTablesInv`), and runs keep what is needed (`XmlRuns.RunRefines`).
- `db_open` can hand out a connection number that is in use. It does so exactly when the oldest connection has a number
  above 1 and all smaller numbers are open (`ConNumbers.NumbersIff`); `ConNumbers.NumberTwice` is such a run.
- The record a server keeps of itself absorbs all packets, so every server of a bundle believes it is the active one
  (`ServerTrack.CodedLeaderIff`). If a packet refreshed its sender's record there would be one leader
  (`ServerTrack.MeantSingleLeader`), the timing of the keepalives is enough for that (`Bundle.SteadySingleLeader`), and
  when a leader falls silent the highest of the others takes over (`ServerTrack.Takeover`).
- Both restart scans resume at index 1, so a new head is never looked at (`AvpModify.ResolvedIff`,
  `DeviceUsers.OnePerPort`). The user scan deletes by port alone and can drop the wrong user
  (`DeviceUsers.PollingIff`, `DeviceUsers.WrongUserDropped`).
- A pool range that starts at .0, or whose first number is 0, inserts nothing, and one that ends at .255 stops at .254
  (`AddressPool.RangeIff`). A held address can be handed out again, exactly in the runs that add an address which is
  held but not in the pool (`AddressPool.RunSafeIff`): deleting it and adding it again is such a run
  (`AddressPool.HandedOutTwice`).
- An odd-length checksum reads an uninitialised byte (`Checksum.OddRightIff`).
- A password is cut at the first byte that equals its hash byte (`PasswordCrypt.RoundTripIff`).
- A connection limit can be exceeded, exactly when limits are lowered while the listener runs
  (`Listener.LimitsKeptIff`).
- A pattern with a blank that is not escaped, or one that starts with a quote or a comment sign, does not survive
  printing and reading (`ConfigReplay.RoundTripIff`). Backslashes do survive, because the splitter leaves them in the
  word.

## Model

| member | source | states |
|---|---|---|
| `XmlEscape.Convert2WF` | db/xml-db.cc:181-192 | the five replace loops terminate on every string and leave each of & < > ' " replaced by its entity, every other character as it was |
| `XmlEscape.ReplacePass` | db/xml-db.cc:187-190 | a pass whose search always restarts at 0 replaces every occurrence of its character, because the entity does not contain it |
| `XmlEscape.ReplaceHeadPass` | db/xml-db.cc:186 | the pass for & resumes one past each hit, so it terminates and does not escape its own entities again |
| `XmlEscape.FivePassesAreEncode` | db/xml-db.cc:181-192 | five passes in sequence equal one simultaneous substitution: no pass touches what an earlier one produced |
| `XmlEscape.EncodeIsQuotable` | db/xml-db.cc:181-192 | escaped text has no raw <, > or quote, so it can stand between quotes |
| `XmlTable.ValueReads` | db/xml-db.cc:181-192 | decoding undoes escaping: an escaped value between quotes is read back, by the predefined entities (section 4.6 of XML 1.0), as the value, up to white space normalisation |
| `XmlReader.Predefined` | db/xml-db.cc:181-192 | the five entities the driver writes are read as the characters of section 4.6 of XML 1.0 |
| `XmlReader.ReadNodeSame` | db/xml-db.cc:306-400 | what the parser reports for a unit depends only on the unit's own text, so edits elsewhere do not change it |
| `XmlDoc.ScanIff` | db/xml-db.cc:467-513 | a file and its list of units (tags, row elements, the text between them) determine each other |
| `XmlTable.MakeColumn` | db/xml-db.cc:210-246 | one column as written: kept and escaped old value, or the new value in its type's form |
| `XmlTable.MakeRow` | db/xml-db.cc:194-252 | the row text is the indent, the tag and every column in table order |
| `XmlTable.RowReads` | db/xml-db.cc:194-252 | the row text is read back as exactly one empty row element whose attributes are the columns with their values |
| `XmlPass.RunAppend` | db/xml-db.cc:467-513 | a pass over consecutive parts of the file is the passes over the parts, one after the other |
| `XmlRefine.DeleteFront` | db/xml-db.cc:410-436 | after any number of units of a delete pass the unprocessed suffix of the edited buffer, at the position minus buffDeviation, is that of the untouched copy, and the text before it is that of the passed units without the hit rows |
| `XmlRefine.DeletePass` | db/xml-db.cc:410-436 | given white space after each hit row, a delete pass ends with exactly the hit rows removed and white space beside them trimmed |
| `XmlRefine.CutRowText` | db/xml-db.cc:423-433 | removing one row trims the white space on both sides of it and moves buffDeviation by exactly what was removed |
| `XmlRefine.UpdateFront` | db/xml-db.cc:437-446 | the same suffix invariant at every unit of an update pass, with the hit rows replaced |
| `XmlRefine.UpdatePass` | db/xml-db.cc:437-446 | an update pass ends with exactly the hit rows replaced |
| `XmlRefine.SelectPass` | db/xml-db.cc:351-362 | a select leaves the buffer alone and numbers the matching rows 0, 1, 2, ... in document order |
| `XmlInsert.AddPass` | db/xml-db.cc:316-326 | an insert puts the new row directly behind the tag of the one table with that name and changes nothing else |
| `XmlInsert.CreatePass` | db/xml-db.cc:331-346 | a create puts an empty table behind the database tag and changes nothing else; under a name without markup characters the result is well formed |
| `XmlTrim.DeleteIsCleanIff` | db/xml-db.cc:423-433 | a delete removes the matching rows and otherwise only white space if and only if a blank, tab or newline follows each matching row |
| `XmlTrim.CutUnspaced` | db/xml-db.cc:427-431 | without that white space the second replacement gets a negative length and erases everything behind the next character |
| `XmlTrim.LosesText` | db/xml-db.cc:423-433 | so a pass that meets such a row loses part of the text that should survive |
| `XmlRows.WithoutTables` | db/xml-db.cc:372-378 | deleting row units from the file is deleting the matching rows from the list of rows of the named table |
| `XmlRows.UpdTables` | db/xml-db.cc:363-371 | replacing row units is changing the matching rows of the named table |
| `XmlRows.SelTables` | db/xml-db.cc:351-362 | the rows a select meets are the matching rows of the named table, in order |
| `XmlRows.AddTables` | db/xml-db.cc:316-326 | an added row becomes the first row of the named table; all other rows and tables stay |
| `XmlRows.CreateRefines` | db/xml-db.cc:331-346 | a create adds one empty table in front of the others |
| `XmlRuns.LineEndedSpaced` | db/xml-db.cc:318-346 | when every table tag and row is followed by blanks and a newline, a delete removes only white space beside rows |
| `XmlRuns.DelLineEnded` | db/xml-db.cc:423-433 | a delete keeps every table tag and row followed by blanks and a newline |
| `XmlRuns.AddLineEnded` | db/xml-db.cc:318-326 | an add keeps it, for the table tag, the new row and all others |
| `XmlRuns.CreateLineEnded` | db/xml-db.cc:331-346 | a create keeps it and establishes it for the new table |
| `XmlRuns.NoTablesInv` | db/xml-db.cc:528-574 | a file without tables meets the invariant of all later runs |
| `XmlRuns.OpRefines` | db/xml-db.cc:467-526 | create, add, update, delete and select on the text never fail, keep the invariant, and are the same operations on lists of rows |
| `XmlRuns.RunRefines` | db/xml-db.cc:467-526 | after any run of operations the file parses and its tables and rows are those of the run on lists |
| `XmlRuns.FromScratch` | db/xml-db.cc:467-526 | from the smallest database file, every run of operations ends with a file whose tables and rows are those of the run on lists |
| `XmlValues.CellReads` | db/xml-db.cc:629-702 | reading the stored text of a bool, int, string or date gives the value |
| `XmlValues.CellMatchesIff` | db/xml-db.cc:269-300 | the stored text of a value is accepted by a request for a value of its type if and only if the two are equal, for strings without regard to case |
| `XmlValues.RowMatchesSelf` | db/xml-db.cc:254-305 | a row satisfies any request made of its own values |
| `XmlValues.AddedIsFirst` | db/xml-db.cc:316-326 | a row just added is result 0 of a select for any of its own values |
| `XmlValues.AddQueryGet` | db/xml-db.cc:704-717 | db_add, then db_query, then db_get(0), all on the text, give every stored column value back |
| `XmlValues.UpdatedRow` | db/xml-db.cc:212-218 | an updated row keeps the old value of every unmarked column and has the new value of every marked one |
| `XmlValues.FirstRowSpaced` | db/xml-db.cc:318-323 | the first row added to a file without rows can be deleted cleanly if and only if white space followed the table tag |
| `XmlTyped.RequestIff` | db/xml-db.cc:254-305 | a row written from values is selected, updated or deleted by a request if and only if every requested column that the row has holds the requested value |
| `XmlTyped.KeepText` | db/xml-db.cc:351-378 | deleting and selecting rows of text is dropping and choosing exactly the value rows that hold the requested values |
| `XmlTyped.ChangeText` | db/xml-db.cc:363-371 | updating rows of text gives the marked columns of exactly those value rows their new values and keeps all else |
| `XmlTyped.TypedStep` | db/xml-db.cc:467-526 | each operation on rows of text is the operation on tables of typed values |
| `XmlTyped.TypedRefines` | db/xml-db.cc:467-526 | so is every run of operations |
| `XmlTyped.QueryAnswers` | db/xml-db.cc:629-717 | from the smallest file, after any run on the text, a query numbers exactly the rows of the run on values that hold the requested values, and db_get reads every column back as the value it holds |
| `XmlStart.AddThenDelete` | db/xml-db.cc:318-323 | adding a row and deleting it again leaves all as before, except that the table tag has lost the blanks behind it |
| `XmlStart.RoundsTell` | db/xml-db.cc:318-323 | if add, delete, add, delete is clean twice, a line break follows the blanks behind the table tag |
| `XmlStart.CleanRunsIff` | db/xml-db.cc:423-433 | from a file without rows, every delete of every run is clean if and only if every table tag is followed by blanks and then a line break |
| `XmlDriver.CompareRow` | db/xml-db.cc:254-305 | the comparison loop accepts a row exactly when every requested column that the row has carries the requested value |
| `XmlDriver.XmlDb.TableStart` | db/xml-db.cc:310-328 | the table branch of the start callback, in place on the buffer, is the step on values |
| `XmlDriver.XmlDb.RowStart` | db/xml-db.cc:351-395 | the row branch of the start callback, in place, is the step on values |
| `XmlDriver.XmlDb.QueryStart` | db/xml-db.cc:306-398 | the start callback, in place, is the step on values |
| `XmlDriver.XmlDb.RowStop` | db/xml-db.cc:400-450 | the row branch of the end callback, in place, is the step on values, including the case in which replace throws |
| `XmlDriver.XmlDb.QueryStop` | db/xml-db.cc:400-465 | the end callback, in place, is the step on values |
| `XmlDriver.XmlDb.XmlAction` | db/xml-db.cc:467-526 | the driver's loop over the untouched copy ends with the buffer and results of the pass; without the connection nothing changes |
| `XmlDriver.XmlDb.Perform` | db/xml-db.cc:704-727 | each entry point, on a file that meets the invariant, succeeds and leaves a file that is the result of the operation on rows |
| `XmlDriver.XmlDb.DbGet` | db/xml-db.cc:629-702 | db_get succeeds exactly for the row numbers of the last result and fills exactly the columns that were not requested |
| `XmlDriver.XmlDb.Deliver` | db/xml-db.cc:504-513 | the callbacks one after the other, in place, are the pass on values, up to the first that throws |
| `XmlDriver.XmlDb.DbOpen` | db/xml-db.cc:528-574 | the numbering loop, which restarts at the second connection after each clash; only the first open ever reads the file |
| `XmlDriver.XmlDb.DbClose` | db/xml-db.cc:576-617 | the first connection of that number goes; the buffer is written exactly when it was the last one and its last action was no select |
| `ConNumbers.OpenCollidesIff` | db/xml-db.cc:532-538 | db_open hands out a number in use if and only if the oldest number k is above 1 and later connections hold all of 1..k-1 but not k |
| `ConNumbers.NumbersIff` | db/xml-db.cc:528-592 | over any run of opens and closes, numbers stay distinct if and only if no connection is opened while the oldest one has a number above 1 and all smaller numbers are open |
| `ConNumbers.NumberTwice` | db/xml-db.cc:528-592 | open, open, close the first, open, open: the last connection gets the number of the second |
| `LineSplitter.VtyLineSplitter.Split` | src/Command.cc:775-841 | the scanning loop leaves exactly the words of the line and the start of its trailing comment |
| `LineSplitter.SplitAccounts` | src/Command.cc:775-841 | words are in bounds, ascending and separated; the comment starts with a comment sign behind all words; every character outside is a blank, a quote of a word, or in the comment |
| `LineSplitter.WordEndIs` | src/Command.cc:788-830 | a word ends at the first delimiter with an even number of backslashes directly before it in the word, or with the line: a character is escaped if and only if that number is odd |
| `LineSplitter.FirstWord` | src/Command.cc:788-841 | a quote opens a word that ends at the first such copy of it, anything else but a blank or a comment sign one that ends at the first such blank |
| `LineSplitter.QuotedIff` | src/Command.cc:788-841 | text in quotes comes back as exactly one word if and only if every copy of the quote in it is escaped and the closing one is not; text without that quote or a backslash always does |
| `LineSplitter.PlainIffWord` | src/Command.cc:788-841 | the rest of a line is read as one word as it stands if and only if it starts with no blank, quote or comment sign and an odd number of backslashes stands directly before every blank in it |
| `AccessLists.AclData.Check` | src/CoreAccess.cc:151-169 | a subject is accepted if and only if some rule permits it and neither that rule nor an earlier one denies it |
| `AccessLists.AclData.BuildCfStr` | src/CoreAccess.cc:171-187 | the printed form of a list: heading, rules in order, exit |
| `AccessLists.AclData.AddRule` | src/CoreAccess.cc:189-215 | a non-empty pattern is appended as a rule |
| `AccessLists.AclData.DelRule` | src/CoreAccess.cc:217-256 | the first entry with the permit or deny pattern goes and every other one stays in its place; nothing changes when there is none, or for an empty pattern |
| `AccessLists.CoreAccess.Add` | src/CoreAccess.cc:288-304 | a list is created at the end if its number is new |
| `AccessLists.CoreAccess.AddRule` | src/CoreAccess.cc:305-347 | a rule goes to the first list of that number, which is created if there is none; other lists stay |
| `AccessLists.CoreAccess.Del` | src/CoreAccess.cc:348-366 | every list of that number is removed, the others keep their order |
| `AccessLists.CoreAccess.DelRule` | src/CoreAccess.cc:368-402 | that happens in the first list of the number, every other list stays as it was, and success means that the list exists |
| `AccessLists.CoreAccess.Check` | src/CoreAccess.cc:404-422 | a subject is accepted if and only if some list of the given number accepts it |
| `AccessLists.CoreAccess.BuildPiece` | src/CoreData.cc:155-164 | one printed piece; only the first carries the heading |
| `AccessLists.CoreAccess.BuildCf` | src/CoreData.cc:166-178 | the collecting loop, which stops at the first piece of at most five characters, prints every list and stops exactly after the last |
| `AccessLists.PieceSize` | src/CoreData.cc:166-178 | a piece is longer than five characters if and only if it holds a list or the heading: the stop test is right |
| `AccessLists.CoreAccess.ApplyCf` | src/CoreAccess.cc:444-471 | the configuration commands edit the lists as the operations on values do, and exactly a removal from a list that does not exist is refused |
| `AccessLists.OldRule` | src/CoreAccess.cc:305-347 | a rule for a number in use goes to the end of its first list and changes no other |
| `AccessLists.NewRule` | src/CoreAccess.cc:305-347 | a rule for a new number makes a list at the end, without the rule if its pattern is empty |
| `AccessLists.DropIs` | src/CoreAccess.cc:217-256 | removal of a rule takes away the first one named and nothing else |
| `AccessLists.RemoveSame` | src/CoreAccess.cc:348-366 | deleting a number erases its lists one by one |
| `AccessLists.WithoutNone` | src/CoreAccess.cc:348-366 | deleting a number that no list has changes nothing |
| `AccessLists.RuleCommandUndone` | src/CoreAccess.cc:444-471 | "no permit" and "no deny" take back the rule just made with the pattern, if the list had none of that pattern |
| `AccessLists.ListCommandUndone` | src/CoreAccess.cc:444-471 | "no access" takes back the list just made, if there was none of that number |
| `AccessLists.WithRuleDistinct` | src/CoreAccess.cc:305-347 | list numbers stay distinct when rules and lists are added |
| `AccessLists.WithoutListDistinct` | src/CoreAccess.cc:348-366 | list numbers stay distinct when a list is deleted |
| `ConfigReplay.LoadLine` | src/Command.cc:85-166 | one line: split, and the command that its keyword selects |
| `ConfigReplay.Load` | src/Command.cc:313-361 | the reader of a configuration text, line by line over the splitter and the commands |
| `ConfigReplay.SeenIff` | src/Command.cc:117-166 | a printed rule line comes back with its pattern unchanged if and only if the pattern has 2 to 255 characters and is one plain word |
| `ConfigReplay.ReplayIs` | src/CoreData.cc:166-178 | printing all lists and reading the text into an empty configuration gives exactly the lists as the splitter sees them, or fails |
| `ConfigReplay.RoundTripIff` | src/CoreData.cc:166-178 | printing and replaying rebuilds the same lists in the same order if and only if every pattern has 2 to 255 characters and is one plain word |
| `Text.AtoiToString` | src/Utils.cc:1159-1165 | atoi undoes the decimal printing of every integer |
| `Text.CapitalFolds` | src/Utils.cc:25-34 | folding takes each capital letter to the small letter of the same place in the alphabet |
| `Text.OthersStay` | src/Utils.cc:25-34 | it changes no other character and leaves no capital letter |
| `Completion.Collect` | src/Command.cc:689-718 | the collecting loop keeps each offered word once, and returns none when only parameters can follow |
| `Completion.CollectedIs` | src/Command.cc:705-713 | the collected words are distinct, all offered words are among them, and nothing else is |
| `Completion.CollectedPrefix` | src/Command.cc:705-713 | further answers only add candidates at the end: a word keeps its place and what was first offered for it |
| `Completion.Agree` | src/Command.cc:734-744 | one turn: whether every candidate goes on with the same character |
| `Completion.InsertCommon` | src/Command.cc:733-749 | the inserted text is the longest common prefix of the lower-case remainders of all candidates; with what is typed it begins each of them, and it has no capital letter |
| `Completion.Show` | src/Command.cc:751-756 | exactly the candidates that the inserted text does not finish are listed |
| `Completion.ListedInOrder` | src/Command.cc:751-756 | in order, a candidate is listed, in small letters, if and only if the inserted text is not all that was left of it |
| `Completion.NothingMore` | src/Command.cc:733-749 | completing again with the grown words inserts nothing |
| `Completion.SingleIsWhole` | src/Command.cc:733-749 | what is typed of a single candidate and what is inserted make up the word, and nothing is listed |
| `NetFlow.NfData.Add` | src/NetFlow.cc:245-252 | a record adds its counters modulo the word and sets the stop time, keeping start and interface |
| `NetFlow.NfData.IsExpired` | src/NetFlow.cc:254-269 | a flow is expired if and only if it spans more than the expiry time, its last packet is older than that, or its first one older than twice that |
| `NetFlow.ThirdTestNeedsLaterClock` | src/NetFlow.cc:254-269 | with one clock reading the third test is redundant, and where it alone decides the second reading is later |
| `NetFlow.RunningIff` | src/NetFlow.cc:254-269 | the three tests fail together exactly for a flow of that span and those ages |
| `NetFlow.NfAggregator.Place` | src/NetFlow.cc:382-413 | the three insertion places put the flow under its device, source and destination |
| `NetFlow.NfAggregator.Enter` | src/NetFlow.cc:382-413 | a new flow object enters both the nested map and its flat view, and is counted in buf_size_ |
| `NetFlow.NfAggregator.Insert` | src/NetFlow.cc:382-413 | a new key adds the flow of its one record and no other flow changes |
| `NetFlow.NfAggregator.Bump` | src/NetFlow.cc:414-418 | a known key merges the record into its flow and changes no other |
| `NetFlow.NfAggregator.Add` | src/NetFlow.cc:375-419 | add keeps the whole invariant: nested map = flat map on triples, buf_size_ = its size, every stored flow is the merge of its pending records |
| `NetFlow.NfAggregator.Emit` | src/NetFlow.cc:487-501 | an expired flow leaves the maps and is handed on as it stood; the invariant is kept |
| `NetFlow.NfAggregator.Visit` | src/NetFlow.cc:474-541 | one turn of the inner loop emits the flow exactly when it is expired at the readings taken |
| `NetFlow.NfAggregator.ExpireSource` | src/NetFlow.cc:474-541 | the inner loop over one source emits exactly the flows expired at their own readings, in ascending order of destination; each flow left spans at most the expiry time, and its last and first packet are at most once and twice that old |
| `NetFlow.NfAggregator.DropSource` | src/NetFlow.cc:466-472 | dropping an empty source map loses no flow |
| `NetFlow.NfAggregator.DropDevice` | src/NetFlow.cc:458-464 | dropping an empty device map loses no flow |
| `NetFlow.NfAggregator.AddExpireTime` | src/NetFlow.cc:584-587 | the expiry time never leaves 180..900 |
| `NetFlow.NfAggregator.DelExpireTime` | src/NetFlow.cc:589-592 | the expiry time never leaves 180..900 |
| `NetFlow.PutIndexed` | src/NetFlow.cc:382-413 | an insertion into the nested map is an insertion into the flat map, and the count grows by one |
| `NetFlow.EraseIndexed` | src/NetFlow.cc:487-501 | a removal from the nested map is a removal from the flat map, and the count drops by one |
| `NetFlow.MergedAdd` | src/NetFlow.cc:375-419 | a record for a key extends exactly that key's pending records |
| `NetFlow.MergedEmit` | src/NetFlow.cc:487-501 | every emission is the merge of exactly the records added for its key since that key's last emission |
| `NetFlow.FoldIs` | src/NetFlow.cc:245-252 | a merged flow has the first start time and interface, the last stop time and the summed counters modulo the word |
| `NetFlow.Ledger` | src/NetFlow.cc:375-501 | over any trace: added = emitted + pending + one word for each wrap of a counter |
| `NetFlow.Conserved` | src/NetFlow.cc:375-501 | for every key, octets and packets added equal those emitted plus those stored modulo the word, and exactly so if and only if no counter wrapped |
| `Checksum.InCksum` | src/Icmp.cc:60-85 | the loop, the odd byte and two folds give the complement of the one's complement sum of the words |
| `Checksum.NoOverflowIff` | src/Icmp.cc:64-73 | the 32-bit sum holds for every buffer of n words if and only if n is at most 32768 |
| `Checksum.TwoFolds` | src/Icmp.cc:81-83 | two folds suffice for every value of the accumulator |
| `Checksum.OnesSumIsResidue` | src/Icmp.cc:64-83 | adding all carries at the end is adding each carry at once (section 1 of RFC 1071) |
| `Checksum.VerifiesIff` | src/Icmp.cc:181-182 | a second run returns 0 if and only if the zeroed field was filled with the checksum, or with all ones where that is 0 |
| `Checksum.OneWordDetectedIff` | src/Icmp.cc:60-85 | a verified packet with one word changed still verifies only when 0 and all ones were exchanged |
| `Checksum.WordOrder` | src/Icmp.cc:70-73 | the checksum does not depend on the order of the words |
| `Checksum.ByteOrder` | src/Icmp.cc:70-84 | swapping the bytes of every word swaps the bytes of the checksum (section 2 of RFC 1071) |
| `Checksum.SameBytes` | src/Icmp.cc:181-182 | machines of both byte orders write the same packet |
| `Checksum.SealedVerifies` | src/Icmp.cc:181-182 | the packet sent verifies on machines of both byte orders |
| `Checksum.SealPacket` | src/Icmp.cc:181-182 | zeroing the field, computing and storing in host order leaves the same bytes on both machines, with checksum 0 on each |
| `Checksum.OddRightIff` | src/Icmp.cc:75-79 | an odd buffer gets the checksum of the zero-padded buffer if and only if the uninitialised byte happens to be 0 |
| `ServerTrack.ServerTrackData.Update` | src/ServerTrack.cc:50-56 | a refresh sets time and priority, never the address |
| `ServerTrack.ServerTrack.SendStart` | src/ServerTrack.cc:113-124 | this server's own record, without an address, goes to the end of the list |
| `ServerTrack.ServerTrack.CheckTtl` | src/ServerTrack.cc:126-149 | exactly the neighbours silent for more than 31 seconds are dropped, never this server |
| `ServerTrack.ServerTrack.Update` | src/ServerTrack.cc:151-170 | the first record of the sender or without an address is refreshed; only without either is one added |
| `ServerTrack.ServerTrack.IsActive` | src/ServerTrack.cc:172-190 | the scan answers whether the first record of the highest positive priority is this server's, and yes if no priority is positive |
| `ServerTrack.AsCoded` | src/ServerTrack.cc:113-190 | after sendStart on an empty list, in every reachable state the list has one record and isActive is true |
| `ServerTrack.CodedNeverGrows` | src/ServerTrack.cc:157-168 | once a record without an address is in the list, no server is ever added to it |
| `ServerTrack.CodedLeaderIff` | src/ServerTrack.cc:113-190 | as coded a bundle has exactly one active server if and only if it has exactly one server |
| `ServerTrack.RunTracks` | src/ServerTrack.cc:126-170 | as meant (a packet refreshes its sender's record), whatever the timing, a list tracks this server and exactly the neighbours heard and at no check since then more than 31 seconds silent, with their priorities |
| `ServerTrack.AfterCheck` | src/ServerTrack.cc:126-149 | as meant, after a check the list holds this server and exactly the neighbours whose last packet is at most 31 seconds old |
| `ServerTrack.ActiveIff` | src/ServerTrack.cc:172-190 | as meant, a server that tracks exactly the others is active if and only if its priority is the highest |
| `ServerTrack.MeantSingleLeader` | src/ServerTrack.cc:113-190 | as meant, with positive distinct priorities and timely keepalives, exactly one server is active |
| `ServerTrack.Takeover` | src/ServerTrack.cc:126-190 | as meant, once the others have been silent for more than 31 seconds at a check, the highest of the servers still heard is the active one, and no other |
| `Bundle.CoreBundle.Periodic` | src/CoreBundle.cc:163-178 | neighbours are checked, and a keepalive is sent exactly when there is a bundle and the last was at least 10 seconds ago |
| `Bundle.CoreBundle.Process` | src/CoreBundle.cc:183-269 | every known packet to the bundle's port updates the track; a starting neighbour is told everything exactly by an active server |
| `Bundle.SendGap` | src/CoreBundle.cc:167-176 | keepalives are at least 10 and at most 9 + g seconds apart when periodic runs every g seconds |
| `Bundle.SteadyTimely` | src/ServerTrack.cc:126-149 | a neighbour that runs periodic every second, with at most two keepalives in a row lost and none late by more than a second, is never silent for more than 31 seconds at a check |
| `Bundle.SteadySingleLeader` | src/ServerTrack.cc:113-190 | under that timing, if packets refresh their sender's record and priorities are positive and distinct, exactly one server is active |
| `Listener.ListenerData.AddSession` | src/CoreListener.cc:96-104 | a session is counted: the new count, which numbers the connection, is the number of live connections |
| `Listener.ListenerData.DelSession` | src/CoreListener.cc:106-113 | a live connection that ends is one less, and the clamp does not fire |
| `Listener.ListenerData.ConSession` | src/CoreListener.cc:115-121 | what the accept loop reads is the number of live connections |
| `Listener.ListenerData.Admit` | src/Listener.cc:217-223 | a connection is refused exactly when the count read before has reached the limit read now; the invariant carries the room over |
| `Listener.ListenerData.SetMaxconnect` | src/CoreListener.cc:138-143 | a change of the limit is a step of the run and keeps the invariant |
| `Listener.ListenerData.StartHandler` | src/Listener.cc:226-264 | the end of a turn, with a thread started, none started or a UDP request served in place, is a step of the run |
| `Listener.ListenerData.HandleConnection` | src/Listener.cc:273-296 | the end of a handler is a step of the run |
| `Listener.ListenerData.AcceptTurn` | src/Listener.cc:176-265 | a turn of the accept loop, with any steps of other threads in between, is a run of steps, so all that is proved of runs holds of it |
| `Listener.DoKeeps` | src/Listener.cc:176-296 | every step of the accept loop, a handler or the configuration keeps the invariant |
| `Listener.CountsLive` | src/Listener.cc:217-293 | in every interleaving the counter is the number of connections between add_session and del_session, at most the highest limit set for TCP and at most 1 for UDP |
| `Listener.WithinLimit` | src/Listener.cc:217-265 | with a fixed limit the TCP connections never exceed it, although count and limit are read separately |
| `Listener.NeverClamps` | src/CoreListener.cc:106-113 | the clamp at zero never fires |
| `Listener.LimitReached` | src/Listener.cc:217-223 | up to the limit every connection is admitted, and at the limit the next is not |
| `Listener.LimitsKeptIff` | src/Listener.cc:217-265 | for any limits set in order: none in force is ever exceeded, in any interleaving, if and only if the limits, negative ones read as 0, are never lowered |
| `AvpModify.DbUser.AvpSet` | src/TacDb.cc:677-690 | the entry is erased and the new one appended at the end |
| `AvpModify.DbUser.AvpGet` | src/TacDb.cc:662-675 | the entry at an index, or an empty one |
| `AvpModify.Modifyer` | src/AModify.cc:179-231 | the scan that sets its index to 0 and resumes at 1 terminates and leaves: the unseen head, then the plain pairs in order, then the computed ones rewritten in order |
| `AvpModify.StepSettles` | src/AModify.cc:212-226 | each change leaves the final outcome as it was and one pair less to rewrite |
| `AvpModify.ResolvedIff` | src/AModify.cc:187-227 | every pair past the head is resolved; the head is not if and only if the first two pairs were both computed |
| `AvpModify.NamesKept` | src/AModify.cc:187-227 | the multiset of attribute names is preserved |
| `AvpModify.RewrittenIs` | src/Utils.cc:902-935 | a rewritten pair has the old name and the answer as value |
| `AvpModify.NeedsIff` | src/AModify.cc:187-211 | a pair is computed if and only if its text is a name, "=" and a value that starts INT:, SQL: or EXT: |
| `AvpModify.ComputedRewritten` | src/AModify.cc:187-227 | every value that starts INT:, SQL: or EXT: is replaced by an answer, save at most an unseen head; every other pair is left as it was |
| `DeviceUsers.DeviceData.Gets` | src/CoreDevice.cc:291-308 | the user at an index, or none |
| `DeviceUsers.DeviceData.UsrDel` | src/CoreDevice.cc:409-428 | the first user on the port is removed, whoever it is |
| `DeviceUsers.DeviceData.UsrAdd` | src/CoreDevice.cc:472-492 | a user is added exactly when not tracked on that port yet, so no user is tracked twice on a port |
| `DeviceUsers.Present` | src/CoreDevice.cc:1537-1548 | whether the device still reports the user on its port |
| `DeviceUsers.DeviceData.DropUnreported` | src/CoreDevice.cc:1525-1558 | the reconciliation loop, which restarts at index 1 after each deletion, terminates; past the head it leaves only entries of other devices and those that a row of the answer shows on their port, none that is new, and with one user on a port all of those |
| `DeviceUsers.GoneIff` | src/CoreDevice.cc:1533-1546 | an entry stays if it belongs to another device or a row of the answer has its name, not empty, and its port |
| `DeviceUsers.PastHead` | src/CoreDevice.cc:1525-1558 | whatever the ports, no entry past the head is left that the device does not report |
| `DeviceUsers.PollingIff` | src/CoreDevice.cc:1525-1558 | the loop removes exactly the unreported entries (past an unseen head) if and only if none of them shares its port with an earlier entry that stays or with the unseen head |
| `DeviceUsers.OnePerPort` | src/CoreDevice.cc:1525-1558 | with one user on a port it does so, and the head is left unresolved if and only if the first two entries were both unreported |
| `DeviceUsers.WrongUserDropped` | src/CoreDevice.cc:1547-1552 | with two users on a port the reported one is dropped and the unreported one stays |
| `IpAddr.ReadNumber` | include/ipaddr.h:240-249 | one of the four loops: at most three characters up to a dot, then past the dot |
| `IpAddr.GetNumber` | include/ipaddr.h:225-259 | get(n) returns the n-th number of the address, read from its dotted text |
| `IpAddr.IsIpDotted` | src/Utils.cc:545-571 | the check accepts an address if and only if its first number is not 0 and its last is neither 0 nor 255 |
| `IpAddr.DottedApart` | include/ipaddr.h:185-191 | different addresses have different texts |
| `AddressPool.GetAddr` | src/CorePool.cc:252-312 | the n-th address of an operand text, which never goes past the first comma |
| `AddressPool.NthIsListed` | src/CorePool.cc:252-312 | counted from 0 the listed addresses come out in order and then an empty text |
| `AddressPool.RangeIff` | src/CorePool.cc:287-299 | a range x-y stands for exactly the addresses with last number x..y if and only if it is empty or lies within 1..254 with a non-zero first number |
| `AddressPool.AddrpoolData.Add` | src/CorePool.cc:121-135 | an address already in the pool is not added again, any other goes to the end, free |
| `AddressPool.AddrpoolData.Del` | src/CorePool.cc:138-152 | the first entry of the address is removed, the others stay in order, and nothing changes when there is none |
| `AddressPool.AddrpoolData.Get` | src/CorePool.cc:155-171 | the first free address is marked and returned, no other entry changes, and the text is empty exactly when none is free |
| `AddressPool.AddrpoolData.Ret` | src/CorePool.cc:174-187 | the first entry of the address becomes free; every address and every other mark stays |
| `AddressPool.RunTight` | src/CorePool.cc:121-187 | a run that adds no address held but not in the pool keeps addresses distinct and free exactly when not held |
| `AddressPool.RunHolds` | src/CorePool.cc:121-187 | over any run without del the pool holds exactly the addresses ever added, in the order first added |
| `AddressPool.FirstNotHeld` | src/CorePool.cc:155-187 | in such a run get answers with the first address added that is not held, and with none if and only if all are held |
| `AddressPool.RunSafeIff` | src/CorePool.cc:121-187 | at no point of a run, however often get is called then, is a held address handed out if and only if the run adds no address that is held but not in the pool |
| `AddressPool.HandedOutTwice` | src/CorePool.cc:121-187 | deleting a held address and adding it again gets it handed out twice |
| `AddressPool.CorePool.Fill` | src/CorePool.cc:362-368 | the loop that looks up its first address twice adds each listed address once |
| `AddressPool.CorePool.Add` | src/CorePool.cc:345-370 | the listed addresses go into the pool of that number, made if there is none; no other pool changes |
| `AddressPool.CorePool.Get` | src/CorePool.cc:408-426 | the first pool of that number answers; an empty text when there is none or nothing is free |
| `AddressPool.CorePool.Ret` | src/CorePool.cc:429-438 | in every pool the first entry of the address becomes free and all else stays |
| `AddressPool.RangeTextFills` | src/CorePool.cc:345-370 | the text x-y of a usable range, added to an empty pool, makes exactly its addresses, once each, in order and free |
| `AddressPool.BehindComma` | src/CorePool.cc:252-283 | whatever stands behind the first comma of an operand text is never looked at |
| `PasswordCrypt.DbModule.Md5Xor` | src/TacDb.cc:1534-1550 | the nested loops XOR every byte of the C string in place with the hash byte of its place in the block, and nothing behind it |
| `PasswordCrypt.DbModule.Encrypt` | src/TacDb.cc:1315-1345 | what is stored: the escaped password without a key, else base64 of the XORed bytes up to their first NUL |
| `PasswordCrypt.DbModule.Decrypt` | src/TacDb.cc:1348-1370 | what is recovered from a stored text |
| `PasswordCrypt.XoredTwice` | src/TacDb.cc:1534-1550 | the block XOR is its own inverse |
| `PasswordCrypt.ComesBack` | src/TacDb.cc:1315-1370 | under a key, decrypt after encrypt gives the password up to its first byte that equals its hash byte |
| `PasswordCrypt.RoundTripIff` | src/TacDb.cc:1315-1370 | a password comes back whole if and only if no byte equals its hash byte, or, for the key "none" and at most 32 bytes, if it has no quote or backslash |
| `PasswordCrypt.EscapedReads` | src/TacDb.cc:1315-1330 | reading a backslash as the byte behind it gives back what was escaped without a key |
| `PasswordCrypt.StoredAlikeIff` | src/TacDb.cc:1315-1345 | two passwords are stored alike if and only if they agree up to the first clash of each, or, without a key, in their first 32 bytes |
| `Base64.GroupsEncode` | src/Utils.cc:988-1156 | the decoding loop undoes the encoding of any bytes, padding included |
| `Base64.DecodeEncodeIff` | src/Utils.cc:988-1156 | as C strings decoding undoes encoding if and only if the text has no NUL |
## Left out

XML file database:
- Positions are unbounded integers with -1 for not found; `convert2WF` stores `find` results in a 32-bit variable, which on a 64-bit machine never equals `npos`.
- Float columns, `iso2time` and `time2iso`: a date column is the text that `time2iso` prints.
- Tabs and newlines inside attribute values, which the parser normalises to blanks (section 3.3.3 of XML 1.0); strings of 300 bytes or more.
- Numeric character references, elements nested in rows, empty-element table tags, and files that break off before the end: the reader has no form for them.
- Tables of the same name in one file: an add would insert into each of them.
- Table names with markup characters, which the driver writes unescaped: XmlInsert.CreatePass gives the text that results, the theorems over runs require a plain name.
- The driver's mutex: every entry point is one step. `db_close` before any `db_open`, which returns with the mutex held.
- XmlTyped.QueryAnswers: requires requests that list the columns of their table in its order; XmlTyped.RequestIff covers any other choice of columns.
- XmlValues.CellReads: a date is only its text; `iso2time` is a parameter of the caller.
- XmlDriver.XmlDb.DbGet: float columns are left as they are, and the empty field that a missing column name leaves in the result map is not modelled.

Command lines and configuration:
- The cursor queries at the end of `split`, history, help and the terminal.
- The command tree is not part of this model: the lines `access`, `permit`, `deny` and `exit` are mapped to their commands directly, in full spelling, with the parameter masks `{int:0-}` and `{str:2-255}`.
- List numbers of more than 200 digits, which no `int` has; the line buffer would cut them.
- Regular expressions: matching is a parameter. Patterns that hold a newline cannot be entered and are excluded from the replay theorems.
- The other sections of the configuration (`showcf` collects them with the same loop).
- ConfigReplay.Load: reads only the access-list section; the notices of a failed line are not modelled.
- Completion.Agree: requires that no word is typed longer than its candidate. `matchNstrict` accepts such a word, and the loop then reads past the candidate's end.
- Completion.InsertCommon: requires the same.
- Completion.Show: requires the same.
- Words of 799 or more characters, which `utl::lower` cuts.

NetFlow:
- Where an emitted flow is written (database or log file), and the sleeps.
- NetFlow.NfAggregator.ExpireSource: visits all flows of one source without an add in between; interleaved adds are covered by NetFlow.NfAggregator.Visit and NetFlow.NfAggregator.Add, which keep the same invariant in any order.
- The outer loops of `expire`, with their iterator resets: visiting a source and dropping an empty map are steps taken in any order. Data races of the lookups outside the lock.

Checksum and ICMP:
- Buffers of more than 32768 words, for which the signed accumulator overflows. The timeval arithmetic and the sockets.

Bundle and listener:
- Packet coding, and what device and user packets change besides the server track. Sockets, threads and access-list checks are steps that may fail.
- ServerTrack.ServerTrack.SendStart: does not send the start packet to the bundle.
- ServerTrack.MeantSingleLeader: is about the evident intent, not the code; the code's behaviour is ServerTrack.CodedLeaderIff.
- ServerTrack.Takeover: is about the same intent.
- Bundles whose members received packets before their own `sendStart`: only ServerTrack.CodedNeverGrows covers them.

Restart scans:
- AvpModify.Modifyer: requires that no answer of a modifier is itself a call; otherwise the scan need not end.
- Attribute names of 200 bytes and values of 300 bytes or more, which overrun buffers; variable substitution in commands; the modifiers themselves.
- Changes to the user list by other threads while the reconciliation loop runs, and two devices of one address.

Address pools:
- Name resolution is a parameter. Operands of 100 bytes or more overrun a buffer; the address check reads past the end of a text of fewer than four parts and overruns a buffer on a part of more than three characters.
- Entries of a pool are values in its list, not objects of their own; nothing else refers to them.
- `group`, `del` of address texts and of whole pools, printing and `applycf` (whose two arguments are swapped).

Passwords:
- MD5 is a parameter with a 16-byte result.
- PasswordCrypt.DbModule.Encrypt: requires at most 31 bytes under a key, because 32 fill the buffer and leave it unterminated. The lemmas on passwords of any length speak of the transform without the buffer.
- PasswordCrypt.DbModule.Decrypt: requires a stored text of at most 62 bytes that decodes to at most 31, the sizes of its buffers; bytes above 127 in a stored text index the decoding table with a negative number.

Not modelled at all: the SQL drivers, SNMP, HTTP, embedded Perl, logging, DES cards, reference counts of billing records, getters and setters.
