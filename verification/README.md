# Verified models of the federation server's cores

This project models the self-contained algorithmic and stateful parts of the server and proves
what they are for. Each file follows one source file; code that updates state in place is a class
whose methods are proved against a specification function, and the theorems are lemmas about that
function.

| file | models |
|---|---|
| `Text.dfy` | byte strings and the `std::string` searches the rest relies on |
| `MinSSR.dfy` | the `{{tag}}` template engine: binary search for tags, direct two-pass rendering, compilation to stripped text plus signed points, and the sort-and-scatter macros |
| `FileCache.dfy` | the in-place template engine, `replace_all`, HTML escaping |
| `LRUCache.dfy` | the cache: a hash of list positions and a recency list |
| `Pool.dfy` | the free-list pool, its destructor bookkeeping and the list repair of `squeeze` |
| `ThreadPool.dfy` | the queue of tasks as interleaved steps of producers and workers around one mutex and one condition variable |
| `ContactsDb.dfy` | the contacts store: four linked tables and the shares, transactions, pruning of shared properties, profile visibility |
| `VCard.dfy` | printing and parsing vCards (sections 3.2 and 3.3 of RFC 6350) |
| `VCardReading.dfy` | what the parser makes of each kind of line, number and parameter, and the printed text in full |
| `Peers.dfy` | the two peer indexes |
| `LocalUsers.dfy` | users, the username cache, login tokens |
| `WebUtils.dfy` | URI, form and cookie encoding (section 2.1 of RFC 3986, section 4.2.1 of RFC 6265) |
| `Headers.dfy` | printing request headers and the two ways of looking them up |
| `Cdn.dfy` | reversed-hex asset paths and the purge of unused assets |

Conventions: C++ strings are `seq<char>` (or sequences of bytes where all 256 values matter);
`size_t` values are unbounded, and where the code subtracts them the model keeps them in `nat`, so
that verification shows no wrap-around; other widths are written out. Random tokens, clocks,
password checks and statement failures are parameters. A method that runs wholly under its lock is
one atomic step.

## Where the code departs from what one would expect

- A substitution array longer than the tags plus one makes `mustache` reserve the wrong capacity; the
  rendered text is unaffected (`MinSSR.Mustache` gives the exact error).
- With repeated keys the in-place engine takes the first rule and the others the last;
  `FileCache.AgreeExactlyWhen` says exactly when that can be seen.
- A contact card whose owner and user are both empty is linked as a profile but stored as a plain
  card, which breaks the store invariant; it is the only such input (`ContactsDb.CreatedInv`,
  `ContactsDb.UpdatedInv`).
- `delete_user` of the contacts store has no transaction. Stopping midway can leave orphaned
  properties until the next pruning (`ContactsDb.NoOrphansExactlyWhen`), and a save by another thread
  between its statements can leave links to a deleted card for good
  (`ContactsDb.SaveWhileDeleting`, `ContactsDb.LinksResolveExactlyWhen`).
- `get_profile` shows nothing about a user without a profile whom the host does not know, contact cards
  included (`ContactsDb.GhostContact`).
- `to_vcard` adds an `FN` property when the card has none, and it comes back from `parse`
  (`VCard.RoundTripExactly`).
- `parse` undoes line folding only after a bare LF. Section 3.2 of RFC 6350 folds with CRLF, of which
  a CR is left that mostly splits the line (`VCard.FoldedLine`, `VCard.FoldReadsBackExactlyWhen`).
- `parse` ends the parameters at the first colon, even one inside a quoted value, which section 3.3
  of RFC 6350 allows (`VCard.QuotedColonIsLost`); `VCard.RoundTrip` says exactly which parameters
  come back.
- `get_user` reads the database and fills the cache in separate lock regions; a deletion in between
  leaves a stale entry (`LocalUsers.StaleFill`). `LocalUsers.EveryInterleaving` says exactly which
  schedules do harm.
- `auth_user` reports a missing user as success, although its comment promises 0 for success only.
  In reachable states of uninterrupted operations that does not matter (`LocalUsers.LoginExactly`); but
  a user deleted between the look-up and the password query logs in with any password, with or
  without a stale cache (`LocalUsers.WrongPasswordExactlyWhen`, `LocalUsers.WrongPasswordLogin`).
- `find_header` skips every kind of blank before a value, line breaks included, while
  `headers_map` skips one space. For an empty or blank value `find_header` therefore answers with the
  next printed line (`Headers.BlankValueYieldsNextLine`, `Headers.LookupsAgreeExactlyWhen`).
- `headers_map` calls `v.back()` without asking whether `v` is empty, which is undefined for an empty
  value at the end of the text: a last line `K:`, or a printed last field `K: `. The model drops
  nothing there; the second case of `Headers.LookupsAgreeExactlyWhen` rests on it.
- `set_this_headers` prints the first field twice.
- `purge` cuts row ids to 32 bits, so a survivor whose id agrees with a deleted one in those bits
  and whose bucket agrees in 8 loses its file (`Cdn.FileGoesExactlyWhen`); it also deletes nothing
  while a token with a NULL asset exists (`Cdn.NullTokenKeepsAll`).
- `purge` removes files after its commit, so an upload that takes over a purged row's id in between
  loses its file (`Cdn.ReusedIdLosesFile`).
- `new_asset` names a column `mime_type` where the schema says `mimeType`; uploads are modelled by
  intent.

## Model

| member | source | states |
|---|---|---|
| MinSSR.Index | util/MinSSR.hpp:40-60 | the halving search over sorted tags returns the first position of the tag, or the size when it is absent |
| MinSSR.LowerBoundIsSlot | util/MinSSR.hpp:52-59 | the lower bound of a sorted array, tested once for equality, is the first occurrence if there is any |
| MinSSR.ParseSource | util/MinSSR.hpp:87-104 | the scan for tags loses no byte of the template, unclosed braces included |
| MinSSR.ParseShift | util/MinSSR.hpp:87-104 | how a template parses from a position depends on the text ahead only |
| MinSSR.FindReplacements | util/MinSSR.hpp:80-104 | the first pass records every tag that will be replaced and plans the length without wrap-around |
| MinSSR.NextReplacement | util/MinSSR.hpp:110-124 | each recorded entry, negative ones decoded, spans exactly the literal text and the next replaced tag |
| MinSSR.PlannedLength | util/MinSSR.hpp:84-108 | the planned length is the rendered length; for an oversize array the difference is the number of unknown tags times a fixed amount |
| MinSSR.RenderBySlotIsRender | util/MinSSR.hpp:93-99 | rendering by array position is rendering by tag name |
| MinSSR.RenderedTag | util/MinSSR.hpp:72-126 | rendering keeps the text before the first tag, puts the tag's value, the default or the tag itself, and goes on behind it |
| Text.UpToPair | util/MinSSR.hpp:87-92 | the text up to a pair of braces neither holds one nor ends in such a brace |
| MinSSR.RenderedPlain | util/MinSSR.hpp:87-104 | a text without an opened and closed tag is kept as it is |
| MinSSR.EnvIs | util/MinSSR.hpp:93-99 | a tag's value is the entry at its first position, if the array reaches that far; an array longer than the tags answers unknown ones with its last entry |
| MinSSR.Mustache | util/MinSSR.hpp:72-126 | the two passes produce the meaning of the template for every template, sorted tags and array, and reserve exactly the result's length |
| MinSSR.FindPoints | util/MinSSR.hpp:153-185 | the parse records each substitution point in stripped-text coordinates |
| MinSSR.NextPoint | util/MinSSR.hpp:190-212 | a point in stripped coordinates leads back to the place and length of its tag in the original |
| MinSSR.ParsedTemplate.constructor | util/MinSSR.hpp:145-216 | compiling yields the template without its replaced tags, and their points |
| MinSSR.FillIsRender | util/MinSSR.hpp:145-250 | the compiler is correct: filling any suffix of the compiled form renders that suffix of the template, and no access is out of range |
| MinSSR.ParsedTemplate.OutputSize | util/MinSSR.hpp:227-233 | the size added up first is the length of the result |
| MinSSR.ParsedTemplate.Process | util/MinSSR.hpp:225-250 | the loop joins the pieces in order, into exactly the reserved size |
| MinSSR.CompiledMeaning | util/MinSSR.hpp:145-250 | compiled and filled, every template means what the parser says it means |
| MinSSR.CompileOnceEqualsDirect | util/MinSSR.hpp:72-250 | compile-once equals direct rendering for every template and sorted tags, with unknown tags left or replaced |
| MinSSR.Scatter | util/MinSSR.hpp:300-308 | for the rules' keys in any sorted order, scattering by `index` puts each key's value where rendering looks for it; a later rule for a key wins |
| MinSSR.ScatteredEnv | util/MinSSR.hpp:300-308 | such an array stands for exactly the rules' last values, no key more or less |
| MinSSR.LastWinsIs | util/MinSSR.hpp:300-308 | the value of a key is that of the last rule for it |
| Text.LessExactlyWhen | util/MinSSR.hpp:40-60 | tags are ordered as byte strings: a proper prefix first, else by the first byte that differs |
| MinSSR.MustacheConstant | util/MinSSR.hpp:320-339 | the constant-template macros render the template with the rules, with or without a default |
| MinSSR.MustacheVariable | util/MinSSR.hpp:341-358 | so do the variable-template macros, with the same result |
| FileCache.Mustache | util/FileCache.hpp:147-169 | the in-place rewriting terminates and equals the pure renderer, whatever braces the replacements contain, when every tag is closed |
| FileCache.ClosedIs | util/FileCache.hpp:147-169 | which templates are closed, tag by tag |
| FileCache.FirstMatch | util/FileCache.hpp:155-163 | the in-place engine takes the first rule for a tag, and none if there is none |
| FileCache.Edited | util/FileCache.hpp:159-162 | an edit leaves the text behind the tag where the scan goes on |
| FileCache.DistinctKeysAgree | util/FileCache.hpp:158-163 | with distinct keys first-wins and last-wins are the same rules |
| FileCache.AgreeExactlyWhen | util/FileCache.hpp:158-163 | with repeated keys the engines agree on every closed template if and only if no key a tag can name has different first and last values |
| FileCache.NamesAreTagNames | util/FileCache.hpp:155-157 | which keys a tag can name: those without an early closing pair |
| FileCache.RenderThreeWays | util/FileCache.hpp:147-169 | the three renderers produce the same text for closed templates and distinct keys |
| FileCache.ReplaceAll | util/FileCache.hpp:128-135 | in-place replacement is splitting at the needle and joining with the replacement; replaced text is not searched again |
| FileCache.ReplacedIs | util/FileCache.hpp:128-135 | the first occurrence is replaced and the text behind it treated alike; a text without the needle is unchanged |
| FileCache.JoinSplit | util/FileCache.hpp:128-135 | replacing a needle by itself changes nothing |
| FileCache.EscapeHtml | util/FileCache.hpp:176-202 | the loop appends the entity of each character |
| FileCache.EntityTable | util/FileCache.hpp:176-202 | the five characters and their entities; any other character is kept |
| FileCache.UnescapedEscaped | util/MinSSR.hpp:258-284 | escaped text decodes to the original and holds no markup character |
| LRUCache.LRUCache.constructor | util/LRUCache.hpp:46 | an empty cache of the given capacity |
| LRUCache.LRUCache.HashIsLookup | util/LRUCache.hpp:41-43 | in every valid state the hash has exactly the list's keys, each at its own node and value |
| LRUCache.LRUCache.Get | util/LRUCache.hpp:48-54 | a hit moves to the front and returns its value, a miss changes nothing |
| LRUCache.LRUCache.GetOr | util/LRUCache.hpp:55-61 | the same with a default for a miss |
| LRUCache.LRUCache.Set | util/LRUCache.hpp:63-77 | the key goes to the front with its value; only a new key in a full cache evicts, and then the back entry |
| LRUCache.LRUCache.Drop | util/LRUCache.hpp:79-85 | removes exactly the key |
| LRUCache.SetKeepsOthers | util/LRUCache.hpp:63-77 | `set` puts the key with its value in front; every other key keeps its value, except that a new key in a full cache pushes out the last; the size grows by one exactly for a new key with room |
| LRUCache.GetKeepsAll | util/LRUCache.hpp:49-62 | `get` changes no value and no size, and puts a key it finds in front |
| LRUCache.EveryKeyAfter | util/LRUCache.hpp:48-85 | in every reachable state, what each operation does to each key |
| LRUCache.StaysWhile | util/LRUCache.hpp:48-85 | over every run, a key set or found and not dropped since is present with its last value while fewer other keys than the capacity have been used since |
| LRUCache.LRUCache.Size | util/LRUCache.hpp:87-89 | the number of entries, never above capacity |
| LRUCache.LRUCache.Exists | util/LRUCache.hpp:91-93 | whether the key is cached |
| LRUCache.ErasedEntries | util/LRUCache.hpp:74-84 | unlinking a key's only node removes that key and no other |
| LRUCache.RunWellFormed | util/LRUCache.hpp:48-85 | over every run keys stay distinct and the size within capacity |
| LRUCache.InclusionStep | util/LRUCache.hpp:48-85 | one operation keeps a smaller and a larger cache nested and their sizes close |
| LRUCache.Inclusion | util/LRUCache.hpp:48-85 | over every run the smaller cache's list is a subsequence of the larger's, and the size difference is at most the capacity difference |
| LRUCache.HitsAreHits | util/LRUCache.hpp:48-61 | so a hit of the smaller cache is a hit of the larger, with the same value |
| LRUCache.RecencyOrder | util/LRUCache.hpp:48-77 | over every run the list is in strictly decreasing order of last touch |
| LRUCache.EvictsLeastRecent | util/LRUCache.hpp:66-73 | setting a new key in a full cache evicts exactly the least recently touched entry |
| LRUCache.ValuesAreLastSet | util/LRUCache.hpp:48-77 | a cached value is the one its key was last set to |
| Pool.EmplacedInv | util/Pool.hpp:83-96 | `emplace` takes a slot that is not live, disturbs no live slot, and keeps the free list exact |
| Pool.RemovedInv | util/Pool.hpp:98-109 | `remove` frees one slot, destroys its value once, and keeps the free list exact |
| Pool.ClearedInv | util/Pool.hpp:111-130 | after `clear` every value ever built has been destroyed exactly once |
| Pool.RunsAreSafe | util/Pool.hpp:83-130 | over every run the free list is acyclic and holds exactly the dead slots, the next slot handed out is not live, and clearing balances construction and destruction |
| Pool.Pool.constructor | util/Pool.hpp:69-69 | an empty pool |
| Pool.Pool.Emplace | util/Pool.hpp:83-96 | the pointers in the slots change as the abstract step says; the node returned is the free list's head or a new one |
| Pool.Pool.Remove | util/Pool.hpp:98-109 | the node becomes the head of the free list threaded through the slots |
| Pool.Pool.CollectFree | util/Pool.hpp:117-121 | walking the links terminates and collects exactly the dead nodes |
| Pool.Pool.Clear | util/Pool.hpp:111-130 | exactly the live values are destroyed, each once, and the store is emptied |
| Pool.AllFree | util/Pool.hpp:152-157 | the sizes agree if and only if every slot is dead |
| Pool.TrimmedExactlyWhen | util/Pool.hpp:159-176 | a slot is trimmed if and only if no live slot stands before it or none behind it |
| Pool.KeptMembers | util/Pool.hpp:178-193 | of the free list exactly the entries not trimmed are kept |
| Pool.KeptConcat | util/Pool.hpp:178-193 | in their order |
| Pool.Pool.TrimEnds | util/Pool.hpp:159-175 | with some slot live, the scans collect exactly the maximal free prefix and suffix |
| Pool.Pool.NextUsable | util/Pool.hpp:178-185 | follows the links to the next node that is kept |
| Pool.SkippingChain | util/Pool.hpp:186-193 | links that skip the trimmed nodes form a chain of exactly the kept ones, in order |
| Pool.Pool.RelinkOne | util/Pool.hpp:190-192 | one round repairs one link and leaves everything not yet visited alone |
| Pool.Pool.Relink | util/Pool.hpp:186-193 | the nested walk terminates and leaves the old free list with the trimmed nodes filtered out, order kept, live slots untouched |
| Pool.Pool.Squeeze | util/Pool.hpp:137-193 | all three exits of `squeeze`, up to the repaired list |
| ThreadPool.WakeupStep | util/ThreadPool.hpp:47-66 | every step of any thread keeps the wakeup balance |
| ThreadPool.InvStep | util/ThreadPool.hpp:47-66 | every step keeps mutual exclusion, the wakeup balance and first-in-first-out |
| ThreadPool.EveryInterleaving | util/ThreadPool.hpp:22-66 | over every interleaving, spurious wakes included: while a worker sleeps the queue is no longer than the number of workers notified but not resumed, and tasks are popped at most once, in push order |
| ThreadPool.NothingIsLost | util/ThreadPool.hpp:47-66 | over every interleaving, the tasks popped and then those queued are exactly the tasks of the calls that have pushed, told from the steps alone, in the order of the pushes; as many were popped as workers have taken |
| ThreadPool.QueueSteps | util/ThreadPool.hpp:47-66 | a push appends the producer's task, a worker that finds the queue filled takes its first, and no other step touches it |
| ThreadPool.ThreadsMayGoOn | util/ThreadPool.hpp:47-66 | no thread is held up but by the mutex and the wait |
| ThreadPool.NeverStranded | util/ThreadPool.hpp:22-66 | from every reachable state with a queued task and a worker, at most five steps take the oldest task out |
| ThreadPool.FromProducer | util/ThreadPool.hpp:47-58 | a producer inside the mutex can always finish and hand over |
| ContactsDb.NextId | mods/contacts/db.sql:27-39 | a new property row gets an id above every row in use |
| ContactsDb.PropsAddedFilled | mods/contacts/src/DB.cpp:247-308 | the insert loop adds each property under consecutive fresh ids, linked to its card through one table, and changes nothing else |
| ContactsDb.FilledContents | mods/contacts/src/DB.cpp:247-308 | afterwards the card shows exactly those properties, and every other card what it showed before |
| ContactsDb.StrippedFrame | mods/contacts/src/DB.cpp:201-228 | unlinking a card and pruning leaves every other card's contents alone, shared properties included |
| ContactsDb.UpdateIsExactAndFramed | mods/contacts/src/DB.cpp:195-318 | a successful update leaves the card with exactly the given properties in order, and frames all other cards and shares |
| ContactsDb.CreateIsExactAndFramed | mods/contacts/src/DB.cpp:57-184 | a new card has an id no card ever had and exactly the given properties; the rest is framed |
| ContactsDb.SavesAreExact | mods/contacts/src/DB.cpp:57-318 | in every reachable state a save that fails, or updates a card that is not there or somebody else's, changes nothing; any other leaves the card with exactly the given row and properties, in order, and all others as they were |
| ContactsDb.FilledInv | mods/contacts/src/DB.cpp:247-308 | filling keeps links whole, and keeps the tables separate if and only if the table chosen suits the stored row |
| ContactsDb.CreatedInv | mods/contacts/src/DB.cpp:57-184 | a create keeps the link tables apart if and only if the card is not ownerless; links resolve after it if and only if they did, and it adds no orphans |
| ContactsDb.UpdatedInv | mods/contacts/src/DB.cpp:195-318 | likewise an update, which also leaves no orphans, others' included |
| ContactsDb.UserDeletedInv | mods/contacts/src/DB.cpp:636-661 | an uninterrupted deletion leaves no orphans, removes exactly the user's cards and shares, and frames every other card |
| ContactsDb.DeletedUpToInv | mods/contacts/src/DB.cpp:636-661 | a deletion stopped after any statement leaves links resolved and tables apart, and orphans if and only if properties of the user's cards were unlinked and not yet pruned |
| ContactsDb.DeletionAtOnce | mods/contacts/src/DB.cpp:636-661 | the statements of a deletion taken one by one, up to any of them, amount to the uninterrupted deletion |
| ContactsDb.EveryRun | mods/contacts/src/DB.cpp:57-318 | in every reachable state, with any failures and anything between the statements of a deletion: links name existing properties and cards that are or were there, no property row is linked twice, and without ownerless cards profile and plain links stay apart |
| ContactsDb.DanglesStep | mods/contacts/src/DB.cpp:636-661 | links stop resolving only when a statement deletes linked cards, and then for good |
| ContactsDb.LinkHistory | mods/contacts/src/DB.cpp:57-318 | whether a card has links is told by its last save and the removals of its owner's links since |
| ContactsDb.LinksResolveExactlyWhen | mods/contacts/src/DB.cpp:636-661 | in every reachable state links name existing cards if and only if no statement deleted a card that by the history was saved with properties after its owner's links of that kind were last removed |
| ContactsDb.OrderlyRunsResolve | mods/contacts/src/DB.cpp:636-661 | so links always resolve if no call of `delete_user` has a save with properties of that user's cards between its own statements |
| ContactsDb.SaveWhileDeleting | mods/contacts/src/DB.cpp:636-661 | from any state, the smallest schedule that leaves dangling links, which pruning does not remove |
| ContactsDb.NoOrphansExactlyWhen | mods/contacts/src/DB.cpp:187-193 | in every reachable state there are no orphans if and only if every statement that unlinked something was followed by a pruning or an update |
| ContactsDb.ProfileIsExact | mods/contacts/src/DB.cpp:332-465 | in every reachable state, exactly who is shown a property row: by visibility for a profile row; for a contact row its owner about the right user, if that user has a profile or the host knows them; nobody otherwise |
| ContactsDb.WhoSeesWhat | mods/contacts/src/DB.cpp:376-465 | in every reachable state a row of the user's profile is shown to somebody without a name if and only if its visibility is at least 3, to a user of another server 2, to another local user 1, to the user 0 |
| ContactsDb.OneProfileCard | mods/contacts/src/DB.cpp:401-465 | rows of any other profile card are shown to nobody |
| ContactsDb.WhoSeesContacts | mods/contacts/src/DB.cpp:410-465 | in every reachable state a row of a contact card is shown exactly to the card's owner, a local user, about the user it is for, if that user has a profile or the host knows them |
| ContactsDb.GhostContact | mods/contacts/src/DB.cpp:352-362 | a contact card for a user the host does not know is shown to nobody by `get_profile`, and to its owner once the host knows them |
| ContactsDb.NewProfileIsEmpty | mods/contacts/src/DB.cpp:359-360 | a profile created on the way changes nothing that is shown |
| ContactsDb.ProfileRespectsVisibility | mods/contacts/src/DB.cpp:387-465 | in every reachable state no requester, local ones included, is shown a profile row below their trust level, and what the public sees everybody sees |
| ContactsDb.Database.CreateNewContact | mods/contacts/src/DB.cpp:57-184 | statement by statement, with failures anywhere: the whole creation or no change |
| ContactsDb.Database.InsertProps | mods/contacts/src/DB.cpp:247-308 | the loop stops at the first failing statement and otherwise adds all properties |
| ContactsDb.Database.PruneProperties | mods/contacts/src/DB.cpp:187-193 | removes exactly the unlinked properties |
| ContactsDb.Database.UpdateContact | mods/contacts/src/DB.cpp:195-318 | the whole update or the tables exactly as before, and which of the three results is reported |
| ContactsDb.Database.DeleteUser | mods/contacts/src/DB.cpp:636-661 | the five statements in order, up to the one that fails |
| ContactsDb.Database.GetProfile | mods/contacts/src/DB.cpp:332-465 | the rows shown, and the profile created for a known user without one |
| VCard.DecDigits | mods/contacts/src/Contact.cpp:46-51 | printed numbers consist of digits and denote the number |
| VCard.ReadDec | mods/contacts/src/Contact.cpp:177-229 | `stoll` and `strtol` read a printed 64-bit number back |
| VCard.JoinedSplits | mods/contacts/src/Contact.cpp:141-147 | unfolding and splitting well-formed lines joined by CRLF gives the lines back |
| VCard.FoldedLine | mods/contacts/src/Contact.cpp:141-147 | what a line folded with LF or CRLF and a blank is read as |
| VCard.FoldReadsBackExactlyWhen | mods/contacts/src/Contact.cpp:141-147 | a folded line reads back if and only if the break is a bare LF |
| VCard.ParamsReadBack | mods/contacts/src/Contact.cpp:213-251 | the printed parameters read back as visibility, id and text |
| VCard.UserReadBack | mods/contacts/src/Contact.cpp:184-190 | a local user's printed address reads back as the user |
| VCard.PropLineReads | mods/contacts/src/Contact.cpp:149-260 | a printed property is read as itself if and only if its parameters hold no colon and only pieces the parser keeps; otherwise as another property or none |
| VCard.QuotedColonIsLost | mods/contacts/src/Contact.cpp:149-152 | a quoted colon in a parameter prints like, and is read as, a shorter parameter and a longer value |
| VCard.LinesRead | mods/contacts/src/Contact.cpp:35-118 | all printed lines are read, and the properties come back if and only if the parameters of each are plain |
| VCard.RoundTrip | mods/contacts/src/Contact.cpp:128-265 | parsing a printed card succeeds and gives back every property in order, with parameters, ids and visibility, if and only if all parameters are plain; then id, user and update time come back too |
| VCard.RoundTripExactly | mods/contacts/src/Contact.cpp:104-113 | exactly the given properties come back if and only if all parameters are plain and one property is a name |
| VCard.VC.ToVCard | mods/contacts/src/Contact.cpp:35-118 | the appends produce the printed form |
| VCard.VC.PrintHead | mods/contacts/src/Contact.cpp:39-72 | the header lines, each only under its condition |
| VCard.VC.PrintProps | mods/contacts/src/Contact.cpp:74-102 | one line per property, and whether a name was among them |
| VCard.VC.PrintProp | mods/contacts/src/Contact.cpp:79-101 | the line of one property |
| VCard.VC.Parse | mods/contacts/src/Contact.cpp:128-265 | the fields after parsing any text, and success or failure |
| VCard.VC.ParseLine | mods/contacts/src/Contact.cpp:149-261 | what one line does to the fields; a line without a colon changes nothing and fails |
| VCard.ParseParams | mods/contacts/src/Contact.cpp:214-246 | the parameter loop in order |
| VCardReading.DecimalIs | mods/contacts/src/Contact.cpp:177-229 | digits denote numbers by position |
| VCardReading.NumberIs | mods/contacts/src/Contact.cpp:177-229 | what stoll and strtol read from any text: blanks, a sign, digits; clamped or refused beyond 64 bits, nothing without a digit |
| VCardReading.NoColon | mods/contacts/src/Contact.cpp:149-151 | a line without a colon is refused |
| VCardReading.ReservedLine | mods/contacts/src/Contact.cpp:158-211 | the ten names that are dropped, and what UID and REV set |
| VCardReading.ProfileLine | mods/contacts/src/Contact.cpp:184-239 | a profile line of either kind sets the user to the whole value for a user of another host, and to the part before the @ for a local one, an empty host, or no @ |
| VCardReading.BareLine | mods/contacts/src/Contact.cpp:213-260 | a line of any other name without parameters appends a public property without id |
| VCardReading.ParamAdded | mods/contacts/src/Contact.cpp:213-260 | what one more parameter changes: visibility, capped at 3 and wrapped to 8 bits, id, social profile, or one more text parameter |
| VCardReading.WovenSplits | mods/contacts/src/Contact.cpp:141-147 | lines with CRLF, CR or LF between them are split into themselves |
| VCardReading.TextIs | mods/contacts/src/Contact.cpp:128-265 | a whole text: blanks around it do not count, one that does not begin as a card is refused unchanged, else the lines are taken in order up to the first without a colon |
| VCardReading.PropTextIs | mods/contacts/src/Contact.cpp:79-101 | the text of a property, character by character |
| VCardReading.TextOf | mods/contacts/src/Contact.cpp:35-118 | the whole printed text, with each line under its condition |
| Text.TrimIsExact | mods/contacts/src/Contact.cpp:129-131 | trimming takes all the blanks at both ends and nothing else |
| Text.SpaceTable | mods/contacts/src/Contact.cpp:129-145 | which characters count as blank, for trimming and for the patterns |
| Peers.AddKeepsBijection | protocol/peers/Peers.cpp:26-38 | adding keeps the two indexes inverse if and only if it fails or is given the peer's own domain |
| Peers.RemoveKeepsBijection | protocol/peers/Peers.cpp:60-68 | removing keeps them inverse, forgets the domain and no reserved token |
| Peers.AddIsExact | protocol/peers/Peers.cpp:26-38 | what adding does to every lookup: nothing unless domain and token are unused |
| Peers.RemoveIsExact | protocol/peers/Peers.cpp:60-68 | what removing does to every lookup |
| Peers.ReserveIsExact | protocol/peers/Peers.cpp:45-53 | reserving changes that token only |
| Peers.PruneIsExact | protocol/peers/Peers.cpp:90-103 | after pruning neither lookup reaches an expired peer, every other answer is unchanged, reserved tokens stay |
| Peers.StepFacts | protocol/peers/Peers.cpp:26-103 | every operation keeps the bijection and the reserved tokens |
| Peers.EveryRun | protocol/peers/Peers.cpp:26-103 | so does every run |
| Peers.LookupsAgree | protocol/peers/Peers.cpp:73-88 | in every reachable state the two lookups name each other's peers, under one token and one domain |
| Peers.Peers.AddPeer | protocol/peers/Peers.cpp:26-38 | both indexes gain the peer or neither does |
| Peers.Peers.NewTokenStub | protocol/peers/Peers.cpp:45-53 | reserves the first drawn token not in use |
| Peers.Peers.RemovePeer | protocol/peers/Peers.cpp:60-68 | removes the peer from both indexes |
| Peers.Peers.GetPeerForDomain | protocol/peers/Peers.cpp:73-80 | the lookup by domain |
| Peers.Peers.GetPeerFromToken | protocol/peers/Peers.cpp:82-88 | the lookup by token, null for a reserved one |
| Peers.Peers.Prune | protocol/peers/Peers.cpp:90-103 | visiting the entries in any order removes all expired peers from both indexes |
| LocalUsers.StepInv | protocol/users/LocalUsers.cpp:58-222 | every uninterrupted operation keeps the cache in agreement with the database and tokens on existing users |
| LocalUsers.EveryRun | protocol/users/LocalUsers.cpp:58-222 | so does every run of uninterrupted operations |
| LocalUsers.UsersAreRows | protocol/users/LocalUsers.cpp:58-135 | in every state those runs reach, a user looked up or authenticated has the flag, address and time of their row, and nobody without a row is found |
| LocalUsers.OperationsAreExact | protocol/users/LocalUsers.cpp:58-222 | what each operation does to every row, cache entry and token |
| LocalUsers.TwoWeeks | protocol/users/LocalUsers.cpp:140-174 | a cleanup ends a session only later than 1209600 seconds after its login |
| LocalUsers.LoginExactly | protocol/users/LocalUsers.cpp:179-193 | in every state those runs reach, a login succeeds if and only if the user exists and the password matches |
| LocalUsers.SessionStep | protocol/users/LocalUsers.cpp:123-222 | an operation ends a session if and only if it logs that token out, deletes its user, or cleans up after its expiry |
| LocalUsers.SessionLifetime | protocol/users/LocalUsers.cpp:123-222 | over every run a token authenticates its user from login until the first such operation, and not after |
| LocalUsers.OneAtATime | protocol/users/LocalUsers.cpp:58-222 | the lock regions and queries of one call, the password query among them, not interrupted, amount to the operation |
| LocalUsers.RowAfter | protocol/users/LocalUsers.cpp:30-46 | the database row of a user is told by the last deletion and the first addition after it |
| LocalUsers.EveryInterleaving | protocol/users/LocalUsers.cpp:58-222 | over every interleaving of lock regions and queries, cache and tokens agree with the database at every moment if and only if no call writes a user who by the history was deleted since it looked them up and not first added back with the same data |
| LocalUsers.SeenIsRow | protocol/users/LocalUsers.cpp:58-89 | whatever is interleaved, a query finds the row's own fields, and so does the cache while the invariant holds |
| LocalUsers.SessionInterleaved | protocol/users/LocalUsers.cpp:123-222 | whatever is interleaved, a session lasts from its issue exactly to the first logout, deletion of its user, or cleanup after its expiry |
| LocalUsers.IssuedExactlyWhen | protocol/users/LocalUsers.cpp:179-193 | whatever is interleaved, a session is issued if and only if a user was found and, at the password query, the password matched or the row was missing |
| LocalUsers.WrongPasswordExactlyWhen | protocol/users/LocalUsers.cpp:97-105 | a wrong password is let in if and only if by the history the user found was deleted before the password query and not added back |
| LocalUsers.WrongPasswordLogin | protocol/users/LocalUsers.cpp:97-105 | such a schedule, with an empty cache |
| LocalUsers.StaleFill | protocol/users/LocalUsers.cpp:58-89 | the smallest interleaving with a stale cache entry, after which the deleted user can log in with any password |
| LocalUsers.LocalUsers.GetUser | protocol/users/LocalUsers.cpp:58-89 | the cached or stored user; a miss in the cache is filled |
| LocalUsers.LocalUsers.AuthUser | protocol/users/LocalUsers.cpp:97-116 | -1 for a failing query, 1 for a wrong password; a missing user gives 0 |
| LocalUsers.LocalUsers.AuthToken | protocol/users/LocalUsers.cpp:123-135 | the user of a live token, expired or not |
| LocalUsers.LocalUsers.Cron | protocol/users/LocalUsers.cpp:140-149 | removes exactly the expired tokens |
| LocalUsers.LocalUsers.DeauthToken | protocol/users/LocalUsers.cpp:155-159 | removes exactly that token |
| LocalUsers.LocalUsers.AuthorizeUser | protocol/users/LocalUsers.cpp:166-174 | issues a token that was not in use, whatever was drawn before |
| LocalUsers.LocalUsers.LoginUser | protocol/users/LocalUsers.cpp:179-193 | a token if and only if the user exists and the password is not refused |
| LocalUsers.LocalUsers.DeleteUser | protocol/users/LocalUsers.cpp:198-222 | removes the user, their cache entry and all their tokens |
| WebUtils.DecodeEncode | util/WebUtils.cpp:94-136 | decoding an encoded string gives it back, for all bytes |
| WebUtils.EncodedIsSafe | util/WebUtils.cpp:238-335 | encoded text uses only characters that neither forms nor cookies treat as punctuation |
| WebUtils.EncodedByteTable | util/WebUtils.cpp:238-335 | which bytes are copied, and the escapes of the others |
| WebUtils.UriEncode | util/WebUtils.cpp:238-335 | the loop encodes byte by byte, with upper-case hex |
| WebUtils.UriDecode | util/WebUtils.cpp:94-136 | the loop decodes plus signs and complete escapes and copies the rest |
| WebUtils.XValueTable | util/WebUtils.cpp:104-121 | which characters are hex digits |
| WebUtils.XValueIs | util/WebUtils.cpp:108-121 | the value of a hex digit of either case |
| WebUtils.DecodedEscape | util/WebUtils.cpp:103-125 | an escape with digits of either case decodes to its byte |
| WebUtils.DecodedOther | util/WebUtils.cpp:99-133 | a plus sign decodes to a blank, and anything but an escape to itself |
| WebUtils.ParseFormUrlEncoded | util/WebUtils.cpp:343-374 | the pairs in order up to the first malformed one, and whether there was one |
| WebUtils.FormStep | util/WebUtils.cpp:343-374 | one pair: it is kept if neither part is empty, and parsing goes on behind it |
| WebUtils.NoPair | util/WebUtils.cpp:343-374 | text without an equals sign is malformed |
| WebUtils.FormRoundTrip | util/WebUtils.cpp:343-374 | encoded pairs parse back, for any non-empty list; parsing succeeds if and only if no part is empty, and otherwise returns the pairs before the first empty part |
| WebUtils.ParseCookies | util/WebUtils.cpp:155-185 | the map of the cookies, the first of each name kept |
| WebUtils.SerializeCookie | util/WebUtils.cpp:376-389 | name, equals sign and encoded value; nothing for an invalid name |
| WebUtils.SerializedIs | util/WebUtils.cpp:376-389 | which names are valid |
| WebUtils.CookieIsRead | util/WebUtils.cpp:155-185 | one cookie: blanks and one pair of quotes do not count, an earlier one stays, one without name or equals sign adds nothing |
| WebUtils.CookieRoundTrip | util/WebUtils.cpp:155-185 | parsing serialized cookies joined by `; ` yields exactly their names, and the first of each name decodes to its value |
| Headers.Request.SetThisHeaders | protocol/mods/ModConnectorDll.cpp:248-265 | the fields joined by CRLF, the first one twice; null for none |
| Headers.PrintedIs | protocol/mods/ModConnectorDll.cpp:248-265 | the printed block, field by field |
| Headers.Request.FindHeader | modlib/fiymod.hpp:496-537 | the lookup loop terminates with the specified answer for every text |
| Headers.Request.HeadersMap | modlib/fiymod.hpp:543-584 | the map loop likewise, with nothing dropped from an empty value |
| Headers.LowerExactlyWhen | modlib/fiymod.hpp:496-515 | names are the same if and only if each letter is the same or the other case of it |
| Headers.FoundIsAnswer | modlib/fiymod.hpp:496-537 | on printed fields, values empty or not, `find_header` finds the first field of that name, case ignored: its value without leading blanks, or for a blank value the next field's line |
| Headers.ValueAt | modlib/fiymod.hpp:517-526 | what stands behind a colon for the blank-skipping loop |
| Headers.FirstAtIsFirst | modlib/fiymod.hpp:508-515 | the position the answers refer to is that of the first matching field |
| Headers.MappedIsFirstOfEach | modlib/fiymod.hpp:543-584 | on printed fields `headers_map` holds the first field of each lower-cased name, value unchanged |
| Headers.FirstOfEachLookup | modlib/fiymod.hpp:543-584 | looking a key up in that map finds the first matching field |
| Headers.PrintAndLookup | protocol/mods/ModConnectorDll.cpp:248-265 | what both lookups return on a printed block, for every key, present or absent |
| Headers.LookupsAgreeExactlyWhen | modlib/fiymod.hpp:496-584 | the two lookups agree on a present key if and only if its first value begins with something, or is empty in the last field and that is not also the first |
| Headers.BlankValueYieldsNextLine | modlib/fiymod.hpp:517-526 | for a blank first value anywhere `find_header` returns the whole next printed line, or nothing after the last |
| Cdn.RhexDenotes | mods/storage/cdn/main.cpp:183-202 | every number is named by a numeral, least significant digit first, that denotes it |
| Cdn.RhexUnique | mods/storage/cdn/main.cpp:183-202 | and by no other numeral |
| Cdn.RhexLength | mods/storage/cdn/main.cpp:183-188 | n digits suffice if and only if the number is below 16 to the n |
| Cdn.RhexTellsApart | mods/storage/cdn/main.cpp:183-202 | values of one integer type, signed or not, have equal texts only if equal |
| Cdn.ToRhex | mods/storage/cdn/main.cpp:183-202 | the loop writes the numeral and its NUL inside the buffer bound and nothing behind them |
| Cdn.GetAssetPath | mods/storage/cdn/main.cpp:234-248 | directory from the bucket's two nibbles, file name from the id |
| Cdn.PathInjective | mods/storage/cdn/main.cpp:234-248 | two assets share a path if and only if their buckets agree in 8 bits and their ids in 32 |
| Cdn.PathIs | mods/storage/cdn/main.cpp:234-248 | the parts of a path denote the bucket's low and high digit and the id |
| Cdn.Store.Purge | mods/storage/cdn/main.cpp:356-411 | without an SQL error the unused rows and exactly their files go; with one, nothing changes |
| Cdn.RowsPart | mods/storage/cdn/main.cpp:376-391 | the rows listed and the rows kept part the table |
| Cdn.PurgedExactlyWhen | mods/storage/cdn/main.cpp:376-391 | a purge deletes a row if and only if it is more than 300 seconds old, no token names it, and every token names something |
| Cdn.DeleteIsExact | mods/storage/cdn/main.cpp:332-340 | deleting an asset takes its row and its tokens and nothing else |
| Cdn.NullTokenKeepsAll | mods/storage/cdn/main.cpp:376-391 | while a token has no asset, no row is unused |
| Cdn.FileGoesExactlyWhen | mods/storage/cdn/main.cpp:375-410 | a purge removes a file if and only if a deleted row has its path |
| Cdn.SurvivorsKeepFiles | mods/storage/cdn/main.cpp:375-410 | every survivor keeps its file if and only if none that has one shares its place, 8 bits of bucket and 32 of id, with a deleted row |
| Cdn.KeyedSurvivorsApart | mods/storage/cdn/main.cpp:375-410 | as is always so with distinct 32-bit ids |
| Cdn.PurgeAtOnce | mods/storage/cdn/main.cpp:356-411 | the commit and the removals of a purge that nothing interrupts amount to the whole purge |
| Cdn.FileOverRuns | mods/storage/cdn/main.cpp:251-411 | over every run of uploads, grants, token and asset deletions, purge commits and single file removals, a place holds a file if and only if it did or was written to, and no purge has removed it since |
| Cdn.ReusedIdLosesFile | mods/storage/cdn/main.cpp:397-410 | an upload that takes over the place of a purged row before its file is removed loses its own |
| Cdn.FilesOutliveRuns | mods/storage/cdn/main.cpp:251-411 | with distinct 32-bit ids, an asset that keeps its row and whose place no purge was about to clear keeps its file |

## Left out

- MinSSR.ParsedTemplate.Process: substitution arrays shorter than a recorded index are outside the contract, because the code then reads out of range.
- FileCache.Mustache: templates with an unclosed tag, on which the loop need not terminate.
- FileCache.ReplaceAll: the empty needle, on which the loop need not terminate.
- LRUCache.LRUCache.constructor: capacity 0, on which `set` unlinks its own new node.
- LocalUsers.LocalUsers.LoginUser: token draws that never yield an unused one, where the code would loop; and it runs uninterrupted.
- ContactsDb.EveryRun: ownerless cards break the separation of the link tables; the exact condition is in `ContactsDb.CreatedInv` and `ContactsDb.UpdatedInv`.
- ContactsDb.Database.GetProfile: saves between its own queries.
- VCard.RoundTrip: remote users, names that the parser reserves or that hold a colon or semicolon, and line breaks inside a property. Parameters are not restricted.
- VCard.RoundTripExactly: the same.
- VCard.LinesRead: the same.
- Cdn.FilesOutliveRuns: uploads whose row id needs more than 32 bits; `Cdn.FileOverRuns` covers all ids.
- LocalUsers.StepInv: each operation as one step, as are `LocalUsers.EveryRun` and the class methods; their interleaved parts are in `LocalUsers.EveryInterleaving`.
- LocalUsers.EveryRun: the same.
- LocalUsers.LoginExactly: the same; the interleaved login is `LocalUsers.IssuedExactlyWhen`.
- LocalUsers.LocalUsers.GetUser: the method runs uninterrupted.
- LocalUsers.LocalUsers.DeleteUser: the look-up before the lock is uninterrupted here.
- Headers.Request.HeadersMap: `back()` of an empty value, which is undefined; the model drops nothing.
- Sorting of tag arrays by the standard library: any sorted permutation of the keys is accepted.
- Lengths and counters beyond 64 bits, and allocation failure.
- The erasures at the end of `Pool::squeeze` and `coalesce_unsafe`: their indices do not fit the free list repaired before.
- Casts between entity and node pointers in the pool; capacity hints such as `reserve`.
- Task handlers, the pool's thread objects, timing and fairness: `ThreadPool` says what can be scheduled, not what will be.
- SQLite itself: rows are maps and sets, row id exhaustion, busy databases and a failing COMMIT or ROLLBACK are not modelled.
- `create_new_contact` when no id can be read back: row ids are positive, so the branch is dead.
- Property ids reported back to callers: they are read after the link row was inserted and name that row.
- The base card in profile replies, their assembly, and `delete_contact`, whose column names are not in the schema.
- SharedCards is a set; duplicate share rows count once.
- The calendar form of REV timestamps: writer and reader are parameters.
- `std::regex` in `VC::parse` is modelled by what the three patterns match; whether the iterator yields a trailing empty token makes no difference, since empty parameters are skipped and trimmed text does not end in a line break.
- `convert_structured_name` and the HTML side of contacts.
- The peer handshake and everything in `PeerAuth` but the expiry rule; `new_peer`.
- Password hashing, random token generation, notification of modules about deleted users.
- Errors of the user database other than a taken username.
- The cookie value pattern, which only logs; the three-argument `serialize_cookie`.
- `query_params`, `parse_query_string` and `parse_route`, whose cursors do not advance properly.
- Locale: `isspace`, `isxdigit` and `tolower` are those of the C locale.
- `from_rhex`, which is not the inverse of `to_rhex`; deletion of expired tokens, a statement that is bound but never executed.
- Failures of `std::filesystem::remove`, which are only reported.
- Networking, TLS, plugin loading, Git repositories and user interfaces.
