# What this repository's trickiest code keeps

Models in Dafny 4.11 of eleven small cores of the repository, and proofs of
what each of them promises. `dafny verify dfyconfig.toml` checks all of it.

Loops, and objects whose methods write their fields, are methods and classes,
each proved against a specification function; what the code promises is then
proved of those functions, or of every run of a state machine whose steps are
the code between two awaits.

- **nginx reading** (`NginxConfig`, `NginxPrint`, `NginxText`,
  `NginxLocations`, `NginxHeaders`): the parser with its aliased stack, an
  inverse of it, what its characters do, the location search against a
  declarative rule, and the headers a URI is sent.
- **Rate limiter** (`KnockLimit`): fixed windows with lazy expiry. The bound in
  the code's own comment, twice the allowance across a boundary, is proved
  sharper by one knock, and met; and the answers are given by the calls alone.
- **Box paths** (`BoxPaths`, `Paths`): three ways to a path that agree.
- **Zip trees and members** (`ArchiveTree`, `ZipMembers`, `MemberComparison`,
  `Sorting`): an index that answers like a scan, a binary reader with its
  round trip (sections 4.3.12 and 4.3.16 of PKWARE APPNOTE.TXT), and two
  comparisons that reach one verdict.
- **Row claims** (`RowClaim`): which row each migration owns over all boots.
- **First-copy mail and schedule handles** (`FirstCopy`, `ScheduleHandles`).
- **Archive placement** (`ArchivePlacement`): conservation over folders, and a
  manifest that forgets order.
- **Log redaction** (`AccessLog`, `AccessText`): the patterns as the code
  builds them, a backtracking matcher, what they mean in plain characters, and
  non-interference in both directions.
- **Single flight** (`BoxToken`): the two fields under every interleaving.
- **Digest collection** (`DigestCollect`): decisions counted once per tenant.

Six findings that a reader of the code may not expect.

- The first-copy mail is never sent when what was missing is stopped between
  two passes (`FirstCopy.StoppedBetweenPasses`); `FirstCopy.MailIsSentExactly`
  says when it is.
- It can be sent with something still missing, since the migrations are read
  one after another (`FirstCopy.ReadInTwoHalves`);
  `FirstCopy.SentTooSoonExactly` says when. So there can be two mails across a
  restart although completeness stays once it is there (`FirstCopy.SaidTwice`);
  only the last of them then finds everything in
  (`FirstCopy.EveryMailButTheLastIsTooSoon`).
- Between the two callbacks of a finished request, `refresh` joins that request
  and drops its token from the cache (`BoxToken.RefreshDropsExactly`).
- A Referer whose host is empty keeps its link
  (`AccessLog.ReferrerIsOriginThenUrl`, `AccessLog.NoHostKeepsTheLink`).
- An item whose one folder has an empty name is listed nowhere and the manifest
  twice (`ArchivePlacement.PlacementConserves`, `NamelessFolderLoses`). The type
  of `placeIn` allows it; the one reader there is
  (`packages/connectors/src/takeout-archive-reader.ts:741`) builds it from
  folder names.
- With a newline in a member's name, or a name twice in a draw, the two
  comparisons of an export's members part (`MemberComparison.OneTextExactly`).

What the model assumes: a clock that does not go back, window lengths above
zero and allowances of at least one where a lemma says so; a hash that tells
the texts it is fed apart and is never a legacy id; total orders for locale
and code-unit comparison; Box's account a finite tree of uniquely named
siblings whose names are not empty and hold no slash.

## Model

| member | source | states |
|---|---|---|
| NginxConfig.ParseNginx | scripts/nginx-config.ts:35-98 | The scan, with its stack of child lists that are also the children of open blocks, builds the forest the recursive reading gives, or fails with that reading's fault |
| NginxConfig.ModelsOne | scripts/nginx-config.ts:36-37 | The child lists built stand for one forest alone |
| NginxConfig.PushCell | scripts/nginx-config.ts:49-53 | A finished node pushed through the alias on top of the stack shows up in the open block it belongs to, and every other level still mirrors the path of open blocks |
| NginxPrint.ParseIsInverseOfFlatten | scripts/nginx-config.ts:35-98 | A text parses as a forest if and only if its words and punctuation are that forest's |
| NginxPrint.ParseRefusesTheRest | scripts/nginx-config.ts:35-98 | A text is refused if and only if no forest has its words and punctuation, or a word in it never ends |
| NginxPrint.ParseAcceptsExactlyTheLayouts | scripts/nginx-config.ts:35-98 | A text parses as a forest if and only if it is some layout of it: quotes, escapes, bare words with `${…}`, blanks and comments placed as the grammar allows |
| NginxPrint.ParseUndoesPrint | scripts/nginx-config.ts:35-98 | Printing a forest with every word quoted and escaped, any blanks and comments between tokens, and parsing gives the forest back |
| NginxText.SpacesAreTheBlanks | scripts/nginx-config.ts:48 | The blanks are the 25 code points that `\s` stands for |
| NginxText.BlanksPartWords | scripts/nginx-config.ts:43-95 | Two plain words with any one of those between them and a semicolon behind are a directive and its argument |
| NginxText.OthersJoinWords | scripts/nginx-config.ts:80 | Two plain words with any other character between them, `;`, `{` and `}` aside, are one word |
| NginxText.MarksShapeTheTree | scripts/nginx-config.ts:50-67 | What `;` does between two words, and `{` and `}` around one |
| NginxText.CommentsSayNothing | scripts/nginx-config.ts:46-47 | From `#` to the end of its line nothing is said |
| NginxText.QuotesHoldAnything | scripts/nginx-config.ts:68-80 | Between quotes of either kind every character stands for itself, and one behind a backslash too |
| NginxText.VariablesStayWhole | scripts/nginx-config.ts:82-90 | `${`, whatever is in it and `}` stay in the word they are in |
| NginxText.MarkAlone | scripts/nginx-config.ts:50-66 | Which fault each mark is where nothing is before it |
| NginxText.WordUnended | scripts/nginx-config.ts:62-66 | A word without a semicolon, and a block that never closes, are those faults |
| NginxText.WordUnclosed | scripts/nginx-config.ts:78-85 | So are a quote and a `${` that never close |
| NginxLocations.ChooseLocation | scripts/nginx-config.ts:127-151 | The loops over a level's locations compute the recursive search |
| NginxLocations.ChooseIsByTheRule | scripts/nginx-config.ts:107-151 | The search answers by the declarative rule: the first exact match; else the longest prefix, first of equals, unless it is not `^~`, its inner search is not final and a regex of the level matches, when the first such regex wins |
| NginxLocations.RuleIsTheSearch | scripts/nginx-config.ts:107-151 | The rule leaves one answer, so an answer is by the rule if and only if it is the search's |
| NginxLocations.NoneIsChosenWhenNoneMatches | scripts/nginx-config.ts:127-151 | Nothing is chosen if and only if no location of the level matches the URI |
| NginxLocations.ChosenPathMatches | scripts/nginx-config.ts:127-151 | Each block on the chosen path is a location that matches and lies in the one before; the search is final if and only if the path holds an exact or a regex location |
| NginxLocations.ChoiceForgetsOrder | scripts/nginx-config.ts:127-151 | With exact patterns distinct and prefix patterns distinct at every depth, any reordering of every level that keeps its regexes in order gives the same path and the same finality for every URI |
| NginxLocations.AmbiguousOrderShows | scripts/nginx-config.ts:131-136 | Two prefix locations of one pattern are answered by the one written first, so there the order shows |
| NginxLocations.PlainIsAPrefix | scripts/nginx-config.ts:107-151 | A block `location p` alone is chosen if and only if `p` begins the URI, and is final only when its own level's answer is |
| NginxLocations.ModifiersApart | scripts/nginx-config.ts:107-151 | `location = p` is chosen if and only if the URI is `p`, finally; `^~ p` as a prefix; `~ p` and `~* p` if and only if the engine matches `p` with and without regard to case, finally |
| NginxLocations.ModifiersTogether | scripts/nginx-config.ts:107-116 | A modifier and its pattern in one word choose as in two |
| NginxLocations.NeverChosen | scripts/nginx-config.ts:107-116 | A directive, a block of another name, a named location and a modifier without a pattern are never chosen |
| NginxLocations.StopKeepsRegexesOut | scripts/nginx-config.ts:127-151 | A matching `^~` keeps out a matching regex of either kind, before or after it; a plain prefix does not |
| NginxHeaders.HeadersFor | scripts/nginx-config.ts:187-225 | The search through nested blocks, the gathering of variables and the walk outwards together compute the specified headers, or the error |
| NginxHeaders.ServerSearch.Find | scripts/nginx-config.ts:188-203 | Pushing a level and taking it back when it leads nowhere leaves exactly the chain to the first server, or the levels untouched |
| NginxHeaders.ServerIsTheFirst | scripts/nginx-config.ts:188-204 | The chain found leads to a server with none before it on any level, and there is none to find only when no block leads to a server |
| NginxHeaders.VariableIsTheLastSet | scripts/nginx-config.ts:208-213 | A variable has a value if and only if some `set` line in reach names it, and the value is the last such line's |
| NginxHeaders.GatherVariables | scripts/nginx-config.ts:208-213 | The nested loops over the scopes leave what the `set` lines in order leave |
| NginxHeaders.PiecesSpellTheValue | scripts/nginx-config.ts:214-220 | Cutting a value at its variables loses and adds nothing |
| NginxHeaders.DepthIsEnough | scripts/nginx-config.ts:214-220 | Resolving one level deeper than there are variables is resolving to any depth: what is unresolved then never resolves |
| NginxHeaders.ResolvesWhenGrounded | scripts/nginx-config.ts:214-220 | A value resolves if and only if its variables can be ranked, all of them set and each one's value naming only variables of lower rank |
| NginxHeaders.ResolvedIsTheText | scripts/nginx-config.ts:214-220 | What it resolves to is its own text with every variable's text filled in, where those texts solve the `set` lines' equations; there is no other such text |
| NginxHeaders.RoundHasNoEnd | scripts/nginx-config.ts:214-220 | Variables each of which names another of them, through however many, resolve at no depth, and nor does a value that names one |
| NginxHeaders.OneLevelApplies | scripts/nginx-config.ts:221 | The scope whose lines apply is the innermost that has any; an inner scope with none inherits |
| NginxHeaders.HeadersAreOfOneLevel | scripts/nginx-config.ts:187-225 | What is sent is exactly one level's lines in order, each with its value's text by the `set` lines in reach, and is an error if and only if one of those values leads to a variable that is unset or back to one it came by; with no line anywhere nothing is sent |
| NginxHeaders.ViewIsOfTheFirstServer | scripts/nginx-config.ts:204-213 | The scopes are the file's top, the chain to the first server, and a path of nested locations that the rule chooses for the URI; and a variable has a value if and only if the last `set` line of it in that server or in a block of that path gives it, no other scope being asked |
| NginxHeaders.ServersByName | scripts/nginx-config.ts:190-203 | A server is a block named `server`, looked for at the top and in blocks named `http`, and in no other |
| NginxHeaders.LinesByName | scripts/nginx-config.ts:221-223 | A scope's lines are its nodes named `add_header`, in their order |
| NginxHeaders.NamesAreReplaced | scripts/nginx-config.ts:214-220 | `$name`, read as far as letters, digits and `_` go, and `${name}` stand for the value; a `$` before anything else for itself |
| NginxHeaders.WordsOfALine | scripts/nginx-config.ts:224 | The first word of a line is the header, the second its value or nothing, and `always` counts as the third alone |
| NginxHeaders.WithoutAView | scripts/nginx-config.ts:204-207 | With no server it is an error, and with no location of the server that matches nothing is said |
| KnockLimit.KnockLimiter.Current | apps/api/src/knock-limit.ts:124-132 | Only the key's own window may go, and only when it has run out |
| KnockLimit.KnockLimiter.Take | apps/api/src/knock-limit.ts:135-149 | The answer and the whole new store, sweep included |
| KnockLimit.KnockLimiter.RetryAfterSeconds | apps/api/src/knock-limit.ts:150-154 | The wait and the whole new store |
| KnockLimit.StoreStaysSmallOrLive | apps/api/src/knock-limit.ts:138-140 | After any take at most 10,001 windows are stored, or every stored one is still live |
| KnockLimit.DeletionIsInvisible | apps/api/src/knock-limit.ts:122-154 | Over any run of both calls with a clock that does not go back, the answers are those of a limiter that never deletes |
| KnockLimit.WaitIsLeast | apps/api/src/knock-limit.ts:150-154 | For a live window the ceiling is already at least 1, and waiting s seconds makes the key free if and only if s is at least the answer |
| KnockLimit.RefusalIsInvisible | apps/api/src/knock-limit.ts:144-149 | Whatever the store, a refused knock changes no answer to any later calls |
| KnockLimit.RuleOverTheCalls | apps/api/src/knock-limit.ts:111-154 | Answers are the limiter's over a run if and only if they are by the calls: a knock is let in when no window of its key is open, which it then opens, or fewer than `max` were let in since the knock that opened it; a window is open until its length has passed; a wait is what is left of it |
| KnockLimit.TraceBound | apps/api/src/knock-limit.ts:111-149 | Over any run, for every key, time t and k, the knocks accepted in [t, t + k windows) number at most (k + 1) * max - 1, and k * max where a window is one millisecond |
| KnockLimit.TraceBoundIsMet | apps/api/src/knock-limit.ts:111-149 | No smaller bound holds: for every max, k, t and window length a run reaches it |
| BoxPaths.ListPages | packages/connectors/src/box-file-source.ts:340-360 | The paging loop gives the listing or its failure |
| BoxPaths.ListingIsAllOrNothing | packages/connectors/src/box-file-source.ts:220-240 | A listing is the filtered concatenation of every page up to the one that names no marker, within 1000 requests, and otherwise an error: never a part |
| BoxPaths.ChildrenAreOfTheKind | packages/connectors/src/box-file-source.ts:340-360 | A folder's children of a kind are the entries of that kind on its pages, as often and in their order, for up to 1000 pages; of more it is refused, and where Box refuses a page with Box's own answer |
| BoxPaths.BinIsAllButWebLinks | packages/connectors/src/box-file-source.ts:220-240 | The bin is in the same way every entry that is no web link |
| BoxPaths.ListFolders | packages/connectors/src/box-file-source.ts:107-118 | The recursive walk that appends to one list gives the specified rows |
| BoxPaths.RowsAreOfFolders | packages/connectors/src/box-file-source.ts:107-118 | The first row is the root's; every other is of an entry that is a folder, in the folder of a row before it, with its name, its id and the joined path; and every folder in a row's listing is a row |
| BoxPaths.RowsAreDepthFirst | packages/connectors/src/box-file-source.ts:107-118 | A folder is listed before all that is under it, and that before the siblings that follow |
| BoxPaths.PlacesAreExact | packages/connectors/src/box-file-source.ts:107-118 | On a finite tree the rows are the lists of names that lead somewhere from the root, each once, each with the folder they lead to |
| BoxPaths.ResolveFolderId | packages/connectors/src/box-file-source.ts:363-375 | The loop over a path's segments computes the descent, or its failure |
| BoxPaths.ResolvesStepByStep | packages/connectors/src/box-file-source.ts:363-375 | One step for each name between slashes, to the first folder of that name; or as many as there are, and the failure of the listing or the name that is not in it |
| Paths.SlashesPart | packages/connectors/src/box-file-source.ts:366 | A path is parted at its slashes and nowhere else |
| BoxPaths.ResolveUndoesWalk | packages/connectors/src/box-file-source.ts:107-118 | A path resolves to an id if and only if the walk lists that folder at that path, and no path is listed twice |
| BoxPaths.EveryFileIsNamedOnce | packages/connectors/src/box-file-source.ts:107-159 | The listings of all folders hold exactly the files that lie under the root, with pairwise distinct paths |
| BoxPaths.EveryFileIdIsNamedOnce | packages/connectors/src/box-file-source.ts:107-159 | With one parent to each folder and file, no file id comes up twice over all listings |
| BoxPaths.BoxFileSource.ListSince | packages/connectors/src/box-file-source.ts:126-143 | The listing, and the memo it leaves |
| BoxPaths.ItemsAreOfFiles | packages/connectors/src/box-file-source.ts:126-143 | The items are the entries of the folder's pages that are files, as often and in their order, each with its name, id and joined path, and the keys are those paths |
| BoxPaths.BoxFileSource.ListKeys | packages/connectors/src/box-file-source.ts:146-154 | The memo is used for its own path and once; otherwise a new listing's paths |
| BoxPaths.KeysOfTheListing | packages/connectors/src/box-file-source.ts:126-154 | The keys asked for after a listing are that listing's even if the account changed in between, and the next asking reads again |
| BoxPaths.BinAgreesWithListing | packages/connectors/src/box-file-source.ts:242-262 | An item whose ancestor chain passes once through the root is named by the bin with the path the listing gave it |
| BoxPaths.OriginIsBelowTheRoot | packages/connectors/src/box-file-source.ts:248-262 | Unnameable if and only if there are no ancestors, out of scope if and only if none of them is the root, and else the names below the first that is |
| BoxPaths.ListTrashedPaths | packages/connectors/src/box-file-source.ts:191-217 | The paths of the nameable entries in scope, each once, and the number of those that could not be named |
| BoxPaths.UnnameableAreWithoutAncestors | packages/connectors/src/box-file-source.ts:196-201 | The number of those that could not be named is the number of entries without ancestors |
| ArchiveTree.IndexOf | packages/connectors/src/archive-tree.ts:157-188 | The map of sets and maps filled by nested loops holds the folders and the files of a naive scan of all members |
| ArchiveTree.TreeAnswersLikeAScan | packages/connectors/src/archive-tree.ts:191-216 | For any spelling of a path: a folder if and only if implied by a member, listed if and only if a folder, its children exactly the implied folders and the files one deeper, and the member found the first-met one |
| ArchiveTree.FirstFileIsFirst | packages/connectors/src/archive-tree.ts:154-184 | The file found is the one at the lowest position whose name has those segments |
| ArchiveTree.FoldersAreImplied | packages/connectors/src/archive-tree.ts:160-176 | A folder is the root, any part of a directory member's own segments, or of the segments before a file's last |
| ArchiveTree.SlashesPartSegments | packages/connectors/src/archive-tree.ts:143-145 | Segments are what stands between slashes, where anything does |
| ArchiveTree.SegmentsOfJoin | packages/connectors/src/archive-tree.ts:143-145 | A list of segments joined by slashes is cut into the same segments |
| ArchiveTree.WalkFromRoot | packages/connectors/src/archive-tree.ts:190-216 | A walk from the root, one listing of a folder after another, comes to every distinct file path, and to none twice |
| ArchiveTree.OpenZipTree | packages/connectors/src/archive-tree.ts:243-263 | Every part open and in order, or the first failure with every descriptor it opened closed and no other touched |
| ZipMembers.FindEndOfCentralDirectory | scripts/drive-export-members.ts:136-142 | The last end-record signature in the range, or -1 if and only if the range holds none |
| ZipMembers.EndRecordIsItsBytes | scripts/drive-export-members.ts:136-142 | The signature is the bytes 50 4B 05 06 with 22 bytes from there on, looked for in the last 22 + 65,535 |
| ZipMembers.ReadZipMembers | scripts/drive-export-members.ts:90-126 | Null if and only if the range holds no signature; else the index read from the last one. Every read is within the bytes, on arbitrary bytes |
| ZipMembers.ReadsHeaderByHeader | scripts/drive-export-members.ts:95-125 | As many headers as the end record counts, each read from its own offsets and the next right behind; or as many as can be, and which of three reasons stopped it at which entry |
| ZipMembers.NumberInBytes | scripts/drive-export-members.ts:96-121 | Numbers are read with the low byte first |
| ZipMembers.HeaderIsRead | scripts/drive-export-members.ts:101-123 | A header written as section 4.3.12 of PKWARE APPNOTE.TXT lays it out is read field by field, and the next begins where it ends |
| ZipMembers.ReadUndoesWrite | scripts/drive-export-members.ts:90-142 | For any headers that fit their fields, any leading bytes and any comment, with no signature after the end record, reading gives exactly the members written, in order |
| MemberComparison.FeedHash | scripts/drive-export-members.ts:257-264 | The loop feeds the sorted members' lines, one after another |
| MemberComparison.TextOfOneMore | scripts/drive-export-members.ts:260-262 | The text goes on line by line with a member's name, checksum and size, each ended by a newline |
| MemberComparison.DecimalSaysTheNumber | scripts/drive-export-members.ts:261 | A number is written in decimal, without zeros ahead |
| MemberComparison.FeedIsInjective | scripts/drive-export-members.ts:260-262 | With no newline in a name, the text fed tells the list of names, checksums and sizes |
| MemberComparison.SameTextExactly | scripts/drive-export-members.ts:257-264 | With no newline in a name, two draws feed the same text if and only if for every name they hold the same parts of that name in the same order, whatever the order of the names and the stamps |
| MemberComparison.SameInputIsSameParts | scripts/drive-export-members.ts:257-264 | Where no name is repeated either, that is if and only if they hold the same parts |
| MemberComparison.NothingMovedExactly | scripts/drive-export-members.ts:182-198 | Nothing changed and nothing absent if and only if every name is found in every draw or in none, with one content |
| MemberComparison.OneTextExactly | scripts/drive-export-members.ts:168-264 | With no newline in a name: all draws feed one text if and only if they hold, name by name, the same parts in the same order, and then nothing is changed or absent, names repeated or not |
| MemberComparison.Judge | scripts/drive-export-members.ts:183-197 | One name's verdict: missing somewhere, content moved, only the stamp moved, or held |
| MemberComparison.VerdictMeans | scripts/drive-export-members.ts:188-197 | By the first member of the name in each draw: changed if and only if two differ in checksum or size, restamped if and only if they differ in their stamps alone |
| MemberComparison.AbsentMeans | scripts/drive-export-members.ts:183-187 | Absent if and only if some draw has no member of the name |
| MemberComparison.EveryName | scripts/drive-export-members.ts:176 | Each distinct name of any draw once, in order |
| MemberComparison.CompareMembers | scripts/drive-export-members.ts:168-201 | The three lists and the count hold the names of each verdict and together every distinct name once; fewer than two draws are refused |
| MemberComparison.TwoComparisonsAgree | scripts/drive-export-members.ts:168-264 | Where no name is repeated, all draws feed one text if and only if the comparison has nothing changed and nothing absent |
| MemberComparison.NewlineHidesAMember | scripts/drive-export-members.ts:168-264 | With a newline in a name they part: one draw of one member and one of two feed the same text, and a name is absent |
| MemberComparison.RepeatHidesAChange | scripts/drive-export-members.ts:168-264 | With a name twice in a draw they part: different text, and nothing changed |
| RowClaim.LoadConfigDir | apps/selfhost/src/config-dir.ts:76-108 | Loads all files in order if and only if each parses and no two share a mappingId |
| RowClaim.SeedIsInjective | apps/selfhost/src/config-dir.ts:110-113 | Seeds tell migrations apart |
| RowClaim.LegacyIdIsShared | apps/selfhost/src/config-dir.ts:55-58 | Every migration of one tenant has the same legacy id, so the id alone does not say whose row it is |
| RowClaim.LegacyIdIsOfTheTenant | apps/selfhost/src/config-dir.ts:55-58 | Its digits are those of the tenant id's first sixteen bytes, high before low, with a 4 for the thirteenth |
| RowClaim.Database.ClaimOne | apps/selfhost/src/config-dir.ts:154-167 | Whose row it is by the three rules, and the one write a claim makes |
| RowClaim.ClaimRule | apps/selfhost/src/config-dir.ts:154-180 | The legacy row is kept if and only if the migration has no row of its own, the row was not claimed in this boot, and it is the tenant's with no name or this one; then it carries the name, and nothing else is written |
| RowClaim.Database.ClaimLegacyMappingRows | apps/selfhost/src/config-dir.ts:144-180 | The loop over rows, this boot's claims and the resolved list gives the claims in order |
| RowClaim.LoopIsItsClaims | apps/selfhost/src/config-dir.ts:144-180 | The loop is the boot's single claims run one after another, so the protocol's steps are its steps |
| RowClaim.Database.EnsureRow | apps/selfhost/src/index.ts:278-294 | Inserted, or its name filled in where it had none; another tenant's row is left |
| RowClaim.OwnershipIsStable | apps/selfhost/src/config-dir.ts:144-180 | Over any run of boots, config edits, file orders and crashes, two resolutions are of one migration if and only if they are to one id |
| RowClaim.RowIsItsOwners | apps/selfhost/src/config-dir.ts:144-180 | Once a migration has resolved to an id, the row there carries its tenant and its name ever after |
| RowClaim.StepWritesItsOwn | apps/selfhost/src/config-dir.ts:144-180 | A row that a step writes is new or had no name, and is the step's own migration's, of its tenant |
| RowClaim.NameIsGivenOnce | apps/selfhost/src/index.ts:278-294 | A row's name changes only from null, and never again |
| FirstCopy.OneMailPerProcess | apps/selfhost/src/index.ts:1086-1095 | Under every interleaving of passes at their awaits, a process sends one mail if its flag is up and none if not |
| FirstCopy.MailIsSentExactly | apps/selfhost/src/index.ts:993-1004 | Take any moment with everything in, however that came about. While everything stays in, over all interleavings and restarts, one more mail is sent if and only if the process had not said so and a pass that was then on its way to say so ends in that process with no throw and no failed read |
| FirstCopy.InWithOneMore | packages/shared/src/first-copy.ts:51-57 | A data type that waits or was stopped says nothing of a migration; any other must have been copied once, and there must be one |
| FirstCopy.NoReadingOnceSaid | apps/selfhost/src/index.ts:996-998 | A process that has said so begins no reading any more |
| FirstCopy.NobodyOnTheWay | apps/selfhost/src/index.ts:1086-1095 | With no pass on its way at that moment no mail is sent |
| FirstCopy.StoppedBetweenPasses | packages/shared/src/first-copy.ts:51-59 | So when the owner stops the one missing data type between two passes, everything is in and the next pass says nothing |
| FirstCopy.SentTooSoonExactly | apps/selfhost/src/index.ts:543-553 | Over every run: a mail is sent with something missing if and only if some migration the pass sending it had read as in went out before the pass had read the rest, and had not come back |
| FirstCopy.EveryMailButTheLastIsTooSoon | apps/selfhost/src/index.ts:993-1004 | While completeness stays once it is there, at most one mail, over all restarts, finds everything in, and every one before it is sent too soon by a pass that a migration went out on |
| FirstCopy.OneMailUnlessTooSoon | apps/selfhost/src/index.ts:1086-1095 | So then at most one mail is ever sent, unless some pass sends one too soon |
| FirstCopy.SaidTwice | apps/selfhost/src/index.ts:1086-1095 | A run through the owner's doors in which completeness, once there, stays, and two mails are sent |
| FirstCopy.OneMailEver | apps/selfhost/src/index.ts:993-1004 | While no migration that is in goes out again, so that nothing is read too soon, at most one mail ever, and not before everything is in |
| FirstCopy.ReadInTwoHalves | apps/selfhost/src/index.ts:543-553 | A run through the owner's doors, a data type of one migration resumed after it was read and one of another stopped before it is, in which a mail is sent though never was everything in |
| FirstCopy.ExactlyOneWhenWhole | apps/selfhost/src/index.ts:1086-1095 | The pass that the last first copy came in with, its opening read good, is on its way to say so, and exactly one mail is sent ever when it ends well in its process |
| ScheduleHandles.Appliance.ScheduleMapping | apps/selfhost/src/index.ts:1164-1171 | Pressed twice it schedules once; a new handle is live, in the map and in the shutdown list |
| ScheduleHandles.Appliance.UnscheduleMapping | apps/selfhost/src/index.ts:909-917 | That mapping's handle alone stops and leaves the map, and stays in the shutdown list |
| ScheduleHandles.Appliance.OneLiveEach | apps/selfhost/src/index.ts:483-488 | At most one live handle per mapping, and every live handle is in the shutdown list |
| ArchivePlacement.FingerprintIsOfTheHashes | packages/connectors/src/archive-file-source.ts:124-127 | The fingerprint and the manifest's name depend on nothing but the multiset of content hashes |
| ArchivePlacement.ManifestIs | packages/connectors/src/archive-file-source.ts:105-137 | Its text is of the items in the order of their hashes, its name of the first 12 characters of the hash of those hashes, its date one of an item that none is after, or the epoch |
| ArchivePlacement.LinesThen | packages/connectors/src/archive-file-source.ts:124-125 | The hashes are parted by newlines |
| ArchivePlacement.ManifestForgetsOrder | packages/connectors/src/archive-file-source.ts:105-137 | When no two items of one hash differ, the whole manifest is the same for every order of the items |
| ArchivePlacement.RowsForgetOrderExactly | packages/connectors/src/archive-file-source.ts:111-113 | The rows are the same for every order if and only if no two items of one hash differ |
| ArchivePlacement.PlacementConserves | packages/connectors/src/archive-file-source.ts:201-224 | The listings over the folders hold each item once per distinct folder, or once at the root, and the manifest once, if and only if no item names the empty path as a folder |
| ArchivePlacement.NamelessFolderLoses | packages/connectors/src/archive-file-source.ts:201-224 | One item in one folder with an empty name: the listings hold the manifest twice and no item |
| ArchivePlacement.ListedIsFetched | packages/connectors/src/archive-file-source.ts:226-234 | The manifest a listing names is fetched as itself, and an item it names as the bytes of an item with its content hash, if and only if that hash is not spelled as the manifest's reference |
| ArchivePlacement.ArchiveFileSource.Open | packages/connectors/src/archive-file-source.ts:189-198 | One walk at most; its outcome, a failure too, is kept |
| ArchivePlacement.ArchiveFileSource.ListFolders | packages/connectors/src/archive-file-source.ts:201-205 | The root, then every folder some item is placed in, sorted and once |
| ArchivePlacement.ArchiveFileSource.ListSince | packages/connectors/src/archive-file-source.ts:207-224 | The placed items of the folder in order, with the manifest after them at the root |
| ArchivePlacement.ListingTells | packages/connectors/src/archive-file-source.ts:143-224 | The files are those of the items placed in the folder, in order, field by field, and at the root one more, the manifest's |
| ArchivePlacement.FoundIsFirst | packages/connectors/src/archive-file-source.ts:229 | The item fetched by a hash is the first that has it |
| ArchivePlacement.ArchiveFileSource.Fetch | packages/connectors/src/archive-file-source.ts:226-234 | The manifest for its reference, else the first item of that hash |
| Sorting.SortIsStable | packages/connectors/src/archive-file-source.ts:111-113 | Elements of one key keep their order |
| AccessLog.EndsAreTheMatches | apps/api/src/access-log.ts:37-55 | The backtracking matcher finds exactly what a pattern reads |
| AccessLog.SpelledReads | apps/api/src/access-log.ts:37-45 | The spelled pattern reads a segment if and only if percent-decoding and lower-casing the segment gives the word |
| AccessLog.RouteReads | apps/api/src/access-log.ts:47-48 | The route pattern reads one place, the one segment-by-segment reading gives |
| AccessLog.RouteOfIsThePattern | apps/api/src/access-log.ts:50-77 | With a scheme and host optional or required, each pattern's captured part ends at one place, given by the scheme, the host and the segments |
| AccessLog.KeptIs | apps/api/src/access-log.ts:65 | The replacement takes out the one segment after the route, the whole of it, and nothing else |
| AccessLog.UrlLogTellsNoSecret | apps/api/src/access-log.ts:60-67 | Two request URLs log alike if and only if they differ in nothing but the link and what their queries say |
| AccessLog.UrlLogIsIdempotent | apps/api/src/access-log.ts:60-67 | Logging what was logged changes nothing |
| AccessLog.ReferrerLogTellsNoSecret | apps/api/src/access-log.ts:79-95 | The same for a Referer, everything that is no absolute URL logging alike |
| AccessLog.ReferrerLogIsIdempotent | apps/api/src/access-log.ts:79-95 | Logging what was logged changes nothing |
| AccessLog.ReferrerIsOriginThenUrl | apps/api/src/access-log.ts:69-95 | Behind a lower-case scheme, a Referer logs as its origin and then as its path would, if and only if it names a host or its path is not a link's route with a segment after it other than the mark |
| AccessLog.KeptWhenNoLink | apps/api/src/access-log.ts:65 | A path is kept as it is if and only if no segment other than the mark follows a link's route in it |
| AccessLog.NoHostKeepsTheLink | apps/api/src/access-log.ts:79-95 | `http:///grant/s` is kept whole as a Referer, and `/grant/s` loses its link as a URL |
| AccessText.RoutesAreTheirText | apps/api/src/access-log.ts:37-77 | A link's route is, in plain characters, `/`, perhaps `api/`, `grant` or `view` and `/`, each letter in either case or as either case's escape, perhaps or always behind a scheme, `://` and a host |
| AccessText.UrlIsLogged | apps/api/src/access-log.ts:60-67 | A URL is logged as its path, with `:link` for a link behind a route, and `?...` for its query; none and an empty one as `-` |
| AccessText.ReferrerIsLogged | apps/api/src/access-log.ts:69-95 | So is a Referer with a scheme of lower-case letters, digits, `+`, `.` and `-`, and any other as `-` |
| BoxToken.BoxTokenProvider.GetToken | packages/connectors/src/box-token-provider.ts:72-76 | The answer and the new fields |
| BoxToken.BoxTokenProvider.RefreshToken | packages/connectors/src/box-token-provider.ts:78-82 | The answer and the new fields |
| BoxToken.BoxTokenProvider.OnFinally | packages/connectors/src/box-token-provider.ts:98-110 | Clears the field without looking whose it is |
| BoxToken.SingleFlight | packages/connectors/src/box-token-provider.ts:72-110 | Under every interleaving of calls and callbacks at most one request is outstanding |
| BoxToken.FinishingClearsItself | packages/connectors/src/box-token-provider.ts:104-106 | A request about to clear the field is the one in it |
| BoxToken.JoinersShareARequest | packages/connectors/src/box-token-provider.ts:72-82 | Two callers who wait are told by one request if and only if the first's had not settled when the second called; otherwise the second's is newer |
| BoxToken.OutcomeIsTheReply | packages/connectors/src/box-token-provider.ts:98-110 | Everyone who waits for a request gets what its reply says, whatever happens between |
| BoxToken.TokenIsTheReplys | packages/connectors/src/box-token-provider.ts:112-152 | A token if and only if the answer holds one that is not empty, good for as long as it says or else an hour, and of its type or else `Bearer`; otherwise the reason, with 500 characters of a refusal |
| BoxToken.CallsMintOnlyWhenTheyMust | packages/connectors/src/box-token-provider.ts:72-82 | A call makes a request if and only if it is not served and none is outstanding |
| BoxToken.FailureFreesTheNextCall | packages/connectors/src/box-token-provider.ts:98-110 | After a failure the next call that is not served asks anew |
| BoxToken.ServedTokenIsFresh | packages/connectors/src/box-token-provider.ts:154-156 | A token served at once came from a request and has more than the buffer left |
| BoxToken.ServedExactly | packages/connectors/src/box-token-provider.ts:72-76 | A call is answered at once if and only if the cached token is good for more than five minutes yet, and a refresh never |
| BoxToken.CacheIsTheLastWord | packages/connectors/src/box-token-provider.ts:78-110 | Over every run the cache is what the last refresh or the last `then` with a token left, whichever came later; failures leave it |
| BoxToken.RefreshForgets | packages/connectors/src/box-token-provider.ts:78-82 | After a refresh nothing is served at once until a request has brought a token |
| BoxToken.RefreshWaits | packages/connectors/src/box-token-provider.ts:78-110 | A refresh waits for a request that has not settled, and leaves nothing cached |
| BoxToken.RefreshDropsExactly | packages/connectors/src/box-token-provider.ts:78-110 | With no newer request and no other refresh since, a token is cached if and only if the request the refresh waited for has brought one and had not run its `then` when the refresh came |
| BoxToken.RefreshBetweenCallbacks | packages/connectors/src/box-token-provider.ts:78-110 | Such a refresh comes about: a token just brought, with an hour left, is gone for the call after |
| BoxToken.NothingIsStuck | packages/connectors/src/box-token-provider.ts:98-110 | From every reachable state a reply and the two callbacks settle what is outstanding |
| BoxToken.StatusAgrees | packages/connectors/src/box-token-provider.ts:84-96 | The status says valid if and only if the token would be served, and its whole seconds never say otherwise |
| DigestCollect.CollectAttention | apps/selfhost/src/digest-collect.ts:66-135 | The loop with its set of tenants gives each reportable migration's report, decisions on the first of a tenant |
| DigestCollect.CollectTenantAttention | apps/selfhost/src/digest-collect.ts:180-202 | Each tenant read once, failures kept as blind spots, zero left out |
| DigestCollect.ReportsTellTheReads | apps/selfhost/src/digest-collect.ts:66-135 | One report for each migration whose status reports, in order, with each read in its own field or its fallback, each failure in its own words and place, and the decisions where no migration of the tenant reports before |
| DigestCollect.UnreadTellsEach | apps/selfhost/src/digest-collect.ts:190-195 | The organisation's blind spots are the words of each tenant's queue that failed |
| DigestCollect.DecisionsAreCountedOnce | apps/selfhost/src/digest-collect.ts:105-124 | The reports' decisions sum to those of the tenants with a reportable migration, each once, failed reads as none |
| DigestCollect.OrganisationCountsTheRest | apps/selfhost/src/digest-collect.ts:180-202 | The organisation's count is the reports' and what waits on the tenants that report nothing |
| DigestCollect.CollectorsAgree | apps/selfhost/src/digest-collect.ts:66-202 | When every tenant has a reportable migration the two collectors count the same |
| DigestCollect.BlindSpotsAreTheFailures | apps/selfhost/src/digest-collect.ts:71-80 | One blind spot for each failed read of a migration that reports, and one for each of their tenants whose queue was not read |
| DigestCollect.ScreenShowsTheOrganisation | apps/selfhost/src/digest-collect.ts:168-178 | The organisation is on the screen if and only if no migration reports and some tenant has decisions or an unread queue |
| DigestCollect.ScreenReadsTheOrganisation | apps/selfhost/src/digest-collect.ts:168-178 | A failure to read the organisation is the screen's if and only if no migration reports |
| DigestCollect.ScreenCountsOnce | apps/selfhost/src/digest-collect.ts:168-202 | No decision is on the whole screen twice |

## Left out

- HTTP, SMTP, SQL and file access: what they answer is a parameter, and a crash or a failure is one of its values.
- Regex matching in location patterns: a parameter; a pattern the engine refuses, which the code lets throw, is not part of the model.
- `envsubst`: two passes are not one pass of their union, so there is no law to state.
- NginxHeaders.HeadersFor: a value that leads back to itself is the error `Endless`; the code recurses until its stack gives out.
- NginxConfig.ParseNginx: faults are values; the file name and the sentence of the message are not modelled.
- Strings are sequences of characters; UTF-16 code units, their sort and UTF-8 decoding appear only as a total order and a decoder parameter.
- RowClaim.OwnershipIsStable: rows are never deleted by anyone, one process boots at a time, and a tenant id is 36 characters; UTF-8 seeds are modelled as their bytes. The hash id is taken to tell seeds apart although a UUID keeps 122 bits of it.
- RowClaim.Database.EnsureRow: the row's other columns, and the mailbox rows beside it.
- ZipMembers.ReadZipMembers: zip64 and the compressed data, which the code does not read either.
- MemberComparison.CompareMembers: the sentence `note`.
- MemberComparison.FeedHash: the hash is modelled by the text fed to it.
- BoxPaths.ListFolders: the rows carry the folder id the walk went on with, which the code does not return; folders are finite by a rank given as a ghost argument.
- BoxPaths.ListTrashedPaths: the sentence `reason`, and the order of the paths.
- ArchiveTree.TreeAnswersLikeAScan: `list` is a set, its order not modelled; folder trees on disk are left out.
- ArchiveTree.OpenZipTree: closing fails silently or not at all; reading and streaming a member go to the member found and no further.
- ArchivePlacement.ArchiveFileSource.Fetch: content and body streams are the item itself; the size above which a body is streamed is left out, as is an empty string for a date.
- FirstCopy.MailIsSentExactly: a mail handed to `tell` counts as sent; the theorems let a press of the owner's write any rows of a migration, more than its doors allow, and the runs shown use the doors alone; the migrations configured are those of the start.
- ScheduleHandles.Appliance.ScheduleMapping: cron expressions and what a firing does.
- AccessLog.UrlLogTellsNoSecret: the morgan tokens and the log format around the two functions.
- BoxToken.BoxTokenProvider.GetToken: promises are numbered requests with a stage; the constructor's check of its credentials and the wording of refusals are left out.
- DigestCollect.CollectAttention: each read answers the same whenever asked within one collection; `summariseQueues` and `reportsToDigest` are not part of this model, the first being handed what `Report` holds and the second a parameter.
- HTTP route handlers, screens, probes and spike scripts, the imported rules of the shared packages, and report wording: plumbing, or settled by one branch.
