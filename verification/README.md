# Verified model of workmux's core logic

A Dafny model of the parts of workmux that compute rather than call other programs, with proofs of what
each of them is for. `dafny verify dfyconfig.toml` checks everything.

## What is modelled

**Batched GitHub queries** (`Names`, `BatchBody`, `BodyText`, `QueryReader`, `BodySize`, `Packing`, `Execute`,
`Batch`, `Server`). Requests of local repositories are grouped by remote and by host, packed greedily into chunks of at
most 32 branches and 65536 bytes, turned into one GraphQL body per chunk with numbered variables and aliases, run
once, run again repository by repository when the whole reply has to be rejected, and handed back. The model
builds the real JSON text, character by character, and counts its size in UTF-8 bytes; a reader that shares nothing
with it but the field selections gets from that text what was asked. Main results: packing uses
the fewest possible chunks; the batched form gives every repository exactly what querying it alone gives; end to
end each request gets its own remote's answers for its own branches; an error reaches only the repository and
branch its path names; two batches have the same body exactly when they ask the same.

What the outcomes are about, and how many calls they take, is proved for any server at all: every outcome is some
request's, for branches it asked for, and there are at most two calls per remote. What they say rests on a
hypothesis (`Batch.FaithfulServer`): answers are those of one fixed directory, repository by repository, and a batch
of several may be rejected as a whole at any time. The server may fail in three further ways (`Batch.Faults`), which
come and go with the call and depend on the repository and on the branches asked: it refuses a repository, and any
query that holds it is rejected; it drops a repository, by an error or null of its own; it loses the answer about a
branch, by an error of the branch. Each fault costs its own repository or branch and no other.
`Server.FaithfulServersExist` shows that for every directory and every pattern of faults there is such a server,
which sees only the number of the call, the host and the body.

**The status caches** (`CacheProtocol`). Any number of savers, readers without a lock, failures and crashes,
interleaved step by step. Main results: after every run the file is the fold of the committed saves in rename
order, every successful read returns a state after some commit inside the read, and each repository keeps its last
writer's entry.

*Finding:* the last claim needs a condition. A saver that holds the lock but fails to read the existing file merges
onto an empty map and so erases every other repository's entry; `FailedLoadLosesUpdates` gives the run. `Commit.blind`
marks such commits, and an entry that no later commit rewrites is in the file if and only if none of them is blind
(`UpdateKeptIff`).

**Timestamps and checks** (`Timestamp`, `Checks`). The day-counting loops against the Gregorian calendar in closed
form, an inverse, strict monotonicity, and the one-pass check aggregator against counts, minima and a first failing
name. *Findings:* for dates that exist the result is right if and only if the year is at least 1970; every accepted
day past the end of its month has the result of a day early in the next one, as 31 February has that of 3 March, so
the result is the text's own date if and only if the year is at least 1970 and the day is within its month; the
failing name, unlike the state, depends on the order of the checks, and with it the metadata: they ignore the order
if and only if all failed checks that have a name have the same one.

**Paths** (`Paths`, `WorktreeDir`). `normalize_path` as a stack machine with a meaning (where a path leads from every
directory) and a unique normal form, and the `worktree_dir` scanner built on it. *Finding:* the placeholder is
also replaced inside the home directory that `~` expands to: `~` with home `/h/{project}` in project `p` is `/h/p`.
A template expands to its literal pieces with the project name between them, behind the home directory it asks for,
if and only if that directory holds no placeholder or the project itself is called `{project}`.

**Texts with a round trip** (`ShellQuote`, `TmuxStyle`, `Foreach`, `Frontmatter`, `GitLabRemote`). Quoting read
back by the token rules of sections 2.2.1, 2.2.2 and 2.3 of the POSIX Shell Command Language (IEEE Std 1003.1); the
style scanner against its grammar; the `--foreach` matrix and its frontmatter twin; the frontmatter splitter;
GitLab remotes. *Findings:* stripping styles twice can strip more than once (`##[x][y]`): it does so exactly when a
text ending in `#` and the next text, starting with `[`, come together over removed directives with a closing
bracket still to come; parsing composes over a reset exactly when the prefix is closed; the frontmatter body is exact
if and only if the header has no CRLF line (or one, with an unterminated closing fence); a GitLab path reads back
from its web address, which the source builds in its tests only, if and only if it does not end in `.git`.

**Configuration** (`ConfigMerge`, `PaneLayout`). List merging as substitution at `<global>`, its commuting with the
later hook expansion, the choice between panes and windows, and the pane list validator against the split tree that
the pane builder of `src/multiplexer/mod.rs` makes of a list. *Finding:* three levels merge in either grouping if
and only if the middle list is set, or the last does not ask for it, or nothing stands above.

`Common` and `Text` hold the option type and the string calls the rest relies on.

### Form

Loops and in-place updates of the source are methods with loops, proved against specification functions; hooks are
rewritten in an array, and a cache file is a class. Sequences and maps that the source grows are `seq` and `map`
variables of those methods. Where the code visits a map in an order that does not matter, the model visits it in an
arbitrary one. Expressions of the source are functions. `gh` is a function from the number of earlier calls, the host
and the body to an optional reply, and resolving a repository is a function from its root.

## Model

| member | source | states |
|---|---|---|
| `CacheProtocol.MergeStatuses` | src/github.rs:1351-1358 | the merge loop gives, whatever order it visits repositories in, the old cache with each updated repository replaced, or removed when its new map is empty |
| `CacheProtocol.Store.Save` | src/github.rs:1331-1363 | a save that cannot lock, encode or write leaves the file alone; otherwise the file becomes the merge onto what could be loaded |
| `CacheProtocol.LastWriterWins` | src/github.rs:1352-1358 | in any sequence of commits a repository holds the entry of the last commit that names it, absent if that entry is empty |
| `CacheProtocol.UntouchedKeepsInitial` | src/github.rs:1351-1358 | a repository that no commit names keeps the entry it had, if every load succeeds |
| `CacheProtocol.BlindCommitWipes` | src/github.rs:1323-1327 | a commit whose load failed removes every repository nobody writes from then on |
| `CacheProtocol.RunKeepsInv` | src/github.rs:1346-1362 | the protocol's invariant (one saver inside, its base is the current file, its temporary file is there and complete once written, open readers hold a committed state) is kept by every run of every length |
| `CacheProtocol.EveryRunFolds` | src/github.rs:1331-1363 | in every interleaving of savers, readers, failures and crashes the file is the fold of the commits in rename order |
| `CacheProtocol.EveryReadIsCommitted` | src/github.rs:1320-1328 | every lock-free read returns the state after a commit that lies between its start and its end; a failed read returns the empty cache |
| `CacheProtocol.SaversExcludeEachOther` | src/github.rs:1346-1349 | two savers are never past the lock at once |
| `CacheProtocol.RenameInstallsMerge` | src/util.rs:19-75 | a saver that has written its temporary file can rename it whatever stale files others deleted, and installs its merge onto the file as it is then |
| `CacheProtocol.NoUpdateLost` | src/github.rs:1381-1413 | after every run each repository holds its last committed writer's entry, unless a later save failed to load |
| `CacheProtocol.EntryStaysIff` | src/github.rs:1351-1358 | in any sequence of commits, an entry that nobody rewrites is there if and only if no later commit's load failed |
| `CacheProtocol.UpdateKeptIff` | src/github.rs:1331-1363 | the same after every run of the protocol: an update is lost exactly when a later save could not read the file |
| `CacheProtocol.FailedLoadLosesUpdates` | src/github.rs:1371-1378 | a run of two saves in which the second cannot read the file and the first one's repository is gone |
| `CacheProtocol.SoloSave` | src/github.rs:1331-1363 | from any state with the lock free, a save runs to its end and changes the file by exactly its update, whatever leftovers lie around |
| `Names.DecodeOfEncode` | src/github.rs:993-1026 | every variable and alias name reads back to its kind and its repository and branch indices |
| `Names.EncodeInjective` | src/github.rs:1126-1139 | two names are equal only when kind and indices are |
| `BatchBody.BuildBatchBody` | src/github.rs:987-1041 | the nested loops build the body of the batch, the text that `BodyAsks` reads back |
| `BatchBody.AddRepository` | src/github.rs:992-1028 | one turn of the outer loop adds exactly the repository's declarations, fragment and variables |
| `BatchBody.EntriesDistinct` | src/github.rs:993-1007 | no variable is numbered twice, and there are two per repository and two per branch |
| `BatchBody.InsertedKeepsAll` | src/github.rs:997-1007 | inserting them overwrites none, and the map holds nothing else |
| `BatchBody.VariablesAreComplete` | src/github.rs:992-1029 | the variables map has exactly two entries per repository and two per branch, each with the value its name stands for |
| `BodyText.ReadEscaped` | src/github.rs:1036-1040 | an escaped character is read back as itself by the rules of section 7 of RFC 8259 |
| `BodyText.EscapeIsShortest` | src/github.rs:1036-1040 | no text that these rules read as that character is shorter |
| `BodyText.JsonObjectInjective` | src/github.rs:1036-1040 | the serialized variables determine the map: escaping is undone and the text can be cut in only one way |
| `BodyText.SameBodyIffSameQuestion` | src/github.rs:987-1041 | two batches have the same body if and only if they name the same repositories and branches in the same order |
| `QueryReader.BodyAsks` | src/github.rs:987-1041 | read as JSON and then as a query in which each `$name` stands for its variable, the body asks for every repository under `repo_i` by its own owner and name, and for every branch under `pr_ri_bj` by its name as the head and under `ref_ri_bj` by `refs/heads/` and its name; every variable used is declared as `String!`, once, and has a value |
| `BodySize.VariablesBytes` | src/github.rs:1036-1039 | the serialized variables take one byte plus the sum of the entries' shares, in whatever order keys are written |
| `Text.BytesIsUtf8` | src/github.rs:967-969 | the size that is counted is the length of the UTF-8 text, which reads back character by character |
| `BodySize.BodyBytes` | src/github.rs:987-1041 | the body's size is a constant plus one share per repository |
| `BodySize.RepoCostGrows` | src/github.rs:993-1028 | a repository's share never shrinks when its index grows |
| `BodySize.BodyShrinks` | src/github.rs:966-972 | dropping repositories before and after a stretch and renumbering it from zero never makes the body longer |
| `Packing.SendableInside` | src/github.rs:966-972 | any consecutive piece of a chunk that may be sent may be sent |
| `Packing.PackRemoteQueries` | src/github.rs:959-985 | chunks concatenate to the input, none is empty, each of two or more repositories has at most 32 branches and 65536 bytes, each with the first repository of the next one has more of either, and no other order-preserving partition into such chunks has fewer |
| `Packing.GreedyStaysAhead` | src/github.rs:964-980 | a full cut of what is left needs no more chunks than any cut that is not further along |
| `Packing.FullPartitionIsUnique` | src/github.rs:964-984 | there is only one partition in which no chunk has room for the next repository |
| `Execute.ParseRemoteQuery` | src/github.rs:1125-1171 | the loops over branches and errors read one repository's answers as specified by alias |
| `Execute.ExecuteChunk` | src/github.rs:1078-1094 | one outcome per repository and at most one call more than there are repositories; which calls those are is `FallsBackIff` |
| `Execute.RejectedIff` | src/github.rs:1102-1116 | a reply is rejected if and only if there is none, it has no data, or some error with no segment closingIssuesReferences has an empty path or one whose first segment is none of repo_0 to repo_(n-1) |
| `Execute.FallsBackIff` | src/github.rs:1078-1123 | an accepted reply is read after that one call; a rejected one of several repositories is followed by one call for each alone, to its own host, in exactly that case, and one rejected alone gives nothing |
| `Execute.ReadsByName` | src/github.rs:1125-1171 | repository i has an outcome if and only if repo_i is an object in the data and no error has just that path; branch j is in it if and only if pr_ri_bj and ref_ri_bj are there and can be read and no error, but for closing issues, names either under repo_i |
| `Execute.ParseGivesMeaning` | src/github.rs:1125-1171 | a repository's outcome does not depend on the index it was numbered with |
| `Execute.ChunkGivesMeaning` | src/github.rs:1078-1123 | whether the combined query was answered or rejected, the i-th outcome is what the server says about repository i |
| `Execute.BatchedEqualsAlone` | src/github.rs:1078-1123 | the i-th outcome of a chunk equals the outcome of querying repository i alone |
| `Execute.RejectedGivesNone` | src/github.rs:1084-1092 | a repository whose combined and own queries are both rejected gets no outcome |
| `Execute.OtherRepositoriesUnaffected` | src/github.rs:1102-1161 | an error whose path starts at repository i keeps the reply accepted or rejected as it was if the chunk has repository i, rejects it if not, and in an accepted reply changes no other repository's outcome |
| `Execute.BranchErrorRemovesOneBranch` | src/github.rs:1102-1161 | an error at repository i, branch j of a chunk rejects no reply, removes that branch's answer from outcome i, and changes nothing else |
| `Execute.RepoErrorRemovesOneRepository` | src/github.rs:1133-1141 | a one-segment error removes its repository and leaves every other outcome |
| `Execute.NullRemovesOneRepository` | src/github.rs:1131-1141 | a null repository value removes its repository and leaves every other outcome |
| `Execute.ClosingIssuesErrorsRemoveNothing` | src/github.rs:676-681 | an error under closingIssuesReferences changes no outcome and rejects no reply |
| `Execute.CollectDistinct` | src/github.rs:1144-1168 | with distinct branch names the answered map has exactly the branches that parsed, each with its own summary |
| `Batch.AddRequest` | src/github.rs:895-917 | a request that resolves joins its remote's entry and no other; one that does not is skipped; branch lists stay the union of their locals' |
| `Batch.GroupByRemote` | src/github.rs:893-917 | every remote's locals are exactly the requests that resolve to it, and it is spelled as the first of them is |
| `Batch.OneRemoteIff` | src/github.rs:900-904 | two repositories are grouped as one remote if and only if host, owner and name agree but for the case of the letters |
| `Text.LowerHasNoCapitals` | src/github.rs:900-904 | what is compared holds none of the letters A to Z |
| `Batch.PreparedIsMerged` | src/github.rs:921-922 | after sorting and removing duplicates the branch list is strictly sorted and still the union |
| `Text.LessIff` | src/github.rs:921-922 | texts are sorted by the code point at which they first differ, the shorter first if there is none |
| `Batch.PreparedIsAsked` | src/github.rs:895-922 | a remote's branch list is, in order, exactly the branches that the requests resolving to it ask for |
| `Batch.GroupByHost` | src/github.rs:919-927 | every remote, prepared, stands exactly once, in the list of its own host |
| `Batch.ChunkAnswers` | src/github.rs:1078-1123 | in every chunk a repository's outcome is what it is told at a call that neither refuses nor drops it, and none only if it is unknown or some call does, whatever happens to the others |
| `Batch.DistributeOne` | src/github.rs:933-953 | each local of a remote gets the outcome restricted to the branches it asked for, and nothing when that is empty |
| `Batch.RunChunk` | src/github.rs:931-954 | a chunk's outcomes serve exactly the locals of its remotes that were answered, with at most one call more than it has repositories; for any server, they are about branches its locals asked for |
| `Batch.RunHost` | src/github.rs:930-955 | a host's remotes are all served, wherever the chunk boundaries fall, in at most as many calls as it has repositories and any partition of them has chunks |
| `Batch.ListBranchSummariesBatch` | src/github.rs:890-957 | for any server every outcome is some request's, about branches it asked for, after at most two calls per remote; for one that answers by repository, every outcome is what its request's own remote was told for its branches, and a request gets none only for a fault or lack of answers of its own |
| `Batch.DistinctKeysGetTheirOwn` | src/github.rs:943-951 | with distinct repository keys a request gets a part of its remote's answers for its branches: with each branch never lost and none always lost, something if its remote is never hindered and a branch never lost, nothing if its remote always is |
| `Batch.FaultlessIsComplete` | src/github.rs:890-957 | with distinct repository keys, a request whose own remote and branches meet no fault gets exactly its remote's answers for its branches |
| `Server.RespondsToChunk` | src/github.rs:1096-1123 | a server that sees only call, host and body can refuse exactly the chunks that hold a refused repository and answer every other repository by repository, with an error for each dropped repository and lost branch |
| `Server.FaithfulServersExist` | src/github.rs:1074-1123 | for every content of the server and every pattern of faults there is one that the end-to-end theorem is about |
| `Timestamp.ParseGithubTimestamp` | src/github.rs:147-184 | the year and month loops compute the closed-form day count, too large by the days before 1970 for an earlier year, and never a negative time |
| `Timestamp.FieldsReadIff` | src/github.rs:149-162 | a text has fields if and only if, trimmed, it is a four-character year, two-character fields with the separators of the layout between them, anything, and a Z, each field a number; the fields are these numbers |
| `Text.TrimDropsSpaces` | src/template.rs:258-286 | trimming a text between white space gives the text: spaces, tabs, line feeds, vertical tabs, form feeds and carriage returns |
| `Text.UnsignedIff` | src/github.rs:157-162 | a text is read as a number exactly when it is one or more digits, with a plus sign or without, and then as their value |
| `Timestamp.RightExactlyFrom1970` | src/github.rs:170-181 | for a date that exists the result is the Unix time if and only if the year is at least 1970 |
| `Timestamp.NonexistentDayCollides` | src/github.rs:164-181 | every accepted day past the end of its month has the seconds of an existing day, at most the third, of the next month |
| `Timestamp.NonexistentTextCollides` | src/github.rs:157-183 | for every such day from 1970 on there are two different texts with one result |
| `Timestamp.OwnDateIff` | src/github.rs:157-183 | for every text in range, the result read back is the text's own date if and only if the year is at least 1970 and the day is within its month |
| `Timestamp.February31IsMarch3` | src/github.rs:164-166 | the texts 2026-02-31T00:00:00Z and 2026-03-03T00:00:00Z have one result |
| `Timestamp.NextYear` | src/github.rs:171-188 | the leap rule gives each year its length in the closed form |
| `Timestamp.StrictlyIncreasing` | src/github.rs:183 | on dates that exist the seconds are smaller exactly when the date and time are earlier |
| `Timestamp.CivilOfIsRight` | src/github.rs:168-183 | every second from the epoch on is the time of the date the inverse gives, and that date exists |
| `Timestamp.CivilOfUndoes` | src/github.rs:168-183 | the inverse gives back every existing date from 1970 on |
| `Timestamp.FormatParses` | src/github.rs:147-184 | printing any existing date up to year 9999 in the RFC 3339 layout and parsing it gives its fields back, and its Unix time if and only if the year is at least 1970 |
| `Checks.AggregateChecks` | src/github.rs:191-293 | the single pass gives no state, success, or the failure or pending state whose two numbers are how many checks have which literal statuses and conclusions, counted as index sets, and the metadata the specification names |
| `Checks.KindIs` | src/github.rs:216-238 | a check counts as passed, failed, skipped or pending if and only if its literal status and conclusion say so, in that order, and otherwise not at all |
| `Checks.CountsAre` | src/github.rs:216-241 | each count is the number of positions at which a check has such a status and conclusion |
| `Checks.MetaIs` | src/github.rs:260-290 | while a check is pending the metadata has the earliest start of the pending checks, or of all if none of these has one; after a failure the earliest start and the time since, never negative; there is none exactly when there is nothing to tell |
| `Checks.EveryCheckCountedOnce` | src/github.rs:216-238 | passed, failed, pending, skipped and ignored add up to the number of checks |
| `Checks.CountsAdd` | src/github.rs:205-239 | counts of a concatenation are sums |
| `Checks.StatePrecedence` | src/github.rs:241-258 | failure beats pending beats success; skipped checks alone are a success; only ignored checks give no state |
| `Checks.PermutationsAgree` | src/github.rs:205-239 | counts and earliest starts are the same for every order of the same checks |
| `Checks.StateIgnoresOrder` | src/github.rs:252-290 | the state, and all of the metadata but the failing name, depend only on the multiset of checks |
| `Checks.NameIgnoresOrderIff` | src/github.rs:223-225 | every order of the same checks gives the same failing name if and only if all failed checks that have a name have the same one |
| `Checks.MetaIgnoresOrderIff` | src/github.rs:260-290 | every order gives the same metadata in exactly the same case |
| `Checks.NameDependsOnOrder` | src/github.rs:223-225 | two orders of two failed checks with different failing names |
| `Checks.EarliestIsMinimum` | src/github.rs:232-235 | the earliest start is the minimum over the checks considered, and missing exactly when none has a start |
| `Checks.FirstFailingNameIsFirst` | src/github.rs:223-225 | the failing name is that of the first failed check that has one |
| `Paths.NormalizePath` | src/util.rs:103-124 | the loop over components leaves the stack the specification describes |
| `Paths.ComponentsLead` | src/util.rs:105 | the components of a path string lead where its parts do: from the root if it starts with a slash, and else from the directory, an empty part and a dot stay, two dots go up, and any other part goes down |
| `Paths.NormalizeSpellsForm` | src/util.rs:103-124 | that stack spells a root with names or a number of steps up with names |
| `Paths.NormalizeKeepsMeaning` | src/util.rs:100-124 | a path and its normalization lead to the same place from every directory |
| `Paths.NormalizeGivesNormalForm` | src/util.rs:100-124 | the result is a root or leading parent steps followed by names only, and normalizing again changes nothing |
| `Paths.FormsAreMeanings` | src/util.rs:106-121 | different normal forms are told apart by some directory |
| `Paths.SameNormalFormIffSameMeaning` | src/util.rs:103-124 | two paths normalize alike if and only if they lead to the same place from every directory |
| `Paths.PathTextParses` | src/util.rs:123 | components written as a path string are read back unchanged |
| `Paths.NormalizeTextIsCanonical` | src/util.rs:103-124 | on path strings, walked part by part: the normalized path leads where the path did from every directory, is in the shortest form and as absolute as before, does not change again, and is one for two paths if and only if they lead to the same place from every directory |
| `Paths.AbsoluteNormalText` | src/util.rs:103-124 | an absolute path is normalized to a slash and the names of the place it leads to, joined with slashes |
| `Paths.NormalTextIsShortest` | src/util.rs:106-121 | the result is a slash or nothing, steps up in a relative path only, and names: no dot, no empty part, no step up after a name |
| `WorktreeDir.Scan` | src/util.rs:180-197 | the cursor loop ends and accepts exactly the templates in which every opening brace begins the placeholder; otherwise it reports the first that does not, with the right error |
| `WorktreeDir.PiecesReassemble` | src/util.rs:157 | cutting at the placeholder and joining with it gives the template back |
| `WorktreeDir.ReplaceKeepsIff` | src/util.rs:157 | replacing leaves a text alone if and only if it holds no placeholder or the name is the placeholder |
| `WorktreeDir.ExpansionInterleavesIff` | src/util.rs:131-201 | an accepted template expands to the home directory it asks for, if any, followed by brace-free pieces of the template with the project name between them, if and only if that directory holds no placeholder or the project has its name |
| `WorktreeDir.HomeIsRewritten` | src/util.rs:199-200 | a template, home directory and project root for which the home directory itself is rewritten |
| `WorktreeDir.ExpandWorktreeDir` | src/util.rs:175-207 | success exactly for accepted templates under a root that has a name; absolute expansions unchanged, relative ones joined and normalized |
| `WorktreeDir.FileNameIs` | src/util.rs:149-157 | a root's name is its last name, whatever slashes and dots follow it, and there is none after a step up or for the root directory |
| `WorktreeDir.AppendFollows` | src/util.rs:205 | walking a joined path is walking its second part from where the first leads, and an absolute second part replaces the first |
| `WorktreeDir.RelativeExpansionIsRooted` | src/util.rs:202-206 | under an absolute root the result is a slash and the names of the place that the expansion, walked part by part, leads to from the place the root is |
| `ShellQuote.ReadEscaped` | src/shell.rs:7-9 | inside quotes, a shell reads the escaped text as the text |
| `ShellQuote.EscapeSpellsQuotes` | src/shell.rs:7-9 | escaping keeps every stretch without a quote and puts a closing quote, an escaped quote and an opening quote for each quote between them |
| `ShellQuote.ReadQuoted` | src/shell.rs:16-27 | a quoted argument is read as one word holding exactly the argument, whatever follows |
| `ShellQuote.QuotingRoundTrips` | src/shell.rs:16-27 | arguments quoted and joined with spaces are split by a shell into exactly those arguments, for every list |
| `ShellQuote.NestedQuotingRoundTrips` | src/shell.rs:7-27 | a command line handed from shell to shell, nested to any depth, reaches the innermost as it was |
| `ShellQuote.CommandLineInjective` | src/shell.rs:16-27 | different lists give different command lines |
| `ShellQuote.UnquotedIffSafe` | src/shell.rs:20-26 | an argument is left as it is if and only if it is not empty and has only letters, digits, hyphens, underscores, dots and slashes, and then it reads back; otherwise it stands, escaped, between single quotes |
| `TmuxStyle.ParseTmuxStyles` | src/tmux_style.rs:10-38 | the scanning loop gives the spans of the token grammar |
| `TmuxStyle.ApplyTmuxDirectives` | src/tmux_style.rs:52-97 | the loop over parts folds them from left to right |
| `TmuxStyle.DirectivesCompose` | src/tmux_style.rs:53-96 | a list of directives is applied as its first part and then its second, wherever it is cut at a comma |
| `TmuxStyle.ResetIs` | src/tmux_style.rs:55-56 | default and none, in any case, give the base style |
| `TmuxStyle.ForegroundIs` | src/tmux_style.rs:57-62 | fg= and a color that can be read changes the foreground to it and nothing else; fg=default takes the base's, and any other text changes nothing |
| `TmuxStyle.BackgroundIs` | src/tmux_style.rs:63-68 | the same for bg= and the background |
| `TmuxStyle.ModifierAdded` | src/tmux_style.rs:69-80 | the name of a modifier, in any case, adds exactly that modifier |
| `TmuxStyle.ModifierRemoved` | src/tmux_style.rs:81-92 | no and the name, in any case, removes exactly that modifier |
| `TmuxStyle.UnknownIgnored` | src/tmux_style.rs:94 | any other part changes nothing |
| `TmuxStyle.PaddedPart` | src/tmux_style.rs:54 | white space around a part does not matter |
| `TmuxStyle.HexColorIff` | src/tmux_style.rs:103-111 | a text is read as the color r, g, b if and only if it is # and three pairs, each two hexadecimal digits of either case with that value, or a plus sign and one |
| `TmuxStyle.RgbReads` | src/tmux_style.rs:103-109 | #RRGGBB reads back for all r, g and b below 256 |
| `TmuxStyle.IndexIff` | src/tmux_style.rs:113-119 | a text is read as the indexed color n if and only if n is at most 255 and the text is colour or color and a number with this value |
| `TmuxStyle.IndexReads` | src/tmux_style.rs:113-119 | colour and color with the decimal number n read back for all n up to 255 |
| `TmuxStyle.NameIff` | src/tmux_style.rs:121-132 | a text is read as one of the eight named colors if and only if it is its name but for case |
| `TmuxStyle.ApplyKeepsDisjoint` | src/tmux_style.rs:69-93 | no modifier is ever both added and removed |
| `TmuxStyle.SpanStylesDisjoint` | src/tmux_style.rs:10-38 | the same for the style of every span |
| `TmuxStyle.LexIsFaithful` | src/tmux_style.rs:15-35 | tokens concatenate to the input; texts are not empty, and directives hold no closing bracket |
| `TmuxStyle.SpansKeepVisibleText` | src/tmux_style.rs:40-49 | span texts are not empty and concatenate to the input with exactly its complete directives removed |
| `TmuxStyle.SpanStyleIsFold` | src/tmux_style.rs:22-25 | each text has the style folded from all directives before it |
| `TmuxStyle.LexComposes` | src/tmux_style.rs:15-31 | a closed prefix, a directive and any rest are scanned independently |
| `TmuxStyle.ResetComposesIffClosed` | src/tmux_style.rs:53-56 | parsing a prefix, a reset and a rest is parsing both parts from the base style, if and only if the prefix is closed |
| `TmuxStyle.StripFixedIffNoDirective` | src/tmux_style.rs:44-49 | stripping changes nothing if and only if there is no complete directive |
| `TmuxStyle.StripIdempotentIff` | src/tmux_style.rs:44-49 | stripping twice is stripping once if and only if no text ending in # meets, over removed directives, a next text starting with [ that a closing bracket follows |
| `TmuxStyle.StripIsNotIdempotent` | src/tmux_style.rs:44-49 | an input on which stripping twice differs from stripping once |
| `Foreach.ParseForeachMatrix` | src/template.rs:253-327 | the loops give the specified rows, or the first segment's error |
| `Foreach.AddColumn` | src/template.rs:258-298 | a segment is accepted if and only if it is blank, or has a colon, a new name and a value, and then adds nothing or that column; otherwise the error is the first that applies of no colon, no name, a name seen before, no values |
| `Foreach.SegmentOutcomeIs` | src/template.rs:258-298 | there is exactly one such outcome per segment |
| `Foreach.ColumnsAcceptedIff` | src/template.rs:257-299 | segments are accepted if and only if each is blank or well formed and no name comes twice |
| `Foreach.AcceptedMatrix` | src/template.rs:301-326 | acceptance means distinct names, trimmed non-empty texts and equal positive lengths, and row i maps each variable to its i-th value and nothing else |
| `Foreach.AcceptedIff` | src/template.rs:253-327 | a text is accepted with given rows if and only if its segments, but for blank ones, spell a matrix with these rows: a name, a colon and values with commas between them, white space around each and blank values allowed, and nothing else dropped; names differ, lengths are equal and positive |
| `Foreach.ErrorIs` | src/template.rs:257-315 | a rejected text is told that it spells no column at all, that its columns have different lengths, or what is wrong with the first segment that does not go with the columns before it |
| `Foreach.PrintParses` | src/template.rs:253-327 | printing a matrix as name:v1,v2;... and parsing it gives the same rows |
| `Foreach.ForeachFromFrontmatter` | src/prompt.rs:104-145 | accepted exactly when there are variables and all lists have one positive length; then row i maps each variable to its i-th value; otherwise the error names the first misfit in key order |
| `Foreach.BothPathsAgree` | src/template.rs:257-326 | whatever the command line accepts, the frontmatter map of the same variables and values gives the same rows |
| `Frontmatter.SumAgainstLength` | src/prompt.rs:60-64 | the line-length sum differs from the true length by one per CRLF and one for an unterminated last line |
| `Frontmatter.LinesRead` | src/prompt.rs:41 | lines are what stands before the endings, which are a newline with a carriage return before it or without, and nothing after an unterminated last line |
| `Frontmatter.BodyIsExactIff` | src/prompt.rs:59-65 | the body is what follows the closing fence if and only if no header line ends in CRLF, or one does and the closing fence is unterminated |
| `Frontmatter.CrLfShiftsBody` | src/prompt.rs:63 | with two CRLF fences the body starts two characters early |
| `Frontmatter.PartsReassemble` | src/prompt.rs:54-66 | without CRLF in the header, a line that trims to ---, the frontmatter, the first line after it that trims to --- or ..., and the body make up the content, also when that line ends it without a newline |
| `Frontmatter.NoFencesNoFrontmatter` | src/prompt.rs:43-73 | there is no frontmatter if and only if the first line does not trim to --- or no later one trims to --- or ..., and then the body is the whole content |
| `GitLabRemote.WebUrlRoundTripsIff` | src/gitlab.rs:19-65 | the web address of a parsed remote reads back as the same repository if and only if its path does not end in .git |
| `GitLabRemote.WebAcceptedIff` | src/gitlab.rs:19-60 | a web address is read if and only if its host is letters, digits, dots, hyphens and a port, not starting with a hyphen, and its path two or more names, no dots alone, of letters, digits, dots, hyphens and underscores; then as the host in lower case with its port, and the path |
| `GitLabRemote.DoubleGitIsLost` | src/gitlab.rs:38-39 | a remote whose web address reads back as another project |
| `GitLabRemote.SpellingsAgree` | src/gitlab.rs:18-69 | with any user, SSH port and tail (a .git or none, and any slashes), the web, credential, ssh and scp spellings of a host and path are read alike, over http as over https: as this project if and only if the tail has its .git or the path does not end in one |
| `ConfigMerge.MergeVecWithPlaceholder` | src/config.rs:3027-3051 | the loop substitutes the global list at each placeholder; a list without one is kept |
| `ConfigMerge.SubstituteAt` | src/config.rs:3027-3051 | at every position an item stays as it is, but for <global>, which becomes the global list |
| `ConfigMerge.SubstituteHolds` | src/config.rs:3038-3043 | the merged list holds the project's items except the placeholder, and the global items exactly when it is asked for |
| `ConfigMerge.SubstituteAssociates` | src/config.rs:3027-3051 | substitution over three lists is associative |
| `ConfigMerge.MergeAssociatesIff` | src/config.rs:3027-3051 | merging three optional lists is associative if and only if the middle one is set, or the last does not ask for it, or nothing stands above |
| `ConfigMerge.ExpandHooks` | src/config.rs:2970-2976 | the hooks are rewritten in place, each on its own |
| `ConfigMerge.ExpandedAt` | src/config.rs:2970-2976 | each hook that trims to <cleanup-node-modules> becomes the script, and no other changes |
| `ConfigMerge.ExpansionCommutesWithMerge` | src/config.rs:2968-2976 | expanding after the merge is the same as expanding each level before it |
| `ConfigMerge.NoCleanupPlaceholderSurvives` | src/config.rs:2968-2976 | no cleanup placeholder is left, from whichever level |
| `ConfigMerge.Merge` | src/config.rs:3134-3143 | never both panes and windows; the project's choice wins, and the global one holds when it makes none |
| `ConfigMerge.MergeAndApplyDefaults` | src/config.rs:2919-2976 | exactly one of panes and windows is set, the project's choice wins, the default panes are the agent's exactly when an agent is asked for or the root has its file, and the hooks are the merged ones, expanded |
| `PaneLayout.ValidatePanesConfig` | src/config.rs:2603-2677 | accepts if and only if no pane has any of the problems and at most one is zoomed; otherwise reports the first problem, in the order of the checks, of the first pane with one, or the number of zoomed panes when no pane has one |
| `PaneLayout.CheckPane` | src/config.rs:2605-2664 | the checks of one pane: a problem is reported if and only if it has one, and then the first in order |
| `PaneLayout.SetupPanes` | src/multiplexer/mod.rs:665-873 | the builder's loop skips later panes without a direction, splits the target or the pane made last, and fails on a target not made yet |
| `PaneLayout.SplitAddsLeaf` | src/multiplexer/mod.rs:704-711 | splitting a target adds the new pane beside each leaf of that label and leaves all other leaves |
| `PaneLayout.PaneIsSplitOff` | src/multiplexer/mod.rs:699-711 | a later pane with a direction ends up second in a split of that direction, beside the pane it targets or else the one made last, and without it the tree is what it was |
| `PaneLayout.UntargetedInOrder` | src/multiplexer/mod.rs:700 | without targets the leaves stand in the order the panes are listed |
| `PaneLayout.ReplayHasOneLeafEach` | src/multiplexer/mod.rs:665-873 | however a list builds, the panes made are the leaves of one binary tree, each exactly once, so a target made before is there to be split |
| `PaneLayout.ReplaysIffBuildable` | src/multiplexer/mod.rs:670-703 | any list builds if and only if no pane with a direction targets one that is not made before it |
| `PaneLayout.DirectedListsBuildIff` | src/config.rs:1161-1165 | when every later pane has a direction, a list builds if and only if each targets an earlier pane |
| `PaneLayout.AcceptedListsReplay` | src/config.rs:2603-2677 | an accepted list always builds, makes every pane, and gives a tree with leaves 0 to n-1 each exactly once and at most one zoomed |
| `PaneLayout.TargetCheckIsExact` | src/config.rs:2655-2665 | among lists that pass the other checks, the target check rejects exactly those that cannot be built and those with a target on the first pane |

## Left out

- Running `gh`, `glab`, `git`, tmux and hooks, locks and files themselves: they are steps, functions or parameters here.
- Decoding: JSON replies and cache files are already parsed values, a branch summary is read by a parameter (`parse`), and YAML frontmatter is a map.
- The field selections of the GraphQL query are a parameter (`Selections`); every law holds for all of them, but that reading the query back needs their text to start with a character that ends a name, as the source's comma and bracket do.
- The GraphQL and REST queries for one repository outside the batch.
- Durability over power loss, and the age test that selects stale temporary files; the model lets any set of other files be deleted when a save stages its own.
- Wrap-around of counters, sizes and times: all numbers are unbounded.
- Non-ASCII white space; slicing of timestamps and line lengths are counted in characters, so they agree with the source's bytes on ASCII. Body sizes do count UTF-8 bytes.
- Windows path prefixes.
- `latest_any_start` in the check aggregator: it is computed and never used.
- Rendering widths and `truncate_with_ellipsis`, slugs, template contexts and worktree specifications.
- The nearest-configuration search and the merging of every other configuration field, which is one branch each.
- GitLab calls and merge request metadata; only reading a remote is modelled.
