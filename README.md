# ActiveDocumentation ast-grep extension: a Dafny model of its core

This project models the core of the ActiveDocumentation VS Code extension built
on ast-grep. The extension checks design rules against a workspace. A rule pairs
a *quantifier* pattern with a *constraint* pattern. A quantifier match that some
constraint match equals *satisfies* the rule; every other quantifier match
*violates* it. The rule table is read from a JSON file in the workspace and
published over a WebSocket hub. The hub keeps the latest message under each
topic key and replays it to every client.

The model has one Dafny module per core file:

- `AstGrepUtilities` (`ast_grep_utilities.dfy`): the three-entry language map
  and its lookup.
- `RuleExecutor` (`rule_executor.dfy`): runs one pattern on a source, turns
  nodes into snippets, and splits quantifier matches into satisfied and
  violated. Parsing and `findAll` are foreign; they enter as a
  `MatchProvider` whose `None` stands for a throw. `areNodesEqual` enters as a
  function parameter. The split is an imperative loop proved against the
  function `Classify`.
- `WebSocket` (`web_socket_manager.dfy`): the hub as a class.
  - `clients` is a duplicate-free sequence, because a JavaScript `Set`
    iterates in insertion order.
  - `messageQueue` is a map, and the key order lives in a separate `keys`
    sequence.
  - Every `send` is appended to a ghost log, `sent`, so each method's contract
    states exactly which messages reach which clients, in order.
- `ChangedRules` (`changed_rules.dfy`): `getChangedRules` of
  src/ruleManager.ts. It is three loops, proved equal to the function
  `ChangedRulesOf`, whose meaning is then proved as membership lemmas.
- `RuleTableManager` (`rule_table_manager.dfy`): the rule-table holder as a
  class.
  - The read and parse of the table file enter as a
    `Result<seq<Rule>, string>`.
  - `createWebSocketMessage` is a function the manager is given.
  - Each error message shown to the user goes to a ghost log.
  - The static `instance` is an `InstanceSlot` object.
- `VsCodeUtilities` (`vs_code_utilities.dfy`): path and content helpers over an
  abstract `FileSystem`. A path missing from the `stat`, `contents` or
  `listings` map makes that call fail.
- `RuleTypes` (`rule_types.dfy`) and `Wrappers` (`wrappers.dfy`) hold the
  shared records and `Option`/`Result`.

The asynchronous operations are modelled as one atomic step each. The
constructor of the rule-table holder starts a read that completes later. That
completion is the same callback as `handleFileChange`'s, so it is modelled by
the same `HandleFileChange` step; until then `rules` is empty.

Two places where the repository's own text suggests one behaviour and its
code does another; the model follows the code:

- In `getFileOrDirectoryContent`, the catch block
  (src/vsCodeUtilities.ts:77-80) suggests that every error yields
  `[{relativePath, source: ""}]`. But a failing read of a directory child is
  not caught: `return Promise.all(...)` at src/vsCodeUtilities.ts:72 returns
  the promise without awaiting it, so the returned promise rejects.
  `GetFileOrDirectoryContent` returns `Rejected` there.
- The rule type (src/core/ruleProcessor/types.ts:15) declares a single
  `snippets` list per result. The executor produces `satisfiedSnippets` and
  `violatedSnippets`, and the model follows the executor.

## Model

| member | source | states |
|---|---|---|
| AstGrepUtilities.GetLangFromString | src/core/astGrep/astGrepUtilities.ts:4-12 | defined exactly for "JavaScript", "Java" and "Python", which map to the languages of the same names |
| AstGrepUtilities.LookupInvertsName | src/core/astGrep/astGrepUtilities.ts:4-12 | a name looks up a language iff it is exactly that language's key (case-sensitive, exact match) |
| AstGrepUtilities.UnknownNamesAreUndefined | src/core/astGrep/astGrepUtilities.ts:10-12 | "", "CSharp", "Ruby" and "javascript" give no language |
| RuleExecutor.ExecuteRuleOnAstRoot | src/core/astGrep/ruleExecutor.ts:32-41 | the matches `findAll` returns, or no matches when it throws |
| RuleExecutor.ExecuteRuleOnSource | src/core/astGrep/ruleExecutor.ts:11-23 | empty source gives no matches; a failed parse gives no matches; any match comes from a successful parse and search of that source |
| RuleExecutor.EmptySourceIgnoresProvider | src/core/astGrep/ruleExecutor.ts:12-14 | on empty source the result is [] whatever the parser and matcher do, so neither is consulted |
| RuleExecutor.GetSnippetFromSgNode | src/core/astGrep/ruleExecutor.ts:48-55 | the snippet carries the node's text, and its line, column and offset spans are the node's range |
| RuleExecutor.SnippetIdentifiesSpan | src/core/astGrep/ruleExecutor.ts:48-55 | two nodes give the same snippet iff they have the same text and range |
| RuleExecutor.SnippetsOf | src/core/astGrep/ruleExecutor.ts:98-103 | one snippet per node, the i-th being the i-th node's snippet |
| RuleExecutor.GetSatisfiedAndViolatedNodes | src/core/astGrep/ruleExecutor.ts:63-81 | the loop's lists equal the `Classify` partition; the mismatch note is emitted iff the satisfied count differs from the constraint count, and it does not change the result |
| RuleExecutor.PartitionIsComplete | src/core/astGrep/ruleExecutor.ts:67-74 | every quantifier node lands in one list: the lengths add up to the input length and the multisets add up to the input's multiset |
| RuleExecutor.FilteredMembership | src/core/astGrep/ruleExecutor.ts:67-73 | a node is satisfied iff it is a quantifier node that some constraint node equals, and violated iff it is one that none equals |
| RuleExecutor.PartitionIsDisjoint | src/core/astGrep/ruleExecutor.ts:67-74 | no node is both satisfied and violated |
| RuleExecutor.FilteredKeepsOrder | src/core/astGrep/ruleExecutor.ts:67-74 | each list is embedded in the quantifier nodes at strictly increasing positions, so relative order is kept |
| RuleExecutor.NoConstraintsAllViolated | src/core/astGrep/ruleExecutor.ts:67-74 | with no constraint nodes, nothing is satisfied and all quantifier nodes are violated, in order |
| RuleExecutor.NoQuantifiersNothingToReport | src/core/astGrep/ruleExecutor.ts:67-74 | with no quantifier nodes both lists are empty |
| RuleExecutor.OneOfTwoSatisfied | src/core/astGrep/ruleExecutor.ts:67-74 | for distinct nodes a, b with constraint [a], compared by equality, a is satisfied and b violated |
| RuleExecutor.GetSatifiedAndViolatedResults | src/core/astGrep/ruleExecutor.ts:91-105 | the i-th satisfied (violated) snippet is the snippet of the i-th satisfied (violated) node of the quantifier matches; their counts sum to the number of quantifier matches; empty source gives two empty lists |
| WebSocket.Socket.Close | src/websocket/webSocketManager.ts:92-96 | a closed client is no longer open |
| WebSocket.Without | src/websocket/webSocketManager.ts:35-38 | the result holds exactly the clients other than the closing one and stays duplicate-free |
| WebSocket.WebSocketManager.constructor | src/websocket/webSocketManager.ts:9-16 | a new hub has no clients, an empty queue and has sent nothing |
| WebSocket.WebSocketManager.SendQueuedMessagesToClient | src/websocket/webSocketManager.ts:41-51 | an open client is sent every non-null queued message in key order; a client that is not open is sent nothing |
| WebSocket.WebSocketManager.SendMessagesToAllClients | src/websocket/webSocketManager.ts:53-57 | the log grows by the replay to each client in registration order |
| WebSocket.ReplayToAllStep | src/websocket/webSocketManager.ts:53-57 | replaying to one more client appends exactly that client's replay |
| WebSocket.WebSocketManager.OnConnection | src/websocket/webSocketManager.ts:22-25 | the client is registered once (a known client keeps its place) and receives the replay of the queue |
| WebSocket.WebSocketManager.OnClientClose | src/websocket/webSocketManager.ts:35-38 | the client is removed from the registry and every other client stays registered |
| WebSocket.WebSocketManager.SendMessageToClient | src/websocket/webSocketManager.ts:59-64 | one send when the client is open, none otherwise |
| WebSocket.WebSocketManager.Broadcast | src/websocket/webSocketManager.ts:70-74 | each open client, in registration order, is sent the message once; nothing is queued |
| WebSocket.WebSocketManager.QueueMessage | src/websocket/webSocketManager.ts:80-83 | the key now holds the message (a new key goes last, an existing key keeps its place), then every client receives the replay of the updated queue |
| WebSocket.WebSocketManager.Close | src/websocket/webSocketManager.ts:88-106 | every client that was open is asked to close, in order, all clients end closed, and the server is closed once |
| WebSocket.QueuedMessagesAppend | src/websocket/webSocketManager.ts:43-49 | the replay of concatenated key lists is the concatenation of their replays |
| WebSocket.QueuedMessagesMembership | src/websocket/webSocketManager.ts:43-49 | a message is replayed iff some listed key holds it |
| WebSocket.QueuedMessagesOnePerKey | src/websocket/webSocketManager.ts:43-49 | when every key holds a message, the replay is exactly one message per key in key order |
| WebSocket.QueuedMessagesOtherKey | src/websocket/webSocketManager.ts:80-81 | updating a key outside the list leaves the replay unchanged |
| WebSocket.QueueNewKey | src/websocket/webSocketManager.ts:80-81 | queueing under a new key appends its message at the end of the replay |
| WebSocket.QueueExistingKey | src/websocket/webSocketManager.ts:80-81 | queueing under an existing key replaces its message in place |
| WebSocket.LatestPerKey | src/websocket/webSocketManager.ts:80-81 | after queueing m under a listed key, a message is replayed iff it is m or another listed key holds it: only the latest message per key survives |
| WebSocket.ReplayReachesEachOpenClient | src/websocket/webSocketManager.ts:41-57 | after a replay to all, each client has received the queued messages in key order if it is open, and nothing if not |
| WebSocket.OpenClientsAreOpen | src/websocket/webSocketManager.ts:71-73 | the clients a broadcast reaches are exactly the registered open ones, each once |
| WebSocket.BroadcastReachesEachOpenClient | src/websocket/webSocketManager.ts:70-74 | a broadcast sends exactly one copy to each open registered client and none to any other |
| ChangedRules.GetChangedRules | src/ruleManager.ts:69-88 | the loops compute `ChangedRulesOf`: removed or changed old rules in old order, then brand-new rules in new order |
| ChangedRules.RulesByIdIsLastOccurrence | src/ruleManager.ts:71 | an id is in the lookup map iff some new rule has it, and it maps to the last such rule |
| ChangedRules.RulesByIdUnique | src/ruleManager.ts:71 | with unique ids every rule is found under its own id |
| ChangedRules.OldRuleEntriesMembership | src/ruleManager.ts:73-78 | the first pass reports exactly the old rules whose id is gone, and the new versions of the old rules that changed |
| ChangedRules.BrandNewRulesMembership | src/ruleManager.ts:81-85 | the second pass reports exactly the new rules whose id no old rule has |
| ChangedRules.ChangedRulesMembership | src/ruleManager.ts:69-88 | a rule is reported iff it is removed, is the last new version of a changed rule, or is brand new |
| ChangedRules.OldRuleEntriesNone | src/ruleManager.ts:73-78 | if every old rule is found unchanged, the first pass reports nothing |
| ChangedRules.BrandNewRulesNone | src/ruleManager.ts:81-85 | if every new id is already old, the second pass reports nothing |
| ChangedRules.NoChangeReportsNothing | src/ruleManager.ts:69-88 | identical lists with unique ids give no changes |
| ChangedRules.UpdatedRemovedAdded | src/test/ruleManager.test.ts:31-54 | old [1,2,3] and new [1, updated 2, 4] give [updated 2, 3, 4] |
| ChangedRules.SuiteOldEntries | src/test/ruleManager.test.ts:31-54 | in that example the pass over the old rules reports updated 2, then the removed 3 |
| ChangedRules.SuiteBrandNew | src/test/ruleManager.test.ts:31-54 | in that example the pass over the new rules reports only 4 |
| ChangedRules.RepeatedIdUsesLast | src/ruleManager.ts:71-77 | when the new list repeats an id, the changed rule is reported as its last occurrence |
| RuleTableManager.ReadRuleTable | src/core/ruleProcessor/ruleManager.ts:48-58 | a successful read gives the parsed table unchanged and no message; a failure gives [] and exactly one error message carrying the error |
| RuleTableManager.InstanceSlot.constructor | src/core/ruleProcessor/ruleManager.ts:13 | no instance exists at first |
| RuleTableManager.RuleManager.constructor | src/core/ruleProcessor/ruleManager.ts:14-29 | a new manager holds its workspace folder and hub and has no rules until its first read completes |
| RuleTableManager.RuleManager.GetInstance | src/core/ruleProcessor/ruleManager.ts:37-42 | the first call creates a fresh manager from its arguments (folder, hub and message encoder); every later call returns that same manager and ignores its arguments |
| RuleTableManager.RuleManager.SendRules | src/core/ruleProcessor/ruleManager.ts:70-73 | one queueing under "RULE_TABLE" of the encoding of command "RULE_TABLE" with the current rules, which the hub then replays to all clients |
| RuleTableManager.RuleManager.HandleFileChange | src/core/ruleProcessor/ruleManager.ts:63-68 | `rules` is replaced wholesale by what the read yields, any error message is shown, and the new table is queued under "RULE_TABLE" and replayed |
| RuleTableManager.PublishedTableIsReplayed | src/core/ruleProcessor/ruleManager.ts:70-73 | once the table is queued under "RULE_TABLE", it is among the messages a connecting client receives |
| VsCodeUtilities.JoinPath | src/vsCodeUtilities.ts:37 | an empty segment adds nothing; otherwise base and segment are joined by one separator |
| VsCodeUtilities.JoinPathAssociative | src/vsCodeUtilities.ts:57-68 | joining a child onto a joined directory equals joining the combined relative path onto the workspace |
| VsCodeUtilities.GetRelativePathAsWritten | src/vsCodeUtilities.ts:16-24 | a path starting with the workspace path loses that prefix and one more character (empty when nothing is left); any other path is unchanged |
| VsCodeUtilities.SiblingFolderIsCut | src/vsCodeUtilities.ts:20-21 | "/wsx/a.js" lies outside workspace "/ws", yet the code as written gives "/a.js"; the corrected helper returns it unchanged |
| VsCodeUtilities.GetRelativePath | src/vsCodeUtilities.ts:16-24 | the workspace itself gives ""; a path below it gives the non-empty rest after the separator, which rejoined gives the path; a path outside it is unchanged |
| VsCodeUtilities.CorrectionAgreesInside | src/vsCodeUtilities.ts:20-23 | on the workspace and every path below it the corrected helper and the code as written agree |
| VsCodeUtilities.RelativeOfJoined | src/vsCodeUtilities.ts:16-24 | relativising the workspace joined with a relative path gives that relative path back |
| VsCodeUtilities.JoinedOfRelative | src/vsCodeUtilities.ts:16-24 | joining the relative path of a path inside the workspace onto the workspace gives the path back |
| VsCodeUtilities.ChildPathAgrees | src/vsCodeUtilities.ts:68-70 | for a workspace path that is non-empty with no trailing separator, the corrected and the as-written helper agree on a directory child's path, and both give the directory's relative path joined with the child's name |
| VsCodeUtilities.EmptyWorkspaceCutsChild | src/vsCodeUtilities.ts:20-21 | with an empty workspace path the code as written turns child "src/a.js" into "rc/a.js", while the corrected helper keeps "src/a.js" |
| VsCodeUtilities.GetSourceFromRelativePath | src/vsCodeUtilities.ts:33-44 | the content of the file at the joined path, or "" when it cannot be read |
| VsCodeUtilities.FileNamesAppend | src/vsCodeUtilities.ts:65-66 | filtering a concatenated listing is the concatenation of the filtered parts, so listing order is kept |
| VsCodeUtilities.FileNamesMembership | src/vsCodeUtilities.ts:65-66 | a name is kept iff the listing has it as a file |
| VsCodeUtilities.NonFileEntriesIgnored | src/vsCodeUtilities.ts:65-66 | a non-file entry, first or last, adds nothing to the names read |
| VsCodeUtilities.ReadFiles | src/vsCodeUtilities.ts:67-72 | when all reads succeed there is exactly one entry per file name |
| VsCodeUtilities.ReadFilesRejects | src/vsCodeUtilities.ts:67-72 | the combined reads reject iff some child cannot be read |
| VsCodeUtilities.ReadFilesEntry | src/vsCodeUtilities.ts:67-70 | when the reads succeed, the i-th entry is the i-th name's child: its workspace-relative path and its content |
| VsCodeUtilities.ReadFilesEntries | src/vsCodeUtilities.ts:67-72 | when the reads succeed, every child was readable and the entries follow the names in order |
| VsCodeUtilities.GetFileOrDirectoryContent | src/vsCodeUtilities.ts:53-81 | a file gives one entry with its content or ""; a directory gives its file children's entries in listing order, or rejects when a child read fails; anything else, or a failing stat or listing, gives one entry with "" |
| VsCodeUtilities.FileAgreesWithGetSource | src/vsCodeUtilities.ts:60-62 | for a file the single entry's source is what `getSourceFromRelativePath` reads |
| VsCodeUtilities.DirectoryEntriesAreWorkspaceRelative | src/vsCodeUtilities.ts:67-70 | each directory entry's path is the directory's relative path joined with the child's name, and its source the child's content |
| VsCodeUtilities.DirectoryScenario | src/vsCodeUtilities.ts:63-72 | a folder holding a.js, a subdirectory and b.js gives entries for src/a.js and src/b.js in that order |

## Left out

- Transport: the `ws` server, event-callback wiring, `readyState` constants beyond open/not-open, the `server.close` callback and its logging. Only the effects on the registry, the queue and the send log are modelled.
- Message encoding: `JSON.stringify` in `createWebSocketMessage` is a function given to the manager, and `JSON.parse` of the table file is part of the read input. The source does not check the parsed shape, so a table that parses to something other than a rule list has no counterpart.
- `getChangedRules` compares rules with `JSON.stringify`, which the model takes as structural equality of the whole rule. Key-order sensitivity of that comparison is not modelled.
- Object key order: `Object.keys` lists integer-like keys first. The model replays keys in insertion order, which is what the string topic keys of this hub get.
- JavaScript prototype keys: looking up `"toString"` in the language map yields an inherited member. The model's map has exactly the three declared keys.
- Asynchrony: each promise chain is one atomic step; interleavings of concurrent reads are not modelled.
- Paths: `Uri.joinPath` normalisation (`.`, `..`, repeated or trailing separators), Windows separators and a workspace at the filesystem root are not modelled. The round-trip lemmas assume a workspace path that is non-empty and has no trailing separator.
- File types: `FileType` bit flags and symbolic links are folded into `Other`. `TextDecoder` is taken as the `contents` map.
- VsCodeUtilities.GetFileOrDirectoryContent: the rejection carries no error value, and the console messages of its error paths are not modelled.
- RuleExecutor.GetSatisfiedAndViolatedNodes: the mismatch note is returned as a boolean instead of being written to the console.
- The older wrapper-only executor src/codeProcessing/ruleExecutor.ts, the save-event hooks (src/fileManager.ts, src/FileChangeManager.ts), activation (src/extension.ts) and the demo src/core/astGrep/example.ts are not part of this model.
- The rest of the older src/ruleManager.ts (its own singleton and read of the table) is not part of this model; only `getChangedRules` is.
- `areNodesEqual`'s body is not among the source files, so it is a parameter of the classification.
- src/test/core/ruleProcessor/ruleManager.test.ts stubs `isValidRule` and `executeRules`, calls `getInitialRuleTable` and `updateRuleTable`, and expects a table that is not an array to be rejected. src/core/ruleProcessor/ruleManager.ts defines none of these, so the model has no counterpart for rule validation or for evaluating rules over their files and folders.
- VsCodeUtilities.GetFileOrDirectoryContent: a directory child's entry path uses the corrected `GetRelativePath`. `ChildPathAgrees` proves it equals the code as written for every workspace path that is non-empty and has no trailing separator. For an empty workspace path the code as written drops one more character (`EmptyWorkspaceCutsChild`), and the model does not follow it there.

## Findings

| source | as written | input that shows it | evidently intended | confidence | as-written member | corrected member |
|---|---|---|---|---|---|---|
| src/vsCodeUtilities.ts:20-21 | `startsWith(workspacePath)` accepts any path whose text begins with the workspace path, and `slice(length + 1)` then drops one more character | workspace "/ws", file "/wsx/a.js" gives "/a.js" | only a path equal to the workspace or followed by a separator and a non-empty rest is relativised, as the comment on the trailing separator says; others are returned unchanged (the workspace path with only a trailing separator, "/ws/", is among them: the correction returns it unchanged where the code gives "") | medium, not executed | VsCodeUtilities.GetRelativePathAsWritten, VsCodeUtilities.SiblingFolderIsCut | VsCodeUtilities.GetRelativePath, VsCodeUtilities.CorrectionAgreesInside |
