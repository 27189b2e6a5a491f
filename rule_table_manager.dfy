/** The rule-table holder of src/core/ruleProcessor/ruleManager.ts: one
    `rules` field, replaced wholesale whenever the rule table has been read,
    and then published to the hub under the `RULE_TABLE` key. Reading the file
    and parsing its JSON are foreign and enter as an input; JSON encoding of
    the outgoing message is a function the holder is given. */
module RuleTableManager {
  import opened Wrappers
  import opened RuleTypes
  import opened WebSocket

  /** The message `showErrorMessage` displays when the rule table cannot be
      read or parsed; it carries the error's description. */
  datatype ErrorMessage = ErrorReadingRuleTable(error: string)

  /** What `readRuleTable` yields: the rules, and the error messages it showed. */
  datatype ReadOutcome = ReadOutcome(rules: seq<Rule>, shownErrors: seq<ErrorMessage>)

  /** `readRuleTable`, given the outcome of reading and parsing the file
      (`Err` when either throws). It never fails: an error gives no rules and
      one error message. */
  function ReadRuleTable(read: Result<seq<Rule>, string>): (r: ReadOutcome)
    ensures read.Ok? ==> r.rules == read.value && r.shownErrors == []
    ensures read.Err? ==> r.rules == [] && r.shownErrors == [ErrorReadingRuleTable(read.error)]
  {
    match read
    case Ok(rules) => ReadOutcome(rules, [])
    case Err(error) => ReadOutcome([], [ErrorReadingRuleTable(error)])
  }

  /** The static `RuleManager.instance` slot. */
  class InstanceSlot {
    var instance: RuleManager?

    constructor ()
      ensures instance == null
    {
      instance := null;
    }
  }

  class RuleManager {
    var rules: seq<Rule>
    const workspaceFolder: string
    const webSocketManager: WebSocketManager
    /** `createWebSocketMessage` (JSON of `{command, data}`). */
    const createWebSocketMessage: (string, seq<Rule>) -> string
    /** Every error message shown to the user, in order. */
    ghost var shownErrors: seq<ErrorMessage>

    ghost predicate Valid()
      reads this, webSocketManager
    {
      webSocketManager.Valid()
    }

    /** The private constructor. Its read of the rule table completes later
        (as a `HandleFileChange` step), so until then `rules` is empty. */
    constructor (workspaceFolder: string, webSocketManager: WebSocketManager,
                 createWebSocketMessage: (string, seq<Rule>) -> string)
      requires webSocketManager.Valid()
      ensures Valid()
      ensures rules == [] && shownErrors == []
      ensures this.workspaceFolder == workspaceFolder && this.webSocketManager == webSocketManager
      ensures this.createWebSocketMessage == createWebSocketMessage
    {
      this.workspaceFolder := workspaceFolder;
      this.webSocketManager := webSocketManager;
      this.createWebSocketMessage := createWebSocketMessage;
      rules := [];
      shownErrors := [];
    }

    /** `getInstance`: the first call creates the manager from its arguments;
        every later call returns that same manager and ignores its arguments. */
    static method GetInstance(slot: InstanceSlot, workspaceFolder: string, webSocketManager: WebSocketManager,
                              createWebSocketMessage: (string, seq<Rule>) -> string)
      returns (manager: RuleManager)
      requires webSocketManager.Valid()
      modifies slot
      ensures slot.instance == manager
      ensures old(slot.instance) != null ==> manager == old(slot.instance)
      ensures old(slot.instance) == null ==>
        && fresh(manager) && manager.Valid()
        && manager.rules == [] && manager.shownErrors == []
        && manager.workspaceFolder == workspaceFolder && manager.webSocketManager == webSocketManager
        && manager.createWebSocketMessage == createWebSocketMessage
    {
      if slot.instance == null {
        slot.instance := new RuleManager(workspaceFolder, webSocketManager, createWebSocketMessage);
      }
      manager := slot.instance;
    }

    /** Publishes the current table: one `queueMessage` under `RULE_TABLE`
        whose message encodes command `RULE_TABLE` with the rules as data. */
    method SendRules()
      requires Valid()
      modifies webSocketManager`keys, webSocketManager`messageQueue, webSocketManager`sent
      ensures Valid()
      ensures webSocketManager.messageQueue ==
              old(webSocketManager.messageQueue)[RULE_TABLE_MSG := Some(createWebSocketMessage(RULE_TABLE_MSG, rules))]
      ensures webSocketManager.keys ==
              if RULE_TABLE_MSG in old(webSocketManager.keys) then old(webSocketManager.keys)
              else old(webSocketManager.keys) + [RULE_TABLE_MSG]
      ensures webSocketManager.sent == old(webSocketManager.sent) +
              ReplayToAll(webSocketManager.clients, webSocketManager.keys, webSocketManager.messageQueue)
    {
      webSocketManager.QueueMessage(RULE_TABLE_MSG, createWebSocketMessage(RULE_TABLE_MSG, rules));
    }

    /** A completed read of the rule table (the constructor's initial read, or
        `handleFileChange`): `rules` is replaced by what the read yields and
        then sent. */
    method HandleFileChange(read: Result<seq<Rule>, string>)
      requires Valid()
      modifies this`rules, this`shownErrors,
               webSocketManager`keys, webSocketManager`messageQueue, webSocketManager`sent
      ensures Valid()
      ensures rules == ReadRuleTable(read).rules
      ensures shownErrors == old(shownErrors) + ReadRuleTable(read).shownErrors
      ensures webSocketManager.messageQueue ==
              old(webSocketManager.messageQueue)[RULE_TABLE_MSG := Some(createWebSocketMessage(RULE_TABLE_MSG, rules))]
      ensures webSocketManager.keys ==
              if RULE_TABLE_MSG in old(webSocketManager.keys) then old(webSocketManager.keys)
              else old(webSocketManager.keys) + [RULE_TABLE_MSG]
      ensures webSocketManager.sent == old(webSocketManager.sent) +
              ReplayToAll(webSocketManager.clients, webSocketManager.keys, webSocketManager.messageQueue)
    {
      var outcome := ReadRuleTable(read);
      shownErrors := shownErrors + outcome.shownErrors;
      rules := outcome.rules;
      SendRules();
    }
  }

  /** The rule table a client joining after a read receives: the published
      table is among the replayed messages. */
  lemma PublishedTableIsReplayed(keys: seq<string>, queue: map<string, Option<string>>, table: string)
    requires RULE_TABLE_MSG in keys
    requires RULE_TABLE_MSG in queue && queue[RULE_TABLE_MSG] == Some(table)
    ensures table in QueuedMessages(keys, queue)
  {
    QueuedMessagesMembership(keys, queue, table);
    var i :| 0 <= i < |keys| && keys[i] == RULE_TABLE_MSG;
  }

  /** Two calls of `getInstance` give the same manager, configured by the first. */
  method SingletonScenario(hub: WebSocketManager, encode: (string, seq<Rule>) -> string)
    requires hub.Valid()
  {
    var slot := new InstanceSlot();
    var first := RuleManager.GetInstance(slot, "/workspace", hub, encode);
    var second := RuleManager.GetInstance(slot, "/elsewhere", hub, encode);
    assert first == second;
    assert second.workspaceFolder == "/workspace";
  }
}
