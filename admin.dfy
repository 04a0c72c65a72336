/**
 * The admin console: a command line names a command and its arguments;
 * the arguments name nodes ("all" for every distributor the manager
 * knows), and the command asks the manager for their money or stock, frees
 * their addresses, or shows the logs or the help.
 */
module Admin {
  import opened Tables
  import opened Protocol
  import opened Utils
  import opened Manager

  /** The handlers of the console. */
  datatype Command = Free | GetMoney | GetStock | Help | Logs

  /** buildCommandCallback: the command names and the handler each one runs. */
  const COMMANDS: map<string, Command> :=
    map["free" := Free, "get_money" := GetMoney, "get_stock" := GetStock, "help" := Help, "logs" := Logs]

  /** buildCommandHelper: each usage and its description, in the order the sorted map lists them. */
  const HELP: seq<(string, string)> := [
    ("free all | nodesID", "Free all the RMI gateways' nodesID passed in arguments"),
    ("get_money all | nodesID", "Get the money for all the distributors' nodesID passed in arguments"),
    ("get_stock all | nodesID", "Get the stock for all the distributors' nodesID passed in arguments"),
    ("help", "Print the command helper"),
    ("logs", "Display the logs history")
  ]

  const HELP_TITLE := "Available command-line list"

  /**
   * The lookup of execQuery: the handler of the first word of the line;
   * None for an unknown word ("Command not found !") and for a line with no
   * word at all, where parseCommand fails first (see ExecQuery).
   */
  function Lookup(query: string): (c: Option<Command>)
    ensures c.Some? <==> |Split(query)| >= 1 && Split(query)[0] in COMMANDS
    ensures c.Some? ==> c.value == COMMANDS[Split(query)[0]]
  {
    var command := ParseCommand(query);
    if command.Some? && command.value in COMMANDS then Some(COMMANDS[command.value]) else None
  }

  /** Every command has a help entry whose usage starts with the command's name. */
  lemma HelpListsEveryCommand(name: string)
    requires name in COMMANDS
    ensures exists i :: 0 <= i < |HELP| && |name| <= |HELP[i].0| && HELP[i].0[..|name|] == name
  {
    var i := if name == "free" then 0 else if name == "get_money" then 1 else if name == "get_stock" then 2
             else if name == "help" then 3 else 4;
    assert HELP[i].0[..|name|] == name;
  }

  // ---------------------------------------------------------------------------------------------
  // The node ids of the arguments

  /** The id one argument writes, when it is an int strictly between 0 and the address count. */
  function ArgId(arg: string, addressCount: int): (ids: seq<int>)
    ensures |ids| <= 1
    ensures forall x :: x in ids <==> 0 < x < addressCount && ParseInt(arg) == Some(x)
  {
    var v := ParseInt(arg);
    if v.Some? && 0 < v.value < addressCount then [v.value] else []
  }

  /**
   * The ids the arguments write: each int argument strictly between 0 and
   * the address count, in order and with its repeats; anything else is
   * skipped (with "is not a number" or "doesn't exist!" on the console).
   */
  function NamedIds(args: seq<string>, addressCount: int): (ids: seq<int>)
    ensures |ids| <= |args|
  {
    if args == [] then [] else NamedIds(args[..|args| - 1], addressCount) + ArgId(args[|args| - 1], addressCount)
  }

  /** getNodesIDFromArgs: the single argument "all" stands for the known distributors; otherwise the named ids. */
  function SelectedIds(args: seq<string>, known: seq<int>, addressCount: int): seq<int> {
    if |args| == 1 && args[0] == "all" then known else NamedIds(args, addressCount)
  }

  /**
   * The tables after freeing the addresses in done, against the tables d0
   * and g0 before: the same keys, and a known address that was freed is
   * not connected (in the ring table too), every other value unchanged.
   */
  ghost predicate FreedFrom(d0: map<int, bool>, g0: map<int, bool>, dv: map<int, bool>, gv: map<int, bool>, done: seq<int>) {
    && (forall k :: k in dv <==> k in d0)
    && (forall k :: k in d0 ==> dv[k] == if k in done then false else d0[k])
    && (forall k :: k in gv <==> k in g0)
    && (forall k :: k in g0 ==> gv[k] == if k in done && k in d0 then false else g0[k])
  }

  /** Freeing one more address: a known one is set to not connected in both tables, an unknown one changes nothing. */
  lemma FreeStep(d0: map<int, bool>, g0: map<int, bool>, dv: map<int, bool>, gv: map<int, bool>, done: seq<int>, a: int)
    requires FreedFrom(d0, g0, dv, gv, done)
    ensures a in dv <==> a in d0
    ensures a in dv ==> FreedFrom(d0, g0, dv[a := false], if a in gv then gv[a := false] else gv, done + [a])
    ensures a !in dv ==> FreedFrom(d0, g0, dv, gv, done + [a])
  {
    forall k
      ensures k in done + [a] <==> k in done || k == a
    {
    }
  }

  /** Some argument parses to x. */
  predicate SomeArgParsesTo(args: seq<string>, x: int) {
    exists i :: 0 <= i < |args| && ParseInt(args[i]) == Some(x)
  }

  /** An argument list parses to x when its front does or its last argument does. */
  lemma ParsesSnoc(args: seq<string>, x: int)
    requires args != []
    ensures SomeArgParsesTo(args, x) <==>
              SomeArgParsesTo(args[..|args| - 1], x) || ParseInt(args[|args| - 1]) == Some(x)
  {
    var front := args[..|args| - 1];
    if SomeArgParsesTo(args, x) {
      var i :| 0 <= i < |args| && ParseInt(args[i]) == Some(x);
      if i < |front| {
        assert front[i] == args[i];
      }
    }
    if SomeArgParsesTo(front, x) {
      var i :| 0 <= i < |front| && ParseInt(front[i]) == Some(x);
      assert args[i] == front[i];
    }
  }

  /** An id is named exactly when some argument parses to it and it lies strictly between 0 and the address count. */
  lemma {:induction false} NamedIdsExactly(args: seq<string>, addressCount: int, x: int)
    ensures x in NamedIds(args, addressCount) <==> 0 < x < addressCount && SomeArgParsesTo(args, x)
    decreases |args|
  {
    if args != [] {
      var front, last := args[..|args| - 1], args[|args| - 1];
      NamedIdsExactly(front, addressCount, x);
      ParsesSnoc(args, x);
      assert NamedIds(args, addressCount) == NamedIds(front, addressCount) + ArgId(last, addressCount);
    }
  }

  /** Every named id lies strictly between 0 and the address count. */
  lemma NamedIdsInTree(args: seq<string>, addressCount: int)
    ensures forall x :: x in NamedIds(args, addressCount) ==> 0 < x < addressCount
  {
    forall x | x in NamedIds(args, addressCount)
      ensures 0 < x < addressCount
    {
      NamedIdsExactly(args, addressCount, x);
    }
  }

  /** Reading the arguments twice names the ids twice: the list is appended to, never deduplicated. */
  lemma {:induction false} NamedIdsAppend(xs: seq<string>, ys: seq<string>, addressCount: int)
    ensures NamedIds(xs + ys, addressCount) == NamedIds(xs, addressCount) + NamedIds(ys, addressCount)
    decreases |ys|
  {
    if ys == [] {
      assert xs + ys == xs;
    } else {
      var front, last := ys[..|ys| - 1], ys[|ys| - 1];
      NamedIdsAppend(xs, front, addressCount);
      NamedIdsAppendStep(xs, front, last, addressCount);
      FrontLast(ys);
    }
  }

  /** The step of NamedIdsAppend: one more argument at the end of ys. */
  lemma NamedIdsAppendStep(xs: seq<string>, front: seq<string>, last: string, addressCount: int)
    requires NamedIds(xs + front, addressCount) == NamedIds(xs, addressCount) + NamedIds(front, addressCount)
    ensures NamedIds(xs + (front + [last]), addressCount) == NamedIds(xs, addressCount) + NamedIds(front + [last], addressCount)
  {
    NamedIdsSnoc(xs + front, last, addressCount);
    NamedIdsSnoc(front, last, addressCount);
    AppendAssoc(xs, front, [last]);
    AppendAssoc(NamedIds(xs, addressCount), NamedIds(front, addressCount), ArgId(last, addressCount));
  }

  /** One more argument adds the id it names, if any, at the end. */
  lemma NamedIdsSnoc(args: seq<string>, arg: string, addressCount: int)
    ensures NamedIds(args + [arg], addressCount) == NamedIds(args, addressCount) + ArgId(arg, addressCount)
  {
    assert (args + [arg])[..|args|] == args;
  }

  /** "3" names 3; a word, an address past the last one of a 43-address tree, and the root name nothing. */
  lemma ArgIdExamples()
    ensures ArgId("3", 43) == [3] && ArgId("all", 43) == [] && ArgId("43", 43) == [] && ArgId("0", 43) == []
  {
    AllIsNaN();
    assert ParseInt("3") == Some(3);
    assert DigitsValue("4") == 4;
    assert "43"[..1] == "4";
    assert ParseInt("43") == Some(43);
    assert ParseInt("0") == Some(0);
  }

  /** In a tree of 43 addresses, "3 all 43 0 3" names 3 twice, and "all" alone means every known distributor. */
  lemma NamedIdsExample()
    ensures NamedIds(["3", "all", "43", "0", "3"], 43) == [3, 3]
    ensures SelectedIds(["all"], [1, 20], 43) == [1, 20]
    ensures SelectedIds(["all", "all"], [1, 20], 43) == []
  {
    ArgIdExamples();
    var a1, a2, a3, a4, a5 := ["3"], ["3", "all"], ["3", "all", "43"], ["3", "all", "43", "0"], ["3", "all", "43", "0", "3"];
    assert a1[..0] == [] && a2[..1] == a1 && a3[..2] == a2 && a4[..3] == a3 && a5[..4] == a4;
    assert NamedIds(a1, 43) == [3];
    assert NamedIds(a2, 43) == [3];
    assert NamedIds(a3, 43) == [3];
    assert NamedIds(a4, 43) == [3];
    assert NamedIds(a5, 43) == [3] + [3];
    var b2 := ["all", "all"];
    assert b2[..1] == ["all"] && ["all"][..0] == [];
    assert NamedIds(["all"], 43) == [];
  }

  // ---------------------------------------------------------------------------------------------
  // The help

  /** The key padded with spaces on the right up to n characters, as %-ns does. */
  function PadRight(s: string, n: int): (r: string)
    ensures |r| == if |s| < n then n else |s|
    ensures r[..|s|] == s
    ensures forall i :: |s| <= i < |r| ==> r[i] == ' '
    decreases n - |s|
  {
    if |s| >= n then s else PadRight(s + " ", n)
  }

  /** One line of printHelp, "- %-30s %s": a usage of at most 30 characters puts the description at column 33. */
  function HelpLine(usage: string, text: string): (line: string)
    ensures |line| >= 3 + |usage| + |text|
    ensures line[..2] == "- " && line[2..2 + |usage|] == usage
    ensures |usage| <= 30 ==> |line| == 33 + |text| && line[33..] == text
  {
    "- " + PadRight(usage, 30) + " " + text
  }

  /**
   * The text printHelp prints: the title banner of 51 characters ("-- ",
   * the title, a space, then '-' to the end), then one line per help entry
   * in order.
   */
  predicate IsHelpText(lines: seq<string>) {
    && |lines| == |HELP| + 1 && |lines[0]| == 51
    && lines[0][..|HELP_TITLE| + 4] == "-- " + HELP_TITLE + " "
    && (forall i :: |HELP_TITLE| + 4 <= i < 51 ==> lines[0][i] == '-')
    && (forall i :: 0 <= i < |HELP| ==> lines[i + 1] == HelpLine(HELP[i].0, HELP[i].1))
  }

  /** The description above leaves nothing open: two texts that fit it are the same text. */
  lemma HelpTextUnique(a: seq<string>, b: seq<string>)
    requires IsHelpText(a) && IsHelpText(b)
    ensures a == b
  {
    var n := |HELP_TITLE| + 4;
    forall i | 0 <= i < 51
      ensures a[0][i] == b[0][i]
    {
      if i < n {
        assert a[0][..n][i] == b[0][..n][i];
      }
    }
    assert a[0] == b[0];
    forall i | 0 <= i < |a|
      ensures a[i] == b[i]
    {
      if i > 0 {
        var j := i - 1;
        assert a[j + 1] == HelpLine(HELP[j].0, HELP[j].1) == b[j + 1];
      }
    }
  }

  /** printHelp: the title line, then one line per help entry in order. */
  method PrintHelp() returns (lines: seq<string>)
    ensures IsHelpText(lines)
  {
    var title := PrintTitle(HELP_TITLE);
    lines := [title];
    var i := 0;
    while i < |HELP|
      invariant 0 <= i <= |HELP| && |lines| == i + 1
      invariant lines[0] == title
      invariant forall j :: 0 <= j < i ==> lines[j + 1] == HelpLine(HELP[j].0, HELP[j].1)
    {
      lines := lines + [HelpLine(HELP[i].0, HELP[i].1)];
      i := i + 1;
    }
  }

  /** Every usage fits in the 30 columns of the format, so every description starts at column 33. */
  lemma HelpAligned()
    ensures forall i :: 0 <= i < |HELP| ==> |HELP[i].0| <= 30 && HelpLine(HELP[i].0, HELP[i].1)[33..] == HELP[i].1
  {
  }

  // ---------------------------------------------------------------------------------------------
  // The console

  /** What a command line ends with. */
  datatype Outcome =
    | NoCommand                              // a line of spaces only: parseCommand's uncaught index error
    | CommandNotFound
    | Sent(actions: seq<Action>)             // a money or stock query dispatched into the ring
    | Freed(results: seq<(int, bool)>)       // each address and whether it was released
    | Shown(lines: seq<string>)              // the help or the logs history

  class AdminInterface {
    const manager: DistributorManager
    const addressCount: int

    /** The console of a manager, with the manager's address count. */
    constructor (manager: DistributorManager)
      ensures this.manager == manager && addressCount == manager.addressCount
    {
      this.manager := manager;
      addressCount := manager.addressCount;
    }

    /** getNodesIDFromArgs, with the manager's list of distributors for "all". */
    method GetNodesIDFromArgs(args: seq<string>) returns (ids: seq<int>)
      ensures ids == SelectedIds(args, Keys(manager.distributors), addressCount)
    {
      if |args| == 1 && args[0] == "all" {
        ids := manager.ConnectedDistributors();
      } else {
        ids := [];
        var i := 0;
        while i < |args|
          invariant 0 <= i <= |args|
          invariant ids == NamedIds(args[..i], addressCount)
        {
          var arg := args[i];
          assert args[..i + 1][..i] == args[..i];
          if !IsNaN(arg) {
            var nodeID := ParseInt(arg).value;
            if nodeID > 0 && nodeID < addressCount {
              ids := ids + [nodeID];
            }
          }
          i := i + 1;
        }
        assert args[..i] == args;
      }
    }

    /**
     * getMoney and getStock: with no argument, or when the arguments name
     * no node, nothing happens; otherwise the query goes to the manager,
     * which then expects one reply per named node.
     */
    method AskNodes(query: string, args: seq<string>) returns (actions: seq<Action>)
      requires manager.Valid() && !manager.inProgress
      requires query == QUERY_GET_MONEY || query == QUERY_GET_STOCK
      modifies manager`expectedReply, manager`inProgress, manager`count
      ensures manager.Valid()
      ensures var ids := SelectedIds(args, Keys(manager.distributors), addressCount);
              |args| >= 1 && |ids| >= 1 ==>
                manager.inProgress && manager.count == |ids| &&
                manager.expectedReply == (if query == QUERY_GET_MONEY then REPLY_GET_MONEY else REPLY_GET_STOCK) &&
                actions == RingSends(manager.gateways, ids, manager.children.step, Request(query, ids))
      ensures var ids := SelectedIds(args, Keys(manager.distributors), addressCount);
              !(|args| >= 1 && |ids| >= 1) ==>
                actions == [] && !manager.inProgress &&
                manager.count == old(manager.count) && manager.expectedReply == old(manager.expectedReply)
    {
      actions := [];
      if |args| < 1 {
        return;
      }
      var nodesID := GetNodesIDFromArgs(args);
      if |nodesID| >= 1 {
        actions := manager.SendMessageToRMI(query, nodesID);
      }
    }

    /**
     * freeNodesID: each named address in turn is released when the manager
     * knows it, so every known one ends not connected (in the ring table
     * too) and nothing else changes; nothing happens without arguments.
     */
    method FreeNodesID(args: seq<string>) returns (results: seq<(int, bool)>)
      requires manager.Valid()
      modifies manager`gateways, manager`distributors
      ensures manager.Valid()
      ensures var ids := SelectedIds(args, old(Keys(manager.distributors)), addressCount);
              |results| == |ids| &&
              (forall i :: 0 <= i < |ids| ==> results[i] == (ids[i], ids[i] in old(View(manager.distributors)))) &&
              FreedFrom(old(View(manager.distributors)), old(View(manager.gateways)),
                        View(manager.distributors), View(manager.gateways), ids)
    {
      results := [];
      if |args| < 1 {
        return;
      }
      var nodesID := GetNodesIDFromArgs(args);
      results := FreeEach(nodesID);
    }

    /**
     * The loop of freeNodesID. Freeing keeps every address listed, so each
     * answer is whether the address was known before the command; a known
     * address ends up not connected, in the ring table too when it is a
     * ring gateway, and every other value is left alone.
     */
    method FreeEach(nodesID: seq<int>) returns (results: seq<(int, bool)>)
      requires manager.Valid()
      modifies manager`gateways, manager`distributors
      ensures manager.Valid()
      ensures |results| == |nodesID|
      ensures forall i :: 0 <= i < |nodesID| ==> results[i] == (nodesID[i], nodesID[i] in old(View(manager.distributors)))
      ensures forall k :: k in View(manager.distributors) <==> k in old(View(manager.distributors))
      ensures forall k :: k in old(View(manager.distributors)) ==>
                View(manager.distributors)[k] == if k in nodesID then false else old(View(manager.distributors))[k]
      ensures forall k :: k in View(manager.gateways) <==> k in old(View(manager.gateways))
      ensures forall k :: k in old(View(manager.gateways)) ==>
                View(manager.gateways)[k] ==
                  if k in nodesID && k in old(View(manager.distributors)) then false else old(View(manager.gateways))[k]
    {
      results := [];
      ghost var d0, g0 := View(manager.distributors), View(manager.gateways);
      var i := 0;
      while i < |nodesID|
        invariant 0 <= i <= |nodesID| && |results| == i
        invariant manager.Valid()
        invariant forall j :: 0 <= j < i ==> results[j] == (nodesID[j], nodesID[j] in d0)
        invariant FreedFrom(d0, g0, View(manager.distributors), View(manager.gateways), nodesID[..i])
      {
        var address := nodesID[i];
        var ok := FreeOne(address, d0, g0, nodesID[..i]);
        results := results + [(address, ok)];
        assert nodesID[..i + 1] == nodesID[..i] + [address];
        i := i + 1;
      }
      assert nodesID[..i] == nodesID;
    }

    /** One turn of the loop of freeNodesID: the address is freed on top of the ones done before it. */
    method FreeOne(address: int, ghost d0: map<int, bool>, ghost g0: map<int, bool>, ghost done: seq<int>) returns (ok: bool)
      requires manager.Valid()
      requires FreedFrom(d0, g0, View(manager.distributors), View(manager.gateways), done)
      modifies manager`gateways, manager`distributors
      ensures manager.Valid()
      ensures ok <==> address in d0
      ensures FreedFrom(d0, g0, View(manager.distributors), View(manager.gateways), done + [address])
    {
      ghost var db, gb := manager.distributors, manager.gateways;
      FreeStep(d0, g0, View(db), View(gb), done, address);
      ok := manager.FreeNodeID(address);
      if ok {
        PutView(db, address, false);
        if address in View(gb) {
          PutView(gb, address, false);
        }
      }
    }

    /**
     * execQuery: the handler the first word names runs on the other words.
     * A line with no word stops at parseCommand (an index error nothing
     * catches); an unknown command only prints "Command not found !".
     */
    method ExecQuery(query: string) returns (out: Outcome)
      requires manager.Valid() && !manager.inProgress
      modifies manager`expectedReply, manager`inProgress, manager`count, manager`gateways, manager`distributors
      ensures manager.Valid()
      ensures ParseCommand(query).None? ==> out == NoCommand
      ensures ParseCommand(query).Some? && Lookup(query).None? ==> out == CommandNotFound
      ensures Lookup(query) == Some(GetMoney) || Lookup(query) == Some(GetStock) ==>
                var args := ParseArgs(query);
                var ids := SelectedIds(args, Keys(manager.distributors), addressCount);
                var reply := if Lookup(query) == Some(GetMoney) then REPLY_GET_MONEY else REPLY_GET_STOCK;
                var q := if Lookup(query) == Some(GetMoney) then QUERY_GET_MONEY else QUERY_GET_STOCK;
                out.Sent? &&
                (|args| >= 1 && |ids| >= 1 ==>
                   manager.inProgress && manager.count == |ids| && manager.expectedReply == reply &&
                   out.actions == RingSends(manager.gateways, ids, manager.children.step, Request(q, ids))) &&
                (!(|args| >= 1 && |ids| >= 1) ==> out.actions == [] && !manager.inProgress)
      ensures Lookup(query) == Some(Free) ==>
                var ids := SelectedIds(ParseArgs(query), old(Keys(manager.distributors)), addressCount);
                out.Freed? && |out.results| == |ids| &&
                (forall i :: 0 <= i < |ids| ==> out.results[i] == (ids[i], ids[i] in old(View(manager.distributors)))) &&
                FreedFrom(old(View(manager.distributors)), old(View(manager.gateways)),
                          View(manager.distributors), View(manager.gateways), ids)
      ensures Lookup(query) == Some(Help) ==> out.Shown? && IsHelpText(out.lines)
      ensures Lookup(query) == Some(Logs) && |manager.logs| == 0 ==> out == Shown([NO_LOGS])
      ensures Lookup(query) == Some(Logs) && |manager.logs| > 0 ==> out == Shown(manager.logs)
      ensures Lookup(query) != Some(Free) ==>
                manager.distributors == old(manager.distributors) && manager.gateways == old(manager.gateways)
      ensures Lookup(query) != Some(GetMoney) && Lookup(query) != Some(GetStock) ==>
                manager.inProgress == old(manager.inProgress) && manager.count == old(manager.count) &&
                manager.expectedReply == old(manager.expectedReply)
    {
      if ParseCommand(query).None? {
        return NoCommand;
      }
      var command := Lookup(query);
      var args := ParseArgs(query);
      if command.None? {
        return CommandNotFound;
      }
      match command.value
      case GetMoney =>
        var actions := AskNodes(QUERY_GET_MONEY, args);
        out := Sent(actions);
      case GetStock =>
        var actions := AskNodes(QUERY_GET_STOCK, args);
        out := Sent(actions);
      case Free =>
        var results := FreeNodesID(args);
        out := Freed(results);
      case Help =>
        var lines := PrintHelp();
        out := Shown(lines);
      case Logs =>
        var lines := manager.DisplayLogsHistory();
        out := Shown(lines);
    }
  }
}
