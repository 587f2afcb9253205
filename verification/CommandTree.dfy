/** The tree of subcommands built from the operation contract, against the linear lookup by command path. */
module CommandTree {
  import opened Texts
  import opened Wrappers

  datatype Operation = Operation(id: string, cliPath: string)

  datatype CommandNode = CommandNode(children: map<string, CommandNode>, operation: Option<Operation>)

  const EMPTY: CommandNode := CommandNode(map[], None)

  // ---- The tree and the lookup -------------------------------------------------------------------------

  predicate SingleSpaced(path: string) {
    path == JoinWords(SplitWords(path))
  }

  /** Descends along the path, creating what is missing, and leaves the operation at its end. */
  function Insert(node: CommandNode, path: seq<string>, operation: Operation): CommandNode
    decreases |path|
  {
    if path == [] then node.(operation := Some(operation))
    else
      var child := if path[0] in node.children then node.children[path[0]] else EMPTY;
      node.(children := node.children[path[0] := Insert(child, path[1..], operation)])
  }

  function Descend(node: CommandNode, path: seq<string>): Option<CommandNode>
    decreases |path|
  {
    if path == [] then Some(node)
    else if path[0] !in node.children then None
    else Descend(node.children[path[0]], path[1..])
  }

  function OperationAt(node: CommandNode, path: seq<string>): Option<Operation> {
    match Descend(node, path) case None => None case Some(reached) => reached.operation
  }

  function Build(operations: seq<Operation>): CommandNode {
    if operations == [] then EMPTY
    else
      var last := operations[|operations| - 1];
      Insert(Build(operations[..|operations| - 1]), SplitWords(last.cliPath), last)
  }

  /** The first operation with this exact command path. */
  function Lookup(operations: seq<Operation>, path: string): (found: Option<Operation>)
    ensures found.Some? ==>
              exists i :: && 0 <= i < |operations| && operations[i] == found.value && found.value.cliPath == path
                          && forall j :: 0 <= j < i ==> operations[j].cliPath != path
    ensures found.None? ==> forall operation :: operation in operations ==> operation.cliPath != path
  {
    if operations == [] then None
    else if operations[0].cliPath == path then Some(operations[0])
    else Lookup(operations[1..], path)
  }

  /** What the contract guarantees of its paths. */
  ghost predicate ProperContract(operations: seq<Operation>) {
    && (forall i :: 0 <= i < |operations| ==> SingleSpaced(operations[i].cliPath))
    && (forall i, j :: 0 <= i < j < |operations| ==> operations[i].cliPath != operations[j].cliPath)
  }

  lemma {:induction false} InsertChangesOnePath(
    node: CommandNode, path: seq<string>, operation: Operation, other: seq<string>)
    ensures OperationAt(Insert(node, path, operation), other)
         == if other == path then Some(operation) else OperationAt(node, other)
    decreases |path|
  {
    if path != [] && other != [] {
      var child := if path[0] in node.children then node.children[path[0]] else EMPTY;
      if other[0] == path[0] {
        InsertChangesOnePath(child, path[1..], operation, other[1..]);
        assert path == [path[0]] + path[1..] && other == [other[0]] + other[1..];
      }
    }
  }

  lemma {:induction false} InsertReaches(node: CommandNode, path: seq<string>, operation: Operation, other: seq<string>)
    ensures Descend(Insert(node, path, operation), other).Some? <==> Descend(node, other).Some? || other <= path
    decreases |path|
  {
    if path != [] && other != [] && other[0] == path[0] {
      var child := if path[0] in node.children then node.children[path[0]] else EMPTY;
      InsertReaches(child, path[1..], operation, other[1..]);
      assert path == [path[0]] + path[1..] && other == [other[0]] + other[1..];
      assert other <= path <==> other[1..] <= path[1..];
    }
  }

  lemma {:induction false} TreeHoldsTheLastMatch(operations: seq<Operation>, path: seq<string>)
    ensures match OperationAt(Build(operations), path)
            case None => forall operation | operation in operations :: SplitWords(operation.cliPath) != path
            case Some(found) =>
              exists i :: && 0 <= i < |operations| && operations[i] == found && SplitWords(found.cliPath) == path
                          && forall j :: i < j < |operations| ==> SplitWords(operations[j].cliPath) != path
  {
    if operations == [] {
      assert path != [] ==> Descend(EMPTY, path).None?;
    } else {
      var init, last := operations[..|operations| - 1], operations[|operations| - 1];
      TreeHoldsTheLastMatch(init, path);
      InsertChangesOnePath(Build(init), SplitWords(last.cliPath), last, path);
      assert operations == init + [last];
      if SplitWords(last.cliPath) != path && OperationAt(Build(init), path).Some? {
        var i :| && 0 <= i < |init| && init[i] == OperationAt(Build(init), path).value
                 && SplitWords(init[i].cliPath) == path
                 && forall j :: i < j < |init| ==> SplitWords(init[j].cliPath) != path;
        assert operations[i] == init[i];
        assert forall j :: i < j < |init| ==> operations[j] == init[j];
      }
    }
  }

  lemma PathIdentifiesOperation(operations: seq<Operation>, a: Operation, b: Operation)
    requires ProperContract(operations) && a in operations && b in operations && a.cliPath == b.cliPath
    ensures a == b
  {
  }

  /** Walking the tree along some words finds exactly what the linear lookup finds for the words joined. */
  lemma TreeRefinesLookup(operations: seq<Operation>, words: seq<string>)
    requires ProperContract(operations) && Words(words)
    ensures OperationAt(Build(operations), words) == Lookup(operations, JoinWords(words))
  {
    TreeHoldsTheLastMatch(operations, words);
    JoinedWordsSplit(words);
    var walked, found := OperationAt(Build(operations), words), Lookup(operations, JoinWords(words));
    if walked.Some? {
      var i :| 0 <= i < |operations| && operations[i] == walked.value;
      assert SingleSpaced(operations[i].cliPath);
      PathIdentifiesOperation(operations, walked.value, found.value);
    }
  }

  /** The order in which the contract lists its operations does not matter. */
  lemma InsertionOrderIsIrrelevant(a: seq<Operation>, b: seq<Operation>, words: seq<string>)
    requires ProperContract(a) && ProperContract(b) && Words(words)
    requires forall operation :: operation in a <==> operation in b
    ensures OperationAt(Build(a), words) == OperationAt(Build(b), words)
  {
    TreeRefinesLookup(a, words);
    TreeRefinesLookup(b, words);
    var x, y := Lookup(a, JoinWords(words)), Lookup(b, JoinWords(words));
    if x.Some? && y.Some? {
      PathIdentifiesOperation(a, x.value, y.value);
    }
  }

  // ---- The tree as it is built -------------------------------------------------------------------------

  class Node {
    var children: map<string, Node>
    var operation: Option<Operation>

    constructor ()
      ensures children == map[] && operation == None
    {
      children, operation := map[], None;
    }
  }

  /** Every path passed on the way along the words, from the root to their end. */
  ghost function Prefixes(words: seq<string>): set<seq<string>> {
    if words == [] then {[]} else Prefixes(words[..|words| - 1]) + {words}
  }

  lemma {:induction false} PrefixesAreInitialSegments(words: seq<string>, path: seq<string>)
    ensures path in Prefixes(words) <==> path <= words
  {
    if words != [] {
      var init := words[..|words| - 1];
      PrefixesAreInitialSegments(init, path);
      assert words == init + [words[|words| - 1]];
      if path <= words && path != words {
        assert |path| <= |init|;
      }
    }
  }

  lemma OneMorePrefix(words: seq<string>, i: nat)
    requires i < |words|
    ensures words[..i] + [words[i]] == words[..i + 1]
    ensures Prefixes(words[..i + 1]) == Prefixes(words[..i]) + {words[..i + 1]}
  {
  }

  /** The tree of nodes below a root, with the node at every path on record. */
  class Tree {
    const root: Node
    ghost var at: map<seq<string>, Node>

    ghost predicate Valid()
      reads this, at.Values
    {
      && [] in at && at[[]] == root
      && (forall a, b | a in at && b in at && at[a] == at[b] :: a == b)
      && (forall path, word | path + [word] in at :: path in at)
      && (forall path, word | path in at :: word in at[path].children <==> path + [word] in at)
      && (forall path, word | path in at && word in at[path].children :: at[path].children[word] == at[path + [word]])
    }

    ghost predicate Represents(node: CommandNode)
      reads this, at.Values
    {
      && (forall path :: path in at <==> Descend(node, path).Some?)
      && (forall path | path in at :: at[path].operation == OperationAt(node, path))
    }

    constructor ()
      ensures Valid() && fresh(at.Values) && Represents(EMPTY)
    {
      root := new Node();
      at := map[[] := root];
      new;
      forall path | path != []
        ensures Descend(EMPTY, path) == None
      {
      }
    }

    /** The child of the node at a path, created if it is missing. */
    method Enter(node: Node, word: string, ghost path: seq<string>) returns (child: Node)
      requires Valid() && path in at && node == at[path]
      modifies this`at, node`children
      ensures Valid() && path + [word] in at && child == at[path + [word]]
      ensures at.Keys == old(at.Keys) + {path + [word]}
      ensures forall known | known in old(at) :: at[known] == old(at)[known]
      ensures path + [word] !in old(at) ==> fresh(child) && child.operation == None
    {
      if word !in node.children {
        ghost var before := at;
        child := new Node();
        node.children := node.children[word := child];
        at := at[path + [word] := child];
        forall below, next | below in at
          ensures next in at[below].children <==> below + [next] in at
          ensures next in at[below].children ==> at[below].children[next] == at[below + [next]]
        {
          assert (below + [next])[..|below|] == below;
          if below + [next] == path + [word] {
            assert below == path && next == word by {
              assert (path + [word])[..|path|] == path && (path + [word])[|path|] == word;
              assert (below + [next])[|below|] == next;
            }
          }
        }
        forall below, next | below + [next] in at
          ensures below in at
        {
          assert (below + [next])[..|below|] == below && (path + [word])[..|path|] == path;
        }
      } else {
        child := node.children[word];
      }
    }

    /** Walks down from the root, adding the nodes that are missing. */
    method Reach(words: seq<string>) returns (node: Node)
      requires Valid()
      modifies this`at, at.Values`children
      ensures Valid() && words in at && node == at[words]
      ensures at.Keys == old(at.Keys) + Prefixes(words)
      ensures forall path | path in old(at) :: at[path] == old(at)[path]
      ensures forall path | path in at && path !in old(at) :: fresh(at[path]) && at[path].operation == None
    {
      node := root;
      for i := 0 to |words|
        invariant Valid() && words[..i] in at && node == at[words[..i]]
        invariant at.Keys == old(at.Keys) + Prefixes(words[..i])
        invariant forall path | path in old(at) :: at[path] == old(at)[path]
        invariant forall path | path in at && path !in old(at) :: fresh(at[path]) && at[path].operation == None
      {
        OneMorePrefix(words, i);
        node := Enter(node, words[i], words[..i]);
      }
      assert words[..|words|] == words;
    }

    /** Leaves the operation at the end of its words. */
    method Add(words: seq<string>, operation: Operation)
      requires Valid()
      modifies this, at.Values
      ensures Valid() && fresh(at.Values - old(at.Values))
      ensures at.Keys == old(at.Keys) + Prefixes(words)
      ensures forall path | path in at ::
                at[path].operation == if path == words then Some(operation)
                                      else if path in old(at) then old(at[path].operation) else None
    {
      var node := Reach(words);
      node.operation := Some(operation);
    }

    method Walk(words: seq<string>) returns (found: Option<Operation>)
      requires Valid()
      ensures found == if words in at then at[words].operation else None
    {
      var node := root;
      for i := 0 to |words|
        invariant words[..i] in at && node == at[words[..i]]
      {
        assert words[..i + 1] == words[..i] + [words[i]];
        if words[i] !in node.children {
          MissingBelow(words, i + 1);
          return None;
        }
        node := node.children[words[i]];
      }
      assert words[..|words|] == words;
      return node.operation;
    }

    lemma {:induction false} MissingBelow(words: seq<string>, i: nat)
      requires Valid() && i <= |words| && words[..i] !in at
      ensures words !in at
      decreases |words| - i
    {
      if i == |words| {
        assert words[..i] == words;
      } else {
        assert words[..i] + [words[i]] == words[..i + 1];
        MissingBelow(words, i + 1);
      }
    }
  }

  method BuildTree(operations: seq<Operation>) returns (tree: Tree)
    ensures fresh(tree) && tree.Valid() && tree.Represents(Build(operations))
  {
    tree := new Tree();
    for i := 0 to |operations|
      invariant fresh(tree) && fresh(tree.at.Values) && tree.Valid() && tree.Represents(Build(operations[..i]))
    {
      assert operations[..i + 1][..i] == operations[..i];
      ghost var node, words := Build(operations[..i]), SplitWords(operations[i].cliPath);
      tree.Add(SplitWords(operations[i].cliPath), operations[i]);
      forall path
        ensures Descend(Insert(node, words, operations[i]), path).Some? <==>
                Descend(node, path).Some? || path in Prefixes(words)
        ensures OperationAt(Insert(node, words, operations[i]), path)
             == if path == words then Some(operations[i]) else OperationAt(node, path)
      {
        PrefixesAreInitialSegments(words, path);
        InsertReaches(node, words, operations[i], path);
        InsertChangesOnePath(node, words, operations[i], path);
      }
    }
    assert operations[..|operations|] == operations;
  }

  // ---- Selections ------------------------------------------------------------------------------------

  /** What the argument parser matched: nested subcommands. */
  datatype Matches = Leaf | Subcommand(name: string, child: Matches)

  function Chosen(matches: Matches): seq<string> {
    match matches case Leaf => [] case Subcommand(name, child) => [name] + Chosen(child)
  }

  method SelectedCommand(matches: Matches) returns (path: string)
    ensures path == JoinWords(Chosen(matches))
  {
    var segments: seq<string> := [];
    var current := matches;
    while current.Subcommand?
      invariant segments + Chosen(current) == Chosen(matches)
      decreases current
    {
      segments := segments + [current.name];
      current := current.child;
    }
    assert segments == Chosen(matches);
    path := JoinWords(segments);
  }

  /** A command as the parser knows it. */
  datatype Command = Command(subcommandRequired: bool, subcommands: map<string, Command>)

  /** A node becomes a command; one without an operation requires a further subcommand. */
  function CommandFromNode(node: CommandNode): Command {
    Command(node.operation.None?, map name | name in node.children :: CommandFromNode(node.children[name]))
  }

  predicate Accepts(command: Command, matches: Matches) {
    match matches
    case Leaf => !command.subcommandRequired
    case Subcommand(name, child) => name in command.subcommands && Accepts(command.subcommands[name], child)
  }

  /** What the program's own command accepts: one of the tree's first words, and then what that one accepts. */
  predicate ParserAccepts(root: CommandNode, matches: Matches) {
    && matches.Subcommand? && matches.name in root.children
    && Accepts(CommandFromNode(root.children[matches.name]), matches.child)
  }

  predicate Complete(root: CommandNode, matches: Matches) {
    var reached := Descend(root, Chosen(matches));
    reached.Some? && reached.value.operation.Some?
  }

  lemma {:induction false} AcceptedExactlyWhenComplete(node: CommandNode, matches: Matches)
    ensures Accepts(CommandFromNode(node), matches) <==> Complete(node, matches)
  {
    match matches {
      case Leaf =>
      case Subcommand(name, child) =>
        assert Chosen(matches)[1..] == Chosen(child);
        if name in node.children {
          AcceptedExactlyWhenComplete(node.children[name], child);
        }
    }
  }

  /** The parser accepts exactly the selections that end at an operation, one level down or deeper. */
  lemma ParserAcceptsExactlyCompleteSelections(root: CommandNode, matches: Matches)
    ensures ParserAccepts(root, matches) <==> matches.Subcommand? && Complete(root, matches)
  {
    if matches.Subcommand? {
      assert Chosen(matches)[1..] == Chosen(matches.child);
      if matches.name in root.children {
        AcceptedExactlyWhenComplete(root.children[matches.name], matches.child);
      }
    }
  }

  /** The lookup of a complete selection cannot fail, and it finds the very operation the selection ended at. */
  lemma CompleteSelectionIsFound(operations: seq<Operation>, matches: Matches)
    requires ProperContract(operations) && Complete(Build(operations), matches)
    ensures Lookup(operations, JoinWords(Chosen(matches))) == OperationAt(Build(operations), Chosen(matches))
    ensures Lookup(operations, JoinWords(Chosen(matches))).Some?
  {
    TreeHoldsTheLastMatch(operations, Chosen(matches));
    TreeRefinesLookup(operations, Chosen(matches));
  }

  /** So whatever the parser accepts names an operation that the lookup finds. */
  lemma AcceptedSelectionIsFound(operations: seq<Operation>, matches: Matches)
    requires ProperContract(operations) && ParserAccepts(Build(operations), matches)
    ensures Lookup(operations, JoinWords(Chosen(matches))).Some?
    ensures Lookup(operations, JoinWords(Chosen(matches))) == OperationAt(Build(operations), Chosen(matches))
  {
    ParserAcceptsExactlyCompleteSelections(Build(operations), matches);
    CompleteSelectionIsFound(operations, matches);
  }

  /** No dead ends: every node of the tree lies on the path of some operation. */
  lemma {:induction false} EveryNodeLeadsToAnOperation(operations: seq<Operation>, path: seq<string>)
    requires path != [] && Descend(Build(operations), path).Some?
    ensures exists operation :: operation in operations && path <= SplitWords(operation.cliPath)
  {
    if operations == [] {
    } else {
      var init, last := operations[..|operations| - 1], operations[|operations| - 1];
      assert operations == init + [last];
      InsertReaches(Build(init), SplitWords(last.cliPath), last, path);
      if Descend(Build(init), path).Some? {
        EveryNodeLeadsToAnOperation(init, path);
        var operation :| operation in init && path <= SplitWords(operation.cliPath);
        assert operation in operations;
      } else {
        assert last in operations;
      }
    }
  }
}
