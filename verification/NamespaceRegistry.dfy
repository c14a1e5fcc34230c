/** The registry of control.c as it is in memory: a linked list of namespace entries, each
    with a linked list of commands. Nodes are only ever appended. */
module NamespaceRegistry {
  import opened Bytes
  import opened NamespaceStore

  class CommandNode {
    const id: byte
    const handler: nat
    var next: CommandNode?
    ghost const home: nat   // the index of the namespace it belongs to
    ghost const place: nat  // its index in that namespace's list

    constructor (id: byte, handler: nat, next: CommandNode?, ghost home: nat, ghost place: nat)
      ensures this.id == id && this.handler == handler && this.next == next
      ensures this.home == home && this.place == place
    {
      this.id, this.handler, this.next, this.home, this.place := id, handler, next, home, place;
    }
  }

  class NamespaceNode {
    const name: seq<byte>
    var next: NamespaceNode?
    var commands: CommandNode?
    ghost const place: nat  // its index in the registry

    constructor (name: seq<byte>, commands: CommandNode?, ghost place: nat)
      ensures this.name == name && next == null && this.commands == commands && this.place == place
    {
      this.name, next, this.commands, this.place := name, null, commands, place;
    }
  }

  ghost function CommandsOf(nodes: seq<CommandNode>): (r: seq<Command>)
    ensures |r| == |nodes|
    ensures forall j :: 0 <= j < |nodes| ==> r[j] == Command(nodes[j].id, nodes[j].handler)
  {
    seq(|nodes|, j requires 0 <= j < |nodes| => Command(nodes[j].id, nodes[j].handler))
  }

  ghost function ViewOf(spine: seq<NamespaceNode>, lists: seq<seq<CommandNode>>): (reg: Registry)
    requires |lists| == |spine|
    ensures |reg| == |spine|
    ensures forall i :: 0 <= i < |spine| ==> reg[i] == Entry(spine[i].name, CommandsOf(lists[i]))
  {
    seq(|spine|, i requires 0 <= i < |spine| => Entry(spine[i].name, CommandsOf(lists[i])))
  }

  lemma ViewOfNamespaceAppended(spine: seq<NamespaceNode>, lists: seq<seq<CommandNode>>, node: NamespaceNode)
    requires |lists| == |spine|
    ensures ViewOf(spine + [node], lists + [[]]) == ViewOf(spine, lists) + [Entry(node.name, [])]
  {
  }

  lemma ViewOfCommandAppended(spine: seq<NamespaceNode>, lists: seq<seq<CommandNode>>, i: nat, node: CommandNode)
    requires |lists| == |spine| && i < |spine|
    ensures var reg := ViewOf(spine, lists);
      ViewOf(spine, lists[i := lists[i] + [node]]) ==
        reg[i := reg[i].(commands := reg[i].commands + [Command(node.id, node.handler)])]
  {
    assert CommandsOf(lists[i] + [node]) == CommandsOf(lists[i]) + [Command(node.id, node.handler)];
  }

  ghost function NodeAt(spine: seq<NamespaceNode>, i: nat): NamespaceNode? {
    if i < |spine| then spine[i] else null
  }

  ghost function CommandAt(list: seq<CommandNode>, j: nat): CommandNode? {
    if j < |list| then list[j] else null
  }

  /** The node is in its place in a well linked list of the namespace at index i. */
  ghost predicate IsLinked(node: CommandNode, list: seq<CommandNode>, i: nat, j: nat)
    reads node
  {
    node.next == CommandAt(list, j + 1) && node.home == i && node.place == j
  }

  /** The node is in its place in a well linked spine, with this list of commands. */
  ghost predicate IsPlaced(node: NamespaceNode, spine: seq<NamespaceNode>, list: seq<CommandNode>, i: nat)
    reads node
  {
    node.next == NodeAt(spine, i + 1) && node.commands == CommandAt(list, 0) && node.place == i
  }

  class RegistryObject {
    const head: NamespaceNode
    ghost var Repr: set<object>
    ghost var spine: seq<NamespaceNode>         // the namespace nodes, in list order
    ghost var lists: seq<seq<CommandNode>>      // for each of them, its command nodes

    ghost predicate Valid()
      reads this, Repr
    {
      && this in Repr
      && |spine| > 0 && spine[0] == head && |lists| == |spine|
      && (forall i :: 0 <= i < |spine| ==> spine[i] in Repr)
      && (forall i {:trigger IsPlaced(spine[i], spine, lists[i], i)} :: 0 <= i < |spine| ==>
            IsPlaced(spine[i], spine, lists[i], i))
      && (forall i, j :: 0 <= i < |lists| && 0 <= j < |lists[i]| ==> lists[i][j] in Repr)
      && (forall i, j {:trigger IsLinked(lists[i][j], lists[i], i, j)} :: 0 <= i < |lists| && 0 <= j < |lists[i]| ==>
            IsLinked(lists[i][j], lists[i], i, j))
    }

    /** The registry as a value. */
    ghost function View(): Registry
      requires |lists| == |spine|
      reads this
    {
      ViewOf(spine, lists)
    }

    /** The statically initialised registry. */
    constructor ()
      ensures Valid() && fresh(Repr) && View() == [BUILTIN]
    {
      var c5 := new CommandNode(5, 5, null, 0, 4);
      var c4 := new CommandNode(4, 4, c5, 0, 3);
      var c3 := new CommandNode(3, 3, c4, 0, 2);
      var c2 := new CommandNode(2, 2, c3, 0, 1);
      var c1 := new CommandNode(1, 1, c2, 0, 0);
      var first := new NamespaceNode(BUILTIN_NAME, c1, 0);
      head := first;
      spine, lists := [first], [[c1, c2, c3, c4, c5]];
      Repr := {this, first, c1, c2, c3, c4, c5};
      new;
      assert CommandsOf(lists[0]) == BUILTIN_COMMANDS;
      assert View() == [BUILTIN];
    }

    /** es_control_namespace_store_resolve. */
    method Resolve(query: seq<byte>) returns (entry: NamespaceNode?, ghost index: nat)
      requires Valid()
      ensures entry == null <==> NamespaceStore.Resolve(View(), query).None?
      ensures entry != null ==>
        NamespaceStore.Resolve(View(), query) == Some(index) && index < |spine| && entry == spine[index]
    {
      entry, index := head, 0;
      while entry != null
        invariant index <= |spine|
        invariant entry == NodeAt(spine, index)
        invariant forall j :: 0 <= j < index ==> !Match(spine[j].name, query)
        decreases |spine| - index
      {
        assert IsPlaced(spine[index], spine, lists[index], index);
        if Match(entry.name, query) {
          assert View()[index].name == entry.name;
          return;
        }
        entry, index := entry.next, index + 1;
      }
    }

    /** es_control_register_namespace. */
    method RegisterNamespace(name: seq<byte>, hasOut: bool) returns (status: Status, entry: NamespaceNode?)
      requires Valid() && |name| < 256
      modifies Repr
      ensures Valid() && fresh(Repr - old(Repr))
      ensures (View(), status) == NamespaceStore.RegisterNamespace(old(View()), name, hasOut)
      ensures old(spine) <= spine
      ensures status == Ok ==> |spine| == |old(spine)| + 1 && entry == spine[|spine| - 1]
    {
      if !hasOut {
        return Invalid, null;
      }
      var last := head;
      ghost var index := 0;
      while true
        invariant index < |spine| && last == spine[index]
        invariant forall j :: 0 <= j < index ==> !Match(spine[j].name, name)
        decreases |spine| - index
      {
        assert View()[index].name == last.name && IsPlaced(spine[index], spine, lists[index], index);
        if Match(last.name, name) {
          return Exists, null;
        }
        if last.next == null {
          break;
        }
        last, index := last.next, index + 1;
      }
      ghost var oldSpine, oldLists := spine, lists;
      entry := AppendNamespace(last, Strncpy(name));
      ViewOfNamespaceAppended(oldSpine, oldLists, entry);
      status := Ok;
    }

    method AppendNamespace(last: NamespaceNode, name: seq<byte>) returns (entry: NamespaceNode)
      requires Valid() && last == spine[|spine| - 1]
      modifies this, last
      ensures Valid() && fresh(entry) && Repr == old(Repr) + {entry} && entry.name == name
      ensures spine == old(spine) + [entry] && lists == old(lists) + [[]]
    {
      entry := new NamespaceNode(name, null, |spine|);
      last.next := entry;
      spine, lists, Repr := spine + [entry], lists + [[]], Repr + {entry};
      forall i | 0 <= i < |spine|
        ensures IsPlaced(spine[i], spine, lists[i], i)
      {
        if i < |old(spine)| {
          assert old(IsPlaced(spine[i], spine, lists[i], i));
          assert old(IsPlaced(last, spine, lists[|spine| - 1], |spine| - 1));
        }
      }
    }

    /** es_control_register_command, for the namespace at this index. */
    method RegisterCommand(entry: NamespaceNode?, ghost index: nat, id: byte, handler: nat) returns (status: Status)
      requires Valid()
      requires entry != null ==> index < |spine| && entry == spine[index]
      modifies Repr
      ensures Valid() && fresh(Repr - old(Repr)) && spine == old(spine)
      ensures (View(), status) ==
        NamespaceStore.RegisterCommand(old(View()), if entry == null then None else Some(index), id, handler)
    {
      if entry == null || entry == head {
        assert entry != null ==>
          IsPlaced(spine[0], spine, lists[0], 0) && IsPlaced(spine[index], spine, lists[index], index);
        return Invalid;
      }
      assert IsPlaced(spine[index], spine, lists[index], index);
      ghost var oldLists := lists;
      var node := new CommandNode(id, handler, null, index, |lists[index]|);
      if entry.commands == null {
        assert oldLists[index] + [node] == [node];
        AppendFirstCommand(entry, node, index);
      } else {
        var last := entry.commands;
        assert IsLinked(lists[index][0], lists[index], index, 0);
        if last.id == id {
          return Exists;
        }
        if last.next != null {
          // the next iteration starts again from the head of the list
          return Diverges;
        }
        AppendNextCommand(last, node, index);
      }
      ViewOfCommandAppended(spine, oldLists, index, node);
      assert lists == oldLists[index := oldLists[index] + [node]];
      assert |oldLists[index]| == 0 || (|oldLists[index]| == 1 && oldLists[index][0].id != id);
      assert old(View())[index].commands == CommandsOf(oldLists[index]) && index != 0;
      return Ok;
    }

    method AppendFirstCommand(entry: NamespaceNode, node: CommandNode, ghost index: nat)
      requires Valid() && index < |spine| && entry == spine[index] && lists[index] == []
      requires IsLinked(node, [node], index, 0)
      modifies this`lists, this`Repr, entry`commands
      ensures Valid() && Repr == old(Repr) + {node}
      ensures lists == old(lists)[index := [node]]
    {
      entry.commands := node;
      lists, Repr := lists[index := [node]], Repr + {node};
      forall i | 0 <= i < |spine|
        ensures IsPlaced(spine[i], spine, lists[i], i)
      {
        assert old(IsPlaced(spine[i], spine, lists[i], i)) && old(IsPlaced(entry, spine, lists[index], index));
      }
      forall i, j | 0 <= i < |lists| && 0 <= j < |lists[i]|
        ensures IsLinked(lists[i][j], lists[i], i, j)
      {
        assert i != index ==> old(IsLinked(lists[i][j], lists[i], i, j));
      }
    }

    method AppendNextCommand(last: CommandNode, node: CommandNode, ghost index: nat)
      requires Valid() && index < |spine| && lists[index] != []
      requires last == lists[index][|lists[index]| - 1]
      requires IsLinked(node, lists[index] + [node], index, |lists[index]|)
      modifies this`lists, this`Repr, last
      ensures Valid() && Repr == old(Repr) + {node}
      ensures lists == old(lists)[index := old(lists)[index] + [node]]
    {
      ghost var list := lists[index];
      assert IsLinked(last, list, index, |list| - 1);
      last.next := node;
      lists, Repr := lists[index := list + [node]], Repr + {node};
      forall i | 0 <= i < |spine|
        ensures IsPlaced(spine[i], spine, lists[i], i)
      {
        assert old(IsPlaced(spine[i], spine, lists[i], i));
      }
      forall i, j | 0 <= i < |lists| && 0 <= j < |lists[i]|
        ensures IsLinked(lists[i][j], lists[i], i, j)
      {
        if i != index {
          assert old(IsLinked(lists[i][j], lists[i], i, j));
        } else if j < |list| {
          assert old(IsLinked(list[j], list, i, j));
        }
      }
    }

    /** The lookup in es_control_command_handle: the handler to call, if any. */
    method FindHandler(entry: NamespaceNode, ghost index: nat, id: byte) returns (handler: Option<nat>)
      requires Valid() && index < |spine| && entry == spine[index]
      ensures handler == Handler(View(), index, id)
    {
      assert IsPlaced(spine[index], spine, lists[index], index);
      var node := entry.commands;
      ghost var j := 0;
      ghost var commands := CommandsOf(lists[index]);
      while node != null
        invariant j <= |lists[index]|
        invariant node == CommandAt(lists[index], j)
        invariant FindCommand(commands, id) == FindCommand(commands[j..], id)
        decreases |lists[index]| - j
      {
        assert IsLinked(lists[index][j], lists[index], index, j);
        assert commands[j] == Command(node.id, node.handler);
        if node.id == id {
          return Some(node.handler);
        }
        assert commands[j..][1..] == commands[j + 1..];
        node, j := node.next, j + 1;
      }
      return None;
    }
  }
}
