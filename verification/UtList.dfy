/**
 The doubly linked list of the unit-test library (osal/ut_assert/src/utlist.c): nodes on the
 heap that are rewired in place, used both as a queue and as a stack.
 */
module UtList {
  import opened Basics

  class Node {
    var next: Node?
    var prev: Node?
    var data: seq<Byte>
    var tag: nat

    constructor (prev: Node?, data: seq<Byte>, tag: nat)
      ensures this.next == null && this.prev == prev && this.data == data && this.tag == tag
    {
      this.next, this.prev, this.data, this.tag := null, prev, data, tag;
    }
  }

  /** What a caller sees of a node: its copy of the data, and the tag. */
  datatype Item = Item(data: seq<Byte>, tag: nat)

  ghost function Items(nodes: seq<Node>): (s: seq<Item>)
    reads nodes
    ensures |s| == |nodes|
  {
    seq(|nodes|, i requires 0 <= i < |nodes| reads nodes => Item(nodes[i].data, nodes[i].tag))
  }

  function Without<T>(s: seq<T>, k: nat): (r: seq<T>)
    requires k < |s|
    ensures |r| == |s| - 1 && forall i | 0 <= i < |r| :: r[i] == if i < k then s[i] else s[i + 1]
  {
    s[..k] + s[k + 1..]
  }

  lemma WithoutEnds<T>(s: seq<T>)
    requires s != []
    ensures Without(s, 0) == s[1..] && Without(s, |s| - 1) == s[..|s| - 1]
  {
  }

  ghost predicate Distinct<T>(s: seq<T>) {
    forall i, j | 0 <= i < j < |s| :: s[i] != s[j]
  }

  lemma WithoutDistinct<T>(s: seq<T>, k: nat)
    requires Distinct(s) && k < |s|
    ensures Distinct(Without(s, k))
  {
    var r := Without(s, k);
    forall i, j | 0 <= i < j < |r|
      ensures r[i] != r[j]
    {
      assert r[i] == s[if i < k then i else i + 1] && r[j] == s[if j < k then j else j + 1];
    }
  }

  ghost function After(nodes: seq<Node>, i: nat): Node? {
    if i + 1 < |nodes| then nodes[i + 1] else null
  }

  ghost function Before(nodes: seq<Node>, i: nat): Node?
    requires i < |nodes|
  {
    if 0 < i then nodes[i - 1] else null
  }

  /** The neighbours of the remaining nodes, after node `k` was taken out. */
  lemma NeighboursWithout(was: seq<Node>, k: nat, i: nat)
    requires k < |was| && i < |was| - 1
    ensures var j := if i < k then i else i + 1;
      var nodes := Without(was, k);
      && |nodes| == |was| - 1 && nodes[i] == was[j]
      && After(nodes, i) == (if j + 1 == k then After(was, k) else After(was, j))
      && Before(nodes, i) == (if j == k + 1 then Before(was, k) else Before(was, j))
  {
  }

  /** Node `i` points to its two neighbours. */
  ghost predicate Linked(nodes: seq<Node>, i: nat)
    requires i < |nodes|
    reads nodes[i]
  {
    nodes[i].next == After(nodes, i) && nodes[i].prev == Before(nodes, i)
  }

  class ListHead {
    var first: Node?
    var last: Node?
    var numberOfEntries: nat
    ghost var nodes: seq<Node>

    /** First, Last, Next, Prev and the count all describe the one sequence `nodes`. */
    ghost predicate Valid()
      reads this, nodes
    {
      && numberOfEntries == |nodes|
      && Distinct(nodes)
      && first == (if nodes == [] then null else nodes[0])
      && last == (if nodes == [] then null else nodes[|nodes| - 1])
      && forall i | 0 <= i < |nodes| :: Linked(nodes, i)
    }

    ghost function Contents(): (s: seq<Item>)
      reads this, nodes
    {
      Items(nodes)
    }

    constructor ()
      ensures Valid() && nodes == []
    {
      first, last, numberOfEntries := null, null, 0;
      nodes := [];
    }

    /** Walks from the first node along the links, as clients do to reach a member. */
    method NodeAt(k: nat) returns (node: Node?)
      requires Valid()
      ensures k < |nodes| ==> node == nodes[k]
      ensures k >= |nodes| ==> node == null
    {
      node := first;
      var i := 0;
      while i < k && node != null
        invariant 0 <= i <= k && (i < |nodes| ==> node == nodes[i]) && (i >= |nodes| ==> node == null)
      {
        assert Linked(nodes, i);
        node := node.next;
        i := i + 1;
      }
    }

    method IsEmpty() returns (r: bool)
      requires Valid()
      ensures r <==> Contents() == []
    {
      r := numberOfEntries == 0;
    }

    method Depth() returns (n: nat)
      requires Valid()
      ensures n == |Contents()|
    {
      n := numberOfEntries;
    }

    method First() returns (n: Node?)
      requires Valid()
      ensures n == null <==> Contents() == []
      ensures n != null ==> n in nodes && Item(n.data, n.tag) == Contents()[0]
    {
      n := first;
    }

    method Last() returns (n: Node?)
      requires Valid()
      ensures n == null <==> Contents() == []
      ensures n != null ==> n in nodes && Item(n.data, n.tag) == Contents()[|Contents()| - 1]
    {
      n := last;
    }

    /** Appends a node that owns a copy of the data. */
    method Add(data: seq<Byte>, tag: nat)
      requires Valid()
      modifies this, nodes
      ensures Valid()
      ensures Contents() == old(Contents()) + [Item(data, tag)]
      ensures forall i | 0 <= i < |nodes| :: nodes[i] in old(nodes) || fresh(nodes[i])
      ensures forall n <- old(nodes) :: n in nodes && n.data == old(n.data) && n.tag == old(n.tag)
    {
      ghost var was := nodes;
      assert was != [] ==> Linked(was, |was| - 1);
      var node := new Node(last, data, tag);
      if numberOfEntries == 0 {
        first := node;
        last := node;
      } else {
        last.next := node;
        last := node;
      }
      numberOfEntries := numberOfEntries + 1;
      nodes := nodes + [node];
      forall i | 0 <= i < |nodes|
        ensures Linked(nodes, i)
      {
        assert i < |was| ==> old(Linked(was, i));
      }
    }

    /** Unlinks one member, wherever it is; an empty list is left alone, whatever node is given. */
    method DeleteNode(node: Node?, ghost k: nat)
      requires Valid()
      requires nodes != [] ==> k < |nodes| && node == nodes[k]
      modifies this, nodes
      ensures Valid()
      ensures old(nodes) == [] ==> nodes == []
      ensures old(nodes) != [] ==> nodes == Without(old(nodes), k)
      ensures forall n <- nodes :: n in old(nodes)
      ensures forall n <- old(nodes) :: n.data == old(n.data) && n.tag == old(n.tag)
    {
      if numberOfEntries != 0 {
        ghost var was := nodes;
        assert Linked(was, k);
        if numberOfEntries == 1 {
          first := null;
          last := null;
          numberOfEntries := 0;
        } else if node == first {
          first := node.next;
          first.prev := null;
          numberOfEntries := numberOfEntries - 1;
        } else if node == last {
          last := node.prev;
          last.next := null;
          numberOfEntries := numberOfEntries - 1;
        } else {
          node.prev.next := node.next;
          node.next.prev := node.prev;
          numberOfEntries := numberOfEntries - 1;
        }
        WithoutDistinct(was, k);
        nodes := Without(nodes, k);
        forall i | 0 <= i < |nodes|
          ensures Linked(nodes, i)
        {
          NeighboursWithout(was, k, i);
          assert old(Linked(was, if i < k then i else i + 1));
        }
      }
    }

    /** Copies the data of a member out and unlinks it; nothing happens to an empty list. */
    method RemoveNode(node: Node?, ghost k: nat) returns (data: seq<Byte>)
      requires Valid()
      requires nodes != [] ==> k < |nodes| && node == nodes[k]
      modifies this, nodes
      ensures Valid()
      ensures old(nodes) == [] ==> Contents() == [] && data == []
      ensures old(nodes) != [] ==>
        data == old(Contents())[k].data && Contents() == Without(old(Contents()), k)
      ensures forall n <- nodes :: n in old(nodes)
      ensures forall n <- old(nodes) :: n.data == old(n.data) && n.tag == old(n.tag)
    {
      data := [];
      if numberOfEntries != 0 {
        data := node.data;
        DeleteNode(node, k);
      }
    }

    method DeleteFirst()
      requires Valid()
      modifies this, nodes
      ensures Valid()
      ensures Contents() == if old(nodes) == [] then [] else old(Contents())[1..]
      ensures forall n <- nodes :: n in old(nodes)
      ensures forall n <- old(nodes) :: n.data == old(n.data) && n.tag == old(n.tag)
    {
      if nodes != [] { WithoutEnds(Contents()); }
      DeleteNode(first, 0);
      assert old(nodes) != [] ==> Contents() == Without(old(Contents()), 0);
    }

    method DeleteLast()
      requires Valid()
      modifies this, nodes
      ensures Valid()
      ensures Contents() == if old(nodes) == [] then [] else old(Contents())[..|old(nodes)| - 1]
      ensures forall n <- nodes :: n in old(nodes)
      ensures forall n <- old(nodes) :: n.data == old(n.data) && n.tag == old(n.tag)
    {
      if nodes != [] { WithoutEnds(Contents()); }
      ghost var k: nat := if nodes == [] then 0 else |nodes| - 1;
      DeleteNode(last, k);
      assert old(nodes) != [] ==> Contents() == Without(old(Contents()), k);
    }

    /** The queue's get. */
    method RemoveFirst() returns (data: seq<Byte>)
      requires Valid()
      modifies this, nodes
      ensures Valid()
      ensures (Contents(), data) == Dequeue(old(Contents()))
      ensures forall n <- nodes :: n in old(nodes)
      ensures forall n <- old(nodes) :: n.data == old(n.data) && n.tag == old(n.tag)
    {
      if nodes != [] { WithoutEnds(Contents()); }
      data := RemoveNode(first, 0);
    }

    /** The stack's pop. */
    method RemoveLast() returns (data: seq<Byte>)
      requires Valid()
      modifies this, nodes
      ensures Valid()
      ensures (Contents(), data) == Pop(old(Contents()))
      ensures forall n <- nodes :: n in old(nodes)
      ensures forall n <- old(nodes) :: n.data == old(n.data) && n.tag == old(n.tag)
    {
      if nodes != [] { WithoutEnds(Contents()); }
      ghost var k: nat := if nodes == [] then 0 else |nodes| - 1;
      data := RemoveNode(last, k);
    }

    method Reset()
      requires Valid()
      modifies this, nodes
      ensures Valid() && nodes == []
      ensures forall n <- old(nodes) :: n.data == old(n.data) && n.tag == old(n.tag)
    {
      var empty := IsEmpty();
      while !empty
        invariant Valid() && (empty <==> nodes == [])
        invariant forall i | 0 <= i < |nodes| :: nodes[i] in old(nodes)
        invariant forall n <- old(nodes) :: n.data == old(n.data) && n.tag == old(n.tag)
        decreases |nodes|
      {
        DeleteNode(first, 0);
        empty := IsEmpty();
      }
    }
  }

  // ---- Runs of list operations ----

  function Dequeue(s: seq<Item>): (r: (seq<Item>, seq<Byte>)) {
    if s == [] then (s, []) else (s[1..], s[0].data)
  }

  function Pop(s: seq<Item>): (r: (seq<Item>, seq<Byte>)) {
    if s == [] then (s, []) else (s[..|s| - 1], s[|s| - 1].data)
  }

  /** All operations; a member to delete or remove is given by its place in the list. */
  datatype ListOp =
    | OpAdd(item: Item)
    | OpDelete(k: nat)
    | OpRemove(k: nat)
    | OpDeleteFirst
    | OpDeleteLast
    | OpRemoveFirst
    | OpRemoveLast
    | OpReset

  /** The list after an operation, and the data that it handed out. */
  function Step(s: seq<Item>, op: ListOp): (r: (seq<Item>, seq<seq<Byte>>)) {
    match op
    case OpAdd(item) => (s + [item], [])
    case OpDelete(k) => if k < |s| then (Without(s, k), []) else (s, [])
    case OpRemove(k) => if k < |s| then (Without(s, k), [s[k].data]) else (s, [])
    case OpDeleteFirst => (Dequeue(s).0, [])
    case OpDeleteLast => (Pop(s).0, [])
    case OpRemoveFirst => if s == [] then (s, []) else (Dequeue(s).0, [Dequeue(s).1])
    case OpRemoveLast => if s == [] then (s, []) else (Pop(s).0, [Pop(s).1])
    case OpReset => ([], [])
  }

  function Run(s: seq<Item>, ops: seq<ListOp>): (r: (seq<Item>, seq<seq<Byte>>))
    decreases ops
  {
    if ops == [] then (s, [])
    else
      var (s1, out) := Step(s, ops[0]);
      var (s2, rest) := Run(s1, ops[1..]);
      (s2, out + rest)
  }

  /** Performs a whole run on a real list. */
  method Execute(list: ListHead, ops: seq<ListOp>) returns (removed: seq<seq<Byte>>)
    requires list.Valid()
    modifies list, list.nodes
    ensures list.Valid() && forall i | 0 <= i < |list.nodes| :: list.nodes[i] in old(list.nodes) || fresh(list.nodes[i])
    ensures (list.Contents(), removed) == Run(old(list.Contents()), ops)
    ensures forall n <- old(list.nodes) :: n.data == old(n.data) && n.tag == old(n.tag)
  {
    hide Step;
    if ops == [] {
      return [];
    }
    var out := ExecuteOne(list, ops[0]);
    var rest := Execute(list, ops[1..]);
    removed := out + rest;
  }

  /** Deletes the member at a place, if there is one. */
  method DeleteAt(list: ListHead, k: nat)
    requires list.Valid()
    modifies list, list.nodes
    ensures list.Valid() && forall n <- list.nodes :: n in old(list.nodes)
    ensures list.Contents() == Step(old(list.Contents()), OpDelete(k)).0
    ensures forall n <- old(list.nodes) :: n.data == old(n.data) && n.tag == old(n.tag)
  {
    var node := list.NodeAt(k);
    if node != null {
      list.DeleteNode(node, k);
      assert list.Contents() == Without(old(list.Contents()), k);
    }
  }

  /** Removes the member at a place, if there is one, and returns its data. */
  method RemoveAt(list: ListHead, k: nat) returns (out: seq<seq<Byte>>)
    requires list.Valid()
    modifies list, list.nodes
    ensures list.Valid() && forall n <- list.nodes :: n in old(list.nodes)
    ensures (list.Contents(), out) == Step(old(list.Contents()), OpRemove(k))
    ensures forall n <- old(list.nodes) :: n.data == old(n.data) && n.tag == old(n.tag)
  {
    out := [];
    var node := list.NodeAt(k);
    if node != null {
      var d := list.RemoveNode(node, k);
      out := [d];
    }
  }

  method ExecuteOne(list: ListHead, op: ListOp) returns (out: seq<seq<Byte>>)
    requires list.Valid()
    modifies list, list.nodes
    ensures list.Valid() && forall i | 0 <= i < |list.nodes| :: list.nodes[i] in old(list.nodes) || fresh(list.nodes[i])
    ensures (list.Contents(), out) == Step(old(list.Contents()), op)
    ensures forall n <- old(list.nodes) :: n.data == old(n.data) && n.tag == old(n.tag)
  {
    out := [];
    match op {
      case OpAdd(item) =>
        list.Add(item.data, item.tag);
      case OpDelete(k) =>
        DeleteAt(list, k);
      case OpRemove(k) =>
        out := RemoveAt(list, k);
      case OpDeleteFirst =>
        list.DeleteFirst();
      case OpDeleteLast =>
        list.DeleteLast();
      case OpRemoveFirst =>
        var empty := list.IsEmpty();
        if !empty {
          var d := list.RemoveFirst();
          out := [d];
        }
      case OpRemoveLast =>
        var empty := list.IsEmpty();
        if !empty {
          var d := list.RemoveLast();
          out := [d];
        }
      case OpReset =>
        list.Reset();
    }
  }

  /** The place of the member that an operation takes out, if it takes out one. */
  function PlaceOf(s: seq<Item>, op: ListOp): (k: nat) {
    match op
    case OpDelete(k) => k
    case OpRemove(k) => k
    case OpDeleteFirst => 0
    case OpRemoveFirst => 0
    case OpDeleteLast => if s == [] then 0 else |s| - 1
    case OpRemoveLast => if s == [] then 0 else |s| - 1
    case _ => |s|
  }

  predicate HandsOut(op: ListOp) {
    op.OpRemove? || op.OpRemoveFirst? || op.OpRemoveLast?
  }

  /**
   What an operation does to the items: adding appends one, a reset drops all, and any other
   operation takes out exactly the member that it names, if there is one, keeps all others, and
   hands out its data exactly if it is a removal.
   */
  lemma StepTakesOne(s: seq<Item>, op: ListOp)
    ensures op.OpAdd? ==> Step(s, op) == (s + [op.item], [])
    ensures op.OpReset? ==> Step(s, op) == ([], [])
    ensures !op.OpAdd? && !op.OpReset? ==>
      var k := PlaceOf(s, op);
      if k >= |s| then Step(s, op) == (s, [])
      else
        && multiset(s) == multiset(Step(s, op).0) + multiset{s[k]}
        && (forall i | 0 <= i < |s| - 1 :: i < |Step(s, op).0| && Step(s, op).0[i] == s[if i < k then i else i + 1])
        && Step(s, op).1 == if HandsOut(op) then [s[k].data] else []
  {
    var k := PlaceOf(s, op);
    if !op.OpAdd? && !op.OpReset? && k < |s| {
      StepIsWithout(s, op);
      TakenOut(s, k);
      hide Step, Without;
    }
  }

  lemma StepIsWithout(s: seq<Item>, op: ListOp)
    requires !op.OpAdd? && !op.OpReset? && PlaceOf(s, op) < |s|
    ensures Step(s, op) == (Without(s, PlaceOf(s, op)), if HandsOut(op) then [s[PlaceOf(s, op)].data] else [])
  {
    WithoutEnds(s);
    hide Without;
  }

  lemma TakenOut(s: seq<Item>, k: nat)
    requires k < |s|
    ensures multiset(s) == multiset(Without(s, k)) + multiset{s[k]}
  {
    assert s == s[..k] + [s[k]] + s[k + 1..];
  }

  // ---- What every run keeps ----

  function AddedItems(ops: seq<ListOp>): seq<Item>
    decreases ops
  {
    if ops == [] then [] else (if ops[0].OpAdd? then [ops[0].item] else []) + AddedItems(ops[1..])
  }

  /** `f` places `a` inside `b` without changing the order. */
  ghost predicate Embeds(f: seq<nat>, a: seq<Item>, b: seq<Item>) {
    && |f| == |a|
    && (forall i | 0 <= i < |a| :: f[i] < |b| && a[i] == b[f[i]])
    && forall i, j | 0 <= i < j < |a| :: f[i] < f[j]
  }

  lemma EmbedsWithout(s: seq<Item>, k: nat) returns (f: seq<nat>)
    requires k < |s|
    ensures Embeds(f, Without(s, k), s)
  {
    f := seq(|s| - 1, i requires 0 <= i => if i < k then i else i + 1);
  }

  /** An operation only drops items or appends one. */
  lemma StepKeepsOrder(s: seq<Item>, op: ListOp) returns (f: seq<nat>)
    ensures Embeds(f, Step(s, op).0, s + AddedItems([op]))
  {
    hide Embeds, Without;
    assert [op][1..] == [];
    assert AddedItems([op]) == if op.OpAdd? then [op.item] else [];
    assert s + [] == s;
    if s != [] { WithoutEnds(s); }
    match op
    case OpAdd(item) => f := Identity(s + [item]);
    case OpDelete(k) => if k < |s| { f := EmbedsWithout(s, k); } else { f := Identity(s); }
    case OpRemove(k) => if k < |s| { f := EmbedsWithout(s, k); } else { f := Identity(s); }
    case OpReset => f := EmbedsNothing(s);
    case _ =>
      if s == [] { f := Identity(s); }
      else { f := EmbedsWithout(s, if op.OpDeleteFirst? || op.OpRemoveFirst? then 0 else |s| - 1); }
  }

  lemma EmbedsNothing(s: seq<Item>) returns (f: seq<nat>)
    ensures Embeds(f, [], s)
  {
    f := [];
  }

  lemma EmbedsCompose(f: seq<nat>, a: seq<Item>, b: seq<Item>, g: seq<nat>, c: seq<Item>, more: seq<Item>) returns (h: seq<nat>)
    requires Embeds(f, a, b + more) && Embeds(g, b, c)
    ensures Embeds(h, a, c + more)
  {
    h := seq(|a|, i requires 0 <= i < |a| => if f[i] < |b| then g[f[i]] else f[i] - |b| + |c|);
  }

  /**
   Over every run of all operations, the survivors keep their order: the list is what is left
   of the earlier items followed by the added ones, in the order in which they were added.
   */
  lemma {:induction false} SurvivorsKeepTheirOrder(s: seq<Item>, ops: seq<ListOp>) returns (f: seq<nat>)
    ensures Embeds(f, Run(s, ops).0, s + AddedItems(ops))
    decreases ops
  {
    hide Step, Embeds;
    if ops == [] {
      f := Identity(s);
      assert s + [] == s;
    } else {
      var s1 := Step(s, ops[0]).0;
      var g := StepKeepsOrder(s, ops[0]);
      var rest := SurvivorsKeepTheirOrder(s1, ops[1..]);
      f := EmbedsCompose(rest, Run(s1, ops[1..]).0, s1, g, s + AddedItems([ops[0]]), AddedItems(ops[1..]));
      assert [ops[0]][1..] == [];
      assert AddedItems([ops[0]]) + [] == AddedItems([ops[0]]);
      assert s + AddedItems([ops[0]]) + AddedItems(ops[1..]) == s + AddedItems(ops);
    }
  }

  lemma Identity(s: seq<Item>) returns (f: seq<nat>)
    ensures Embeds(f, s, s)
  {
    f := seq(|s|, i requires 0 <= i < |s| => i);
  }

  // ---- The list as a queue and as a stack ----

  function DataOf(s: seq<Item>): (r: seq<seq<Byte>>) {
    seq(|s|, i requires 0 <= i < |s| => s[i].data)
  }

  function Added(ops: seq<ListOp>): seq<seq<Byte>>
    decreases ops
  {
    if ops == [] then []
    else (if ops[0].OpAdd? then [ops[0].item.data] else []) + Added(ops[1..])
  }

  /** First in, first out: what a queue delivers, followed by what it holds, is all that was put in, in order. */
  lemma {:induction false} QueueIsFifo(s: seq<Item>, ops: seq<ListOp>)
    requires forall op <- ops :: op.OpAdd? || op.OpRemoveFirst?
    ensures Run(s, ops).1 + DataOf(Run(s, ops).0) == DataOf(s) + Added(ops)
    decreases ops
  {
    hide Step, DataOf;
    if ops == [] {
      assert [] + DataOf(s) == DataOf(s) + [];
    } else {
      assert ops[0] in ops;
      var (s1, out) := Step(s, ops[0]);
      QueueIsFifo(s1, ops[1..]);
      StepIsFifo(s, ops[0]);
      var (s2, rest) := Run(s1, ops[1..]);
      Assoc(out, rest, DataOf(s2));
      Assoc(out, DataOf(s1), Added(ops[1..]));
      Assoc(DataOf(s), Added([ops[0]]), Added(ops[1..]));
      AddedCons(ops);
    }
  }

  lemma StepIsFifo(s: seq<Item>, op: ListOp)
    requires op.OpAdd? || op.OpRemoveFirst?
    ensures Step(s, op).1 + DataOf(Step(s, op).0) == DataOf(s) + Added([op])
  {
    assert [op][1..] == [];
    if op.OpRemoveFirst? && s != [] {
      assert DataOf(s) == [s[0].data] + DataOf(s[1..]);
    }
  }

  lemma AddedCons(ops: seq<ListOp>)
    requires ops != []
    ensures Added(ops) == Added([ops[0]]) + Added(ops[1..])
  {
    assert [ops[0]][1..] == [];
  }

  predicate AtTheEnd(op: ListOp) {
    op.OpAdd? || op.OpRemoveLast? || op.OpDeleteLast?
  }

  /** How deep a stack is after each step of a run never falls below `floor`. */
  predicate StaysAbove(s: seq<Item>, ops: seq<ListOp>, floor: nat)
    decreases ops
  {
    |s| >= floor && (ops == [] || StaysAbove(Step(s, ops[0]).0, ops[1..], floor))
  }

  /** Last in, first out: a run of pushes and pops that never goes below a depth leaves that part untouched. */
  lemma {:induction false} StackKeepsItsFloor(s: seq<Item>, ops: seq<ListOp>, floor: nat)
    requires (forall op <- ops :: AtTheEnd(op)) && StaysAbove(s, ops, floor)
    ensures |Run(s, ops).0| >= floor && Run(s, ops).0[..floor] == s[..floor]
    decreases ops
  {
    if ops != [] {
      assert ops[0] in ops;
      var s1 := Step(s, ops[0]).0;
      StackKeepsItsFloor(s1, ops[1..], floor);
      assert s1[..floor] == s[..floor];
    }
  }

  /** A pop after a balanced run of pushes and pops returns the data that was pushed before it. */
  lemma PopReturnsThePush(s: seq<Item>, item: Item, ops: seq<ListOp>)
    requires forall op <- ops :: AtTheEnd(op)
    requires StaysAbove(s + [item], ops, |s| + 1) && |Run(s + [item], ops).0| == |s| + 1
    ensures Pop(Run(s + [item], ops).0) == (s, item.data)
  {
    StackKeepsItsFloor(s + [item], ops, |s| + 1);
    var t := Run(s + [item], ops).0;
    assert t == t[..|s| + 1] == s + [item];
  }
}
