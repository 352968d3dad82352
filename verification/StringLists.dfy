/** gattrib's string list: a duplicate-free, doubly linked list of C strings with the count its owner keeps. */
module StringLists {
  import opened CStrings
  import opened NaturalOrder
  import opened Comparison
  import opened MergeSpec
  import opened ListSort
  import opened SortTransfer
  import opened Sequences
  import opened Wrappers

  /** Columns the attribute sort puts first or last; every other name ranks 100. */
  const DEVICE: CString := [100, 101, 118, 105, 99, 101]

  const FOOTPRINT: CString := [102, 111, 111, 116, 112, 114, 105, 110, 116]

  const VALUE: CString := [118, 97, 108, 117, 101]

  const SYMVERSION: CString := [115, 121, 109, 118, 101, 114, 115, 105, 111, 110]

  const DEFAULT_ATTRIB_POS := 100

  function AttribRank(item: CString): int {
    if item == DEVICE then 1
    else if item == FOOTPRINT then 2
    else if item == VALUE then 3
    else if item == SYMVERSION then 200
    else DEFAULT_ATTRIB_POS
  }

  /** Sort key of a component name: natural order alone. */
  function ComponentKey(item: CString): SortKey {
    SortKey(0, Tokens(item))
  }

  /** Sort key of an attribute name: rank first, then natural order. */
  function AttribKey(item: CString): SortKey {
    SortKey(AttribRank(item), Tokens(item))
  }

  class StringList {
    var head: Node?
    var count: int
    ghost var nodes: seq<Node>
    ghost var items: seq<CString>

    /** The cells hold the items in order, without duplicates. The empty list is one cell without data;
        deleting the only item leaves no cell at all, and the list is then of no further use. */
    ghost predicate Valid()
      reads this, nodes`next, nodes`prev, nodes`data
    {
      && Linked(head, nodes)
      && Holds(nodes, items)
      && NoDup(items)
      && count == |items|
    }

    constructor ()
      ensures Valid() && items == [] && head != null && fresh(nodes) && head.pos == -1
    {
      var n := new Node(NoData, -1);
      head, count, nodes, items := n, 0, [n], [];
    }

    /** The search loop the list operations share: the first node holding item, or null and the last node. */
    method Search(item: CString) returns (n: Node?, index: nat, last: Node?)
      requires Valid() && items != []
      ensures n == null ==> item !in items && last == nodes[|nodes| - 1]
      ensures n != null ==> index < |items| && nodes[index] == n && items[index] == item
    {
      n, index, last := head, 0, null;
      while n != null
        invariant index <= |nodes| && n == At(nodes, index)
        invariant forall k :: 0 <= k < index ==> items[k] != item
        invariant index > 0 ==> last == nodes[index - 1]
        decreases |nodes| - index
      {
        if n.data.text == item {
          return;
        }
        n, last, index := n.next, n, index + 1;
      }
    }

    /** s_string_list_add_item. */
    method AddItem(item: CString)
      requires Valid()
      modifies this, nodes
      ensures Valid() && (head == null <==> old(head) == null)
      ensures items == if head == null || item in old(items) then old(items) else old(items) + [item]
      ensures items == old(items) || old(items) == [] ==> nodes == old(nodes)
      ensures forall i :: 0 <= i < |nodes| ==> nodes[i] in old(nodes) || fresh(nodes[i])
      ensures items != old(items) && old(items) != [] ==>
        exists cell :: nodes == old(nodes) + [cell] && fresh(cell)
      ensures items != old(items) ==> nodes[|items| - 1].pos == old(count)
      ensures forall n :: n in old(nodes) && (items == old(items) || old(items) != []) ==> n.pos == old(n.pos)
    {
      if head == null {
        return;
      }
      if head.data.NoData? {
        head.data, head.next, head.prev, head.pos := Text(item), null, null, count;
        count, items := count + 1, [item];
        return;
      }
      var n, _, last := Search(item);
      if n != null {
        return;
      }
      var cell := NewCell(last, item, count, head, nodes, items);
      count, nodes, items := count + 1, nodes + [cell], items + [item];
    }

    /** s_string_list_delete_item. Positions of the remaining cells are left as they are. */
    method DeleteItem(item: CString)
      requires Valid() && head != null
      modifies this, nodes
      ensures Valid() && (head == null <==> old(items) == [item])
      ensures item !in old(items) ==> items == old(items) && nodes == old(nodes)
      ensures forall k :: 0 <= k < |old(items)| && old(items)[k] == item ==>
        items == Without(old(items), k) && nodes == Without(old(nodes), k)
      ensures forall n :: n in old(nodes) ==> n.pos == old(n.pos) && n.data == old(n.data)
    {
      if head.data.NoData? {
        return;
      }
      var n, index, _ := Search(item);
      if n == null {
        return;
      }
      ghost var nodes', items' := Without(nodes, index), Without(items, index);
      HoldsLess(nodes, items, index);
      head := Unlink(head, n, nodes, index);
      count, nodes, items := count - 1, nodes', items';
    }

    /** s_string_list_find_in_list and s_table_get_index. */
    method FindInList(item: CString) returns (index: int)
      requires Valid() && head != null
      ensures index == -1 <==> item !in items
      ensures index != -1 ==> 0 <= index < |items| && items[index] == item
      ensures item in items ==> index == IndexIn(items, item)
    {
      FindGet(items);
      if head.data.NoData? {
        return -1;
      }
      var n, i, _ := Search(item);
      index := if n == null then -1 else i;
    }

    /** s_string_list_get_data_at_index. With an index equal to the length the program follows the null end of the
        list; the outcome None stands for that. */
    method DataAtIndex(index: int) returns (data: Option<Data>)
      requires Valid() && head != null
      ensures data.None? <==> items != [] && index == |items|
      ensures 0 <= index < |items| ==> data == Some(Text(items[index]))
      ensures index < 0 && items != [] ==> data == Some(Text(items[0]))
      ensures index > |items| || items == [] ==> data == Some(NoData)
    {
      if head.data.NoData? {
        return Some(NoData);
      }
      assert items != [] && |nodes| == |items|;
      var local: Node? := head;
      var i := 0;
      while i < index
        invariant 0 <= i && (if index < 0 then i == 0 else i <= index) && local == At(nodes, i)
        invariant i <= |nodes|
      {
        if local == null {
          return Some(NoData);
        }
        local := local.next;
        i := i + 1;
      }
      return if local == null then None else Some(local.data);
    }

    /** x_gtksheet_add_row_labels and x_gtksheet_add_col_labels: the texts, first to last. */
    method Labels() returns (labels: seq<CString>)
      requires Valid() && head != null
      ensures labels == items
    {
      labels := [];
      if count == 0 {
        return;
      }
      var local: Node? := head;
      var j := 0;
      while j < count && local != null
        invariant 0 <= j <= |nodes| && local == At(nodes, j) && labels == items[..j]
        decreases |nodes| - j
      {
        labels := labels + [local.data.text];
        local, j := local.next, j + 1;
      }
      assert items[..j] == items;
    }

    /** s_string_list_sort_master_comp_list. */
    method SortComponents()
      requires Valid() && head != null
      modifies this, nodes
      ensures Valid() && head != null && multiset(nodes) == old(multiset(nodes))
      ensures StablySorted(ComponentKey, old(items), items)
      ensures forall i :: 0 <= i < |nodes| ==> nodes[i].pos == i
    {
      head, nodes, items := SortComponentCells(head, nodes, items);
      assert |items| == |multiset(items)|;
    }

    /** s_string_list_sort_master_comp_attrib_list. */
    method SortAttribs()
      requires Valid()
      modifies this, nodes
      ensures Valid() && multiset(nodes) == old(multiset(nodes))
      ensures StablySorted(AttribKey, old(items), items)
      ensures forall i :: 0 <= i < |nodes| ==> nodes[i].pos == i
    {
      head, nodes, items := SortAttribCells(head, nodes, items);
      assert |items| == |multiset(items)|;
    }
  }

  /** Finding the place of an item and getting the item at a place undo each other. */
  lemma FindGet(items: seq<CString>)
    requires NoDup(items)
    ensures forall i :: 0 <= i < |items| ==> IndexIn(items, items[i]) == i
    ensures forall item :: item in items ==> 0 <= IndexIn(items, item) < |items| && items[IndexIn(items, item)] == item
  {
    forall i | 0 <= i < |items|
      ensures IndexIn(items, items[i]) == i
    {
      IndexOfElement(items, i);
    }
    assert forall item :: item in items ==> exists i :: 0 <= i < |items| && items[i] == item;
  }

  /** First loop of the component sort. */
  method ClearPositions(head: Node?, ghost nodes: seq<Node>)
    requires Chain(head, nodes)
    modifies nodes`pos
    ensures forall i :: 0 <= i < |nodes| ==> nodes[i].pos == 0
  {
    var p := head;
    ghost var k := 0;
    while p != null
      invariant k <= |nodes| && p == At(nodes, k)
      invariant forall i :: 0 <= i < k ==> nodes[i].pos == 0
      decreases |nodes| - k
    {
      p.pos := 0;
      p, k := p.next, k + 1;
    }
  }

  /** First loop of the attribute sort. */
  method RankPositions(head: Node?, ghost nodes: seq<Node>)
    requires Chain(head, nodes)
    modifies nodes`pos
    ensures forall i :: 0 <= i < |nodes| ==> nodes[i].pos == RankOf(nodes[i].data)
  {
    var p := head;
    ghost var k := 0;
    while p != null
      invariant k <= |nodes| && p == At(nodes, k)
      invariant forall i :: 0 <= i < k ==> nodes[i].pos == RankOf(nodes[i].data)
      decreases |nodes| - k
    {
      p.pos := RankOf(p.data);
      p, k := p.next, k + 1;
    }
  }

  /** Last loop of the attribute sort. */
  method Renumber(head: Node?, ghost nodes: seq<Node>, ghost W: set<Node>)
    requires Chain(head, nodes) && In(nodes, W)
    modifies W`pos
    ensures forall i :: 0 <= i < |nodes| ==> nodes[i].pos == i
  {
    var local, i := head, 0;
    while local != null
      invariant 0 <= i <= |nodes| && local == At(nodes, i)
      invariant forall j :: 0 <= j < i ==> nodes[j].pos == j
      decreases |nodes| - i
    {
      local.pos := i;
      i, local := i + 1, local.next;
    }
  }

  /** Last loops of the component sort: number the cells, stop on the last, walk back to the first. */
  method RenumberAndRewind(head: Node, ghost nodes: seq<Node>, ghost W: set<Node>) returns (first: Node)
    requires Linked(head, nodes) && In(nodes, W)
    modifies W`pos
    ensures first == head
    ensures forall i :: 0 <= i < |nodes| ==> nodes[i].pos == i
  {
    var local, i := head, 0;
    while true
      invariant 0 <= i < |nodes| && local == nodes[i]
      invariant forall j :: 0 <= j < i ==> nodes[j].pos == j
      decreases |nodes| - i
    {
      local.pos := i;
      if local.next == null {
        break;
      }
      i, local := i + 1, local.next;
    }
    ghost var m := |nodes| - 1;
    while local.prev != null
      invariant 0 <= m < |nodes| && local == nodes[m]
      decreases m
    {
      local, m := local.prev, m - 1;
    }
    first := local;
  }

  function RankOf(data: Data): int {
    if data.Text? then AttribRank(data.text) else DEFAULT_ATTRIB_POS
  }

  /** listsort on a string list whose `pos` fields hold the ranks: the texts come back stably sorted. */
  method SortCells(head: Node?, ghost nodes: seq<Node>, ghost items: seq<CString>, ghost rank: CString -> SortKey)
    returns (head': Node?, ghost nodes': seq<Node>, ghost items': seq<CString>)
    requires Linked(head, nodes) && Holds(nodes, items) && NoDup(items)
    requires items != [] ==> forall i :: 0 <= i < |nodes| ==> KeyOf(nodes[i]) == rank(items[i])
    modifies nodes`next, nodes`prev
    ensures Linked(head', nodes') && Holds(nodes', items') && multiset(nodes') == multiset(nodes)
    ensures StablySorted(rank, items, items') && NoDup(items')
  {
    ghost var key := KeysNow(nodes);
    assert forall i :: 0 <= i < |nodes| ==> nodes[i] in nodes && key(nodes[i]) == KeyOf(nodes[i]);
    head', nodes' := Sort(head, nodes);
    items' := SortedTexts(key, rank, nodes, items, nodes');
  }

  lemma SortedTexts(key: Node -> SortKey, rank: CString -> SortKey, nodes: seq<Node>, items: seq<CString>,
                    nodes': seq<Node>)
    returns (items': seq<CString>)
    requires NoDup(nodes) && Holds(nodes, items) && NoDup(items)
    requires items != [] ==> forall i :: 0 <= i < |nodes| ==> key(nodes[i]) == rank(items[i])
    requires StablySorted(key, nodes, nodes')
    ensures Holds(nodes', items') && StablySorted(rank, items, items') && NoDup(items')
  {
    assert |nodes'| == |multiset(nodes')| == |nodes|;
    items' := items;
    if items != [] {
      items' := Map(Lookup(nodes, items, []), nodes');
      CellsToTexts(key, rank, nodes, items, [], nodes', items');
      forall i | 0 <= i < |nodes'|
        ensures nodes'[i].data == Text(items'[i])
      {
        var j :| 0 <= j < |nodes| && nodes'[i] == nodes[j] && items'[i] == items[j];
      }
    } else if nodes' != [] {
      assert nodes'[0] in multiset(nodes);
    }
  }

  /** What the two sorts promise about the list they return. */
  ghost predicate SortedList(rank: CString -> SortKey, nodes: seq<Node>, items: seq<CString>,
                             head': Node?, nodes': seq<Node>, items': seq<CString>)
    reads nodes'`next, nodes'`prev, nodes'`data, nodes'`pos
  {
    && Linked(head', nodes') && Holds(nodes', items') && NoDup(items')
    && multiset(nodes') == multiset(nodes) && StablySorted(rank, items, items')
    && forall i :: 0 <= i < |nodes'| ==> nodes'[i].pos == i
  }

  method SortComponentCells(head: Node, ghost nodes: seq<Node>, ghost items: seq<CString>)
    returns (head': Node, ghost nodes': seq<Node>, ghost items': seq<CString>)
    requires Linked(head, nodes) && Holds(nodes, items) && NoDup(items)
    modifies nodes`next, nodes`prev, nodes`pos
    ensures SortedList(ComponentKey, nodes, items, head', nodes', items')
  {
    ClearPositions(head, nodes);
    var h;
    h, nodes', items' := SortCells(head, nodes, items, ComponentKey);
    ghost var W := SameCells(nodes, nodes');
    head' := RenumberAndRewind(h, nodes', W);
  }

  method SortAttribCells(head: Node?, ghost nodes: seq<Node>, ghost items: seq<CString>)
    returns (head': Node?, ghost nodes': seq<Node>, ghost items': seq<CString>)
    requires Linked(head, nodes) && Holds(nodes, items) && NoDup(items)
    modifies nodes`next, nodes`prev, nodes`pos
    ensures SortedList(AttribKey, nodes, items, head', nodes', items')
  {
    RankPositions(head, nodes);
    head', nodes', items' := SortCells(head, nodes, items, AttribKey);
    ghost var W := SameCells(nodes, nodes');
    Renumber(head', nodes', W);
  }

  lemma SameCells(nodes: seq<Node>, nodes': seq<Node>) returns (W: set<Node>)
    requires multiset(nodes) == multiset(nodes')
    ensures W == (set n | n in nodes) && |nodes| == |nodes'| && In(nodes', W)
  {
    W := set n | n in nodes;
    SameElements(nodes, nodes');
    assert |nodes| == |multiset(nodes)| && |nodes'| == |multiset(nodes')|;
  }

  lemma HoldsMore(nodes: seq<Node>, items: seq<CString>, cell: Node, item: CString)
    requires items != [] && Holds(nodes, items) && NoDup(items) && item !in items && cell.data == Text(item)
    ensures Holds(nodes + [cell], items + [item]) && NoDup(items + [item])
  {
  }

  lemma HoldsLess(nodes: seq<Node>, items: seq<CString>, k: nat)
    requires k < |items| && Holds(nodes, items) && NoDup(items)
    ensures Holds(Without(nodes, k), Without(items, k)) && NoDup(Without(items, k))
  {
  }

  /** A new last cell. */
  method NewCell(last: Node, item: CString, pos: int,
                 ghost head: Node?, ghost nodes: seq<Node>, ghost items: seq<CString>) returns (cell: Node)
    requires Linked(head, nodes) && nodes != [] && last == nodes[|nodes| - 1]
    requires items != [] && Holds(nodes, items) && NoDup(items) && item !in items
    modifies last`next
    ensures fresh(cell) && cell.pos == pos && Linked(head, nodes + [cell])
    ensures Holds(nodes + [cell], items + [item]) && NoDup(items + [item])
  {
    cell := new Node(Text(item), pos);
    cell.prev := last;
    last.next := cell;
    HoldsMore(nodes, items, cell, item);
  }

  /** The four cases of taking the cell n out of the chain. */
  method Unlink(head: Node?, n: Node, ghost nodes: seq<Node>, ghost index: nat) returns (head': Node?)
    requires Linked(head, nodes) && index < |nodes| && nodes[index] == n
    modifies if n.prev == null then {} else {n.prev}`next
    modifies if n.next == null then {} else {n.next}`prev
    ensures Linked(head', Without(nodes, index))
  {
    var prev, next := n.prev, n.next;
    head' := head;
    if next == null && prev == null {
      head' := null;
    } else if next == null {
      prev.next := null;
    } else if prev == null {
      next.prev := null;
      head' := next;
    } else {
      prev.next := next;
      next.prev := prev;
    }
  }

  ghost predicate Holds(nodes: seq<Node>, items: seq<CString>)
    reads nodes`data
  {
    if items == [] then |nodes| <= 1 && forall i :: 0 <= i < |nodes| ==> nodes[i].data.NoData?
    else |nodes| == |items| && forall i :: 0 <= i < |nodes| ==> nodes[i].data == Text(items[i])
  }
}
