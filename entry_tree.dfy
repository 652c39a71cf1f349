/** GsZipEntryNode: the trie of entry names, one node per path segment.

    The nodes of one tree live in a single sequence and refer to each other
    by position: the root is node 0, a node's parent is the position of the
    node it was inserted under, and its children map a segment name to a
    position. A node is always created after its parent, so parents sit at
    lower positions than their children. */
module EntryTree {
  import opened ZipCommon
  import opened Entries
  import ZipUtil

  /** String.split("/") followed by the loops' skip of empty names: the
      empty pieces the split would drop are skipped by every loop anyway. */
  function Names(path: string): seq<string>
  {
    ZipUtil.Pieces(path, {'/'})
  }

  datatype Node = Node(parent: Option<nat>, name: string, children: map<string, nat>, entry: Option<Entry>)

  /** The node the tree starts with: no parent, no name, no entry. */
  const ROOT: Node := Node(None, "", map[], None)

  /** The links agree: every child points back at its parent under the name
      it is filed under, and every node but the root is filed under its
      parent. */
  predicate Linked(nodes: seq<Node>)
  {
    && |nodes| >= 1 && nodes[0].parent == None
    && (forall i, k {:trigger ChildOk(nodes, i, k)} :: 0 <= i < |nodes| && k in nodes[i].children ==>
          ChildOk(nodes, i, k))
    && (forall i :: 0 < i < |nodes| ==> Filed(nodes, i))
  }

  /** The child of node i filed under k comes after it and points back. */
  predicate ChildOk(nodes: seq<Node>, i: nat, k: string)
    requires i < |nodes| && k in nodes[i].children
  {
    var c := nodes[i].children[k];
    i < c < |nodes| && nodes[c].parent == Some(i) && nodes[c].name == k
  }

  /** The node filed under name k below node i. */
  function Child(nodes: seq<Node>, i: nat, k: string): (c: nat)
    requires Linked(nodes) && i < |nodes| && k in nodes[i].children
    ensures c == nodes[i].children[k]
    ensures i < c < |nodes| && nodes[c].parent == Some(i) && nodes[c].name == k
  {
    assert ChildOk(nodes, i, k);
    nodes[i].children[k]
  }

  /** Node i is filed under its parent, which comes before it, by its name. */
  predicate Filed(nodes: seq<Node>, i: nat)
    requires i < |nodes|
  {
    && nodes[i].parent.Some? && nodes[i].parent.value < i
    && nodes[i].name in nodes[nodes[i].parent.value].children
    && nodes[nodes[i].parent.value].children[nodes[i].name] == i
  }

  /** isFile: the node holds an entry and that entry is a file. */
  predicate NodeIsFile(n: Node)
  {
    n.entry.Some? && IsFile(n.entry.value)
  }

  /** getChildWithPath as a value: empty names are skipped, and a missing
      child ends the walk with nothing. */
  function Walk(nodes: seq<Node>, at: nat, names: seq<string>): (r: Option<nat>)
    requires Linked(nodes) && at < |nodes|
    ensures r.Some? ==> r.value < |nodes|
    decreases |names|
  {
    if names == [] then Some(at)
    else if names[0] == "" then Walk(nodes, at, names[1..])
    else if names[0] in nodes[at].children then Walk(nodes, Child(nodes, at, names[0]), names[1..])
    else None
  }

  /** A new node under `at`, filed under `name`, appended at the end. */
  function Create(nodes: seq<Node>, at: nat, name: string): seq<Node>
    requires at < |nodes|
  {
    nodes[at := nodes[at].(children := nodes[at].children[name := |nodes|])]
      + [Node(Some(at), name, map[], None)]
  }

  lemma CreateLinked(nodes: seq<Node>, at: nat, name: string)
    requires Linked(nodes) && at < |nodes| && name !in nodes[at].children
    ensures Linked(Create(nodes, at, name))
  {
    var m := Create(nodes, at, name);
    forall i, k | 0 <= i < |m| && k in m[i].children
      ensures ChildOk(m, i, k)
    {
      if i != at || k != name {
        assert ChildOk(nodes, i, k);
      }
    }
    forall i | 0 < i < |m|
      ensures Filed(m, i)
    {
      if i < |nodes| {
        assert Filed(nodes, i);
        var p := nodes[i].parent.value;
        assert nodes[p].children[nodes[i].name] == i;
        if p == at {
          assert nodes[i].name != name;
        }
      }
    }
  }

  lemma SetEntryLinked(nodes: seq<Node>, at: nat, e: Entry)
    requires Linked(nodes) && at < |nodes|
    ensures Linked(nodes[at := nodes[at].(entry := Some(e))])
  {
    var m := nodes[at := nodes[at].(entry := Some(e))];
    forall i, k | 0 <= i < |m| && k in m[i].children
      ensures ChildOk(m, i, k)
    {
      assert ChildOk(nodes, i, k);
    }
    forall i | 0 < i < |m|
      ensures Filed(m, i)
    {
      assert Filed(nodes, i);
    }
  }

  /** The tree after a successful insertion, and the node that took the entry. */
  datatype Inserted = Inserted(nodes: seq<Node>, node: nat)

  /** addChild as a value: walk the names, refusing to descend below a file
      node and creating every missing node, then attach the entry to the
      last node unless it already holds one. */
  function Insert(nodes: seq<Node>, at: nat, names: seq<string>, e: Entry): (r: Result<Inserted>)
    requires Linked(nodes) && at < |nodes|
    ensures r.Ok? ==> Linked(r.value.nodes) && |nodes| <= |r.value.nodes| && r.value.node < |r.value.nodes|
    decreases |names|
  {
    if names == [] then
      if nodes[at].entry.Some? then Err(EntryAlreadyExists)
      else
        SetEntryLinked(nodes, at, e);
        Ok(Inserted(nodes[at := nodes[at].(entry := Some(e))], at))
    else if names[0] == "" then Insert(nodes, at, names[1..], e)
    else if NodeIsFile(nodes[at]) then Err(AddingChildForFile)
    else if names[0] in nodes[at].children then Insert(nodes, Child(nodes, at, names[0]), names[1..], e)
    else
      CreateLinked(nodes, at, names[0]);
      Insert(Create(nodes, at, names[0]), |nodes|, names[1..], e)
  }

  /** Every child link of `a` is still there in `b`. */
  predicate Grows(a: seq<Node>, b: seq<Node>)
  {
    && |a| <= |b|
    && forall i, k :: 0 <= i < |a| && k in a[i].children ==>
         k in b[i].children && b[i].children[k] == a[i].children[k]
  }

  lemma {:induction false} InsertGrows(nodes: seq<Node>, at: nat, names: seq<string>, e: Entry)
    requires Linked(nodes) && at < |nodes| && Insert(nodes, at, names, e).Ok?
    ensures Grows(nodes, Insert(nodes, at, names, e).value.nodes)
    decreases |names|
  {
    if names == [] {
    } else if names[0] == "" {
      InsertGrows(nodes, at, names[1..], e);
    } else if names[0] in nodes[at].children {
      InsertGrows(nodes, Child(nodes, at, names[0]), names[1..], e);
    } else {
      CreateLinked(nodes, at, names[0]);
      var m := Create(nodes, at, names[0]);
      InsertGrows(m, |nodes|, names[1..], e);
      assert Grows(nodes, m);
    }
  }

  /** A walk that finds a node finds the same node once the tree has grown. */
  lemma {:induction false} WalkGrows(a: seq<Node>, b: seq<Node>, at: nat, names: seq<string>)
    requires Linked(a) && Linked(b) && Grows(a, b) && at < |a|
    requires Walk(a, at, names).Some?
    ensures Walk(b, at, names) == Walk(a, at, names)
    decreases |names|
  {
    if names != [] {
      if names[0] == "" {
        WalkGrows(a, b, at, names[1..]);
      } else {
        WalkGrows(a, b, Child(a, at, names[0]), names[1..]);
      }
    }
  }

  /** After a successful insertion the path leads to the node that took the
      entry, and that node holds it. */
  lemma {:induction false} InsertFinds(nodes: seq<Node>, at: nat, names: seq<string>, e: Entry)
    requires Linked(nodes) && at < |nodes| && Insert(nodes, at, names, e).Ok?
    ensures var ins := Insert(nodes, at, names, e).value;
      Walk(ins.nodes, at, names) == Some(ins.node) && ins.nodes[ins.node].entry == Some(e)
    decreases |names|
  {
    var ins := Insert(nodes, at, names, e).value;
    if names == [] {
    } else if names[0] == "" {
      InsertFinds(nodes, at, names[1..], e);
    } else if names[0] in nodes[at].children {
      var c := Child(nodes, at, names[0]);
      InsertFinds(nodes, c, names[1..], e);
      InsertGrows(nodes, c, names[1..], e);
      assert ins.nodes[at].children[names[0]] == c;
    } else {
      CreateLinked(nodes, at, names[0]);
      var m := Create(nodes, at, names[0]);
      InsertFinds(m, |nodes|, names[1..], e);
      InsertGrows(m, |nodes|, names[1..], e);
      assert m[at].children[names[0]] == |nodes|;
      assert ins.nodes[at].children[names[0]] == |nodes|;
    }
  }

  /** An insertion changes no entry but the one it sets: the old nodes keep
      theirs and the nodes it creates on the way have none. */
  lemma {:induction false} InsertKeepsEntries(nodes: seq<Node>, at: nat, names: seq<string>, e: Entry)
    requires Linked(nodes) && at < |nodes| && Insert(nodes, at, names, e).Ok?
    ensures var ins := Insert(nodes, at, names, e).value;
      forall i :: 0 <= i < |ins.nodes| && i != ins.node ==>
        ins.nodes[i].entry == (if i < |nodes| then nodes[i].entry else None)
    decreases |names|
  {
    if names == [] {
    } else if names[0] == "" {
      InsertKeepsEntries(nodes, at, names[1..], e);
    } else if names[0] in nodes[at].children {
      InsertKeepsEntries(nodes, Child(nodes, at, names[0]), names[1..], e);
    } else {
      CreateLinked(nodes, at, names[0]);
      InsertKeepsEntries(Create(nodes, at, names[0]), |nodes|, names[1..], e);
    }
  }

  /** The node that takes the entry held none before: an insertion never
      replaces an entry, so every entry already in the tree keeps its node. */
  lemma {:induction false} InsertTargetFree(nodes: seq<Node>, at: nat, names: seq<string>, e: Entry)
    requires Linked(nodes) && at < |nodes| && Insert(nodes, at, names, e).Ok?
    ensures var ins := Insert(nodes, at, names, e).value;
      ins.node < |nodes| ==> nodes[ins.node].entry == None
    decreases |names|
  {
    if names == [] {
    } else if names[0] == "" {
      InsertTargetFree(nodes, at, names[1..], e);
    } else if names[0] in nodes[at].children {
      InsertTargetFree(nodes, Child(nodes, at, names[0]), names[1..], e);
    } else {
      CreateLinked(nodes, at, names[0]);
      InsertTargetFree(Create(nodes, at, names[0]), |nodes|, names[1..], e);
    }
  }

  /** Whatever a path found before an insertion it still finds after it. */
  lemma InsertKeepsLookups(nodes: seq<Node>, at: nat, names: seq<string>, e: Entry,
                           from: nat, other: seq<string>)
    requires Linked(nodes) && at < |nodes| && from < |nodes| && Insert(nodes, at, names, e).Ok?
    requires Walk(nodes, from, other).Some?
    ensures Walk(Insert(nodes, at, names, e).value.nodes, from, other) == Walk(nodes, from, other)
  {
    InsertGrows(nodes, at, names, e);
    WalkGrows(nodes, Insert(nodes, at, names, e).value.nodes, from, other);
  }

  /** Insertion below a node that has no entry and no children never fails:
      it only walks through nodes it creates itself. */
  lemma {:induction false} FreshInsertSucceeds(nodes: seq<Node>, at: nat, names: seq<string>, e: Entry)
    requires Linked(nodes) && at < |nodes|
    requires nodes[at].entry == None && nodes[at].children == map[]
    ensures Insert(nodes, at, names, e).Ok?
    decreases |names|
  {
    if names != [] {
      if names[0] == "" {
        FreshInsertSucceeds(nodes, at, names[1..], e);
      } else {
        CreateLinked(nodes, at, names[0]);
        FreshInsertSucceeds(Create(nodes, at, names[0]), |nodes|, names[1..], e);
      }
    }
  }

  /** Some non-empty name on the path is reached, through nodes that already
      exist, at a node that is a file. */
  predicate Blocked(nodes: seq<Node>, at: nat, names: seq<string>)
    requires Linked(nodes) && at < |nodes|
  {
    exists j :: 0 <= j < |names| && names[j] != "" && BlockedAt(nodes, at, names, j)
  }

  predicate BlockedAt(nodes: seq<Node>, at: nat, names: seq<string>, j: nat)
    requires Linked(nodes) && at < |nodes| && j <= |names|
  {
    var w := Walk(nodes, at, names[..j]);
    w.Some? && NodeIsFile(nodes[w.value])
  }

  /** The path already leads to a node with an entry. */
  predicate Taken(nodes: seq<Node>, at: nat, names: seq<string>)
    requires Linked(nodes) && at < |nodes|
  {
    var w := Walk(nodes, at, names);
    w.Some? && nodes[w.value].entry.Some?
  }

  /** `next` is where the first name leads from `at`. */
  predicate FirstStep(nodes: seq<Node>, at: nat, next: nat, names: seq<string>)
    requires Linked(nodes) && at < |nodes| && names != []
  {
    if names[0] == "" then next == at
    else names[0] in nodes[at].children && next == nodes[at].children[names[0]]
  }

  lemma BlockedAtShift(nodes: seq<Node>, at: nat, next: nat, names: seq<string>, j: nat)
    requires Linked(nodes) && at < |nodes| && next < |nodes| && 1 <= j <= |names|
    requires FirstStep(nodes, at, next, names)
    ensures BlockedAt(nodes, at, names, j) == BlockedAt(nodes, next, names[1..], j - 1)
  {
    assert names[..j][0] == names[0];
    assert names[..j][1..] == names[1..][..j - 1];
  }

  /** An insertion fails exactly when the path is blocked by a file or
      already taken, both judged on the tree before the insertion. Which
      error it reports is not pinned down when both hold. */
  lemma {:induction false} InsertFails(nodes: seq<Node>, at: nat, names: seq<string>, e: Entry)
    requires Linked(nodes) && at < |nodes|
    ensures Insert(nodes, at, names, e).Err? <==> Blocked(nodes, at, names) || Taken(nodes, at, names)
    ensures Insert(nodes, at, names, e) == Err(EntryAlreadyExists) ==> Taken(nodes, at, names)
    ensures Insert(nodes, at, names, e) == Err(AddingChildForFile) ==> Blocked(nodes, at, names)
    decreases |names|
  {
    if names == [] {
      assert !Blocked(nodes, at, names);
    } else if names[0] == "" {
      InsertFails(nodes, at, names[1..], e);
      ShiftBlocked(nodes, at, at, names);
    } else if NodeIsFile(nodes[at]) {
      assert names[..0] == [];
      assert BlockedAt(nodes, at, names, 0);
    } else if names[0] in nodes[at].children {
      var c := Child(nodes, at, names[0]);
      InsertFails(nodes, c, names[1..], e);
      ShiftBlocked(nodes, at, c, names);
    } else {
      CreateLinked(nodes, at, names[0]);
      FreshInsertSucceeds(Create(nodes, at, names[0]), |nodes|, names[1..], e);
      NotBlockedMissing(nodes, at, names);
    }
  }

  /** Past the first name, the blocked positions are those of the rest of
      the path from the node the first name leads to. */
  lemma ShiftBlocked(nodes: seq<Node>, at: nat, next: nat, names: seq<string>)
    requires Linked(nodes) && at < |nodes| && next < |nodes| && names != []
    requires !NodeIsFile(nodes[at]) || names[0] == ""
    requires FirstStep(nodes, at, next, names)
    ensures Blocked(nodes, at, names) <==> Blocked(nodes, next, names[1..])
    ensures Taken(nodes, at, names) <==> Taken(nodes, next, names[1..])
  {
    if Blocked(nodes, at, names) {
      var j :| 0 <= j < |names| && names[j] != "" && BlockedAt(nodes, at, names, j);
      if j == 0 {
        assert false;
      }
      BlockedAtShift(nodes, at, next, names, j);
      assert names[1..][j - 1] == names[j];
    }
    if Blocked(nodes, next, names[1..]) {
      var j :| 0 <= j < |names[1..]| && names[1..][j] != "" && BlockedAt(nodes, next, names[1..], j);
      BlockedAtShift(nodes, at, next, names, j + 1);
    }
  }

  /** A first name with no child under a non-file node: nothing further on
      exists, so the path is neither blocked nor taken. */
  lemma NotBlockedMissing(nodes: seq<Node>, at: nat, names: seq<string>)
    requires Linked(nodes) && at < |nodes| && names != []
    requires names[0] != "" && !NodeIsFile(nodes[at]) && names[0] !in nodes[at].children
    ensures !Blocked(nodes, at, names) && !Taken(nodes, at, names)
  {
  }

  /** Every node whose parent is `at` is filed under `at` by its name. */
  lemma ChildrenFiled(nodes: seq<Node>, at: nat)
    requires Linked(nodes) && at < |nodes|
    ensures forall c :: 0 <= c < |nodes| && nodes[c].parent == Some(at) ==>
      nodes[c].name in nodes[at].children && nodes[at].children[nodes[c].name] == c
    ensures forall k :: k in nodes[at].children ==>
      nodes[at].children[k] < |nodes| && nodes[nodes[at].children[k]].parent == Some(at)
  {
    forall k | k in nodes[at].children
      ensures nodes[at].children[k] < |nodes| && nodes[nodes[at].children[k]].parent == Some(at)
    {
      assert ChildOk(nodes, at, k);
    }
    forall c | 0 <= c < |nodes| && nodes[c].parent == Some(at)
      ensures nodes[c].name in nodes[at].children && nodes[at].children[nodes[c].name] == c
    {
      assert Filed(nodes, c);
    }
  }

  /** The tree of one archive. */
  class EntryNodes {
    var nodes: seq<Node>

    predicate Valid()
      reads this
    {
      Linked(nodes)
    }

    /** A tree holding only the root. */
    constructor()
      ensures Valid() && nodes == [ROOT]
    {
      nodes := [ROOT];
    }

    /** getParent: nothing for the root and only for the root; otherwise the
        node the given one is filed under, by its own name. */
    function GetParent(at: nat): (r: Option<nat>)
      reads this
      requires Valid() && at < |nodes|
      ensures r.None? <==> at == 0
      ensures r.Some? ==> r.value < at && nodes[at].name in nodes[r.value].children
                          && nodes[r.value].children[nodes[at].name] == at
    {
      assert at > 0 ==> Filed(nodes, at);
      nodes[at].parent
    }

    /** getChildren: exactly the nodes whose parent is the given one. */
    function GetChildren(at: nat): (r: set<nat>)
      reads this
      requires Valid() && at < |nodes|
      ensures forall c :: c in r ==> c < |nodes| && nodes[c].parent == Some(at)
      ensures forall c :: 0 <= c < |nodes| && nodes[c].parent == Some(at) ==> c in r
    {
      ChildrenFiled(nodes, at);
      set k | k in nodes[at].children :: nodes[at].children[k]
    }

    /** getChild: the node filed under one name; a name holding '/' is never
        a key, since insertion files nodes under single segments. */
    function GetChild(at: nat, name: string): (r: Option<nat>)
      reads this
      requires Valid() && at < |nodes|
      ensures r.Some? <==> name in nodes[at].children
      ensures r.Some? ==> r.value < |nodes| && nodes[r.value].parent == Some(at) && nodes[r.value].name == name
    {
      if name in nodes[at].children then Some(Child(nodes, at, name)) else None
    }

    /** isFile of the node at a position. */
    predicate IsFileNode(at: nat)
      reads this
      requires Valid() && at < |nodes|
    {
      NodeIsFile(nodes[at])
    }

    /** getChildWithPath: follow the non-empty names from `at`, stopping with
        nothing at the first one that is missing. */
    method GetChildWithPath(at: nat, path: string) returns (r: Option<nat>)
      requires Valid() && at < |nodes|
      ensures r == Walk(nodes, at, Names(path))
    {
      var names := Names(path);
      var node: nat := at;
      var i := 0;
      while i < |names|
        invariant i <= |names| && node < |nodes|
        invariant Walk(nodes, node, names[i..]) == Walk(nodes, at, names)
      {
        var name := names[i];
        assert names[i..][1..] == names[i + 1..];
        i := i + 1;
        if name == "" {
          continue;
        }
        var child := GetChild(node, name);
        if child.None? {
          return None;
        }
        node := child.value;
      }
      r := Some(node);
    }

    /** addChild: walk the names from `at`, failing below a file node and
        creating missing nodes, then attach the entry to the last node
        unless it already has one. A failure happens before any node is
        created, so it leaves the tree as it was. */
    method AddChild(at: nat, path: string, e: Entry) returns (r: Outcome)
      requires Valid() && at < |nodes|
      modifies this
      ensures Valid()
      ensures var ins := Insert(old(nodes), at, Names(path), e);
        && (r.Pass? <==> ins.Ok?)
        && (ins.Ok? ==> nodes == ins.value.nodes)
        && (ins.Err? ==> r == Fail(ins.error) && nodes == old(nodes))
    {
      var names := Names(path);
      var node: nat := at;
      var i := 0;
      while i < |names|
        invariant i <= |names| && Linked(nodes) && node < |nodes|
        invariant Insert(nodes, node, names[i..], e) == Insert(old(nodes), at, names, e)
        invariant nodes != old(nodes) ==>
          node >= |old(nodes)| && nodes[node].entry == None && nodes[node].children == map[]
      {
        var name := names[i];
        assert names[i..][1..] == names[i + 1..];
        i := i + 1;
        if name == "" {
          continue;
        }
        var check := Check(!IsFileNode(node), AddingChildForFile);
        if check.Fail? {
          return check;
        }
        var child := GetChild(node, name);
        if child.None? {
          CreateLinked(nodes, node, name);
          nodes := Create(nodes, node, name);
          child := Some(|nodes| - 1);
        }
        node := child.value;
      }
      var check := Check(nodes[node].entry == None, EntryAlreadyExists);
      if check.Fail? {
        return check;
      }
      SetEntryLinked(nodes, node, e);
      nodes := nodes[node := nodes[node].(entry := Some(e))];
      r := Pass;
    }
  }

  /** The lookup after an insertion: the path now leads to a node holding
      the inserted entry. */
  lemma AddThenGet(nodes: seq<Node>, path: string, e: Entry)
    requires Linked(nodes) && Insert(nodes, 0, Names(path), e).Ok?
    ensures var ins := Insert(nodes, 0, Names(path), e).value;
      Walk(ins.nodes, 0, Names(path)).Some?
      && ins.nodes[Walk(ins.nodes, 0, Names(path)).value].entry == Some(e)
  {
    InsertFinds(nodes, 0, Names(path), e);
  }
}
