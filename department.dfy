/** Department tree assembly and the department service's guards
    (backend/app/services/system/department.py). Rows come as a flat list with a
    `parent_id`; the tree nests every row under the row whose id is its parent. */
module Departments {
  import opened Base

  /** A department row. `parentId` is None for a NULL or missing `parent_id`;
      `enabledFlag` is the soft-delete flag (1 for a live row). */
  datatype Dept = Dept(
    id: int, parentId: Option<int>, name: string, sort: int, status: int,
    description: Option<string>, enabledFlag: int)

  /** A tree node: the row itself plus its "children" entry, which is None
      (here `NoChildren`) rather than an empty list when the row has no children. */
  datatype Node = Node(dept: Dept, children: Children)
  datatype Children = NoChildren | Kids(nodes: seq<Node>)

  /** The recursion of `build_tree` terminates when the parent links admit a
      ranking that drops from every parent to each of its children. A row
      linked to itself (in particular id 0 under parent 0) or a cycle has none. */
  ghost predicate Ranked(depts: seq<Dept>, rank: int -> nat)
  {
    forall i :: 0 <= i < |depts| && depts[i].parentId.Some? ==>
      rank(depts[i].id) < rank(depts[i].parentId.value)
  }

  /** The rows whose parent is `p`, in input order: the reference for one level. */
  function ChildrenOf(depts: seq<Dept>, p: int): seq<Dept>
  {
    if depts == [] then []
    else (if depts[0].parentId == Some(p) then [depts[0]] else []) + ChildrenOf(depts[1..], p)
  }

  /** The rows of a forest, each node before its children, siblings in order. */
  function Members(nodes: seq<Node>): seq<Dept>
    decreases nodes
  {
    if nodes == [] then [] else NodeMembers(nodes[0]) + Members(nodes[1..])
  }

  /** The rows of one node's subtree, the node's own row first. */
  function NodeMembers(n: Node): seq<Dept>
    decreases n
  {
    [n.dept] + match n.children case NoChildren => [] case Kids(kids) => Members(kids)
  }

  function Rows(nodes: seq<Node>): seq<Dept>
  {
    if nodes == [] then [] else [nodes[0].dept] + Rows(nodes[1..])
  }

  /** `children if children else None`. */
  function Wrap(kids: seq<Node>): Children
  {
    if kids == [] then NoChildren else Kids(kids)
  }

  /** The nodes the loop of `build_tree(depts, p)` appends for the rows from
      index `from` on; each matching row recurses on its own id. */
  function Layer(depts: seq<Dept>, from: nat, p: int, ghost rank: int -> nat): seq<Node>
    requires from <= |depts| && Ranked(depts, rank)
    decreases rank(p), |depts| - from
  {
    if from == |depts| then []
    else
      var d := depts[from];
      var rest := Layer(depts, from + 1, p, rank);
      if d.parentId == Some(p) then
        [Node(d, Wrap(Layer(depts, 0, d.id, rank)))] + rest
      else rest
  }

  /** `DepartmentService.build_tree(depts, p)`. */
  function BuildTree(depts: seq<Dept>, p: int, ghost rank: int -> nat): seq<Node>
    requires Ranked(depts, rank)
  {
    if depts == [] then [] else Layer(depts, 0, p, rank)
  }

  /** The loop of `build_tree` as written: a list grown by appending, one
      recursive call per matching row. */
  method BuildTreeLoop(depts: seq<Dept>, p: int, ghost rank: int -> nat) returns (tree: seq<Node>)
    requires Ranked(depts, rank)
    ensures tree == BuildTree(depts, p, rank)
    decreases rank(p)
  {
    if depts == [] {
      return [];
    }
    tree := [];
    for i := 0 to |depts|
      invariant tree + Layer(depts, i, p, rank) == Layer(depts, 0, p, rank)
    {
      var dept := depts[i];
      if dept.parentId == Some(p) {
        var children := BuildTreeLoop(depts, dept.id, rank);
        var node := Node(dept, if children == [] then NoChildren else Kids(children));
        assert Layer(depts, i, p, rank) == [node] + Layer(depts, i + 1, p, rank);
        tree := tree + [node];
      }
    }
  }

  lemma {:induction false} LayerRows(depts: seq<Dept>, from: nat, p: int, rank: int -> nat)
    requires from <= |depts| && Ranked(depts, rank)
    ensures Rows(Layer(depts, from, p, rank)) == ChildrenOf(depts[from..], p)
    decreases |depts| - from
  {
    if from < |depts| {
      LayerRows(depts, from + 1, p, rank);
      assert depts[from..][1..] == depts[from + 1..];
    }
  }

  /** The top level of `build_tree(depts, p)` is exactly the rows whose parent
      is `p`, in input order, each node holding its row unchanged. */
  lemma TopLevel(depts: seq<Dept>, p: int, rank: int -> nat)
    requires Ranked(depts, rank)
    ensures Rows(BuildTree(depts, p, rank)) == ChildrenOf(depts, p)
  {
    if depts != [] {
      LayerRows(depts, 0, p, rank);
      assert depts[0..] == depts;
    }
  }

  /** No node at any depth carries an empty children list. */
  ghost predicate NoEmptyChildren(nodes: seq<Node>)
    decreases nodes
  {
    forall i :: 0 <= i < |nodes| ==> NodeHasNoEmptyChildren(nodes[i])
  }

  ghost predicate NodeHasNoEmptyChildren(n: Node)
    decreases n
  {
    match n.children
    case NoChildren => true
    case Kids(kids) => kids != [] && NoEmptyChildren(kids)
  }

  lemma {:induction false} LayerNoEmptyChildren(depts: seq<Dept>, from: nat, p: int, rank: int -> nat)
    requires from <= |depts| && Ranked(depts, rank)
    ensures NoEmptyChildren(Layer(depts, from, p, rank))
    decreases rank(p), |depts| - from
  {
    if from < |depts| {
      var d := depts[from];
      LayerNoEmptyChildren(depts, from + 1, p, rank);
      if d.parentId == Some(p) {
        LayerNoEmptyChildren(depts, 0, d.id, rank);
        var nodes := Layer(depts, from, p, rank);
        var rest := Layer(depts, from + 1, p, rank);
        assert nodes == [Node(d, Wrap(Layer(depts, 0, d.id, rank)))] + rest;
        forall i | 0 <= i < |nodes| ensures NodeHasNoEmptyChildren(nodes[i]) {
          if i > 0 { assert nodes[i] == rest[i - 1]; }
        }
      }
    }
  }

  /** A node with no children carries None, never an empty list, at every depth. */
  lemma NoEmptyChildrenAnywhere(depts: seq<Dept>, p: int, rank: int -> nat)
    requires Ranked(depts, rank)
    ensures NoEmptyChildren(BuildTree(depts, p, rank))
  {
    if depts != [] {
      LayerNoEmptyChildren(depts, 0, p, rank);
    }
  }

  /** Each top-level node's children are the tree built under its own id. */
  lemma ChildrenAreSubtrees(depts: seq<Dept>, p: int, rank: int -> nat, i: nat)
    requires Ranked(depts, rank)
    requires i < |BuildTree(depts, p, rank)|
    ensures var n := BuildTree(depts, p, rank)[i];
      n.children == Wrap(BuildTree(depts, n.dept.id, rank))
  {
    LayerChildren(depts, 0, p, rank, i);
  }

  lemma {:induction false} LayerChildren(depts: seq<Dept>, from: nat, p: int, rank: int -> nat, i: nat)
    requires from <= |depts| && Ranked(depts, rank)
    requires i < |Layer(depts, from, p, rank)|
    ensures var n := Layer(depts, from, p, rank)[i];
      n.children == Wrap(BuildTree(depts, n.dept.id, rank))
    decreases |depts| - from
  {
    var d := depts[from];
    if d.parentId == Some(p) {
      if i > 0 { LayerChildren(depts, from + 1, p, rank, i - 1); }
    } else {
      LayerChildren(depts, from + 1, p, rank, i);
    }
  }

  /** `x` hangs below `p`: its parent is `p`, or is a row that hangs below `p`. */
  ghost predicate Below(depts: seq<Dept>, p: int, x: Dept, rank: int -> nat)
    requires Ranked(depts, rank)
    decreases rank(p)
  {
    || x.parentId == Some(p)
    || exists i :: 0 <= i < |depts| && depts[i].parentId == Some(p) && Below(depts, depts[i].id, x, rank)
  }

  /** `x` is one of the rows from index `from` on whose parent is `p`, or hangs
      below one of them. */
  ghost predicate HangsFrom(depts: seq<Dept>, from: nat, p: int, x: Dept, rank: int -> nat)
    requires Ranked(depts, rank)
  {
    exists j :: from <= j < |depts| && depts[j].parentId == Some(p) &&
      (x == depts[j] || (x in depts && Below(depts, depts[j].id, x, rank)))
  }

  lemma HangsFromStep(depts: seq<Dept>, from: nat, p: int, x: Dept, rank: int -> nat)
    requires from < |depts| && Ranked(depts, rank)
    ensures HangsFrom(depts, from, p, x, rank) <==>
      || (depts[from].parentId == Some(p) &&
          (x == depts[from] || (x in depts && Below(depts, depts[from].id, x, rank))))
      || HangsFrom(depts, from + 1, p, x, rank)
  {
  }

  lemma {:induction false} LayerMembers(depts: seq<Dept>, from: nat, p: int, rank: int -> nat, x: Dept)
    requires from <= |depts| && Ranked(depts, rank)
    ensures x in Members(Layer(depts, from, p, rank)) <==> HangsFrom(depts, from, p, x, rank)
    decreases rank(p), |depts| - from
  {
    if from < |depts| {
      var d := depts[from];
      LayerMembers(depts, from + 1, p, rank, x);
      HangsFromStep(depts, from, p, x, rank);
      if d.parentId == Some(p) {
        var kids := Layer(depts, 0, d.id, rank);
        var rest := Layer(depts, from + 1, p, rank);
        var nodes := [Node(d, Wrap(kids))] + rest;
        assert nodes[1..] == rest;
        assert Members(nodes) == NodeMembers(nodes[0]) + Members(rest);
        assert NodeMembers(nodes[0]) == [d] + Members(kids);
        LayerMembers(depts, 0, d.id, rank, x);
        TreeMembersStep(depts, d.id, rank, x);
      }
    }
  }

  /** One level of the membership argument, for the subtree under `q`. */
  lemma {:induction false} TreeMembersStep(depts: seq<Dept>, q: int, rank: int -> nat, x: Dept)
    requires Ranked(depts, rank)
    requires x in Members(Layer(depts, 0, q, rank)) <==> HangsFrom(depts, 0, q, x, rank)
    ensures x in Members(Layer(depts, 0, q, rank)) <==> x in depts && Below(depts, q, x, rank)
  {
    if x in depts && Below(depts, q, x, rank) {
      if x.parentId == Some(q) {
        var j :| 0 <= j < |depts| && depts[j] == x;
        assert depts[j].parentId == Some(q);
      }
    }
  }

  /** A row appears in `build_tree(depts, p)` (at any depth) exactly when it is
      one of the input rows and its chain of parents reaches `p`. */
  lemma TreeMembers(depts: seq<Dept>, p: int, rank: int -> nat, x: Dept)
    requires Ranked(depts, rank)
    ensures x in Members(BuildTree(depts, p, rank)) <==> x in depts && Below(depts, p, x, rank)
  {
    if depts != [] {
      LayerMembers(depts, 0, p, rank, x);
      TreeMembersStep(depts, p, rank, x);
    }
  }

  lemma {:induction false} BelowEndsAtRow(depts: seq<Dept>, p: int, rank: int -> nat, x: Dept)
    requires Ranked(depts, rank)
    requires Below(depts, p, x, rank)
    ensures x.parentId.Some?
    ensures x.parentId.value == p || exists i :: 0 <= i < |depts| && depts[i].id == x.parentId.value
    decreases rank(p)
  {
    if x.parentId != Some(p) {
      var i :| 0 <= i < |depts| && depts[i].parentId == Some(p) && Below(depts, depts[i].id, x, rank);
      BelowEndsAtRow(depts, depts[i].id, rank, x);
      if x.parentId.value == depts[i].id {
        assert exists k :: 0 <= k < |depts| && depts[k].id == x.parentId.value;
      }
    }
  }

  /** A row with a NULL parent, or whose parent is neither `p` nor any row,
      never appears in the tree. */
  lemma OrphansNeverAppear(depts: seq<Dept>, p: int, rank: int -> nat, x: Dept)
    requires Ranked(depts, rank)
    requires x.parentId.None? ||
      (x.parentId.value != p && forall i :: 0 <= i < |depts| ==> depts[i].id != x.parentId.value)
    ensures x !in Members(BuildTree(depts, p, rank))
  {
    TreeMembers(depts, p, rank, x);
    if Below(depts, p, x, rank) {
      BelowEndsAtRow(depts, p, rank, x);
    }
  }

  // ------------------------------------------------------------------ service

  /** The live rows, in store order: what `Department.get_list()` returns. */
  function LiveDepts(store: seq<Dept>): (r: seq<Dept>)
    ensures |r| <= |store|
    ensures forall d :: d in r <==> d in store && d.enabledFlag == 1
  {
    if store == [] then []
    else (if store[0].enabledFlag == 1 then [store[0]] else []) + LiveDepts(store[1..])
  }

  /** `DepartmentService.list()`: [] for an empty list of rows, otherwise the
      tree under parent 0. Its roots are the rows with parent 0 in order; a row
      appears exactly when its chain of parents reaches 0. */
  function ListTree(all: seq<Dept>, ghost rank: int -> nat): (tree: seq<Node>)
    requires Ranked(all, rank)
    ensures all == [] ==> tree == []
    ensures Rows(tree) == ChildrenOf(all, 0)
    ensures forall x :: x in Members(tree) <==> x in all && Below(all, 0, x, rank)
    ensures NoEmptyChildren(tree)
  {
    TopLevel(all, 0, rank);
    NoEmptyChildrenAnywhere(all, 0, rank);
    forall x ensures x in Members(BuildTree(all, 0, rank)) <==> x in all && Below(all, 0, x, rank) {
      TreeMembers(all, 0, rank, x);
    }
    if all == [] then [] else BuildTree(all, 0, rank)
  }

  /** A user row's link to a department. */
  datatype UserLink = UserLink(deptId: Option<int>, enabledFlag: int)

  datatype DeleteError = HasChildren | HasUsers

  predicate HasLiveChild(store: seq<Dept>, id: int)
  {
    exists i :: 0 <= i < |store| && store[i].enabledFlag == 1 && store[i].parentId == Some(id)
  }

  predicate HasLiveUser(users: seq<UserLink>, id: int)
  {
    exists i :: 0 <= i < |users| && users[i].enabledFlag == 1 && users[i].deptId == Some(id)
  }

  /** Soft deletion, the assumed effect of the ORM call `Department.delete`
      (its code is not part of this model): every row with that id gets
      enabled flag 0, and nothing else changes. */
  function SoftDelete(store: seq<Dept>, id: int): (r: seq<Dept>)
    ensures |r| == |store|
    ensures forall i :: 0 <= i < |store| ==>
      r[i] == if store[i].id == id then store[i].(enabledFlag := 0) else store[i]
  {
    if store == [] then []
    else [if store[0].id == id then store[0].(enabledFlag := 0) else store[0]] + SoftDelete(store[1..], id)
  }

  /** `DepartmentService.deleted`: a department with a live child is refused
      first, then one with a live user; only when both checks pass is it
      soft-deleted, every other row unchanged. */
  function DeleteDept(store: seq<Dept>, users: seq<UserLink>, id: int): (r: Result<seq<Dept>, DeleteError>)
    ensures r == Err(HasChildren) <==> HasLiveChild(store, id)
    ensures r == Err(HasUsers) <==> !HasLiveChild(store, id) && HasLiveUser(users, id)
    ensures r.Ok? <==> !HasLiveChild(store, id) && !HasLiveUser(users, id)
    ensures r.Ok? ==> r.value == SoftDelete(store, id)
  {
    if HasLiveChild(store, id) then Err(HasChildren)
    else if HasLiveUser(users, id) then Err(HasUsers)
    else Ok(SoftDelete(store, id))
  }

  /** After a successful deletion the listing no longer holds the department
      and holds every other live row, in the same order. */
  lemma {:induction false} DeletedLeavesListing(store: seq<Dept>, id: int)
    ensures forall d :: d in LiveDepts(SoftDelete(store, id)) ==> d.id != id
    ensures LiveDepts(SoftDelete(store, id)) == WithoutId(LiveDepts(store), id)
  {
    if store != [] {
      DeletedLeavesListing(store[1..], id);
      assert SoftDelete(store, id)[1..] == SoftDelete(store[1..], id);
      LiveWithout(store, id);
    }
  }

  function WithoutId(depts: seq<Dept>, id: int): seq<Dept>
  {
    if depts == [] then [] else (if depts[0].id == id then [] else [depts[0]]) + WithoutId(depts[1..], id)
  }

  lemma {:induction false} WithoutIdAppend(a: seq<Dept>, b: seq<Dept>, id: int)
    ensures WithoutId(a + b, id) == WithoutId(a, id) + WithoutId(b, id)
  {
    if a != [] {
      WithoutIdAppend(a[1..], b, id);
      assert (a + b)[0] == a[0];
      assert (a + b)[1..] == a[1..] + b;
      var h := if a[0].id == id then [] else [a[0]];
      assert WithoutId(a + b, id) == h + WithoutId(a[1..] + b, id);
      assert WithoutId(a, id) == h + WithoutId(a[1..], id);
    } else {
      assert a + b == b;
    }
  }

  lemma LiveWithout(store: seq<Dept>, id: int)
    requires store != []
    ensures LiveDepts(store) == (if store[0].enabledFlag == 1 then [store[0]] else []) + LiveDepts(store[1..])
    ensures WithoutId(LiveDepts(store), id) ==
      WithoutId(if store[0].enabledFlag == 1 then [store[0]] else [], id) + WithoutId(LiveDepts(store[1..]), id)
  {
    WithoutIdAppend(if store[0].enabledFlag == 1 then [store[0]] else [], LiveDepts(store[1..]), id);
  }
}
