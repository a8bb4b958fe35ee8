/** The tree of the virtual file system: nodes on the heap with links to their parents, built in
    place from the linear stream of entries and ends of directories that an iterator gives. */
module VfsTree {
  import opened HostStorage
  import opened Options
  import opened Paths
  import opened TreeCursor
  import opened TreeOnDisk

  // ---- The nodes --------------------------------------------------------------------------------

  class TreeNode {
    const parent: TreeNode?
    const name: string
    ghost const depth: nat
    var storage: Option<nat>
    var entries: seq<TreeNode>
    ghost var view: Tree     // the tree below this node

    constructor (parent: TreeNode?, name: string)
      ensures this.parent == parent && this.name == name && storage == None && entries == []
      ensures depth == (if parent == null then 0 else parent.depth + 1) && view == Tree(name, None, [])
    {
      this.parent, this.name, depth := parent, name, if parent == null then 0 else parent.depth + 1;
      storage, entries, view := None, [], Tree(name, None, []);
    }

    method EmplaceBack(name: string) returns (n: TreeNode)
      modifies `entries
      ensures fresh(n) && entries == old(entries) + [n]
      ensures n.parent == this && n.name == name && n.storage == None && n.entries == []
      ensures n.depth == depth + 1 && n.view == Tree(name, None, [])
    {
      n := new TreeNode(this, name);
      entries := entries + [n];
    }

    // From the node up to the root; the root's empty name leaves a slash in front.
    method GeneratePath() returns (path: string)
      requires Rooted(this)
      ensures path == Join(AllNames(this))
    {
      path := name;
      var p := parent;
      while p != null
        invariant p != null ==> Rooted(p)
        invariant Join((if p == null then [] else AllNames(p)) + [path]) == Join(AllNames(this))
        decreases if p == null then 0 else p.depth + 1
      {
        hide Join;
        ghost var above := if p.parent == null then [] else AllNames(p.parent);
        JoinLast(above, p.name, path);
        assert AllNames(p) + [path] == above + [p.name, path];
        ghost var below := path;
        path := "/" + path;
        path := p.name + path;
        assert path == p.name + "/" + below;
        p := p.parent;
      }
    }

    method Find(name: string) returns (n: TreeNode?)
      ensures n == FirstNamed(entries, name)
      ensures n != null ==>
                exists i :: 0 <= i < |entries| && entries[i] == n && n.name == name &&
                            forall k :: 0 <= k < i ==> entries[k].name != name
    {
      for i := 0 to |entries|
        invariant FirstNamed(entries, name) == FirstNamed(entries[i..], name)
        invariant forall k :: 0 <= k < i ==> entries[k].name != name
      {
        if entries[i].name == name {
          return entries[i];
        }
      }
      n := null;
    }
  }

  // The parents lead to a root.
  ghost predicate Rooted(n: TreeNode)
    decreases n.depth
  {
    n.parent != null ==> n.parent.depth < n.depth && Rooted(n.parent)
  }

  // The names from the root down to a node.
  ghost function AllNames(n: TreeNode): (names: seq<string>)
    requires Rooted(n)
    ensures names != []
    decreases n.depth
  {
    (if n.parent == null then [] else AllNames(n.parent)) + [n.name]
  }

  // Without the root's own, which is empty.
  ghost function Names(n: TreeNode): seq<string>
    requires Rooted(n)
  {
    AllNames(n)[1..]
  }

  function FirstNamed(entries: seq<TreeNode>, name: string): (n: TreeNode?)
    ensures n != null ==> n in entries && n.name == name
    ensures n == null ==> forall c :: c in entries ==> c.name != name
  {
    if entries == [] then null
    else if entries[0].name == name then entries[0]
    else FirstNamed(entries[1..], name)
  }

  // It is the first: no entry before it has the name.
  lemma {:induction false} FirstIsFirst(entries: seq<TreeNode>, name: string) returns (i: nat)
    requires FirstNamed(entries, name) != null
    ensures i < |entries| && entries[i] == FirstNamed(entries, name) && entries[i].name == name
    ensures forall k :: 0 <= k < i ==> entries[k].name != name
  {
    if entries[0].name == name {
      i := 0;
    } else {
      i := FirstIsFirst(entries[1..], name);
      i := i + 1;
    }
  }

  lemma {:induction false} OnlyOneNamed(entries: seq<TreeNode>, n: TreeNode)
    requires n in entries && forall i, j :: 0 <= i < j < |entries| ==> entries[i].name != entries[j].name
    ensures FirstNamed(entries, n.name) == n
  {
    if entries[0] != n {
      OnlyOneNamed(entries[1..], n);
    }
  }

  ghost function Views(nodes: seq<TreeNode>): (views: seq<Tree>)
    reads nodes
    ensures |views| == |nodes| && forall i :: 0 <= i < |nodes| ==> views[i] == nodes[i].view
  {
    if nodes == [] then [] else [nodes[0].view] + Views(nodes[1..])
  }

  // The entries of a node are different nodes, and have it as their parent; and it is an entry
  // of its own parent.
  ghost predicate Linked(n: TreeNode, nodes: set<TreeNode>)
    reads n`entries, (if n.parent == null then {} else {n.parent})`entries
  {
    && (forall i :: 0 <= i < |n.entries| ==> n.entries[i] in nodes && n.entries[i].parent == n)
    && (forall i, j :: 0 <= i < j < |n.entries| ==> n.entries[i] != n.entries[j])
    && (n.parent != null ==> n.parent in nodes && n in n.parent.entries && n.depth == n.parent.depth + 1)
  }

  ghost predicate Rendered(n: TreeNode)
    reads n, n.entries
  {
    n.view == Tree(n.name, n.storage, Views(n.entries))
  }

  lemma NowRendered(n: TreeNode)
    requires n.view == Tree(n.name, n.storage, Views(n.entries))
    ensures Rendered(n)
  {
  }

  class Vfs {
    const root: TreeNode
    ghost var nodes: set<TreeNode>

    ghost predicate AllLinked()
      reads this, nodes`entries
    {
      && root in nodes && root.parent == null && root.depth == 0 && root.name == ""
      && (forall n {:trigger n.parent} :: n in nodes ==> if n.parent == null then n == root else n.parent in nodes)
      && (forall n {:trigger Linked(n, nodes)} :: n in nodes ==> Linked(n, nodes))
    }

    ghost predicate Valid()
      reads this, nodes
    {
      AllLinked() && forall n :: n in nodes ==> Linked(n, nodes) && Rendered(n)
    }

    // The nodes from the root down to the current one, each the last entry of the one before.
    ghost predicate OnSpine(spine: seq<TreeNode>)
      reads this, nodes`entries
    {
      && spine != [] && spine[0] == root
      && (forall k :: 0 <= k < |spine| ==> spine[k] in nodes && spine[k].depth == k)
      && (forall i, k :: 0 <= i < k < |spine| && k == i + 1 ==> IsLast(spine[i], spine[k]))
    }

    constructor ()
      ensures Valid() && fresh(root) && fresh(nodes) && root.view == Tree("", None, [])
    {
      var n := new TreeNode(null, "");
      root, nodes := n, {n};
    }

    ghost predicate IsLast(p: TreeNode, n: TreeNode)
      reads p`entries
    {
      p.entries != [] && p.entries[|p.entries| - 1] == n
    }

    lemma SpineStep(spine: seq<TreeNode>, k: nat)
      requires AllLinked() && OnSpine(spine) && 0 < k < |spine|
      ensures var n, p := spine[k], spine[k - 1];
              n in nodes && p in nodes && n.parent == p && n != p && n != root && IsLast(p, n)
    {
      assert Linked(spine[k - 1], nodes);
    }

    // Only the parent of a node has it as an entry, once.
    lemma EntryOfParent(m: TreeNode, n: TreeNode)
      requires AllLinked() && m in nodes && n in nodes
      ensures m != n.parent ==> n !in m.entries
      ensures m == n.parent && IsLast(m, n) ==> n !in m.entries[..|m.entries| - 1]
    {
      assert Linked(m, nodes);
    }

    // The view of p shows its last entry as it was.
    ghost predicate Behind(p: TreeNode, was: Tree)
      reads p, p.entries
    {
      p.entries != [] && p.view == Tree(p.name, p.storage, Views(p.entries)[|p.entries| - 1 := was])
    }

    lemma NotOwnEntry(n: TreeNode)
      requires AllLinked() && n in nodes
      ensures n !in n.entries
    {
      assert Linked(n, nodes);
    }

    // Once the view of a node has changed, its parent is the only node with a stale one.
    ghost method Render(n: TreeNode)
      requires AllLinked() && n in nodes
      requires forall m :: m in nodes && m != n ==> Rendered(m)
      modifies n`view
      ensures n.view == Tree(n.name, n.storage, Views(n.entries))
      ensures forall m :: m in nodes && m != n.parent ==> Rendered(m)
      ensures n.parent != null && n.parent != n && IsLast(n.parent, n) ==> Behind(n.parent, old(n.view))
    {
      hide Linked, Rendered, Views, Behind;
      NotOwnEntry(n);
      n.view := Tree(n.name, n.storage, Views(n.entries));
      OthersStay(n);
      NowRendered(n);
    }

    twostate lemma OthersStay(n: TreeNode)
      requires n in nodes && AllLinked() && nodes == old(nodes)
      requires forall m :: m in nodes ==> unchanged(m`entries) && unchanged(m`storage)
      requires forall m :: m in nodes && m != n ==> m.view == old(m.view) && old(Rendered(m))
      ensures forall m :: m in nodes && m != n.parent && m != n ==> Rendered(m)
      ensures n.parent != null && n.parent != n && IsLast(n.parent, n) ==> Behind(n.parent, old(n.view))
    {
      hide Views, Behind;
      forall m | m in nodes && m != n.parent && m != n ensures Rendered(m) {
        EntryOfParent(m, n);
        assert Linked(m, nodes);
        assert old(Rendered(m));
        assert Views(m.entries) == old(Views(m.entries));
      }
      if n.parent != null && n.parent != n && IsLast(n.parent, n) {
        assert Linked(n, nodes);
        ParentBehind(n);
      }
    }

    twostate lemma ParentBehind(n: TreeNode)
      requires n in nodes && AllLinked() && nodes == old(nodes)
      requires n.parent != null && n.parent in nodes && IsLast(n.parent, n)
      requires unchanged(n.parent`entries) && unchanged(n.parent`storage) && old(Rendered(n.parent))
      requires forall m :: m in nodes && m != n ==> m.view == old(m.view)
      ensures Behind(n.parent, old(n.view))
    {
      hide Views;
      var p := n.parent;
      EntryOfParent(p, n);
      assert Linked(p, nodes);
      assert Views(p.entries)[|p.entries| - 1 := old(n.view)] == old(Views(p.entries));
    }

    // The node has an entry, this deep, that its view has not.
    ghost predicate Stale(n: TreeNode, depth: nat, entry: Tree)
      reads n, n.entries
    {
      Appended(n.view, Tree(n.name, n.storage, Views(n.entries)), depth, entry)
    }

    // It is then missing in the view of the parent, one level deeper.
    lemma ParentStale(p: TreeNode, n: TreeNode, was: Tree, depth: nat, entry: Tree)
      requires IsLast(p, n) && Behind(p, was) && Appended(was, n.view, depth, entry)
      ensures Stale(p, depth + 1, entry)
    {
      hide Views;
      var last := |p.entries| - 1;
      assert p.view.entries[last] == was;
      assert Views(p.entries) == p.view.entries[..last] + [n.view];
    }

    ghost method Refresh(spine: seq<TreeNode>, k: nat, entry: Tree)
      requires AllLinked() && OnSpine(spine) && k < |spine|
      requires forall m :: m in nodes && m != spine[k] ==> Rendered(m)
      requires Stale(spine[k], |spine| - 1 - k, entry)
      modifies nodes`view
      ensures Valid() && OnSpine(spine)
      ensures Appended(old(root.view), root.view, |spine| - 1, entry)
      decreases k
    {
      hide Linked, Rendered, Views, Appended, Behind;
      var n, was := spine[k], spine[k].view;
      Render(n);
      if k > 0 {
        SpineStep(spine, k);
        ParentStale(spine[k - 1], n, was, |spine| - 1 - k, entry);
        Refresh(spine, k - 1, entry);
      }
    }

    // A new last entry of a node, and no other change but for the set of nodes.
    twostate predicate Emplaced(current: TreeNode)
      reads this, nodes, current
    {
      && old(Valid()) && current in old(nodes) && current.entries != []
      && var entry := current.entries[|current.entries| - 1];
      && entry !in old(nodes) && nodes == old(nodes) + {entry}
      && current.entries == old(current.entries) + [entry]
      && current.storage == old(current.storage) && current.view == old(current.view)
      && (forall n :: n in old(nodes) && n != current ==> unchanged(n))
      && entry.parent == current && entry.entries == [] && entry.depth == current.depth + 1
      && entry.view == Tree(entry.name, entry.storage, [])
    }

    twostate lemma StillLinked(current: TreeNode)
      requires Emplaced(current)
      ensures AllLinked()
    {
      hide Rendered;
      var entry := current.entries[|current.entries| - 1];
      assert Linked(current, nodes) by {
        assert old(Linked(current, nodes));
      }
      forall n | n in old(nodes) && n != current ensures Linked(n, nodes) {
        assert old(Linked(n, nodes));
        assert n.entries == old(n.entries);
        assert n.parent != null ==> old(n.parent.entries) <= n.parent.entries;
      }
      assert Linked(entry, nodes);
    }

    twostate lemma StillRendered(current: TreeNode)
      requires Emplaced(current)
      ensures forall n :: n in nodes && n != current ==> Rendered(n)
    {
      hide Views;
      forall n | n in old(nodes) && n != current ensures Rendered(n) {
        assert old(Rendered(n)) && old(Linked(n, nodes));
      }
    }

    // The spine can go on through the new entry, or stay.
    twostate lemma StillOnSpine(spine: seq<TreeNode>)
      requires old(OnSpine(spine)) && Emplaced(spine[|spine| - 1])
      ensures OnSpine(spine) && OnSpine(spine + [spine[|spine| - 1].entries[|spine[|spine| - 1].entries| - 1]])
    {
      hide Linked, Rendered;
    }

    twostate lemma NowStale(current: TreeNode)
      requires Emplaced(current)
      ensures Stale(current, 0, current.entries[|current.entries| - 1].view)
    {
      hide Views;
      var before, entry := old(current.entries), current.entries[|current.entries| - 1];
      assert old(Rendered(current)) && old(Linked(current, nodes));
      assert Views(before) == old(Views(current.entries));
      assert Views(before + [entry]) == Views(before) + [entry.view];
    }

    // The body of the loop for an entry: current is the last of the spine.
    method AddEntry(current: TreeNode, name: string, isDirectory: bool, storage: nat, ghost spine: seq<TreeNode>)
      returns (next: TreeNode)
      requires Valid() && OnSpine(spine) && current == spine[|spine| - 1]
      modifies this`nodes, nodes
      ensures Valid() && old(nodes) <= nodes && fresh(nodes - old(nodes))
      ensures Appended(old(root.view), root.view, |spine| - 1,
                       Tree(name, if isDirectory then None else Some(storage), []))
      ensures if isDirectory then OnSpine(spine + [next]) else OnSpine(spine) && next == current
    {
      hide Linked, Rendered, Views, Appended, Stale;
      var entry := current.EmplaceBack(name);
      if isDirectory {
        next := entry;
      } else {
        entry.storage, next := Some(storage), current;
      }
      entry.view := Tree(name, entry.storage, []);
      nodes := nodes + {entry};
      StillLinked(current);
      StillRendered(current);
      NowStale(current);
      StillOnSpine(spine);
      Refresh(spine, |spine| - 1, entry.view);
    }

    // Going up to the parent drops the last of the spine; above the root there is nothing.
    lemma SpineUp(spine: seq<TreeNode>)
      requires AllLinked() && OnSpine(spine)
      ensures var last := |spine| - 1;
              if last == 0 then spine[0].parent == null
              else OnSpine(spine[..last]) && spine[last].parent == spine[last - 1]
    {
      hide Linked;
      if |spine| > 1 {
        SpineStep(spine, |spine| - 1);
      }
    }

    lemma AtRoot(items: seq<Item>, storage: nat)
      requires AllLinked()
      ensures OnSpine([root]) && Building(root.view, [items], storage, Finished(root.view, [items], storage))
    {
    }

    // build_tree for one storage: the entries of its root are added to those of the tree. The
    // cursor is as deep as the iterator has directories open, and both end together.
    method AddStorage(iter: HostIterator, storage: nat, ghost items: seq<Item>)
      requires Valid() && iter.Valid() && iter.rest == [items]
      modifies this`nodes, nodes, iter
      ensures Valid() && old(nodes) <= nodes && fresh(nodes - old(nodes))
      ensures root.view == Finished(old(root.view), [items], storage)
      ensures iter.Valid() && iter.rest == []
    {
      hide Linked, Rendered, Views, Appended, Building, Work, OnSpine, OnDisk, Real, EntriesOf, IsChild;
      var current: TreeNode? := root;
      ghost var spine: seq<TreeNode>, goal := [root], Finished(root.view, [items], storage);
      AtRoot(items, storage);
      while true
        invariant Valid() && iter.Valid() && old(nodes) <= nodes && fresh(nodes - old(nodes))
        invariant |iter.rest| == |spine| > 0 && OnSpine(spine) && current == spine[|spine| - 1]
        invariant Building(root.view, iter.rest, storage, goal)
        decreases Work(iter.rest)
      {
        ghost var rest, t := iter.rest, root.view;
        WorkGetsLess(rest);
        var more := iter.Next();
        if !more {
          SpineUp(spine);
          Closing(t, rest, storage, goal);
          current := current.parent;
          if current == null {
            break;
          }
          spine := spine[..|spine| - 1];
        } else {
          var e := iter.dirent.value;
          current := AddEntry(current, e.name, e.isDirectory, storage, spine);
          Entering(t, root.view, rest, storage, goal);
          if e.isDirectory {
            spine := spine + [current];
          }
        }
      }
    }

    // build_tree: the storages one after the other, over the same root.
    method BuildTree(disk: Disk, roots: seq<string>, ghost contents: seq<seq<Item>>)
      requires Valid() && |roots| == |contents|
      requires forall k :: 0 <= k < |roots| ==> Holds(disk, roots[k], contents[k])
      modifies this`nodes, nodes
      ensures Valid() && old(nodes) <= nodes && fresh(nodes - old(nodes))
      ensures root.view == WithTrees(old(root.view), contents)
    {
      hide Valid, WithTrees, Finished, OnDisk, Real, EntriesOf;
      ghost var t := root.view;
      NoStorages(t);
      for k := 0 to |roots|
        invariant Valid() && old(nodes) <= nodes && fresh(nodes - old(nodes))
        invariant root.view == WithTrees(t, contents[..k])
      {
        var iter := new HostIterator(disk, roots[k], contents[k]);
        AddStorage(iter, k, contents[k]);
        OneMoreStorage(t, contents, k);
      }
      assert contents[..|roots|] == contents;
    }

    // ---- Looking up a path ----------------------------------------------------------------

    // The node that these parts lead to, from this one.
    ghost function Lookup(n: TreeNode, parts: seq<string>): TreeNode?
      requires AllLinked() && n in nodes
      reads this, nodes`entries
      decreases parts
    {
      if parts == [] then n
      else
        var c := FirstNamed(n.entries, parts[0]);
        assert Linked(n, nodes);
        if c == null then null else Lookup(c, parts[1..])
    }

    lemma EntryInNodes(n: TreeNode, name: string)
      requires AllLinked() && n in nodes
      ensures FirstNamed(n.entries, name) != null ==> FirstNamed(n.entries, name) in nodes
    {
      assert Linked(n, nodes);
    }

    method FindFile(path: string) returns (node: TreeNode?)
      requires AllLinked()
      ensures node == Lookup(root, Visited(path))
    {
      hide Linked, FirstNamed, NextPart, Remaining;
      var iter := new SplitIterator(path);
      node := root;
      while !iter.AtEnd()
        invariant node != null && node in nodes
        invariant Lookup(root, Visited(path)) ==
                  Lookup(node, if iter.AtEnd() then [] else [iter.part] + Visited(iter.remaining))
        decreases |iter.remaining|, |iter.part|
      {
        EntryInNodes(node, iter.part);
        node := node.Find(iter.part);
        if node == null {
          return;
        }
        iter.Advance();
      }
    }

    lemma {:induction false} NodeIsRooted(n: TreeNode)
      requires AllLinked() && n in nodes
      ensures Rooted(n) && AllNames(n)[0] == "" && (n == root <==> Names(n) == [])
      decreases n.depth
    {
      assert Linked(n, nodes);
      if n.parent != null {
        NodeIsRooted(n.parent);
      }
    }

    // Whatever is found has the names that were looked up.
    lemma {:induction false} FoundHasNames(n: TreeNode, parts: seq<string>)
      requires AllLinked() && n in nodes
      ensures var found := Lookup(n, parts);
              found != null ==> Rooted(n) && Rooted(found) && Names(found) == Names(n) + parts
      decreases parts
    {
      NodeIsRooted(n);
      if parts != [] {
        EntryInNodes(n, parts[0]);
        var c := FirstNamed(n.entries, parts[0]);
        if c != null {
          assert Linked(n, nodes);
          FoundHasNames(c, parts[1..]);
          NodeIsRooted(c);
          assert AllNames(c) == AllNames(n) + [parts[0]];
          assert parts == [parts[0]] + parts[1..];
        }
      }
    }

    ghost predicate UniqueNames()
      reads this, nodes`entries
    {
      forall n {:trigger n.entries} :: n in nodes ==>
        forall i, j :: 0 <= i < j < |n.entries| ==> n.entries[i].name != n.entries[j].name
    }

    lemma {:induction false} LookupAppend(n: TreeNode, parts: seq<string>, name: string)
      requires AllLinked() && n in nodes
      ensures var found := Lookup(n, parts);
              if found == null then Lookup(n, parts + [name]) == null
              else found in nodes && Lookup(n, parts + [name]) == FirstNamed(found.entries, name)
      decreases parts
    {
      EntryInNodes(n, if parts == [] then name else parts[0]);
      if parts == [] {
        assert (parts + [name])[1..] == [];
      } else {
        var c := FirstNamed(n.entries, parts[0]);
        if c != null {
          LookupAppend(c, parts[1..], name);
        }
        assert (parts + [name])[1..] == parts[1..] + [name];
      }
    }

    // On the way from the root, no entry before has the same name as the one to take.
    ghost predicate FirstOfItsName(n: TreeNode)
      requires AllLinked() && n in nodes
      reads this, nodes`entries
      decreases n.depth
    {
      assert Linked(n, nodes);
      n.parent != null ==> FirstNamed(n.parent.entries, n.name) == n && FirstOfItsName(n.parent)
    }

    // A node is found by its names exactly when none of these is shadowed.
    lemma {:induction false} FoundIffFirst(n: TreeNode)
      requires AllLinked() && n in nodes
      ensures Rooted(n) && (Lookup(root, Names(n)) == n <==> FirstOfItsName(n))
      decreases n.depth
    {
      NodeIsRooted(n);
      assert Linked(n, nodes);
      if n.parent != null {
        FoundIffFirst(n.parent);
        NodeIsRooted(n.parent);
        assert Names(n) == Names(n.parent) + [n.name];
        LookupAppend(root, Names(n.parent), n.name);
        var found := Lookup(root, Names(n.parent));
        assert found != null ==> Linked(found, nodes);
      }
    }

    // Where siblings have different names, none is.
    lemma {:induction false} NothingShadowed(n: TreeNode)
      requires AllLinked() && UniqueNames() && n in nodes
      ensures FirstOfItsName(n)
      decreases n.depth
    {
      assert Linked(n, nodes);
      if n.parent != null {
        NothingShadowed(n.parent);
        OnlyOneNamed(n.parent.entries, n);
      }
    }

    // find_file finds a node exactly by the paths whose parts are its names.
    lemma FindsExactly(path: string, n: TreeNode)
      requires AllLinked() && n in nodes
      ensures Rooted(n)
      ensures Lookup(root, Visited(path)) == n <==> Visited(path) == Names(n) && FirstOfItsName(n)
    {
      hide Visited, FirstOfItsName;
      FoundIffFirst(n);
      NodeIsRooted(root);
      var parts := Visited(path);
      FoundHasNames(root, parts);
      assert Names(root) + parts == parts;
    }

    // It inverts generate_path once the leading slash is dropped, unless the node is shadowed;
    // with the slash, it finds nothing but the root.
    lemma PathLookup(n: TreeNode)
      requires AllLinked() && n in nodes
      requires forall m :: m in nodes && m != root ==> Name(m.name)
      ensures Rooted(n)
      ensures var path := Join(AllNames(n));
              if n == root then path == "" && Lookup(root, Visited(path)) == root
              else
                && path != "" && path[0] == '/'
                && (Lookup(root, Visited(path[1..])) == n <==> FirstOfItsName(n))
                && Lookup(root, Visited(path)) == null
    {
      hide Visited, Linked, Rooted, Join, FirstOfItsName;
      NodeIsRooted(n);
      NamesAreNames(n);
      VisitedInvertsJoin(Names(n));
      FoundIffFirst(n);
      var path, below := Join(AllNames(n)), Join(Names(n));
      JoinFromRoot(AllNames(n));
      if n == root {
        VisitedNothing();
      } else {
        assert path[1..] == below;
        LeadingSlash(below);
        NoEmptyName(root);
      }
    }

    lemma {:induction false} NamesAreNames(n: TreeNode)
      requires AllLinked() && n in nodes && Rooted(n) && forall m :: m in nodes && m != root ==> Name(m.name)
      ensures forall s :: s in Names(n) ==> Name(s)
      decreases n.depth
    {
      NodeIsRooted(n);
      if n.parent != null {
        NamesAreNames(n.parent);
        NodeIsRooted(n.parent);
        assert Names(n) == Names(n.parent) + [n.name];
      }
    }

    lemma NoEmptyName(n: TreeNode)
      requires AllLinked() && n in nodes && forall m :: m in nodes && m != root ==> Name(m.name)
      ensures FirstNamed(n.entries, "") == null
    {
      EntryInNodes(n, "");
      assert Linked(n, nodes);
    }

    // ---- The files behind the nodes ----------------------------------------------------------

    // A tree of these storages, as build_tree leaves it.
    ghost predicate Built(disk: Disk, roots: seq<string>)
      reads this, nodes
    {
      Valid() && root.storage == None && AllPlaced(disk, roots, "", root.view.entries)
    }

    lemma EntryOfItsParent(n: TreeNode)
      requires Valid() && n in nodes && n != root
      ensures n.parent in nodes && n.parent.depth < n.depth && n.view in n.parent.view.entries
      ensures n.view.name == n.name && n.view.storage == n.storage
    {
      assert Linked(n, nodes) && Rendered(n) && Rendered(n.parent);
      var i :| 0 <= i < |n.parent.entries| && n.parent.entries[i] == n;
      assert n.parent.view.entries[i] == n.view;
    }

    lemma {:induction false} NodeIsPlaced(disk: Disk, roots: seq<string>, n: TreeNode)
      requires Built(disk, roots) && n in nodes && n != root
      ensures Rooted(n) && Rooted(n.parent) && AllNames(n) == AllNames(n.parent) + [n.name]
      ensures Placed(disk, roots, Join(AllNames(n.parent)), n.view)
      decreases n.depth
    {
      hide Linked, Rendered, Join;
      EntryOfItsParent(n);
      NodeIsRooted(n);
      NodeIsRooted(n.parent);
      if n.parent == root {
        OnlyRoot();
      } else {
        NodeIsPlaced(disk, roots, n.parent);
        EntryOfItsParent(n.parent);
        JoinOneMore(AllNames(n.parent.parent), n.parent.name);
      }
    }

    lemma RootView()
      requires Valid()
      ensures root.view.storage == root.storage
    {
      assert Rendered(root);
    }

    lemma OnlyRoot()
      requires AllLinked()
      ensures Rooted(root) && Join(AllNames(root)) == ""
    {
    }

    // The path of a node, after the root of its storage, is that of a file of the storage; and
    // the path finds the node again, unless it is shadowed.
    lemma PathOfFile(disk: Disk, roots: seq<string>, n: TreeNode)
      requires Built(disk, roots) && n in nodes
      ensures Rooted(n)
      ensures n.storage.Some? ==>
                var path := Join(AllNames(n));
                && n.storage.value < |roots| && IsFile(disk, roots[n.storage.value] + path)
                && path != "" && path[0] == '/'
                && (Lookup(root, Visited(path[1..])) == n <==> FirstOfItsName(n))
    {
      hide Linked, Rendered, Join, Visited, FirstOfItsName, IsFile;
      NodeIsRooted(n);
      if n != root {
        NodeIsPlaced(disk, roots, n);
        EntryOfItsParent(n);
        JoinOneMore(AllNames(n.parent), n.name);
        forall m | m in nodes && m != root ensures Name(m.name) {
          NodeIsPlaced(disk, roots, m);
          EntryOfItsParent(m);
        }
        PathLookup(n);
      }
    }

    method FindRoot(n: TreeNode) returns (top: TreeNode)
      requires AllLinked() && n in nodes
      ensures top == root
    {
      hide Rooted;
      top := n;
      while top.parent != null
        invariant top in nodes
        decreases top.depth
      {
        assert Linked(top, nodes);
        top := top.parent;
      }
    }

    // read_file for a node: the path that the storage opens, if the node has one. The assertion
    // that the node is of this tree holds.
    method ReadFile(ghost disk: Disk, roots: seq<string>, n: TreeNode) returns (full: Option<string>)
      requires Built(disk, roots) && n in nodes
      ensures full.Some? <==> n.storage.Some?
      ensures full.Some? ==>
                && Rooted(n) && n.storage.value < |roots|
                && full.value == roots[n.storage.value] + Join(AllNames(n)) && IsFile(disk, full.value)
    {
      hide Linked, Rendered, Join, Visited, FirstOfItsName, IsFile, Placed;
      var top := FindRoot(n);
      assert top == root;
      PathOfFile(disk, roots, n);
      var path := n.GeneratePath();
      if n.storage == None {
        return None;
      }
      full := Some(roots[n.storage.value] + path);
    }
  }

  // A new file system over these storages.
  method Load(disk: Disk, roots: seq<string>, ghost contents: seq<seq<Item>>) returns (fs: Vfs)
    requires Named(disk) && |roots| == |contents|
    requires forall k :: 0 <= k < |roots| ==> Holds(disk, roots[k], contents[k])
    ensures fresh(fs) && fs.Built(disk, roots) && fs.root.view == Tree("", None, AllTrees(contents))
  {
    hide Holds, Trees, Named, Placed;
    fs := new Vfs();
    fs.BuildTree(disk, roots, contents);
    AllTreesPlaced(disk, roots, contents);
    fs.RootView();
  }
}
