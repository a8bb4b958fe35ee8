/** The cursor of the tree builder, on values: a tree under construction, the listings that the
    open directories have still to give, and the tree that this will be in the end. */
module TreeCursor {
  import opened HostStorage
  import opened Options

  // A tree, as a value. The storage tag says which storage a file came from.
  datatype Tree = Tree(name: string, storage: Option<nat>, entries: seq<Tree>)

  // What a listing of a storage becomes.
  function Trees(items: seq<Item>, storage: nat): seq<Tree>
    decreases items
  {
    if items == [] then [] else [TreeOf(items[0], storage)] + Trees(items[1..], storage)
  }

  function TreeOf(item: Item, storage: nat): Tree
    decreases item
  {
    match item
    case File(name) => Tree(name, Some(storage), [])
    case Directory(name, items) => Tree(name, None, Trees(items, storage))
  }

  // The trees of all storages, each tagged with its index.
  function AllTrees(contents: seq<seq<Item>>): seq<Tree> {
    if contents == [] then []
    else
      var k := |contents| - 1;
      AllTrees(contents[..k]) + Trees(contents[k], k)
  }

  // A root after the storages have been added to it.
  function WithTrees(t: Tree, contents: seq<seq<Item>>): Tree {
    t.(entries := t.entries + AllTrees(contents))
  }

  // ---- The cursor, on values ------------------------------------------------------------------

  // There is a node at this depth, going down by last entries.
  predicate HasDepth(t: Tree, depth: nat) {
    depth == 0 || (t.entries != [] && HasDepth(t.entries[|t.entries| - 1], depth - 1))
  }

  // Append an entry there.
  function AppendAt(t: Tree, depth: nat, entry: Tree): Tree
    requires HasDepth(t, depth)
  {
    if depth == 0 then t.(entries := t.entries + [entry])
    else
      var last := |t.entries| - 1;
      t.(entries := t.entries[..last] + [AppendAt(t.entries[last], depth - 1, entry)])
  }

  predicate Appended(t: Tree, u: Tree, depth: nat, entry: Tree) {
    HasDepth(t, depth) && u == AppendAt(t, depth, entry)
  }

  // What the tree will be when the open directories, outermost first, have given what they
  // have still to give.
  function Finished(t: Tree, rest: seq<seq<Item>>, storage: nat): Tree
    requires rest != [] && HasDepth(t, |rest| - 1)
  {
    if |rest| == 1 then t.(entries := t.entries + Trees(rest[0], storage))
    else
      var last := |t.entries| - 1;
      t.(entries := t.entries[..last] + [Finished(t.entries[last], rest[1..], storage)] + Trees(rest[0], storage))
  }

  lemma {:induction false} AppendKeepsDepth(t: Tree, depth: nat, entry: Tree)
    requires HasDepth(t, depth)
    ensures HasDepth(AppendAt(t, depth, entry), depth + 1)
    ensures HasDepth(AppendAt(t, depth, entry), depth)
  {
    if depth > 0 {
      AppendKeepsDepth(t.entries[|t.entries| - 1], depth - 1, entry);
    }
  }

  lemma {:induction false} DepthAbove(t: Tree, depth: nat)
    requires depth > 0 && HasDepth(t, depth)
    ensures HasDepth(t, depth - 1)
  {
    if depth > 1 {
      DepthAbove(t.entries[|t.entries| - 1], depth - 1);
    }
  }

  // A directory that has nothing more to give can be closed.
  lemma {:induction false} CloseStep(t: Tree, rest: seq<seq<Item>>, storage: nat)
    requires |rest| > 1 && rest[|rest| - 1] == [] && HasDepth(t, |rest| - 1)
    ensures HasDepth(t, |rest| - 2)
    ensures Finished(t, rest[..|rest| - 1], storage) == Finished(t, rest, storage)
    decreases |rest|
  {
    DepthAbove(t, |rest| - 1);
    var last := t.entries[|t.entries| - 1];
    if |rest| == 2 {
      assert Finished(last, rest[1..], storage) == last;
    } else {
      CloseStep(last, rest[1..], storage);
      assert rest[1..][..|rest| - 2] == rest[..|rest| - 1][1..];
    }
  }

  // The stack of what remains after the next entry of the innermost directory.
  function After(rest: seq<seq<Item>>): seq<seq<Item>>
    requires rest != [] && rest[|rest| - 1] != []
  {
    var n := |rest| - 1;
    var items := rest[n];
    rest[..n] + [items[1..]] + if items[0].Directory? then [items[0].items] else []
  }

  // The entry that is appended for an item at first; a directory starts without entries.
  function Opened(item: Item, storage: nat): Tree {
    Tree(item.name, if item.Directory? then None else Some(storage), [])
  }

  lemma {:induction false} EntryStep(t: Tree, rest: seq<seq<Item>>, storage: nat)
    requires rest != [] && rest[|rest| - 1] != [] && HasDepth(t, |rest| - 1)
    ensures var entry := Opened(rest[|rest| - 1][0], storage);
            var u := AppendAt(t, |rest| - 1, entry);
            HasDepth(u, |After(rest)| - 1) && Finished(u, After(rest), storage) == Finished(t, rest, storage)
    decreases |rest|
  {
    var item := rest[|rest| - 1][0];
    AppendKeepsDepth(t, |rest| - 1, Opened(item, storage));
    if |rest| == 1 {
      EntryStepBase(t, rest[0], storage);
    } else {
      EntryStep(t.entries[|t.entries| - 1], rest[1..], storage);
      assert After(rest[1..]) == After(rest)[1..];
    }
  }

  lemma EntryStepBase(t: Tree, items: seq<Item>, storage: nat)
    requires items != []
    ensures var u := AppendAt(t, 0, Opened(items[0], storage));
            HasDepth(u, |After([items])| - 1) && Finished(u, After([items]), storage) == Finished(t, [items], storage)
  {
    var item, entry := items[0], Opened(items[0], storage);
    assert Trees(items, storage) == [TreeOf(item, storage)] + Trees(items[1..], storage);
    if item.Directory? {
      assert Finished(entry, [item.items], storage) == TreeOf(item, storage);
      assert After([items]) == [items[1..], item.items];
      assert After([items])[1..] == [item.items];
    } else {
      assert After([items]) == [items[1..]];
    }
  }

  // The tree and the open directories, when the tree will be this one in the end.
  ghost predicate Building(t: Tree, rest: seq<seq<Item>>, storage: nat, goal: Tree) {
    rest != [] && HasDepth(t, |rest| - 1) && Finished(t, rest, storage) == goal
  }

  lemma Closing(t: Tree, rest: seq<seq<Item>>, storage: nat, goal: Tree)
    requires Building(t, rest, storage, goal)
    ensures rest[|rest| - 1] == [] ==>
              if |rest| == 1 then t == goal else Building(t, rest[..|rest| - 1], storage, goal)
  {
    if rest[|rest| - 1] == [] && |rest| > 1 {
      CloseStep(t, rest, storage);
    }
  }

  lemma Entering(t: Tree, u: Tree, rest: seq<seq<Item>>, storage: nat, goal: Tree)
    requires Building(t, rest, storage, goal) && rest[|rest| - 1] != []
    requires Appended(t, u, |rest| - 1, Opened(rest[|rest| - 1][0], storage))
    ensures Building(u, After(rest), storage, goal)
  {
    EntryStep(t, rest, storage);
  }

  function Size(items: seq<Item>): nat
    decreases items
  {
    if items == [] then 0
    else 1 + (if items[0].Directory? then 1 + Size(items[0].items) else 0) + Size(items[1..])
  }

  // How many more times next can be called.
  function Work(rest: seq<seq<Item>>): nat {
    if rest == [] then 0 else 1 + Size(rest[0]) + Work(rest[1..])
  }

  lemma {:induction false} WorkOfLast(rest: seq<seq<Item>>)
    requires rest != []
    ensures Work(rest) == Work(rest[..|rest| - 1]) + 1 + Size(rest[|rest| - 1])
  {
    if |rest| > 1 {
      WorkOfLast(rest[1..]);
      assert rest[1..][..|rest| - 2] == rest[..|rest| - 1][1..];
    }
  }

  lemma WorkGetsLess(rest: seq<seq<Item>>)
    requires rest != []
    ensures Work(rest[..|rest| - 1]) < Work(rest)
    ensures rest[|rest| - 1] != [] ==> Work(After(rest)) < Work(rest)
  {
    var n := |rest| - 1;
    WorkOfLast(rest);
    if rest[n] != [] {
      var items := rest[n];
      var kept := rest[..n] + [items[1..]];
      WorkOfLast(kept);
      assert kept[..n] == rest[..n];
      if items[0].Directory? {
        WorkOfLast(kept + [items[0].items]);
        assert (kept + [items[0].items])[..n + 1] == kept;
        assert After(rest) == kept + [items[0].items];
      } else {
        assert After(rest) == kept;
      }
    }
  }

  lemma NoStorages(t: Tree)
    ensures WithTrees(t, []) == t
  {
    assert t.entries + [] == t.entries;
  }

  lemma OneMoreStorage(t: Tree, contents: seq<seq<Item>>, k: nat)
    requires k < |contents|
    ensures Finished(WithTrees(t, contents[..k]), [contents[k]], k) == WithTrees(t, contents[..k + 1])
  {
    hide Trees;
    assert contents[..k + 1][..k] == contents[..k];
  }

  // ---- Nothing of a listing is lost --------------------------------------------------------------

  // What is tagged came from a file.
  function ItemsOf(ts: seq<Tree>): seq<Item>
    decreases ts
  {
    if ts == [] then [] else [ItemOf(ts[0])] + ItemsOf(ts[1..])
  }

  function ItemOf(t: Tree): Item
    decreases t
  {
    if t.storage.Some? then File(t.name) else Directory(t.name, ItemsOf(t.entries))
  }

  // The listing of a storage can be read off its trees, with its order.
  lemma {:induction false} TreesKeepItems(items: seq<Item>, storage: nat)
    ensures ItemsOf(Trees(items, storage)) == items
    decreases items
  {
    if items != [] {
      var t := TreeOf(items[0], storage);
      TreeKeepsItem(items[0], storage);
      TreesKeepItems(items[1..], storage);
      assert Trees(items, storage)[1..] == Trees(items[1..], storage);
      assert [items[0]] + items[1..] == items;
    }
  }

  lemma {:induction false} TreeKeepsItem(item: Item, storage: nat)
    ensures ItemOf(TreeOf(item, storage)) == item
    decreases item
  {
    match item
    case File(_) =>
    case Directory(_, items) => TreesKeepItems(items, storage);
  }
}
