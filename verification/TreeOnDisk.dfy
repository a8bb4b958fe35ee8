/** The values of the tree against the disk: where the file behind each node is. */
module TreeOnDisk {
  import opened HostStorage
  import opened Options
  import opened Paths
  import opened TreeCursor

  ghost predicate Holds(disk: Disk, root: string, items: seq<Item>) {
    root in disk && Real(disk[root]) == EntriesOf(items) && OnDisk(disk, root, items)
  }

  // No listing has an empty name.
  predicate Named(disk: Disk) {
    forall dir, e :: dir in disk && e in disk[dir] ==> e.name != ""
  }

  // A directory on disk lists a file that has this path.
  ghost predicate IsFile(disk: Disk, path: string) {
    exists dir, name :: dir in disk && Dirent(name, false) in disk[dir] && path == dir + "/" + name
  }

  // Below the path `rel` of the tree, each node that is tagged with a storage has the path of a
  // file of that storage, and every node has a name.
  ghost predicate Placed(disk: Disk, roots: seq<string>, rel: string, t: Tree)
    decreases t
  {
    && Name(t.name)
    && (t.storage.Some? ==>
          t.storage.value < |roots| && IsFile(disk, roots[t.storage.value] + (rel + "/" + t.name)))
    && forall c :: c in t.entries ==> Placed(disk, roots, rel + "/" + t.name, c)
  }

  ghost predicate AllPlaced(disk: Disk, roots: seq<string>, rel: string, ts: seq<Tree>) {
    forall t :: t in ts ==> Placed(disk, roots, rel, t)
  }

  lemma {:induction false} RealIsListed(listing: seq<Dirent>, e: Dirent)
    requires e in Real(listing)
    ensures e in listing
  {
    if !(!IsDot(listing[0]) && e == listing[0]) {
      RealIsListed(listing[1..], e);
    }
  }

  lemma {:induction false} TreesPlaced(disk: Disk, roots: seq<string>, k: nat, rel: string, items: seq<Item>)
    requires Named(disk) && k < |roots| && roots[k] + rel in disk && OnDisk(disk, roots[k] + rel, items)
    requires forall item :: item in items ==> EntryOf(item) in disk[roots[k] + rel]
    ensures AllPlaced(disk, roots, rel, Trees(items, k))
    decreases items
  {
    hide OnDisk;
    if items != [] {
      OnDiskParts(disk, roots[k] + rel, items);
      assert items[0] in items;
      ItemPlaced(disk, roots, k, rel, items[0]);
      TreesPlaced(disk, roots, k, rel, items[1..]);
    }
  }

  lemma {:induction false} ItemPlaced(disk: Disk, roots: seq<string>, k: nat, rel: string, item: Item)
    requires Named(disk) && k < |roots| && roots[k] + rel in disk && EntryOf(item) in disk[roots[k] + rel]
    requires '/' !in item.name
    requires item.Directory? ==> Holds(disk, roots[k] + rel + "/" + item.name, item.items)
    ensures Placed(disk, roots, rel, TreeOf(item, k))
    decreases item
  {
    hide OnDisk, Real, EntriesOf;
    var dir, path := roots[k] + rel, rel + "/" + item.name;
    assert dir + "/" + item.name == roots[k] + path;
    match item
    case File(name) => assert EntryOf(item) == Dirent(name, false);
    case Directory(name, items) =>
      assert EntryOf(item) == Dirent(name, true);
      EntriesListed(disk[roots[k] + path], items);
      TreesPlaced(disk, roots, k, path, items);
  }

  lemma EntriesListed(listing: seq<Dirent>, items: seq<Item>)
    requires Real(listing) == EntriesOf(items)
    ensures forall item :: item in items ==> EntryOf(item) in listing
  {
    forall item | item in items ensures EntryOf(item) in listing {
      var i :| 0 <= i < |items| && items[i] == item;
      assert EntriesOf(items)[i] == EntryOf(item);
      RealIsListed(listing, EntryOf(item));
    }
  }

  lemma {:induction false} AllTreesPlaced(disk: Disk, roots: seq<string>, contents: seq<seq<Item>>)
    requires Named(disk) && |contents| <= |roots|
    requires forall k :: 0 <= k < |contents| ==> Holds(disk, roots[k], contents[k])
    ensures AllPlaced(disk, roots, "", AllTrees(contents))
    decreases |contents|
  {
    hide OnDisk, Real, EntriesOf, Placed, Named;
    if contents != [] {
      var k := |contents| - 1;
      AllTreesPlaced(disk, roots, contents[..k]);
      assert Holds(disk, roots[k], contents[k]);
      assert roots[k] + "" == roots[k];
      EntriesListed(disk[roots[k]], contents[k]);
      TreesPlaced(disk, roots, k, "", contents[k]);
    }
  }
}
