/** The host storage iterator: a depth-first walk over directories on disk that keeps a stack of
    open directories and the path of the innermost one in step. */
module HostStorage {
  import opened Options

  // A directory tree, as a value.
  datatype Item = File(name: string) | Directory(name: string, items: seq<Item>)

  // What readdir returns, and the listing behind each path that can be opened.
  datatype Dirent = Dirent(name: string, isDirectory: bool)
  type Disk = map<string, seq<Dirent>>

  function IsDot(e: Dirent): bool { e.name == "." || e.name == ".." }

  // A listing without "." and "..".
  function Real(listing: seq<Dirent>): seq<Dirent> {
    if listing == [] then []
    else (if IsDot(listing[0]) then [] else [listing[0]]) + Real(listing[1..])
  }

  // Nothing else is left out, and nothing is added or repeated.
  lemma {:induction false} RealCounts(listing: seq<Dirent>, e: Dirent)
    ensures multiset(Real(listing))[e] == if e.name == "." || e.name == ".." then 0 else multiset(listing)[e]
  {
    if listing != [] {
      RealCounts(listing[1..], e);
      assert listing == [listing[0]] + listing[1..];
    }
  }

  function EntryOf(item: Item): Dirent { Dirent(item.name, item.Directory?) }

  function EntriesOf(items: seq<Item>): (es: seq<Dirent>)
    ensures |es| == |items| && forall i :: 0 <= i < |items| ==> es[i] == EntryOf(items[i])
  {
    if items == [] then [] else [EntryOf(items[0])] + EntriesOf(items[1..])
  }

  // On the disk, the directories among the items are below the path, with their contents. Names
  // have no slash.
  predicate OnDisk(disk: Disk, path: string, items: seq<Item>)
    decreases items
  {
    forall item :: item in items ==>
      && '/' !in item.name
      && (item.Directory? ==>
            && path + "/" + item.name in disk
            && Real(disk[path + "/" + item.name]) == EntriesOf(item.items)
            && OnDisk(disk, path + "/" + item.name, item.items))
  }

  lemma OnDiskParts(disk: Disk, path: string, items: seq<Item>)
    requires OnDisk(disk, path, items) && items != []
    ensures OnDisk(disk, path, items[1..])
    ensures var item, p := items[0], path + "/" + items[0].name;
            && '/' !in item.name
            && (item.Directory? ==> p in disk && Real(disk[p]) == EntriesOf(item.items) && OnDisk(disk, p, item.items))
  {
    assert items[0] in items;
  }

  // m_path.rfind('/'), where there is a slash.
  function LastSlash(s: string): (i: nat)
    requires '/' in s
    ensures i < |s| && s[i] == '/'
  {
    if s[|s| - 1] == '/' then |s| - 1
    else
      assert s == s[..|s| - 1] + [s[|s| - 1]];
      LastSlash(s[..|s| - 1])
  }

  // Erasing from the last slash takes off exactly the name that was added.
  lemma {:induction false} EraseInvertsAppend(path: string, name: string)
    requires '/' !in name
    ensures '/' in path + "/" + name && LastSlash(path + "/" + name) == |path|
    decreases |name|
  {
    var s := path + "/" + name;
    assert s[|path|] == '/';
    if name == "" {
      assert s == path + "/";
    } else {
      var n := |name| - 1;
      assert name[n] in name;
      assert s[..|s| - 1] == path + "/" + name[..n];
      EraseInvertsAppend(path, name[..n]);
    }
  }

  class HostIterator {
    const disk: Disk
    var path: string                   // m_path
    var iterators: seq<seq<Dirent>>    // m_iterators: what each open directory has still to give
    var dirent: Option<Dirent>         // m_dirent
    ghost var rest: seq<seq<Item>>     // the items still to come, for each open directory
    ghost var paths: seq<string>       // its path

    ghost predicate Valid()
      reads this
    {
      && |iterators| == |rest| == |paths|
      && (forall k :: 0 <= k < |rest| ==> Real(iterators[k]) == EntriesOf(rest[k]) && OnDisk(disk, paths[k], rest[k]))
      && (paths != [] ==> path == paths[|paths| - 1])
      && (forall k :: 0 < k < |paths| ==> IsChild(paths[k - 1], paths[k]))
    }

    constructor (disk: Disk, root: string, ghost items: seq<Item>)
      requires root in disk && Real(disk[root]) == EntriesOf(items) && OnDisk(disk, root, items)
      ensures Valid() && rest == [items]
    {
      this.disk := disk;
      path, iterators, dirent := root, [disk[root]], None;
      rest, paths := [items], [root];
    }

    // readdir_helper: the next entry that is not "." or "..".
    method ReadEntry()
      requires Valid() && iterators != []
      modifies `iterators, `dirent, `rest
      ensures var n := |old(rest)| - 1;
              var items := old(rest)[n];
              if items == [] then
                dirent == None && |iterators| == n + 1 && iterators[..n] == old(iterators)[..n] && rest == old(rest)
              else
                Valid() && dirent == Some(EntryOf(items[0])) && rest == old(rest)[..n] + [items[1..]]
    {
      hide OnDisk, IsDot, EntryOf, IsChild;
      var n := |iterators| - 1;
      var listing := iterators[n];
      while listing != [] && IsDot(listing[0])
        invariant Real(listing) == Real(iterators[n])
      {
        listing := listing[1..];
      }
      if listing == [] {
        dirent := None;
      } else {
        dirent := Some(listing[0]);
        OnDiskParts(disk, paths[n], rest[n]);
        iterators := iterators[..n] + [listing[1..]];
        rest := rest[..n] + [rest[n][1..]];
      }
    }

    // next(): false at the end of the innermost directory, which it closes; otherwise the next
    // entry, and if that is a directory, it is opened. It is never called with none open, and
    // opening never fails.
    method Next() returns (more: bool)
      requires Valid() && iterators != []
      modifies this
      ensures Valid()
      ensures var n := |old(rest)| - 1;
              var items := old(rest)[n];
              if items == [] then !more && rest == old(rest)[..n]
              else
                && more && dirent == Some(EntryOf(items[0]))
                && rest == old(rest)[..n] + [items[1..]] +
                           if items[0].Directory? then [items[0].items] else []
    {
      hide OnDisk, Real, EntriesOf, IsChild;
      ghost var items := rest[|rest| - 1];
      if items != [] {
        OnDiskParts(disk, path, items);
      }
      ReadEntry();
      if dirent.None? {
        CloseInnermost();
        return false;
      }
      if dirent.value.isDirectory {
        Open(dirent.value.name, items[0].items);
      }
      more := true;
    }

    method CloseInnermost()
      requires iterators != [] && |iterators| == |rest| == |paths|
      requires forall k :: 0 <= k < |rest| - 1 ==>
                 Real(iterators[k]) == EntriesOf(rest[k]) && OnDisk(disk, paths[k], rest[k])
      requires path == paths[|paths| - 1] && forall k :: 0 < k < |paths| ==> IsChild(paths[k - 1], paths[k])
      modifies `iterators, `rest, `paths, `path
      ensures Valid() && rest == old(rest)[..|old(rest)| - 1]
    {
      var n := |iterators| - 1;
      iterators, rest := iterators[..n], rest[..n];
      if iterators != [] {
        ghost var name :| '/' !in name && path == paths[n - 1] + "/" + name;
        EraseInvertsAppend(paths[n - 1], name);
        path := path[..LastSlash(path)];
      }
      paths := paths[..n];
    }

    method Open(name: string, ghost items: seq<Item>)
      requires Valid() && iterators != []
      requires '/' !in name && path + "/" + name in disk
      requires Real(disk[path + "/" + name]) == EntriesOf(items) && OnDisk(disk, path + "/" + name, items)
      modifies `iterators, `rest, `paths, `path
      ensures Valid() && rest == old(rest) + [items]
    {
      assert IsChild(path, path + "/" + name);
      path := path + "/";
      path := path + name;
      iterators := iterators + [disk[path]];
      rest, paths := rest + [items], paths + [path];
    }
  }

  ghost predicate IsChild(parent: string, child: string) {
    exists name :: '/' !in name && child == parent + "/" + name
  }
}
