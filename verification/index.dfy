/** The directory index of zipfs.go: every archive entry becomes a node, every
    node is registered under its name (a directory also under its name without
    the trailing slash) and appended to its parent directory's child list.
    Here the index is a table of nodes plus a map from names to table
    positions; the `FileSystem` class in filesystem.dfy holds it as state and
    its methods are proved against the functions below. */
module Index {
  import opened Common
  import opened Strs
  import opened Paths
  import opened Archive

  /** A position in the node table; it plays the part of a `*fileInfo`. */
  type NodeId = nat

  /** `fileInfo`: the name it was created under, the entry behind it (None for
      a directory that only appears as a prefix of other names), its children
      and the path of its temporary copy ("" while there is none). */
  datatype FileInfo = FileInfo(name: string, zipFile: Option<Entry>, fileInfos: seq<NodeId>, tempPath: string)

  /** `fileInfoMap` together with the nodes it points to. */
  datatype Table = Table(nodes: seq<FileInfo>, keys: map<string, NodeId>)

  const EmptyTable: Table := Table([], map[])

  /** Every key and every child refers to a node of the table. */
  predicate Valid(t: Table)
  {
    && (forall k :: k in t.keys ==> t.keys[k] < |t.nodes|)
    && (forall i, j :: 0 <= i < |t.nodes| && 0 <= j < |t.nodes[i].fileInfos| ==> t.nodes[i].fileInfos[j] < |t.nodes|)
  }

  function NewNode(name: string): FileInfo
  {
    FileInfo(name, None, [], "")
  }

  /** `fileInfoMap.FindOrCreate` (zipfs.go:130-144): the node registered under
      `name`, or a new one registered under `name` and, when that differs,
      under `name` without its trailing slashes. */
  function FindOrCreate(t: Table, name: string): (r: (Table, NodeId))
    requires Valid(t)
    ensures Valid(r.0) && r.1 < |r.0.nodes|
    ensures name in r.0.keys && r.0.keys[name] == r.1
    ensures name in t.keys ==> r == (t, t.keys[name])
    ensures name !in t.keys ==>
      && r.1 == |t.nodes|
      && r.0.nodes == t.nodes + [NewNode(name)]
      && TrimRightSlash(name) in r.0.keys && r.0.keys[TrimRightSlash(name)] == r.1
  {
    var stripped := TrimRightSlash(name);
    if name in t.keys then (t, t.keys[name])
    else
      var id := |t.nodes|;
      var keys := t.keys[name := id];
      (Table(t.nodes + [NewNode(name)], if stripped != name then keys[stripped := id] else keys), id)
  }

  /** `FindOrCreate` adds no key but `name` and `name` without its trailing
      slashes, and leaves the other keys where they were. */
  lemma FindOrCreateKeys(t: Table, name: string, k: string)
    requires Valid(t)
    ensures k in FindOrCreate(t, name).0.keys <==> k in t.keys || k == name || (k == TrimRightSlash(name) && name !in t.keys)
    ensures k in t.keys && k != name && k != TrimRightSlash(name) ==> FindOrCreate(t, name).0.keys[k] == t.keys[k]
  {
  }

  /** The key `FindOrCreateParent` looks up (zipfs.go:146-155): the directory
      part of the name without trailing slashes, with a trailing slash, and
      "/" for a top-level name. */
  function ParentKey(name: string): (k: string)
    ensures k == "/" || HasSuffix(k, "/")
    ensures k == "/" <==> Dir(TrimRightSlash(name)) == "." || Dir(TrimRightSlash(name)) == "/"
    ensures k != "/" ==> k == Dir(TrimRightSlash(name)) + "/"
    ensures NoSlash(TrimRightSlash(name)) ==> k == "/"
  {
    var dirName := Dir(TrimRightSlash(name));
    if dirName == "." then "/"
    else if HasSuffix(dirName, "/") then dirName
    else dirName + "/"
  }

  /** The parent key of a file `b` or a directory `b/` inside a clean
      relative directory `Join(dir)` is that directory with a trailing
      slash. */
  lemma ParentKeyOfChild(dir: seq<string>, b: string)
    requires dir != [] && Plain(dir) && b != [] && NoSlash(b)
    ensures ParentKey(Join(dir) + "/" + b) == Join(dir) + "/"
    ensures ParentKey(Join(dir) + "/" + b + "/") == Join(dir) + "/"
  {
    var d := Join(dir);
    var p := d + "/" + b;
    assert p[|p| - 1] == b[|b| - 1];
    assert TrimRightSlash(p) == p;
    assert (p + "/")[..|p + "/"| - 1] == p;
    assert TrimRightSlash(p + "/") == p;
    DirOfChild(dir, b);
    if |dir| == 1 {
      assert d == dir[0];
    } else {
      assert |d| > 1;
    }
  }

  function FindOrCreateParent(t: Table, name: string): (r: (Table, NodeId))
    requires Valid(t)
    ensures Valid(r.0) && r.1 < |r.0.nodes|
    ensures ParentKey(name) in r.0.keys && r.0.keys[ParentKey(name)] == r.1
    ensures ParentKey(name) in t.keys ==> r == (t, t.keys[ParentKey(name)])
  {
    FindOrCreate(t, ParentKey(name))
  }

  /** Records `e` as the entry behind node `id`. */
  function SetZipFile(t: Table, id: NodeId, e: Entry): (r: Table)
    requires Valid(t) && id < |t.nodes|
    ensures Valid(r)
    ensures r.keys == t.keys && |r.nodes| == |t.nodes|
    ensures r.nodes[id].zipFile == Some(e)
    ensures r.nodes[id].name == t.nodes[id].name && r.nodes[id].fileInfos == t.nodes[id].fileInfos && r.nodes[id].tempPath == t.nodes[id].tempPath
    ensures forall i :: 0 <= i < |t.nodes| && i != id ==> r.nodes[i] == t.nodes[i]
  {
    Table(t.nodes[id := t.nodes[id].(zipFile := Some(e))], t.keys)
  }

  /** Appends `child` to the child list of node `parent`. */
  function AppendChild(t: Table, parent: NodeId, child: NodeId): (r: Table)
    requires Valid(t) && parent < |t.nodes| && child < |t.nodes|
    ensures Valid(r)
    ensures r.keys == t.keys && |r.nodes| == |t.nodes|
    ensures r.nodes[parent].fileInfos == t.nodes[parent].fileInfos + [child]
    ensures r.nodes[parent].name == t.nodes[parent].name && r.nodes[parent].zipFile == t.nodes[parent].zipFile && r.nodes[parent].tempPath == t.nodes[parent].tempPath
    ensures forall i :: 0 <= i < |t.nodes| && i != parent ==> r.nodes[i] == t.nodes[i]
  {
    var p := t.nodes[parent];
    Table(t.nodes[parent := p.(fileInfos := p.fileInfos + [child])], t.keys)
  }

  /** One round of the loop in `New` (zipfs.go:93-98). */
  function AddEntry(t: Table, e: Entry): (r: Table)
    requires Valid(t)
    ensures Valid(r)
  {
    var (t1, id) := FindOrCreate(t, e.name);
    var t2 := SetZipFile(t1, id, e);
    var (t3, pid) := FindOrCreateParent(t2, e.name);
    AppendChild(t3, pid, id)
  }

  /** The index after the loop in `New` has seen `entries`, before sorting. */
  function Build(entries: seq<Entry>): (r: Table)
    ensures Valid(r)
  {
    if entries == [] then EmptyTable
    else AddEntry(Build(entries[..|entries| - 1]), entries[|entries| - 1])
  }

  /** One more round of the loop on the next entry. */
  lemma BuildSnoc(entries: seq<Entry>, i: int)
    requires 0 <= i < |entries|
    ensures Build(entries[..i + 1]) == AddEntry(Build(entries[..i]), entries[i])
  {
    assert entries[..i + 1][..i] == entries[..i];
  }

  // ---------------------------------------------------------------------
  // Properties of the index.

  /** A second `FindOrCreate` of the same name returns the same node and
      changes nothing. */
  lemma FindOrCreateIdempotent(t: Table, name: string)
    requires Valid(t)
    ensures var (t1, id) := FindOrCreate(t, name); FindOrCreate(t1, name) == (t1, id)
  {
  }

  /** Registration of a new directory name: the name with and without its
      trailing slash lead to the same node. */
  lemma DirectoryAliases(t: Table, name: string)
    requires Valid(t) && name !in t.keys && HasSuffix(name, "/")
    ensures var (t1, id) := FindOrCreate(t, name);
      && t1.keys[name] == id && t1.keys[TrimRightSlash(name)] == id
      && TrimRightSlash(name) != name
  {
  }

  /** Number of child links in a node table. */
  function ChildCount(nodes: seq<FileInfo>): nat
  {
    if nodes == [] then 0 else ChildCount(nodes[..|nodes| - 1]) + |nodes[|nodes| - 1].fileInfos|
  }

  lemma {:induction false} ChildCountUpdate(nodes: seq<FileInfo>, i: nat, n: FileInfo)
    requires i < |nodes|
    ensures ChildCount(nodes[i := n]) == ChildCount(nodes) - |nodes[i].fileInfos| + |n.fileInfos|
    decreases |nodes|
  {
    var last := |nodes| - 1;
    assert nodes[i := n][..last] == if i == last then nodes[..last] else nodes[..last][i := n];
    if i < last {
      ChildCountUpdate(nodes[..last], i, n);
    }
  }

  lemma ChildCountAppendEmpty(nodes: seq<FileInfo>, n: FileInfo)
    requires n.fileInfos == []
    ensures ChildCount(nodes + [n]) == ChildCount(nodes)
  {
    assert (nodes + [n])[..|nodes|] == nodes;
  }

  lemma FindOrCreateChildCount(t: Table, name: string)
    requires Valid(t)
    ensures ChildCount(FindOrCreate(t, name).0.nodes) == ChildCount(t.nodes)
  {
    if name !in t.keys { ChildCountAppendEmpty(t.nodes, NewNode(name)); }
  }

  /** Each entry adds exactly one child link, to exactly one parent. */
  lemma {:induction false} BuildChildCount(entries: seq<Entry>)
    ensures ChildCount(Build(entries).nodes) == |entries|
  {
    if entries != [] {
      var prefix := entries[..|entries| - 1];
      var e := entries[|entries| - 1];
      BuildChildCount(prefix);
      var t := Build(prefix);
      var (t1, id) := FindOrCreate(t, e.name);
      FindOrCreateChildCount(t, e.name);
      var t2 := SetZipFile(t1, id, e);
      ChildCountUpdate(t1.nodes, id, t1.nodes[id].(zipFile := Some(e)));
      var (t3, pid) := FindOrCreateParent(t2, e.name);
      FindOrCreateChildCount(t2, ParentKey(e.name));
      var p := t3.nodes[pid];
      ChildCountUpdate(t3.nodes, pid, p.(fileInfos := p.fileInfos + [id]));
    }
  }

  /** What one round of the loop does to the entry it handles: the entry's
      node carries the entry, is registered under the entry's name as long as
      the parent lookup does not reuse that name, and is the last child of
      the node registered under the parent key. */
  lemma AddEntryEffect(t: Table, e: Entry)
    requires Valid(t)
    ensures var (t1, id) := FindOrCreate(t, e.name);
      var r := AddEntry(t, e);
      var pk := ParentKey(e.name);
      && pk in r.keys
      && id < |r.nodes| && r.nodes[id].zipFile == Some(e)
      && |r.nodes[r.keys[pk]].fileInfos| > 0
      && r.nodes[r.keys[pk]].fileInfos[|r.nodes[r.keys[pk]].fileInfos| - 1] == id
      && (e.name != TrimRightSlash(pk) ==> e.name in r.keys && r.keys[e.name] == id)
  {
  }

  /** A round of the loop keeps every key it finds. */
  lemma AddEntryKeepsKey(t: Table, e: Entry, k: string)
    requires Valid(t) && k in t.keys
    ensures k in AddEntry(t, e).keys
  {
    var (t1, id) := FindOrCreate(t, e.name);
    FindOrCreateKeys(t, e.name, k);
    var t2 := SetZipFile(t1, id, e);
    FindOrCreateKeys(t2, ParentKey(e.name), k);
  }

  /** A round of the loop registers the entry's name. */
  lemma AddEntryAddsName(t: Table, e: Entry)
    requires Valid(t)
    ensures e.name in AddEntry(t, e).keys
  {
    var (t1, id) := FindOrCreate(t, e.name);
    var t2 := SetZipFile(t1, id, e);
    FindOrCreateKeys(t2, ParentKey(e.name), e.name);
  }

  /** The last round of the loop. */
  lemma BuildLast(entries: seq<Entry>)
    requires entries != []
    ensures Build(entries) == AddEntry(Build(entries[..|entries| - 1]), entries[|entries| - 1])
  {
  }

  /** Every entry's name is a key of the index. */
  lemma {:induction false} BuildKeys(entries: seq<Entry>, i: int)
    requires 0 <= i < |entries|
    ensures entries[i].name in Build(entries).keys
  {
    var prefix := entries[..|entries| - 1];
    if i == |entries| - 1 {
      AddEntryAddsName(Build(prefix), entries[i]);
    } else {
      BuildKeys(prefix, i);
      assert prefix[i] == entries[i];
      AddEntryKeepsKey(Build(prefix), entries[|entries| - 1], entries[i].name);
    }
    BuildLast(entries);
  }

  /** A key ending in a slash leads to the node created under that very name,
      and a node with children is registered under its own name. Since only
      slash-terminated keys get children, sorting every node of the table
      sorts every child list the map reaches (zipfs.go:100-104). */
  predicate ParentsRegistered(t: Table)
    requires Valid(t)
  {
    && (forall k :: k in t.keys && HasSuffix(k, "/") ==> t.nodes[t.keys[k]].name == k)
    && (forall i :: 0 <= i < |t.nodes| && t.nodes[i].fileInfos != [] ==>
          HasSuffix(t.nodes[i].name, "/") && t.nodes[i].name in t.keys && t.keys[t.nodes[i].name] == i)
  }

  lemma FindOrCreateRegistered(t: Table, name: string)
    requires Valid(t) && ParentsRegistered(t)
    ensures ParentsRegistered(FindOrCreate(t, name).0)
    ensures HasSuffix(name, "/") ==> FindOrCreate(t, name).0.nodes[FindOrCreate(t, name).1].name == name
  {
    var (t1, id) := FindOrCreate(t, name);
    if name !in t.keys {
      var stripped := TrimRightSlash(name);
      assert !HasSuffix(stripped, "/");
      forall k | k in t1.keys && HasSuffix(k, "/") ensures t1.nodes[t1.keys[k]].name == k {
        if k != name {
          assert k != stripped;
          assert k in t.keys;
        }
      }
      forall i | 0 <= i < |t1.nodes| && t1.nodes[i].fileInfos != []
        ensures HasSuffix(t1.nodes[i].name, "/") && t1.nodes[i].name in t1.keys && t1.keys[t1.nodes[i].name] == i
      {
        assert i < |t.nodes| && t1.nodes[i] == t.nodes[i];
        assert t.nodes[i].name != stripped;
      }
    }
  }

  lemma SetZipFileRegistered(t: Table, id: NodeId, e: Entry)
    requires Valid(t) && id < |t.nodes| && ParentsRegistered(t)
    ensures ParentsRegistered(SetZipFile(t, id, e))
  {
    var r := SetZipFile(t, id, e);
    assert forall i :: 0 <= i < |r.nodes| ==> r.nodes[i].name == t.nodes[i].name && r.nodes[i].fileInfos == t.nodes[i].fileInfos;
  }

  lemma AppendChildRegistered(t: Table, parent: NodeId, child: NodeId)
    requires Valid(t) && parent < |t.nodes| && child < |t.nodes| && ParentsRegistered(t)
    requires HasSuffix(t.nodes[parent].name, "/") && t.nodes[parent].name in t.keys && t.keys[t.nodes[parent].name] == parent
    ensures ParentsRegistered(AppendChild(t, parent, child))
  {
    var r := AppendChild(t, parent, child);
    forall i | 0 <= i < |r.nodes| && r.nodes[i].fileInfos != []
      ensures HasSuffix(r.nodes[i].name, "/") && r.nodes[i].name in r.keys && r.keys[r.nodes[i].name] == i
    {
      if i != parent { assert r.nodes[i] == t.nodes[i]; }
    }
  }

  /** A round of the loop keeps `ParentsRegistered`. */
  lemma AddEntryRegistered(t: Table, e: Entry)
    requires Valid(t) && ParentsRegistered(t)
    ensures ParentsRegistered(AddEntry(t, e))
  {
    FindOrCreateRegistered(t, e.name);
    var (t1, id) := FindOrCreate(t, e.name);
    SetZipFileRegistered(t1, id, e);
    var t2 := SetZipFile(t1, id, e);
    var pk := ParentKey(e.name);
    assert HasSuffix(pk, "/");
    FindOrCreateRegistered(t2, pk);
    var (t3, pid) := FindOrCreate(t2, pk);
    AppendChildRegistered(t3, pid, id);
  }

  lemma {:induction false} BuildRegistered(entries: seq<Entry>)
    ensures ParentsRegistered(Build(entries))
  {
    if entries != [] {
      var prefix := entries[..|entries| - 1];
      BuildRegistered(prefix);
      AddEntryRegistered(Build(prefix), entries[|entries| - 1]);
      BuildLast(entries);
    }
  }

  // ---------------------------------------------------------------------
  // The attributes a node reports through `os.FileInfo` (zipfs.go:167-206).

  /** `os.ModeDir`, the directory bit of a Go file mode. */
  const ModeDir: bv32 := 0x8000_0000
  /** Permission bits 0555 and 0444, and the write bits 0222. */
  const PermDir: bv32 := 0x16D
  const PermFile: bv32 := 0x124
  const WriteBits: bv32 := 0x92

  /** The 2001-01-01T00:00:00Z time synthetic directories report. */
  const DirTime: Time := Time(978307200, 0)

  /** `fileInfo.Name`: the base name of the name the node was created under. */
  function Name(fi: FileInfo): (r: string)
    ensures r != [] && (r == "/" || NoSlash(r))
  {
    Base(fi.name)
  }

  /** `fileInfo.IsDir`: no entry, or an entry with the directory bit. */
  predicate IsDir(fi: FileInfo)
  {
    fi.zipFile.None? || fi.zipFile.value.isDir
  }

  /** `fileInfo.Size`: 0 without an entry, else the uncompressed size, taken
      from the 32-bit field when the 64-bit one is 0, as an `int64`. */
  function Size(fi: FileInfo): (r: int)
    ensures fi.zipFile.None? ==> r == 0
    ensures fi.zipFile.Some? && fi.zipFile.value.uncompressedSize64 == 0 ==> r == fi.zipFile.value.uncompressedSize
    ensures fi.zipFile.Some? && 0 < fi.zipFile.value.uncompressedSize64 < TwoTo63 ==> r == fi.zipFile.value.uncompressedSize64
    ensures fi.zipFile.Some? && fi.zipFile.value.uncompressedSize64 >= TwoTo63 ==> r < 0
  {
    if fi.zipFile.None? then 0
    else if fi.zipFile.value.uncompressedSize64 == 0 then fi.zipFile.value.uncompressedSize
    else ToInt64(fi.zipFile.value.uncompressedSize64)
  }

  /** `fileInfo.Mode`: 0555 with the directory bit for a directory, 0444
      otherwise; never a write bit. */
  function Mode(fi: FileInfo): (r: bv32)
    ensures (r & ModeDir != 0) <==> IsDir(fi)
    ensures r & 0x1FF == if IsDir(fi) then PermDir else PermFile
    ensures r & WriteBits == 0
  {
    if fi.zipFile.None? || IsDir(fi) then PermDir | ModeDir else PermFile
  }

  /** `fileInfo.ModTime`: the entry's time, or the fixed directory time. */
  function ModTime(fi: FileInfo): (r: Time)
    ensures fi.zipFile.None? ==> r == DirTime && !IsZero(r)
    ensures fi.zipFile.Some? ==> r == fi.zipFile.value.modified
  {
    if fi.zipFile.None? then DirTime else fi.zipFile.value.modified
  }

  /** A node with no entry is a read-only directory of size 0 dated
      2001-01-01. */
  lemma SyntheticDirectoryAttributes(fi: FileInfo)
    requires fi.zipFile.None?
    ensures IsDir(fi) && Size(fi) == 0 && Mode(fi) == PermDir | ModeDir && ModTime(fi) == DirTime
  {
  }

  /** A node for a file entry is a read-only file of its uncompressed size. */
  lemma FileAttributes(fi: FileInfo, e: Entry)
    requires fi.zipFile == Some(e) && !e.isDir && 0 < e.uncompressedSize64 < TwoTo63
    ensures !IsDir(fi) && Mode(fi) == PermFile && Size(fi) == e.uncompressedSize64
  {
  }

  /** The root is named "/", a directory entry "img/" is named "img". */
  lemma RootAndDirectoryNames()
    ensures Name(NewNode("/")) == "/"
    ensures Name(NewNode("img/")) == "img"
  {
    assert TrimRightSlash("/") == [];
    assert TrimRightSlash("img/") == "img";
    assert LastSlash("img") == -1;
  }
}
