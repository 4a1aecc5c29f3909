/** `FileSystem` and `fileReader` of zipfs.go as classes: the file system owns
    the node table and the name map built by `New`; a reader is one open file
    over one node. Their methods update the fields in place and are proved to
    follow the functions of index.dfy and handle.dfy. */
module ZipFs {
  import opened Common
  import opened Strs
  import opened Paths
  import opened Archive
  import opened Index
  import opened ChildOrder
  import opened Handles

  /** Base names of all nodes, by position: what `fileInfoList.Less` compares. */
  function Names(nodes: seq<FileInfo>): (r: seq<string>)
    ensures |r| == |nodes| && forall i :: 0 <= i < |nodes| ==> r[i] == Name(nodes[i])
  {
    seq(|nodes|, i requires 0 <= i < |nodes| => Name(nodes[i]))
  }

  /** `n` is `b` with its child list sorted by name. */
  predicate SortedVersion(n: FileInfo, b: FileInfo, names: seq<string>)
  {
    && n.name == b.name && n.zipFile == b.zipFile && n.tempPath == b.tempPath
    && multiset(n.fileInfos) == multiset(b.fileInfos)
    && SortedByName(n.fileInfos, names)
  }

  /** Replacing the child list of node `k` by a permutation of it keeps
      every child reference inside the table. */
  lemma PermutedChildrenValid(nodes: seq<FileInfo>, keys: map<string, NodeId>, k: nat, s: seq<NodeId>)
    requires k < |nodes| && Index.Valid(Index.Table(nodes, keys))
    requires multiset(s) == multiset(nodes[k].fileInfos)
    ensures Index.Valid(Index.Table(nodes[k := nodes[k].(fileInfos := s)], keys))
  {
    var n := nodes[k := nodes[k].(fileInfos := s)];
    forall i, j | 0 <= i < |n| && 0 <= j < |n[i].fileInfos| ensures n[i].fileInfos[j] < |n| {
      if i == k {
        assert s[j] in multiset(s);
        assert s[j] in nodes[k].fileInfos;
        var p :| 0 <= p < |nodes[k].fileInfos| && nodes[k].fileInfos[p] == s[j];
      }
    }
  }

  /** Replacing a child list keeps every base name. */
  lemma PermutedChildrenNames(nodes: seq<FileInfo>, k: nat, s: seq<NodeId>)
    requires k < |nodes|
    ensures Names(nodes[k := nodes[k].(fileInfos := s)]) == Names(nodes)
  {
    var n := nodes[k := nodes[k].(fileInfos := s)];
    forall i | 0 <= i < |n| ensures Names(n)[i] == Names(nodes)[i] {
      assert n[i].name == nodes[i].name;
    }
  }

  /** Replacing the child list of node `k` by a sorted permutation of it
      keeps the table valid and every base name, and extends the sorted
      prefix of the table by one node. */
  lemma SortStep(nodes: seq<FileInfo>, built: seq<FileInfo>, keys: map<string, NodeId>, names: seq<string>, k: nat, s: seq<NodeId>)
    requires k < |nodes| == |built| && Index.Valid(Index.Table(nodes, keys)) && Names(nodes) == names
    requires forall m :: 0 <= m < k ==> SortedVersion(nodes[m], built[m], names)
    requires forall m :: k <= m < |nodes| ==> nodes[m] == built[m]
    requires multiset(s) == multiset(nodes[k].fileInfos) && SortedByName(s, names)
    ensures var n := nodes[k := nodes[k].(fileInfos := s)];
      && Index.Valid(Index.Table(n, keys)) && Names(n) == names
      && (forall m :: 0 <= m <= k ==> SortedVersion(n[m], built[m], names))
      && (forall m :: k < m < |n| ==> n[m] == built[m])
  {
    var n := nodes[k := nodes[k].(fileInfos := s)];
    assert SortedVersion(n[k], built[k], names);
    PermutedChildrenNames(nodes, k, s);
    PermutedChildrenValid(nodes, keys, k, s);
  }

  /** The build loop's invariant carried across one round. */
  lemma BuildStep(entries: seq<Entry>, i: nat, before: Table, after: Table)
    requires i < |entries| && before == Build(entries[..i]) && after == Index.AddEntry(before, entries[i])
    ensures after == Build(entries[..i + 1])
  {
    BuildSnoc(entries, i);
  }

  class FileSystem {
    /** The raw bytes of the archive file (`readerAt`). */
    const readerAt: seq<byte>
    /** The archive's entries in directory order (`reader.File`). */
    const files: seq<Entry>
    var nodes: seq<FileInfo>
    var fileInfos: map<string, NodeId>
    /** The archive reader and its closer are still set; `Close` clears them. */
    var archiveOpen: bool

    function Table(): Table
      reads this
    {
      Index.Table(nodes, fileInfos)
    }

    ghost predicate Valid()
      reads this
    {
      Index.Valid(Table())
    }

    /** `New` (zipfs.go:65-107) on an archive file whose bytes are `raw` and
        whose entries are `entries`: every entry is registered with its
        parent, then every child list is sorted by name. */
    constructor New(raw: seq<byte>, entries: seq<Entry>)
      ensures Valid() && archiveOpen && readerAt == raw && files == entries
      ensures fileInfos == Build(entries).keys
      ensures |nodes| == |Build(entries).nodes|
      ensures forall i :: 0 <= i < |nodes| ==> SortedVersion(nodes[i], Build(entries).nodes[i], Names(nodes))
    {
      readerAt := raw;
      files := entries;
      nodes := [];
      fileInfos := map[];
      archiveOpen := true;
      new;
      AddAll(entries);
      SortAll();
    }

    /** The loop in `New` (zipfs.go:93-98) over all entries, on an empty index. */
    method AddAll(entries: seq<Entry>)
      requires Table() == EmptyTable
      modifies this
      ensures Valid() && archiveOpen == old(archiveOpen)
      ensures Table() == Build(entries)
    {
      var i := 0;
      while i < |entries|
        invariant 0 <= i <= |entries|
        invariant Table() == Build(entries[..i]) && archiveOpen == old(archiveOpen)
      {
        ghost var before := Table();
        AddEntry(entries[i]);
        BuildStep(entries, i, before, Table());
        i := i + 1;
      }
      assert entries[..i] == entries;
    }

    /** One round of the loop in `New` (zipfs.go:93-98): the entry becomes
        the zip file of its own node, which is appended to its parent's list. */
    method AddEntry(zf: Entry)
      requires Valid()
      modifies this
      ensures Valid() && archiveOpen == old(archiveOpen)
      ensures Table() == Index.AddEntry(old(Table()), zf)
    {
      ghost var t := Table();
      var fi := FindOrCreate(zf.name);
      nodes := nodes[fi := nodes[fi].(zipFile := Some(zf))];
      ghost var t2 := Table();
      assert t2 == SetZipFile(Index.FindOrCreate(t, zf.name).0, fi, zf);
      var dirEntry := FindOrCreateParent(zf.name);
      var parent := nodes[dirEntry];
      nodes := nodes[dirEntry := parent.(fileInfos := parent.fileInfos + [fi])];
      assert Table() == AppendChild(Index.FindOrCreateParent(t2, zf.name).0, dirEntry, fi);
    }

    /** The sorting loop of `New` (zipfs.go:100-104), run over every node of
        the table; `Index.BuildRegistered` shows these are the nodes the map
        reaches that have children. */
    method SortAll()
      requires Valid()
      modifies this
      ensures Valid() && archiveOpen == old(archiveOpen) && fileInfos == old(fileInfos)
      ensures |nodes| == old(|nodes|)
      ensures forall i :: 0 <= i < |nodes| ==> SortedVersion(nodes[i], old(nodes)[i], Names(nodes))
    {
      ghost var built := nodes;
      var names := Names(nodes);
      var k := 0;
      while k < |nodes|
        invariant 0 <= k <= |nodes| == |built|
        invariant fileInfos == old(fileInfos) && archiveOpen == old(archiveOpen)
        invariant Names(nodes) == names
        invariant forall m :: 0 <= m < k ==> SortedVersion(nodes[m], built[m], names)
        invariant forall m :: k <= m < |nodes| ==> nodes[m] == built[m]
        invariant Valid()
      {
        var children := nodes[k].fileInfos;
        if |children| > 1 {
          var a := new NodeId[|children|](j requires 0 <= j < |children| => children[j]);
          assert a[..] == children;
          SortByName(a, names);
          children := a[..];
        }
        SortStep(nodes, built, fileInfos, names, k, children);
        nodes := nodes[k := nodes[k].(fileInfos := children)];
        k := k + 1;
      }
    }

    /** `fileInfoMap.FindOrCreate` (zipfs.go:130-144) on this file system's map. */
    method FindOrCreate(name: string) returns (fi: NodeId)
      requires Valid()
      modifies this
      ensures Valid() && archiveOpen == old(archiveOpen)
      ensures (Table(), fi) == Index.FindOrCreate(old(Table()), name)
    {
      var strippedName := TrimRightSlash(name);
      if name in fileInfos {
        fi := fileInfos[name];
      } else {
        fi := |nodes|;
        nodes := nodes + [NewNode(name)];
        fileInfos := fileInfos[name := fi];
        if strippedName != name {
          fileInfos := fileInfos[strippedName := fi];
        }
      }
    }

    /** `fileInfoMap.FindOrCreateParent` (zipfs.go:146-155). */
    method FindOrCreateParent(name: string) returns (fi: NodeId)
      requires Valid()
      modifies this
      ensures Valid() && archiveOpen == old(archiveOpen)
      ensures (Table(), fi) == Index.FindOrCreateParent(old(Table()), name)
    {
      var strippedName := TrimRightSlash(name);
      var dirName := Dir(strippedName);
      if dirName == "." {
        dirName := "/";
      } else if !HasSuffix(dirName, "/") {
        dirName := dirName + "/";
      }
      fi := FindOrCreate(dirName);
    }

    /** `FileSystem.Open` (zipfs.go:40-49): the cleaned name, without leading
        slashes, is looked up in the map; a miss is "file does not exist". */
    method Open(name: string) returns (f: FileReader?, err: Option<Error>)
      requires Valid()
      ensures TrimLeftSlash(Clean(name)) in fileInfos <==> f != null
      ensures f == null ==> err == Some(PathError("Open", Clean(name), NotExist))
      ensures f != null ==>
        && err == None && fresh(f) && f.Valid() && f.fs == this
        && f.node == fileInfos[TrimLeftSlash(Clean(name))]
        && f.name == Clean(name) && f.State() == Unopened
    {
      var cleaned := Clean(name);
      var trimmedName := TrimLeftSlash(cleaned);
      if trimmedName !in fileInfos {
        return null, Some(PathError("Open", cleaned, NotExist));
      }
      f := new FileReader(this, fileInfos[trimmedName], cleaned);
      err := None;
    }

    /** `FileSystem.Close` (zipfs.go:52-61): drops the archive reader and
        closes the archive file; the index stays, so `Open` keeps working,
        but every later read of the archive file fails (`ReadStep`,
        `SeekStep` and `Handler.Served` take `archiveOpen`). */
    method Close() returns (err: Option<Error>)
      modifies this
      ensures !archiveOpen && err == None
      ensures nodes == old(nodes) && fileInfos == old(fileInfos)
    {
      archiveOpen := false;
      err := None;
    }
  }

  /** `fileReader`: one open file over node `node` of `fs`. */
  class FileReader {
    /** The name used to open it, for error messages. */
    const name: string
    const fs: FileSystem
    const node: NodeId
    var reader: Option<Stream>
    var file: Option<TempFile>
    var closed: bool
    var readdir: Option<seq<NodeId>>

    function State(): Handle
      reads this
    {
      Handle(reader, file, closed, readdir)
    }

    ghost predicate Valid()
      reads this, fs
    {
      fs.Valid() && node < |fs.nodes|
    }

    /** `fileInfo.openReader` (zipfs.go:208-213). */
    constructor (fs: FileSystem, node: NodeId, name: string)
      requires fs.Valid() && node < |fs.nodes|
      ensures Valid() && this.fs == fs && this.node == node && this.name == name
      ensures State() == Unopened
    {
      this.fs := fs;
      this.node := node;
      this.name := name;
      reader, file, closed, readdir := None, None, false, None;
    }

    /** `fileReader.Read`: reads up to `n` bytes. */
    method Read(n: nat) returns (bytes: seq<byte>, err: Option<Error>)
      requires Valid()
      modifies this
      ensures Valid()
      ensures (State(), bytes, err) == ReadStep(old(State()), fs.nodes[node], fs.archiveOpen, name, n)
    {
      if closed {
        return [], Some(PathError("Read", name, FileClosed));
      }
      if file.Some? {
        var (c, got, eof) := ReadAtCursor(file.value.cursor, n);
        file := Some(file.value.(cursor := c));
        bytes := got;
        err := if eof then Some(EOF) else None;
        return;
      }
      if reader.None? {
        var fi := fs.nodes[node];
        if fi.zipFile.None? {
          return [], Some(NilZipFile);
        }
        var entryData := OpenEntry(fi.zipFile.value, fs.archiveOpen);
        if entryData.ZipErr? {
          return [], Some(Zip(entryData.error));
        }
        reader := Some(Stream(Cursor(entryData.value, 0), fi.zipFile.value.compression == Deflate, false));
      } else if reader.value.cursor.pos < |reader.value.cursor.data| {
        if reader.value.shut && reader.value.deflated {
          return [], Some(ReadAfterClose);
        } else if !fs.archiveOpen {
          return [], Some(Zip(ErrClosed));
        }
      }
      var s := reader.value;
      var (c, got, eof) := ReadAtCursor(s.cursor, n);
      reader := Some(s.(cursor := c));
      bytes := got;
      err := if eof then Some(EOF) else None;
    }

    /** `fileReader.Seek`: moves to `offset` counted as `whence` says, after
        switching the handle to the node's temporary copy. `tempName` is the
        name the OS gives a new temporary file; `osFails` says whether the OS
        fails to create or open it. */
    method Seek(offset: int, whence: int, tempName: string, osFails: bool) returns (pos: int, err: Option<Error>)
      requires Valid() && tempName != ""
      modifies this, fs
      ensures Valid()
      ensures fs.fileInfos == old(fs.fileInfos) && fs.archiveOpen == old(fs.archiveOpen)
      ensures |fs.nodes| == old(|fs.nodes|)
      ensures forall i :: 0 <= i < |fs.nodes| && i != node ==> fs.nodes[i] == old(fs.nodes[i])
      ensures var (h, fi, r) := SeekStep(old(State()), old(fs.nodes[node]), fs.archiveOpen, name, offset, whence, tempName, osFails);
        && State() == h && fs.nodes[node] == fi
        && (if r.Ok? then pos == r.value && err == None else pos == 0 && err == Some(r.error))
    {
      if closed {
        return 0, Some(PathError("Seek", name, FileClosed));
      }
      reader := Shut(reader);
      if file.None? {
        var (fi, got) := OpenFile(fs.nodes[node], fs.archiveOpen, tempName, osFails);
        if got.Err? {
          return 0, Some(got.error);
        }
        fs.nodes := fs.nodes[node := fi];
        file := Some(got.value);
      }
      var tf := file.value;
      var moved := SeekPosition(tf.cursor, offset, whence);
      if moved.Err? {
        return 0, Some(PathError("seek", tf.path, InvalidArgument));
      }
      file := Some(tf.(cursor := tf.cursor.(pos := moved.value)));
      pos, err := moved.value, None;
    }

    /** `fileReader.Readdir`. */
    method Readdir(count: int) returns (infos: Option<seq<NodeId>>, err: Option<Error>)
      requires Valid()
      modifies this
      ensures Valid()
      ensures (State(), infos, err) == ReaddirStep(old(State()), fs.nodes[node], name, count)
    {
      var fi := fs.nodes[node];
      if count > 0 {
        if readdir.None? {
          var listed := ChildList(fi);
          if listed.Err? {
            readdir := None;
            return None, Some(PathError("Readdir", name, listed.error));
          }
          readdir := Some(listed.value);
        }
        var cur := readdir.value;
        if |cur| >= count {
          infos := Some(cur[..count]);
          readdir := Some(cur[count..]);
          err := None;
        } else {
          infos := Some(cur);
          readdir := None;
          err := Some(EOF);
        }
      } else {
        var listed := ChildList(fi);
        if listed.Err? {
          return None, Some(PathError("Readdir", name, listed.error));
        }
        infos, err := Some(listed.value), None;
      }
    }

    /** `fileReader.Stat` (zipfs.go:341-343): the node itself, whose
        attributes are those of index.dfy. */
    function Stat(): (fi: FileInfo)
      reads this, fs
      requires Valid()
      ensures fi == fs.nodes[node]
      ensures fs.nodes[node].zipFile.None? ==> IsDir(fi) && Size(fi) == 0 && ModTime(fi) == DirTime
      ensures fs.nodes[node].zipFile.Some? ==> ModTime(fi) == fs.nodes[node].zipFile.value.modified
    {
      fs.nodes[node]
    }

    /** `fileReader.Close`. */
    method Close() returns (err: Option<Error>)
      requires Valid()
      modifies this
      ensures Valid() && State() == CloseStep(old(State())) && err == None
    {
      closed := true;
      err := None;
    }
  }
}
