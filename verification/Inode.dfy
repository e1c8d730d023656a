/**
 `InodeTable`: inodes numbered in the order they are found, linked by per-directory hash tables.
 */
module Inode {
  import opened Common
  import opened InodeModel

  const INVALID: nat := 0
  const ROOT: nat := 1

  datatype Kind = DirectoryKind | FileKind

  datatype DirectoryEntry = DirectoryEntry(inode: nat, kind: Kind)

  datatype Data = Directory(entries: map<Name, DirectoryEntry>) | File(zipIndex: nat)

  datatype InodeData = InodeData(mode: nat, size: nat, data: Data)
  {
    predicate IsDir() { data.Directory? }
  }

  function NewDir(mode: nat): InodeData { InodeData(mode, 0, Directory(map[])) }

  function NewFile(zipIndex: nat, e: ZipEntry): InodeData { InodeData(ModeOr(e.mode, 0), e.size, File(zipIndex)) }

  function KindOf(data: InodeData): Kind { if data.IsDir() then DirectoryKind else FileKind }

  function Get(table: seq<InodeData>, inode: nat): Option<InodeData>
  {
    if inode == INVALID || inode >= |table| then None else Some(table[inode])
  }

  predicate IsDirectory(table: seq<InodeData>, inode: nat)
  {
    Get(table, inode).Some? && table[inode].IsDir()
  }

  /** Entry `name` of a directory inode. */
  function Find(table: seq<InodeData>, parent: nat, name: Name): Option<nat>
    requires IsDirectory(table, parent)
  {
    var entries := table[parent].data.entries;
    if name in entries then Some(entries[name].inode) else None
  }

  /** Looks up a path from the root, one directory at a time. */
  function Resolve(table: seq<InodeData>, p: Path): Option<nat>
  {
    if p == [] then Some(ROOT)
    else
      var parent := Resolve(table, p[..|p| - 1]);
      if parent.None? || !IsDirectory(table, parent.value) then None else Find(table, parent.value, p[|p| - 1])
  }

  // ---------------------------------------------------------------------------------------
  // Tables and trees
  // ---------------------------------------------------------------------------------------

  /** How the inodes of a table correspond to the paths of a tree. */
  datatype Layout = Layout(paths: seq<Path>, parents: seq<nat>, index: map<Path, nat>)

  /** The inode's metadata and kind are those of the node. */
  predicate Matches(data: InodeData, node: Node)
  {
    && data.mode == node.mode && data.size == node.size
    && match node.file case Some(i) => data.data == File(i) case None => data.IsDir()
  }

  /** Inode `i` stands for `paths[i]` in the tree. */
  ghost predicate InodeOk(table: seq<InodeData>, y: Layout, tree: Tree, i: nat)
    requires |table| == |y.paths| && 2 <= i < |table|
  {
    y.paths[i] in tree && y.paths[i] in y.index && y.index[y.paths[i]] == i && Matches(table[i], tree[y.paths[i]])
  }

  /** Inode `i` is entered in its parent's directory, under the last component of its path. */
  ghost predicate LinkOk(table: seq<InodeData>, y: Layout, i: nat)
    requires |table| == |y.paths| == |y.parents| && 2 <= i < |table|
  {
    var p, parent := y.paths[i], y.parents[i];
    && p != [] && ROOT <= parent < i && table[parent].IsDir() && y.paths[parent] == p[..|p| - 1]
    && p[|p| - 1] in table[parent].data.entries
    && table[parent].data.entries[p[|p| - 1]] == DirectoryEntry(i, KindOf(table[i]))
  }

  /** An entry of directory `i` leads to a later inode, whose path extends the directory's by the name. */
  ghost predicate EntryOk(table: seq<InodeData>, y: Layout, i: nat, name: Name)
    requires |table| == |y.paths| && i < |table| && table[i].IsDir() && name in table[i].data.entries
  {
    var j := table[i].data.entries[name].inode;
    i < j < |table| && 2 <= j && y.paths[j] == y.paths[i] + [name]
  }

  /** The table represents the tree. */
  ghost predicate Represents(table: seq<InodeData>, y: Layout, tree: Tree)
  {
    && |table| == |y.paths| == |y.parents| == 2 + |tree|
    && table[INVALID] == NewDir(0) && table[ROOT].IsDir() && y.paths[ROOT] == [] && [] !in tree
    && y.index.Keys == tree.Keys
    && (forall p :: p in y.index ==> 2 <= y.index[p] < |table| && y.paths[y.index[p]] == p)
    && (forall i: nat :: 2 <= i < |table| ==> InodeOk(table, y, tree, i))
    && (forall i: nat :: 2 <= i < |table| ==> LinkOk(table, y, i))
    && (forall i: nat, name ::
          ROOT <= i < |table| && table[i].IsDir() && name in table[i].data.entries ==> EntryOk(table, y, i, name))
  }

  /** The inode of a path. */
  ghost function InodeOf(y: Layout, p: Path): nat
    requires p == [] || p in y.index
  {
    if p == [] then ROOT else y.index[p]
  }

  /** Looking a path up finds its inode, exactly for the paths of the tree and the root. */
  lemma {:induction false} ResolveFindsExactlyTheTree(table: seq<InodeData>, y: Layout, tree: Tree, p: Path)
    requires Represents(table, y, tree)
    ensures Resolve(table, p).Some? <==> p == [] || p in tree
    ensures p == [] || p in tree ==> Resolve(table, p) == Some(InodeOf(y, p))
  {
    if p != [] {
      var front, name := p[..|p| - 1], p[|p| - 1];
      ResolveFindsExactlyTheTree(table, y, tree, front);
      if p in tree {
        var i := y.index[p];
        assert LinkOk(table, y, i) && InodeOk(table, y, tree, i);
        var parent := y.parents[i];
        if parent != ROOT { assert InodeOk(table, y, tree, parent); }
        assert parent == InodeOf(y, front);
      } else if front == [] || front in tree {
        assert front + [name] == p;
        if IsDirectory(table, InodeOf(y, front)) { FoundIffInTree(table, y, tree, InodeOf(y, front), name); }
      }
    }
  }

  /** Directory `i` has the entry `name` for inode `j`. */
  predicate Enters(table: seq<InodeData>, i: nat, name: Name, j: nat)
  {
    && ROOT <= i < |table| && table[i].IsDir()
    && name in table[i].data.entries && table[i].data.entries[name].inode == j
  }

  /**
   The table is a rooted tree: every inode from 2 on is entered in exactly one directory under exactly
   one name, its parent has a smaller number and is a directory, the entry's kind is the inode's
   kind, and no entry leads to the invalid inode or to the root.
   */
  lemma TableIsRootedTree(table: seq<InodeData>, y: Layout, tree: Tree, i: nat, name: Name, j: nat)
    requires Represents(table, y, tree)
    ensures 2 <= j < |table| ==>
              LinkOk(table, y, j) && y.parents[j] < j
    ensures Enters(table, i, name, j) ==>
              && 2 <= j < |table| && i == y.parents[j] && name == y.paths[j][|y.paths[j]| - 1]
              && table[i].data.entries[name].kind == (if table[j].data.Directory? then DirectoryKind else FileKind)
    ensures table[INVALID].data.entries == map[]
  {
    if 2 <= j < |table| { assert LinkOk(table, y, j); }
    if Enters(table, i, name, j) {
      assert EntryOk(table, y, i, name);
      assert LinkOk(table, y, j);
      var parent := y.parents[j];
      if parent != ROOT { assert InodeOk(table, y, tree, parent); }
      if i != ROOT { assert InodeOk(table, y, tree, i); }
      assert y.paths[j][..|y.paths[j]| - 1] == y.paths[i];
    }
  }

  // ---------------------------------------------------------------------------------------
  // Construction
  // ---------------------------------------------------------------------------------------

  datatype BuildResult = TableBuilt(table: InodeTable) | BuildBailed | BuildPanicked

  class InodeTable {
    var table: seq<InodeData>
    ghost var layout: Layout

    ghost predicate Valid(tree: Tree) reads this { Represents(table, layout, tree) }

    /** The table with the invalid inode and an empty root. */
    constructor ()
      ensures Valid(map[]) && table == [NewDir(0), NewDir(0)]
    {
      table := [NewDir(0), NewDir(0)];
      layout := Layout([[], []], [0, 0], map[]);
    }

    method Put(data: InodeData) returns (inode: nat)
      modifies this`table
      ensures inode == |old(table)| && table == old(table) + [data]
    {
      inode := |table|;
      table := table + [data];
    }

    /** Adds an inode under a new name of a directory. */
    method Add(parent: nat, name: Name, data: InodeData, ghost tree: Tree, ghost node: Node) returns (inode: nat)
      requires Valid(tree) && IsDirectory(table, parent) && Find(table, parent, name).None?
      requires Matches(data, node) && (data.IsDir() ==> data.data.entries == map[])
      modifies this
      ensures inode == |old(table)| && old(layout).paths[parent] + [name] !in tree
      ensures Valid(tree[old(layout).paths[parent] + [name] := node])
      ensures layout.paths == old(layout).paths + [old(layout).paths[parent] + [name]]
    {
      ghost var p := layout.paths[parent] + [name];
      NewPath(table, layout, tree, parent, name);
      var kind := KindOf(data);
      inode := Put(data);
      var dir := table[parent];
      table := table[parent := dir.(data := Directory(dir.data.entries[name := DirectoryEntry(inode, kind)]))];
      layout := Layout(layout.paths + [p], layout.parents + [parent], layout.index[p := inode]);
      AddedRepresents(old(table), old(layout), tree, parent, name, data, node, table, layout);
    }

    /** Sets the mode of an inode. */
    method SetMode(inode: nat, mode: nat, ghost tree: Tree)
      requires Valid(tree) && 2 <= inode < |table|
      modifies this`table
      ensures |table| == |old(table)| && layout.paths[inode] in tree
      ensures Valid(tree[layout.paths[inode] := tree[layout.paths[inode]].(mode := mode)])
    {
      assert InodeOk(table, layout, tree, inode);
      table := table[inode := table[inode].(mode := mode)];
      ModeSetRepresents(old(table), layout, tree, inode, mode, table);
    }

    /** One path component of entry `i`: finds or creates its inode, which becomes the next parent. */
    method Component(parent: nat, e: ZipEntry, path: Path, i: nat, k: nat, ghost tree: Tree) returns (next: nat)
      requires k < |path| && Valid(tree) && ROOT <= parent < |table| && layout.paths[parent] == path[..k]
      requires IsDirectory(table, parent)
      requires ComponentOutcome(tree, e, path, i, k).Built?
      modifies this
      ensures Valid(ComponentOutcome(tree, e, path, i, k).tree)
      ensures 2 <= next < |table| == |layout.paths| && layout.paths[next] == path[..k + 1]
    {
      hide Represents;
      var name := path[k];
      var isLeaf := k + 1 == |path|;
      var isFile := e.isFile && isLeaf;
      assert path[..k] + [name] == path[..k + 1];
      assert path[..k + 1] == path <==> isLeaf;
      RepresentsSizes(table, layout, tree);
      FoundIffInTree(table, layout, tree, parent, name);
      var found := Find(table, parent, name);
      if found.Some? {
        next := found.value;
        if !isFile && isLeaf {
          SetMode(next, ModeOr(e.mode, 0), tree);
        } else {
          assert tree[path[..k + 1] := tree[path[..k + 1]]] == tree;
        }
      } else {
        var data :=
          if isFile then NewFile(i, e)
          else if isLeaf then NewDir(ModeOr(e.mode, DEFAULT_DIR_MODE))
          else NewDir(DEFAULT_DIR_MODE);
        next := Add(parent, name, data, tree, NewNode(e, path, i, path[..k + 1]));
        RepresentsSizes(table, layout, ComponentOutcome(tree, e, path, i, k).tree);
      }
    }

    /**
     `from_zip`: succeeds, bails out or stops exactly as the archive prescribes, and a table that is
     built represents the expected tree.
     */
    static method FromZip(archive: seq<ZipEntry>) returns (r: BuildResult)
      ensures r.TableBuilt? <==> ArchiveOutcome(archive, |archive|).Built?
      ensures r.BuildBailed? <==> ArchiveOutcome(archive, |archive|).Bailed?
      ensures r.TableBuilt? ==> fresh(r.table) && r.table.Valid(ArchiveOutcome(archive, |archive|).tree)
    {
      hide Represents, ComponentOutcome;
      var t := new InodeTable();
      ghost var tree: Tree := map[];
      for i := 0 to |archive|
        invariant fresh(t) && t.Valid(tree) && ArchiveOutcome(archive, i) == Built(tree)
      {
        var e := archive[i];
        if !e.readable || e.name.None? {
          FailureIsFinal(archive, i + 1, |archive|);
          return BuildBailed;
        }
        var path := e.name.value;
        ghost var goal := PathOutcome(tree, e, path, i, 0);
        assert ArchiveOutcome(archive, i + 1) == goal;
        var parent := ROOT;
        RepresentsSizes(t.table, t.layout, tree);
        for k := 0 to |path|
          invariant fresh(t) && t.Valid(tree)
          invariant ROOT <= parent < |t.table| == |t.layout.paths| && t.layout.paths[parent] == path[..k]
          invariant PathOutcome(tree, e, path, i, k) == goal
        {
          var name := path[k];
          ParentKind(t.table, t.layout, tree, parent);
          ComponentFails(tree, e, path, i, k);
          if name == DOT_DOT {
            FailureIsFinal(archive, i + 1, |archive|);
            return BuildBailed;
          }
          if 0 in name || !IsDirectory(t.table, parent) {
            FailureIsFinal(archive, i + 1, |archive|);
            return BuildPanicked;
          }
          parent := t.Component(parent, e, path, i, k, tree);
          tree := ComponentOutcome(tree, e, path, i, k).tree;
        }
      }
      r := TableBuilt(t);
    }
  }

  lemma RepresentsSizes(table: seq<InodeData>, y: Layout, tree: Tree)
    requires Represents(table, y, tree)
    ensures |table| == |y.paths| == 2 + |tree| && y.paths[ROOT] == []
  {}

  lemma ComponentFails(tree: Tree, e: ZipEntry, path: Path, i: nat, k: nat)
    requires k < |path|
    ensures ComponentOutcome(tree, e, path, i, k)
         == if path[k] == DOT_DOT then Bailed
            else if 0 in path[k] || FileIn(tree, path[..k]) then Panicked
            else Built(tree[path[..k + 1] := TouchedNode(tree, e, path, i, path[..k + 1])])
  {}

  /** Once an entry has failed, so has the archive. */
  lemma {:induction false} FailureIsFinal(archive: seq<ZipEntry>, m: nat, n: nat)
    requires m <= n <= |archive| && !ArchiveOutcome(archive, m).Built?
    ensures ArchiveOutcome(archive, n) == ArchiveOutcome(archive, m)
    decreases n - m
  {
    if m < n { FailureIsFinal(archive, m, n - 1); }
  }

  /** An inode is a directory unless its path is a file of the tree. */
  lemma ParentKind(table: seq<InodeData>, y: Layout, tree: Tree, i: nat)
    requires Represents(table, y, tree) && ROOT <= i < |table|
    ensures IsDirectory(table, i) <==> !FileIn(tree, y.paths[i])
  {
    if 2 <= i { assert InodeOk(table, y, tree, i); }
  }

  lemma FoundIffInTree(table: seq<InodeData>, y: Layout, tree: Tree, parent: nat, name: Name)
    requires Represents(table, y, tree) && IsDirectory(table, parent)
    ensures var p, found := y.paths[parent] + [name], Find(table, parent, name);
            && (found.Some? <==> p in tree)
            && (found.Some? ==> 2 <= found.value < |table| && y.paths[found.value] == p)
  {
    var p := y.paths[parent] + [name];
    if name in table[parent].data.entries {
      assert EntryOk(table, y, parent, name);
      assert InodeOk(table, y, tree, table[parent].data.entries[name].inode);
    }
    if p in tree {
      var i := y.index[p];
      assert LinkOk(table, y, i);
      assert p[..|p| - 1] == y.paths[parent];
      if y.parents[i] != ROOT { assert InodeOk(table, y, tree, y.parents[i]); }
      if parent != ROOT { assert InodeOk(table, y, tree, parent); }
    }
  }

  lemma NewPath(table: seq<InodeData>, y: Layout, tree: Tree, parent: nat, name: Name)
    requires Represents(table, y, tree) && IsDirectory(table, parent) && Find(table, parent, name).None?
    ensures y.paths[parent] + [name] !in tree
  {
    FoundIffInTree(table, y, tree, parent, name);
  }

  /** `table'` and `y'` are `table` and `y` with `data` added as `name` in directory `parent`. */
  ghost predicate Added(
    table: seq<InodeData>, y: Layout, parent: nat, name: Name, data: InodeData, table': seq<InodeData>, y': Layout)
  {
    && IsDirectory(table, parent) && |y.paths| == |table| && (data.IsDir() ==> data.data.entries == map[])
    && var p, n, dir := y.paths[parent] + [name], |table|, table[parent];
       var entries := dir.data.entries[name := DirectoryEntry(n, KindOf(data))];
       && table' == (table + [data])[parent := dir.(data := Directory(entries))]
       && y' == Layout(y.paths + [p], y.parents + [parent], y.index[p := n])
  }

  lemma AddedLinks(
    table: seq<InodeData>, y: Layout, tree: Tree, parent: nat, name: Name, data: InodeData,
    table': seq<InodeData>, y': Layout, i: nat)
    requires Represents(table, y, tree) && Added(table, y, parent, name, data, table', y')
    requires Find(table, parent, name).None? && 2 <= i < |table'|
    ensures LinkOk(table', y', i)
  {
    var p := y.paths[parent] + [name];
    assert p[..|p| - 1] == y.paths[parent];
    if i < |table| { assert LinkOk(table, y, i); }
  }

  lemma AddedEntries(
    table: seq<InodeData>, y: Layout, tree: Tree, parent: nat, name: Name, data: InodeData,
    table': seq<InodeData>, y': Layout, i: nat, m: Name)
    requires Represents(table, y, tree) && Added(table, y, parent, name, data, table', y')
    requires ROOT <= i < |table'| && table'[i].IsDir() && m in table'[i].data.entries
    ensures EntryOk(table', y', i, m)
  {
    if i < |table| && !(i == parent && m == name) { assert EntryOk(table, y, i, m); }
  }

  lemma AddedInodes(
    table: seq<InodeData>, y: Layout, tree: Tree, parent: nat, name: Name, data: InodeData, node: Node,
    table': seq<InodeData>, y': Layout, i: nat)
    requires Represents(table, y, tree) && Added(table, y, parent, name, data, table', y') && Matches(data, node)
    requires y.paths[parent] + [name] !in tree && 2 <= i < |table'|
    ensures InodeOk(table', y', tree[y.paths[parent] + [name] := node], i)
  {
    if i < |table| { assert InodeOk(table, y, tree, i); }
  }

  lemma AddedRepresents(
    table: seq<InodeData>, y: Layout, tree: Tree, parent: nat, name: Name, data: InodeData, node: Node,
    table': seq<InodeData>, y': Layout)
    requires Represents(table, y, tree) && Added(table, y, parent, name, data, table', y') && Matches(data, node)
    requires Find(table, parent, name).None? && y.paths[parent] + [name] !in tree
    ensures Represents(table', y', tree[y.paths[parent] + [name] := node])
  {
    hide InodeOk, LinkOk, EntryOk, Matches;
    var p := y.paths[parent] + [name];
    var tree' := tree[p := node];
    assert tree'.Keys == tree.Keys + {p};
    assert |tree'.Keys| == |tree.Keys| + 1;
    forall i: nat | 2 <= i < |table'| ensures InodeOk(table', y', tree', i) {
      AddedInodes(table, y, tree, parent, name, data, node, table', y', i);
    }
    forall i: nat | 2 <= i < |table'| ensures LinkOk(table', y', i) {
      AddedLinks(table, y, tree, parent, name, data, table', y', i);
    }
    forall i: nat, m | ROOT <= i < |table'| && table'[i].IsDir() && m in table'[i].data.entries
      ensures EntryOk(table', y', i, m)
    {
      AddedEntries(table, y, tree, parent, name, data, table', y', i, m);
    }
  }

  lemma ModeSetRepresents(table: seq<InodeData>, y: Layout, tree: Tree, inode: nat, mode: nat, table': seq<InodeData>)
    requires Represents(table, y, tree) && 2 <= inode < |table| && y.paths[inode] in tree
    requires table' == table[inode := table[inode].(mode := mode)]
    ensures Represents(table', y, tree[y.paths[inode] := tree[y.paths[inode]].(mode := mode)])
  {
    var p := y.paths[inode];
    var tree' := tree[p := tree[p].(mode := mode)];
    assert tree'.Keys == tree.Keys;
    forall i: nat | 2 <= i < |table'| ensures InodeOk(table', y, tree', i) {
      assert InodeOk(table, y, tree, i) && InodeOk(table, y, tree, inode);
    }
    forall i: nat | 2 <= i < |table'| ensures LinkOk(table', y, i) { assert LinkOk(table, y, i); }
    forall i: nat, m | ROOT <= i < |table'| && table'[i].IsDir() && m in table'[i].data.entries
      ensures EntryOk(table', y, i, m)
    {
      assert EntryOk(table, y, i, m);
    }
  }

  /**
   A finished table against the archive: a path resolves exactly when it is the root or a prefix of some
   entry; then its inode has the mode, size, kind and archive index that the archive prescribes;
   and there are two more inodes than distinct non-empty prefixes.
   */
  lemma TableAgreesWithArchive(archive: seq<ZipEntry>, table: seq<InodeData>, y: Layout, p: Path)
    requires ArchiveOutcome(archive, |archive|).Built?
    requires Represents(table, y, ArchiveOutcome(archive, |archive|).tree)
    ensures Resolve(table, p).Some? <==> p == [] || p in Prefixes(archive)
    ensures p in Prefixes(archive) ==>
              && Get(table, Resolve(table, p).value).Some?
              && ExpectedNode(archive, |archive|, p).Some?
              && Matches(table[Resolve(table, p).value], ExpectedNode(archive, |archive|, p).value)
    ensures |table| == 2 + |Prefixes(archive)|
  {
    var tree := ArchiveOutcome(archive, |archive|).tree;
    TreeHasExactlyThePrefixes(archive);
    ResolveFindsExactlyTheTree(table, y, tree, p);
    TreeIsExpected(archive, |archive|, p);
    if p in tree { assert InodeOk(table, y, tree, y.index[p]); }
  }

  /** Where the inode of a path comes from: kind, archive index, size and mode, from the archive alone. */
  lemma InodeFromArchive(archive: seq<ZipEntry>, table: seq<InodeData>, y: Layout, p: Path, f: nat)
    requires ArchiveOutcome(archive, |archive|).Built? && f < |archive| && FirstAt(archive, p, f)
    requires Represents(table, y, ArchiveOutcome(archive, |archive|).tree)
    ensures Resolve(table, p).Some? && 2 <= Resolve(table, p).value < |table|
    ensures var inode, e := table[Resolve(table, p).value], archive[f];
            && (e.name == Some(p) && e.isFile ==> inode.data == File(f) && inode.size == e.size)
            && (e.name != Some(p) || !e.isFile ==> inode.data.Directory? && inode.size == 0)
            && (forall l: nat :: LastDirEntry(archive, |archive|, p, l) ==>
                  inode.mode == match archive[l].mode case Some(m) => m case None => if l == f then 0x140 else 0)
            && ((forall l: nat :: l < |archive| ==> !IsDirEntryAt(archive, l, p)) ==>
                  inode.mode == if e.name == Some(p) && e.isFile
                                then (match e.mode case Some(m) => m case None => 0) else 0x140)
  {
    hide ArchiveOutcome, Resolve, Touches;
    var tree := ArchiveOutcome(archive, |archive|).tree;
    NodeFromArchive(archive, |archive|, p, f);
    ResolveFindsExactlyTheTree(table, y, tree, p);
    assert InodeOk(table, y, tree, y.index[p]);
  }
}
