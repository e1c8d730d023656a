/**
 What the zipfuse inode table should contain: the tree of all path prefixes of the archive's entries.
 First as the archive is processed, entry by entry and component by component, then declaratively.
 */
module InodeModel {
  import opened Common

  type Name = seq<byte>
  type Path = seq<Name>

  const DOT_DOT: Name := [46, 46]
  /** `S_IRUSR | S_IXUSR` */
  const DEFAULT_DIR_MODE: nat := 0x140

  /** One archive member: whether it can be opened, its enclosed name (if valid), kind, size and mode. */
  datatype ZipEntry = ZipEntry(readable: bool, name: Option<Path>, isFile: bool, size: nat, mode: Option<nat>)

  function ModeOr(mode: Option<nat>, default: nat): nat { if mode.Some? then mode.value else default }

  /** A node of the tree; `file` is the archive index of a file, `None` for a directory. */
  datatype Node = Node(mode: nat, size: nat, file: Option<nat>)

  /** The nodes below the root, by path. */
  type Tree = map<Path, Node>

  datatype Outcome = Built(tree: Tree) | Bailed | Panicked

  // ---------------------------------------------------------------------------------------
  // Processing
  // ---------------------------------------------------------------------------------------

  /** The node created for prefix `p` of the path of entry `i`. */
  function NewNode(e: ZipEntry, path: Path, i: nat, p: Path): Node
  {
    if p == path && e.isFile then Node(ModeOr(e.mode, 0), e.size, Some(i))
    else if p == path then Node(ModeOr(e.mode, DEFAULT_DIR_MODE), 0, None)
    else Node(DEFAULT_DIR_MODE, 0, None)
  }

  /** The node at a prefix `p` of the path after the entry: new, or found and perhaps given a new mode. */
  function TouchedNode(tree: Tree, e: ZipEntry, path: Path, i: nat, p: Path): Node
  {
    if p !in tree then NewNode(e, path, i, p)
    else if p == path && !e.isFile then tree[p].(mode := ModeOr(e.mode, 0))
    else tree[p]
  }

  predicate FileIn(tree: Tree, p: Path) { p in tree && tree[p].file.Some? }

  /** One path component: `..` is rejected; a NUL byte or a parent that is a file stops the program. */
  function ComponentOutcome(tree: Tree, e: ZipEntry, path: Path, i: nat, k: nat): Outcome
    requires k < |path|
  {
    if path[k] == DOT_DOT then Bailed
    else if 0 in path[k] then Panicked
    else if FileIn(tree, path[..k]) then Panicked
    else Built(tree[path[..k + 1] := TouchedNode(tree, e, path, i, path[..k + 1])])
  }

  function PathOutcome(tree: Tree, e: ZipEntry, path: Path, i: nat, k: nat): Outcome
    requires k <= |path|
    decreases |path| - k
  {
    if k == |path| then Built(tree)
    else
      var o := ComponentOutcome(tree, e, path, i, k);
      if o.Built? then PathOutcome(o.tree, e, path, i, k + 1) else o
  }

  function EntryOutcome(tree: Tree, e: ZipEntry, i: nat): Outcome
  {
    if !e.readable || e.name.None? then Bailed else PathOutcome(tree, e, e.name.value, i, 0)
  }

  /** Outcome of the first `n` entries. */
  function ArchiveOutcome(archive: seq<ZipEntry>, n: nat): Outcome
    requires n <= |archive|
  {
    if n == 0 then Built(map[])
    else
      var o := ArchiveOutcome(archive, n - 1);
      if o.Built? then EntryOutcome(o.tree, archive[n - 1], n - 1) else o
  }

  // ---------------------------------------------------------------------------------------
  // One entry in closed form
  // ---------------------------------------------------------------------------------------

  predicate IsPrefix(p: Path, path: Path) { |p| <= |path| && path[..|p|] == p }

  /** A component that is neither rejected nor stops the program by itself. */
  predicate GoodName(name: Name) { name != DOT_DOT && 0 !in name }

  /** From component `k` on, every name is good and no proper prefix is a file of the tree. */
  predicate GoodFrom(tree: Tree, path: Path, k: nat)
  {
    forall j :: k <= j < |path| ==> GoodName(path[j]) && !FileIn(tree, path[..j])
  }

  /** A successful entry changes exactly the prefixes of its path, in the way `TouchedNode` says. */
  lemma {:induction false} PathEffect(tree: Tree, e: ZipEntry, path: Path, i: nat, k: nat, p: Path)
    requires k <= |path| && PathOutcome(tree, e, path, i, k).Built?
    ensures var t := PathOutcome(tree, e, path, i, k).tree;
            if IsPrefix(p, path) && k < |p| then p in t && t[p] == TouchedNode(tree, e, path, i, p)
            else (p in t <==> p in tree) && (p in t ==> t[p] == tree[p])
    decreases |path| - k
  {
    if k < |path| {
      PathEffect(ComponentOutcome(tree, e, path, i, k).tree, e, path, i, k + 1, p);
    }
  }

  lemma {:induction false} PathSucceedsIff(tree: Tree, e: ZipEntry, path: Path, i: nat, k: nat)
    requires k <= |path|
    ensures PathOutcome(tree, e, path, i, k).Built? <==> GoodFrom(tree, path, k)
    decreases |path| - k
  {
    if k < |path| {
      var o := ComponentOutcome(tree, e, path, i, k);
      if o.Built? {
        PathSucceedsIff(o.tree, e, path, i, k + 1);
        forall j | k + 1 <= j < |path| ensures FileIn(o.tree, path[..j]) == FileIn(tree, path[..j]) {
          assert path[..j] == path[..k + 1] <==> j == k + 1;
        }
      }
    }
  }

  // ---------------------------------------------------------------------------------------
  // The archive, declaratively
  // ---------------------------------------------------------------------------------------

  /** `p` is a non-empty prefix of the path of entry `i`. */
  predicate Touches(archive: seq<ZipEntry>, i: nat, p: Path)
  {
    i < |archive| && archive[i].name.Some? && p != [] && IsPrefix(p, archive[i].name.value)
  }

  /** Entry `i` is a file with path `p`. */
  predicate IsFileAt(archive: seq<ZipEntry>, i: nat, p: Path)
  {
    i < |archive| && archive[i].name == Some(p) && archive[i].isFile
  }

  /** Among the first `n` entries, the first one below or at `p` (`None` if there is none). */
  function FirstToucher(archive: seq<ZipEntry>, n: nat, p: Path): (f: Option<nat>)
    requires n <= |archive|
    ensures f.Some? ==> f.value < n && Touches(archive, f.value, p)
    ensures f.Some? ==> forall j: nat :: j < f.value ==> !Touches(archive, j, p)
    ensures f.None? ==> forall j: nat :: j < n ==> !Touches(archive, j, p)
  {
    if n == 0 then None
    else
      var f := FirstToucher(archive, n - 1, p);
      if f.Some? then f else if Touches(archive, n - 1, p) then Some(n - 1) else None
  }

  /** Mode of `p`: set at creation, and again by every later directory entry for exactly `p`. */
  function ModeAfter(archive: seq<ZipEntry>, n: nat, p: Path): nat
    requires n <= |archive|
  {
    if n == 0 then 0
    else if !Touches(archive, n - 1, p) then ModeAfter(archive, n - 1, p)
    else
      var e := archive[n - 1];
      if FirstToucher(archive, n - 1, p).None? then NewNode(e, e.name.value, n - 1, p).mode
      else if e.name.value == p && !e.isFile then ModeOr(e.mode, 0)
      else ModeAfter(archive, n - 1, p)
  }

  /** The node that `p` should have: it takes kind and size from the first entry below or at it. */
  function ExpectedNode(archive: seq<ZipEntry>, n: nat, p: Path): Option<Node>
    requires n <= |archive|
  {
    var f := FirstToucher(archive, n, p);
    if f.None? then None
    else if IsFileAt(archive, f.value, p)
    then Some(Node(ModeAfter(archive, n, p), archive[f.value].size, Some(f.value)))
    else Some(Node(ModeAfter(archive, n, p), 0, None))
  }

  function Lookup(tree: Tree, p: Path): Option<Node> { if p in tree then Some(tree[p]) else None }

  /** When entry `i` is processed there is a file at `p`: the first entry that reached `p` put it there. */
  predicate FileBefore(archive: seq<ZipEntry>, i: nat, p: Path)
    requires i < |archive|
  {
    var f := FirstToucher(archive, i, p);
    f.Some? && IsFileAt(archive, f.value, p)
  }

  predicate Named(archive: seq<ZipEntry>, i: nat) { i < |archive| && archive[i].readable && archive[i].name.Some? }

  /** Component `k` of entry `i` has a good name, and no earlier file sits at the path before it. */
  predicate ComponentFits(archive: seq<ZipEntry>, i: nat, k: nat)
    requires Named(archive, i) && k < |archive[i].name.value|
  {
    GoodName(archive[i].name.value[k]) && !FileBefore(archive, i, archive[i].name.value[..k])
  }

  /** Entry `i` is readable, well named, and no earlier file sits at a proper prefix of its path. */
  predicate EntryFits(archive: seq<ZipEntry>, i: nat)
    requires i < |archive|
  {
    Named(archive, i) && forall k: nat :: k < |archive[i].name.value| ==> ComponentFits(archive, i, k)
  }

  /** Component `k` is the first one of entry `i` that does not fit. */
  predicate StopsAt(archive: seq<ZipEntry>, i: nat, k: nat)
    requires Named(archive, i)
  {
    && k < |archive[i].name.value| && !ComponentFits(archive, i, k)
    && forall j: nat :: j < k ==> ComponentFits(archive, i, j)
  }

  /** The first component of entry `i` that does not fit has a NUL byte or a file as its parent, and is not `..`. */
  ghost predicate PanicsAt(archive: seq<ZipEntry>, i: nat)
  {
    Named(archive, i) && exists k: nat :: StopsAt(archive, i, k) && archive[i].name.value[k] != DOT_DOT
  }

  /** Entry `i` is unreadable or has no valid name, or the first component that does not fit is `..`. */
  ghost predicate BailsAt(archive: seq<ZipEntry>, i: nat)
  {
    Named(archive, i) ==> exists k: nat :: StopsAt(archive, i, k) && archive[i].name.value[k] == DOT_DOT
  }

  /**
   The tree built from the first `n` entries holds, at every path, exactly the expected node: it has
   the non-empty prefixes of the entries' paths and nothing else.
   */
  lemma {:induction false} TreeIsExpected(archive: seq<ZipEntry>, n: nat, p: Path)
    requires n <= |archive| && ArchiveOutcome(archive, n).Built?
    ensures Lookup(ArchiveOutcome(archive, n).tree, p) == ExpectedNode(archive, n, p)
  {
    if n > 0 {
      TreeIsExpected(archive, n - 1, p);
      var e := archive[n - 1];
      PathEffect(ArchiveOutcome(archive, n - 1).tree, e, e.name.value, n - 1, 0, p);
    }
  }

  /** Entry `i` is a directory entry for exactly `p`. */
  predicate IsDirEntryAt(archive: seq<ZipEntry>, i: nat, p: Path)
  {
    i < |archive| && archive[i].name == Some(p) && !archive[i].isFile
  }

  /** Among the first `n` entries, `l` is the last directory entry for exactly `p`. */
  ghost predicate LastDirEntry(archive: seq<ZipEntry>, n: nat, p: Path, l: nat)
  {
    l < n && IsDirEntryAt(archive, l, p) && forall j: nat :: l < j < n ==> !IsDirEntryAt(archive, j, p)
  }

  /** Entry `f` is the first one at or below `p`. */
  ghost predicate FirstAt(archive: seq<ZipEntry>, p: Path, f: nat)
  {
    Touches(archive, f, p) && forall j: nat :: j < f ==> !Touches(archive, j, p)
  }

  /** What one more entry does to the node at a path. */
  lemma NodeAfterEntry(archive: seq<ZipEntry>, n: nat, p: Path)
    requires n < |archive| && ArchiveOutcome(archive, n + 1).Built?
    ensures ArchiveOutcome(archive, n).Built? && archive[n].name.Some?
    ensures var before, after := ArchiveOutcome(archive, n).tree, ArchiveOutcome(archive, n + 1).tree;
            if Touches(archive, n, p)
            then p in after && after[p] == TouchedNode(before, archive[n], archive[n].name.value, n, p)
            else Lookup(after, p) == Lookup(before, p)
  {
    PathEffect(ArchiveOutcome(archive, n).tree, archive[n], archive[n].name.value, n, 0, p);
  }

  lemma {:induction false} KindFromArchive(archive: seq<ZipEntry>, n: nat, p: Path, f: nat)
    requires f < n <= |archive| && ArchiveOutcome(archive, n).Built? && FirstAt(archive, p, f)
    ensures p in ArchiveOutcome(archive, n).tree
    ensures var node, e := ArchiveOutcome(archive, n).tree[p], archive[f];
            && (e.name == Some(p) && e.isFile ==> node.file == Some(f) && node.size == e.size)
            && (e.name != Some(p) || !e.isFile ==> node.file == None && node.size == 0)
  {
    hide ArchiveOutcome, Touches;
    NodeAfterEntry(archive, n - 1, p);
    if f < n - 1 {
      KindFromArchive(archive, n - 1, p, f);
    } else {
      NotYetInTree(archive, f, p);
    }
  }

  lemma {:induction false} ModeFromDirEntry(archive: seq<ZipEntry>, n: nat, p: Path, f: nat, l: nat)
    requires n <= |archive| && ArchiveOutcome(archive, n).Built?
    requires FirstAt(archive, p, f) && LastDirEntry(archive, n, p, l)
    ensures f <= l && p in ArchiveOutcome(archive, n).tree
    ensures ArchiveOutcome(archive, n).tree[p].mode
         == match archive[l].mode case Some(m) => m case None => if l == f then 0x140 else 0
  {
    hide ArchiveOutcome;
    NodeAfterEntry(archive, n - 1, p);
    assert Touches(archive, l, p);
    if l < n - 1 {
      assert !IsDirEntryAt(archive, n - 1, p) && archive[n - 1].name == Some(archive[n - 1].name.value);
      ModeFromDirEntry(archive, n - 1, p, f, l);
    } else if f < l {
      KindFromArchive(archive, n - 1, p, f);
    } else {
      NotYetInTree(archive, f, p);
    }
  }

  lemma {:induction false} ModeWithoutDirEntry(archive: seq<ZipEntry>, n: nat, p: Path, f: nat)
    requires f < n <= |archive| && ArchiveOutcome(archive, n).Built? && FirstAt(archive, p, f)
    requires forall l: nat :: l < n ==> !IsDirEntryAt(archive, l, p)
    ensures p in ArchiveOutcome(archive, n).tree
    ensures ArchiveOutcome(archive, n).tree[p].mode
         == if archive[f].name == Some(p) && archive[f].isFile
            then (match archive[f].mode case Some(m) => m case None => 0) else 0x140
  {
    hide ArchiveOutcome;
    NodeAfterEntry(archive, n - 1, p);
    assert !IsDirEntryAt(archive, n - 1, p) && archive[n - 1].name == Some(archive[n - 1].name.value);
    if f < n - 1 {
      ModeWithoutDirEntry(archive, n - 1, p, f);
    } else {
      NotYetInTree(archive, f, p);
    }
  }

  /**
   The node at a path, from the archive alone. Kind and size come from the first entry at or below it. The mode
   comes from the last directory entry for exactly that path; if that has none, it is 0, or 0x140 if the
   same entry created the node. Without a directory entry, a file has the mode of its entry or 0, and a
   directory 0x140. (A directory entry for the path of a file also sets the mode of the file.)
   */
  lemma NodeFromArchive(archive: seq<ZipEntry>, n: nat, p: Path, f: nat)
    requires f < n <= |archive| && ArchiveOutcome(archive, n).Built? && FirstAt(archive, p, f)
    ensures p in ArchiveOutcome(archive, n).tree
    ensures var node, e := ArchiveOutcome(archive, n).tree[p], archive[f];
            && (e.name == Some(p) && e.isFile ==> node.file == Some(f) && node.size == e.size)
            && (e.name != Some(p) || !e.isFile ==> node.file == None && node.size == 0)
            && (forall l: nat :: LastDirEntry(archive, n, p, l) ==>
                  node.mode == match archive[l].mode case Some(m) => m case None => if l == f then 0x140 else 0)
            && ((forall l: nat :: l < n ==> !IsDirEntryAt(archive, l, p)) ==>
                  node.mode == if e.name == Some(p) && e.isFile
                               then (match e.mode case Some(m) => m case None => 0) else 0x140)
  {
    hide ArchiveOutcome, FirstAt;
    KindFromArchive(archive, n, p, f);
    forall l: nat | LastDirEntry(archive, n, p, l)
      ensures ArchiveOutcome(archive, n).tree[p].mode
           == match archive[l].mode case Some(m) => m case None => if l == f then 0x140 else 0
    {
      ModeFromDirEntry(archive, n, p, f, l);
    }
    if forall l: nat :: l < n ==> !IsDirEntryAt(archive, l, p) { ModeWithoutDirEntry(archive, n, p, f); }
  }

  /** An archive in which a file does not have the mode of its own entry: a directory entry for its path follows. */
  lemma FileModeCanBeReplaced(archive: seq<ZipEntry>, p: Path)
    requires p == [[97]]
    requires archive == [ZipEntry(true, Some(p), true, 5, Some(0x1A4)), ZipEntry(true, Some(p), false, 0, Some(0x1ED))]
    ensures ArchiveOutcome(archive, 2).Built? && p in ArchiveOutcome(archive, 2).tree
    ensures ArchiveOutcome(archive, 2).tree[p] == Node(0x1ED, 5, Some(0))
  {
    hide ArchiveOutcome, FirstToucher;
    assert Touches(archive, 0, p);
    forall i: nat | i < 2 ensures EntryFits(archive, i) {
      forall k: nat | k < |p| ensures ComponentFits(archive, i, k) { RootIsNoFile(archive, i, p[..k]); }
    }
    BuildSucceedsIff(archive, 2);
    assert LastDirEntry(archive, 2, p, 1);
    NodeFromArchive(archive, 2, p, 0);
  }

  lemma RootIsNoFile(archive: seq<ZipEntry>, i: nat, p: Path)
    requires i < |archive| && p == []
    ensures !FileBefore(archive, i, p)
  {}

  lemma NotYetInTree(archive: seq<ZipEntry>, n: nat, p: Path)
    requires n <= |archive| && ArchiveOutcome(archive, n).Built? && forall j: nat :: j < n ==> !Touches(archive, j, p)
    ensures p !in ArchiveOutcome(archive, n).tree
  {
    TreeIsExpected(archive, n, p);
  }

  /**
   Building succeeds exactly when every entry is readable and well named and has no file, as fixed by
   the first entry that reaches it, at a proper prefix of its path.
   */
  lemma {:induction false} BuildSucceedsIff(archive: seq<ZipEntry>, n: nat)
    requires n <= |archive|
    ensures ArchiveOutcome(archive, n).Built? <==> FitBefore(archive, n)
  {
    if n > 0 {
      BuildSucceedsIff(archive, n - 1);
      var o, e := ArchiveOutcome(archive, n - 1), archive[n - 1];
      if o.Built? && Named(archive, n - 1) {
        PathSucceedsIff(o.tree, e, e.name.value, n - 1, 0);
        FilesAreExpected(archive, n - 1);
        assert GoodFrom(o.tree, e.name.value, 0) <==> EntryFits(archive, n - 1);
      }
      assert o.Built? ==> (ArchiveOutcome(archive, n).Built? <==> EntryFits(archive, n - 1));
    }
  }

  /** The first `n` entries all fit. */
  ghost predicate FitBefore(archive: seq<ZipEntry>, n: nat)
    requires n <= |archive|
  {
    forall i: nat :: i < n ==> EntryFits(archive, i)
  }

  /** The components that fit are those that have a good name and no file of the tree as their parent. */
  lemma FilesAreExpected(archive: seq<ZipEntry>, i: nat)
    requires Named(archive, i) && ArchiveOutcome(archive, i).Built?
    ensures var tree, path := ArchiveOutcome(archive, i).tree, archive[i].name.value;
            forall j: nat :: j < |path| ==>
              (ComponentFits(archive, i, j) <==> GoodName(path[j]) && !FileIn(tree, path[..j]))
  {
    hide ArchiveOutcome;
    forall j: nat | j < |archive[i].name.value|
      ensures FileIn(ArchiveOutcome(archive, i).tree, archive[i].name.value[..j])
         <==> FileBefore(archive, i, archive[i].name.value[..j])
    {
      TreeIsExpected(archive, i, archive[i].name.value[..j]);
    }
  }

  /** The first component that does not fit decides: `..` is rejected, anything else stops the program. */
  lemma {:induction false} PathStops(tree: Tree, e: ZipEntry, path: Path, i: nat, from: nat, k: nat)
    requires from <= k < |path| && !(GoodName(path[k]) && !FileIn(tree, path[..k]))
    requires forall j :: from <= j < k ==> GoodName(path[j]) && !FileIn(tree, path[..j])
    ensures PathOutcome(tree, e, path, i, from) == if path[k] == DOT_DOT then Bailed else Panicked
    decreases k - from
  {
    if from < k {
      var next := ComponentOutcome(tree, e, path, i, from).tree;
      forall j | from + 1 <= j <= k ensures FileIn(next, path[..j]) == FileIn(tree, path[..j]) {
        assert path[..j] == path[..from + 1] <==> j == from + 1;
      }
      PathStops(next, e, path, i, from + 1, k);
    }
  }

  /** An entry that does not fit has a first component that does not. */
  lemma {:induction false} SomewhereStops(archive: seq<ZipEntry>, i: nat, n: nat) returns (k: nat)
    requires Named(archive, i) && n <= |archive[i].name.value|
    requires exists j: nat :: j < n && !ComponentFits(archive, i, j)
    ensures k < n && StopsAt(archive, i, k)
  {
    if j: nat :| j < n - 1 && !ComponentFits(archive, i, j) {
      k := SomewhereStops(archive, i, n - 1);
    } else {
      k := n - 1;
    }
  }

  lemma EntryStopsIff(archive: seq<ZipEntry>, i: nat)
    requires i < |archive| && ArchiveOutcome(archive, i).Built?
    ensures ArchiveOutcome(archive, i + 1).Panicked? <==> PanicsAt(archive, i)
    ensures ArchiveOutcome(archive, i + 1).Bailed? <==> BailsAt(archive, i)
  {
    hide ComponentFits;
    if Named(archive, i) {
      var tree, e := ArchiveOutcome(archive, i).tree, archive[i];
      var path := e.name.value;
      FilesAreExpected(archive, i);
      forall k: nat | StopsAt(archive, i, k)
        ensures ArchiveOutcome(archive, i + 1) == if path[k] == DOT_DOT then Bailed else Panicked
      {
        PathStops(tree, e, path, i, 0, k);
      }
      if exists j: nat :: j < |path| && !ComponentFits(archive, i, j) {
        var k := SomewhereStops(archive, i, |path|);
      } else {
        PathSucceedsIff(tree, e, path, i, 0);
        assert GoodFrom(tree, path, 0);
      }
    }
  }

  /**
   Building stops the program exactly when some entry, with all entries before it fitting, has a component
   with a NUL byte or below an earlier file, ahead of any `..`. It is rejected exactly when
   some such entry is unreadable or unnamed or has a `..` ahead of any other misfit.
   */
  lemma {:induction false} BuildStopsIff(archive: seq<ZipEntry>, n: nat)
    requires n <= |archive|
    ensures ArchiveOutcome(archive, n).Panicked? <==>
              exists i: nat :: i < n && FitBefore(archive, i) && PanicsAt(archive, i)
    ensures ArchiveOutcome(archive, n).Bailed? <==>
              exists i: nat :: i < n && FitBefore(archive, i) && BailsAt(archive, i)
  {
    hide PanicsAt, BailsAt, EntryFits, EntryOutcome;
    if n > 0 {
      BuildStopsIff(archive, n - 1);
      BuildSucceedsIff(archive, n - 1);
      if ArchiveOutcome(archive, n - 1).Built? {
        EntryStopsIff(archive, n - 1);
      } else {
        assert !FitBefore(archive, n - 1);
      }
    }
  }

  /** A `..` is reported as an error, not a crash, if all earlier entries and components fit. */
  lemma DotDotIsRejected(archive: seq<ZipEntry>, n: nat, i: nat, k: nat)
    requires i < n <= |archive| && FitBefore(archive, i)
    requires Named(archive, i) && k < |archive[i].name.value| && archive[i].name.value[k] == [46, 46]
    requires forall j: nat :: j < k ==> ComponentFits(archive, i, j)
    ensures ArchiveOutcome(archive, n) == Bailed
  {
    hide ArchiveOutcome, FitBefore, FileBefore;
    assert StopsAt(archive, i, k);
    BuildStopsIff(archive, n);
  }

  /** A NUL byte, or a parent that an earlier entry made a file, stops the program, if all before it fits. */
  lemma BadComponentStops(archive: seq<ZipEntry>, n: nat, i: nat, k: nat, f: nat)
    requires i < n <= |archive| && FitBefore(archive, i)
    requires Named(archive, i) && k < |archive[i].name.value| && archive[i].name.value[k] != [46, 46]
    requires 0 in archive[i].name.value[k]
          || (f < i && FirstAt(archive, archive[i].name.value[..k], f)
              && archive[f].name == Some(archive[i].name.value[..k]) && archive[f].isFile)
    requires forall j: nat :: j < k ==> ComponentFits(archive, i, j)
    ensures ArchiveOutcome(archive, n) == Panicked
  {
    hide ArchiveOutcome, FitBefore;
    var p := archive[i].name.value[..k];
    if 0 !in archive[i].name.value[k] {
      assert FirstToucher(archive, i, p) == Some(f);
    }
    assert StopsAt(archive, i, k);
    BuildStopsIff(archive, n);
  }

  /** An entry that cannot be read, or has no valid name, is an error, if all before it fits. */
  lemma UnreadableIsRejected(archive: seq<ZipEntry>, n: nat, i: nat)
    requires i < n <= |archive| && FitBefore(archive, i)
    requires !archive[i].readable || archive[i].name.None?
    ensures ArchiveOutcome(archive, n) == Bailed
  {
    hide ArchiveOutcome, FitBefore;
    assert BailsAt(archive, i);
    BuildStopsIff(archive, n);
  }

  /** All non-empty prefixes of the entries' paths. */
  function Prefixes(archive: seq<ZipEntry>): set<Path>
  {
    set i, k | 0 <= i < |archive| && archive[i].name.Some? && 0 < k <= |archive[i].name.value| ::
      archive[i].name.value[..k]
  }

  lemma PrefixesAreTouched(archive: seq<ZipEntry>, p: Path)
    ensures p in Prefixes(archive) <==> exists i: nat :: Touches(archive, i, p)
  {
    if i: nat :| Touches(archive, i, p) {
      assert archive[i].name.value[..|p|] == p;
    }
    if p in Prefixes(archive) {
      var i, k :| 0 <= i < |archive| && archive[i].name.Some? && 0 < k <= |archive[i].name.value|
                  && archive[i].name.value[..k] == p;
      assert Touches(archive, i, p);
    }
  }

  /** A path is in the finished tree exactly when it is a non-empty prefix of some entry. */
  lemma TreeHasExactlyThePrefixes(archive: seq<ZipEntry>)
    requires ArchiveOutcome(archive, |archive|).Built?
    ensures ArchiveOutcome(archive, |archive|).tree.Keys == Prefixes(archive)
  {
    var tree := ArchiveOutcome(archive, |archive|).tree;
    forall p: Path ensures p in tree <==> p in Prefixes(archive) {
      TreeIsExpected(archive, |archive|, p);
      PrefixesAreTouched(archive, p);
    }
  }

  /**
   All entries are readable and have good names, and no file's path is a proper prefix of another entry's path or
   also a directory entry.
   */
  ghost predicate Tidy(archive: seq<ZipEntry>)
  {
    && (forall i: nat :: i < |archive| ==>
          && archive[i].readable && archive[i].name.Some?
          && forall name: Name :: name in archive[i].name.value ==> name != [46, 46] && 0 !in name)
    && (forall i: nat, j: nat ::
          i < |archive| && archive[i].isFile && Touches(archive, j, archive[i].name.value) ==>
          archive[i].name == archive[j].name && archive[j].isFile)
  }

  lemma TidyEntryFits(archive: seq<ZipEntry>, i: nat)
    requires Tidy(archive) && i < |archive|
    ensures EntryFits(archive, i)
  {
    var path := archive[i].name.value;
    forall k: nat | k < |path| ensures ComponentFits(archive, i, k) {
      assert path[k] in path;
      var f := FirstToucher(archive, i, path[..k]);
      if f.Some? && IsFileAt(archive, f.value, path[..k]) { assert Touches(archive, i, path[..k]); }
    }
  }

  lemma TidyFile(archive: seq<ZipEntry>, i: nat)
    requires Tidy(archive) && i < |archive| && archive[i].isFile && archive[i].name.value != []
    requires ArchiveOutcome(archive, |archive|).Built?
    ensures var p := archive[i].name.value;
            var node := Lookup(ArchiveOutcome(archive, |archive|).tree, p);
            node.Some? && node.value.file.Some? && IsFileAt(archive, node.value.file.value, p) &&
            forall k: nat :: IsFileAt(archive, k, p) ==> node.value.file.value <= k
  {
    hide ArchiveOutcome;
    var p := archive[i].name.value;
    TreeIsExpected(archive, |archive|, p);
    assert Touches(archive, i, p);
    var f := FirstToucher(archive, |archive|, p);
    assert Touches(archive, f.value, p);
    forall k: nat | IsFileAt(archive, k, p) ensures f.value <= k { assert Touches(archive, k, p); }
  }

  /**
   The usual archive builds. Every file entry's path is a file, and that file has the least index among the
   entries with its path.
   */
  lemma TidyArchiveBuilds(archive: seq<ZipEntry>)
    requires Tidy(archive)
    ensures ArchiveOutcome(archive, |archive|).Built?
    ensures forall i: nat :: i < |archive| && archive[i].isFile && archive[i].name.value != [] ==>
              var p := archive[i].name.value;
              var node := Lookup(ArchiveOutcome(archive, |archive|).tree, p);
              node.Some? && node.value.file.Some? && IsFileAt(archive, node.value.file.value, p) &&
              forall k: nat :: IsFileAt(archive, k, p) ==> node.value.file.value <= k
  {
    forall i: nat | i < |archive| ensures EntryFits(archive, i) { TidyEntryFits(archive, i); }
    BuildSucceedsIff(archive, |archive|);
    forall i: nat | i < |archive| && archive[i].isFile && archive[i].name.value != []
      ensures var p := archive[i].name.value;
              var node := Lookup(ArchiveOutcome(archive, |archive|).tree, p);
              node.Some? && node.value.file.Some? && IsFileAt(archive, node.value.file.value, p) &&
              forall k: nat :: IsFileAt(archive, k, p) ==> node.value.file.value <= k
    {
      TidyFile(archive, i);
    }
  }
}
