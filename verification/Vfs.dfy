/** The VFS: nodes of the RAM root and of the FAT32 driver's recycled pool, and path walking. */
module NodePool {
  import opened Bytes
  import opened DirectoryFormat
  import opened FatFormat
  import opened FatNames
  import opened Paths

  const POOL: nat := 64

  datatype Driver = NoDriver | RamDriver | FatDriver

  /** A node's `ptr`: the RAM file or the FAT32 record it belongs to. */
  datatype Link = Nowhere | ToFile(index: nat) | ToInfo(slot: nat) | ToRootInfo

  datatype Node = Node(name: seq<Byte>, directory: bool, length: nat, read: Driver, finddir: Driver, readdir: Driver,
                       link: Link)

  datatype Info = Info(firstCluster: nat, size: nat, isDir: bool)

  datatype NodePtr = Null | Root | File(index: nat) | FatRoot | Pooled(slot: nat)

  /** All nodes and records. */
  datatype Tables = Tables(root: Node, files: seq<Node>, fatRoot: Node, rootInfo: Info, nodes: seq<Node>,
                           infos: seq<Info>)

  predicate InTables(t: Tables, p: NodePtr) {
    match p
    case Null => false
    case Root => true
    case File(i) => i < |t.files|
    case FatRoot => true
    case Pooled(k) => k < |t.nodes| && k < |t.infos|
  }

  function Deref(t: Tables, p: NodePtr): Node
    requires InTables(t, p)
  {
    match p
    case Root => t.root
    case File(i) => t.files[i]
    case FatRoot => t.fatRoot
    case Pooled(k) => t.nodes[k]
  }

  function InfoOf(t: Tables, link: Link): Info {
    match link
    case ToInfo(k) => if k < |t.infos| then t.infos[k] else Info(0, 0, false)
    case ToRootInfo => t.rootInfo
    case _ => Info(0, 0, false)
  }

  /** What a node stands for, as its driver functions make of it. */
  function View(t: Tables, n: Node): Item {
    Item(n.name, n.length,
         if n.finddir.RamDriver? then RootDir
         else if n.finddir.FatDriver? then FatDir(InfoOf(t, n.link).firstCluster)
         else if n.link.ToFile? then RamData(n.link.index)
         else FatData(InfoOf(t, n.link).firstCluster, InfoOf(t, n.link).size))
  }

  /** The node of a directory or of a file, its driver functions set accordingly. */
  predicate WellFormed(n: Node) {
    if n.directory then !n.finddir.NoDriver? && n.readdir == n.finddir && n.read.NoDriver?
                        && (n.finddir.FatDriver? ==> n.link.ToInfo? || n.link.ToRootInfo?)
    else n.finddir.NoDriver? && n.readdir.NoDriver?
         && (if n.link.ToFile? then n.read.RamDriver? else n.link.ToInfo? && n.read.FatDriver?)
  }

  function Slot(k: nat): (s: nat)
    ensures s < POOL
  {
    k % POOL
  }

  lemma SlotNext(k: nat)
    ensures Slot(k + 1) == if Slot(k) + 1 == POOL then 0 else Slot(k) + 1
  {
    var q := k / POOL;
    if Slot(k) + 1 == POOL {
      assert k + 1 == POOL * (q + 1);
    } else {
      SlotIs(k + 1, q, Slot(k) + 1);
    }
  }

  lemma SlotIs(k: nat, q: nat, r: nat)
    requires k == POOL * q + r && r < POOL
    ensures Slot(k) == r
  {
  }

  /** Fewer than 64 allocations apart, slots differ. */
  lemma SlotsApart(j: nat, k: nat)
    requires j < k < j + POOL
    ensures Slot(j) != Slot(k)
  {
    var q, r := j / POOL, Slot(j);
    if r + (k - j) < POOL {
      SlotIs(k, q, r + (k - j));
    } else {
      SlotIs(k, q + 1, r + (k - j) - POOL);
    }
  }

  // ---- the pool against the history of its allocations ----------------------------

  predicate PoolNode(t: Tables, k: nat, item: Item) {
    && k < |t.nodes| && t.nodes[k].link == ToInfo(k) && WellFormed(t.nodes[k]) && View(t, t.nodes[k]) == item
    && t.nodes[k].directory == item.IsDirectory()
  }

  /** Allocation `k` can still be seen in the pool. */
  ghost predicate Kept(t: Tables, history: seq<Item>, k: nat)
    requires k < |history|
  {
    PoolNode(t, Slot(k), history[k])
  }

  /** The last 64 nodes handed out are all still intact. */
  ghost predicate PoolOk(t: Tables, history: seq<Item>) {
    && |t.nodes| == POOL && |t.infos| == POOL
    && forall k | 0 <= k < |history| && |history| - POOL <= k :: Kept(t, history, k)
  }

  function FatNode(item: Item, slot: nat): Node {
    Node(item.name, item.IsDirectory(), item.length,
         if item.IsDirectory() then NoDriver else FatDriver,
         if item.IsDirectory() then FatDriver else NoDriver,
         if item.IsDirectory() then FatDriver else NoDriver, ToInfo(slot))
  }

  function InfoFor(d: DirEntry): Info {
    Info(d.firstCluster, d.size, d.IsDirectory())
  }

  /** The tables after allocation `n`, made for directory entry `d`. */
  ghost function Advanced(t: Tables, n: nat, d: DirEntry): Tables
    requires |t.nodes| == POOL == |t.infos|
  {
    t.(nodes := t.nodes[Slot(n) := FatNode(ItemOf(d), Slot(n))], infos := t.infos[Slot(n) := InfoFor(d)])
  }

  /** Handing out the next slot overwrites only the allocation 64 before. */
  lemma PoolStep(t: Tables, history: seq<Item>, d: DirEntry)
    requires PoolOk(t, history)
    ensures PoolOk(Advanced(t, |history|, d), history + [ItemOf(d)])
    ensures PoolNode(Advanced(t, |history|, d), Slot(|history|), ItemOf(d))
  {
    var n, more, after := |history|, history + [ItemOf(d)], Advanced(t, |history|, d);
    forall k | 0 <= k < |more| && |more| - POOL <= k ensures Kept(after, more, k) {
      if k < n {
        SlotsApart(k, n);
        assert Kept(t, history, k);
        assert more[k] == history[k];
      }
    }
  }

  // ---- the RAM root -----------------------------------------------------------------

  /** A file of the RAM root, or a mount point of the volume. */
  predicate RamNode(n: Node, i: nat) {
    && WellFormed(n) && |n.name| < COMPONENT && 0 !in n.name
    && (if n.directory then n.finddir.FatDriver? && n.link.ToRootInfo? else n.link == ToFile(i))
  }

  ghost predicate TablesOk(t: Tables, history: seq<Item>) {
    && WellFormed(t.root) && t.root.directory && t.root.finddir.RamDriver?
    && WellFormed(t.fatRoot) && t.fatRoot.directory && t.fatRoot.finddir.FatDriver? && t.fatRoot.link.ToRootInfo?
    && (forall i | 0 <= i < |t.files| :: RamNode(t.files[i], i))
    && PoolOk(t, history)
  }

  /** A pointer that may be passed to the VFS: a root, a RAM file or a node still in the pool. */
  ghost predicate Usable(t: Tables, history: seq<Item>, p: NodePtr) {
    && InTables(t, p)
    && (p.Pooled? ==> exists k :: 0 <= k < |history| && |history| - POOL <= k && p.slot == Slot(k))
  }

  /** What a live node's flags and function pointers say about the item it shows. */
  lemma LiveNode(t: Tables, history: seq<Item>, p: NodePtr)
    requires TablesOk(t, history) && Usable(t, history, p)
    ensures var n := Deref(t, p);
            && WellFormed(n) && n.directory == View(t, n).IsDirectory()
            && (View(t, n).what.RootDir? <==> n.directory && n.finddir.RamDriver?)
            && (View(t, n).what.FatDir? <==> n.directory && n.finddir.FatDriver?)
            && (n.finddir.FatDriver? ==> View(t, n).what == FatDir(InfoOf(t, n.link).firstCluster))
  {
    match p
    case Pooled(s) =>
      var k :| 0 <= k < |history| && |history| - POOL <= k && s == Slot(k);
      assert Kept(t, history, k);
    case File(i) =>
      assert RamNode(t.files[i], i);
    case _ =>
  }

  /** Every FAT32 directory a node stands for is one of `dirs`. */
  ghost predicate DirsOk(t: Tables, history: seq<Item>, dirs: set<nat>) {
    t.rootInfo.firstCluster in dirs && forall i | 0 <= i < |history| && history[i].what.FatDir? ::
        history[i].what.cluster in dirs
  }

  lemma LiveDirectory(t: Tables, history: seq<Item>, dirs: set<nat>, p: NodePtr)
    requires TablesOk(t, history) && DirsOk(t, history, dirs) && Usable(t, history, p)
    ensures View(t, Deref(t, p)).what.FatDir? ==> View(t, Deref(t, p)).what.cluster in dirs
  {
    match p
    case Pooled(s) =>
      var k :| 0 <= k < |history| && |history| - POOL <= k && s == Slot(k);
      assert Kept(t, history, k);
    case File(i) =>
      assert RamNode(t.files[i], i);
    case _ =>
  }

  /** Which driver reads a live node, and what it reads. */
  lemma LiveFile(t: Tables, history: seq<Item>, p: NodePtr)
    requires TablesOk(t, history) && Usable(t, history, p)
    ensures var n, item := Deref(t, p), View(t, Deref(t, p));
            && item.length == n.length
            && (n.read.NoDriver? <==> item.IsDirectory())
            && (n.read.RamDriver? <==> item.what.RamData?)
            && (n.read.RamDriver? ==>
              p.File? && n.link == ToFile(p.index) && item.what == RamData(p.index) && !n.directory)
            && (n.read.FatDriver? ==> var i := InfoOf(t, n.link); item.what == FatData(i.firstCluster, i.size))
  {
    LiveNode(t, history, p);
    match p
    case Pooled(s) =>
      var k :| 0 <= k < |history| && |history| - POOL <= k && s == Slot(k);
      assert Kept(t, history, k);
    case File(i) =>
      assert RamNode(t.files[i], i);
    case _ =>
  }

  /** The files as the specification of lookup sees them. */
  ghost function FileItems(t: Tables): (s: seq<Item>)
    ensures |s| == |t.files|
  {
    seq(|t.files|, i requires 0 <= i < |t.files| => View(t, t.files[i]))
  }

  ghost function WorldOf(t: Tables, v: Volume): World {
    World(FileItems(t), v)
  }

  lemma WorldValid(t: Tables, history: seq<Item>, v: Volume)
    requires TablesOk(t, history)
    ensures WorldOf(t, v).Valid()
  {
    var w := WorldOf(t, v);
    forall i | 0 <= i < |w.files| ensures |w.files[i].name| < COMPONENT && !w.files[i].what.RootDir? {
      assert RamNode(t.files[i], i);
    }
  }

  /** The pool does not show in the RAM root. */
  lemma WorldKept(t: Tables, history: seq<Item>, after: Tables, v: Volume)
    requires TablesOk(t, history) && after == t.(nodes := after.nodes, infos := after.infos)
    ensures WorldOf(after, v) == WorldOf(t, v)
  {
    forall i | 0 <= i < |t.files| ensures View(after, t.files[i]) == View(t, t.files[i]) {
      assert RamNode(t.files[i], i);
    }
    assert FileItems(after) == FileItems(t);
  }

  /** One allocation, seen from the outside. */
  lemma PoolAdvances(t: Tables, history: seq<Item>, d: DirEntry, v: Volume)
    requires TablesOk(t, history)
    ensures var after, more := Advanced(t, |history|, d), history + [ItemOf(d)];
            && TablesOk(after, more) && WorldOf(after, v) == WorldOf(t, v)
            && Usable(after, more, Pooled(Slot(|history|)))
            && View(after, after.nodes[Slot(|history|)]) == ItemOf(d)
  {
    PoolStep(t, history, d);
    WorldKept(t, history, Advanced(t, |history|, d), v);
  }

  /** The 64th allocation after it reuses the slot: a kept pointer then shows another item. */
  lemma Recycled(t: Tables, history: seq<Item>, k: nat)
    requires PoolOk(t, history) && |history| == k + 65
    ensures PoolNode(t, Slot(k), history[k + 64])
  {
    assert Kept(t, history, k + POOL);
    SlotIs(k + POOL, k / POOL + 1, Slot(k));
  }

  /** A new RAM file leaves the others and the pool alone. */
  lemma FileAdded(t: Tables, history: seq<Item>, after: Tables)
    requires TablesOk(t, history) && |after.files| == |t.files| + 1 && after == t.(files := after.files)
    requires after.files[..|t.files|] == t.files && RamNode(after.files[|t.files|], |t.files|)
    ensures TablesOk(after, history)
    ensures FileItems(after) == FileItems(t) + [View(t, after.files[|t.files|])]
  {
    forall i | 0 <= i < |after.files| ensures RamNode(after.files[i], i) {
      if i < |t.files| {
        assert after.files[i] == t.files[i];
      }
    }
    forall i | 0 <= i < |t.files| ensures FileItems(after)[i] == FileItems(t)[i] {
      assert after.files[i] == t.files[i];
    }
    forall k | 0 <= k < |history| && |history| - POOL <= k ensures Kept(after, history, k) {
      assert Kept(t, history, k);
    }
  }

  /** What was obtained as allocation `k` stays readable for the next 63 allocations. */
  lemma Survives(t: Tables, history: seq<Item>, after: Tables, more: seq<Item>, k: nat)
    requires PoolOk(t, history) && PoolOk(after, more) && history <= more
    requires k < |history| && |history| - POOL <= k && |more| <= k + 64
    ensures PoolNode(t, Slot(k), history[k]) && PoolNode(after, Slot(k), history[k])
  {
    assert Kept(t, history, k);
    assert Kept(after, more, k);
  }
}

module Vfs {
  import opened Bytes
  import opened DirectoryFormat
  import opened FatDirectory
  import opened FatFormat
  import opened FatNames
  import opened NodePool
  import opened Paths

  const MAX_RAMFS_FILES: nat := 16

  class FileSystem {
    const volume: Volume
    /** The first clusters of the volume's directories. */
    ghost const dirs: set<nat>
    var ramRoot: Node
    const files: array<Node>
    /** The contents the RAM files point to. */
    const data: array<seq<Byte>>
    var numFiles: nat
    var fatRoot: Node
    var rootInfo: Info
    const nodes: array<Node>
    const infos: array<Info>
    var nextNode: nat
    /** What the pool was asked to hold, from the first allocation on. */
    ghost var history: seq<Item>

    ghost predicate Shape()
      reads this
    {
      && files.Length == MAX_RAMFS_FILES == data.Length && numFiles <= MAX_RAMFS_FILES
      && nodes.Length == POOL == infos.Length && files != nodes
    }

    function State(): Tables
      requires numFiles <= files.Length
      reads this, files, nodes, infos
    {
      Tables(ramRoot, files[..numFiles], fatRoot, rootInfo, nodes[..], infos[..])
    }

    ghost predicate Valid()
      reads this, files, nodes, infos, data
    {
      && Shape() && volume.Valid() && Directories(volume, dirs)
      && nextNode == Slot(|history|) && TablesOk(State(), history) && DirsOk(State(), history, dirs)
      && forall i | 0 <= i < numFiles :: files[i].directory || files[i].length == |data[i]| < TWO_32
    }

    ghost function World(): World
      requires Shape()
      reads this, files, nodes, infos
    {
      WorldOf(State(), volume)
    }

    /** `p` is the outcome `o` of a lookup: null for nothing, else a live node that shows the item. */
    ghost predicate Outcome(p: NodePtr, o: Option<Item>)
      requires Shape()
      reads this, files, nodes, infos
    {
      match o
      case None => p == Null
      case Some(item) => Usable(State(), history, p) && View(State(), Deref(State(), p)) == item
    }

    /** A disk mounted by `fat32_init` and the empty RAM root of `ramfs_init`. */
    constructor (volume: Volume, rootCluster: nat, ghost dirs: set<nat>)
      requires volume.Valid() && Directories(volume, dirs) && rootCluster in dirs
      ensures Valid() && this.volume == volume && numFiles == 0 && history == []
      ensures View(State(), fatRoot).what == FatDir(rootCluster) && View(State(), ramRoot).what == RootDir
      ensures fresh(files) && fresh(nodes) && fresh(infos) && fresh(data)
    {
      this.volume, this.dirs := volume, dirs;
      ramRoot := Node([114, 111, 111, 116], true, 0, NoDriver, RamDriver, RamDriver, Nowhere);
      fatRoot := Node([100, 105, 115, 107], true, 0, NoDriver, FatDriver, FatDriver, ToRootInfo);
      rootInfo := Info(rootCluster, 0, true);
      var blank := Node([], false, 0, NoDriver, NoDriver, NoDriver, Nowhere);
      files := new Node[MAX_RAMFS_FILES](_ => blank);
      data := new seq<Byte>[MAX_RAMFS_FILES](_ => []);
      nodes := new Node[POOL](k => blank);
      infos := new Info[POOL](_ => Info(0, 0, false));
      numFiles, nextNode, history := 0, 0, [];
    }

    /** `create_file` and `ramfs_create_binary_file`; a full table ignores the request. */
    method CreateFile(name: seq<Byte>, content: seq<Byte>)
      requires Valid() && |name| < COMPONENT && 0 !in name && |content| < TWO_32
      modifies this`numFiles, files, data
      ensures Valid()
      ensures old(numFiles) == 16 ==> State() == old(State()) && data[..] == old(data[..])
      ensures old(numFiles) < 16 ==>
                && World() == old(World()).(files :=
                                old(World().files) + [Item(name, |content|, RamData(old(numFiles)))])
                && data[..numFiles] == old(data[..numFiles]) + [content]
    {
      if numFiles >= MAX_RAMFS_FILES {
        return;
      }
      ghost var before, t := FileItems(State()), State();
      var f := numFiles;
      files[f] := Node(name, false, |content|, RamDriver, NoDriver, NoDriver, ToFile(f));
      data[f] := content;
      numFiles := numFiles + 1;
      FileAdded(t, history, State());
    }

    /** `ramfs_create_mountpoint`: a RAM node that shares the volume's root record. */
    method CreateMountpoint(name: seq<Byte>)
      requires Valid() && |name| < COMPONENT && 0 !in name
      modifies this`numFiles, files
      ensures Valid()
      ensures old(numFiles) == 16 ==> State() == old(State())
      ensures old(numFiles) < 16 ==>
                World() == old(World()).(files := old(World().files) + [Item(name, 0, FatDir(rootInfo.firstCluster))])
    {
      if numFiles >= MAX_RAMFS_FILES {
        return;
      }
      ghost var t := State();
      files[numFiles] := Node(name, true, 0, NoDriver, fatRoot.finddir, fatRoot.readdir, fatRoot.link);
      numFiles := numFiles + 1;
      FileAdded(t, history, State());
    }

    /** Fill a pool node and its record for a directory entry. */
    method FillNode(slot: nat, d: DirEntry, name: seq<Byte>)
      requires Shape() && slot < POOL && name == d.Text()
      modifies nodes, infos
      ensures nodes[..] == old(nodes[..])[slot := FatNode(ItemOf(d), slot)]
      ensures infos[..] == old(infos[..])[slot := InfoFor(d)]
    {
      infos[slot] := Info(d.firstCluster, d.size, d.IsDirectory());
      if d.IsDirectory() {
        nodes[slot] := Node(name, true, d.size, NoDriver, FatDriver, FatDriver, ToInfo(slot));
      } else {
        nodes[slot] := Node(name, false, d.size, FatDriver, NoDriver, NoDriver, ToInfo(slot));
      }
    }

    /** `get_next_free_node` and the filling of the node for a directory entry. */
    method NewNode(d: DirEntry, name: seq<Byte>) returns (p: NodePtr)
      requires Valid() && name == d.Text() && (d.IsDirectory() ==> d.firstCluster in dirs)
      modifies this`nextNode, this`history, nodes, infos
      ensures Valid() && history == old(history) + [ItemOf(d)]
      ensures p == Pooled(old(nextNode)) && Outcome(p, Some(ItemOf(d))) && World() == old(World())
    {
      var slot := nextNode;
      PoolAdvances(State(), history, d, volume);
      ghost var after := Advanced(State(), |history|, d);
      SlotNext(|history|);
      nextNode := (nextNode + 1) % POOL;
      FillNode(slot, d, name);
      history := history + [ItemOf(d)];
      assert State() == after;
      return Pooled(slot);
    }

    /** `fat32_vfs_readdir` */
    method FatReadDir(cluster: nat, index: nat, ghost dir: Item) returns (p: NodePtr)
      requires Valid() && dir.what == FatDir(cluster) && cluster in dirs
      modifies this`nextNode, this`history, nodes, infos
      ensures Valid() && old(history) <= history && |history| <= |old(history)| + 1 && World() == old(World())
      ensures Outcome(p, Nth(Entries(World(), dir), index))
    {
      var r := ReadDir(volume, cluster, index);
      if !r.Hit? {
        return Null;
      }
      var text := TextOf(r.entry);
      p := NewNode(r.entry, CString(text));
    }

    /** `fat32_vfs_finddir` */
    method FatFindDir(cluster: nat, name: seq<Byte>, ghost dir: Item) returns (p: NodePtr)
      requires Valid() && dir.what == FatDir(cluster) && cluster in dirs && 0 in name
      modifies this`nextNode, this`history, nodes, infos
      ensures Valid() && old(history) <= history && |history| <= |old(history)| + 1 && World() == old(World())
      ensures Outcome(p, Lookup(World(), dir, CString(name)))
    {
      var entry, text := FindEntry(volume, cluster, name);
      if entry.None? {
        return Null;
      }
      p := NewNode(entry.value, text);
    }

    /** `ramfs_readdir` */
    method RamReadDir(index: nat, ghost dir: Item) returns (p: NodePtr)
      requires Valid() && dir.what == RootDir
      ensures Outcome(p, Nth(Entries(World(), dir), index))
    {
      return if index < numFiles then File(index) else Null;
    }

    /** `ramfs_finddir` */
    method RamFindDir(name: seq<Byte>, ghost dir: Item) returns (p: NodePtr)
      requires Valid() && dir.what == RootDir && 0 in name
      ensures Outcome(p, Lookup(World(), dir, CString(name)))
    {
      ghost var list, sought := World().files, CString(name);
      for i := 0 to numFiles
        invariant i <= FirstFile(list, sought)
      {
        assert RamNode(State().files[i], i);
        TextWithNul(files[i].name);
        assert list[i].name == files[i].name;
        var same := StrEqual(files[i].name + [0], name);
        FirstFileStep(list, sought, i);
        if same {
          return File(i);
        }
      }
      return Null;
    }

    /** The item a pointer shows. */
    ghost function Shown(p: NodePtr): Item
      requires Shape() && InTables(State(), p)
      reads this, files, nodes, infos
    {
      View(State(), Deref(State(), p))
    }

    /** The call through a node's `finddir` pointer. */
    method CallFindDir(ptr: NodePtr, name: seq<Byte>) returns (p: NodePtr)
      requires Valid() && Usable(State(), history, ptr) && 0 in name
      modifies this`nextNode, this`history, nodes, infos
      ensures Valid() && old(history) <= history && |history| <= |old(history)| + 1 && World() == old(World())
      ensures Outcome(p, Lookup(World(), old(Shown(ptr)), CString(name)))
    {
      LiveNode(State(), history, ptr);
      LiveDirectory(State(), history, dirs, ptr);
      ghost var dir := Shown(ptr);
      var node := Deref(State(), ptr);
      if node.directory && node.finddir.RamDriver? {
        p := RamFindDir(name, dir);
      } else if node.directory && node.finddir.FatDriver? {
        p := FatFindDir(InfoOf(State(), node.link).firstCluster, name, dir);
      } else {
        p := Null;
      }
    }

    /** The copy of the first component into its buffer. */
    method CopyComponent(name: seq<Byte>, len: nat) returns (component: seq<Byte>)
      requires len <= |name| && len < COMPONENT && 0 !in name
      ensures 0 in component && CString(component) == name[..len]
    {
      var buffer := new Byte[COMPONENT];
      for i := 0 to len
        invariant buffer[..i] == name[..i]
      {
        buffer[i] := name[i];
      }
      buffer[len] := 0;
      component := buffer[..];
      assert component[..len] == name[..len] && component[len] == 0;
      forall c | c in name[..len] ensures c in name {
      }
      NoNul(name[..len]);
      CStringPrefix(name[..len], component);
    }

    /** The start and the length of the first component. */
    method FirstPart(path: seq<Byte>) returns (at: nat, len: nat)
      ensures at <= |path| && SkipSlashes(path) == path[at..] && len == FirstLength(path[at..])
    {
      at := 0;
      while at < |path| && path[at] == SLASH
        invariant at <= |path| && forall j | 0 <= j < at :: path[j] == SLASH
      {
        at := at + 1;
      }
      SkipOver(path, at);
      ghost var name := path[at..];
      len := 0;
      while at + len < |path| && path[at + len] != SLASH
        invariant at + len <= |path| && forall j | 0 <= j < len :: name[j] != SLASH
      {
        len := len + 1;
      }
      FirstLengthIs(name, len);
    }

    /** `vfs_finddir`: a path is the bytes of a C string before its NUL. */
    method FindDir(ptr: NodePtr, path: seq<Byte>) returns (p: NodePtr)
      requires Valid() && (ptr == Null || Usable(State(), history, ptr)) && 0 !in path
      modifies this`nextNode, this`history, nodes, infos
      ensures Valid() && old(history) <= history && |history| <= |old(history)| + |Components(path)|
      ensures World() == old(World())
      ensures ptr == Null ==> p == Null
      ensures ptr != Null ==> Outcome(p, Walk(World(), old(Shown(ptr)), path))
      decreases |path|
    {
      if ptr == Null || path == [] {
        return Null;
      }
      ghost var w, dir := World(), Shown(ptr);
      var at, len := FirstPart(path);
      var name := path[at..];
      if name == [] {
        return ptr;
      }
      if len >= COMPONENT {
        LongWalk(w, dir, path, name, len);
        var cut := CopyComponent(name, COMPONENT - 1);
        p := CallFindDir(ptr, cut);
        return;
      }
      WalkShort(w, dir, path, name, len);
      var component := CopyComponent(name, len);
      var child := CallFindDir(ptr, component);
      if child == Null {
        return Null;
      }
      if len < |name| {
        p := FindDir(child, name[len + 1..]);
      } else {
        p := child;
      }
    }

    /** What `FindDir` finds is what the path names, component by component: names here are
        shorter than a component buffer. */
    lemma FindsTarget(dir: Item, path: seq<Byte>)
      requires Valid()
      ensures Walk(World(), dir, path) == Target(World(), dir, path) <==> !CutMatches(World(), dir, path)
    {
      WorldValid(State(), history, volume);
      WalkIff(World(), dir, path);
    }

    /** A caller that keeps the node of allocation `k` while walking other paths still
        finds in it what it got, as long as the walks make at most 63 allocations. */
    method WalkWhileHolding(held: NodePtr, ghost k: nat, paths: seq<seq<Byte>>) returns (found: seq<NodePtr>)
      requires Valid() && k < |history| <= k + POOL && held == Pooled(Slot(k))
      requires |history| + TotalComponents(paths) <= k + POOL
      requires forall i | 0 <= i < |paths| :: 0 !in paths[i]
      modifies this`nextNode, this`history, nodes, infos
      ensures Valid() && World() == old(World()) && old(history) <= history && |found| == |paths|
      ensures k < |history| <= k + POOL && Usable(State(), history, held) && Shown(held) == old(Shown(held))
    {
      ghost var was, t := history, State();
      Survives(t, was, t, was, k);
      found := [];
      assert paths[0..] == paths;
      for i := 0 to |paths|
        invariant Valid() && World() == old(World()) && was <= history && |found| == i
        invariant |history| + TotalComponents(paths[i..]) <= k + POOL
      {
        assert paths[i..][1..] == paths[i + 1..];
        var p := FindDir(Root, paths[i]);
        found := found + [p];
      }
      Survives(t, was, State(), history, k);
    }

    /** `vfs_readdir` */
    method ReadDirectory(ptr: NodePtr, index: nat) returns (p: NodePtr)
      requires Valid() && Usable(State(), history, ptr)
      modifies this`nextNode, this`history, nodes, infos
      ensures Valid() && old(history) <= history && |history| <= |old(history)| + 1 && World() == old(World())
      ensures Outcome(p, Nth(Entries(World(), old(Shown(ptr))), index))
    {
      LiveNode(State(), history, ptr);
      LiveDirectory(State(), history, dirs, ptr);
      ghost var dir := Shown(ptr);
      var node := Deref(State(), ptr);
      if node.directory && node.readdir.RamDriver? {
        p := RamReadDir(index, dir);
      } else if node.directory && node.readdir.FatDriver? {
        p := FatReadDir(InfoOf(State(), node.link).firstCluster, index, dir);
      } else {
        p := Null;
      }
    }
  }

  lemma TextWithNul(s: seq<Byte>)
    requires 0 !in s
    ensures 0 in s + [0] && CString(s + [0]) == s
  {
    NoNul(s);
    CStringPrefix(s, s + [0]);
    assert (s + [0])[|s|] == 0;
  }
}
