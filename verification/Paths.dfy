/** What a path names: component-by-component lookup in a RAM root and a mounted FAT32 volume. */
module Paths {
  import opened Bytes
  import opened DirectoryFormat
  import opened FatFormat
  import opened FatNames

  const SLASH: Byte := 47
  const COMPONENT: nat := NAME_BUFFER

  datatype What = RootDir | RamData(index: nat) | FatDir(cluster: nat) | FatData(cluster: nat, size: nat)

  /** Everything a caller of the VFS can learn from a node. */
  datatype Item = Item(name: seq<Byte>, length: nat, what: What) {
    predicate IsDirectory() {
      what.RootDir? || what.FatDir?
    }
  }

  /** The files of the RAM root, mount points included, and the volume. */
  datatype World = World(files: seq<Item>, volume: Volume) {
    /** Names fit their buffers, and the RAM root is not inside itself. */
    ghost predicate Valid() {
      forall i | 0 <= i < |files| :: |files[i].name| < COMPONENT && !files[i].what.RootDir?
    }
  }

  /** `dirs` holds the first clusters of all directories below the ones in it, and a walk
      over each of these directories ends. */
  ghost predicate Directories(v: Volume, dirs: set<nat>) {
    && (forall c | c in dirs :: Walkable(v, c))
    && forall c, i | c in dirs && 0 <= i < |Dir(v, c)| && Dir(v, c)[i].IsDirectory() ::
      Dir(v, c)[i].firstCluster in dirs
  }

  function ItemOf(d: DirEntry): Item {
    Item(d.Text(), d.size, if d.IsDirectory() then FatDir(d.firstCluster) else FatData(d.firstCluster, d.size))
  }

  ghost function FirstFile(files: seq<Item>, name: seq<Byte>): (i: nat)
    ensures i <= |files|
    ensures forall j | 0 <= j < i :: files[j].name != name
    ensures i < |files| ==> files[i].name == name
  {
    if files == [] || files[0].name == name then 0 else 1 + FirstFile(files[1..], name)
  }

  function Nth<T>(list: seq<T>, i: nat): Option<T> {
    if i < |list| then Some(list[i]) else None
  }

  lemma FirstFileStep(files: seq<Item>, name: seq<Byte>, i: nat)
    requires i < |files| && i <= FirstFile(files, name)
    ensures if files[i].name == name then FirstFile(files, name) == i else i < FirstFile(files, name)
  {
  }

  /** The first entry of that name, if the item is a directory and has one. */
  ghost function Lookup(w: World, dir: Item, name: seq<Byte>): Option<Item> {
    match dir.what
    case RootDir =>
      var i := FirstFile(w.files, name);
      if i < |w.files| then Some(w.files[i]) else None
    case FatDir(c) =>
      var list := Dir(w.volume, c);
      var i := FirstNamed(list, name);
      if i < |list| then Some(ItemOf(list[i])) else None
    case _ => None
  }

  /** What enumerating an item yields. */
  ghost function Entries(w: World, dir: Item): seq<Item> {
    match dir.what
    case RootDir => w.files
    case FatDir(c) => Items(Dir(w.volume, c))
    case _ => []
  }

  ghost function Items(list: seq<DirEntry>): (s: seq<Item>)
    ensures |s| == |list| && forall i | 0 <= i < |s| :: s[i] == ItemOf(list[i])
  {
    if list == [] then [] else [ItemOf(list[0])] + Items(list[1..])
  }

  lemma {:induction false} FirstOfItems(list: seq<DirEntry>, name: seq<Byte>)
    ensures FirstFile(Items(list), name) == FirstNamed(list, name)
  {
    if list != [] {
      FirstOfItems(list[1..], name);
    }
  }

  /** Enumeration and lookup agree: a lookup yields the first enumerated item of that name. */
  lemma LookupIsFirst(w: World, dir: Item, name: seq<Byte>)
    ensures var list := Entries(w, dir);
            var i := FirstFile(list, name);
            Lookup(w, dir, name) == if i < |list| then Some(list[i]) else None
  {
    if dir.what.FatDir? {
      FirstOfItems(Dir(w.volume, dir.what.cluster), name);
    }
  }

  ghost function Resolve(w: World, dir: Item, names: seq<seq<Byte>>): Option<Item>
    decreases |names|
  {
    if names == [] then Some(dir)
    else
      match Lookup(w, dir, names[0])
      case None => None
      case Some(child) => Resolve(w, child, names[1..])
  }

  // ---- paths --------------------------------------------------------------------

  function SkipSlashes(path: seq<Byte>): (r: seq<Byte>)
    ensures |r| <= |path| && (r != [] ==> r[0] != SLASH)
  {
    if path != [] && path[0] == SLASH then SkipSlashes(path[1..]) else path
  }

  /** The length of the first component of a path that does not start with a slash. */
  function FirstLength(path: seq<Byte>): (n: nat)
    ensures n <= |path| && (forall i | 0 <= i < n :: path[i] != SLASH)
    ensures n < |path| ==> path[n] == SLASH
  {
    if path == [] || path[0] == SLASH then 0 else 1 + FirstLength(path[1..])
  }

  lemma {:induction false} SkipOver(path: seq<Byte>, i: nat)
    requires i <= |path| && (forall j | 0 <= j < i :: path[j] == SLASH) && (i < |path| ==> path[i] != SLASH)
    ensures SkipSlashes(path) == path[i..]
  {
    if i > 0 {
      SkipOver(path[1..], i - 1);
      assert path[1..][i - 1..] == path[i..];
    } else {
      assert path[0..] == path;
    }
  }

  lemma FirstLengthIs(path: seq<Byte>, n: nat)
    requires n <= |path| && (forall j | 0 <= j < n :: path[j] != SLASH) && (n < |path| ==> path[n] == SLASH)
    ensures FirstLength(path) == n
  {
  }

  /** The maximal runs of characters other than slashes. */
  function Components(path: seq<Byte>): seq<seq<Byte>>
    decreases |path|
  {
    if path == [] then []
    else if path[0] == SLASH then Components(path[1..])
    else var n := FirstLength(path); [path[..n]] + Components(path[n..])
  }

  /** The path ends in exactly one slash, after a component. */
  predicate EndsInOneSlash(path: seq<Byte>) {
    |path| >= 2 && path[|path| - 1] == SLASH && path[|path| - 2] != SLASH
  }

  /** What a path names from a directory. The code finds nothing at an empty path or at
      one that ends in a single slash, though two slashes are accepted. */
  ghost function Target(w: World, dir: Item, path: seq<Byte>): Option<Item> {
    if path == [] || EndsInOneSlash(path) then None else Resolve(w, dir, Components(path))
  }

  /** The walk as the code does it: a component of 128 bytes or more is cut to 127, and
      then what follows it is not looked at. */
  ghost function Walk(w: World, dir: Item, path: seq<Byte>): Option<Item>
    decreases |path|
  {
    var p := SkipSlashes(path);
    var n := FirstLength(p);
    if path == [] then None
    else if p == [] then Some(dir)
    else if n >= COMPONENT then Lookup(w, dir, p[..COMPONENT - 1])
    else
      match Lookup(w, dir, p[..n])
      case None => None
      case Some(child) => if n < |p| then Walk(w, child, p[n + 1..]) else Some(child)
  }

  ghost function TotalComponents(paths: seq<seq<Byte>>): nat {
    if paths == [] then 0 else |Components(paths[0])| + TotalComponents(paths[1..])
  }

  lemma {:induction false} ComponentsSkip(path: seq<Byte>)
    ensures Components(path) == Components(SkipSlashes(path))
    ensures SkipSlashes(path) != [] ==> (EndsInOneSlash(path) <==> EndsInOneSlash(SkipSlashes(path)))
    ensures SkipSlashes(path) == [] ==> !EndsInOneSlash(path)
  {
    if path != [] && path[0] == SLASH {
      ComponentsSkip(path[1..]);
      if |path| >= 2 {
        assert path[1..][|path| - 2] == path[|path| - 1];
        if |path| >= 3 {
          assert path[1..][|path| - 3] == path[|path| - 2];
        } else {
          assert path[1..][0] == path[1];
        }
      }
    }
  }

  lemma OneComponent(p: seq<Byte>)
    requires p != [] && FirstLength(p) == |p|
    ensures Components(p) == [p] && !EndsInOneSlash(p)
  {
    assert p[..|p|] == p && p[|p|..] == [];
  }

  /** The first component, and the path after the slash behind it. */
  lemma MoreComponents(p: seq<Byte>)
    requires 0 < FirstLength(p) < |p|
    ensures Components(p) == [p[..FirstLength(p)]] + Components(p[FirstLength(p) + 1..])
  {
    var n := FirstLength(p);
    assert p[n..][1..] == p[n + 1..];
  }

  lemma SlashOfSuffix(p: seq<Byte>, k: nat)
    requires k + 2 <= |p|
    ensures EndsInOneSlash(p) <==> EndsInOneSlash(p[k..])
  {
    var s := p[k..];
    assert s[|s| - 1] == p[|p| - 1] && s[|s| - 2] == p[|p| - 2];
  }

  lemma OneSlashBehind(p: seq<Byte>, n: nat)
    requires n == FirstLength(p) && 0 < n < |p|
    ensures EndsInOneSlash(p) <==> p[n + 1..] == [] || EndsInOneSlash(p[n + 1..])
  {
    assert p[n - 1] != SLASH && p[n] == SLASH;
    if n + 3 <= |p| {
      SlashOfSuffix(p, n + 1);
    } else if n + 2 == |p| {
      assert p[|p| - 2] == SLASH;
    } else {
      assert p[|p| - 1] == SLASH && p[|p| - 2] != SLASH;
    }
  }

  lemma TargetSkip(w: World, dir: Item, path: seq<Byte>)
    requires path != []
    ensures var p := SkipSlashes(path);
            Target(w, dir, path) == if p == [] then Some(dir) else Target(w, dir, p)
  {
    ComponentsSkip(path);
  }

  lemma ResolveStep(w: World, dir: Item, name: seq<Byte>, rest: seq<seq<Byte>>)
    ensures Resolve(w, dir, [name] + rest) ==
            match Lookup(w, dir, name) { case None => None case Some(child) => Resolve(w, child, rest) }
  {
    assert ([name] + rest)[1..] == rest;
  }

  lemma TargetLast(w: World, dir: Item, p: seq<Byte>)
    requires p != [] && FirstLength(p) == |p|
    ensures Target(w, dir, p) == Lookup(w, dir, p)
  {
    OneComponent(p);
    ResolveStep(w, dir, p, []);
  }

  lemma TargetMore(w: World, dir: Item, p: seq<Byte>, n: nat)
    requires n == FirstLength(p) && 0 < n < |p|
    ensures Lookup(w, dir, p[..n]) == None ==> Target(w, dir, p) == None
    ensures Lookup(w, dir, p[..n]) != None ==> Target(w, dir, p) == Target(w, Lookup(w, dir, p[..n]).value, p[n + 1..])
  {
    MoreComponents(p);
    OneSlashBehind(p, n);
    ResolveStep(w, dir, p[..n], Components(p[n + 1..]));
  }

  lemma TargetStep(w: World, dir: Item, p: seq<Byte>, n: nat)
    requires p != [] && p[0] != SLASH && n == FirstLength(p)
    ensures Lookup(w, dir, p[..n]) == None ==> Target(w, dir, p) == None
    ensures Lookup(w, dir, p[..n]) != None ==>
              Target(w, dir, p) == if n < |p| then Target(w, Lookup(w, dir, p[..n]).value, p[n + 1..])
                                   else Lookup(w, dir, p[..n])
  {
    if n == |p| {
      assert p[..n] == p;
      TargetLast(w, dir, p);
    } else {
      TargetMore(w, dir, p, n);
    }
  }

  lemma FirstOfComponents(p: seq<Byte>)
    requires p != [] && p[0] != SLASH
    ensures Components(p) != [] && Components(p)[0] == p[..FirstLength(p)]
  {
  }

  /** Where the cut of a long component matters: a RAM file has the cut text as its name. */
  ghost predicate CutMatches(w: World, dir: Item, path: seq<Byte>) {
    var names := Components(path);
    && dir.what.RootDir? && names != [] && |names[0]| >= COMPONENT
    && exists i :: 0 <= i < |w.files| && w.files[i].name == names[0][..COMPONENT - 1]
  }

  /** No entry has a name as long as a component buffer; a rendered 8.3 name has at most 12 characters. */
  lemma LongNameMissing(w: World, dir: Item, name: seq<Byte>)
    requires w.Valid() && |name| >= COMPONENT - 1
    ensures |name| >= COMPONENT || !dir.what.RootDir? ==> Lookup(w, dir, name) == None
    ensures dir.what.RootDir? && |name| < COMPONENT ==>
              (Lookup(w, dir, name) != None <==> exists i :: 0 <= i < |w.files| && w.files[i].name == name)
  {
    match dir.what
    case RootDir =>
      assert FirstFile(w.files, name) < |w.files| ==> w.files[FirstFile(w.files, name)].name == name;
    case FatDir(c) =>
      forall i | 0 <= i < |Dir(w.volume, c)| ensures |Dir(w.volume, c)[i].Text()| <= NAME + 1 {
      }
    case _ =>
  }

  lemma NeverRoot(w: World, dir: Item, name: seq<Byte>)
    requires w.Valid() && Lookup(w, dir, name) != None
    ensures !Lookup(w, dir, name).value.what.RootDir?
  {
  }

  /** One step of the walk for a component that fits its buffer. */
  lemma WalkShort(w: World, dir: Item, path: seq<Byte>, p: seq<Byte>, n: nat)
    requires path != [] && p == SkipSlashes(path) != [] && n == FirstLength(p) < COMPONENT
    ensures |p| <= |path| && 0 < n
    ensures Lookup(w, dir, p[..n]) == None ==> Walk(w, dir, path) == None
    ensures Lookup(w, dir, p[..n]) != None ==>
              Walk(w, dir, path) == if n < |p| then Walk(w, Lookup(w, dir, p[..n]).value, p[n + 1..])
                                    else Lookup(w, dir, p[..n])
    ensures |Components(path)| == 1 + if n < |p| then |Components(p[n + 1..])| else 0
  {
    ComponentsSkip(path);
    if n < |p| {
      MoreComponents(p);
    } else {
      OneComponent(p);
    }
  }

  lemma LongWalk(w: World, dir: Item, path: seq<Byte>, p: seq<Byte>, n: nat)
    requires path != [] && p == SkipSlashes(path) != [] && n == FirstLength(p) >= 128
    ensures Walk(w, dir, path) == Lookup(w, dir, p[..127]) && |Components(path)| >= 1
  {
    ComponentsSkip(path);
    FirstOfComponents(p);
  }

  /** The walk names what component-by-component lookup names, except exactly where the
      cut of a long first component hits a RAM file. */
  lemma {:induction false} WalkIff(w: World, dir: Item, path: seq<Byte>)
    requires w.Valid()
    ensures Walk(w, dir, path) == Target(w, dir, path) <==> !CutMatches(w, dir, path)
    decreases |path|, 1
  {
    var p := SkipSlashes(path);
    if path != [] {
      TargetSkip(w, dir, path);
      ComponentsSkip(path);
      if p != [] {
        WalkStep(w, dir, p, FirstLength(p));
      }
    }
  }

  lemma {:induction false} WalkStep(w: World, dir: Item, p: seq<Byte>, n: nat)
    requires w.Valid() && p != [] && p[0] != SLASH && n == FirstLength(p)
    ensures Walk(w, dir, p) == Target(w, dir, p) <==> !CutMatches(w, dir, p)
    decreases |p|, 0
  {
    FirstOfComponents(p);
    TargetStep(w, dir, p, n);
    if n >= COMPONENT {
      WalkCut(w, dir, p, n);
    } else if n < |p| && Lookup(w, dir, p[..n]) != None {
      NeverRoot(w, dir, p[..n]);
      WalkIff(w, Lookup(w, dir, p[..n]).value, p[n + 1..]);
    }
  }

  lemma WalkCut(w: World, dir: Item, p: seq<Byte>, n: nat)
    requires w.Valid() && p != [] && p[0] != SLASH && n == FirstLength(p) >= COMPONENT
    ensures Lookup(w, dir, p[..n]) == None
    ensures Walk(w, dir, p) == None <==> !CutMatches(w, dir, p)
  {
    FirstOfComponents(p);
    LongNameMissing(w, dir, p[..n]);
    LongNameMissing(w, dir, p[..COMPONENT - 1]);
    assert p[..n][..COMPONENT - 1] == p[..COMPONENT - 1];
  }

  /** Short components are always walked one by one. */
  lemma ShortComponents(w: World, dir: Item, path: seq<Byte>)
    requires w.Valid() && forall i | 0 <= i < |Components(path)| :: |Components(path)[i]| < COMPONENT
    ensures Walk(w, dir, path) == Target(w, dir, path)
  {
    WalkIff(w, dir, path);
  }

  /** A path as a user writes it: names with a slash between them. */
  function Joined(names: seq<seq<Byte>>): seq<Byte>
    requires names != []
  {
    if |names| == 1 then names[0] else names[0] + [47] + Joined(names[1..])
  }

  ghost predicate AllNames(names: seq<seq<Byte>>) {
    forall i | 0 <= i < |names| :: names[i] != [] && 47 !in names[i]
  }

  lemma {:induction false} FirstOfJoined(name: seq<Byte>, rest: seq<Byte>)
    requires 47 !in name && (rest == [] || rest[0] == 47)
    ensures FirstLength(name + rest) == |name|
  {
    if name != [] {
      FirstOfJoined(name[1..], rest);
      assert (name + rest)[1..] == name[1..] + rest;
    } else {
      assert name + rest == rest;
    }
  }

  /** Its components are those names. */
  lemma {:induction false} JoinedComponents(names: seq<seq<Byte>>)
    requires names != [] && AllNames(names)
    ensures Components(Joined(names)) == names && Joined(names) != [] && Joined(names)[|Joined(names)| - 1] != 47
    decreases |names|
  {
    if |names| == 1 {
      assert names == [names[0]] && names[0] + [] == names[0];
      FirstOfJoined(names[0], []);
      OneComponent(names[0]);
    } else {
      JoinedComponents(names[1..]);
      OneMoreName(names[0], Joined(names[1..]));
      assert names == [names[0]] + names[1..];
    }
  }

  lemma OneMoreName(name: seq<Byte>, rest: seq<Byte>)
    requires name != [] && 47 !in name && rest != []
    ensures Components(name + [47] + rest) == [name] + Components(rest)
    ensures (name + [47] + rest)[|name + [47] + rest| - 1] == rest[|rest| - 1]
  {
    var path, n := name + [47] + rest, |name|;
    assert path == name + ([47] + rest) && path[..n] == name && path[n + 1..] == rest;
    FirstOfJoined(name, [47] + rest);
    MoreComponents(path);
  }

  /** Such a path is walked name by name. */
  lemma WalkJoined(w: World, dir: Item, names: seq<seq<Byte>>)
    requires w.Valid() && names != [] && AllNames(names) && forall i | 0 <= i < |names| :: |names[i]| < 128
    ensures Walk(w, dir, Joined(names)) == Resolve(w, dir, names)
  {
    JoinedComponents(names);
    ShortComponents(w, dir, Joined(names));
  }

  ghost predicate AllSlashes(s: seq<Byte>) {
    forall i | 0 <= i < |s| :: s[i] == 47
  }

  lemma {:induction false} NoComponents(s: seq<Byte>)
    requires AllSlashes(s)
    ensures Components(s) == []
  {
    if s != [] {
      NoComponents(s[1..]);
    }
  }

  /** Slashes behind a path do not change its components. */
  lemma {:induction false} SlashesBehind(names: seq<seq<Byte>>, s: seq<Byte>)
    requires names != [] && AllNames(names) && AllSlashes(s)
    ensures Components(Joined(names) + s) == names
    decreases |names|
  {
    var name := names[0];
    if |names| == 1 {
      assert names == [name];
      if s == [] {
        JoinedComponents(names);
        assert name + s == name;
      } else {
        FirstOfJoined(name, s);
        NoComponents(s[1..]);
        assert (name + s)[..|name|] == name && (name + s)[|name| + 1..] == s[1..];
        MoreComponents(name + s);
      }
    } else {
      SlashesBehind(names[1..], s);
      OneMoreName(name, Joined(names[1..]) + s);
      assert Joined(names) + s == name + [47] + (Joined(names[1..]) + s);
      assert names == [name] + names[1..];
    }
  }

  /** The edges: nothing is found at an empty path, or at one with a single slash behind the
      last name; several slashes there, or any in front, make no difference. */
  lemma WalkEdges(w: World, dir: Item, names: seq<seq<Byte>>, s: seq<Byte>)
    requires w.Valid() && names != [] && AllNames(names) && (forall i | 0 <= i < |names| :: |names[i]| < 128)
    requires AllSlashes(s)
    ensures Walk(w, dir, []) == None
    ensures Walk(w, dir, Joined(names) + s) == if |s| == 1 then None else Resolve(w, dir, names)
    ensures Walk(w, dir, s + Joined(names)) == Resolve(w, dir, names)
  {
    var path, front := Joined(names) + s, s + Joined(names);
    JoinedComponents(names);
    SlashesBehind(names, s);
    ShortComponents(w, dir, path);
    if |s| >= 2 {
      assert path[|path| - 2] == s[|s| - 2];
    }
    SlashesBefore(s, Joined(names));
    ShortComponents(w, dir, front);
    WalkJoined(w, dir, names);
    assert front[|front| - 1] != 47;
  }

  lemma {:induction false} SlashesBefore(s: seq<Byte>, path: seq<Byte>)
    requires AllSlashes(s)
    ensures Components(s + path) == Components(path)
  {
    if s == [] {
      assert s + path == path;
    } else {
      assert (s + path)[1..] == s[1..] + path;
      SlashesBefore(s[1..], path);
    }
  }

  /** A walk through a directory: what `dir/rest` names is what `rest` names in `dir`. */
  lemma {:induction false} ResolveThrough(w: World, dir: Item, first: seq<seq<Byte>>, rest: seq<seq<Byte>>)
    ensures Resolve(w, dir, first + rest) ==
            match Resolve(w, dir, first) { case None => None case Some(mid) => Resolve(w, mid, rest) }
    decreases |first|
  {
    if first == [] {
      assert first + rest == rest;
    } else {
      assert (first + rest)[1..] == first[1..] + rest;
      if Lookup(w, dir, first[0]) != None {
        ResolveThrough(w, Lookup(w, dir, first[0]).value, first[1..], rest);
      }
    }
  }
}
