/**
 Paths as lists of names. The walk over the characters of a path is a walk over its components; the path built for a
 folder leads back to it exactly when every folder on the way can be found by its own name.
 */
module VfsPaths {
  import opened VfsSpec

  // ------------------------------------------------------------ paths as lists

  /** No name in the folder holds a slash; the parser could not see it as one component. */
  ghost predicate NoSlashIn(db: Store, p: int) {
    && (forall c :: c in Children(db, p) ==> '/' !in FolderName(db, c))
    && (forall f :: f in Files(db, p) ==> '/' !in FileName(db, f))
  }

  ghost predicate Slashless(db: Store) {
    forall p {:trigger NoSlashIn(db, p)} :: Rooted(db, p) ==> NoSlashIn(db, p)
  }

  predicate HasPrefix(s: string, prefix: string) {
    |prefix| <= |s| && s[..|prefix|] == prefix
  }

  /** The parts of a path that end in a slash. */
  function Components(path: string): seq<string>
    decreases |path|
  {
    var n := NextLength(path);
    if n == |path| then [] else [path[..n]] + Components(path[n + 1..])
  }

  function LastNamed(db: Store, ids: seq<int>, name: string): (r: int)
    ensures r == NO_ID || r in ids
  {
    if ids == [] then NO_ID
    else
      var r := LastNamed(db, ids[1..], name);
      if r != NO_ID then r else if FileName(db, ids[0]) == name then ids[0] else NO_ID
  }

  function FirstPrefixed(db: Store, ids: seq<int>, name: string): (r: int)
    ensures r == NO_ID || r in ids
  {
    if ids == [] then NO_ID
    else if HasPrefix(FolderName(db, ids[0]), name) then ids[0]
    else FirstPrefixed(db, ids[1..], name)
  }

  /** One component looked up in a folder. */
  function Lookup(db: Store, dir: int, name: string): Found {
    var f := LastNamed(db, Files(db, dir), name);
    if f != NO_ID then File(f)
    else
      var d := if name == "." then dir
               else if name == ".." then Parent(db, dir)
               else FirstPrefixed(db, Children(db, dir), name);
      if d != NO_ID then Folder(d) else Nothing
  }

  function Follow(db: Store, dir: int, names: seq<string>): int
    decreases |names|
  {
    if names == [] then dir
    else
      match Lookup(db, dir, names[0])
      case Folder(d) => Follow(db, d, names[1..])
      case _ => NO_ID
  }

  lemma FileMatchIsEquality(db: Store, f: int, path: string, n: nat)
    requires n < |path| && path[n] == '/' && '/' !in path[..n] && '/' !in FileName(db, f)
    ensures FileMatches(db, f, path, n) <==> FileName(db, f) == path[..n]
  {
    hide FileName;
    var name := FileName(db, f);
    if |name| > n {
      assert Take(path, |name|)[n] == '/';
    }
  }

  lemma FolderMatchIsPrefix(db: Store, c: int, path: string, n: nat)
    requires n < |path|
    ensures FolderMatches(db, c, path, n) <==> HasPrefix(FolderName(db, c), path[..n])
  {
    hide FolderName;
  }

  lemma {:induction false} LastFileIsLastNamed(db: Store, ids: seq<int>, path: string, n: nat)
    requires forall f :: f in ids ==> '/' !in FileName(db, f)
    requires n < |path| && path[n] == '/' && '/' !in path[..n]
    ensures LastFile(db, ids, path, n) == LastNamed(db, ids, path[..n])
  {
    hide FileMatches, FileName;
    if ids != [] {
      forall f | f in ids[1..] ensures f in ids {}
      LastFileIsLastNamed(db, ids[1..], path, n);
      FileMatchIsEquality(db, ids[0], path, n);
    }
  }

  lemma {:induction false} FirstFolderIsFirstPrefixed(db: Store, ids: seq<int>, path: string, n: nat)
    requires n < |path|
    ensures FirstFolder(db, ids, path, n) == FirstPrefixed(db, ids, path[..n])
  {
    hide FolderMatches, FolderName, HasPrefix;
    if ids != [] {
      FirstFolderIsFirstPrefixed(db, ids[1..], path, n);
      FolderMatchIsPrefix(db, ids[0], path, n);
    }
  }

  /** Looking a component up in the characters of the path. */
  lemma FindObjectIsLookup(db: Store, dir: int, path: string, n: nat)
    requires NoSlashIn(db, dir) && n < |path| && path[n] == '/' && '/' !in path[..n]
    ensures FindObject(db, dir, path, n) == Lookup(db, dir, path[..n])
  {
    hide LastFile, LastNamed, FirstFolder, FirstPrefixed, Children, Files, Parent, FolderName, FileName;
    LastFileIsLastNamed(db, Files(db, dir), path, n);
    FirstFolderIsFirstPrefixed(db, Children(db, dir), path, n);
    assert n == 1 && path[0] == '.' <==> path[..n] == ".";
    assert n == 2 && path[0] == '.' && path[1] == '.' <==> path[..n] == "..";
  }

  lemma NextLengthIs(path: string, n: nat)
    requires n <= |path| && '/' !in path[..n] && (n < |path| ==> path[n] == '/')
    ensures NextLength(path) == n
  {
  }

  /** The walk of the parser is the walk over the components. */
  lemma {:induction false} WalkIsFollow(db: Store, dir: int, path: string, len: nat)
    requires Inv(db) && Slashless(db) && Rooted(db, dir) && len <= |path|
    ensures Walk(db, dir, path, len) == Follow(db, dir, Components(path[..len]))
    decreases len
  {
    hide Inv, Rooted, NoSlashIn, FindObject, Lookup, NextLength;
    var n := NextLength(path[..len]);
    if n < len {
      assert path[..len][..n] == path[..n];
      FindObjectIsLookup(db, dir, path, n);
      var rest := path[n + 1..];
      assert path[..len][n + 1..] == rest[..len - n - 1];
      FollowFirst(db, dir, path[..n], Components(rest[..len - n - 1]));
      var o := FindObject(db, dir, path, n);
      if o.Folder? {
        FoundRooted(db, dir, path, n);
        WalkIsFollow(db, o.id, rest, len - n - 1);
      }
    }
  }

  lemma FollowFirst(db: Store, dir: int, name: string, names: seq<string>)
    ensures var o := Lookup(db, dir, name);
            Follow(db, dir, [name] + names) == if o.Folder? then Follow(db, o.id, names) else NO_ID
  {
    hide Lookup;
    assert ([name] + names)[1..] == names;
  }

  lemma {:induction false} FollowBoth(db: Store, dir: int, xs: seq<string>, ys: seq<string>)
    requires dir != NO_ID
    ensures var mid := Follow(db, dir, xs);
            Follow(db, dir, xs + ys) == if mid == NO_ID then NO_ID else Follow(db, mid, ys)
    decreases |xs|
  {
    hide FirstPrefixed, LastNamed, Children, Files, Parent;
    if xs == [] {
      assert xs + ys == ys;
    } else {
      assert (xs + ys)[1..] == xs[1..] + ys;
      var o := Lookup(db, dir, xs[0]);
      if o.Folder? {
        FollowBoth(db, o.id, xs[1..], ys);
      }
    }
  }

  lemma FirstOfBoth(a: string, b: string)
    requires a != "" && a[|a| - 1] == '/'
    ensures var n := NextLength(a);
            n < |a| && NextLength(a + b) == n && (a + b)[..n] == a[..n] && (a + b)[n + 1..] == a[n + 1..] + b
  {
    var n := NextLength(a);
    assert a[..|a|][|a| - 1] == '/';
    assert (a + b)[..n] == a[..n] && (a + b)[n] == '/';
    NextLengthIs(a + b, n);
    assert (a + b)[n + 1..] == a[n + 1..] + b;
  }

  lemma {:induction false} ComponentsOfBoth(a: string, b: string)
    requires a == "" || a[|a| - 1] == '/'
    ensures Components(a + b) == Components(a) + Components(b)
    decreases |a|
  {
    hide NextLength;
    if a == "" {
      assert a + b == b;
    } else {
      FirstOfBoth(a, b);
      var rest := a[NextLength(a) + 1..];
      ComponentsOfBoth(rest, b);
      Regroup([a[..NextLength(a)]], Components(rest), Components(b));
    }
  }

  lemma Regroup(x: seq<string>, y: seq<string>, z: seq<string>)
    ensures x + (y + z) == (x + y) + z
  {
  }

  lemma OneComponent(name: string)
    requires '/' !in name
    ensures Components(name + "/") == [name]
  {
    var path := name + "/";
    assert path[..|name|] == name;
    NextLengthIs(path, |name|);
    assert path[|name| + 1..] == "";
  }

  // -------------------------------------------------- the path of a folder

  /** getAbsolutePathFromFolderId: "/", or the path of the parent, the name, and a slash. */
  function AbsPath(db: Store, id: int): (s: string)
    requires Rooted(db, id)
    ensures s != [] && s[0] == '/' && s[|s| - 1] == '/'
    decreases id
  {
    if id == ROOT then "/" else AbsPath(db, Parent(db, id)) + FolderName(db, id) + "/"
  }

  /** The names from below the root down to the folder. */
  function Names(db: Store, id: int): seq<string>
    requires Rooted(db, id)
    decreases id
  {
    if id == ROOT then [] else Names(db, Parent(db, id)) + [FolderName(db, id)]
  }

  ghost predicate OnTheWay(db: Store, a: int, id: int)
    requires Rooted(db, id)
    decreases id
  {
    id != ROOT && (a == id || OnTheWay(db, a, Parent(db, id)))
  }

  /**
   A check on the two lists of the parent: no file has the name of the folder, and no folder listed before it has a
   name that begins with it. Nor is the name one of the two that are not looked up.
   */
  ghost predicate Findable(db: Store, id: int) {
    var p, name := Parent(db, id), FolderName(db, id);
    && name != "." && name != ".."
    && (forall f :: f in Files(db, p) ==> FileName(db, f) != name)
    && ListedFirst(db, Children(db, p), name, id)
  }

  /** The folder is in the list, and no folder before it has a name that begins with the given one. */
  ghost predicate ListedFirst(db: Store, ids: seq<int>, name: string, id: int) {
    exists i :: 0 <= i < |ids| && ids[i] == id && forall j :: 0 <= j < i ==> !HasPrefix(FolderName(db, ids[j]), name)
  }

  lemma {:induction false} AbsPathComponents(db: Store, id: int)
    requires Rooted(db, id) && Slashless(db)
    ensures Components(AbsPath(db, id)[1..]) == Names(db, id)
    decreases id
  {
    hide Slashless, FolderName, Components;
    if id == ROOT {
      EmptyPath();
    } else {
      var p, name := Parent(db, id), FolderName(db, id);
      AbsPathComponents(db, p);
      var above := AbsPath(db, p);
      assert AbsPath(db, id)[1..] == above[1..] + (name + "/");
      ComponentsOfBoth(above[1..], name + "/");
      NameHasNoSlash(db, id);
      OneComponent(name);
    }
  }

  lemma EmptyPath()
    ensures Components("/"[1..]) == []
  {
    assert "/"[1..] == "";
  }

  lemma NameHasNoSlash(db: Store, id: int)
    requires Slashless(db) && Rooted(db, id) && id != ROOT
    ensures '/' !in FolderName(db, id)
  {
    hide FolderName, FileName;
    assert NoSlashIn(db, Parent(db, id));
  }

  lemma {:induction false} LastNamedFails(db: Store, ids: seq<int>, name: string)
    requires forall f :: f in ids ==> f != NO_ID
    ensures LastNamed(db, ids, name) == NO_ID <==> forall f :: f in ids ==> FileName(db, f) != name
  {
    hide FileName;
    if ids != [] {
      forall f | f in ids[1..] ensures f in ids {}
      LastNamedFails(db, ids[1..], name);
    }
  }

  lemma ListedFirstInRest(db: Store, ids: seq<int>, name: string, id: int)
    requires ids != []
    ensures ListedFirst(db, ids, name, id) <==>
            ids[0] == id || (!HasPrefix(FolderName(db, ids[0]), name) && ListedFirst(db, ids[1..], name, id))
  {
    hide FolderName, HasPrefix;
    if i :| 0 <= i < |ids| && ids[i] == id && forall j :: 0 <= j < i ==> !HasPrefix(FolderName(db, ids[j]), name) {
      if i > 0 {
        assert ids[1..][i - 1] == id;
      }
    }
    if i :| 0 <= i < |ids[1..]| && ids[1..][i] == id && !HasPrefix(FolderName(db, ids[0]), name) &&
            forall j :: 0 <= j < i ==> !HasPrefix(FolderName(db, ids[1..][j]), name) {
      assert ids[i + 1] == id;
      forall j | 0 <= j < i + 1 ensures !HasPrefix(FolderName(db, ids[j]), name) {
        if j > 0 { assert ids[1..][j - 1] == ids[j]; }
      }
    }
  }

  lemma {:induction false} FirstPrefixedIs(db: Store, ids: seq<int>, name: string, id: int)
    requires id != NO_ID && HasPrefix(FolderName(db, id), name)
    ensures FirstPrefixed(db, ids, name) == id <==> ListedFirst(db, ids, name, id)
  {
    hide FolderName, HasPrefix, ListedFirst;
    if ids == [] {
      NoneListed(db, name, id);
    } else {
      ListedFirstInRest(db, ids, name, id);
      FirstPrefixedIs(db, ids[1..], name, id);
    }
  }

  lemma NoneListed(db: Store, name: string, id: int)
    ensures !ListedFirst(db, [], name, id)
  {
  }

  lemma DotsFindNoChild(db: Store, id: int)
    requires Inv(db) && Rooted(db, id) && id != ROOT
    ensures Parent(db, id) != id && Parent(db, Parent(db, id)) != id
  {
    hide Inv;
    RootParent(db);
    assert Rooted(db, Parent(db, id));
  }

  lemma FilesHaveIds(db: Store, p: int)
    requires Inv(db)
    ensures forall f :: f in Files(db, p) ==> f != NO_ID
  {
    forall f | f in Files(db, p) ensures f != NO_ID {
      assert GoodFile(db, f);
    }
  }

  lemma FindableMeansFound(db: Store, id: int)
    requires Inv(db) && Rooted(db, id) && id != ROOT
    ensures Lookup(db, Parent(db, id), FolderName(db, id)) == Folder(id) <==> Findable(db, id)
  {
    hide Inv, FirstPrefixed, LastNamed, FolderName, FileName, Files, Children, HasPrefix, ListedFirst;
    var p, name := Parent(db, id), FolderName(db, id);
    DotsFindNoChild(db, id);
    FilesHaveIds(db, p);
    LastNamedFails(db, Files(db, p), name);
    PrefixOfItself(name);
    FirstPrefixedIs(db, Children(db, p), name, id);
  }

  lemma PrefixOfItself(s: string)
    ensures HasPrefix(s, s)
  {
  }

  function Depth(db: Store, id: int): nat
    requires Rooted(db, id)
    decreases id
  {
    if id == ROOT then 0 else 1 + Depth(db, Parent(db, id))
  }

  lemma {:induction false} DepthIsNames(db: Store, id: int)
    requires Rooted(db, id)
    ensures |Names(db, id)| == Depth(db, id)
    decreases id
  {
    hide FolderName, Parent;
    if id != ROOT {
      DepthIsNames(db, Parent(db, id));
    }
  }

  /** A component leads at most one level down, and one level down only to a child. */
  lemma LookupDepth(db: Store, dir: int, name: string)
    requires Inv(db) && Rooted(db, dir) && Lookup(db, dir, name).Folder?
    ensures var d := Lookup(db, dir, name).id;
            d != NO_ID && Rooted(db, d) && Depth(db, d) <= Depth(db, dir) + 1
            && (Depth(db, d) == Depth(db, dir) + 1 ==> Parent(db, d) == dir)
  {
    hide Inv, FirstPrefixed, LastNamed, Children, Files, Parent;
    ParentRooted(db, dir);
    RootParent(db);
    var d := Lookup(db, dir, name).id;
    if d in Children(db, dir) {
      ChildRooted(db, dir, d);
    }
  }

  lemma RootParent(db: Store)
    requires Inv(db)
    ensures Parent(db, ROOT) == ROOT
  {
    hide ListsGood, ListsApart, KeysRooted;
  }

  lemma {:induction false} FollowDepth(db: Store, dir: int, names: seq<string>)
    requires Inv(db) && Rooted(db, dir) && Follow(db, dir, names) != NO_ID
    ensures Rooted(db, Follow(db, dir, names)) && Depth(db, Follow(db, dir, names)) <= Depth(db, dir) + |names|
    decreases |names|
  {
    hide Inv, Lookup, Depth, Rooted;
    if names != [] {
      LookupDepth(db, dir, names[0]);
      FollowDepth(db, Lookup(db, dir, names[0]).id, names[1..]);
    }
  }

  lemma {:induction false} FollowLast(db: Store, dir: int, names: seq<string>, name: string)
    requires dir != NO_ID
    ensures var mid := Follow(db, dir, names);
            Follow(db, dir, names + [name]) ==
              if mid != NO_ID && Lookup(db, mid, name).Folder? then Lookup(db, mid, name).id else NO_ID
  {
    hide Lookup;
    FollowBoth(db, dir, names, [name]);
    var mid := Follow(db, dir, names);
    if mid != NO_ID {
      FollowFirst(db, mid, name, []);
      assert [name] + [] == [name];
    }
  }

  /** If the last step reaches a folder of full depth, it was taken from the parent of that folder. */
  lemma LastStepFromParent(db: Store, id: int)
    requires Inv(db) && Rooted(db, id) && id != ROOT && Follow(db, ROOT, Names(db, id)) == id
    ensures Follow(db, ROOT, Names(db, Parent(db, id))) == Parent(db, id) && Findable(db, id)
  {
    hide Inv, Lookup, Follow, Findable, FolderName;
    var p, name := Parent(db, id), FolderName(db, id);
    FollowLast(db, ROOT, Names(db, p), name);
    var mid := Follow(db, ROOT, Names(db, p));
    FollowDepth(db, ROOT, Names(db, p));
    DepthIsNames(db, p);
    LookupDepth(db, mid, name);
    assert mid == p;
    FindableMeansFound(db, id);
  }

  ghost predicate AllFindable(db: Store, id: int)
    requires Rooted(db, id)
  {
    forall a :: OnTheWay(db, a, id) ==> Findable(db, a)
  }

  lemma AllFindableUp(db: Store, id: int)
    requires Rooted(db, id) && id != ROOT
    ensures AllFindable(db, id) <==> Findable(db, id) && AllFindable(db, Parent(db, id))
  {
    hide Findable, Parent;
    var p := Parent(db, id);
    assert OnTheWay(db, id, id);
    assert forall a :: OnTheWay(db, a, id) <==> a == id || OnTheWay(db, a, p);
  }

  lemma {:induction false} NamesLeadBack(db: Store, id: int)
    requires Inv(db) && Rooted(db, id)
    ensures Follow(db, ROOT, Names(db, id)) == id <==> AllFindable(db, id)
    decreases id
  {
    hide Inv, Lookup, Findable, AllFindable, FolderName;
    if id == ROOT {
      NothingAboveRoot(db);
    } else {
      var p, name := Parent(db, id), FolderName(db, id);
      NamesLeadBack(db, p);
      AllFindableUp(db, id);
      if Follow(db, ROOT, Names(db, id)) == id {
        LastStepFromParent(db, id);
      }
      if AllFindable(db, id) {
        FindableMeansFound(db, id);
        FollowLast(db, ROOT, Names(db, p), name);
      }
    }
  }

  lemma NothingAboveRoot(db: Store)
    ensures AllFindable(db, ROOT)
  {
  }

  /** A path that starts with a slash is resolved from the root, whatever the current folder. */
  lemma ResolveDirIsFollow(db: Store, cwd: int, path: string)
    requires Inv(db) && Slashless(db) && path != [] && (path[0] == '/' || Rooted(db, cwd))
    ensures path[0] == '/' ==> ResolveDir(db, cwd, path) == Follow(db, ROOT, Components(WithSlash(path)[1..]))
    ensures path[0] != '/' ==> ResolveDir(db, cwd, path) == Follow(db, cwd, Components(WithSlash(path)))
  {
    hide Inv, Slashless, Walk, Follow, Components;
    var full := WithSlash(path);
    if path[0] == '/' {
      WalkIsFollow(db, ROOT, full[1..], |full| - 1);
      assert full[1..][..|full| - 1] == full[1..];
    } else {
      WalkIsFollow(db, cwd, full, |full|);
      assert full[..|full|] == full;
    }
  }

  /**
   The round trip: the path built for a folder of the tree resolves to that folder exactly when every folder on the
   way, itself included, can be found by its own name in its parent.
   */
  lemma {:induction false} RoundTripExactly(db: Store, cwd: int, id: int)
    requires Inv(db) && Slashless(db) && Rooted(db, id)
    ensures ResolveDir(db, cwd, AbsPath(db, id)) == id <==> forall a :: OnTheWay(db, a, id) ==> Findable(db, a)
  {
    hide Inv, Slashless, Follow, Components, ResolveDir, AbsPath, Findable, OnTheWay, Names;
    ResolveDirIsFollow(db, cwd, AbsPath(db, id));
    AbsPathComponents(db, id);
    NamesLeadBack(db, id);
  }
}
