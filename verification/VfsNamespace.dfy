/**
 What the commands do to names. In a clean name space every path leads where it says; making a folder hides exactly
 the siblings whose names its own name begins with.
 */
module VfsNamespace {
  import opened Bytes
  import opened VfsSpec
  import opened VfsPaths

  predicate CleanName(name: string) {
    name != "" && '/' !in name && name != "." && name != ".."
  }

  ghost predicate CleanFolder(db: Store, p: int) {
    && (forall c :: c in Children(db, p) ==> CleanName(FolderName(db, c)))
    && (forall c, d :: c in Children(db, p) && d in Children(db, p) && c != d ==>
          !HasPrefix(FolderName(db, d), FolderName(db, c)))
    && (forall f :: f in Files(db, p) ==> CleanName(FileName(db, f)))
    && (forall c, f :: c in Children(db, p) && f in Files(db, p) ==> FileName(db, f) != FolderName(db, c))
  }

  /** Sibling folders have names of which none begins with another, and no file has the name of a sibling folder. */
  ghost predicate Clean(db: Store) {
    forall p {:trigger CleanFolder(db, p)} :: Rooted(db, p) ==> CleanFolder(db, p)
  }

  lemma CleanIsSlashless(db: Store)
    requires Clean(db)
    ensures Slashless(db)
  {
    hide Rooted, FolderName, FileName, Children, Files;
    forall p | Rooted(db, p) ensures NoSlashIn(db, p) {
      assert CleanFolder(db, p);
    }
  }

  lemma CleanIsListedFirst(db: Store, p: int, id: int)
    requires Inv(db) && CleanFolder(db, p) && id in Children(db, p)
    ensures ListedFirst(db, Children(db, p), FolderName(db, id), id)
  {
    hide FolderName, FileName, Children, Files, HasPrefix, RootOk, ListsGood, KeysRooted;
    var ids := Children(db, p);
    var i :| 0 <= i < |ids| && ids[i] == id;
    assert NoDup(ids);
    forall j | 0 <= j < i ensures !HasPrefix(FolderName(db, ids[j]), FolderName(db, id)) {
      assert ids[j] in ids;
    }
  }

  lemma CleanIsFindable(db: Store, id: int)
    requires Inv(db) && Clean(db) && Rooted(db, id) && id != ROOT
    ensures Findable(db, id)
  {
    hide Inv, FolderName, FileName, Children, Files, ListedFirst, HasPrefix;
    assert CleanFolder(db, Parent(db, id));
    CleanIsListedFirst(db, Parent(db, id), id);
  }

  lemma {:induction false} CleanAllFindable(db: Store, id: int)
    requires Inv(db) && Clean(db) && Rooted(db, id)
    ensures AllFindable(db, id)
    decreases id
  {
    hide Inv, Clean, Findable, AllFindable;
    if id == ROOT {
      NothingAboveRoot(db);
    } else {
      CleanAllFindable(db, Parent(db, id));
      CleanIsFindable(db, id);
      AllFindableUp(db, id);
    }
  }

  /** In a clean name space the path built for any folder of the tree leads back to it. */
  lemma {:induction false} CleanRoundTrip(db: Store, cwd: int, id: int)
    requires Inv(db) && Clean(db) && Rooted(db, id)
    ensures ResolveDir(db, cwd, AbsPath(db, id)) == id
  {
    hide Inv, Clean, Findable, OnTheWay, ResolveDir, Slashless;
    CleanIsSlashless(db);
    CleanAllFindable(db, id);
    RoundTripExactly(db, cwd, id);
  }

  // ------------------------------------------------------ paths of the wrapper

  /** removeAnyPathPrefix. */
  function RemovePrefix(path: string): string
    requires path != []
  {
    if path[0] == '/' then path[1..] else if HasPrefix(path, "./") then path[2..] else path
  }

  /** getParentIdOfLeftSideOfExpression; the current folder is kept as a path, and resolved anew. */
  function LeftSide(db: Store, cwd: string, path: string): int
    requires cwd != [] && path != []
  {
    if path[0] == '/' then ROOT else ResolveDir(db, ResolveDir(db, ROOT, cwd), cwd)
  }

  lemma LeftSideRooted(db: Store, cwd: string, path: string)
    requires Inv(db) && cwd != [] && cwd[0] == '/' && path != []
    ensures LeftSide(db, cwd, path) == NO_ID || Rooted(db, LeftSide(db, cwd, path))
  {
    hide Inv, Resolve;
    ResolveRooted(db, ResolveDir(db, ROOT, cwd), WithSlash(cwd), |WithSlash(cwd)|);
  }

  /** formatToValidPath; None is an exception. */
  function FormatPath(db: Store, cwd: string, path: string): (r: Option<string>)
    requires Inv(db) && cwd != [] && cwd[0] == '/'
    ensures r.Some? ==> r.value != [] && r.value[0] == '/'
  {
    if path == [] then None
    else
      LeftSideRooted(db, cwd, path);
      var left := LeftSide(db, cwd, path);
      if left == NO_ID then None else Some(AbsPath(db, left) + RemovePrefix(path))
  }

  lemma SlashAfter(a: string, b: string)
    requires a != [] && a[|a| - 1] == '/'
    ensures WithSlash(a + b) == a + (if b == [] then "" else WithSlash(b))
  {
    if b == [] {
      assert a + b == a;
      assert a + "" == a;
    } else {
      Regroup3(a, b, "/");
    }
  }

  lemma Regroup3(a: string, b: string, c: string)
    ensures (a + b) + c == a + (b + c)
  {
  }

  lemma AfterFirst(a: string, b: string)
    requires a != []
    ensures (a + b)[1..] == a[1..] + b
  {
  }

  /** A path put behind the path of a folder leads where it leads from that folder. */
  lemma PathBelow(db: Store, cwd: int, d: int, path: string)
    requires Inv(db) && Slashless(db) && Rooted(db, d) && AllFindable(db, d)
    ensures ResolveDir(db, cwd, AbsPath(db, d) + path)
         == Follow(db, d, if path == [] then [] else Components(WithSlash(path)))
  {
    hide Inv, Slashless, AllFindable, ResolveDir, Components, Follow, WithSlash, AbsPath, Names;
    var above, below := AbsPath(db, d), if path == [] then "" else WithSlash(path);
    SlashAfter(above, path);
    ResolveDirIsFollow(db, cwd, above + path);
    AfterFirst(above, below);
    ComponentsOfBoth(above[1..], below);
    AbsPathComponents(db, d);
    NamesLeadBack(db, d);
    FollowBoth(db, ROOT, Names(db, d), Components(below));
    RootedNonNegative(db, d);
    NoComponents();
  }

  lemma NoComponents()
    ensures Components("") == []
  {
  }

  /** The prefix "./" that is cut off is the folder itself, unless a file is called ".". */
  lemma DotIsHere(db: Store, d: int, rest: string)
    requires d != NO_ID && forall f :: f in Files(db, d) ==> FileName(db, f) != "."
    ensures Follow(db, d, Components("./" + rest)) == Follow(db, d, Components(rest))
  {
    hide Follow, FileName;
    ComponentsOfBoth("./", rest);
    OneComponent(".");
    assert "." + "/" == "./";
    FollowFirst(db, d, ".", Components(rest));
    NoneNamed(db, Files(db, d), ".");
  }

  lemma {:induction false} NoneNamed(db: Store, ids: seq<int>, name: string)
    requires forall f :: f in ids ==> FileName(db, f) != name
    ensures LastNamed(db, ids, name) == NO_ID
  {
    hide FileName;
    if ids != [] {
      forall f | f in ids[1..] ensures f in ids {}
      NoneNamed(db, ids[1..], name);
    }
  }

  /** Relative paths compose: the path from the root and the path from the current folder lead to the same place. */
  lemma {:induction false} RelativePathsCompose(db: Store, cwd: int, d: int, path: string)
    requires Inv(db) && Slashless(db) && Rooted(db, d)
    requires forall a :: OnTheWay(db, a, d) ==> Findable(db, a)
    requires path != [] && path[0] != '/'
    requires HasPrefix(path, "./") ==> forall f :: f in Files(db, d) ==> FileName(db, f) != "."
    ensures ResolveDir(db, cwd, AbsPath(db, d) + RemovePrefix(path)) == ResolveDir(db, d, path)
  {
    hide Inv, Slashless, Findable, OnTheWay, ResolveDir, AbsPath, Follow, Components, FileName, Files, WithSlash;
    PathBelow(db, cwd, d, RemovePrefix(path));
    ResolveDirIsFollow(db, d, path);
    if HasPrefix(path, "./") {
      var rest := path[2..];
      assert path == "./" + rest;
      SlashAfter("./", rest);
      RootedNonNegative(db, d);
      DotIsHere(db, d, if rest == [] then "" else WithSlash(rest));
      NoComponents();
    }
  }

  /** In a clean name space a path of any form means the same as its absolute form. */
  lemma {:induction false} FormattedPathMeansSame(db: Store, cwd: int, d: int, path: string)
    requires Inv(db) && Clean(db) && Rooted(db, d) && path != []
    ensures var formatted := FormatPath(db, AbsPath(db, d), path);
            formatted.Some? && ResolveDir(db, cwd, formatted.value) == ResolveDir(db, d, path)
  {
    hide Inv, Clean, CleanFolder, Slashless, ResolveDir, AbsPath, FileName, Files, Children, Findable, OnTheWay;
    CleanIsSlashless(db);
    if path[0] == '/' {
      RootPath(db);
      assert "/" + path[1..] == path;
      AbsoluteFromAnywhere(db, cwd, d, path);
    } else {
      CleanRoundTrip(db, ROOT, d);
      CleanRoundTrip(db, ResolveDir(db, ROOT, AbsPath(db, d)), d);
      RootedNonNegative(db, d);
      CleanAllFindable(db, d);
      NoFileIsDot(db, d);
      RelativePathsCompose(db, cwd, d, path);
    }
  }

  lemma RootPath(db: Store)
    ensures AbsPath(db, ROOT) == "/"
  {
  }

  lemma AbsoluteFromAnywhere(db: Store, c: int, d: int, path: string)
    requires path != [] && path[0] == '/'
    ensures ResolveDir(db, c, path) == ResolveDir(db, d, path)
  {
    hide Walk;
  }

  lemma NoFileIsDot(db: Store, d: int)
    requires Clean(db) && Rooted(db, d)
    ensures forall f :: f in Files(db, d) ==> FileName(db, f) != "."
  {
    hide FileName, Files, Children, Rooted;
    assert CleanFolder(db, d);
  }

  /** The path kept by a successful cd is canonical: its components are the names of folders, and none is special. */
  lemma {:induction false} AbsPathIsCanonical(db: Store, id: int)
    requires Inv(db) && Clean(db) && Rooted(db, id)
    ensures Components(AbsPath(db, id)[1..]) == Names(db, id)
    ensures forall name :: name in Names(db, id) ==> CleanName(name)
  {
    hide Inv, Clean, AbsPath, Components;
    CleanIsSlashless(db);
    AbsPathComponents(db, id);
    NamesAreClean(db, id);
  }

  lemma {:induction false} NamesAreClean(db: Store, id: int)
    requires Clean(db) && Rooted(db, id)
    ensures forall name :: name in Names(db, id) ==> CleanName(name)
    decreases id
  {
    hide CleanName, FolderName, FileName;
    if id != ROOT {
      NamesAreClean(db, Parent(db, id));
      assert CleanFolder(db, Parent(db, id));
    }
  }

  // ------------------------------------------------- what a new entry changes

  lemma {:induction false} AbsPathAfterFolder(db: Store, p: int, name: string, id: int)
    requires Inv(db) && Rooted(db, id) && Rooted(WithFolder(db, p, name), id)
    ensures AbsPath(WithFolder(db, p, name), id) == AbsPath(db, id)
    decreases id
  {
    hide Inv, Quoted, Unquoted;
    RootedAfterFolder(db, p, name, id);
    ParentRooted(db, id);
    if id != ROOT {
      AbsPathAfterFolder(db, p, name, Parent(db, id));
    }
  }

  lemma {:induction false} AbsPathAfterFile(db: Store, p: int, name: string, id: int)
    requires Rooted(db, id) && Rooted(WithFile(db, p, name), id)
    ensures AbsPath(WithFile(db, p, name), id) == AbsPath(db, id)
    decreases id
  {
    hide Quoted, Unquoted;
    if id != ROOT {
      AbsPathAfterFile(db, p, name, Parent(db, id));
    }
  }

  /** Names and links of what is there stay; the new id is the name's. */
  lemma AfterFolder(db: Store, p: int, name: string, q: int)
    requires Inv(db) && (p == NO_ID || Rooted(db, p))
    ensures var db' := WithFolder(db, p, name);
            && Children(db', q) == (if q == p then [db.counter] else []) + Children(db, q)
            && Files(db', q) == Files(db, q)
            && (forall c :: c in Children(db, q) ==> FolderName(db', c) == FolderName(db, c) && c != db.counter)
            && (forall f :: f in Files(db, q) ==> FileName(db', f) == FileName(db, f))
            && FolderName(db', db.counter) == name && Parent(db', db.counter) == StoredParent(p)
            && (q != db.counter ==> FolderName(db', q) == FolderName(db, q) && Parent(db', q) == Parent(db, q))
  {
    hide Rooted, RootOk, ListsGood, ListsApart, KeysRooted;
    ChildrenAfter(db, p, name, q);
    NewIdUnused(db, q);
  }

  lemma AfterFile(db: Store, p: int, name: string, q: int)
    requires Inv(db)
    ensures var db' := WithFile(db, p, name);
            && Files(db', q) == (if q == p then [db.counter] else []) + Files(db, q)
            && Children(db', q) == Children(db, q)
            && (forall f :: f in Files(db, q) ==> FileName(db', f) == FileName(db, f) && f != db.counter)
            && (forall c :: FolderName(db', c) == FolderName(db, c))
            && FileName(db', db.counter) == name && Parent(db', q) == Parent(db, q)
  {
    hide Rooted, RootOk, ListsGood, ListsApart, KeysRooted;
    ChildrenAfter(db, p, name, q);
    NewIdUnused(db, q);
  }

  lemma NewFolderEmpty(db: Store)
    requires Inv(db)
    ensures !Rooted(db, db.counter) && Children(db, db.counter) == [] && Files(db, db.counter) == []
  {
    hide ListsApart, ListsGood;
    NotRootedYet(db);
  }

  lemma NotRootedYet(db: Store)
    requires Inv(db)
    ensures !Rooted(db, db.counter)
  {
    hide RootOk, ListsGood, ListsApart, KeysRooted;
    NewIdUnused(db, Parent(db, db.counter));
    PositiveCounter(db);
  }

  lemma PositiveCounter(db: Store)
    requires Inv(db)
    ensures db.counter > 0
  {
    hide ListsGood, ListsApart, KeysRooted;
  }

  lemma SameNamesListedFirst(db: Store, db': Store, ids: seq<int>, name: string, id: int)
    requires forall c :: c in ids ==> FolderName(db', c) == FolderName(db, c)
    ensures ListedFirst(db', ids, name, id) <==> ListedFirst(db, ids, name, id)
  {
    hide FolderName, HasPrefix;
    forall j | 0 <= j < |ids| ensures FolderName(db', ids[j]) == FolderName(db, ids[j]) {
      assert ids[j] in ids;
    }
  }

  lemma NewOneListedBefore(db: Store, ids: seq<int>, name: string, id: int, first: int)
    requires first != id
    ensures ListedFirst(db, [first] + ids, name, id) <==>
            !HasPrefix(FolderName(db, first), name) && ListedFirst(db, ids, name, id)
  {
    hide FolderName, HasPrefix, ListedFirst;
    ListedFirstInRest(db, [first] + ids, name, id);
    assert ([first] + ids)[1..] == ids;
  }

  /**
   Making a folder hides exactly the siblings whose names the new name begins with: they were found by their own
   name before, and are not any more. Everything else is found as before.
   */
  lemma {:induction false} MkdirHides(db: Store, p: int, name: string, s: int)
    requires Inv(db) && (p == NO_ID || Rooted(db, p)) && Rooted(db, s) && s != ROOT
    ensures Findable(WithFolder(db, p, name), s) <==>
            Findable(db, s) && !(Parent(db, s) == p && HasPrefix(name, FolderName(db, s)))
  {
    hide Inv, WithFolder, Children, Files, FolderName, FileName, Parent, HasPrefix, ListedFirst;
    var db', q, own := WithFolder(db, p, name), Parent(db, s), FolderName(db, s);
    NotRootedYet(db);
    AfterFolder(db, p, name, q);
    AfterFolder(db, p, name, s);
    SameNamesListedFirst(db, db', Children(db, q), own, s);
    if q == p {
      NewOneListedBefore(db', Children(db, q), own, s, db.counter);
    } else {
      assert [] + Children(db, q) == Children(db, q);
    }
    assert forall f :: f in Files(db, q) ==> FileName(db', f) == FileName(db, f);
  }

  /** The new folder is found by its own name exactly when no file has it and it is neither "." nor "..". */
  lemma {:induction false} NewFolderFindable(db: Store, p: int, name: string)
    requires Inv(db) && Rooted(db, p)
    ensures Findable(WithFolder(db, p, name), db.counter) <==>
            name != "." && name != ".." && forall f :: f in Files(db, p) ==> FileName(db, f) != name
  {
    hide Inv, WithFolder, Children, Files, FolderName, FileName, Parent, HasPrefix, ListedFirst;
    var db' := WithFolder(db, p, name);
    RootedNonNegative(db, p);
    AfterFolder(db, p, name, p);
    ListedFirstInRest(db', [db.counter] + Children(db, p), name, db.counter);
  }

  /** Making a file hides exactly the sibling folder of the same name. */
  lemma {:induction false} CreateHides(db: Store, p: int, name: string, s: int)
    requires Inv(db) && (p == NO_ID || Rooted(db, p)) && Rooted(db, s) && s != ROOT
    ensures Findable(WithFile(db, p, name), s) <==>
            Findable(db, s) && !(Parent(db, s) == p && FolderName(db, s) == name)
  {
    hide Inv, Rooted, WithFile, Children, Files, FolderName, FileName, Parent, HasPrefix, ListedFirst;
    var db', q, own := WithFile(db, p, name), Parent(db, s), FolderName(db, s);
    AfterFile(db, p, name, q);
    AfterFile(db, p, name, s);
    SameNamesListedFirst(db, db', Children(db, q), own, s);
    forall f ensures f in Files(db', q) <==> f in Files(db, q) || (q == p && f == db.counter) {}
    assert (forall f :: f in Files(db', q) ==> FileName(db', f) != own) <==>
           (forall f :: f in Files(db, q) ==> FileName(db, f) != own) && !(q == p && name == own);
  }

  // ------------------------------------------------ the clean name space is kept

  /** What a caller can check before making a folder. */
  ghost predicate FitsFolder(db: Store, p: int, name: string) {
    && CleanName(name)
    && (forall c :: c in Children(db, p) ==> !HasPrefix(FolderName(db, c), name) && !HasPrefix(name, FolderName(db, c)))
    && (forall f :: f in Files(db, p) ==> FileName(db, f) != name)
  }

  ghost predicate FitsFile(db: Store, p: int, name: string) {
    CleanName(name) && forall c :: c in Children(db, p) ==> FolderName(db, c) != name
  }

  lemma {:induction false} RootedBefore(db: Store, p: int, name: string, q: int)
    requires Inv(db) && (p == NO_ID || Rooted(db, p)) && Rooted(WithFolder(db, p, name), q)
    ensures q == db.counter || Rooted(db, q)
    decreases q
  {
    hide Inv, WithFolder, Children, Files, FolderName, FileName, Parent;
    var db' := WithFolder(db, p, name);
    if q != ROOT && q != db.counter {
      var r := Parent(db', q);
      NewFolderEmpty(db);
      AfterFolder(db, p, name, q);
      AfterFolder(db, p, name, r);
      RootedBefore(db, p, name, r);
    }
  }

  lemma {:induction false} RootedBeforeFile(db: Store, p: int, name: string, q: int)
    requires Inv(db) && Rooted(WithFile(db, p, name), q)
    ensures Rooted(db, q)
    decreases q
  {
    hide Inv, WithFile, Children, Files, FolderName, FileName, Parent;
    if q != ROOT {
      var r := Parent(WithFile(db, p, name), q);
      AfterFile(db, p, name, q);
      AfterFile(db, p, name, r);
      RootedBeforeFile(db, p, name, r);
    }
  }

  lemma CleanFolderAfterMkdir(db: Store, p: int, name: string, q: int)
    requires Inv(db) && (p == NO_ID || Rooted(db, p))
    ensures CleanFolder(WithFolder(db, p, name), q) <==> CleanFolder(db, q) && (q == p ==> FitsFolder(db, p, name))
  {
    hide Inv, Rooted, WithFolder, Children, Files, FolderName, FileName, Parent, HasPrefix, CleanName;
    var db', id := WithFolder(db, p, name), db.counter;
    AfterFolder(db, p, name, q);
    forall c ensures c in Children(db', q) <==> c in Children(db, q) || (q == p && c == id) {}
    assert q == p ==> id in Children(db', q);
    assert forall c :: c in Children(db, q) ==> c in Children(db', q) && FolderName(db', c) == FolderName(db, c);
    assert forall f :: f in Files(db, q) ==> FileName(db', f) == FileName(db, f);
  }

  lemma CleanFolderAfterCreate(db: Store, p: int, name: string, q: int)
    requires Inv(db)
    ensures CleanFolder(WithFile(db, p, name), q) <==> CleanFolder(db, q) && (q == p ==> FitsFile(db, p, name))
  {
    hide Inv, Rooted, WithFile, Children, Files, FolderName, FileName, Parent, HasPrefix, CleanName;
    var db', id := WithFile(db, p, name), db.counter;
    AfterFile(db, p, name, q);
    forall f ensures f in Files(db', q) <==> f in Files(db, q) || (q == p && f == id) {}
    assert q == p ==> id in Files(db', q);
    assert forall f :: f in Files(db, q) ==> f in Files(db', q) && FileName(db', f) == FileName(db, f);
  }

  lemma NewFolderClean(db: Store, p: int, name: string)
    requires Inv(db) && Rooted(db, p)
    ensures CleanFolder(WithFolder(db, p, name), db.counter)
  {
    hide Inv, WithFolder, FolderName, FileName, Parent;
    NewFolderEmpty(db);
    AfterFolder(db, p, name, db.counter);
  }

  /** Making a folder keeps the name space clean exactly when its name fits among those already there. */
  lemma {:induction false} MkdirKeepsClean(db: Store, p: int, name: string)
    requires Inv(db) && Rooted(db, p)
    ensures Clean(WithFolder(db, p, name)) <==> Clean(db) && FitsFolder(db, p, name)
  {
    hide Inv, Rooted, WithFolder, CleanFolder, FitsFolder;
    var db' := WithFolder(db, p, name);
    MkdirKeepsInv(db, p, name);
    NewFolderClean(db, p, name);
    if Clean(db') {
      forall q | Rooted(db, q) ensures CleanFolder(db, q) && (q == p ==> FitsFolder(db, p, name)) {
        assert CleanFolder(db', q);
        CleanFolderAfterMkdir(db, p, name, q);
      }
    }
    if Clean(db) && FitsFolder(db, p, name) {
      forall q | Rooted(db', q) ensures CleanFolder(db', q) {
        RootedBefore(db, p, name, q);
        assert q != db.counter ==> CleanFolder(db, q);
        CleanFolderAfterMkdir(db, p, name, q);
      }
    }
  }

  /** Making a file keeps it clean exactly when no folder beside it has the name. */
  lemma {:induction false} CreateKeepsClean(db: Store, p: int, name: string)
    requires Inv(db) && Rooted(db, p)
    ensures Clean(WithFile(db, p, name)) <==> Clean(db) && FitsFile(db, p, name)
  {
    hide Inv, Rooted, WithFile, CleanFolder, FitsFile;
    var db' := WithFile(db, p, name);
    CreateKeepsInv(db, p, name);
    if Clean(db') {
      forall q | Rooted(db, q) ensures CleanFolder(db, q) && (q == p ==> FitsFile(db, p, name)) {
        assert CleanFolder(db', q);
        CleanFolderAfterCreate(db, p, name, q);
      }
    }
    if Clean(db) && FitsFile(db, p, name) {
      forall q | Rooted(db', q) ensures CleanFolder(db', q) {
        RootedBeforeFile(db, p, name, q);
        assert CleanFolder(db, q);
        CleanFolderAfterCreate(db, p, name, q);
      }
    }
  }
}
