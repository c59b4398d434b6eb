/**
 What one command does to later ones: when a path that led somewhere still does after a folder or a file has been made,
 and inputs where it does not.
 */
module VfsEffects {
  import opened VfsSpec
  import opened VfsPaths
  import opened VfsNamespace
  import opened VfsCommands

  // ------------------------------------------- what a new folder does to a path

  /** The component would be answered with a folder of this name, newly made in p. */
  ghost predicate Catches(db: Store, p: int, name: string, part: string) {
    && part != "." && part != ".." && HasPrefix(name, part)
    && forall f :: f in Files(db, p) ==> FileName(db, f) != part
  }

  lemma {:induction false} SameNamesLastNamed(db: Store, db': Store, ids: seq<int>, name: string)
    requires forall f :: f in ids ==> FileName(db', f) == FileName(db, f)
    ensures LastNamed(db', ids, name) == LastNamed(db, ids, name)
  {
    hide FileName;
    if ids != [] {
      forall f | f in ids[1..] ensures f in ids {}
      SameNamesLastNamed(db, db', ids[1..], name);
      assert ids[0] in ids;
    }
  }

  lemma {:induction false} SameNamesFirstPrefixed(db: Store, db': Store, ids: seq<int>, name: string)
    requires forall c :: c in ids ==> FolderName(db', c) == FolderName(db, c)
    ensures FirstPrefixed(db', ids, name) == FirstPrefixed(db, ids, name)
  {
    hide FolderName, HasPrefix;
    if ids != [] {
      forall c | c in ids[1..] ensures c in ids {}
      SameNamesFirstPrefixed(db, db', ids[1..], name);
      assert ids[0] in ids;
    }
  }

  lemma FirstOfMore(db: Store, id: int, ids: seq<int>, name: string)
    ensures FirstPrefixed(db, [id] + ids, name) ==
              if HasPrefix(FolderName(db, id), name) then id else FirstPrefixed(db, ids, name)
  {
    hide FolderName, HasPrefix;
    assert ([id] + ids)[1..] == ids;
  }

  /** After mkdir a component is answered with the new folder, or as before. */
  lemma {:induction false} LookupAfterMkdir(db: Store, p: int, name: string, q: int, part: string)
    requires Inv(db) && Rooted(db, p) && Rooted(db, q)
    ensures Lookup(WithFolder(db, p, name), q, part) ==
              if q == p && Catches(db, p, name, part) then Folder(db.counter) else Lookup(db, q, part)
  {
    hide Inv, Rooted, WithFolder, LastNamed, FirstPrefixed, Children, Files, FolderName, FileName, Parent, HasPrefix;
    var db' := WithFolder(db, p, name);
    NotRootedYet(db);
    PositiveCounter(db);
    AfterFolder(db, p, name, q);
    FilesHaveIds(db, q);
    LastNamedFails(db, Files(db, q), part);
    SameNamesLastNamed(db, db', Files(db, q), part);
    SameNamesFirstPrefixed(db, db', Children(db, q), part);
    if q == p {
      FirstOfMore(db', db.counter, Children(db, q), part);
    } else {
      assert [] + Children(db, q) == Children(db, q);
    }
  }

  /** The folders that a walk comes to, after each number of components, are the same in both stores. */
  ghost predicate SameWalk(db: Store, db': Store, d: int, names: seq<string>) {
    forall i :: 0 <= i <= |names| ==> Follow(db', d, names[..i]) == Follow(db, d, names[..i])
  }

  /** No component looked up in p would be answered with the new folder. */
  ghost predicate NeverCaught(db: Store, p: int, name: string, d: int, names: seq<string>) {
    forall i :: 0 <= i < |names| && Follow(db, d, names[..i]) == p ==> !Catches(db, p, name, names[i])
  }

  lemma {:induction false} NextFolder(db: Store, d: int, names: seq<string>, i: nat)
    requires d != NO_ID && i < |names|
    ensures var mid := Follow(db, d, names[..i]);
            Follow(db, d, names[..i + 1]) ==
              if mid != NO_ID && Lookup(db, mid, names[i]).Folder? then Lookup(db, mid, names[i]).id else NO_ID
  {
    hide Follow, Lookup;
    assert names[..i + 1] == names[..i] + [names[i]];
    FollowLast(db, d, names[..i], names[i]);
  }

  lemma {:induction false} UncaughtWalk(db: Store, p: int, name: string, d: int, names: seq<string>, i: nat)
    requires Inv(db) && Rooted(db, p) && Rooted(db, d) && NeverCaught(db, p, name, d, names) && i <= |names|
    ensures Follow(WithFolder(db, p, name), d, names[..i]) == Follow(db, d, names[..i])
    decreases i
  {
    hide Inv, Rooted, WithFolder, Follow, Lookup, Catches;
    var db' := WithFolder(db, p, name);
    if i == 0 {
      NowhereToGo(db, d, names);
      NowhereToGo(db', d, names);
    } else {
      UncaughtWalk(db, p, name, d, names, i - 1);
      RootedNonNegative(db, d);
      NextFolder(db, d, names, i - 1);
      NextFolder(db', d, names, i - 1);
      var mid := Follow(db, d, names[..i - 1]);
      if mid != NO_ID {
        FollowDepth(db, d, names[..i - 1]);
        LookupAfterMkdir(db, p, name, mid, names[i - 1]);
      }
    }
  }

  lemma NowhereToGo(db: Store, d: int, names: seq<string>)
    ensures Follow(db, d, names[..0]) == d
  {
  }

  /**
   Making a folder leaves the way of a path as it was, component by component, exactly when no component that is
   looked up in its parent begins the new name, or a file is in the way.
   */
  lemma {:induction false} MkdirLeavesWalk(db: Store, p: int, name: string, d: int, names: seq<string>)
    requires Inv(db) && Rooted(db, p) && Rooted(db, d)
    ensures SameWalk(db, WithFolder(db, p, name), d, names) <==> NeverCaught(db, p, name, d, names)
  {
    hide Inv, Rooted, WithFolder, Follow, Lookup, Catches;
    var db' := WithFolder(db, p, name);
    if NeverCaught(db, p, name, d, names) {
      forall i | 0 <= i <= |names| ensures Follow(db', d, names[..i]) == Follow(db, d, names[..i]) {
        UncaughtWalk(db, p, name, d, names, i);
      }
    }
    if SameWalk(db, db', d, names) {
      forall i | 0 <= i < |names| && Follow(db, d, names[..i]) == p ensures !Catches(db, p, name, names[i]) {
        RootedNonNegative(db, d);
        RootedNonNegative(db, p);
        NotRootedYet(db);
        PositiveCounter(db);
        NextFolder(db', d, names, i);
        LookupAfterMkdir(db, p, name, p, names[i]);
        assert Follow(db', d, names[..i + 1]) == Follow(db, d, names[..i + 1]);
        if Follow(db, d, names[..i + 1]) != NO_ID {
          FollowDepth(db, d, names[..i + 1]);
        }
      }
    }
  }

  /** Where a path begins, and the components that it spells. */
  function Origin(d: int, path: string): int {
    if path != [] && path[0] == '/' then ROOT else d
  }

  function Steps(path: string): seq<string> {
    Components(if path != [] && path[0] == '/' then path[1..] else path)
  }

  lemma StepsOfNamed(dir: string, name: string)
    requires DirPart(dir) && CleanName(name)
    ensures Steps(dir + name + "/") == Steps(dir) + [name]
    ensures forall d :: Origin(d, dir + name + "/") == Origin(d, dir)
  {
    hide Components, CleanName, DirPart;
    NoSlashAtEnd(name);
    var path, below := dir + name + "/", if dir != [] && dir[0] == '/' then dir[1..] else dir;
    Regroup3(dir, name, "/");
    assert path == dir + (name + "/");
    if dir != [] {
      DirPartHolds(dir);
      assert path[1..] == dir[1..] + (name + "/");
    } else {
      NoPrefixToRemove(name);
    }
    ComponentsOfBoth(below, name + "/");
    OneComponent(name);
  }

  lemma {:induction false} TargetIsFollow(db: Store, d: int, dir: string)
    requires Inv(db) && Slashless(db) && Rooted(db, d) && DirPart(dir)
    ensures Target(db, d, dir) == Follow(db, Origin(d, dir), Steps(dir))
  {
    hide Inv, Slashless, Rooted, ResolveDir, Components, Follow;
    if dir == "" {
      NoComponents();
      NowhereToGo(db, d, []);
    } else {
      ResolveDirIsFollow(db, d, dir);
    }
  }

  lemma {:induction false} NamedIsFollow(db: Store, d: int, dir: string, name: string)
    requires Inv(db) && Slashless(db) && Rooted(db, d) && DirPart(dir) && CleanName(name)
    ensures ResolveDir(db, d, dir + name) == Follow(db, Origin(d, dir), Steps(dir) + [name])
  {
    hide Inv, Slashless, Rooted, ResolveDir, Components, Follow, CleanName, DirPart;
    NoSlashAtEnd(name);
    NoPrefixToRemove(name);
    StepsOfNamed(dir, name);
    var path := dir + name;
    assert path[|path| - 1] == name[|name| - 1];
    assert path[0] == '/' <==> dir != [] && dir[0] == '/';
    ResolveDirIsFollow(db, d, path);
  }

  lemma PartOfItself(db: Store, p: int, name: string)
    requires FitsFolder(db, p, name)
    ensures Catches(db, p, name, name)
  {
    PrefixOfItself(name);
  }

  /** The first component that is not "." is "..": from a folder without anything in it, the way leads up again. */
  predicate ComesBack(names: seq<string>) {
    names != [] && (names[0] == ".." || (names[0] == "." && ComesBack(names[1..])))
  }

  /**
   What a caller can check before mkdir: wherever a component is looked up in p that would be answered with the new
   folder, the path leaves that folder again at once, by "..".
   */
  ghost predicate Harmless(db: Store, p: int, name: string, d: int, names: seq<string>)
    decreases |names|
  {
    names != [] ==>
      var o := Lookup(db, d, names[0]);
      && (d == p && Catches(db, p, name, names[0]) ==> ComesBack(names[1..]))
      && (o.Folder? ==> Harmless(db, p, name, o.id, names[1..]))
  }

  lemma DotsLookup(db: Store, q: int)
    requires q != NO_ID && Parent(db, q) != NO_ID
    requires forall f :: f in Files(db, q) ==> FileName(db, f) != "." && FileName(db, f) != ".."
    ensures Lookup(db, q, ".") == Folder(q) && Lookup(db, q, "..") == Folder(Parent(db, q))
  {
    hide FileName;
    NoneNamed(db, Files(db, q), ".");
    NoneNamed(db, Files(db, q), "..");
  }

  lemma DotsInClean(db: Store, q: int)
    requires Inv(db) && Clean(db) && Rooted(db, q) && q != ROOT
    ensures Lookup(db, q, ".") == Folder(q) && Lookup(db, q, "..") == Folder(Parent(db, q))
  {
    hide Inv, FileName, FolderName, Lookup, Children, HasPrefix;
    assert CleanFolder(db, q);
    RootedNonNegative(db, q);
    DotsLookup(db, q);
  }

  /** In the new folder "." stays, ".." goes to its parent, and nothing else is there. */
  lemma LookupInNew(db: Store, p: int, name: string, part: string)
    requires Inv(db) && Rooted(db, p)
    ensures Lookup(WithFolder(db, p, name), db.counter, part) ==
              if part == "." then Folder(db.counter) else if part == ".." then Folder(p) else Nothing
  {
    hide Inv, WithFolder, Children, Files, FolderName, FileName, Parent;
    NewFolderEmpty(db);
    NotRootedYet(db);
    RootedNonNegative(db, p);
    AfterFolder(db, p, name, db.counter);
    PositiveCounter(db);
  }

  /** A component that is caught was answered with a child before, if with a folder at all. */
  lemma CaughtWasChild(db: Store, p: int, name: string, part: string)
    requires Inv(db) && Rooted(db, p) && Catches(db, p, name, part) && Lookup(db, p, part).Folder?
    ensures var q := Lookup(db, p, part).id; Rooted(db, q) && Parent(db, q) == p && p < q
  {
    hide Inv, Rooted, HasPrefix, FirstPrefixed, LastNamed, Children, Files, FileName;
    ChildRooted(db, p, Lookup(db, p, part).id);
  }

  /** The walk is where it was before: it ends in the new folder exactly if the rest of it is harmless. */
  lemma {:induction false} OnCourse(db: Store, p: int, name: string, d: int, names: seq<string>)
    requires Inv(db) && Clean(db) && Rooted(db, p) && Rooted(db, d) && FitsFolder(db, p, name)
    requires Follow(db, d, names) == p
    ensures Follow(WithFolder(db, p, name), d, names + [name]) == db.counter <==> Harmless(db, p, name, d, names)
    decreases |names|
  {
    hide Inv, Clean, Rooted, WithFolder, Lookup, Catches, FitsFolder;
    var db' := WithFolder(db, p, name);
    RootedNonNegative(db, p);
    PositiveCounter(db);
    if names == [] {
      assert names + [name] == [name] + [];
      LookupAfterMkdir(db, p, name, p, name);
      PartOfItself(db, p, name);
      FollowFirst(db', p, name, []);
    } else {
      var rest, q := names[1..], Lookup(db, d, names[0]).id;
      assert names + [name] == [names[0]] + (rest + [name]);
      FollowFirst(db', d, names[0], rest + [name]);
      LookupAfterMkdir(db, p, name, d, names[0]);
      LookupDepth(db, d, names[0]);
      if d == p && Catches(db, p, name, names[0]) {
        CaughtWasChild(db, p, name, names[0]);
        InNewFolder(db, p, name, q, rest);
      } else {
        OnCourse(db, p, name, q, rest);
      }
    }
  }

  /** The walk is in the new folder instead of q: it ends there only if it comes back and is harmless from then on. */
  lemma {:induction false} InNewFolder(db: Store, p: int, name: string, q: int, names: seq<string>)
    requires Inv(db) && Clean(db) && Rooted(db, p) && Rooted(db, q) && FitsFolder(db, p, name)
    requires Parent(db, q) == p && p < q && Follow(db, q, names) == p
    ensures Follow(WithFolder(db, p, name), db.counter, names + [name]) == db.counter <==>
            ComesBack(names) && Harmless(db, p, name, q, names)
    decreases |names|
  {
    hide Inv, Clean, Rooted, WithFolder, Lookup, Catches, FitsFolder;
    var db' := WithFolder(db, p, name);
    RootedNonNegative(db, p);
    PositiveCounter(db);
    if names != [] {
      var rest := names[1..];
      assert names + [name] == [names[0]] + (rest + [name]);
      FollowFirst(db', db.counter, names[0], rest + [name]);
      LookupInNew(db, p, name, names[0]);
      DotsInClean(db, q);
      if names[0] == "." {
        InNewFolder(db, p, name, q, rest);
      } else if names[0] == ".." {
        OnCourse(db, p, name, p, rest);
      }
    }
  }

  /** The path that the folder was made with leads to it exactly if that path is harmless. */
  lemma {:induction false} SamePathLeadsToNew(db: Store, d: int, dir: string, name: string)
    requires Inv(db) && Clean(db) && Rooted(db, d) && DirPart(dir) && CleanName(name)
    requires var t := Target(db, d, dir); t != NO_ID && Rooted(db, t) && FitsFolder(db, t, name)
    ensures var t := Target(db, d, dir);
            ResolveDir(WithFolder(db, t, name), d, dir + name) == db.counter <==>
            Harmless(db, t, name, Origin(d, dir), Steps(dir))
  {
    hide Inv, Clean, Slashless, Rooted, ResolveDir, Components, Follow, CleanName, DirPart, FitsFolder;
    hide WithFolder, Target, Harmless;
    var t := Target(db, d, dir);
    CleanIsSlashless(db);
    MkdirKeepsInv(db, t, name);
    NoSlashAtEnd(name);
    SlashlessAfter(db, t, name);
    NamedIsFollow(WithFolder(db, t, name), d, dir, name);
    TargetIsFollow(db, d, dir);
    RootRooted(db);
    OnCourse(db, t, name, Origin(d, dir), Steps(dir));
  }

  /**
   mkdir, then cd to the folder made: by the path of its parent and its name always, and by the path that mkdir was
   given if and only if that path is harmless, as a single name is.
   */
  lemma {:induction false} MkdirThenCd(db: Store, d: int, dir: string, name: string)
    requires Inv(db) && Clean(db) && Rooted(db, d) && DirPart(dir) && CleanName(name)
    ensures var t := Target(db, d, dir);
            var made := Made(db, AbsPath(db, d), NewFolder, dir + name);
            if t == NO_ID then made == (db, Returned(false))
            else FitsFolder(db, t, name) ==>
              && made.1 == Returned(true) && Clean(made.0) && Inv(made.0) && Rooted(db, t)
              && Moved(made.0, AbsPath(db, d), AbsPath(db, t) + name) == (AbsPath(db, t) + name + "/", Returned(true))
              && (Moved(made.0, AbsPath(db, d), dir + name) == (AbsPath(db, t) + name + "/", Returned(true)) <==>
                  Harmless(db, t, name, Origin(d, dir), Steps(dir)))
    ensures dir == "" ==> Harmless(db, Target(db, d, dir), name, Origin(d, dir), Steps(dir))
  {
    hide Inv, Clean, Rooted, ResolveDir, AbsPath, Made, Moved, WithFolder, Target, AllFindable, CleanName, Components;
    hide Slashless, DirPart, Lookup;
    var t := Target(db, d, dir);
    NoComponents();
    MadeInTarget(db, d, NewFolder, dir, name);
    if t != NO_ID && FitsFolder(db, t, name) {
      TargetRooted(db, d, dir);
      MkdirKeepsInv(db, t, name);
      MkdirKeepsClean(db, t, name);
      CleanIsSlashless(db);
      CleanAllFindable(db, t);
      var db' := WithFolder(db, t, name);
      AbsPathAfterFolder(db, t, name, d);
      NewFolderResolves(db, d, t, name);
      PositiveCounter(db);
      CdGoesWhereThePathLeads(db', d, AbsPath(db, t) + name);
      SamePathLeadsToNew(db, d, dir, name);
      NoSlashAtEnd(name);
      CdGoesWhereThePathLeads(db', d, dir + name);
      var id := ResolveDir(db', d, dir + name);
      if id != NO_ID {
        CleanRoundTrip(db', d, id);
        CleanRoundTrip(db', d, db.counter);
      }
    }
  }

  lemma TargetRooted(db: Store, d: int, dir: string)
    requires Inv(db) && Rooted(db, d) && Target(db, d, dir) != NO_ID
    ensures Rooted(db, Target(db, d, dir))
  {
    hide Inv, Rooted, Resolve;
    if dir != "" {
      ResolveRooted(db, d, WithSlash(dir), |WithSlash(dir)|);
    }
  }

  /**
   The current folder is kept as a path. Making a folder leaves that path leading to the same folder exactly when
   the new name does not begin with the name of a folder on the way that is its sibling.
   */
  lemma {:induction false} CurrentFolderStays(db: Store, c: int, d: int, p: int, name: string)
    requires Inv(db) && Slashless(db) && Rooted(db, d) && Rooted(db, p) && '/' !in name
    requires forall a :: OnTheWay(db, a, d) ==> Findable(db, a)
    ensures ResolveDir(WithFolder(db, p, name), c, AbsPath(db, d)) == d <==>
            forall a :: OnTheWay(db, a, d) && Parent(db, a) == p ==> !HasPrefix(name, FolderName(db, a))
  {
    hide Inv, Slashless, Rooted, WithFolder, OnTheWay, Findable, FolderName, HasPrefix, Parent, ResolveDir, AbsPath;
    var db' := WithFolder(db, p, name);
    MkdirKeepsInv(db, p, name);
    SlashlessAfter(db, p, name);
    AbsPathAfterFolder(db, p, name, d);
    RoundTripExactly(db', c, d);
    forall a
      ensures OnTheWay(db', a, d) <==> OnTheWay(db, a, d)
      ensures OnTheWay(db, a, d) ==>
                (Findable(db', a) <==> !(Parent(db, a) == p && HasPrefix(name, FolderName(db, a))))
    {
      SameWay(db, p, name, a, d);
      if OnTheWay(db, a, d) {
        WayIsOlder(db, a, d);
        MkdirHides(db, p, name, a);
      }
    }
  }

  lemma {:induction false} SlashlessAfterFile(db: Store, p: int, name: string)
    requires Inv(db) && Slashless(db) && '/' !in name
    ensures Slashless(WithFile(db, p, name))
  {
    hide Inv, Rooted, WithFile, FolderName, FileName, Children, Files, Parent;
    var db' := WithFile(db, p, name);
    forall q | Rooted(db', q) ensures NoSlashIn(db', q) {
      RootedBeforeFile(db, p, name, q);
      AfterFile(db, p, name, q);
      assert NoSlashIn(db, q);
      forall f | f in Files(db', q) ensures '/' !in FileName(db', f) {
        if f in Files(db, q) {} else { assert f == db.counter; }
      }
    }
  }

  lemma {:induction false} SameWayFile(db: Store, p: int, name: string, a: int, id: int)
    requires Inv(db) && Rooted(db, id) && Rooted(WithFile(db, p, name), id)
    ensures OnTheWay(WithFile(db, p, name), a, id) <==> OnTheWay(db, a, id)
    decreases id
  {
    hide Inv, WithFile, Children, Parent;
    AfterFile(db, p, name, id);
    if id != ROOT {
      SameWayFile(db, p, name, a, Parent(db, id));
    }
  }

  /**
   The same for a file: the path of the current folder leads to it still exactly when no folder on the way that lies
   in the same folder has that name.
   */
  lemma {:induction false} CurrentFolderStaysWithFile(db: Store, c: int, d: int, p: int, name: string)
    requires Inv(db) && Slashless(db) && Rooted(db, d) && Rooted(db, p) && '/' !in name
    requires forall a :: OnTheWay(db, a, d) ==> Findable(db, a)
    ensures ResolveDir(WithFile(db, p, name), c, AbsPath(db, d)) == d <==>
            forall a :: OnTheWay(db, a, d) && Parent(db, a) == p ==> FolderName(db, a) != name
  {
    hide Inv, Slashless, Rooted, WithFile, OnTheWay, Findable, FolderName, Parent, ResolveDir, AbsPath;
    var db' := WithFile(db, p, name);
    CreateKeepsInv(db, p, name);
    SlashlessAfterFile(db, p, name);
    AbsPathAfterFile(db, p, name, d);
    RoundTripExactly(db', c, d);
    forall a
      ensures OnTheWay(db', a, d) <==> OnTheWay(db, a, d)
      ensures OnTheWay(db, a, d) ==> (Findable(db', a) <==> !(Parent(db, a) == p && FolderName(db, a) == name))
    {
      SameWayFile(db, p, name, a, d);
      if OnTheWay(db, a, d) {
        WayIsOlder(db, a, d);
        CreateHides(db, p, name, a);
      }
    }
  }

  lemma BuildIsClean()
    ensures Inv(Build()) && Clean(Build()) && Rooted(Build(), ROOT) && AbsPath(Build(), ROOT) == "/"
  {
  }

  /** After mkdir a and mkdir ab, cd a goes to ab: the newest folder whose name begins with a. */
  lemma {:induction false} PrefixWins()
    ensures var db1 := Made(Build(), "/", NewFolder, "a").0;
            && Inv(db1)
            && var db2 := Made(db1, "/", NewFolder, "ab").0;
            && Inv(db2) && Moved(db2, "/", "a") == ("/ab/", Returned(true))
  {
    hide Made, Moved, ResolveDir, Inv, Clean, AbsPath, Rooted;
    var db0 := Build();
    BuildIsClean();
    assert "" + "a" == "a" && "" + "ab" == "ab";
    MadeInTarget(db0, ROOT, NewFolder, "", "a");
    var db1 := WithFolder(db0, ROOT, "a");
    MkdirKeepsInv(db0, ROOT, "a");
    MkdirKeepsClean(db0, ROOT, "a");
    RootPath(db1);
    MadeInTarget(db1, ROOT, NewFolder, "", "ab");
    var db2 := WithFolder(db1, ROOT, "ab");
    MkdirKeepsInv(db1, ROOT, "ab");
    CleanIsSlashless(db1);
    SlashlessAfter(db1, ROOT, "ab");
    TwoFolders();
    CdFromRoot(db2, "a", 2);
    NewFolderPath(db1, ROOT, "ab");
    assert "/" + "ab" + "/" == "/ab/";
  }

  lemma TwoFolders()
    ensures var db := WithFolder(WithFolder(Build(), ROOT, "a"), ROOT, "ab");
            Lookup(db, ROOT, "a") == Folder(2)
  {
    var db := WithFolder(WithFolder(Build(), ROOT, "a"), ROOT, "ab");
    assert Children(db, ROOT) == [2, 1];
    assert FolderName(db, 2) == "ab";
  }

  lemma CdFromRoot(db: Store, name: string, id: int)
    requires Inv(db) && Slashless(db) && CleanName(name) && Lookup(db, ROOT, name) == Folder(id)
    ensures Rooted(db, ROOT) && Rooted(db, id) && Moved(db, "/", name) == (AbsPath(db, id), Returned(true))
  {
    hide Inv, Lookup, Walk, AbsPath, CleanName, ResolveDir, Slashless;
    NoPrefixToRemove(name);
    NoSlashAtEnd(name);
    LookupDepth(db, ROOT, name);
    RootResolves(db, ROOT);
    RootPath(db);
    ResolveDirIsFollow(db, ROOT, "/" + name);
    assert WithSlash("/" + name)[1..] == name + "/";
    OneComponent(name);
    FollowFirst(db, ROOT, name, []);
    assert [name] + [] == [name];
  }

  lemma RootResolves(db: Store, c: int)
    ensures ResolveDir(db, c, "/") == ROOT
  {
  }

  lemma FirstComponent(name: string, rest: string)
    requires '/' !in name
    ensures Components(name + "/" + rest) == [name] + Components(rest)
  {
    hide Components;
    OneComponent(name);
    ComponentsOfBoth(name + "/", rest);
  }

  lemma DetourSteps()
    ensures Steps("ab/x/../../") == ["ab", "x", "..", ".."]
  {
    hide Components;
    var d: string := ".." + "/" + "";
    var c := ".." + "/" + d;
    var b := "x" + "/" + c;
    FirstComponent("..", "");
    FirstComponent("..", d);
    FirstComponent("x", c);
    FirstComponent("ab", b);
    NoComponents();
    assert "ab" + "/" + b == "ab/x/../../";
  }

  /** abc with x inside: where the way ab, x, .., .. leads before and after a folder abd is made in the root. */
  lemma Detour()
    ensures var db := WithFolder(WithFolder(Build(), ROOT, "abc"), 1, "x");
            && Follow(db, ROOT, ["ab", "x", "..", ".."]) == ROOT
            && Follow(WithFolder(db, ROOT, "abd"), ROOT, ["ab", "x", "..", ".."] + ["abd"]) == NO_ID
  {
    hide Lookup, WithFolder;
    var db := WithFolder(WithFolder(Build(), ROOT, "abc"), 1, "x");
    var db' := WithFolder(db, ROOT, "abd");
    DetourLookups();
    var after: seq<string> := ["..", ".."];
    FollowFirst(db, 1, "..", []);
    FollowFirst(db, 2, "..", [".."]);
    FollowFirst(db, 1, "x", after);
    FollowFirst(db, ROOT, "ab", ["x"] + after);
    assert [".."] + [] == [".."] && [".."] + [".."] == after && ["ab"] + (["x"] + after) == ["ab", "x", "..", ".."];
    FollowFirst(db', 3, "x", after + ["abd"]);
    FollowFirst(db', ROOT, "ab", ["x"] + (after + ["abd"]));
    assert ["ab"] + (["x"] + (after + ["abd"])) == ["ab", "x", "..", ".."] + ["abd"];
  }

  lemma DetourLookups()
    ensures var db := WithFolder(WithFolder(Build(), ROOT, "abc"), 1, "x");
            && Lookup(db, ROOT, "ab") == Folder(1) && Lookup(db, 1, "x") == Folder(2)
            && Lookup(db, 2, "..") == Folder(1) && Lookup(db, 1, "..") == Folder(ROOT)
            && Lookup(WithFolder(db, ROOT, "abd"), ROOT, "ab") == Folder(3)
            && Lookup(WithFolder(db, ROOT, "abd"), 3, "x") == Nothing
  {
    var db := WithFolder(WithFolder(Build(), ROOT, "abc"), 1, "x");
    var db' := WithFolder(db, ROOT, "abd");
    assert Children(db, ROOT) == [1] && Children(db, 1) == [2];
    assert Children(db', ROOT) == [3, 1] && Children(db', 3) == [];
    assert FolderName(db, 1) == "abc" && FolderName(db, 2) == "x" && FolderName(db', 3) == "abd";
  }

  /**
   In a clean name space mkdir may break the very path it was given: with x in abc, mkdir ab/x/../../abd makes abd in
   the root, and then ab is abd, which holds no x, so that cd with the same path fails.
   */
  lemma {:induction false} SamePathMayFail()
    ensures var db := WithFolder(WithFolder(Build(), ROOT, "abc"), 1, "x");
            var path := "ab/x/../../abd";
            && Inv(db) && Clean(db)
            && var made := Made(db, "/", NewFolder, path);
            && made.1 == Returned(true) && Inv(made.0) && Clean(made.0)
            && Moved(made.0, "/", path) == ("/", Returned(false))
  {
    hide Made, Moved, ResolveDir, Inv, Clean, AbsPath, Rooted, WithFolder, Follow, Components, Slashless;
    var db1 := WithFolder(Build(), ROOT, "abc");
    var db := WithFolder(db1, 1, "x");
    var db' := WithFolder(db, ROOT, "abd");
    var dir := "ab/x/../../";
    assert dir + "abd" == "ab/x/../../abd";
    DetourIsClean();
    RootRooted(db);
    RootRooted(db');
    RootPath(db);
    RootPath(db');
    CleanIsSlashless(db);
    CleanIsSlashless(db');
    DetourSteps();
    Detour();
    TargetIsFollow(db, ROOT, dir);
    MadeInTarget(db, ROOT, NewFolder, dir, "abd");
    NamedIsFollow(db', ROOT, dir, "abd");
    CdGoesWhereThePathLeads(db', ROOT, dir + "abd");
  }

  lemma DetourIsClean()
    ensures var db := WithFolder(WithFolder(Build(), ROOT, "abc"), 1, "x");
            Inv(db) && Clean(db) && Inv(WithFolder(db, ROOT, "abd")) && Clean(WithFolder(db, ROOT, "abd"))
  {
    hide Inv, Clean, Rooted, WithFolder, FitsFolder;
    var db0 := Build();
    var db1 := WithFolder(db0, ROOT, "abc");
    var db2 := WithFolder(db1, 1, "x");
    BuildIsClean();
    DetourFits();
    MkdirKeepsInv(db0, ROOT, "abc");
    MkdirKeepsClean(db0, ROOT, "abc");
    MkdirKeepsInv(db1, 1, "x");
    MkdirKeepsClean(db1, 1, "x");
    MkdirKeepsInv(db2, ROOT, "abd");
    MkdirKeepsClean(db2, ROOT, "abd");
  }

  lemma DetourFits()
    ensures var db1 := WithFolder(Build(), ROOT, "abc");
            && Build().counter == 1 && FitsFolder(Build(), ROOT, "abc") && FitsFolder(db1, 1, "x")
            && FitsFolder(WithFolder(db1, 1, "x"), ROOT, "abd")
  {
    var db1 := WithFolder(Build(), ROOT, "abc");
    var db2 := WithFolder(db1, 1, "x");
    assert Children(db2, ROOT) == [1] && FolderName(db2, 1) == "abc";
    assert "abc"[2] != "abd"[2];
  }

  // -------------------------------------------------------------- odd paths

  /** mkdir on "/" makes a folder, called "/", that no folder of the tree holds. */
  lemma MkdirRoot()
    ensures Made(Build(), "/", NewFolder, "/") == (WithFolder(Build(), NO_ID, "/"), Returned(true))
    ensures !Rooted(WithFolder(Build(), NO_ID, "/"), Build().counter)
  {
    hide Walk;
    BuildIsClean();
    assert RemovePrefix("/") == "" && "/" + "" == "/";
  }

  /** The first component of a walk. */
  lemma WalkFirst(db: Store, d: int, name: string, rest: string)
    requires '/' !in name
    ensures var path := name + "/" + rest;
            var o := FindObject(db, d, path, |name|);
            Walk(db, d, path, |path|) == if o.Folder? then Walk(db, o.id, rest, |rest|) else NO_ID
  {
    hide FindObject;
    var path := name + "/" + rest;
    assert path[..|path|] == path && path[..|name|] == name && path[|name|] == '/' && path[|name| + 1..] == rest;
    NextLengthIs(path, |name|);
  }

  /** A folder whose name keeps the slash: it is found by the name without it, and below it nothing is. */
  lemma SlashLookups(db: Store)
    requires db == WithFolder(Build(), ROOT, "a/")
    ensures FindObject(db, ROOT, "a/", 1) == Folder(1) && FindObject(db, ROOT, "a//", 1) == Folder(1)
    ensures FindObject(db, 1, "/", 0) == Nothing
  {
    assert Children(db, ROOT) == [1] && FolderName(db, 1) == "a/" && Children(db, 1) == [];
  }

  lemma SlashWalks(db: Store)
    requires db == WithFolder(Build(), ROOT, "a/")
    ensures Walk(db, ROOT, "a/", 2) == 1 && Walk(db, ROOT, "a//", 3) == NO_ID
  {
    hide FindObject, WithFolder;
    SlashLookups(db);
    assert "a" + "/" + "" == "a/" && "a" + "/" + "/" == "a//" && "" + "/" + "" == "/";
    WalkFirst(db, ROOT, "a", "");
    WalkFirst(db, ROOT, "a", "/");
    WalkFirst(db, 1, "", "");
  }

  lemma SlashResolves(db: Store, c: int)
    requires db == WithFolder(Build(), ROOT, "a/")
    ensures ResolveDir(db, c, "/a/") == 1 && ResolveDir(db, c, "/a//") == NO_ID
  {
    hide Walk, WithFolder;
    SlashWalks(db);
    assert "/a/"[1..] == "a/" && "/a//"[1..] == "a//";
  }

  lemma SlashParses()
    ensures var r := ParsePath(Build(), "/a/", ROOT);
            r.Some? && r.value.parentId == ROOT && r.value.nameOffset == 1
  {
    hide Walk;
    assert "/a/"[..2] == "/" + "a" && "/a/"[1..] == "a/";
    NameOffsetIs("/", "a");
    NothingToWalk(Build(), ROOT, "a/");
    assert LastFile(Build(), [], "a/", 1) == NO_ID && FirstFolder(Build(), [], "a/", 1) == NO_ID;
  }

  lemma NothingToWalk(db: Store, d: int, path: string)
    requires |path| > 0 && path[0] != '/'
    ensures Walk(db, d, path, 1) == d
  {
    NextLengthIs(path[..1], 1);
  }

  /**
   After mkdir a/ and cd a/ the current path is /a//, which leads nowhere: from then on every command with a relative
   path throws.
   */
  lemma {:induction false} SlashInName(path: string)
    requires path != [] && path[0] != '/'
    ensures var made := Made(Build(), "/", NewFolder, "a/");
            && made == (WithFolder(Build(), ROOT, "a/"), Returned(true)) && Inv(made.0)
            && Moved(made.0, "/", "a/") == ("/a//", Returned(true))
            && Moved(made.0, "/a//", path) == ("/a//", Threw)
            && forall kind :: Made(made.0, "/a//", kind, path) == (made.0, Threw)
  {
    hide Inv, Rooted, ParsePath, ResolveDir, WithFolder, AbsPath;
    var db0 := Build();
    var db := WithFolder(db0, ROOT, "a/");
    BuildIsClean();
    MkdirKeepsInv(db0, ROOT, "a/");
    RootRooted(db);
    RootPath(db);
    RootResolves(db0, ROOT);
    RootResolves(db, ROOT);
    assert "/" + "a/" == "/a/" && RemovePrefix("a/") == "a/" && "/a/"[1..] == "a/";
    SlashParses();
    SlashResolves(db, ROOT);
    NewFolderPath(db0, ROOT, "a/");
    assert "/" + "a/" + "/" == "/a//";
    SlashResolves(db, NO_ID);
  }
}
