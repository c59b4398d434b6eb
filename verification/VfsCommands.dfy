/** The three commands that change something, as functions on the store and the current path. */
module VfsCommands {
  import opened Bytes
  import opened VfsSpec
  import opened VfsPaths
  import opened VfsNamespace

  datatype Outcome = Threw | Returned(ok: bool)

  datatype Entry = NewFolder | NewFile

  function With(db: Store, kind: Entry, p: int, name: string): Store {
    if kind.NewFolder? then WithFolder(db, p, name) else WithFile(db, p, name)
  }

  /** mkdir and createFile of the wrapper: whatever is at the path already, a new entry is made. */
  function Made(db: Store, cwd: string, kind: Entry, path: string): (Store, Outcome)
    requires Inv(db) && cwd != [] && cwd[0] == '/'
  {
    match FormatPath(db, cwd, path)
    case None => (db, Threw)
    case Some(full) =>
      match ParsePath(db, full, ResolveDir(db, ROOT, cwd))
      case None => (db, Returned(false))
      case Some(parse) => (With(db, kind, parse.parentId, full[parse.nameOffset..]), Returned(true))
  }

  /** cd: the new current path. */
  function Moved(db: Store, cwd: string, path: string): (string, Outcome)
    requires Inv(db) && cwd != [] && cwd[0] == '/'
  {
    match FormatPath(db, cwd, path)
    case None => (cwd, Threw)
    case Some(full) =>
      var id := ResolveDir(db, ResolveDir(db, ROOT, cwd), full);
      if id == NO_ID then (cwd, Returned(false))
      else
        ResolveRooted(db, ResolveDir(db, ROOT, cwd), WithSlash(full), |WithSlash(full)|);
        (AbsPath(db, id), Returned(true))
  }

  lemma ParsedParentRooted(db: Store, path: string, cwd: int)
    requires Inv(db) && path != [] && path[0] == '/'
    ensures var r := ParsePath(db, path, cwd);
            r.Some? ==> r.value.parentId == NO_ID || Rooted(db, r.value.parentId)
  {
    hide Inv, Rooted, FindObject, Walk, Parent;
    var len := FixedLength(path);
    var offset := NameOffset(path[..len]);
    var dir := Resolve(db, ROOT, path, len);
    ResolveRooted(db, ROOT, path, len);
    if dir != NO_ID && offset < len && FindObject(db, dir, path[offset..], len - offset).Folder? {
      FoundRooted(db, dir, path[offset..], len - offset);
      ParentRooted(db, FindObject(db, dir, path[offset..], len - offset).id);
    }
  }

  /** Every command keeps the tree, whatever the path. */
  lemma {:induction false} MadeKeepsInv(db: Store, cwd: string, kind: Entry, path: string)
    requires Inv(db) && cwd != [] && cwd[0] == '/'
    ensures Inv(Made(db, cwd, kind, path).0)
    ensures forall id :: Rooted(db, id) ==>
              Rooted(Made(db, cwd, kind, path).0, id) && AbsPath(Made(db, cwd, kind, path).0, id) == AbsPath(db, id)
  {
    hide Inv, Rooted, WithFolder, WithFile, ParsePath, FormatPath, ResolveDir, AbsPath;
    var full := FormatPath(db, cwd, path);
    if full.Some? {
      var parse := ParsePath(db, full.value, ResolveDir(db, ROOT, cwd));
      if parse.Some? {
        ParsedParentRooted(db, full.value, ResolveDir(db, ROOT, cwd));
        WithKeepsInv(db, kind, parse.value.parentId, full.value[parse.value.nameOffset..]);
      }
    }
  }

  lemma WithKeepsInv(db: Store, kind: Entry, p: int, name: string)
    requires Inv(db) && (p == NO_ID || Rooted(db, p))
    ensures Inv(With(db, kind, p, name))
    ensures forall id :: Rooted(db, id) ==>
              Rooted(With(db, kind, p, name), id) && AbsPath(With(db, kind, p, name), id) == AbsPath(db, id)
  {
    hide Inv, Rooted, WithFolder, WithFile, AbsPath;
    if kind.NewFolder? {
      MkdirKeepsInv(db, p, name);
    } else {
      CreateKeepsInv(db, p, name);
    }
    forall id | Rooted(db, id)
      ensures Rooted(With(db, kind, p, name), id) && AbsPath(With(db, kind, p, name), id) == AbsPath(db, id)
    {
      if kind.NewFolder? {
        AbsPathAfterFolder(db, p, name, id);
      } else {
        AbsPathAfterFile(db, p, name, id);
      }
    }
  }

  // ----------------------------------------------------- where a new entry goes

  predicate DirPart(dir: string) { dir == "" || dir[|dir| - 1] == '/' }

  /** The folder meant by the part of a path before its last name. */
  function Target(db: Store, d: int, dir: string): int {
    if dir == "" then d else ResolveDir(db, d, dir)
  }

  lemma {:induction false} NameOffsetIs(dir: string, name: string)
    requires DirPart(dir) && '/' !in name
    ensures NameOffset(dir + name) == |dir|
    decreases |name|
  {
    if name == "" {
      assert dir + name == dir;
    } else {
      var front := name[..|name| - 1];
      assert (dir + name)[..|dir + name| - 1] == dir + front;
      assert (dir + name)[|dir + name| - 1] == name[|name| - 1];
      NameOffsetIs(dir, front);
    }
  }

  /** A name looked up at the end of a path: there is nothing after it. */
  lemma FindAtEnd(db: Store, dir: int, name: string)
    requires Inv(db) && Rooted(db, dir) && CleanName(name)
    ensures var o := FindObject(db, dir, name, |name|);
            o.Folder? ==> Parent(db, o.id) == dir
  {
    hide Inv, Rooted, LastFile, FirstFolder, Children, Files;
    var d := FindFolder(db, dir, name, |name|);
    assert name == "." <==> |name| == 1 && name[0] == '.';
    assert name == ".." <==> |name| == 2 && name[0] == '.' && name[1] == '.';
    if d != NO_ID {
      ChildRooted(db, dir, d);
    }
  }

  lemma NamedPath(above: string, name: string)
    requires above != [] && above[0] == '/' && DirPart(above) && CleanName(name)
    ensures var full := above + name;
            && full != [] && full[0] == '/' && FixedLength(full) == |full| > 0 && full[..|full|] == full
            && NameOffset(full) == |above| < |full| && full[|above|..] == name
  {
    hide DirPart, NameOffset, CleanName;
    NoSlashAtEnd(name);
    NameOffsetIs(above, name);
    assert (above + name)[..|above + name|] == above + name;
  }

  lemma ResolveNamed(db: Store, cwd: int, above: string, name: string)
    requires Inv(db) && Slashless(db) && above != [] && above[0] == '/' && DirPart(above) && '/' !in name
    ensures Resolve(db, cwd, above + name, |above + name|) == Follow(db, ROOT, Components(above[1..]))
  {
    hide Inv, Slashless, Follow, Walk, Components, DirPart;
    var full := above + name;
    WalkIsFollow(db, ROOT, full[1..], |full| - 1);
    assert full[1..][..|full| - 1] == full[1..] == above[1..] + name;
    DirPartHolds(above);
    ComponentsOfBoth(above[1..], name);
    NoComponent(name);
    assert Components(above[1..]) + [] == Components(above[1..]);
  }

  /** Parsing an absolute path that ends in a proper name. */
  lemma ParsedName(db: Store, cwd: int, above: string, name: string)
    requires Inv(db) && Slashless(db) && above != [] && above[0] == '/' && DirPart(above) && CleanName(name)
    ensures var dir := Follow(db, ROOT, Components(above[1..]));
            var r := ParsePath(db, above + name, cwd);
            if dir == NO_ID then r == None
            else r.Some? && r.value.parentId == dir && r.value.nameOffset == |above|
  {
    hide Inv, Slashless, Follow, FindObject, Resolve, Components, Parent, DirPart, CleanName, FixedLength, NameOffset;
    var dir := Follow(db, ROOT, Components(above[1..]));
    NamedPath(above, name);
    NoSlashAtEnd(name);
    ResolveNamed(db, ROOT, above, name);
    if dir != NO_ID {
      FollowDepth(db, ROOT, Components(above[1..]));
      FindAtEnd(db, dir, name);
    }
  }

  lemma NoSlashAtEnd(name: string)
    requires CleanName(name)
    ensures name != "" && name[|name| - 1] != '/' && '/' !in name
  {
  }

  lemma DirPartHolds(above: string)
    requires DirPart(above) && above != []
    ensures above[|above| - 1] == '/' && (above[1..] == "" || above[1..][|above[1..]| - 1] == '/')
  {
  }

  lemma NoComponent(name: string)
    requires '/' !in name
    ensures Components(name) == []
  {
    NextLengthIs(name, |name|);
  }

  lemma RemovePrefixOfBoth(dir: string, name: string)
    requires dir != "" && DirPart(dir) && '/' !in name
    ensures RemovePrefix(dir + name) == RemovePrefix(dir) + name
  {
    if dir[0] != '/' {
      assert (dir + name)[..2] == dir[..2];
    }
  }

  lemma NoPrefixToRemove(name: string)
    requires CleanName(name)
    ensures name[0] != '/' && RemovePrefix(name) == name
  {
    if |name| >= 2 {
      assert name[..2][1] == name[1] != '/';
    }
  }

  /** The absolute form of a path that ends in a proper name: the folder part made absolute, and the name. */
  lemma FormattedNamed(db: Store, d: int, dir: string, name: string)
    requires Inv(db) && Clean(db) && Rooted(db, d) && DirPart(dir) && CleanName(name)
    ensures exists above ::
              && FormatPath(db, AbsPath(db, d), dir + name) == Some(above + name)
              && above != [] && above[0] == '/' && DirPart(above)
              && Follow(db, ROOT, Components(above[1..])) == Target(db, d, dir)
  {
    hide Inv, Clean, ResolveDir, AbsPath, Follow, Components, CleanName, RemovePrefix, Names;
    var cwd := AbsPath(db, d);
    CleanIsSlashless(db);
    NoSlashAtEnd(name);
    if dir == "" {
      assert dir + name == name;
      NoPrefixToRemove(name);
      CleanRoundTrip(db, ROOT, d);
      CleanRoundTrip(db, ResolveDir(db, ROOT, cwd), d);
      RootedNonNegative(db, d);
      AbsPathComponents(db, d);
      CleanAllFindable(db, d);
      NamesLeadBack(db, d);
      assert FormatPath(db, cwd, dir + name) == Some(cwd + name);
    } else {
      FormattedPathMeansSame(db, ROOT, d, dir);
      var above := FormatPath(db, cwd, dir).value;
      RemovePrefixOfBoth(dir, name);
      FormatOfBoth(db, cwd, dir, name);
      AbsoluteEndsInSlash(db, cwd, dir);
      ResolveDirIsFollow(db, ROOT, above);
      assert FormatPath(db, cwd, dir + name) == Some(above + name);
    }
  }

  lemma FormatOfBoth(db: Store, cwd: string, dir: string, name: string)
    requires Inv(db) && cwd != [] && cwd[0] == '/' && dir != "" && DirPart(dir) && '/' !in name
    requires FormatPath(db, cwd, dir).Some?
    ensures FormatPath(db, cwd, dir + name) == Some(FormatPath(db, cwd, dir).value + name)
  {
    hide Inv, ResolveDir, AbsPath, RemovePrefix, DirPart;
    RemovePrefixOfBoth(dir, name);
    var left := LeftSide(db, cwd, dir);
    LeftSideRooted(db, cwd, dir);
    Regroup3(AbsPath(db, left), RemovePrefix(dir), name);
  }

  lemma AbsoluteEndsInSlash(db: Store, cwd: string, dir: string)
    requires Inv(db) && cwd != [] && cwd[0] == '/' && dir != "" && DirPart(dir) && FormatPath(db, cwd, dir).Some?
    ensures var above := FormatPath(db, cwd, dir).value; DirPart(above) && WithSlash(above) == above
  {
    hide Inv, ResolveDir, AbsPath;
    LeftSideRooted(db, cwd, dir);
    var left := AbsPath(db, LeftSide(db, cwd, dir));
    var right := RemovePrefix(dir);
    assert right != "" ==> right[|right| - 1] == '/';
  }

  /**
   Where a new entry goes: under the folder that the rest of the path leads to from the current folder, under the
   last name of the path; and nothing is made when the rest leads nowhere. That an entry of that name, or a folder
   whose name begins with it, is there already changes nothing.
   */
  lemma {:induction false} MadeInTarget(db: Store, d: int, kind: Entry, dir: string, name: string)
    requires Inv(db) && Clean(db) && Rooted(db, d) && DirPart(dir) && CleanName(name)
    ensures var t := Target(db, d, dir);
            Made(db, AbsPath(db, d), kind, dir + name) ==
              if t == NO_ID then (db, Returned(false)) else (With(db, kind, t, name), Returned(true))
  {
    hide Inv, Clean, ResolveDir, AbsPath, Follow, Components, CleanName, DirPart, ParsePath, FormatPath, With, Target;
    FormattedNamed(db, d, dir, name);
    var above :|
      && FormatPath(db, AbsPath(db, d), dir + name) == Some(above + name)
      && above != [] && above[0] == '/' && DirPart(above)
      && Follow(db, ROOT, Components(above[1..])) == Target(db, d, dir);
    CleanIsSlashless(db);
    ParsedName(db, ResolveDir(db, ROOT, AbsPath(db, d)), above, name);
    assert (above + name)[|above|..] == name;
  }

  lemma SlashlessAfter(db: Store, p: int, name: string)
    requires Inv(db) && Slashless(db) && Rooted(db, p) && '/' !in name
    ensures Slashless(WithFolder(db, p, name))
  {
    hide Inv, Rooted, WithFolder, FolderName, FileName, Children, Files, Parent;
    var db' := WithFolder(db, p, name);
    forall q | Rooted(db', q) ensures NoSlashIn(db', q) {
      RootedBefore(db, p, name, q);
      AfterFolder(db, p, name, q);
      if q == db.counter {
        NewFolderEmpty(db);
        NotRootedYet(db);
      } else {
        assert NoSlashIn(db, q);
        forall c | c in Children(db', q) ensures '/' !in FolderName(db', c) {
          if c in Children(db, q) {} else { assert c == db.counter; }
        }
      }
    }
  }

  lemma {:induction false} WayIsOlder(db: Store, a: int, id: int)
    requires Rooted(db, id) && OnTheWay(db, a, id)
    ensures Rooted(db, a) && 0 < a <= id && Parent(db, a) < id
    decreases id
  {
    hide Parent, Children;
    if a != id {
      WayIsOlder(db, a, Parent(db, id));
    }
  }

  lemma {:induction false} SameWay(db: Store, p: int, name: string, a: int, id: int)
    requires Inv(db) && (p == NO_ID || Rooted(db, p))
    requires Rooted(db, id) && Rooted(WithFolder(db, p, name), id)
    ensures OnTheWay(WithFolder(db, p, name), a, id) <==> OnTheWay(db, a, id)
    decreases id
  {
    hide Inv, WithFolder, Children, Parent;
    NotRootedYet(db);
    AfterFolder(db, p, name, id);
    if id != ROOT {
      SameWay(db, p, name, a, Parent(db, id));
    }
  }

  /** The path to a folder is not disturbed by what is made in it. */
  lemma WayStaysFindable(db: Store, p: int, name: string)
    requires Inv(db) && Rooted(db, p) && AllFindable(db, p) && Rooted(WithFolder(db, p, name), p)
    ensures AllFindable(WithFolder(db, p, name), p)
  {
    hide Inv, Rooted, WithFolder, OnTheWay, Findable, FolderName, HasPrefix, Parent;
    var db' := WithFolder(db, p, name);
    forall a | OnTheWay(db', a, p) ensures Findable(db', a) {
      SameWay(db, p, name, a, p);
      WayIsOlder(db, a, p);
      MkdirHides(db, p, name, a);
    }
  }

  /** A folder just made is reached by the path of the folder it was made in and its name. */
  lemma {:induction false} NewFolderResolves(db: Store, cwd: int, p: int, name: string)
    requires Inv(db) && Slashless(db) && Rooted(db, p) && AllFindable(db, p)
    requires CleanName(name) && forall f :: f in Files(db, p) ==> FileName(db, f) != name
    ensures var db' := WithFolder(db, p, name);
            && Rooted(db', db.counter) && AbsPath(db', db.counter) == AbsPath(db, p) + name + "/"
            && ResolveDir(db', cwd, AbsPath(db, p) + name) == db.counter
  {
    hide Inv, Slashless, WithFolder, OnTheWay, Findable, ResolveDir, Files, FileName, AllFindable, WithSlash, AbsPath;
    var db' := WithFolder(db, p, name);
    MkdirKeepsInv(db, p, name);
    RootedNonNegative(db, p);
    SlashlessAfter(db, p, name);
    NewFolderFindable(db, p, name);
    WayStaysFindable(db, p, name);
    NewFolderPath(db, p, name);
    AllFindableUp(db', db.counter);
    AllFindableMeans(db', db.counter);
    RoundTripExactly(db', cwd, db.counter);
    NoSlashAtEnd(name);
    var path := AbsPath(db, p) + name;
    assert path[|path| - 1] == name[|name| - 1];
    SameWithSlash(db', cwd, path);
  }

  lemma AllFindableMeans(db: Store, id: int)
    requires Rooted(db, id) && AllFindable(db, id)
    ensures forall a :: OnTheWay(db, a, id) ==> Findable(db, a)
  {
    hide Findable, OnTheWay;
  }

  lemma NewFolderPath(db: Store, p: int, name: string)
    requires Inv(db) && Rooted(db, p) && Rooted(WithFolder(db, p, name), db.counter)
    requires Rooted(WithFolder(db, p, name), p)
    ensures AbsPath(WithFolder(db, p, name), db.counter) == AbsPath(db, p) + name + "/"
    ensures Parent(WithFolder(db, p, name), db.counter) == p && db.counter != ROOT
  {
    hide Inv, WithFolder, Children, Files, FolderName, FileName, Parent;
    RootedNonNegative(db, p);
    NotRootedYet(db);
    AfterFolder(db, p, name, p);
    AbsPathAfterFolder(db, p, name, p);
  }

  lemma SameWithSlash(db: Store, cwd: int, path: string)
    requires path != []
    ensures path[|path| - 1] != '/' ==> ResolveDir(db, cwd, path + "/") == ResolveDir(db, cwd, path)
  {
    hide Resolve;
  }

  // ---------------------------------------------------------- the current folder

  lemma AbsoluteRooted(db: Store, c: int, path: string)
    requires Inv(db) && path != [] && path[0] == '/'
    ensures ResolveDir(db, c, path) == NO_ID || Rooted(db, ResolveDir(db, c, path))
  {
    hide Inv, Rooted, Resolve;
    ResolveRooted(db, c, WithSlash(path), |WithSlash(path)|);
  }

  /** In a clean name space cd goes where the path leads from the current folder, and nowhere if it leads nowhere. */
  lemma CdGoesWhereThePathLeads(db: Store, d: int, path: string)
    requires Inv(db) && Clean(db) && Rooted(db, d) && path != []
    ensures var t := ResolveDir(db, d, path);
            && (t == NO_ID || Rooted(db, t))
            && Moved(db, AbsPath(db, d), path) ==
                 if t == NO_ID then (AbsPath(db, d), Returned(false)) else (AbsPath(db, t), Returned(true))
  {
    hide Inv, Clean, Rooted, Resolve, ResolveDir, AbsPath, FormatPath;
    var cwd := AbsPath(db, d);
    FormattedPathMeansSame(db, ResolveDir(db, ROOT, cwd), d, path);
    AbsoluteRooted(db, ResolveDir(db, ROOT, cwd), FormatPath(db, cwd, path).value);
  }
}
