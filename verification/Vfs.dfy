/**
 The code of the file system: the commands on the store (vfs.c), the path parser (vfsPathParser.c), and the wrapper
 that keeps a current path (virtualFileSystemWrapper.cc), each against its specification.
 */
module Vfs {
  import opened Bytes
  import opened VfsSpec
  import opened VfsPaths
  import opened VfsNamespace
  import opened VfsCommands
  import opened VfsParsing

  // -------------------------------------------------------------------- vfs.c

  /** The keys of the server, as one client sees and changes them. */
  class Database {
    var parent: map<int, int>
    var folderName: map<int, string>
    var folders: map<int, seq<int>>
    var fileName: map<int, string>
    var files: map<int, seq<int>>
    var counter: int

    ghost function State(): Store
      reads this
    {
      Store(parent, folderName, folders, fileName, files, counter)
    }

    /** vfs_buildDatabase: FLUSHALL, then the root folder. */
    constructor ()
      ensures State() == Build()
    {
      folders, fileName, files := map[], map[], map[];
      parent, folderName := map[ROOT := ROOT], map[ROOT := Quoted("root")];
      counter := 1;
    }

    /** GET, then INCR. */
    method GetNewId() returns (id: int)
      modifies this`counter
      ensures id == old(counter) && counter == old(counter) + 1
    {
      id := counter;
      counter := counter + 1;
    }

    /** LPUSH onto the list of folders, then the record. */
    method Mkdir(parentId: int, name: string) returns (id: int)
      modifies this
      ensures State() == WithFolder(old(State()), parentId, name) && id == old(counter)
    {
      id := GetNewId();
      var list := if parentId in folders then folders[parentId] else [];
      folders := folders[parentId := [id] + list];
      parent := parent[id := StoredParent(parentId)];
      folderName := folderName[id := Quoted(name)];
    }

    /** LPUSH onto the list of files, then the record. */
    method CreateFile(parentId: int, name: string) returns (id: int)
      modifies this
      ensures State() == WithFile(old(State()), parentId, name) && id == old(counter)
    {
      id := GetNewId();
      var list := if parentId in files then files[parentId] else [];
      files := files[parentId := [id] + list];
      fileName := fileName[id := Quoted(name)];
    }

    method GetFileName(id: int) returns (name: string)
      requires id in fileName
      ensures name == FileName(State(), id)
    {
      name := Unquoted(fileName[id]);
    }

    method GetFolderName(id: int) returns (name: string)
      requires id in folderName
      ensures name == FolderName(State(), id)
    {
      name := Unquoted(folderName[id]);
    }

    method GetDirParent(id: int) returns (p: int)
      requires id in parent
      ensures p == Parent(State(), id)
    {
      p := parent[id];
    }

    /** All files are looked at: the last match counts. */
    method FindFileNameInDir(dirId: int, path: string, n: nat) returns (matchId: int)
      requires Inv(State())
      ensures matchId == LastFile(State(), Files(State(), dirId), path, n)
    {
      hide Inv, LastFile, FileMatches;
      var ids := if dirId in files then files[dirId] else [];
      ghost var db := State();
      assert ids == Files(db, dirId);
      matchId := NO_ID;
      NoFilesLeft(db, path, n);
      for i := 0 to |ids|
        invariant matchId == LastFile(db, ids[..i], path, n)
      {
        ListedFileKnown(db, dirId, ids[i]);
        var name := GetFileName(ids[i]);
        if SameUpTo(path, name, if n > |name| then n else |name|) {
          matchId := ids[i];
        }
        assert ids[..i + 1] == ids[..i] + [ids[i]];
        OneMoreFile(db, ids[..i], ids[i], path, n);
      }
      assert ids[..|ids|] == ids;
    }

    /** The first folder that matches ends the search. */
    method FindDirNameInDir(dirId: int, path: string, n: nat) returns (matchId: int)
      requires Inv(State()) && n <= |path|
      requires n == 2 && SameUpTo("..", path, 2) ==> dirId in parent
      ensures matchId == FindFolder(State(), dirId, path, n)
    {
      hide Inv, FirstFolder, FolderMatches;
      if n == 1 && SameUpTo(".", path, 1) {
        return dirId;
      } else if n == 2 && SameUpTo("..", path, 2) {
        matchId := GetDirParent(dirId);
        return;
      }
      matchId := FindListed(dirId, path, n);
    }

    method FindListed(dirId: int, path: string, n: nat) returns (matchId: int)
      requires Inv(State())
      ensures matchId == FirstFolder(State(), Children(State(), dirId), path, n)
    {
      hide Inv, FolderMatches;
      var ids := if dirId in folders then folders[dirId] else [];
      ghost var db := State();
      assert ids == Children(db, dirId);
      matchId := NO_ID;
      for i := 0 to |ids|
        invariant matchId == NO_ID
        invariant FirstFolder(db, ids, path, n) == FirstFolder(db, ids[i..], path, n)
      {
        ListedFolderKnown(db, dirId, ids[i]);
        var name := GetFolderName(ids[i]);
        FolderMatchIs(db, ids[i], path, n);
        assert ids[i..][1..] == ids[i + 1..];
        if SameUpTo(path, name, n) {
          matchId := ids[i];
          break;
        }
      }
    }
  }

  lemma ListedFileKnown(db: Store, p: int, f: int)
    requires Inv(db) && f in Files(db, p)
    ensures f in db.fileName && f > 0
  {
    assert GoodFile(db, f);
  }

  lemma ListedFolderKnown(db: Store, p: int, c: int)
    requires Inv(db) && c in Children(db, p)
    ensures c in db.folderName && c > 0
  {
    assert GoodChild(db, p, c);
  }

  lemma FolderMatchIs(db: Store, c: int, path: string, n: nat)
    ensures FolderMatches(db, c, path, n) <==> SameUpTo(path, FolderName(db, c), n)
  {
  }

  lemma NoFilesLeft(db: Store, path: string, n: nat)
    ensures LastFile(db, [], path, n) == NO_ID
  {
  }

  lemma {:induction false} OneMoreFile(db: Store, ids: seq<int>, id: int, path: string, n: nat)
    requires id != NO_ID
    ensures LastFile(db, ids + [id], path, n) ==
              if SameUpTo(path, FileName(db, id), if n > |FileName(db, id)| then n else |FileName(db, id)|) then id
              else LastFile(db, ids, path, n)
  {
    hide SameUpTo, FileName;
    if ids == [] {
      assert [] + [id] == [id];
    } else {
      assert (ids + [id])[1..] == ids[1..] + [id];
      OneMoreFile(db, ids[1..], id, path, n);
    }
  }

  // --------------------------------------------------------- vfsPathParser.c

  /** getLengthOfNextName. */
  method GetLengthOfNextName(path: string, remaining: int) returns (i: nat)
    requires remaining <= |path|
    ensures i == if remaining > 0 then NextLength(path[..remaining]) else 0
  {
    i := 0;
    while i < remaining && path[i] != '/'
      invariant 0 <= i && (remaining > 0 ==> i <= remaining) && (remaining <= 0 ==> i == 0)
      invariant remaining > 0 ==> '/' !in path[..i]
    {
      i := i + 1;
    }
    if remaining > 0 {
      assert path[..remaining][..i] == path[..i];
      NextLengthIs(path[..remaining], i);
    }
  }

  /** vfsPathParserState_t. */
  class PathParserState {
    var isExistingObject: bool
    var nameOffset: nat
    var nameLength: nat
    var isFilePath: bool
    var isDir: bool
    var parentId: int
    var id: int

    ghost function AsParse(): Parse
      reads this
    {
      Parse(isExistingObject, isFilePath, isDir, nameOffset, nameLength, parentId, id)
    }

    method Init()
      modifies this
      ensures AsParse() == Parse(true, false, false, 0, 0, NO_ID, NO_ID)
    {
      id, parentId := NO_ID, NO_ID;
      isDir, isFilePath, isExistingObject := false, false, true;
      nameLength, nameOffset := 0, 0;
    }

    /** Scans back from the end of the first len characters. */
    method SeparatePathAndName(full: string, len: nat)
      requires len <= |full|
      modifies this`nameOffset, this`nameLength
      ensures nameOffset == NameOffset(full[..len]) && nameLength == len - nameOffset
    {
      hide NameOffset;
      var currPos: int := len - 1;
      var i := 0;
      while currPos >= 0 && full[currPos] != '/'
        invariant currPos == len - 1 - i && -1 <= currPos
        invariant forall k :: currPos < k < len ==> full[k] != '/'
      {
        currPos := currPos - 1;
        i := i + 1;
      }
      OffsetFound(full, len, currPos + 1);
      if currPos < 0 {
        nameLength, nameOffset := len, 0;
      } else {
        nameLength, nameOffset := i, currPos + 1;
      }
    }

    /** The file of that name if there is one, and else the folder; nothing is changed when there is neither. */
    method FindObjectInDir(db: Database, dirId: int, path: string, n: nat) returns (res: int)
      requires Inv(db.State()) && Rooted(db.State(), dirId) && n <= |path|
      modifies this`id, this`isFilePath, this`isDir
      ensures var o := FindObject(db.State(), dirId, path, n);
              && (o.Nothing? <==> res != 0)
              && (o.Nothing? ==> unchanged(this))
              && (!o.Nothing? ==> id == o.id && id != NO_ID && isFilePath == o.File? && isDir == o.Folder?)
    {
      hide Inv, Rooted, LastFile, FindFolder;
      ParentRooted(db.State(), dirId);
      var isFile, isFolder := false, false;
      var resultId := db.FindFileNameInDir(dirId, path, n);
      if resultId != NO_ID {
        isFile := true;
      } else {
        resultId := db.FindDirNameInDir(dirId, path, n);
        if resultId != NO_ID {
          isFolder := true;
        }
      }
      if resultId == NO_ID {
        return -1;
      }
      id, isFilePath, isDir := resultId, isFile, isFolder;
      res := 0;
    }

    /** vfs_parsePath: -1, or the fields of the specification. */
    method ParsePath(db: Database, path: string, clientCwd: int) returns (res: int)
      requires Inv(db.State()) && (Rooted(db.State(), clientCwd) || (path != [] && path[0] == '/'))
      modifies this
      ensures res == 0 || res == -1
      ensures res == 0 <==> path != [] && VfsSpec.ParsePath(db.State(), path, clientCwd).Some?
      ensures res == 0 ==> AsParse() == VfsSpec.ParsePath(db.State(), path, clientCwd).value
    {
      hide Inv, Rooted, FindObject, Resolve, NameOffset;
      if path == [] {
        return -1;
      }
      var cwd := if path[0] == '/' then ROOT else clientCwd;
      RootRooted(db.State());
      Init();
      var fixedLength := if path[|path| - 1] == '/' then |path| - 1 else |path|;
      if cwd == ROOT && fixedLength == 0 {
        id, parentId, isDir, isFilePath := ROOT, NO_ID, true, false;
        return 0;
      }
      SeparatePathAndName(path, fixedLength);
      var dir := GetDirIdFromPath(db, cwd, path, fixedLength);
      if dir == NO_ID {
        return -1;
      }
      ResolveRooted(db.State(), cwd, path, fixedLength);
      if nameLength > 0 {
        LookName(db, dir, path);
      }
      res := 0;
    }

    /** The last component: a file or a missing name is in the folder; the parent of a folder is asked for. */
    method LookName(db: Database, dir: int, path: string)
      requires Inv(db.State()) && Rooted(db.State(), dir)
      requires nameOffset + nameLength <= |path|
      requires AsParse() == Parse(true, false, false, nameOffset, nameLength, NO_ID, NO_ID)
      modifies this
      ensures AsParse() ==
              match FindObject(db.State(), dir, path[old(nameOffset)..], old(nameLength))
              case Nothing => Parse(false, false, false, old(nameOffset), old(nameLength), dir, NO_ID)
              case File(f) => Parse(true, true, false, old(nameOffset), old(nameLength), dir, f)
              case Folder(d) => Parse(true, false, true, old(nameOffset), old(nameLength), Parent(db.State(), d), d)
    {
      hide Inv, Rooted, FindObject;
      FoundRooted(db.State(), dir, path[nameOffset..], nameLength);
      var res := FindObjectInDir(db, dir, path[nameOffset..], nameLength);
      if res != 0 {
        isExistingObject, parentId := false, dir;
      } else {
        isExistingObject := true;
        if isFilePath {
          parentId := dir;
        } else {
          ParentRooted(db.State(), id);
          parentId := db.GetDirParent(id);
        }
      }
    }
  }

  /** vfs_getDirIdFromPath: component by component, up to the last slash. */
  method GetDirIdFromPath(db: Database, userCwd: int, path: string, len: nat) returns (currDir: int)
    requires Inv(db.State()) && len <= |path|
    requires Rooted(db.State(), userCwd) || (path != [] && path[0] == '/')
    ensures currDir == Resolve(db.State(), userCwd, path, len)
  {
    hide Inv, Rooted, FindObject, Walk, NextLength;
    ghost var store := db.State();
    var currPtr := 0;
    currDir := userCwd;
    var parser := new PathParserState.Init();
    RootRooted(store);
    assert path[0..] == path;
    if path != [] && path[0] == '/' {
      currPtr := 1;
      currDir := ROOT;
    }
    ghost var target := Resolve(store, userCwd, path, len);
    while true
      invariant currPtr <= |path| && Rooted(store, currDir) && store == db.State()
      invariant target == Walk(store, currDir, path[currPtr..], Left(len, currPtr))
      decreases |path| - currPtr
    {
      var n := GetLengthOfNextName(path[currPtr..], len - currPtr);
      WalkStep(store, currDir, path, len, currPtr, n);
      if currPtr + n >= len {
        break;
      }
      var nameStart := currPtr;
      currPtr := currPtr + n + 1;
      FoundRooted(store, currDir, path[nameStart..], n);
      var res := parser.FindObjectInDir(db, currDir, path[nameStart..], n);
      if res != 0 || parser.id == NO_ID || !parser.isDir {
        return NO_ID;
      }
      currDir := parser.id;
    }
  }

  /** What is left of the first len characters of a path. */
  function Left(len: nat, at: nat): nat {
    if at <= len then len - at else 0
  }

  lemma WalkStep(db: Store, dir: int, path: string, len: nat, at: nat, n: nat)
    requires at <= |path| && len <= |path|
    requires n == if len - at > 0 then NextLength(path[at..][..len - at]) else 0
    ensures at + n < len ==> at + n < |path| && n <= |path[at..]|
    ensures Walk(db, dir, path[at..], Left(len, at)) ==
              if at + n >= len then dir
              else
                var o := FindObject(db, dir, path[at..], n);
                if o.Folder? then Walk(db, o.id, path[at + n + 1..], Left(len, at + n + 1)) else NO_ID
  {
    hide FindObject, NextLength;
    if at < len {
      assert at + n < len ==> path[at..][n + 1..] == path[at + n + 1..];
    }
  }

  lemma OffsetFound(full: string, len: nat, cut: nat)
    requires cut <= len <= |full| && (cut == 0 || full[cut - 1] == '/')
    requires forall k :: cut <= k < len ==> full[k] != '/'
    ensures NameOffset(full[..len]) == cut
  {
    hide NameOffset;
    assert full[..cut] + full[cut..len] == full[..len];
    NameOffsetIs(full[..cut], full[cut..len]);
  }

  // ------------------------------------------- virtualFileSystemWrapper.cc

  /** The path is that of some folder of the tree. */
  ghost predicate PathOfFolder(db: Store, path: string) {
    exists d :: Rooted(db, d) && path == AbsPath(db, d)
  }

  class FsContext {
    const db: Database
    var cwd: string

    ghost predicate Valid()
      reads this, db
    {
      Inv(db.State()) && PathOfFolder(db.State(), cwd)
    }

    /** getInitialContext, for a store just built or found built. */
    constructor (db: Database)
      requires Inv(db.State())
      ensures Valid() && this.db == db && cwd == "/"
    {
      this.db := db;
      cwd := "/";
      new;
      hide Inv;
      RootRooted(db.State());
      RootPath(db.State());
      assert PathOfFolder(db.State(), cwd);
    }

    /** getDirIdFromPath: with a slash at the end. */
    method DirIdFromPath(from: int, path: string) returns (id: int)
      requires Inv(db.State()) && path != [] && (Rooted(db.State(), from) || path[0] == '/')
      ensures id == ResolveDir(db.State(), from, path)
    {
      hide Inv, Rooted, Resolve;
      var copy := path;
      if copy[|copy| - 1] != '/' {
        copy := path + "/";
      }
      id := GetDirIdFromPath(db, from, copy, |copy|);
    }

    method CwdId() returns (id: int)
      requires Inv(db.State()) && cwd != [] && cwd[0] == '/'
      ensures id == ResolveDir(db.State(), ROOT, cwd)
    {
      id := DirIdFromPath(ROOT, cwd);
    }

    /** getAbsolutePathFromFolderId: climbs from folder to parent; every parent has a smaller id. */
    method AbsolutePathFromFolderId(folderId: int) returns (path: string)
      requires Inv(db.State()) && Rooted(db.State(), folderId)
      ensures path == AbsPath(db.State(), folderId)
    {
      hide Inv, FolderName, Children;
      ghost var store := db.State();
      if folderId == ROOT {
        return "/";
      }
      var currentId := folderId;
      var output := "";
      ghost var tail := "";
      assert output + "/" == "/" + tail && AbsPath(store, folderId) == AbsPath(store, currentId) + tail;
      while currentId != ROOT
        invariant Rooted(store, currentId) && store == db.State()
        invariant AbsPath(store, folderId) == AbsPath(store, currentId) + tail && output + "/" == "/" + tail
        decreases currentId
      {
        ParentRooted(store, currentId);
        var name := db.GetFolderName(currentId);
        Climb(AbsPath(store, Parent(store, currentId)), name, tail, output);
        tail := name + "/" + tail;
        output := "/" + name + output;
        currentId := db.GetDirParent(currentId);
      }
      path := output + "/";
    }

    /** formatToValidPath; None is an exception. */
    method FormatToValidPath(path: string) returns (r: Option<string>)
      requires Inv(db.State()) && cwd != [] && cwd[0] == '/'
      ensures r == FormatPath(db.State(), cwd, path)
    {
      hide Inv, Rooted, ResolveDir, RemovePrefix, AbsPath;
      if path == [] {
        return None;
      }
      LeftSideRooted(db.State(), cwd, path);
      var parentId := ROOT;
      if path[0] != '/' {
        parentId := CwdId();
        parentId := DirIdFromPath(parentId, cwd);
      }
      if parentId == NO_ID {
        return None;
      }
      var leftSide := AbsolutePathFromFolderId(parentId);
      r := Some(leftSide + RemovePrefix(path));
    }

    /** What mkdir and createFile have in common. */
    method ParentAndName(path: string, ghost kind: Entry)
      returns (outcome: Outcome, parentId: int, name: string)
      requires Valid()
      ensures outcome.Returned? && outcome.ok ==> parentId == NO_ID || Rooted(db.State(), parentId)
      ensures Made(db.State(), cwd, kind, path) ==
                (if outcome == Returned(true) then With(db.State(), kind, parentId, name) else db.State(), outcome)
    {
      hide Inv, Rooted, ResolveDir, FormatPath, With, ParsePath, AbsPath;
      parentId, name := NO_ID, "";
      var formatted := FormatToValidPath(path);
      if formatted.None? {
        return Threw, parentId, name;
      }
      var full := formatted.value;
      var cwdId := CwdId();
      ParsedParentRooted(db.State(), full, cwdId);
      var parser := new PathParserState.Init();
      var res := parser.ParsePath(db, full, cwdId);
      if res == -1 {
        return Returned(false), parentId, name;
      }
      return Returned(true), parser.parentId, full[parser.nameOffset..];
    }

    /** mkdir: no look is taken whether something of that name is there. */
    method Mkdir(path: string) returns (outcome: Outcome)
      requires Valid()
      modifies db
      ensures Valid()
      ensures (db.State(), outcome) == Made(old(db.State()), cwd, NewFolder, path)
    {
      hide Inv, Rooted, Made, WithFolder, WithFile, AbsPath;
      ghost var before := db.State();
      var parentId, name;
      outcome, parentId, name := ParentAndName(path, NewFolder);
      if outcome == Returned(true) {
        WithKeepsInv(before, NewFolder, parentId, name);
        var _ := db.Mkdir(parentId, name);
      }
    }

    method CreateFile(path: string) returns (outcome: Outcome)
      requires Valid()
      modifies db
      ensures Valid()
      ensures (db.State(), outcome) == Made(old(db.State()), cwd, NewFile, path)
    {
      hide Inv, Rooted, Made, WithFolder, WithFile, AbsPath;
      ghost var before := db.State();
      var parentId, name;
      outcome, parentId, name := ParentAndName(path, NewFile);
      if outcome == Returned(true) {
        WithKeepsInv(before, NewFile, parentId, name);
        var _ := db.CreateFile(parentId, name);
      }
    }

    /** getFileIdFromPath: the path is parsed as it is, from the folder that the current path leads to. */
    method FileIdFromPath(path: string) returns (id: int)
      requires Valid() && ((path != [] && path[0] == '/') || ResolveDir(db.State(), ROOT, cwd) != NO_ID)
      ensures id == FileId(db.State(), cwd, path)
    {
      hide Inv, Rooted, ResolveDir, ParsePath, AbsPath;
      var cwdId := CwdId();
      AbsoluteRooted(db.State(), ROOT, cwd);
      var parser := new PathParserState.Init();
      var res := parser.ParsePath(db, path, cwdId);
      if res == -1 || !parser.isFilePath {
        return NO_ID;
      }
      id := parser.id;
    }

    /** cd: the current path becomes the path of the folder reached. */
    method Cd(path: string) returns (outcome: Outcome)
      requires Valid()
      modifies this`cwd
      ensures Valid()
      ensures (cwd, outcome) == Moved(db.State(), old(cwd), path)
    {
      hide Inv, Rooted, ResolveDir, FormatPath, AbsPath;
      var formatted := FormatToValidPath(path);
      if formatted.None? {
        return Threw;
      }
      var cwdId := CwdId();
      var folderId := DirIdFromPath(cwdId, formatted.value);
      if folderId == NO_ID {
        return Returned(false);
      }
      AbsoluteRooted(db.State(), cwdId, formatted.value);
      cwd := AbsolutePathFromFolderId(folderId);
      outcome := Returned(true);
    }
  }

  lemma Climb(above: string, name: string, tail: string, output: string)
    requires output + "/" == "/" + tail
    ensures (above + name + "/") + tail == above + (name + "/" + tail)
    ensures ("/" + name + output) + "/" == "/" + (name + "/" + tail)
  {
    assert ("/" + name + output) + "/" == "/" + name + (output + "/");
  }
}
