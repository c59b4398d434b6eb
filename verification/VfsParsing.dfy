/**
 What vfs_parsePath finds, told from the lists of the folder that the rest of the path leads to: a file of that name,
 otherwise the first folder whose name begins with it, otherwise nothing.
 */
module VfsParsing {
  import opened Bytes
  import opened VfsSpec
  import opened VfsPaths
  import opened VfsNamespace
  import opened VfsCommands
  import opened VfsEffects

  // ------------------------------------------------------- the end of the path

  lemma SameToTheEnd(name: string, other: string)
    ensures SameUpTo(name, other, if |name| > |other| then |name| else |other|) <==> other == name
  {
  }

  lemma PrefixAtEnd(name: string, other: string)
    ensures SameUpTo(name, other, |name|) <==> HasPrefix(other, name)
  {
  }

  lemma {:induction false} LastFileAtEnd(db: Store, ids: seq<int>, name: string)
    ensures LastFile(db, ids, name, |name|) == LastNamed(db, ids, name)
  {
    hide FileName, SameUpTo;
    if ids != [] {
      LastFileAtEnd(db, ids[1..], name);
      SameToTheEnd(name, FileName(db, ids[0]));
    }
  }

  lemma {:induction false} FirstFolderAtEnd(db: Store, ids: seq<int>, name: string)
    ensures FirstFolder(db, ids, name, |name|) == FirstPrefixed(db, ids, name)
  {
    hide FolderName, SameUpTo, HasPrefix;
    if ids != [] {
      FirstFolderAtEnd(db, ids[1..], name);
      PrefixAtEnd(name, FolderName(db, ids[0]));
    }
  }

  /** Looking up what a path ends in; nothing follows that could be compared by mistake. */
  lemma FindAtEndIsLookup(db: Store, dir: int, name: string)
    ensures FindObject(db, dir, name, |name|) == Lookup(db, dir, name)
  {
    hide LastFile, LastNamed, FirstFolder, FirstPrefixed, Children, Files, Parent;
    LastFileAtEnd(db, Files(db, dir), name);
    FirstFolderAtEnd(db, Children(db, dir), name);
    assert name == "." <==> |name| == 1 && name[0] == '.';
    assert name == ".." <==> |name| == 2 && name[0] == '.' && name[1] == '.';
  }

  // --------------------------------------------------------- what a lookup finds

  ghost predicate HasFile(db: Store, dir: int, name: string) {
    exists f :: f in Files(db, dir) && FileName(db, f) == name
  }

  /** The file is in the list, and none behind it has its name. */
  ghost predicate ListedLast(db: Store, ids: seq<int>, name: string, id: int) {
    exists i :: 0 <= i < |ids| && ids[i] == id && FileName(db, id) == name &&
                forall j :: i < j < |ids| ==> FileName(db, ids[j]) != name
  }

  ghost predicate HasFolder(db: Store, dir: int, name: string) {
    exists c :: c in Children(db, dir) && HasPrefix(FolderName(db, c), name)
  }

  lemma {:induction false} LastNamedIs(db: Store, ids: seq<int>, name: string)
    requires forall f :: f in ids ==> f != NO_ID
    ensures var r := LastNamed(db, ids, name);
            if r == NO_ID then forall f :: f in ids ==> FileName(db, f) != name else ListedLast(db, ids, name, r)
  {
    hide FileName;
    if ids != [] {
      var r := LastNamed(db, ids[1..], name);
      forall f | f in ids[1..] ensures f in ids {}
      LastNamedIs(db, ids[1..], name);
      if r != NO_ID {
        var i :| 0 <= i < |ids[1..]| && ids[1..][i] == r &&
                 forall j :: i < j < |ids[1..]| ==> FileName(db, ids[1..][j]) != name;
        assert ids[i + 1] == r;
        forall j | i + 1 < j < |ids| ensures FileName(db, ids[j]) != name {
          assert ids[1..][j - 1] == ids[j];
        }
      } else {
        forall j | 0 < j < |ids| ensures FileName(db, ids[j]) != name {
          assert ids[1..][j - 1] == ids[j];
        }
      }
    }
  }

  lemma {:induction false} FirstPrefixedFound(db: Store, ids: seq<int>, name: string)
    requires forall c :: c in ids ==> c != NO_ID
    ensures var r := FirstPrefixed(db, ids, name);
            if r == NO_ID then forall c :: c in ids ==> !HasPrefix(FolderName(db, c), name)
            else HasPrefix(FolderName(db, r), name) && ListedFirst(db, ids, name, r)
  {
    hide FolderName, HasPrefix, ListedFirst;
    if ids != [] {
      forall c | c in ids[1..] ensures c in ids {}
      FirstPrefixedFound(db, ids[1..], name);
      ListedFirstInRest(db, ids, name, FirstPrefixed(db, ids, name));
      assert ids[0] in ids && forall c :: c in ids ==> c == ids[0] || c in ids[1..];
    }
  }

  lemma ChildrenHaveIds(db: Store, p: int)
    requires Inv(db)
    ensures forall c :: c in Children(db, p) ==> c != NO_ID
  {
    forall c | c in Children(db, p) ensures c != NO_ID {
      assert GoodChild(db, p, c);
    }
  }

  /** A file of that name, the last one; or else a folder whose name begins with it, the first one; or else nothing. */
  lemma LookupExactly(db: Store, dir: int, name: string)
    requires Inv(db) && name != "." && name != ".."
    ensures match Lookup(db, dir, name)
            case File(f) => HasFile(db, dir, name) && ListedLast(db, Files(db, dir), name, f)
            case Folder(d) =>
              && !HasFile(db, dir, name) && HasFolder(db, dir, name)
              && HasPrefix(FolderName(db, d), name) && ListedFirst(db, Children(db, dir), name, d)
            case Nothing => !HasFile(db, dir, name) && !HasFolder(db, dir, name)
  {
    hide Inv, FileName, FolderName, Children, Files, HasPrefix, ListedFirst, ListedLast, LastNamed, FirstPrefixed;
    FilesHaveIds(db, dir);
    ChildrenHaveIds(db, dir);
    LastNamedIs(db, Files(db, dir), name);
    FirstPrefixedFound(db, Children(db, dir), name);
    ListedLastIsFile(db, dir, name);
  }

  lemma ListedLastIsFile(db: Store, dir: int, name: string)
    ensures forall f :: ListedLast(db, Files(db, dir), name, f) ==> HasFile(db, dir, name)
  {
    hide FileName, Files;
  }

  // ---------------------------------------------------------------- whole paths

  /** The fields for a name at the given place of the path, in the folder t. */
  function EntryAt(db: Store, t: int, offset: nat, name: string): Parse {
    match Lookup(db, t, name)
    case Nothing => Parse(false, false, false, offset, |name|, t, NO_ID)
    case File(f) => Parse(true, true, false, offset, |name|, t, f)
    case Folder(d) => Parse(true, false, true, offset, |name|, Parent(db, d), d)
  }

  lemma LengthsOfNamed(dir: string, name: string, tail: string)
    requires DirPart(dir) && '/' !in name && name != "" && (tail == "" || tail == "/")
    ensures var path := dir + name + tail;
            && path != [] && FixedLength(path) == |dir + name| > 0 && path[..|dir + name|] == dir + name
            && NameOffset(dir + name) == |dir| < |dir + name|
            && path[|dir|..] == name + tail
            && (path[0] == '/' <==> dir != "" && dir[0] == '/')
  {
    hide DirPart, NameOffset;
    NameOffsetIs(dir, name);
    var path := dir + name + tail;
    assert path[|dir + name| - 1] == name[|name| - 1];
    assert dir == "" ==> path[0] == name[0];
  }

  lemma StepsBefore(dir: string, name: string)
    requires DirPart(dir) && '/' !in name && name != ""
    ensures Steps(dir + name) == Steps(dir) && forall d :: Origin(d, dir + name) == Origin(d, dir)
  {
    hide Components, DirPart;
    NoComponent(name);
    var path, below := dir + name, if dir != [] && dir[0] == '/' then dir[1..] else dir;
    if dir != [] {
      DirPartHolds(dir);
      assert path[1..] == dir[1..] + name;
    }
    ComponentsOfBoth(below, name);
    assert Components(below) + [] == Components(below);
    assert dir == [] ==> path == name;
  }

  /** The walk of the parser over a part of a path. */
  lemma ResolveIsFollow(db: Store, d: int, path: string, len: nat)
    requires Inv(db) && Slashless(db) && Rooted(db, d) && 0 < len <= |path|
    ensures Resolve(db, d, path, len) == Follow(db, Origin(d, path), Steps(path[..len]))
  {
    hide Inv, Slashless, Rooted, Walk, Follow, Components;
    RootRooted(db);
    if path[0] == '/' {
      WalkIsFollow(db, ROOT, path[1..], len - 1);
      assert path[1..][..len - 1] == path[..len][1..];
    } else {
      WalkIsFollow(db, d, path, len);
    }
  }

  lemma FoundInPath(db: Store, t: int, name: string, tail: string)
    requires Slashless(db) && Rooted(db, t) && '/' !in name && (tail == "" || tail == "/")
    ensures FindObject(db, t, name + tail, |name|) == Lookup(db, t, name)
  {
    hide Rooted, NoSlashIn, FindObject, Lookup;
    if tail == "" {
      assert name + tail == name;
      FindAtEndIsLookup(db, t, name);
    } else {
      assert NoSlashIn(db, t);
      assert (name + tail)[..|name|] == name;
      FindObjectIsLookup(db, t, name + tail, |name|);
    }
  }

  /**
   Parsing, for every path that has a last name, with a slash behind it or without: nothing when the part before that
   name leads nowhere, and otherwise the entry that the name means in the folder it leads to.
   */
  lemma {:induction false} ParsedExactly(db: Store, cwd: int, dir: string, name: string, tail: string)
    requires Inv(db) && Slashless(db) && Rooted(db, cwd)
    requires DirPart(dir) && '/' !in name && name != "" && (tail == "" || tail == "/")
    ensures var t := Target(db, cwd, dir);
            ParsePath(db, dir + name + tail, cwd) == if t == NO_ID then None else Some(EntryAt(db, t, |dir|, name))
  {
    hide Inv, Slashless, Rooted, FindObject, Lookup, Resolve, Target, DirPart, FixedLength, NameOffset, Follow, Steps;
    var t, path, start := Target(db, cwd, dir), dir + name + tail, Origin(cwd, dir);
    LengthsOfNamed(dir, name, tail);
    RootRooted(db);
    OriginTwice(cwd, dir);
    ResolveIsFollow(db, start, path, |dir + name|);
    StepsBefore(dir, name);
    TargetIsFollow(db, cwd, dir);
    assert Origin(start, path) == Origin(start, dir);
    if t != NO_ID {
      TargetRooted(db, cwd, dir);
      FoundInPath(db, t, name, tail);
    }
  }

  lemma OriginTwice(d: int, path: string)
    ensures Origin(Origin(d, path), path) == Origin(d, path)
  {
  }

  /** What the caller sees of a parsed path: a file of that name, or else a folder that the name begins. */
  lemma {:induction false} ParsedEntry(db: Store, cwd: int, dir: string, name: string, tail: string)
    requires Inv(db) && Slashless(db) && Rooted(db, cwd)
    requires DirPart(dir) && CleanName(name) && (tail == "" || tail == "/")
    requires Target(db, cwd, dir) != NO_ID
    ensures var t, r := Target(db, cwd, dir), ParsePath(db, dir + name + tail, cwd);
            && r.Some?
            && (r.value.isFilePath <==> HasFile(db, t, name))
            && (r.value.isDir <==> !HasFile(db, t, name) && HasFolder(db, t, name))
            && (r.value.isExistingObject <==> HasFile(db, t, name) || HasFolder(db, t, name))
            && (r.value.isFilePath ==> ListedLast(db, Files(db, t), name, r.value.id))
            && (r.value.isDir ==> HasPrefix(FolderName(db, r.value.id), name) &&
                                  ListedFirst(db, Children(db, t), name, r.value.id))
            && (!r.value.isExistingObject ==> r.value.id == NO_ID)
            && r.value.parentId == t && r.value.nameOffset == |dir| && r.value.nameLength == |name|
  {
    hide Inv, Slashless, Rooted, Lookup, Target, DirPart, HasFile, HasFolder, ListedFirst, ListedLast, HasPrefix;
    hide ParsePath, FolderName, Children, Files, Parent;
    NoSlashAtEnd(name);
    ParsedExactly(db, cwd, dir, name, tail);
    LookupExactly(db, Target(db, cwd, dir), name);
    TargetRooted(db, cwd, dir);
    FindAtEnd(db, Target(db, cwd, dir), name);
    FindAtEndIsLookup(db, Target(db, cwd, dir), name);
  }

  /** A path without a last name: the rest leads somewhere, and nothing is found there, neither file nor folder. */
  lemma {:induction false} ParsedNoName(db: Store, cwd: int, dir: string)
    requires Inv(db) && Slashless(db) && Rooted(db, cwd) && DirPart(dir) && dir != ""
    ensures ParsePath(db, dir + "/", cwd) ==
              if Target(db, cwd, dir) == NO_ID then None
              else Some(Parse(true, false, false, |dir|, 0, NO_ID, NO_ID))
  {
    hide Inv, Slashless, Rooted, FindObject, Resolve, Target, Follow, Steps;
    var path, start := dir + "/", Origin(cwd, dir);
    assert path[..|dir|] == dir;
    RootRooted(db);
    OriginTwice(cwd, dir);
    ResolveIsFollow(db, start, path, |dir|);
    TargetIsFollow(db, cwd, dir);
  }

  lemma ParsedRoot(db: Store, cwd: int)
    ensures ParsePath(db, "/", cwd) == Some(Parse(true, false, true, 0, 0, NO_ID, ROOT))
  {
  }

  /** There are no other paths than these: the root, and a last name or none, with a slash behind it or without. */
  lemma EveryPath(path: string) returns (dir: string, name: string, tail: string)
    requires path != ""
    ensures path == dir + name + tail && DirPart(dir) && '/' !in name && (tail == "" || tail == "/")
    ensures name == "" ==> tail == "/"
    ensures name == "" && dir == "" ==> path == "/"
  {
    var front := path[..FixedLength(path)];
    var n := NameOffset(front);
    dir, name, tail := front[..n], front[n..], path[|front|..];
    assert path == front + tail && front == dir + name;
  }

  // ------------------------------------------------------------- files by path

  /** getFileIdFromPath. */
  function FileId(db: Store, cwd: string, path: string): int
    requires cwd != []
  {
    if path == [] then NO_ID
    else
      match ParsePath(db, path, ResolveDir(db, ROOT, cwd))
      case None => NO_ID
      case Some(parse) => if parse.isFilePath then parse.id else NO_ID
  }

  /** In a clean name space: the file of that name in the folder that the path leads to, and none if it has none. */
  lemma {:induction false} FileIdExactly(db: Store, d: int, dir: string, name: string)
    requires Inv(db) && Clean(db) && Rooted(db, d) && DirPart(dir) && CleanName(name)
    ensures var t, id := Target(db, d, dir), FileId(db, AbsPath(db, d), dir + name);
            if t != NO_ID && HasFile(db, t, name) then ListedLast(db, Files(db, t), name, id) else id == NO_ID
  {
    hide Inv, Clean, Slashless, Rooted, Target, DirPart, HasFile, HasFolder, ListedFirst, ListedLast, ParsePath, Files;
    hide AbsPath, ResolveDir, CleanName;
    CleanIsSlashless(db);
    CleanRoundTrip(db, ROOT, d);
    NoSlashAtEnd(name);
    assert dir + name + "" == dir + name;
    ParsedExactly(db, d, dir, name, "");
    if Target(db, d, dir) != NO_ID {
      ParsedEntry(db, d, dir, name, "");
    }
  }

  // --------------------------------------------------- what a new file does to a path

  /** After createFile a component is answered with the new file, or as before: an older file of that name wins. */
  lemma {:induction false} LookupAfterCreate(db: Store, p: int, name: string, q: int, part: string)
    requires Inv(db)
    ensures Lookup(WithFile(db, p, name), q, part) ==
              if q == p && part == name && !HasFile(db, p, name) then File(db.counter) else Lookup(db, q, part)
  {
    hide Inv, Rooted, WithFile, LastNamed, FirstPrefixed, Children, Files, FolderName, FileName, Parent, HasPrefix;
    var db' := WithFile(db, p, name);
    PositiveCounter(db);
    AfterFile(db, p, name, q);
    FilesHaveIds(db, q);
    LastNamedFails(db, Files(db, q), part);
    SameNamesLastNamed(db, db', Files(db, q), part);
    SameNamesFirstPrefixed(db, db', Children(db, q), part);
    if q == p {
      LastOfMore(db', db.counter, Files(db, q), part);
    } else {
      assert [] + Files(db, q) == Files(db, q);
    }
  }

  lemma LastOfMore(db: Store, id: int, ids: seq<int>, name: string)
    ensures LastNamed(db, [id] + ids, name) ==
              var r := LastNamed(db, ids, name);
              if r != NO_ID then r else if FileName(db, id) == name then id else NO_ID
  {
    hide FileName;
    assert ([id] + ids)[1..] == ids;
  }

  /** On the way the component is looked up in p. */
  ghost predicate Asks(db: Store, p: int, name: string, d: int, names: seq<string>)
    decreases |names|
  {
    names != [] &&
    ((d == p && names[0] == name) ||
     (Lookup(db, d, names[0]).Folder? && Asks(db, p, name, Lookup(db, d, names[0]).id, names[1..])))
  }

  /** A way that led somewhere ends at the new file, and so nowhere, exactly if it asks for that name. */
  lemma {:induction false} WalkAfterCreate(db: Store, p: int, name: string, d: int, names: seq<string>)
    requires Inv(db) && !HasFile(db, p, name) && Follow(db, d, names) != NO_ID
    ensures Follow(WithFile(db, p, name), d, names) ==
              if Asks(db, p, name, d, names) then NO_ID else Follow(db, d, names)
    decreases |names|
  {
    hide Inv, Lookup, WithFile, HasFile;
    if names != [] {
      LookupAfterCreate(db, p, name, d, names[0]);
      if Lookup(WithFile(db, p, name), d, names[0]).Folder? {
        WalkAfterCreate(db, p, name, Lookup(db, d, names[0]).id, names[1..]);
      }
    }
  }

  /**
   createFile, then getFileIdFromPath with the same path: the new file is found if and only if no file had the name
   before and the path does not itself go through a folder by that name.
   */
  lemma {:induction false} CreateThenFind(db: Store, d: int, dir: string, name: string)
    requires Inv(db) && Clean(db) && Rooted(db, d) && DirPart(dir) && CleanName(name)
    requires Target(db, d, dir) != NO_ID && FitsFile(db, Target(db, d, dir), name)
    ensures var t := Target(db, d, dir);
            var made := Made(db, AbsPath(db, d), NewFile, dir + name);
            && made == (WithFile(db, t, name), Returned(true)) && Clean(made.0) && Inv(made.0)
            && (FileId(made.0, AbsPath(db, d), dir + name) == db.counter <==>
                !HasFile(db, t, name) && !Asks(db, t, name, Origin(d, dir), Steps(dir)))
  {
    hide Inv, Clean, Rooted, Slashless, Made, WithFile, Target, AbsPath, FitsFile, CleanName, DirPart, Asks, FileId;
    hide HasFile, ListedLast, Follow, Steps, Files;
    var t := Target(db, d, dir);
    var db' := WithFile(db, t, name);
    MadeInTarget(db, d, NewFile, dir, name);
    TargetRooted(db, d, dir);
    CreateKeepsInv(db, t, name);
    CreateKeepsClean(db, t, name);
    AbsPathAfterFile(db, t, name, d);
    CleanIsSlashless(db);
    CleanIsSlashless(db');
    TargetIsFollow(db, d, dir);
    TargetIsFollow(db', d, dir);
    FileIdExactly(db', d, dir, name);
    FileInNew(db, t, name);
    PositiveCounter(db);
    if !HasFile(db, t, name) {
      WalkAfterCreate(db, t, name, Origin(d, dir), Steps(dir));
    }
    OlderFileWins(db, t, name, Target(db', d, dir));
  }

  /** The new file is in the folder, and it is the last of its name only if it is the only one. */
  lemma FileInNew(db: Store, p: int, name: string)
    requires Inv(db)
    ensures HasFile(WithFile(db, p, name), p, name)
  {
    hide Inv, WithFile, FileName, Files;
    AfterFile(db, p, name, p);
    assert db.counter in [db.counter] + Files(db, p);
  }

  lemma OlderFileWins(db: Store, p: int, name: string, q: int)
    requires Inv(db)
    ensures var db' := WithFile(db, p, name);
            forall id :: ListedLast(db', Files(db', q), name, id) ==>
                           (id == db.counter <==> q == p && !HasFile(db, p, name))
  {
    hide Inv, WithFile, FileName, Files;
    var db', made := WithFile(db, p, name), db.counter;
    AfterFile(db, p, name, q);
    var ids := Files(db', q);
    forall id | ListedLast(db', ids, name, id) ensures id == made <==> q == p && !HasFile(db, p, name) {
      var i :| 0 <= i < |ids| && ids[i] == id && forall j :: i < j < |ids| ==> FileName(db', ids[j]) != name;
      if q == p {
        assert ids[1..] == Files(db, q);
      }
    }
  }

  // ------------------------------------------------------------ absolute paths

  /**
   The absolute form of a path, letter by letter: one from the root stays as it is, and any other goes behind the path
   of the current folder, without the "./" that it may begin with. "./" alone is that path itself.
   */
  lemma {:induction false} FormattedExactly(db: Store, d: int, path: string)
    requires Inv(db) && Clean(db) && Rooted(db, d) && path != ""
    ensures var cwd := AbsPath(db, d);
            && (path[0] == '/' ==> FormatPath(db, cwd, path) == Some(path))
            && FormatPath(db, cwd, "./" + path) == Some(cwd + path)
            && FormatPath(db, cwd, "./") == Some(cwd)
            && (path[0] != '/' && !(|path| >= 2 && path[0] == '.' && path[1] == '/') ==>
                  FormatPath(db, cwd, path) == Some(cwd + path))
  {
    hide Inv, Clean, Rooted, ResolveDir, AbsPath;
    RootPath(db);
    CleanRoundTrip(db, ROOT, d);
    CleanRoundTrip(db, d, d);
    RootedNonNegative(db, d);
    assert path[0] == '/' ==> "/" + path[1..] == path;
    assert ("./" + path)[..2] == "./" && ("./" + path)[2..] == path;
    assert "./"[2..] == "" && AbsPath(db, d) + "" == AbsPath(db, d);
  }

  // ----------------------------------------------------- a slash behind the name

  lemma FormatTail(db: Store, cwd: string, path: string)
    requires Inv(db) && cwd != [] && cwd[0] == '/' && path != "" && path != "." && FormatPath(db, cwd, path).Some?
    ensures FormatPath(db, cwd, path + "/") == Some(FormatPath(db, cwd, path).value + "/")
  {
    hide Inv, ResolveDir, AbsPath, RemovePrefix;
    var left := LeftSide(db, cwd, path);
    LeftSideRooted(db, cwd, path);
    PrefixOfTail(path);
    Regroup3(AbsPath(db, left), RemovePrefix(path), "/");
  }

  lemma PrefixOfTail(path: string)
    requires path != "" && path != "."
    ensures RemovePrefix(path + "/") == RemovePrefix(path) + "/"
  {
    if |path| >= 2 {
      assert (path + "/")[..2] == path[..2];
    } else {
      assert path == [path[0]];
    }
  }

  /** With a slash behind the name mkdir and createFile do the same, but the slash becomes part of the name. */
  lemma {:induction false} MadeWithSlash(db: Store, d: int, kind: Entry, dir: string, name: string)
    requires Inv(db) && Clean(db) && Rooted(db, d) && DirPart(dir) && CleanName(name)
    ensures var t := Target(db, d, dir);
            Made(db, AbsPath(db, d), kind, dir + name + "/") ==
              if t == NO_ID then (db, Returned(false)) else (With(db, kind, t, name + "/"), Returned(true))
  {
    hide Inv, Clean, Slashless, ResolveDir, AbsPath, Follow, Components, CleanName, DirPart, ParsePath, FormatPath;
    hide With, Target, EntryAt;
    FormattedNamed(db, d, dir, name);
    var above :|
      && FormatPath(db, AbsPath(db, d), dir + name) == Some(above + name)
      && above != [] && above[0] == '/' && DirPart(above)
      && Follow(db, ROOT, Components(above[1..])) == Target(db, d, dir);
    NoSlashAtEnd(name);
    NotJustDot(dir, name);
    FormatTail(db, AbsPath(db, d), dir + name);
    CleanIsSlashless(db);
    CleanRoundTrip(db, ROOT, d);
    ParsedExactly(db, d, above, name, "/");
    TargetIsFollow(db, d, above);
    assert (above + name + "/")[|above|..] == name + "/";
    if Target(db, d, dir) != NO_ID {
      TargetRooted(db, d, above);
      ParentOfEntry(db, Target(db, d, dir), |above|, name);
    }
  }

  lemma NotJustDot(dir: string, name: string)
    requires DirPart(dir) && CleanName(name)
    ensures dir + name != "" && dir + name != "."
  {
    if dir == "" {
      assert dir + name == name;
    } else {
      assert |dir + name| >= 2;
    }
  }

  lemma ParentOfEntry(db: Store, t: int, offset: nat, name: string)
    requires Inv(db) && Rooted(db, t) && CleanName(name)
    ensures EntryAt(db, t, offset, name).parentId == t && EntryAt(db, t, offset, name).nameOffset == offset
  {
    hide Inv, Rooted, Lookup, CleanName, Parent;
    FindAtEnd(db, t, name);
    FindAtEndIsLookup(db, t, name);
  }

  /**
   Without a last name they make an entry called "/" that no folder of the tree holds; as a folder it would have the
   largest long as its parent.
   */
  lemma {:induction false} MadeNowhere(db: Store, d: int, kind: Entry, dir: string)
    requires Inv(db) && Clean(db) && Rooted(db, d) && DirPart(dir)
    ensures var t := Target(db, d, dir);
            Made(db, AbsPath(db, d), kind, dir + "/") ==
              if dir != "" && t == NO_ID then (db, Returned(false)) else (With(db, kind, NO_ID, "/"), Returned(true))
    ensures Parent(With(db, NewFolder, NO_ID, "/"), db.counter) == LONG_MAX
    ensures forall id :: Rooted(db, id) ==> db.counter !in Children(With(db, kind, NO_ID, "/"), id) &&
                                            db.counter !in Files(With(db, kind, NO_ID, "/"), id)
  {
    hide Inv, Clean, Slashless, Rooted, ResolveDir, AbsPath, DirPart, ParsePath, With;
    EntryNowhere(db, kind);
    CleanIsSlashless(db);
    CleanRoundTrip(db, ROOT, d);
    if dir == "" {
      RootPath(db);
      assert dir + "/" == "/" && RemovePrefix("/") == "" && "/" + "" == "/" && "/"[0..] == "/";
      ParsedRoot(db, d);
      assert FormatPath(db, AbsPath(db, d), "/") == Some("/");
    } else {
      FormattedPathMeansSame(db, d, d, dir);
      var above := FormatPath(db, AbsPath(db, d), dir).value;
      DirPartHolds(dir);
      FormatTail(db, AbsPath(db, d), dir);
      AbsoluteEndsInSlash(db, AbsPath(db, d), dir);
      ParsedNoName(db, d, above);
      assert (above + "/")[|above|..] == "/";
    }
  }

  lemma EntryNowhere(db: Store, kind: Entry)
    requires Inv(db)
    ensures Parent(With(db, NewFolder, NO_ID, "/"), db.counter) == LONG_MAX
    ensures forall id :: Rooted(db, id) ==> db.counter !in Children(With(db, kind, NO_ID, "/"), id) &&
                                            db.counter !in Files(With(db, kind, NO_ID, "/"), id)
  {
    hide Inv, Rooted, WithFolder, WithFile, Children, Files, Parent;
    AfterFolder(db, NO_ID, "/", db.counter);
    forall id | Rooted(db, id)
      ensures db.counter !in Children(With(db, kind, NO_ID, "/"), id)
      ensures db.counter !in Files(With(db, kind, NO_ID, "/"), id)
    {
      RootedNonNegative(db, id);
      NewIdNotListed(db, id);
      AfterFolder(db, NO_ID, "/", id);
      AfterFile(db, NO_ID, "/", id);
    }
  }

  lemma NewIdNotListed(db: Store, id: int)
    requires Inv(db)
    ensures db.counter !in Children(db, id) && db.counter !in Files(db, id)
  {
    hide Children, Files, RootOk, ListsApart, KeysRooted;
    NewIdUnused(db, id);
  }

  /** An empty path is an exception, for all three commands. */
  lemma EmptyPathThrows(db: Store, cwd: string, kind: Entry)
    requires Inv(db) && cwd != [] && cwd[0] == '/'
    ensures Made(db, cwd, kind, "") == (db, Threw) && Moved(db, cwd, "") == (cwd, Threw)
  {
  }

  /** The store that is built first: a root by that name, its own parent, with nothing in it. */
  lemma FirstStore()
    ensures var db := Build();
            && FolderName(db, ROOT) == "root" && Parent(db, ROOT) == ROOT && db.counter == 1
            && forall id :: Children(db, id) == [] && Files(db, id) == []
  {
  }
}
