/**
 The file system that lives in the store (vfs.c, vfsPathParser.c): folders and files by id, parent links and child
 lists. Paths are resolved component by component; the path of a folder is built by climbing to the root.
 */
module VfsSpec {
  import opened Bytes

  const ROOT: int := 0
  const NO_ID: int := -1
  const LONG_MAX: int := 0x7fff_ffff_ffff_ffff

  /** What the keys of the store hold. Names are kept between double quotes; lists grow at the front. */
  datatype Store = Store(
    parent: map<int, int>,           // FOLDER_<id>_info parent
    folderName: map<int, string>,    // FOLDER_<id>_info name
    folders: map<int, seq<int>>,     // FOLDER_<id>_folders
    fileName: map<int, string>,      // FILE_<id>_info name
    files: map<int, seq<int>>,       // FOLDER_<id>_files
    counter: int)                    // current_id_count

  function Quoted(name: string): string { "\"" + name + "\"" }

  /** The getters cut off the first and the last character. */
  function Unquoted(s: string): string {
    if |s| >= 2 then s[1..|s| - 1] else ""
  }

  function Children(db: Store, id: int): seq<int> {
    if id in db.folders then db.folders[id] else []
  }

  function Files(db: Store, id: int): seq<int> {
    if id in db.files then db.files[id] else []
  }

  function Parent(db: Store, id: int): int {
    if id in db.parent then db.parent[id] else NO_ID
  }

  function FolderName(db: Store, id: int): string {
    if id in db.folderName then Unquoted(db.folderName[id]) else ""
  }

  function FileName(db: Store, id: int): string {
    if id in db.fileName then Unquoted(db.fileName[id]) else ""
  }

  // ---------------------------------------------------------------- commands

  /** vfs_buildDatabase: the root folder is its own parent. */
  function Build(): Store {
    Store(map[ROOT := ROOT], map[ROOT := Quoted("root")], map[], map[], map[], 1)
  }

  /** A parent id is written with %lu and read with strtol, which stops at the largest long. */
  function StoredParent(p: int): int {
    if p < 0 then LONG_MAX else p
  }

  /** vfs_mkdir. */
  function WithFolder(db: Store, p: int, name: string): Store {
    var id := db.counter;
    db.(counter := id + 1,
        folders := db.folders[p := [id] + Children(db, p)],
        parent := db.parent[id := StoredParent(p)],
        folderName := db.folderName[id := Quoted(name)])
  }

  /** vfs_createFile. */
  function WithFile(db: Store, p: int, name: string): Store {
    var id := db.counter;
    db.(counter := id + 1,
        files := db.files[p := [id] + Files(db, p)],
        fileName := db.fileName[id := Quoted(name)])
  }

  // ------------------------------------------------------------------ lookup

  function Take(s: string, n: nat): string {
    if n <= |s| then s[..n] else s
  }

  /** strncmp(a, b, n) == 0. */
  predicate SameUpTo(a: string, b: string, n: nat) {
    Take(a, n) == Take(b, n)
  }

  /** The file test compares as many characters as the longer of name and component has. */
  predicate FileMatches(db: Store, f: int, path: string, n: nat) {
    SameUpTo(path, FileName(db, f), if n > |FileName(db, f)| then n else |FileName(db, f)|)
  }

  /** The folder test compares only as many characters as the component has. */
  predicate FolderMatches(db: Store, c: int, path: string, n: nat) {
    SameUpTo(path, FolderName(db, c), n)
  }

  /** vfs_findFileNameInDir: the last match in the list. */
  function LastFile(db: Store, ids: seq<int>, path: string, n: nat): (r: int)
    ensures r == NO_ID || r in ids
  {
    if ids == [] then NO_ID
    else
      var r := LastFile(db, ids[1..], path, n);
      if r != NO_ID then r else if FileMatches(db, ids[0], path, n) then ids[0] else NO_ID
  }

  /** vfs_findDirNameInDir: the first match in the list. */
  function FirstFolder(db: Store, ids: seq<int>, path: string, n: nat): (r: int)
    ensures r == NO_ID || r in ids
  {
    if ids == [] then NO_ID
    else if FolderMatches(db, ids[0], path, n) then ids[0]
    else FirstFolder(db, ids[1..], path, n)
  }

  function FindFolder(db: Store, dir: int, path: string, n: nat): int {
    if n == 1 && |path| >= 1 && path[0] == '.' then dir
    else if n == 2 && |path| >= 2 && path[0] == '.' && path[1] == '.' then Parent(db, dir)
    else FirstFolder(db, Children(db, dir), path, n)
  }

  /** vfs_findObjectInDir: files come first. */
  datatype Found = Nothing | File(id: int) | Folder(id: int)

  function FindObject(db: Store, dir: int, path: string, n: nat): Found {
    var f := LastFile(db, Files(db, dir), path, n);
    if f != NO_ID then File(f)
    else
      var d := FindFolder(db, dir, path, n);
      if d != NO_ID then Folder(d) else Nothing
  }

  /** getLengthOfNextName. */
  function NextLength(path: string): (n: nat)
    ensures n <= |path| && '/' !in path[..n] && (n < |path| ==> path[n] == '/')
  {
    if path == [] || path[0] == '/' then 0 else 1 + NextLength(path[1..])
  }

  /**
   The loop of vfs_getDirIdFromPath over the first len characters of the path: what follows the last slash is
   ignored. The comparisons see the characters beyond len too.
   */
  function Walk(db: Store, dir: int, path: string, len: nat): int
    requires len <= |path|
    decreases len
  {
    var n := NextLength(path[..len]);
    if n == len then dir
    else
      match FindObject(db, dir, path, n)
      case Folder(d) => Walk(db, d, path[n + 1..], len - n - 1)
      case _ => NO_ID
  }

  /** vfs_getDirIdFromPath. */
  function Resolve(db: Store, cwd: int, path: string, len: nat): int
    requires len <= |path|
  {
    if path != [] && path[0] == '/' then Walk(db, ROOT, path[1..], if len > 0 then len - 1 else 0)
    else Walk(db, cwd, path, len)
  }

  function WithSlash(path: string): (s: string)
    requires path != []
    ensures path <= s && s[|s| - 1] == '/'
  {
    if path[|path| - 1] == '/' then path else path + "/"
  }

  /** getDirIdFromPath of the wrapper: the path is made to end in a slash. */
  function ResolveDir(db: Store, cwd: int, path: string): int
    requires path != []
  {
    Resolve(db, cwd, WithSlash(path), |WithSlash(path)|)
  }

  // ----------------------------------------------------------------- parsing

  /** vfs_seperatePathAndName: where the characters after the last slash begin. */
  function NameOffset(path: string): (n: nat)
    ensures n <= |path| && '/' !in path[n..] && (n > 0 ==> path[n - 1] == '/')
  {
    if path == [] || path[|path| - 1] == '/' then |path| else NameOffset(path[..|path| - 1])
  }

  datatype Parse = Parse(
    isExistingObject: bool, isFilePath: bool, isDir: bool, nameOffset: nat, nameLength: nat, parentId: int, id: int)

  /** One slash at the end of the path is cut off. */
  function FixedLength(path: string): (n: nat)
    requires path != []
    ensures n <= |path|
  {
    if path[|path| - 1] == '/' then |path| - 1 else |path|
  }

  /** vfs_parsePath. */
  function ParsePath(db: Store, path: string, cwd: int): (r: Option<Parse>)
    requires path != []
    ensures r.Some? ==> r.value.nameOffset + r.value.nameLength <= |path|
  {
    var len := FixedLength(path);
    var start := if path[0] == '/' then ROOT else cwd;
    if start == ROOT && len == 0 then Some(Parse(true, false, true, 0, 0, NO_ID, ROOT))
    else
      var offset := NameOffset(path[..len]);
      var dir := Resolve(db, start, path, len);
      if dir == NO_ID then None
      else if offset == len then Some(Parse(true, false, false, offset, 0, NO_ID, NO_ID))
      else
        match FindObject(db, dir, path[offset..], len - offset)
        case Nothing => Some(Parse(false, false, false, offset, len - offset, dir, NO_ID))
        case File(f) => Some(Parse(true, true, false, offset, len - offset, dir, f))
        case Folder(d) => Some(Parse(true, false, true, offset, len - offset, Parent(db, d), d))
  }

  // ----------------------------------------------------------- the invariant

  /** Climbing from here ends at the root; every step is to the folder whose list holds the one below. */
  ghost predicate Rooted(db: Store, id: int)
    decreases id
  {
    || id == ROOT
    || (var p := Parent(db, id); id > 0 && 0 <= p < id && id in Children(db, p) && Rooted(db, p))
  }

  ghost predicate NoDup(ids: seq<int>) {
    forall i, j :: 0 <= i < j < |ids| ==> ids[i] != ids[j]
  }

  /** A folder in a list knows its parent, has a name, and is younger than its parent. */
  ghost predicate GoodChild(db: Store, p: int, c: int) {
    && 0 < c < db.counter && p < c && c in db.parent && c in db.folderName && db.parent[c] == StoredParent(p)
  }

  ghost predicate GoodFile(db: Store, f: int) {
    0 < f < db.counter && f in db.fileName
  }

  ghost predicate RootOk(db: Store) {
    db.counter >= 1 && ROOT in db.parent && db.parent[ROOT] == ROOT && ROOT in db.folderName
  }

  ghost predicate ListsGood(db: Store) {
    && (forall p, c {:trigger GoodChild(db, p, c)} :: c in Children(db, p) ==> GoodChild(db, p, c))
    && (forall p, f {:trigger GoodFile(db, f), Files(db, p)} :: f in Files(db, p) ==> GoodFile(db, f))
  }

  /** No id occurs in two lists, or twice in one. */
  ghost predicate ListsApart(db: Store) {
    && (forall p :: NoDup(Children(db, p)) && NoDup(Files(db, p)))
    && (forall p, q, c :: c in Children(db, p) && c in Children(db, q) ==> p == q)
    && (forall p, q, f :: f in Files(db, p) && f in Files(db, q) ==> p == q)
    && (forall p, q, c :: c in Children(db, p) ==> c !in Files(db, q))
  }

  /** Every list with an id of its own belongs to a folder of the tree. */
  ghost predicate KeysRooted(db: Store) {
    && (forall p {:trigger Rooted(db, p)} :: p in db.folders && p >= 0 ==> Rooted(db, p))
    && (forall p {:trigger Rooted(db, p)} :: p in db.files && p >= 0 ==> Rooted(db, p))
  }

  ghost predicate Inv(db: Store) {
    RootOk(db) && ListsGood(db) && ListsApart(db) && KeysRooted(db)
  }

  lemma BuildKeepsInv()
    ensures Inv(Build())
  {
  }

  lemma {:induction false} RootedAfterFolder(db: Store, p: int, name: string, id: int)
    requires Inv(db) && Rooted(db, id)
    ensures Rooted(WithFolder(db, p, name), id) && id < db.counter
    decreases id
  {
    hide Quoted, ListsApart, KeysRooted;
    if id != ROOT {
      assert GoodChild(db, Parent(db, id), id);
      RootedAfterFolder(db, p, name, Parent(db, id));
    }
  }

  lemma {:induction false} RootedAfterFile(db: Store, p: int, name: string, id: int)
    requires Rooted(db, id)
    ensures Rooted(WithFile(db, p, name), id)
    decreases id
  {
    hide Quoted;
    if id != ROOT {
      RootedAfterFile(db, p, name, Parent(db, id));
    }
  }

  lemma ChildrenAfter(db: Store, p: int, name: string, q: int)
    ensures Children(WithFolder(db, p, name), q) == (if q == p then [db.counter] else []) + Children(db, q)
    ensures Files(WithFolder(db, p, name), q) == Files(db, q)
    ensures Files(WithFile(db, p, name), q) == (if q == p then [db.counter] else []) + Files(db, q)
    ensures Children(WithFile(db, p, name), q) == Children(db, q)
  {
  }

  lemma NewIdUnused(db: Store, p: int)
    requires ListsGood(db)
    ensures db.counter !in Children(db, p) && db.counter !in Files(db, p)
  {
    forall c | c in Children(db, p) ensures c != db.counter {
      assert GoodChild(db, p, c);
    }
    forall f | f in Files(db, p) ensures f != db.counter {
      assert GoodFile(db, f);
    }
  }

  lemma NoDupCons(id: int, ids: seq<int>)
    ensures NoDup(ids) && id !in ids ==> NoDup([id] + ids)
  {
  }

  lemma MkdirListsGood(db: Store, p: int, name: string)
    requires ListsGood(db) && p < db.counter && db.counter > 0
    ensures ListsGood(WithFolder(db, p, name))
  {
    var db' := WithFolder(db, p, name);
    forall q, c | c in Children(db', q) ensures GoodChild(db', q, c) {
      ChildrenAfter(db, p, name, q);
      if c in Children(db, q) { assert GoodChild(db, q, c); }
    }
    forall q, f | f in Files(db', q) ensures GoodFile(db', f) {
      ChildrenAfter(db, p, name, q);
      assert GoodFile(db, f);
    }
  }

  lemma CreateListsGood(db: Store, p: int, name: string)
    requires ListsGood(db) && db.counter > 0
    ensures ListsGood(WithFile(db, p, name))
  {
    var db' := WithFile(db, p, name);
    forall q, c | c in Children(db', q) ensures GoodChild(db', q, c) {
      ChildrenAfter(db, p, name, q);
      assert GoodChild(db, q, c);
    }
    forall q, f | f in Files(db', q) ensures GoodFile(db', f) {
      ChildrenAfter(db, p, name, q);
      if f in Files(db, q) { assert GoodFile(db, f); }
    }
  }

  /** At most one list grows, by an id not used before. */
  ghost predicate OneListGrows(db: Store, db': Store, p: int) {
    && (forall q :: Children(db', q) == Children(db, q) ||
                    (q == p && Children(db', q) == [db.counter] + Children(db, q)))
    && (forall q :: Files(db', q) == Files(db, q) || (q == p && Files(db', q) == [db.counter] + Files(db, q)))
    && (Children(db', p) == Children(db, p) || Files(db', p) == Files(db, p))
  }

  lemma NoDuplicateAppears(db: Store, db': Store, p: int, q: int)
    requires ListsGood(db) && ListsApart(db) && OneListGrows(db, db', p)
    ensures NoDup(Children(db', q)) && NoDup(Files(db', q))
  {
    hide ListsGood, NoDup;
    NewIdUnused(db, q);
    NoDupCons(db.counter, Children(db, q));
    NoDupCons(db.counter, Files(db, q));
  }

  lemma ListsStayApart(db: Store, db': Store, p: int)
    requires ListsGood(db) && ListsApart(db) && OneListGrows(db, db', p)
    ensures ListsApart(db')
  {
    hide ListsGood, NoDup, Children, Files;
    var id := db.counter;
    forall q ensures id !in Children(db, q) && id !in Files(db, q) && NoDup(Children(db', q)) && NoDup(Files(db', q)) {
      NewIdUnused(db, q);
      NoDuplicateAppears(db, db', p, q);
    }
    forall q, r, c | c in Children(db', q) && c in Children(db', r) ensures q == r {
      if c != id { assert c in Children(db, q) && c in Children(db, r); }
    }
    forall q, r, f | f in Files(db', q) && f in Files(db', r) ensures q == r {
      if f != id { assert f in Files(db, q) && f in Files(db, r); }
    }
    forall q, r, c | c in Children(db', q) ensures c !in Files(db', r) {
      if c != id { assert c in Children(db, q); }
    }
  }

  /** vfs_mkdir keeps the tree, under a folder of the tree or under the id that stands for none. */
  lemma MkdirKeepsInv(db: Store, p: int, name: string)
    requires Inv(db) && (p == NO_ID || Rooted(db, p))
    ensures var db' := WithFolder(db, p, name);
            && Inv(db')
            && (p >= 0 ==> Rooted(db', db.counter) && FolderName(db', db.counter) == name)
            && forall id :: Rooted(db, id) ==> Rooted(db', id)
  {
    hide Rooted, ListsGood, ListsApart;
    var db' := WithFolder(db, p, name);
    var id := db.counter;
    forall q | Rooted(db, q) ensures Rooted(db', q) && q < id {
      RootedAfterFolder(db, p, name, q);
    }
    forall q
      ensures Children(db', q) == (if q == p then [id] else []) + Children(db, q) && Files(db', q) == Files(db, q)
    {
      ChildrenAfter(db, p, name, q);
    }
    MkdirListsGood(db, p, name);
    ListsStayApart(db, db', p);
    if p >= 0 {
      NewFolderRooted(db', p, id);
    }
  }

  lemma NewFolderRooted(db: Store, p: int, id: int)
    requires 0 <= p < id && id in Children(db, p) && Parent(db, id) == p && Rooted(db, p)
    ensures Rooted(db, id)
  {
  }

  /** vfs_createFile keeps the tree. */
  lemma CreateKeepsInv(db: Store, p: int, name: string)
    requires Inv(db) && (p == NO_ID || Rooted(db, p))
    ensures Inv(WithFile(db, p, name))
    ensures forall id :: Rooted(db, id) ==> Rooted(WithFile(db, p, name), id)
  {
    hide Rooted, ListsGood, ListsApart;
    var db' := WithFile(db, p, name);
    forall q | Rooted(db, q) ensures Rooted(db', q) {
      RootedAfterFile(db, p, name, q);
    }
    forall q
      ensures Files(db', q) == (if q == p then [db.counter] else []) + Files(db, q)
      ensures Children(db', q) == Children(db, q)
    {
      ChildrenAfter(db, p, name, q);
    }
    CreateListsGood(db, p, name);
    ListsStayApart(db, db', p);
  }

  /** A folder in the list of a folder of the tree is in the tree. */
  lemma ChildRooted(db: Store, p: int, c: int)
    requires Inv(db) && Rooted(db, p) && c in Children(db, p)
    ensures Rooted(db, c) && Parent(db, c) == p && p < c && p >= 0
  {
    assert GoodChild(db, p, c);
    RootedNonNegative(db, p);
  }

  lemma RootedNonNegative(db: Store, p: int)
    requires Rooted(db, p)
    ensures p >= 0
  {
  }

  lemma RootRooted(db: Store)
    ensures Rooted(db, ROOT)
  {
  }

  lemma ParentRooted(db: Store, id: int)
    requires Inv(db) && Rooted(db, id)
    ensures Rooted(db, Parent(db, id)) && id in db.parent && id in db.folderName
  {
    if id != ROOT {
      assert GoodChild(db, Parent(db, id), id);
    }
  }

  lemma FoundRooted(db: Store, dir: int, path: string, n: nat)
    requires Inv(db) && Rooted(db, dir)
    ensures FindObject(db, dir, path, n).Folder? ==> Rooted(db, FindObject(db, dir, path, n).id)
  {
    hide Rooted, Inv;
    var d := FindFolder(db, dir, path, n);
    ParentRooted(db, dir);
    if d != NO_ID && d in Children(db, dir) {
      ChildRooted(db, dir, d);
    }
  }

  /** Resolving a path from a folder of the tree never leaves the tree. */
  lemma {:induction false} WalkRooted(db: Store, dir: int, path: string, len: nat)
    requires Inv(db) && Rooted(db, dir) && len <= |path|
    ensures Walk(db, dir, path, len) == NO_ID || Rooted(db, Walk(db, dir, path, len))
    decreases len
  {
    hide Rooted, Inv, FindObject, NextLength;
    var n := NextLength(path[..len]);
    if n < len && FindObject(db, dir, path, n).Folder? {
      FoundRooted(db, dir, path, n);
      WalkRooted(db, FindObject(db, dir, path, n).id, path[n + 1..], len - n - 1);
    }
  }

  lemma ResolveRooted(db: Store, cwd: int, path: string, len: nat)
    requires Inv(db) && len <= |path| && (Rooted(db, cwd) || (path != [] && path[0] == '/'))
    ensures Resolve(db, cwd, path, len) == NO_ID || Rooted(db, Resolve(db, cwd, path, len))
  {
    hide Inv, Walk;
    if path != [] && path[0] == '/' {
      WalkRooted(db, ROOT, path[1..], if len > 0 then len - 1 else 0);
    } else {
      WalkRooted(db, cwd, path, len);
    }
  }
}
