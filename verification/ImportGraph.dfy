/** The import graph of a file system: what an import statement does to the names and files seen so
    far, which files can be reached, and which programs are free of import errors. */
module ImportGraph {
  import opened Options
  import opened ImportSet
  import opened ImportNames

  // An item after path resolution. `isTransitive` marks items found inside imported files.
  datatype Item = Stdlib(name: string) | Local(target: string, written: string, isTransitive: bool) | Unresolved
      | Skipped

  datatype Statement = Statement(file: string, items: seq<Item>)

  // What reading and parsing a file gives; a file that is not in the map cannot be read.
  datatype Parse = Broken | Program(imports: seq<Statement>)

  /** `members` lists the files of a target: one for a file, any number for a directory. */
  datatype FileSystem = FileSystem(paths: set<string>, files: map<string, Parse>, members: string -> seq<string>,
      isDirectory: string -> bool)

  ghost predicate IsFinite(fs: FileSystem) {
    && fs.files.Keys <= fs.paths && |fs.paths| < MAX_FILES
    && forall target: string, f: string {:trigger f in fs.members(target)} :: f in fs.members(target) ==> f in fs.paths
  }

  predicate NoRepeats(files: seq<string>) {
    forall i, j :: 0 <= i < j < |files| ==> files[i] != files[j]
  }

  predicate IsProgram(fs: FileSystem, f: string) {
    f in fs.files && fs.files[f].Program?
  }

  // ---------- When an item is an error ----------

  /** The file itself, not a directory it imported, brought the path in before. */
  predicate IsRepeated(owner: Owner, statementFile: string) {
    !owner.isFromDirectory && owner.from == Option.Some(statementFile)
  }

  /** A file of a new target: the entry imported alone, one the same file brought in alone, or no program. */
  predicate FileFails(fs: FileSystem, entry: string, owners: map<string, Owner>, f: string, isSingle: bool,
                      statementFile: string, isTransitive: bool) {
    || (isSingle && f == entry)
    || if f in owners then isSingle && !isTransitive && IsRepeated(owners[f], statementFile) else !IsProgram(fs, f)
  }

  predicate SomeFileFails(fs: FileSystem, entry: string, owners: map<string, Owner>, files: seq<string>,
                          statementFile: string, isTransitive: bool) {
    exists i :: 0 <= i < |files| && FileFails(fs, entry, owners, files[i], |files| == 1, statementFile, isTransitive)
  }

  /** A target is an error when the file names it twice, when its name is taken, or when it is new and
      one of its files is an error; a target another file imported before is none. */
  predicate TargetFails(fs: FileSystem, entry: string, seen: seq<Seen>, owners: map<string, Owner>, target: string,
                        written: string, statementFile: string, isTransitive: bool) {
    || RepeatsTarget(seen, target, statementFile) || NameCollides(seen, written, statementFile)
    || (!Targets(seen, target)
        && SomeFileFails(fs, entry, owners, fs.members(target), statementFile, isTransitive))
  }

  /** A library module is an error when a target bears its name, or the file that bound it names it again. */
  predicate StdlibFails(seen: seq<Seen>, name: string, statementFile: string) {
    var bound := FirstWritten(seen, name);
    bound < |seen| && (!seen[bound].isStdlib || seen[bound].file == statementFile)
  }

  predicate ItemFails(fs: FileSystem, entry: string, seen: seq<Seen>, owners: map<string, Owner>, item: Item,
                      statementFile: string) {
    match item
    case Skipped => false
    case Unresolved => true
    case Stdlib(name) => StdlibFails(seen, name, statementFile)
    case Local(target, written, isTransitive) =>
      TargetFails(fs, entry, seen, owners, target, written, statementFile, isTransitive)
  }

  // ---------- What an item brings in ----------

  /** Files without an owner get one. */
  function Claimed(owners: map<string, Owner>, files: seq<string>, owner: Owner): (r: map<string, Owner>) {
    map f | f in owners.Keys + (set g | g in files) :: if f in owners then owners[f] else owner
  }

  /** The files that have no owner, each once. */
  function Unread(owners: map<string, Owner>, files: seq<string>): (r: seq<string>) {
    if files == [] then []
    else
      var n := |files| - 1;
      Unread(owners, files[..n]) + if files[n] in owners || files[n] in files[..n] then [] else [files[n]]
  }

  // ---------- File after file ----------

  ghost predicate FailsUpTo(fs: FileSystem, entry: string, owners: map<string, Owner>, files: seq<string>, n: nat,
                            statementFile: string, isTransitive: bool) {
    exists i :: 0 <= i < n && i < |files|
                && FileFails(fs, entry, owners, files[i], |files| == 1, statementFile, isTransitive)
  }

  lemma FailsAtAll(fs: FileSystem, entry: string, owners: map<string, Owner>, files: seq<string>,
                   statementFile: string, isTransitive: bool)
    ensures !FailsUpTo(fs, entry, owners, files, 0, statementFile, isTransitive)
    ensures FailsUpTo(fs, entry, owners, files, |files|, statementFile, isTransitive)
            <==> SomeFileFails(fs, entry, owners, files, statementFile, isTransitive)
    ensures files[..|files|] == files
  {
  }

  // A file that comes twice in a target is an error both times or never.
  lemma FailsNext(fs: FileSystem, entry: string, owners: map<string, Owner>, files: seq<string>, n: nat,
                  owner: Owner, statementFile: string, isTransitive: bool)
    requires n < |files| && entry in owners
    ensures var now := Claimed(owners, files[..n], owner);
            FailsUpTo(fs, entry, owners, files, n + 1, statementFile, isTransitive)
            <==> FailsUpTo(fs, entry, owners, files, n, statementFile, isTransitive)
                 || FileFails(fs, entry, now, files[n], |files| == 1, statementFile, isTransitive)
  {
    var f, now := files[n], Claimed(owners, files[..n], owner);
    if f in files[..n] {
      var i :| 0 <= i < n && files[i] == f;
      assert f in owners ==> now[f] == owners[f];
    }
  }

  lemma ClaimedNext(owners: map<string, Owner>, files: seq<string>, n: nat, owner: Owner)
    requires n < |files|
    ensures Claimed(owners, files[..0], owner) == owners
    ensures var now := Claimed(owners, files[..n], owner);
            && Claimed(owners, files[..n + 1], owner) == (if files[n] in now then now else now[files[n] := owner])
            && Unread(owners, files[..n + 1]) == Unread(owners, files[..n]) + if files[n] in now then [] else [files[n]]
  {
    assert files[..n + 1][..n] == files[..n];
  }

  // ---------- Statements ----------

  /** The import statements of a file; those of the entry are given. */
  function Imports(fs: FileSystem, entry: string, first: seq<Statement>, f: string): seq<Statement> {
    if f == entry then first else if IsProgram(fs, f) then fs.files[f].imports else []
  }

  /** The statements of the entry and of the merged files, file after file. */
  function Statements(fs: FileSystem, entry: string, first: seq<Statement>, merged: seq<string>): seq<Statement> {
    if merged == [] then first
    else
      var n := |merged| - 1;
      Statements(fs, entry, first, merged[..n]) + Imports(fs, entry, first, merged[n])
  }

  lemma {:induction false} UnreadHas(owners: map<string, Owner>, files: seq<string>, f: string)
    ensures f in Unread(owners, files) <==> f in files && f !in owners
    ensures NoRepeats(Unread(owners, files))
  {
    if files != [] {
      var n := |files| - 1;
      UnreadHas(owners, files[..n], f);
      UnreadHas(owners, files[..n], files[n]);
    }
  }

  lemma StatementsStep(fs: FileSystem, entry: string, first: seq<Statement>, merged: seq<string>, f: string)
    ensures Statements(fs, entry, first, merged + [f])
            == Statements(fs, entry, first, merged) + Imports(fs, entry, first, f)
  {
    assert (merged + [f])[..|merged|] == merged;
  }

  /** The module of a target: the one it has, or the written name with the first suffix that makes it new. */
  ghost predicate IsModuleOf(seen: seq<Seen>, target: string, written: string, moduleName: string) {
    if Targets(seen, target) then
      exists i :: 0 <= i < |seen| && IsLocal(seen[i], target) && seen[i].moduleName == moduleName
    else IsFirstFree(seen, written, moduleName)
  }

  ghost predicate IsFirstFree(seen: seq<Seen>, written: string, name: string) {
    && !IsTaken(seen, name)
    && exists k: nat ::
         && 0 < k && name == Candidate(written, k)
         && forall j {:trigger Candidate(written, j)} :: 1 <= j < k ==> IsTaken(seen, Candidate(written, j))
  }

  /** A target is bound unless its name or itself is repeated; the files of a new one are read. */
  ghost predicate TargetBound(fs: FileSystem, target: string, written: string, file: string, seen: seq<Seen>,
                              seen': seq<Seen>, owners: map<string, Owner>, owners': map<string, Owner>,
                              merged: seq<string>, merged': seq<string>, failed': bool) {
    if RepeatsTarget(seen, target, file) || NameCollides(seen, written, file) then
      seen' == seen && owners' == owners && merged' == merged
    else
      && |seen'| == |seen| + 1 && seen <= seen'
      && var moduleName := seen'[|seen|].moduleName;
         && seen'[|seen|] == Seen(moduleName, written, target, file, false)
         && IsModuleOf(seen, target, written, moduleName)
         && if Targets(seen, target) then owners' == owners && merged' == merged
            else
              && owners' == Claimed(owners, fs.members(target),
                                    Owner(Option.Some(moduleName), Option.Some(file), fs.isDirectory(target)))
              && (forall f <- merged' :: f in merged || f in fs.members(target))
              && (!failed' ==> merged' == merged + Unread(owners, fs.members(target)))
  }

  ghost predicate ItemBound(fs: FileSystem, item: Item, file: string, seen: seq<Seen>, seen': seq<Seen>,
                            owners: map<string, Owner>, owners': map<string, Owner>, merged: seq<string>,
                            merged': seq<string>, failed': bool) {
    match item
    case Local(target, written, _) =>
      TargetBound(fs, target, written, file, seen, seen', owners, owners', merged, merged', failed')
    case Stdlib(name) =>
      && owners' == owners && merged' == merged
      && seen' == seen + if FirstWritten(seen, name) < |seen| then [] else [Seen(name, name, "", file, true)]
    case _ => seen' == seen && owners' == owners && merged' == merged
  }

  // ---------- Reachable files ----------

  predicate Names(fs: FileSystem, statements: seq<Statement>, f: string) {
    exists s: nat, k: nat :: s < |statements| && k < |statements[s].items| && Brings(fs, statements[s].items[k], f)
  }

  predicate Brings(fs: FileSystem, item: Item, f: string) {
    item.Local? && f in fs.members(item.target)
  }

  /** Each file of the path imports the next, and the first is the entry. */
  predicate IsPath(fs: FileSystem, entry: string, first: seq<Statement>, path: seq<string>) {
    && path != [] && path[0] == entry
    && forall i :: 0 <= i < |path| - 1 ==> ImportsFile(fs, entry, first, path[i], path[i + 1])
  }

  predicate ImportsFile(fs: FileSystem, entry: string, first: seq<Statement>, from: string, f: string) {
    Names(fs, Imports(fs, entry, first, from), f)
  }

  ghost predicate Reachable(fs: FileSystem, entry: string, first: seq<Statement>, f: string) {
    exists path :: IsPath(fs, entry, first, path) && path[|path| - 1] == f
  }

  lemma EntryIsReachable(fs: FileSystem, entry: string, first: seq<Statement>)
    ensures Reachable(fs, entry, first, entry)
  {
    var path := [entry];
    assert IsPath(fs, entry, first, path) && path[|path| - 1] == entry;
  }

  lemma ReachesOn(fs: FileSystem, entry: string, first: seq<Statement>, from: string, f: string)
    requires Reachable(fs, entry, first, from) && ImportsFile(fs, entry, first, from, f)
    ensures Reachable(fs, entry, first, f)
  {
    hide ImportsFile;
    var path :| IsPath(fs, entry, first, path) && path[|path| - 1] == from;
    var longer := path + [f];
    assert IsPath(fs, entry, first, longer) && longer[|longer| - 1] == f;
  }

  // ---------- Programs without import errors ----------

  /** Item k of statement s of the file. */
  predicate StandsAt(fs: FileSystem, entry: string, first: seq<Statement>, f: string, s: nat, k: nat, item: Item) {
    var statements := Imports(fs, entry, first, f);
    s < |statements| && k < |statements[s].items| && statements[s].items[k] == item
  }

  /** The item was resolved, and each of its files is a program or, not alone, the entry. */
  predicate IsSound(fs: FileSystem, entry: string, item: Item) {
    && !item.Unresolved?
    && (item.Local? ==>
          fs.members(item.target) != [entry] && forall f <- fs.members(item.target) :: f == entry || IsProgram(fs, f))
  }

  predicate IsOnly(fs: FileSystem, target: string) {
    |fs.members(target)| == 1
  }

  /** Two items of one file name different targets and bind different names, and b is not a directory
      with no file but the one that a names. */
  predicate Agree(fs: FileSystem, a: Item, b: Item) {
    && (a.Local? && b.Local? ==>
          && a.target != b.target && a.written != b.written
          && !(IsOnly(fs, b.target) && !b.isTransitive && !fs.isDirectory(a.target)
               && fs.members(b.target)[0] in fs.members(a.target)))
    && (a.Stdlib? && b.Stdlib? ==> a.name != b.name)
  }

  /** No library module has the name of a target. */
  predicate NamesDiffer(a: Item, b: Item) {
    a.Stdlib? && b.Local? ==> a.name != b.written
  }

  ghost predicate StatementsKnowTheirFile(fs: FileSystem, entry: string, first: seq<Statement>) {
    forall f, s: nat :: Reachable(fs, entry, first, f) && s < |Imports(fs, entry, first, f)| ==>
        Imports(fs, entry, first, f)[s].file == f
  }

  ghost predicate ItemsAreSound(fs: FileSystem, entry: string, first: seq<Statement>) {
    forall f, s, k, item :: Reachable(fs, entry, first, f) && StandsAt(fs, entry, first, f, s, k, item) ==>
        IsSound(fs, entry, item)
  }

  ghost predicate ItemsAgree(fs: FileSystem, entry: string, first: seq<Statement>) {
    forall f, s, k, a, t, l, b ::
      && Reachable(fs, entry, first, f) && StandsAt(fs, entry, first, f, s, k, a)
      && StandsAt(fs, entry, first, f, t, l, b) && (s != t || k != l) ==>
        Agree(fs, a, b)
  }

  ghost predicate NamesAreApart(fs: FileSystem, entry: string, first: seq<Statement>) {
    forall f, s, k, a, g, t, l, b ::
      && Reachable(fs, entry, first, f) && StandsAt(fs, entry, first, f, s, k, a)
      && Reachable(fs, entry, first, g) && StandsAt(fs, entry, first, g, t, l, b) ==>
        NamesDiffer(a, b)
  }

  /** Everything reachable is resolved, its files are programs, and no file repeats a target or a name. */
  ghost predicate IsWellFormed(fs: FileSystem, entry: string, first: seq<Statement>) {
    && StatementsKnowTheirFile(fs, entry, first) && ItemsAreSound(fs, entry, first)
    && ItemsAgree(fs, entry, first) && NamesAreApart(fs, entry, first)
  }

  // ---------- The queue ----------

  datatype Place = Place(file: string, index: nat)

  /** Which statement of which file stands at q in the queue. */
  function PlaceAt(fs: FileSystem, entry: string, first: seq<Statement>, merged: seq<string>, q: nat): Place {
    if merged == [] then Place(entry, q)
    else
      var n := |merged| - 1;
      var before := |Statements(fs, entry, first, merged[..n])|;
      if q < before then PlaceAt(fs, entry, first, merged[..n], q) else Place(merged[n], q - before)
  }

  lemma {:induction false} PlaceHolds(fs: FileSystem, entry: string, first: seq<Statement>, merged: seq<string>, q: nat)
    requires q < |Statements(fs, entry, first, merged)|
    ensures var place := PlaceAt(fs, entry, first, merged, q);
            && (place.file == entry || place.file in merged) && place.index < |Imports(fs, entry, first, place.file)|
            && Imports(fs, entry, first, place.file)[place.index] == Statements(fs, entry, first, merged)[q]
    decreases |merged|
  {
    hide Imports;
    if merged == [] {
      assert Imports(fs, entry, first, entry) == first by {
        EntryImports(fs, entry, first);
      }
    } else {
      var n := |merged| - 1;
      if q < |Statements(fs, entry, first, merged[..n])| {
        PlaceHolds(fs, entry, first, merged[..n], q);
      }
    }
  }

  lemma EntryImports(fs: FileSystem, entry: string, first: seq<Statement>)
    ensures Imports(fs, entry, first, entry) == first
  {
  }

  lemma {:induction false} PlacesDiffer(fs: FileSystem, entry: string, first: seq<Statement>, merged: seq<string>,
                                        p: nat, q: nat)
    requires NoRepeats(merged) && entry !in merged && p < q < |Statements(fs, entry, first, merged)|
    ensures PlaceAt(fs, entry, first, merged, p) != PlaceAt(fs, entry, first, merged, q)
    decreases |merged|
  {
    hide Imports;
    if merged != [] {
      var n := |merged| - 1;
      var before := |Statements(fs, entry, first, merged[..n])|;
      assert merged[n] !in merged[..n];
      if q < before {
        PlacesDiffer(fs, entry, first, merged[..n], p, q);
      } else if p < before {
        PlaceHolds(fs, entry, first, merged[..n], p);
      }
    }
  }

  // ---------- Where names and owners come from ----------

  /** Item k of queue entry q comes before item n of entry h. */
  predicate Earlier(q: nat, k: nat, h: nat, n: nat) {
    q < h || (q == h && k < n)
  }

  predicate IsItem(queue: seq<Statement>, q: nat, k: nat) {
    q < |queue| && k < |queue[q].items|
  }

  predicate Binds(item: Item, file: string, s: Seen) {
    && s.file == file
    && if s.isStdlib then item == Stdlib(s.written)
       else item.Local? && item.target == s.target && item.written == s.written
  }

  predicate Owns(fs: FileSystem, item: Item, file: string, f: string, owner: Owner) {
    && Brings(fs, item, f) && owner.from == Option.Some(file) && owner.isFromDirectory == fs.isDirectory(item.target)
  }

  /** An item before item n of entry h bound the name. */
  ghost predicate IsBound(queue: seq<Statement>, h: nat, n: nat, s: Seen) {
    exists q: nat, k: nat ::
      IsItem(queue, q, k) && Earlier(q, k, h, n) && Binds(queue[q].items[k], queue[q].file, s)
  }

  ghost predicate IsOwned(fs: FileSystem, queue: seq<Statement>, h: nat, n: nat, f: string, owner: Owner) {
    exists q: nat, k: nat ::
      IsItem(queue, q, k) && Earlier(q, k, h, n) && Owns(fs, queue[q].items[k], queue[q].file, f, owner)
  }

  /** Every name and every owner goes back to an item that has been dealt with, and every merged file
      can be reached. */
  ghost predicate Explained(fs: FileSystem, entry: string, first: seq<Statement>, queue: seq<Statement>, h: nat, n: nat,
                            seen: seq<Seen>, owners: map<string, Owner>, merged: seq<string>) {
    && queue == Statements(fs, entry, first, merged) && NoRepeats(merged) && entry !in merged
    && (forall f <- merged :: Reachable(fs, entry, first, f))
    && (forall i :: 0 <= i < |seen| ==> IsBound(queue, h, n, seen[i]))
    && entry in owners && owners[entry].from.None?
    && (forall f <- owners :: f != entry ==> IsOwned(fs, queue, h, n, f, owners[f]))
  }

  lemma NothingToExplain(fs: FileSystem, entry: string, first: seq<Statement>, owner: Owner)
    requires owner.from.None?
    ensures Explained(fs, entry, first, first, 0, 0, [], map[entry := owner], [])
  {
  }

  // After the last item of an entry comes the first of the next.
  lemma NextEntry(fs: FileSystem, entry: string, first: seq<Statement>, queue: seq<Statement>, h: nat, n: nat,
                  seen: seq<Seen>, owners: map<string, Owner>, merged: seq<string>)
    requires Explained(fs, entry, first, queue, h, n, seen, owners, merged) && h < |queue| && n == |queue[h].items|
    ensures Explained(fs, entry, first, queue, h + 1, 0, seen, owners, merged)
  {
    hide Statements, Reachable;
    forall i | 0 <= i < |seen| ensures IsBound(queue, h + 1, 0, seen[i]) {
      assert IsBound(queue, h, n, seen[i]);
      var q: nat, k: nat :| IsItem(queue, q, k) && Earlier(q, k, h, n)
                            && Binds(queue[q].items[k], queue[q].file, seen[i]);
      assert Earlier(q, k, h + 1, 0);
    }
    forall f <- owners | f != entry ensures IsOwned(fs, queue, h + 1, 0, f, owners[f]) {
      var q: nat, k: nat :| IsItem(queue, q, k) && Earlier(q, k, h, n)
                            && Owns(fs, queue[q].items[k], queue[q].file, f, owners[f]);
      assert Earlier(q, k, h + 1, 0);
    }
  }

  /** What one item may add: a name that it binds, owners and merged files that it brings in. */
  ghost predicate Adds(fs: FileSystem, item: Item, file: string, seen: seq<Seen>, seen': seq<Seen>,
                       owners: map<string, Owner>, owners': map<string, Owner>, merged: seq<string>,
                       merged': seq<string>) {
    && (seen' == seen || (|seen'| == |seen| + 1 && seen <= seen' && Binds(item, file, seen'[|seen|])))
    && owners.Keys <= owners'.Keys && (forall f <- owners :: owners'[f] == owners[f])
    && (forall f <- owners' :: f in owners || Owns(fs, item, file, f, owners'[f]))
    && (forall f <- merged' :: f in merged || Brings(fs, item, f))
  }

  lemma BoundAdds(fs: FileSystem, item: Item, file: string, seen: seq<Seen>, seen': seq<Seen>,
                  owners: map<string, Owner>, owners': map<string, Owner>, merged: seq<string>, merged': seq<string>,
                  failed': bool)
    requires ItemBound(fs, item, file, seen, seen', owners, owners', merged, merged', failed')
    ensures Adds(fs, item, file, seen, seen', owners, owners', merged, merged')
  {
    hide IsModuleOf, Targets, RepeatsTarget, NameCollides, Unread, FirstWritten;
  }

  lemma ItemExplained(fs: FileSystem, entry: string, first: seq<Statement>, queue: seq<Statement>,
                      queue': seq<Statement>, h: nat, n: nat, seen: seq<Seen>, seen': seq<Seen>,
                      owners: map<string, Owner>, owners': map<string, Owner>, merged: seq<string>,
                      merged': seq<string>)
    requires Explained(fs, entry, first, queue, h, n, seen, owners, merged) && IsItem(queue, h, n)
    requires Adds(fs, queue[h].items[n], queue[h].file, seen, seen', owners, owners', merged, merged')
    requires queue <= queue' == Statements(fs, entry, first, merged') && NoRepeats(merged') && entry !in merged'
    ensures Explained(fs, entry, first, queue', h, n + 1, seen', owners', merged')
  {
    hide Statements, Reachable, Brings, IsBound, IsOwned, Binds, Owns;
    forall f <- merged' ensures Reachable(fs, entry, first, f) {
      if f !in merged {
        BroughtIsReachable(fs, entry, first, queue, h, n, seen, owners, merged, f);
      }
    }
    forall i | 0 <= i < |seen'| ensures IsBound(queue', h, n + 1, seen'[i]) {
      if i < |seen| {
        assert seen'[i] == seen[i] && IsBound(queue, h, n, seen[i]);
        StaysBound(queue, queue', h, n, seen[i]);
      } else {
        NewlyBound(queue', h, n, seen'[i]);
      }
    }
    forall f <- owners' | f != entry ensures IsOwned(fs, queue', h, n + 1, f, owners'[f]) {
      if f in owners {
        StaysOwned(fs, queue, queue', h, n, f, owners[f]);
      } else {
        NewlyOwned(fs, queue', h, n, f, owners'[f]);
      }
    }
  }

  lemma StaysBound(queue: seq<Statement>, queue': seq<Statement>, h: nat, n: nat, s: Seen)
    requires queue <= queue' && IsBound(queue, h, n, s)
    ensures IsBound(queue', h, n + 1, s)
  {
    var q: nat, k: nat :| IsItem(queue, q, k) && Earlier(q, k, h, n)
                          && Binds(queue[q].items[k], queue[q].file, s);
    assert IsItem(queue', q, k) && Earlier(q, k, h, n + 1);
  }

  lemma NewlyBound(queue: seq<Statement>, h: nat, n: nat, s: Seen)
    requires IsItem(queue, h, n) && Binds(queue[h].items[n], queue[h].file, s)
    ensures IsBound(queue, h, n + 1, s)
  {
    assert Earlier(h, n, h, n + 1);
  }

  lemma StaysOwned(fs: FileSystem, queue: seq<Statement>, queue': seq<Statement>, h: nat, n: nat, f: string,
                   owner: Owner)
    requires queue <= queue' && IsOwned(fs, queue, h, n, f, owner)
    ensures IsOwned(fs, queue', h, n + 1, f, owner)
  {
    var q: nat, k: nat :| IsItem(queue, q, k) && Earlier(q, k, h, n)
                          && Owns(fs, queue[q].items[k], queue[q].file, f, owner);
    assert IsItem(queue', q, k) && Earlier(q, k, h, n + 1);
  }

  lemma NewlyOwned(fs: FileSystem, queue: seq<Statement>, h: nat, n: nat, f: string, owner: Owner)
    requires IsItem(queue, h, n) && Owns(fs, queue[h].items[n], queue[h].file, f, owner)
    ensures IsOwned(fs, queue, h, n + 1, f, owner)
  {
    assert Earlier(h, n, h, n + 1);
  }

  /** The file and the statement number of a queue entry. */
  lemma Located(fs: FileSystem, entry: string, first: seq<Statement>, queue: seq<Statement>, h: nat, n: nat,
                seen: seq<Seen>, owners: map<string, Owner>, merged: seq<string>, q: nat, k: nat)
    requires Explained(fs, entry, first, queue, h, n, seen, owners, merged) && IsItem(queue, q, k)
    ensures var place := PlaceAt(fs, entry, first, merged, q);
            && Reachable(fs, entry, first, place.file) && place.index < |Imports(fs, entry, first, place.file)|
            && Imports(fs, entry, first, place.file)[place.index] == queue[q]
            && StandsAt(fs, entry, first, place.file, place.index, k, queue[q].items[k])
  {
    hide Statements, Reachable, PlaceAt, Imports;
    PlaceHolds(fs, entry, first, merged, q);
    EntryIsReachable(fs, entry, first);
  }

  lemma BroughtIsReachable(fs: FileSystem, entry: string, first: seq<Statement>, queue: seq<Statement>, h: nat, n: nat,
                           seen: seq<Seen>, owners: map<string, Owner>, merged: seq<string>, f: string)
    requires Explained(fs, entry, first, queue, h, n, seen, owners, merged) && IsItem(queue, h, n)
    requires Brings(fs, queue[h].items[n], f)
    ensures Reachable(fs, entry, first, f)
  {
    hide Explained, Reachable, PlaceAt, Imports, Brings;
    Located(fs, entry, first, queue, h, n, seen, owners, merged, h, n);
    var place := PlaceAt(fs, entry, first, merged, h);
    assert ImportsFile(fs, entry, first, place.file, f);
    ReachesOn(fs, entry, first, place.file, f);
  }

  // ---------- A well-formed program has no import errors ----------

  /** An earlier item of the same file agrees with this one. */
  lemma EarlierAgrees(fs: FileSystem, entry: string, first: seq<Statement>, queue: seq<Statement>, h: nat, n: nat,
                      seen: seq<Seen>, owners: map<string, Owner>, merged: seq<string>, q: nat, k: nat)
    requires Explained(fs, entry, first, queue, h, n, seen, owners, merged) && IsWellFormed(fs, entry, first)
    requires IsItem(queue, h, n) && IsItem(queue, q, k) && Earlier(q, k, h, n)
    ensures queue[q].file == queue[h].file ==> Agree(fs, queue[q].items[k], queue[h].items[n])
    ensures NamesDiffer(queue[q].items[k], queue[h].items[n]) && NamesDiffer(queue[h].items[n], queue[q].items[k])
  {
    hide Reachable, StandsAt, Agree, NamesDiffer, Statements, ItemsAreSound, IsBound, IsOwned, PlaceAt, Imports;
    Located(fs, entry, first, queue, h, n, seen, owners, merged, h, n);
    Located(fs, entry, first, queue, h, n, seen, owners, merged, q, k);
    if q < h {
      PlacesDiffer(fs, entry, first, merged, q, h);
    }
  }

  lemma BoundNameAgrees(fs: FileSystem, entry: string, first: seq<Statement>, queue: seq<Statement>, h: nat, n: nat,
                        seen: seq<Seen>, owners: map<string, Owner>, merged: seq<string>, i: nat)
    requires Explained(fs, entry, first, queue, h, n, seen, owners, merged) && IsItem(queue, h, n)
    requires IsWellFormed(fs, entry, first) && i < |seen|
    ensures var item, s := queue[h].items[n], seen[i];
            && (item.Local? ==> if s.isStdlib then s.written != item.written
                                else s.file == queue[h].file ==> s.target != item.target && s.written != item.written)
            && (item.Stdlib? && s.written == item.name ==> s.isStdlib && s.file != queue[h].file)
  {
    hide IsWellFormed, Reachable, Statements, IsOwned, Imports;
    assert IsBound(queue, h, n, seen[i]);
    var q: nat, k: nat :| IsItem(queue, q, k) && Earlier(q, k, h, n)
                            && Binds(queue[q].items[k], queue[q].file, seen[i]);
    EarlierAgrees(fs, entry, first, queue, h, n, seen, owners, merged, q, k);
  }

  lemma FileIsRight(fs: FileSystem, entry: string, first: seq<Statement>, queue: seq<Statement>, h: nat, n: nat,
                    seen: seq<Seen>, owners: map<string, Owner>, merged: seq<string>, i: nat)
    requires Explained(fs, entry, first, queue, h, n, seen, owners, merged) && IsItem(queue, h, n)
    requires IsWellFormed(fs, entry, first) && queue[h].items[n].Local? && IsSound(fs, entry, queue[h].items[n])
    requires i < |fs.members(queue[h].items[n].target)|
    ensures var item := queue[h].items[n];
            var files := fs.members(item.target);
            !FileFails(fs, entry, owners, files[i], |files| == 1, queue[h].file, item.isTransitive)
  {
    hide IsWellFormed, Reachable, Statements, IsBound, Imports;
    var item := queue[h].items[n];
    var files := fs.members(item.target);
    var f := files[i];
    assert |files| == 1 ==> files == [f];
    if f in owners && f != entry && |files| == 1 && IsRepeated(owners[f], queue[h].file) {
      assert IsOwned(fs, queue, h, n, f, owners[f]);
      var q: nat, k: nat :| IsItem(queue, q, k) && Earlier(q, k, h, n)
                            && Owns(fs, queue[q].items[k], queue[q].file, f, owners[f]);
      EarlierAgrees(fs, entry, first, queue, h, n, seen, owners, merged, q, k);
      assert item.isTransitive;
    }
  }

  /** In a well-formed program no item is an error. */
  lemma ItemIsRight(fs: FileSystem, entry: string, first: seq<Statement>, queue: seq<Statement>, h: nat, n: nat,
                    seen: seq<Seen>, owners: map<string, Owner>, merged: seq<string>)
    requires Explained(fs, entry, first, queue, h, n, seen, owners, merged) && IsItem(queue, h, n)
    requires IsWellFormed(fs, entry, first)
    ensures !ItemFails(fs, entry, seen, owners, queue[h].items[n], queue[h].file)
  {
    hide Explained, IsWellFormed, Reachable, FileFails, FirstWritten;
    var item := queue[h].items[n];
    ItemIsSound(fs, entry, first, queue, h, n, seen, owners, merged);
    forall i: nat | i < |seen|
      ensures item.Local? ==> if seen[i].isStdlib then seen[i].written != item.written
              else seen[i].file == queue[h].file ==> seen[i].target != item.target && seen[i].written != item.written
      ensures item.Stdlib? && seen[i].written == item.name ==> seen[i].isStdlib && seen[i].file != queue[h].file
    {
      BoundNameAgrees(fs, entry, first, queue, h, n, seen, owners, merged, i);
    }
    if item.Local? {
      var files := fs.members(item.target);
      forall i: nat | i < |files|
        ensures !FileFails(fs, entry, owners, files[i], |files| == 1, queue[h].file, item.isTransitive)
      {
        FileIsRight(fs, entry, first, queue, h, n, seen, owners, merged, i);
      }
    }
  }

  lemma ItemIsSound(fs: FileSystem, entry: string, first: seq<Statement>, queue: seq<Statement>, h: nat, n: nat,
                    seen: seq<Seen>, owners: map<string, Owner>, merged: seq<string>)
    requires Explained(fs, entry, first, queue, h, n, seen, owners, merged) && IsItem(queue, h, n)
    requires IsWellFormed(fs, entry, first)
    ensures IsSound(fs, entry, queue[h].items[n])
  {
    hide Explained, IsSound, Reachable, StandsAt, PlaceAt, Imports;
    Located(fs, entry, first, queue, h, n, seen, owners, merged, h, n);
  }

  // ---------- All reachable files ----------

  /** The files of every queued import are the entry or merged. */
  ghost predicate IsClosed(fs: FileSystem, entry: string, queue: seq<Statement>, merged: seq<string>) {
    forall q: nat, k: nat, f :: IsItem(queue, q, k) && Brings(fs, queue[q].items[k], f) ==> f == entry || f in merged
  }

  lemma {:induction false} ImportsAreQueued(fs: FileSystem, entry: string, first: seq<Statement>, merged: seq<string>,
                                            f: string, s: nat) returns (q: nat)
    requires (f == entry || f in merged) && s < |Imports(fs, entry, first, f)|
    ensures q < |Statements(fs, entry, first, merged)| && PlaceAt(fs, entry, first, merged, q) == Place(f, s)
    ensures Statements(fs, entry, first, merged)[q] == Imports(fs, entry, first, f)[s]
    decreases |merged|
  {
    hide Imports;
    if merged == [] {
      EntryImports(fs, entry, first);
      q := s;
    } else {
      var n := |merged| - 1;
      if f == merged[n] {
        q := |Statements(fs, entry, first, merged[..n])| + s;
      } else {
        q := ImportsAreQueued(fs, entry, first, merged[..n], f, s);
      }
    }
  }

  lemma {:induction false} PathIsMerged(fs: FileSystem, entry: string, first: seq<Statement>, merged: seq<string>,
                                        path: seq<string>)
    requires IsClosed(fs, entry, Statements(fs, entry, first, merged), merged) && IsPath(fs, entry, first, path)
    ensures path[|path| - 1] == entry || path[|path| - 1] in merged
    decreases |path|
  {
    hide Statements, Imports, Brings;
    if |path| > 1 {
      var n := |path| - 2;
      PathIsMerged(fs, entry, first, merged, path[..n + 1]);
      assert ImportsFile(fs, entry, first, path[n], path[n + 1]);
      var imports := Imports(fs, entry, first, path[n]);
      var s: nat, k: nat :| s < |imports| && k < |imports[s].items| && Brings(fs, imports[s].items[k], path[n + 1]);
      var q := ImportsAreQueued(fs, entry, first, merged, path[n], s);
      assert IsItem(Statements(fs, entry, first, merged), q, k);
    }
  }

  /** A closed set of merged files that can be reached is all that can be reached. */
  lemma MergedIsReachable(fs: FileSystem, entry: string, first: seq<Statement>, merged: seq<string>, f: string)
    requires IsClosed(fs, entry, Statements(fs, entry, first, merged), merged)
    requires entry !in merged && forall g <- merged :: Reachable(fs, entry, first, g)
    ensures f in merged <==> f != entry && Reachable(fs, entry, first, f)
  {
    hide Statements, IsClosed;
    if Reachable(fs, entry, first, f) {
      var path :| IsPath(fs, entry, first, path) && path[|path| - 1] == f;
      PathIsMerged(fs, entry, first, merged, path);
    }
  }

  // ---------- What a run without errors has ruled out ----------

  /** The item's name has been bound, for its target or as a library module. */
  ghost predicate IsRecorded(item: Item, file: string, seen: seq<Seen>) {
    && (item.Local? ==> exists i :: 0 <= i < |seen| && !seen[i].isStdlib && Binds(item, file, seen[i]))
    && (item.Stdlib? ==> exists i :: 0 <= i < |seen| && seen[i].isStdlib && seen[i].written == item.name)
  }

  /** Items that cannot both stand, wherever they are: a name for a target and a library module, or one
      target or name twice in one file. */
  predicate Differ(a: Item, fileA: string, b: Item, fileB: string) {
    && NamesDiffer(a, b) && NamesDiffer(b, a)
    && (a.Local? && b.Local? && fileA == fileB ==> a.target != b.target && a.written != b.written)
  }

  ghost predicate IsVetted(fs: FileSystem, entry: string, queue: seq<Statement>, q: nat, k: nat, seen: seq<Seen>)
    requires IsItem(queue, q, k)
  {
    && IsSound(fs, entry, queue[q].items[k]) && IsRecorded(queue[q].items[k], queue[q].file, seen)
    && forall p: nat, l: nat :: IsItem(queue, p, l) && Earlier(p, l, q, k) ==>
        Differ(queue[p].items[l], queue[p].file, queue[q].items[k], queue[q].file)
  }

  /** Every item before item n of entry h is sound, recorded, and differs from those before it. */
  ghost predicate Vetted(fs: FileSystem, entry: string, queue: seq<Statement>, h: nat, n: nat, seen: seq<Seen>) {
    forall q: nat, k: nat :: IsItem(queue, q, k) && Earlier(q, k, h, n) ==> IsVetted(fs, entry, queue, q, k, seen)
  }

  /** The new item is sound: its files are programs, or an item with the same target was sound before. */
  lemma FaultlessIsSound(fs: FileSystem, entry: string, first: seq<Statement>, queue: seq<Statement>, h: nat, n: nat,
                         seen: seq<Seen>, owners: map<string, Owner>, merged: seq<string>)
    requires Explained(fs, entry, first, queue, h, n, seen, owners, merged) && IsItem(queue, h, n)
    requires Vetted(fs, entry, queue, h, n, seen) && forall f <- owners :: f == entry || IsProgram(fs, f)
    requires !ItemFails(fs, entry, seen, owners, queue[h].items[n], queue[h].file)
    ensures IsSound(fs, entry, queue[h].items[n])
  {
    hide Reachable, Statements, IsOwned, FirstWritten, IsRecorded, Differ;
    var item := queue[h].items[n];
    if item.Local? {
      if Targets(seen, item.target) {
        var i :| 0 <= i < |seen| && IsLocal(seen[i], item.target);
        assert IsBound(queue, h, n, seen[i]);
        var q: nat, k: nat :| IsItem(queue, q, k) && Earlier(q, k, h, n)
                              && Binds(queue[q].items[k], queue[q].file, seen[i]);
        assert IsVetted(fs, entry, queue, q, k, seen);
      } else {
        NewFilesAreSound(fs, entry, owners, item, queue[h].file);
      }
    }
  }

  lemma NewFilesAreSound(fs: FileSystem, entry: string, owners: map<string, Owner>, item: Item, file: string)
    requires item.Local? && forall f <- owners :: f == entry || IsProgram(fs, f)
    requires !SomeFileFails(fs, entry, owners, fs.members(item.target), file, item.isTransitive)
    ensures IsSound(fs, entry, item)
  {
    var files := fs.members(item.target);
    forall f <- files ensures f == entry || IsProgram(fs, f) {
      var i :| 0 <= i < |files| && files[i] == f;
      assert !FileFails(fs, entry, owners, files[i], |files| == 1, file, item.isTransitive);
    }
    if files == [entry] {
      assert FileFails(fs, entry, owners, files[0], |files| == 1, file, item.isTransitive);
    }
  }

  // No library module has been bound under the name of a target.
  lemma SeenAreApart(fs: FileSystem, entry: string, first: seq<Statement>, queue: seq<Statement>, h: nat, n: nat,
                     seen: seq<Seen>, owners: map<string, Owner>, merged: seq<string>, i: nat, j: nat)
    requires Explained(fs, entry, first, queue, h, n, seen, owners, merged) && Vetted(fs, entry, queue, h, n, seen)
    requires i < |seen| && j < |seen| && seen[i].isStdlib && !seen[j].isStdlib
    ensures seen[i].written != seen[j].written
  {
    hide Reachable, Statements, IsOwned, IsSound, IsRecorded;
    assert IsBound(queue, h, n, seen[i]) && IsBound(queue, h, n, seen[j]);
    var q: nat, k: nat :| IsItem(queue, q, k) && Earlier(q, k, h, n)
                          && Binds(queue[q].items[k], queue[q].file, seen[i]);
    var p: nat, l: nat :| IsItem(queue, p, l) && Earlier(p, l, h, n)
                          && Binds(queue[p].items[l], queue[p].file, seen[j]);
    assert IsVetted(fs, entry, queue, q, k, seen) && IsVetted(fs, entry, queue, p, l, seen);
    assert Earlier(q, k, p, l) || Earlier(p, l, q, k);
  }

  // An item that is no error differs from every item before it.
  lemma FaultlessDiffers(fs: FileSystem, entry: string, first: seq<Statement>, queue: seq<Statement>, h: nat, n: nat,
                         seen: seq<Seen>, owners: map<string, Owner>, merged: seq<string>, q: nat, k: nat)
    requires Explained(fs, entry, first, queue, h, n, seen, owners, merged) && Vetted(fs, entry, queue, h, n, seen)
    requires IsItem(queue, h, n) && !ItemFails(fs, entry, seen, owners, queue[h].items[n], queue[h].file)
    requires IsItem(queue, q, k) && Earlier(q, k, h, n)
    ensures Differ(queue[q].items[k], queue[q].file, queue[h].items[n], queue[h].file)
  {
    hide Explained, SomeFileFails, Vetted, IsSound;
    var item, other := queue[h].items[n], queue[q].items[k];
    VettedItem(fs, entry, queue, h, n, seen, q, k);
    if other.Local? {
      var i :| 0 <= i < |seen| && !seen[i].isStdlib && Binds(other, queue[q].file, seen[i]);
      if item.Stdlib? && item.name == other.written {
        NameIsSeen(seen, other.written, i);
        SeenAreApart(fs, entry, first, queue, h, n, seen, owners, merged, FirstWritten(seen, item.name), i);
      }
    }
  }

  lemma VettedItem(fs: FileSystem, entry: string, queue: seq<Statement>, h: nat, n: nat, seen: seq<Seen>, q: nat,
                   k: nat)
    requires Vetted(fs, entry, queue, h, n, seen) && IsItem(queue, q, k) && Earlier(q, k, h, n)
    ensures IsVetted(fs, entry, queue, q, k, seen)
  {
  }

  lemma {:induction false} NameIsSeen(seen: seq<Seen>, name: string, i: nat)
    requires i < |seen| && seen[i].written == name
    ensures FirstWritten(seen, name) <= i
  {
    if i > 0 && seen[0].written != name {
      NameIsSeen(seen[1..], name, i - 1);
    }
  }

  lemma ItemRecorded(fs: FileSystem, item: Item, file: string, seen: seq<Seen>, seen': seq<Seen>,
                     owners: map<string, Owner>, owners': map<string, Owner>, merged: seq<string>, merged': seq<string>,
                     entry: string, failed': bool)
    requires ItemBound(fs, item, file, seen, seen', owners, owners', merged, merged', failed')
    requires !ItemFails(fs, entry, seen, owners, item, file)
    ensures IsRecorded(item, file, seen') && seen <= seen'
  {
    hide IsModuleOf, Targets, Unread, Claimed, SomeFileFails;
    match item {
      case Local(target, written, _) =>
        assert Binds(item, file, seen'[|seen|]);
      case Stdlib(name) =>
        if FirstWritten(seen, name) < |seen| {
          assert seen'[FirstWritten(seen, name)].isStdlib;
        } else {
          assert seen'[|seen|].isStdlib;
        }
      case _ =>
    }
  }

  lemma StaysRecorded(item: Item, file: string, seen: seq<Seen>, seen': seq<Seen>)
    requires IsRecorded(item, file, seen) && seen <= seen'
    ensures IsRecorded(item, file, seen')
  {
    if item.Local? {
      var i :| 0 <= i < |seen| && !seen[i].isStdlib && Binds(item, file, seen[i]);
      assert seen'[i] == seen[i];
    }
    if item.Stdlib? {
      var i :| 0 <= i < |seen| && seen[i].isStdlib && seen[i].written == item.name;
      assert seen'[i] == seen[i];
    }
  }

  /** An item without an error keeps everything before it, and itself, vetted. */
  lemma ItemVetted(fs: FileSystem, entry: string, first: seq<Statement>, queue: seq<Statement>, queue': seq<Statement>,
                   h: nat, n: nat, seen: seq<Seen>, seen': seq<Seen>, owners: map<string, Owner>, merged: seq<string>)
    requires Explained(fs, entry, first, queue, h, n, seen, owners, merged) && IsItem(queue, h, n)
    requires Vetted(fs, entry, queue, h, n, seen) && forall f <- owners :: f == entry || IsProgram(fs, f)
    requires !ItemFails(fs, entry, seen, owners, queue[h].items[n], queue[h].file)
    requires IsRecorded(queue[h].items[n], queue[h].file, seen') && seen <= seen' && queue <= queue'
    ensures Vetted(fs, entry, queue', h, n + 1, seen')
  {
    hide Explained, IsSound, IsRecorded, Differ, ItemFails, Vetted;
    FaultlessIsSound(fs, entry, first, queue, h, n, seen, owners, merged);
    forall q: nat, k: nat | IsItem(queue', q, k) && Earlier(q, k, h, n + 1)
      ensures IsVetted(fs, entry, queue', q, k, seen')
    {
      assert queue'[q] == queue[q] && IsItem(queue, q, k);
      if Earlier(q, k, h, n) {
        VettedItem(fs, entry, queue, h, n, seen, q, k);
        StaysRecorded(queue[q].items[k], queue[q].file, seen, seen');
      }
      forall p: nat, l: nat | IsItem(queue', p, l) && Earlier(p, l, q, k)
        ensures Differ(queue'[p].items[l], queue'[p].file, queue'[q].items[k], queue'[q].file)
      {
        assert queue'[p] == queue[p] && IsItem(queue, p, l);
        if !Earlier(q, k, h, n) {
          FaultlessDiffers(fs, entry, first, queue, h, n, seen, owners, merged, p, l);
        }
      }
    }
    VettedFrom(fs, entry, queue', h, n + 1, seen');
  }

  lemma VettedFrom(fs: FileSystem, entry: string, queue: seq<Statement>, h: nat, n: nat, seen: seq<Seen>)
    requires forall q: nat, k: nat ::
        IsItem(queue, q, k) && Earlier(q, k, h, n) ==> IsVetted(fs, entry, queue, q, k, seen)
    ensures Vetted(fs, entry, queue, h, n, seen)
  {
  }

  lemma NothingToVet(fs: FileSystem, entry: string, queue: seq<Statement>, seen: seq<Seen>)
    ensures Vetted(fs, entry, queue, 0, 0, seen)
  {
  }

  lemma VettedNext(fs: FileSystem, entry: string, queue: seq<Statement>, h: nat, n: nat, seen: seq<Seen>)
    requires Vetted(fs, entry, queue, h, n, seen) && h < |queue| && n == |queue[h].items|
    ensures Vetted(fs, entry, queue, h + 1, 0, seen)
  {
    hide IsVetted;
    forall q: nat, k: nat | IsItem(queue, q, k) && Earlier(q, k, h + 1, 0)
      ensures IsVetted(fs, entry, queue, q, k, seen)
    {
      assert Earlier(q, k, h, n);
    }
  }

  // ---------- Exactly when there is an error ----------

  /** The two repetitions that are errors or not depending on which file comes first: a directory with
      no file but one that the file names too, and a library module named twice. */
  ghost predicate HasOrderDependent(fs: FileSystem, entry: string, first: seq<Statement>) {
    exists f, s, k, a, t, l, b ::
      && Reachable(fs, entry, first, f) && StandsAt(fs, entry, first, f, s, k, a)
      && StandsAt(fs, entry, first, f, t, l, b) && (s != t || k != l)
      && !Agree(fs, a, b) && Differ(a, f, b, f)
  }

  // Once g has bound a library module, naming it again is an error in g, and in f however often it does.
  lemma LibraryNamedTwice(fs: FileSystem, entry: string, owners: map<string, Owner>, name: string, f: string, g: string)
    requires f != g
    ensures var seen := [Seen(name, name, "", g, true)];
            && ItemFails(fs, entry, seen, owners, Stdlib(name), g)
            && !ItemFails(fs, entry, seen, owners, Stdlib(name), f) && FirstWritten(seen, name) < |seen|
  {
    assert FirstWritten([Seen(name, name, "", g, true)], name) == 0;
  }

  lemma VettedAreWellFormed(fs: FileSystem, entry: string, first: seq<Statement>, queue: seq<Statement>,
                            seen: seq<Seen>, merged: seq<string>)
    requires queue == Statements(fs, entry, first, merged) && Vetted(fs, entry, queue, |queue|, 0, seen)
    requires forall f :: f in merged <==> f != entry && Reachable(fs, entry, first, f)
    requires StatementsKnowTheirFile(fs, entry, first) && !HasOrderDependent(fs, entry, first)
    ensures IsWellFormed(fs, entry, first)
  {
    hide Reachable, Statements, Agree, Differ, StandsAt, IsSound, Vetted, NamesDiffer;
    forall f, s, k, item | Reachable(fs, entry, first, f) && StandsAt(fs, entry, first, f, s, k, item)
      ensures IsSound(fs, entry, item)
    {
      var q := ItemIsQueued(fs, entry, first, queue, seen, merged, f, s, k, item);
    }
    forall f, s, k, a, g, t, l, b |
      && Reachable(fs, entry, first, f) && StandsAt(fs, entry, first, f, s, k, a)
      && Reachable(fs, entry, first, g) && StandsAt(fs, entry, first, g, t, l, b)
      ensures NamesDiffer(a, b) && (f == g && (s != t || k != l) ==> Agree(fs, a, b))
    {
      ItemsDiffer(fs, entry, first, queue, seen, merged, f, s, k, a, g, t, l, b);
      assert f == g && (s != t || k != l) ==> Differ(a, f, b, f);
    }
  }

  lemma ItemIsQueued(fs: FileSystem, entry: string, first: seq<Statement>, queue: seq<Statement>, seen: seq<Seen>,
                     merged: seq<string>, f: string, s: nat, k: nat, item: Item) returns (q: nat)
    requires queue == Statements(fs, entry, first, merged) && Vetted(fs, entry, queue, |queue|, 0, seen)
    requires forall g :: g in merged <==> g != entry && Reachable(fs, entry, first, g)
    requires StatementsKnowTheirFile(fs, entry, first)
    requires Reachable(fs, entry, first, f) && StandsAt(fs, entry, first, f, s, k, item)
    ensures IsItem(queue, q, k) && queue[q].items[k] == item && queue[q].file == f
    ensures PlaceAt(fs, entry, first, merged, q) == Place(f, s)
    ensures IsVetted(fs, entry, queue, q, k, seen) && IsSound(fs, entry, item)
  {
    hide Reachable, Statements, IsSound, Vetted, PlaceAt, Imports;
    q := ImportsAreQueued(fs, entry, first, merged, f, s);
    assert Earlier(q, k, |queue|, 0);
    VettedItem(fs, entry, queue, |queue|, 0, seen, q, k);
  }

  lemma ItemsDiffer(fs: FileSystem, entry: string, first: seq<Statement>, queue: seq<Statement>, seen: seq<Seen>,
                    merged: seq<string>, f: string, s: nat, k: nat, a: Item, g: string, t: nat, l: nat, b: Item)
    requires queue == Statements(fs, entry, first, merged) && Vetted(fs, entry, queue, |queue|, 0, seen)
    requires forall g :: g in merged <==> g != entry && Reachable(fs, entry, first, g)
    requires StatementsKnowTheirFile(fs, entry, first)
    requires Reachable(fs, entry, first, f) && StandsAt(fs, entry, first, f, s, k, a)
    requires Reachable(fs, entry, first, g) && StandsAt(fs, entry, first, g, t, l, b)
    ensures NamesDiffer(a, b) && (f == g && (s != t || k != l) ==> Differ(a, f, b, f))
  {
    hide Reachable, Statements, IsSound, Vetted, PlaceAt, StandsAt, StatementsKnowTheirFile;
    var q := ItemIsQueued(fs, entry, first, queue, seen, merged, f, s, k, a);
    var p := ItemIsQueued(fs, entry, first, queue, seen, merged, g, t, l, b);
    assert Earlier(q, k, p, l) || Earlier(p, l, q, k) || (q == p && k == l);
  }
}
