/** The import worklist over a finite file system. */
module ImportResolver {
  import opened Options
  import opened ImportSet
  import opened ImportCache
  import opened ImportNames
  import opened ImportGraph

  /** Every file is parsed at most once, the accepted programs are among the parsed files, and the queue
      holds the statements of the entry and theirs. */
  ghost predicate Logged(fs: FileSystem, entry: string, first: seq<Statement>, imported: set<string>,
                         queue: seq<Statement>, parsed: seq<string>, accepted: seq<string>) {
    && entry in imported && imported <= fs.paths
    && NoRepeats(parsed) && (forall f <- parsed :: f in imported && f != entry)
    && NoRepeats(accepted) && (forall f <- accepted :: f in parsed && IsProgram(fs, f))
    && queue == Statements(fs, entry, first, accepted)
  }

  /** While nothing has failed, every imported file but the entry has been accepted. */
  ghost predicate AllAccepted(entry: string, imported: set<string>, accepted: seq<string>) {
    forall f <- imported :: f == entry || f in accepted
  }

  ghost predicate FilesImported(fs: FileSystem, imported: set<string>, target: string) {
    forall f <- fs.members(target) :: f in imported
  }

  ghost predicate TargetsImported(fs: FileSystem, imported: set<string>, seen: seq<Seen>) {
    forall i :: 0 <= i < |seen| && !seen[i].isStdlib ==> FilesImported(fs, imported, seen[i].target)
  }

  /** The first n items of the statement name targets that have been seen. */
  ghost predicate ItemsSeen(statement: Statement, n: nat, seen: seq<Seen>) {
    forall k :: 0 <= k < n && k < |statement.items| && statement.items[k].Local? ==>
        Targets(seen, statement.items[k].target)
  }

  ghost predicate StatementsSeen(queue: seq<Statement>, head: nat, seen: seq<Seen>) {
    forall q :: 0 <= q < head && q < |queue| ==> ItemsSeen(queue[q], |queue[q].items|, seen)
  }

  /** From one state of the queue and of the imported files to a later one. */
  ghost predicate Moved(fs: FileSystem, queue: seq<Statement>, queue': seq<Statement>, imported: set<string>,
                        imported': set<string>) {
    && queue <= queue' && imported <= imported'
    && (queue' == queue || fs.files.Keys - imported' < fs.files.Keys - imported)
  }

  lemma MovedByImport(fs: FileSystem, queue: seq<Statement>, imported: set<string>, f: string)
    ensures Moved(fs, queue, queue, imported, imported) && Moved(fs, queue, queue, imported, imported + {f})
    ensures f in fs.files && f !in imported ==> forall more :: Moved(fs, queue, queue + more, imported, imported + {f})
  {
  }

  lemma MovedTwice(fs: FileSystem, q0: seq<Statement>, q1: seq<Statement>, q2: seq<Statement>, i0: set<string>,
                   i1: set<string>, i2: set<string>)
    requires Moved(fs, q0, q1, i0, i1) && Moved(fs, q1, q2, i1, i2)
    ensures Moved(fs, q0, q2, i0, i2)
  {
  }

  // A newly imported file is in no log yet.
  lemma LogParsed(fs: FileSystem, entry: string, first: seq<Statement>, imported: set<string>, queue: seq<Statement>,
                  parsed: seq<string>, accepted: seq<string>, f: string)
    requires Logged(fs, entry, first, imported, queue, parsed, accepted) && f !in imported && f in fs.paths
    ensures Logged(fs, entry, first, imported + {f}, queue, parsed, accepted)
    ensures Logged(fs, entry, first, imported + {f}, queue, parsed + [f], accepted)
    ensures IsProgram(fs, f) ==>
              Logged(fs, entry, first, imported + {f}, queue + fs.files[f].imports, parsed + [f], accepted + [f])
  {
    hide Statements;
    StatementsStep(fs, entry, first, accepted, f);
  }

  lemma FileCount(fs: FileSystem, owners: map<string, Owner>)
    requires IsFinite(fs) && owners.Keys <= fs.paths
    ensures |owners| < MAX_FILES
  {
    Smaller(owners.Keys, fs.paths);
    assert |owners| == |owners.Keys|;
  }

  lemma {:induction false} Smaller(a: set<string>, b: set<string>)
    requires a <= b
    ensures |a| <= |b|
    decreases a
  {
    if a != {} {
      var x :| x in a;
      Smaller(a - {x}, b - {x});
    }
  }

  lemma CountIsSize(cache: Cache)
    requires cache.Valid()
    ensures cache.count == |cache.owners|
  {
  }

  class Resolver {
    const fs: FileSystem
    const entry: string
    ghost const first: seq<Statement>  // the entry's own statements
    const cache: Cache
    var queue: seq<Statement>
    var head: nat
    var seen: seq<Seen>
    var failed: bool
    var parsed: seq<string>   // the files handed to the parser, in order
    var merged: seq<string>   // the files merged into the program, in order

    ghost predicate Valid()
      reads this, cache, cache.table
    {
      && IsFinite(fs) && cache.Valid() && head <= |queue|
      && Logged(fs, entry, first, cache.owners.Keys, queue, parsed, merged) && NamesIdentify(seen)
    }

    /** While no error has been reported: nothing that was imported is missing. */
    ghost predicate Complete()
      reads this, cache
    {
      && AllAccepted(entry, cache.owners.Keys, merged) && TargetsImported(fs, cache.owners.Keys, seen)
      && StatementsSeen(queue, head, seen)
    }

    /** Names, owners and merged files go back to the items before item n of queue entry h. */
    ghost predicate Explained(h: nat, n: nat)
      reads this, cache
    {
      ImportGraph.Explained(fs, entry, first, queue, h, n, seen, cache.owners, merged)
    }

    /** Every item before item n of queue entry h is sound and differs from those before it. */
    ghost predicate AreVetted(h: nat, n: nat)
      reads this
    {
      Vetted(fs, entry, queue, h, n, seen)
    }

    constructor (fs: FileSystem, entry: string, hash: PathHash, statements: seq<Statement>)
      requires IsFinite(fs) && entry in fs.paths
      ensures Valid() && Complete() && !failed && queue == statements && head == 0 && merged == [] && seen == []
      ensures this.fs == fs && this.entry == entry && first == statements && Explained(0, 0)
      ensures AreVetted(0, 0)
      ensures fresh(cache) && (cache.table != null ==> fresh(cache.table))
    {
      this.fs, this.entry, first := fs, entry, statements;
      var cache := new Cache(hash);
      cache.MarkImported(entry, Owner(None, None, false));
      this.cache := cache;
      queue, head, seen, failed, parsed, merged := statements, 0, [], false, [], [];
      NothingToExplain(fs, entry, statements, Owner(None, None, false));
      NothingToVet(fs, entry, statements, []);
    }

    /** Work only accumulates, and statements are added only when a file is newly read. */
    twostate predicate Progressed()
      reads this, cache, cache.table
    {
      && Moved(fs, old(queue), queue, old(cache.owners.Keys), cache.owners.Keys) && (old(failed) ==> failed)
      && (cache.table == old(cache.table) || fresh(cache.table))
    }

    /** Reads one file of a target, unless it has been imported before. */
    method ImportFile(f: string, isSingle: bool, isDirectory: bool, moduleName: string, statementFile: string,
                      isTransitive: bool,
                      ghost accepted: seq<string>)
      returns (isProgram: bool)
      requires IsFinite(fs) && cache.Valid() && f in fs.paths
      requires Logged(fs, entry, first, cache.owners.Keys, queue, parsed, accepted)
      modifies this`queue, this`failed, this`parsed, cache, cache.table
      ensures cache.Valid() && Progressed()
      ensures failed == (old(failed) || FileFails(fs, entry, old(cache.owners), f, isSingle, statementFile,
                                                  isTransitive))
      ensures cache.owners == if f in old(cache.owners) then old(cache.owners)
                              else old(cache.owners)[f := Owner(Option.Some(moduleName), Option.Some(statementFile),
                                                                isDirectory)]
      ensures isProgram <==> f !in old(cache.owners) && !failed
      ensures var after := accepted + if isProgram then [f] else [];
              && Logged(fs, entry, first, cache.owners.Keys, queue, parsed, after)
              && (!failed && AllAccepted(entry, old(cache.owners.Keys), accepted) ==>
                    f in cache.owners && AllAccepted(entry, cache.owners.Keys, after))
    {
      hide Logged, AllAccepted, Moved, IsFinite, Cache.Valid;
      isProgram := false;
      MovedByImport(fs, queue, cache.owners.Keys, f);
      AcceptOne(entry, cache.owners.Keys, accepted, f);
      assert accepted + [] == accepted;
      LoggedFacts(fs, entry, first, cache.owners.Keys, queue, parsed, accepted);
      if isSingle && f == entry {
        failed := true;
        return;
      }
      var known := cache.AlreadyImported(f);
      if known {
        var owner := cache.ImportedBy(f);
        if isSingle && !isTransitive && !owner.value.isFromDirectory && owner.value.from == Option.Some(statementFile) {
          failed := true;
        }
        return;
      }
      isProgram := ReadFile(f, Owner(Option.Some(moduleName), Option.Some(statementFile), isDirectory), accepted);
      assert cache.owners.Keys == old(cache.owners.Keys) + {f};
    }

    /** Reads and parses a file no import has reached before. */
    method ReadFile(f: string, owner: Owner, ghost accepted: seq<string>) returns (isProgram: bool)
      requires IsFinite(fs) && cache.Valid() && f in fs.paths && f !in cache.owners
      requires Logged(fs, entry, first, cache.owners.Keys, queue, parsed, accepted)
      modifies this`queue, this`failed, this`parsed, cache, cache.table
      ensures cache.Valid() && Progressed() && cache.owners == old(cache.owners)[f := owner]
      ensures Logged(fs, entry, first, cache.owners.Keys, queue, parsed, accepted + if isProgram then [f] else [])
      ensures failed == (old(failed) || !IsProgram(fs, f)) && isProgram == !failed
    {
      hide Logged, AllAccepted, Moved, IsFinite, Cache.Valid;
      isProgram := false;
      assert accepted + [] == accepted;
      MovedByImport(fs, queue, cache.owners.Keys, f);
      LoggedFacts(fs, entry, first, cache.owners.Keys, queue, parsed, accepted);
      LogParsed(fs, entry, first, cache.owners.Keys, queue, parsed, accepted, f);
      FileCount(fs, cache.owners);
      CountIsSize(cache);
      ghost var was := cache.owners.Keys;
      cache.MarkImported(f, owner);
      assert cache.owners.Keys == was + {f};
      if f !in fs.files {
        failed := true;
        return;
      }
      parsed := parsed + [f];
      if fs.files[f].Broken? {
        failed := true;
      }
      if failed {
        return;
      }
      queue := queue + fs.files[f].imports;
      isProgram := true;
    }

    /** Reads the files of a target, then merges those that were accepted. */
    method ImportFiles(target: string, moduleName: string, statementFile: string, isTransitive: bool)
      requires Valid()
      modifies this`queue, this`failed, this`parsed, this`merged, cache, cache.table
      ensures Valid() && Progressed()
      ensures !failed && AllAccepted(entry, old(cache.owners.Keys), old(merged)) ==>
                AllAccepted(entry, cache.owners.Keys, merged) && FilesImported(fs, cache.owners.Keys, target)
      ensures failed == (old(failed) || SomeFileFails(fs, entry, old(cache.owners), fs.members(target), statementFile,
                                                      isTransitive))
      ensures cache.owners == Claimed(old(cache.owners), fs.members(target),
                                      Owner(Option.Some(moduleName), Option.Some(statementFile),
                                            fs.isDirectory(target)))
      ensures forall f <- merged :: f in old(merged) || f in fs.members(target)
      ensures !failed ==> merged == old(merged) + Unread(old(cache.owners), fs.members(target))
    {
      hide Logged, AllAccepted, Moved, IsFinite, Cache.Valid, ReadUpTo, FilesImported, FailsUpTo, Claimed, Unread,
           FileFails, SomeFileFails;
      MovedByImport(fs, queue, cache.owners.Keys, entry);
      NoneRead(fs.members(target), cache.owners.Keys);
      var files := fs.members(target);
      var programs: seq<string> := [];
      var i := 0;
      ghost var owner := Owner(Option.Some(moduleName), Option.Some(statementFile), fs.isDirectory(target));
      ghost var was := cache.owners;
      NothingClaimed(was, files, owner);
      FailsAtAll(fs, entry, was, files, statementFile, isTransitive);
      LoggedFacts(fs, entry, first, cache.owners.Keys, queue, parsed, merged);
      assert merged + programs == merged;
      while i < |files|
        invariant 0 <= i <= |files| && cache.Valid() && Progressed() && merged == old(merged)
        invariant Logged(fs, entry, first, cache.owners.Keys, queue, parsed, merged + programs)
        invariant !failed && AllAccepted(entry, old(cache.owners.Keys), old(merged)) ==>
                    AllAccepted(entry, cache.owners.Keys, merged + programs) && ReadUpTo(files, i, cache.owners.Keys)
        invariant cache.owners == Claimed(was, files[..i], owner)
        invariant failed == (old(failed) || FailsUpTo(fs, entry, was, files, i, statementFile, isTransitive))
        invariant forall f <- programs :: f in files
        invariant !failed ==> programs == Unread(was, files[..i])
      {
        assert files[i] in fs.members(target);
        ghost var accepted, q, imported := merged + programs, queue, cache.owners.Keys;
        MembersExist(fs, target, files[i]);
        FailsNext(fs, entry, was, files, i, owner, statementFile, isTransitive);
        ClaimedNext(was, files, i, owner);
        var isProgram := ImportFile(files[i], |files| == 1, fs.isDirectory(target), moduleName, statementFile,
                                    isTransitive, accepted);
        if isProgram {
          programs := programs + [files[i]];
        }
        assert merged + programs == accepted + if isProgram then [files[i]] else [];
        MovedTwice(fs, old(queue), q, queue, old(cache.owners.Keys), imported, cache.owners.Keys);
        MovedKeeps(fs, q, queue, imported, cache.owners.Keys);
        ReadOneMore(files, i, imported, cache.owners.Keys);
        i := i + 1;
      }
      MovedKeeps(fs, old(queue), queue, old(cache.owners.Keys), cache.owners.Keys);
      merged := merged + programs;
      AllRead(fs, cache.owners.Keys, target);
    }

    /** What is true of the imported files as long as no error has been reported. */
    ghost predicate Imported()
      reads this, cache
    {
      AllAccepted(entry, cache.owners.Keys, merged) && TargetsImported(fs, cache.owners.Keys, seen)
    }

    /** Binds the name of a standard library module. */
    method BindStdlib(name: string, statementFile: string)
      requires Valid()
      modifies this`seen, this`failed
      ensures Valid() && (old(failed) ==> failed) && old(seen) <= seen
      ensures var bound := FirstWritten(old(seen), name);
              && failed == (old(failed) || (bound < |old(seen)|
                  && (!old(seen)[bound].isStdlib || old(seen)[bound].file == statementFile)))
              && seen == old(seen) + if bound < |old(seen)| then [] else [Seen(name, name, "", statementFile, true)]
      ensures !failed && old(Imported()) ==> Imported()
      ensures old(NamesApart(seen)) ==> (NamesApart(seen) <==> seen == old(seen) || !IsLocalModule(old(seen), name))
    {
      hide Logged, AllAccepted, FilesImported, IsFinite, Cache.Valid, NamesApart, IsLocalModule;
      var i := 0;
      assert seen[0..] == seen;
      while i < |seen| && seen[i].written != name
        invariant 0 <= i <= |seen| && i + FirstWritten(seen[i..], name) == FirstWritten(seen, name)
      {
        assert seen[i..][1..] == seen[i + 1..];
        i := i + 1;
      }
      if i < |seen| {
        if !seen[i].isStdlib || seen[i].file == statementFile {
          failed := true;
        }
        return;
      }
      if NamesApart(seen) {
        StdlibApartIff(seen, name, statementFile);
      }
      seen := seen + [Seen(name, name, "", statementFile, true)];
    }

    /** Binds a target in a file; a target no file has named before is given a module and read. */
    method ImportTarget(target: string, written: string, statementFile: string, isTransitive: bool)
      requires Valid()
      modifies this`seen, this`queue, this`failed, this`parsed, this`merged, cache, cache.table
      ensures Valid() && Progressed() && old(seen) <= seen
      ensures !failed && old(Imported()) ==> Imported() && Targets(seen, target)
      ensures failed == (old(failed) || TargetFails(fs, entry, old(seen), old(cache.owners), target, written,
                                                    statementFile, isTransitive))
      ensures TargetBound(fs, target, written, statementFile, old(seen), seen, old(cache.owners), cache.owners,
                          old(merged), merged, failed)
      ensures old(NamesApart(seen)) ==> NamesApart(seen)
    {
      hide Logged, AllAccepted, FilesImported, Moved, IsFinite, Cache.Valid, NamesIdentify, IsTaken, NamesApart,
           SomeFileFails, Claimed, Unread, IsModuleOf;
      MovedByImport(fs, queue, cache.owners.Keys, entry);
      var collides := HasCollision(seen, target, written, statementFile);
      if collides {
        failed := true;
        return;
      }
      var exists', index := ExistingModule(seen, target);
      var moduleName;
      if exists' {
        moduleName := seen[index].moduleName;
      } else {
        moduleName := DistinctName(seen, written);
      }
      ghost var before := seen;
      ModuleFound(seen, target, written, moduleName);
      BindKeeps(seen, Seen(moduleName, written, target, statementFile, false));
      seen := seen + [Seen(moduleName, written, target, statementFile, false)];
      assert IsLocal(seen[|before|], target);
      if exists' {
        return;
      }
      ghost var imported := cache.owners.Keys;
      ImportFiles(target, moduleName, statementFile, isTransitive);
      MovedKeeps(fs, old(queue), queue, imported, cache.owners.Keys);
      BoundTarget(fs, imported, cache.owners.Keys, before, seen[|before|]);
    }

    method ImportItem(item: Item, statementFile: string)
      requires Valid()
      modifies this`seen, this`queue, this`failed, this`parsed, this`merged, cache, cache.table
      ensures Valid() && Progressed() && old(seen) <= seen
      ensures !failed && old(Imported()) ==> Imported() && (item.Local? ==> Targets(seen, item.target))
      ensures failed == (old(failed) || ItemFails(fs, entry, old(seen), old(cache.owners), item, statementFile))
      ensures ItemBound(fs, item, statementFile, old(seen), seen, old(cache.owners), cache.owners, old(merged), merged,
                        failed)
    {
      hide Logged, AllAccepted, TargetsImported, Moved, IsFinite, Cache.Valid, NamesIdentify, TargetFails, TargetBound;
      MovedByImport(fs, queue, cache.owners.Keys, entry);
      match item {
        case Skipped =>
        case Unresolved => failed := true;
        case Stdlib(name) => BindStdlib(name, statementFile);
        case Local(target, written, isTransitive) => ImportTarget(target, written, statementFile, isTransitive);
      }
    }

    /** Deals with the items of the statement, which is queue entry h. */
    method ImportStatement(statement: Statement, ghost h: nat)
      requires Valid() && h < |queue| && statement == queue[h] && Explained(h, 0)
      modifies this`seen, this`queue, this`failed, this`parsed, this`merged, cache, cache.table
      ensures Valid() && Progressed() && old(seen) <= seen && Explained(h, |statement.items|)
      ensures !failed && old(Imported()) ==> Imported() && ItemsSeen(statement, |statement.items|, seen)
      ensures !failed && old(Imported() && AreVetted(h, 0)) ==> AreVetted(h, |statement.items|)
      ensures IsWellFormed(fs, entry, first) ==> failed == old(failed)
    {
      hide Logged, AllAccepted, TargetsImported, Moved, IsFinite, Cache.Valid, NamesIdentify, Targets, ItemBound,
           ItemFails, ImportGraph.Explained, IsWellFormed, Vetted;
      MovedByImport(fs, queue, cache.owners.Keys, entry);
      var n := 0;
      while n < |statement.items|
        invariant 0 <= n <= |statement.items| && Valid() && Progressed() && old(seen) <= seen && old(queue) <= queue
        invariant !failed && old(Imported()) ==> Imported() && ItemsSeen(statement, n, seen)
        invariant Explained(h, n) && (IsWellFormed(fs, entry, first) ==> failed == old(failed))
        invariant !failed && old(Imported() && AreVetted(h, 0)) ==> AreVetted(h, n)
      {
        ghost var q, imported, before, log := queue, cache.owners.Keys, seen, parsed;
        ghost var owners, files := cache.owners, merged;
        if IsWellFormed(fs, entry, first) {
          ItemIsRight(fs, entry, first, queue, h, n, seen, owners, files);
        }
        ImportItem(statement.items[n], statement.file);
        MovedTwice(fs, old(queue), q, queue, old(cache.owners.Keys), imported, cache.owners.Keys);
        MovedKeeps(fs, q, queue, imported, cache.owners.Keys);
        MoreSeen(statement, n, before, seen);
        LoggedMerges(fs, entry, first, cache.owners.Keys, queue, parsed, merged);
        ItemDone(fs, entry, first, q, queue, h, n, before, seen, owners, cache.owners, log, files, merged, failed);
        n := n + 1;
      }
    }

    /** Drains the queue: terminates whatever the import graph looks like. Without an error, exactly the
        files that the entry reaches are merged. A well-formed program gives no error, and only a
        well-formed one gives none, unless an error depends on the order of the files. */
    method Resolve()
      requires Valid() && Explained(head, 0) && (!failed ==> Complete() && AreVetted(head, 0))
      modifies this`head, this`seen, this`queue, this`failed, this`parsed, this`merged, cache, cache.table
      ensures Valid() && head == |queue| && old(queue) <= queue && (!failed ==> Complete())
      ensures forall f <- merged :: f != entry && Reachable(fs, entry, first, f)
      ensures !failed ==> forall f :: f in merged <==> f != entry && Reachable(fs, entry, first, f)
      ensures IsWellFormed(fs, entry, first) ==> failed == old(failed)
      ensures StatementsKnowTheirFile(fs, entry, first) && !HasOrderDependent(fs, entry, first) ==>
                failed == (old(failed) || !IsWellFormed(fs, entry, first))
    {
      hide Logged, AllAccepted, TargetsImported, IsFinite, Cache.Valid, NamesIdentify, ItemsSeen, ImportGraph.Explained,
           IsWellFormed, Vetted, HasOrderDependent, StatementsKnowTheirFile;
      while head < |queue|
        invariant Valid() && Explained(head, 0) && old(queue) <= queue && (!failed ==> Complete() && AreVetted(head, 0))
        invariant cache.table == old(cache.table) || fresh(cache.table)
        invariant IsWellFormed(fs, entry, first) ==> failed == old(failed)
        invariant old(failed) ==> failed
        decreases fs.files.Keys - cache.owners.Keys, |queue| - head
      {
        ghost var q, h, before := queue, head, seen;
        var statement := queue[head];
        head := head + 1;
        ImportStatement(statement, h);
        NextEntry(fs, entry, first, queue, h, |statement.items|, seen, cache.owners, merged);
        if !failed {
          OneMoreStatement(q, queue, h, before, seen);
          VettedNext(fs, entry, queue, h, |statement.items|, seen);
        }
      }
      LoggedMerges(fs, entry, first, cache.owners.Keys, queue, parsed, merged);
      MergedCanBeReached(fs, entry, first, queue, head, seen, cache.owners, merged);
      if !failed {
        AllMerged(fs, entry, first, cache.owners.Keys, queue, seen, merged);
        if StatementsKnowTheirFile(fs, entry, first) && !HasOrderDependent(fs, entry, first) {
          VettedAreWellFormed(fs, entry, first, queue, seen, merged);
        }
      }
    }
  }

  /** Resolves the imports of a program whose entry holds the statements. */
  method ResolveImports(fs: FileSystem, entry: string, hash: PathHash, statements: seq<Statement>)
    returns (failed: bool, merged: seq<string>)
    requires IsFinite(fs) && entry in fs.paths
    ensures NoRepeats(merged) && forall f <- merged :: f != entry && Reachable(fs, entry, statements, f)
    ensures !failed ==> forall f :: f in merged <==> f != entry && Reachable(fs, entry, statements, f)
    ensures IsWellFormed(fs, entry, statements) ==> !failed
    ensures StatementsKnowTheirFile(fs, entry, statements) && !HasOrderDependent(fs, entry, statements) ==>
              (failed <==> !IsWellFormed(fs, entry, statements))
  {
    hide IsFinite, Cache.Valid, IsWellFormed, HasOrderDependent, StatementsKnowTheirFile, Reachable, Statements;
    var resolver := new Resolver(fs, entry, hash, statements);
    resolver.Resolve();
    failed, merged := resolver.failed, resolver.merged;
  }

  lemma BoundTarget(fs: FileSystem, imported: set<string>, imported': set<string>, before: seq<Seen>, s: Seen)
    requires imported <= imported'
    ensures TargetsImported(fs, imported, before) && FilesImported(fs, imported', s.target) ==>
              TargetsImported(fs, imported', before + [s])
  {
  }

  lemma MoreSeen(statement: Statement, n: nat, before: seq<Seen>, after: seq<Seen>)
    requires before <= after && n < |statement.items|
    ensures (statement.items[n].Local? ==> Targets(after, statement.items[n].target)) ==>
              ItemsSeen(statement, n, before) ==> ItemsSeen(statement, n + 1, after)
  {
  }

  lemma OneMoreStatement(queue: seq<Statement>, queue': seq<Statement>, head: nat, before: seq<Seen>, after: seq<Seen>)
    requires queue <= queue' && head < |queue| && before <= after && StatementsSeen(queue, head, before)
    requires ItemsSeen(queue[head], |queue[head].items|, after)
    ensures StatementsSeen(queue', head + 1, after)
  {
  }

  ghost predicate ReadUpTo(files: seq<string>, n: nat, imported: set<string>) {
    forall k :: 0 <= k < n && k < |files| ==> files[k] in imported
  }

  lemma NoneRead(files: seq<string>, imported: set<string>)
    ensures ReadUpTo(files, 0, imported)
  {
  }

  lemma ReadOneMore(files: seq<string>, n: nat, imported: set<string>, imported': set<string>)
    requires imported <= imported' && n < |files|
    ensures ReadUpTo(files, n, imported) && files[n] in imported' ==> ReadUpTo(files, n + 1, imported')
  {
  }

  lemma AllRead(fs: FileSystem, imported: set<string>, target: string)
    ensures ReadUpTo(fs.members(target), |fs.members(target)|, imported) ==> FilesImported(fs, imported, target)
  {
  }

  lemma MembersExist(fs: FileSystem, target: string, f: string)
    requires IsFinite(fs) && f in fs.members(target)
    ensures f in fs.paths
  {
  }

  lemma MovedKeeps(fs: FileSystem, queue: seq<Statement>, queue': seq<Statement>, imported: set<string>,
                   imported': set<string>)
    requires Moved(fs, queue, queue', imported, imported')
    ensures imported <= imported' && queue <= queue'
  {
  }

  lemma AcceptOne(entry: string, imported: set<string>, accepted: seq<string>, f: string)
    ensures AllAccepted(entry, imported, accepted) ==> AllAccepted(entry, imported + {f}, accepted + [f])
  {
  }

  lemma LoggedFacts(fs: FileSystem, entry: string, first: seq<Statement>, imported: set<string>,
                    queue: seq<Statement>, parsed: seq<string>, accepted: seq<string>)
    requires Logged(fs, entry, first, imported, queue, parsed, accepted)
    ensures entry in imported && imported <= fs.paths
  {
  }

  lemma MergedCanBeReached(fs: FileSystem, entry: string, first: seq<Statement>, queue: seq<Statement>, h: nat,
                           seen: seq<Seen>, owners: map<string, Owner>, merged: seq<string>)
    requires ImportGraph.Explained(fs, entry, first, queue, h, 0, seen, owners, merged)
    ensures forall f <- merged :: f != entry && Reachable(fs, entry, first, f)
  {
  }

  lemma AllMerged(fs: FileSystem, entry: string, first: seq<Statement>, imported: set<string>, queue: seq<Statement>,
                  seen: seq<Seen>, merged: seq<string>)
    requires queue == Statements(fs, entry, first, merged)
    requires forall f <- merged :: f != entry && Reachable(fs, entry, first, f)
    requires AllAccepted(entry, imported, merged) && TargetsImported(fs, imported, seen)
    requires StatementsSeen(queue, |queue|, seen)
    ensures forall f :: f in merged <==> f != entry && Reachable(fs, entry, first, f)
  {
    hide Reachable, Statements, IsClosed;
    QueueIsClosed(fs, entry, imported, queue, seen, merged);
    forall f ensures f in merged <==> f != entry && Reachable(fs, entry, first, f) {
      MergedIsReachable(fs, entry, first, merged, f);
    }
  }

  lemma QueueIsClosed(fs: FileSystem, entry: string, imported: set<string>, queue: seq<Statement>, seen: seq<Seen>,
                      merged: seq<string>)
    requires AllAccepted(entry, imported, merged) && TargetsImported(fs, imported, seen)
    requires StatementsSeen(queue, |queue|, seen)
    ensures IsClosed(fs, entry, queue, merged)
  {
    forall q: nat, k: nat, f | IsItem(queue, q, k) && Brings(fs, queue[q].items[k], f)
      ensures f == entry || f in merged
    {
      assert ItemsSeen(queue[q], |queue[q].items|, seen);
      assert Targets(seen, queue[q].items[k].target);
    }
  }

  /** What a drained queue means: the files of every local import of every queued statement, among
      them those of every merged file, are the entry or have been merged. */
  lemma NothingIsMissing(resolver: Resolver, q: nat, k: nat, f: string)
    requires resolver.Valid() && resolver.Complete() && resolver.head == |resolver.queue|
    requires q < |resolver.queue| && k < |resolver.queue[q].items| && resolver.queue[q].items[k].Local?
    requires f in resolver.fs.members(resolver.queue[q].items[k].target)
    ensures f == resolver.entry || f in resolver.merged
    ensures f != resolver.entry ==>
              IsProgram(resolver.fs, f) && forall s <- resolver.fs.files[f].imports :: s in resolver.queue
  {
    hide Statements, IsFinite, Cache.Valid, NamesIdentify;
    var fs, entry, first := resolver.fs, resolver.entry, resolver.first;
    QueueIsClosed(fs, entry, resolver.cache.owners.Keys, resolver.queue, resolver.seen, resolver.merged);
    assert IsItem(resolver.queue, q, k) && Brings(fs, resolver.queue[q].items[k], f);
    if f != entry {
      forall s <- fs.files[f].imports ensures s in resolver.queue {
        var i :| 0 <= i < |fs.files[f].imports| && fs.files[f].imports[i] == s;
        var at := ImportsAreQueued(fs, entry, first, resolver.merged, f, i);
      }
    }
  }

  lemma NothingClaimed(owners: map<string, Owner>, files: seq<string>, owner: Owner)
    ensures Claimed(owners, files[..0], owner) == owners && Unread(owners, files[..0]) == []
  {
  }

  lemma ModuleFound(seen: seq<Seen>, target: string, written: string, moduleName: string)
    requires if Targets(seen, target)
             then exists i :: 0 <= i < |seen| && IsLocal(seen[i], target) && seen[i].moduleName == moduleName
             else IsFirstFree(seen, written, moduleName)
    ensures IsModuleOf(seen, target, written, moduleName)
  {
  }

  lemma LoggedMerges(fs: FileSystem, entry: string, first: seq<Statement>, imported: set<string>,
                     queue: seq<Statement>, parsed: seq<string>, accepted: seq<string>)
    requires Logged(fs, entry, first, imported, queue, parsed, accepted)
    ensures queue == Statements(fs, entry, first, accepted) && NoRepeats(accepted) && entry !in accepted
  {
  }

  // What is kept when one item has been dealt with.
  lemma ItemDone(fs: FileSystem, entry: string, first: seq<Statement>, queue: seq<Statement>, queue': seq<Statement>,
                 h: nat, n: nat, seen: seq<Seen>, seen': seq<Seen>, owners: map<string, Owner>,
                 owners': map<string, Owner>, parsed: seq<string>, merged: seq<string>, merged': seq<string>,
                 failed': bool)
    requires ImportGraph.Explained(fs, entry, first, queue, h, n, seen, owners, merged) && IsItem(queue, h, n)
    requires ItemBound(fs, queue[h].items[n], queue[h].file, seen, seen', owners, owners', merged, merged', failed')
    requires queue <= queue' == Statements(fs, entry, first, merged') && NoRepeats(merged') && entry !in merged'
    requires Logged(fs, entry, first, owners.Keys, queue, parsed, merged)
    ensures ImportGraph.Explained(fs, entry, first, queue', h, n + 1, seen', owners', merged')
    ensures AllAccepted(entry, owners.Keys, merged) && Vetted(fs, entry, queue, h, n, seen)
            && !ItemFails(fs, entry, seen, owners, queue[h].items[n], queue[h].file) ==>
              Vetted(fs, entry, queue', h, n + 1, seen')
  {
    hide ImportGraph.Explained, ItemBound, Vetted, ItemFails, Statements;
    var item, file := queue[h].items[n], queue[h].file;
    BoundAdds(fs, item, file, seen, seen', owners, owners', merged, merged', failed');
    ItemExplained(fs, entry, first, queue, queue', h, n, seen, seen', owners, owners', merged, merged');
    if AllAccepted(entry, owners.Keys, merged) && Vetted(fs, entry, queue, h, n, seen)
      && !ItemFails(fs, entry, seen, owners, item, file) {
      ItemRecorded(fs, item, file, seen, seen', owners, owners', merged, merged', entry, failed');
      ItemVetted(fs, entry, first, queue, queue', h, n, seen, seen', owners, merged);
    }
  }
}
