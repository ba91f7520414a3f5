/** The names import statements bind, and how a module gets a name of its own. */
module ImportNames {
  import opened Numerals

  // One bound name: the module, the name as written, the target (none for a standard library
  // module) and the file that wrote it.
  datatype Seen = Seen(moduleName: string, written: string, target: string, file: string, isStdlib: bool)

  predicate IsLocal(s: Seen, target: string) {
    !s.isStdlib && s.target == target
  }

  predicate Targets(seen: seq<Seen>, target: string) {
    exists i :: 0 <= i < |seen| && IsLocal(seen[i], target)
  }

  /** A file names one target twice. */
  predicate RepeatsTarget(seen: seq<Seen>, target: string, file: string) {
    exists i :: 0 <= i < |seen| && IsLocal(seen[i], target) && seen[i].file == file
  }

  /** The written name is already bound in the file, or by a standard library module. */
  predicate NameCollides(seen: seq<Seen>, written: string, file: string) {
    exists i :: 0 <= i < |seen| && seen[i].written == written && (seen[i].isStdlib || seen[i].file == file)
  }

  /** Two local targets have the same module name exactly when they are the same target. */
  ghost predicate NamesIdentify(seen: seq<Seen>) {
    forall i, j :: 0 <= i < |seen| && 0 <= j < |seen| && !seen[i].isStdlib && !seen[j].isStdlib ==>
      (seen[i].target == seen[j].target <==> seen[i].moduleName == seen[j].moduleName)
  }

  /** The number of the first entry with the written name, or of entries if there is none. */
  function FirstWritten(seen: seq<Seen>, name: string): (i: nat)
    ensures i <= |seen| && (i < |seen| ==> seen[i].written == name)
  {
    if seen == [] || seen[0].written == name then 0 else 1 + FirstWritten(seen[1..], name)
  }

  predicate IsTaken(seen: seq<Seen>, name: string) {
    exists i :: 0 <= i < |seen| && seen[i].moduleName == name
  }

  function Candidate(written: string, suffix: nat): string
    requires suffix > 0
  {
    if suffix == 1 then written else written + "__" + Dec(suffix)
  }

  lemma CandidatesDiffer(written: string, a: nat, b: nat)
    requires 0 < a < b
    ensures Candidate(written, a) != Candidate(written, b)
  {
    var x, y := Candidate(written, a), Candidate(written, b);
    assert y == written + ("__" + Dec(b));
    if a > 1 && x == y {
      assert x == written + ("__" + Dec(a));
      assert x[|written|..] == "__" + Dec(a) && y[|written|..] == "__" + Dec(b);
      assert ("__" + Dec(a))[2..] == Dec(a) && ("__" + Dec(b))[2..] == Dec(b);
      DecRoundTrip(a);
      DecRoundTrip(b);
      assert false;
    }
  }

  // As many candidates as are taken, so many names have been seen.
  lemma {:induction false} TakenCandidates(seen: seq<Seen>, written: string, n: nat)
    requires forall k {:trigger Candidate(written, k)} :: 1 <= k <= n ==> IsTaken(seen, Candidate(written, k))
    ensures n <= |seen|
    decreases n
  {
    hide Candidate;
    if n > 0 {
      var last := Candidate(written, n);
      var i :| 0 <= i < |seen| && seen[i].moduleName == last;
      var others := seen[..i] + seen[i + 1..];
      forall k {:trigger Candidate(written, k)} | 1 <= k <= n - 1 ensures IsTaken(others, Candidate(written, k)) {
        CandidatesDiffer(written, k, n);
        var j :| 0 <= j < |seen| && seen[j].moduleName == Candidate(written, k);
        assert others[if j < i then j else j - 1] == seen[j];
      }
      TakenCandidates(others, written, n - 1);
    }
  }

  method IsNameTaken(seen: seq<Seen>, name: string) returns (taken: bool)
    ensures taken == IsTaken(seen, name)
  {
    var i := 0;
    while i < |seen|
      invariant 0 <= i <= |seen| && !IsTaken(seen[..i], name)
    {
      if seen[i].moduleName == name {
        return true;
      }
      i := i + 1;
    }
    assert seen[..i] == seen;
    return false;
  }

  /** The name as written, or with the first suffix that makes it new. */
  method DistinctName(seen: seq<Seen>, written: string) returns (name: string)
    ensures !IsTaken(seen, name)
    ensures exists k: nat :: 0 < k && name == Candidate(written, k) && forall j {:trigger Candidate(written, j)} ::
        1 <= j < k ==> IsTaken(seen, Candidate(written, j))
  {
    name := written;
    var suffix := 1;
    var isNameTaken := true;
    while isNameTaken
      invariant suffix >= 1 && (suffix == 1 ==> name == written)
      invariant forall j {:trigger Candidate(written, j)} :: 1 <= j < suffix - (if isNameTaken then 0 else 1) ==>
          IsTaken(seen, Candidate(written, j))
      invariant !isNameTaken ==> suffix > 1 && name == Candidate(written, suffix - 1) && !IsTaken(seen, name)
      decreases isNameTaken, |seen| + 1 - suffix
    {
      TakenCandidates(seen, written, suffix - 1);
      if suffix > 1 {
        name := written + "__" + Dec(suffix);
      }
      isNameTaken := IsNameTaken(seen, name);
      suffix := suffix + 1;
      if isNameTaken {
        TakenCandidates(seen, written, suffix - 1);
      }
    }
  }

  /** The module a target was first given, if any file imported it before. */
  method ExistingModule(seen: seq<Seen>, target: string) returns (found: bool, index: nat)
    ensures found == Targets(seen, target)
    ensures found ==> index < |seen| && IsLocal(seen[index], target)
  {
    index := 0;
    while index < |seen|
      invariant 0 <= index <= |seen| && !Targets(seen[..index], target)
    {
      if !seen[index].isStdlib && seen[index].target == target {
        return true, index;
      }
      index := index + 1;
    }
    assert seen[..index] == seen;
    return false, index;
  }

  method HasCollision(seen: seq<Seen>, target: string, written: string, file: string) returns (collides: bool)
    ensures collides == (RepeatsTarget(seen, target, file) || NameCollides(seen, written, file))
  {
    var i := 0;
    while i < |seen|
      invariant 0 <= i <= |seen| && !RepeatsTarget(seen[..i], target, file)
    {
      if !seen[i].isStdlib && seen[i].target == target && seen[i].file == file {
        return true;
      }
      i := i + 1;
    }
    assert seen[..i] == seen;
    i := 0;
    while i < |seen|
      invariant 0 <= i <= |seen| && !NameCollides(seen[..i], written, file)
    {
      if seen[i].written == written && (seen[i].isStdlib || seen[i].file == file) {
        return true;
      }
      i := i + 1;
    }
    assert seen[..i] == seen;
    return false;
  }

  /** No standard library module shares its name with the module of a target. */
  ghost predicate NamesApart(seen: seq<Seen>) {
    forall i, j :: 0 <= i < |seen| && 0 <= j < |seen| && seen[i].isStdlib && !seen[j].isStdlib ==>
      seen[i].moduleName != seen[j].moduleName
  }

  predicate IsLocalModule(seen: seq<Seen>, name: string) {
    exists i :: 0 <= i < |seen| && !seen[i].isStdlib && seen[i].moduleName == name
  }

  // A library module is bound under its written name, which is compared with written names only: it
  // stays apart from the modules of targets exactly when none of them was given that name.
  lemma StdlibApartIff(seen: seq<Seen>, name: string, file: string)
    requires NamesApart(seen)
    ensures NamesApart(seen + [Seen(name, name, "", file, true)]) <==> !IsLocalModule(seen, name)
  {
    var after := seen + [Seen(name, name, "", file, true)];
    if IsLocalModule(seen, name) {
      var i :| 0 <= i < |seen| && !seen[i].isStdlib && seen[i].moduleName == name;
      assert after[i] == seen[i] && after[|seen|].isStdlib;
    }
  }

  // Two files that name different targets foo get the modules foo and foo__2; a library alias foo__2
  // is written nowhere yet, is bound without an error, and is the name of the second module.
  lemma AliasMeetsSuffix()
    ensures var seen := [Seen("foo", "foo", "a", "m", false), Seen("foo__2", "foo", "b", "n", false)];
            && NamesIdentify(seen) && NamesApart(seen)
            && Candidate("foo", 2) == "foo__2" && IsTaken(seen[..1], Candidate("foo", 1))
                && !IsTaken(seen[..1], "foo__2")
            && FirstWritten(seen, "foo__2") == |seen| && !NamesApart(seen + [Seen("foo__2", "foo__2", "", "o", true)])
  {
    var seen := [Seen("foo", "foo", "a", "m", false), Seen("foo__2", "foo", "b", "n", false)];
    assert Dec(2) == "2" && seen[..1][0].moduleName == "foo";
    assert FirstWritten(seen[1..][1..], "foo__2") == 0;
    assert FirstWritten(seen[1..], "foo__2") == 1;
    assert seen[1].moduleName == "foo__2";
    StdlibApartIff(seen, "foo__2", "o");
  }

  // Binding a target keeps names and targets in step, and its module apart from the library's.
  lemma BindKeeps(seen: seq<Seen>, s: Seen)
    requires NamesIdentify(seen) && !s.isStdlib
    requires if Targets(seen, s.target)
             then exists i :: 0 <= i < |seen| && IsLocal(seen[i], s.target) && seen[i].moduleName == s.moduleName
             else !IsTaken(seen, s.moduleName)
    ensures NamesIdentify(seen + [s]) && (NamesApart(seen) ==> NamesApart(seen + [s]))
  {
  }
}
