/** Replacing a directory that is not a usable repository by a fresh clone, so that a
    crash at any point leaves either the complete clone or something the next start
    replaces again. */
module Reclone {
  import opened Environment
  import opened GitObjects

  type Name = string

  /** What an entry of the directory is: a `.git` whose HEAD resolves to a tree or not,
      a scratch directory with entries of its own, or anything else. */
  datatype Item = Plain(data: string) | GitDir(head: Option<map<Name, string>>) | Scratch(inner: map<Name, Item>)

  type Entries = map<Name, Item>

  predicate HeadResolvable(es: Entries) { ".git" in es && es[".git"].GitDir? && es[".git"].head.Some? }

  /** Every file of the tree that HEAD names is there. */
  predicate Complete(es: Entries) {
    HeadResolvable(es) && forall n | n in es[".git"].head.value :: n in es && es[n] == Plain(es[".git"].head.value[n])
  }

  function CloneOf(remote: map<Name, string>): (es: Entries)
    ensures es.Keys == remote.Keys + {".git"} && es[".git"] == GitDir(Some(remote))
    ensures forall n | n in remote && n != ".git" :: es[n] == Plain(remote[n])
  {
    (map n | n in remote :: Plain(remote[n]))[".git" := GitDir(Some(remote))]
  }

  class RepoDir {
    var entries: Entries
    ghost var faults: nat   // commands the environment broke

    constructor (entries: Entries)
      ensures this.entries == entries
    {
      this.entries, faults := entries, 0;
    }

    method Luck() returns (f: Fate)
      modifies `faults
      ensures f.Fine? ==> faults == old(faults)
      ensures f.Broken? ==> faults == old(faults) + 1
    {
      f := *;
      if f.Broken? { faults := faults + 1; }
    }

    /** os.RemoveAll; if it is cut off, part of the entry is left. */
    method RemoveAll(n: Name) returns (r: Reply)
      requires n == ".git" ==> !HeadResolvable(entries)
      modifies `entries, `faults
      ensures entries - {n} == old(entries) - {n} && (n in entries ==> n in old(entries))
      ensures forall m | m != n ::
                (m in entries <==> m in old(entries)) && (m in entries ==> entries[m] == old(entries)[m])
      ensures HeadResolvable(entries) <==> HeadResolvable(old(entries))
      ensures r.Done? ==> n !in entries
      ensures faults >= old(faults) && (faults == old(faults) <==> r.Done?)
    {
      var f := Luck();
      var rest: Item := *;
      if n !in entries || f.Applied() {
        entries := entries - {n};
      } else if !(rest.GitDir? && rest.head.Some?) {
        entries := entries[n := rest];
      }
      return if n !in entries && f.Fine? then Done else f.Outcome();
    }

    method RemoveRepoEntries(keep: Name) returns (r: Reply)
      requires !HeadResolvable(entries) && keep in entries && keep != ".git"
      modifies `entries, `faults
      ensures !HeadResolvable(entries) && keep in entries && entries[keep] == old(entries)[keep]
      ensures r.Done? ==> entries.Keys == {keep}
      ensures faults >= old(faults) && (faults == old(faults) ==> r.Done?)
    {
      var list := Luck();
      if !list.Fine? { return list.Outcome(); }
      var rest := entries.Keys - {keep};
      while rest != {}
        invariant keep !in rest && entries.Keys <= rest + {keep}
        invariant !HeadResolvable(entries) && keep in entries && entries[keep] == old(entries)[keep]
        invariant faults == old(faults)
        decreases rest
      {
        var n :| n in rest;
        r := RemoveAll(n);
        if !r.Done? { return; }
        rest := rest - {n};
      }
      return Done;
    }

    /** os.Rename of one entry out of the scratch directory. */
    method Move(scratch: Name, n: Name) returns (r: Reply)
      requires scratch in entries && entries[scratch].Scratch? && n in entries[scratch].inner && n != scratch
      modifies `entries, `faults
      ensures r.Done? ==> entries == Moved(old(entries), scratch, n)
      ensures entries == old(entries) || entries == Moved(old(entries), scratch, n)
      ensures faults >= old(faults) && (faults == old(faults) <==> r.Done?)
    {
      var f := Luck();
      if f.Applied() { entries := Moved(entries, scratch, n); }
      return f.Outcome();
    }

    static function Moved(es: Entries, scratch: Name, n: Name): Entries
      requires scratch in es && es[scratch].Scratch? && n in es[scratch].inner
    {
      es[n := es[scratch].inner[n]][scratch := Scratch(es[scratch].inner - {n})]
    }

    /** `.git` comes last: until it is there HEAD does not resolve, and when it is there
        everything else is. */
    method MoveEntriesInto(scratch: Name, ghost remote: map<Name, string>) returns (r: Reply)
      requires entries == map[scratch := Scratch(CloneOf(remote))]
      requires scratch !in remote && scratch != ".git" && ".git" !in remote
      modifies `entries, `faults
      ensures HeadResolvable(entries) ==> entries == CloneOf(remote)[scratch := Scratch(map[])]
      ensures r.Done? ==> HeadResolvable(entries)
      ensures scratch in entries && entries[scratch].Scratch?
      ensures faults >= old(faults) && (faults == old(faults) ==> r.Done?)
    {
      var list := Luck();
      if !list.Fine? { return list.Outcome(); }
      ghost var clone := CloneOf(remote);
      var rest := entries[scratch].inner.Keys - {".git"};
      assert rest == remote.Keys && remote.Keys - rest == {};
      assert clone - rest - {".git"} == map[] && clone - (remote.Keys - rest) == clone;
      while rest != {}
        invariant rest <= remote.Keys
        invariant entries == (clone - rest - {".git"})[scratch := Scratch(clone - (remote.Keys - rest))]
        invariant faults == old(faults)
        decreases rest
      {
        var n :| n in rest;
        HalfMoved(clone, remote.Keys, rest, n, scratch);
        r := Move(scratch, n);
        if !r.Done? { return; }
        rest := rest - {n};
      }
      assert clone - remote.Keys == map[".git" := clone[".git"]];
      assert Moved(entries, scratch, ".git") == clone[scratch := Scratch(map[])];
      r := Move(scratch, ".git");
    }

    lemma HalfMoved(clone: Entries, names: set<Name>, rest: set<Name>, n: Name, scratch: Name)
      requires clone.Keys == names + {".git"} && ".git" !in names && rest <= names && n in rest
      requires scratch !in clone
      ensures var es := (clone - rest - {".git"})[scratch := Scratch(clone - (names - rest))];
              var rest' := rest - {n};
              n in es[scratch].inner
              && Moved(es, scratch, n) == (clone - rest' - {".git"})[scratch := Scratch(clone - (names - rest'))]
    {
      var es := (clone - rest - {".git"})[scratch := Scratch(clone - (names - rest))];
      var rest' := rest - {n};
      assert es[scratch].inner - {n} == clone - (names - rest');
    }

    /** Build the clone beside the residue, then swap. `cloned` says that there is a
        complete clone; before that nothing of the old directory changes. */
    method RecloneHeadless(remote: map<Name, string>) returns (r: Reply, ghost scratch: Name, ghost cloned: bool)
      requires !HeadResolvable(entries) && ".git" !in remote
      modifies `entries, `faults
      ensures HeadResolvable(entries) ==> cloned && entries - {scratch} == CloneOf(remote) && scratch !in remote
      ensures r.Done? ==> HeadResolvable(entries)
      ensures !cloned ==>
                entries - {scratch} == old(entries) - {scratch}
                && (scratch in old(entries) ==> entries == old(entries))
      ensures faults >= old(faults) && (faults == old(faults) ==> r.Done? && entries == CloneOf(remote))
    {
      cloned, scratch := false, "";
      var tmp: Name := *;
      var made := Luck();   // os.MkdirTemp
      if tmp in entries || tmp == ".git" || tmp in remote || !made.Applied() {
        faults := faults + 1;
        return if made == Broken(false, true) then Died else Failed(CommandFailed), tmp, false;
      }
      scratch := tmp;
      var inner: Entries := *;
      entries := entries[tmp := Scratch(inner)];
      if !made.Fine? { return made.Outcome(), tmp, false; }
      r, cloned := CloneAndSwap(remote, tmp);
      if r.Died? { return; }
      ghost var before := entries;
      var cleanup := RemoveAll(tmp);
      assert entries - {tmp} == before - {tmp};
      if cleanup.Died? { r := Died; }
    }

    method CloneAndSwap(remote: map<Name, string>, tmp: Name) returns (r: Reply, ghost cloned: bool)
      requires !HeadResolvable(entries) && ".git" !in remote && tmp in entries && tmp != ".git" && tmp !in remote
      modifies `entries, `faults
      ensures HeadResolvable(entries) ==> cloned && entries - {tmp} == CloneOf(remote)
      ensures r.Done? ==> HeadResolvable(entries)
      ensures !cloned ==> entries - {tmp} == old(entries) - {tmp}
      ensures faults >= old(faults) && (faults == old(faults) ==> r.Done?)
    {
      cloned := false;
      var clone := Luck();   // git clone, git ls-tree
      var junk: Entries := *;
      entries := entries[tmp := Scratch(if clone.Fine? then CloneOf(remote) else junk)];
      if !clone.Fine? { return clone.Outcome(), false; }
      cloned := true;
      :- RemoveRepoEntries(tmp);
      assert entries == map[tmp := Scratch(CloneOf(remote))];
      r := MoveEntriesInto(tmp, remote);
      if HeadResolvable(entries) { assert CloneOf(remote)[tmp := Scratch(map[])] - {tmp} == CloneOf(remote); }
    }

    // -------------------------------------------------------------- start

    /** The directory holds a complete clone, or something no start will serve. */
    ghost predicate Consistent()
      reads this
    {
      HeadResolvable(entries) ==> Complete(entries)
    }

    /** What a start does about the directory. From whatever a crash left, a start that
        nothing breaks ends with a complete clone; a directory with a HEAD is left alone. */
    method CloneIfNeeded(remote: map<Name, string>) returns (r: Reply)
      requires Consistent() && ".git" !in remote
      modifies `entries, `faults
      ensures Consistent()
      ensures r.Done? ==> Complete(entries)
      ensures HeadResolvable(old(entries)) ==> r.Done? && entries == old(entries)
      ensures faults == old(faults) ==> r.Done? && (!HeadResolvable(old(entries)) ==> entries == CloneOf(remote))
    {
      if HeadResolvable(entries) { return Done; }
      if entries != map[] {
        ghost var scratch, cloned;
        r, scratch, cloned := RecloneHeadless(remote);
        if HeadResolvable(entries) { CloneIsComplete(entries, scratch, remote); }
        return;
      }
      var clone := Luck();   // git clone into the empty directory, as one step
      if clone.Applied() { entries := CloneOf(remote); }
      return clone.Outcome();
    }

    lemma CloneIsComplete(es: Entries, scratch: Name, remote: map<Name, string>)
      requires HeadResolvable(es) && es - {scratch} == CloneOf(remote) && ".git" !in remote && scratch !in remote
      requires scratch != ".git"
      ensures Complete(es)
    {
      assert forall n | n in CloneOf(remote) :: n in es - {scratch} && es[n] == CloneOf(remote)[n];
    }

    /** Any number of starts, each of which may die anywhere. */
    method Starts(remotes: seq<map<Name, string>>) returns (r: Reply)
      requires Consistent() && forall k | 0 <= k < |remotes| :: ".git" !in remotes[k]
      modifies `entries, `faults
      ensures Consistent()
      ensures r.Done? ==> Complete(entries)
    {
      r := Failed(CommandFailed);
      for k := 0 to |remotes|
        invariant Consistent() && (r.Done? ==> Complete(entries))
      {
        r := CloneIfNeeded(remotes[k]);
      }
    }
  }
}
