/** Where a file that cannot be merged is put aside, and what one merge does to
    each conflicted path. */
module Quarantine {
  import opened GitObjects
  import opened Text
  import opened WorkingCopy

  const DIR := "_conflicts"

  predicate UnderConflicts(path: Path) { path == DIR || StartsWith(path, DIR + "/") }

  // ------------------------------------------------------ destination path

  function TrimPrefix(s: string, prefix: string): string {
    if StartsWith(s, prefix) then s[|prefix|..] else s
  }

  function Outside(rel: Path): (r: Path)
    ensures !UnderConflicts(r)
    ensures !UnderConflicts(rel) ==> r == rel
    decreases |rel|
  {
    if UnderConflicts(rel) then Outside(TrimPrefix(TrimPrefix(rel, DIR), "/")) else rel
  }

  method StripConflictsDir(path: Path) returns (rel: Path)
    ensures rel == Outside(path)
  {
    rel := path;
    while UnderConflicts(rel)
      invariant Outside(rel) == Outside(path)
      decreases |rel|
    {
      rel := TrimPrefix(TrimPrefix(rel, DIR), "/");
    }
  }

  function LastSlash(s: string): (r: Option<nat>)
    ensures r.Some? ==> r.value < |s| && s[r.value] == '/' && '/' !in s[r.value + 1..]
    ensures r.None? ==> '/' !in s
  {
    if s == "" then None else
    if s[|s| - 1] == '/' then Some(|s| - 1) else
      var r := LastSlash(s[..|s| - 1]);
      assert r.Some? ==> s[r.value + 1..] == s[..|s| - 1][r.value + 1..] + [s[|s| - 1]];
      assert s == s[..|s| - 1] + [s[|s| - 1]];
      r
  }

  /** filepath.Dir and filepath.Base of a clean relative path, "" for no directory. */
  function DirOf(rel: Path): Path {
    var i := LastSlash(rel);
    if i.None? then "" else rel[..i.value]
  }

  function BaseOf(rel: Path): Path {
    var i := LastSlash(rel);
    if rel == "" then "." else if i.None? then rel else rel[i.value + 1..]
  }

  function StampedName(base: string, ts: int): string {
    if EndsWith(base, ".md") then base[..|base| - 3] + "." + Decimal(ts) + ".md"
    else base + "." + Decimal(ts) + ".quarantined"
  }

  /** The destination below `_conflicts/`. */
  function DestRest(path: Path, ts: int): Path {
    var rel := Outside(path);
    var name := StampedName(BaseOf(rel), ts);
    if DirOf(rel) == "" then name else DirOf(rel) + "/" + name
  }

  function DestPath(path: Path, ts: int): Path { DIR + "/" + DestRest(path, ts) }

  ghost predicate IsDestination(path: Path) { exists source, ts :: path == DestPath(source, ts) }

  lemma StampedNameShape(base: string, ts: int)
    requires '/' !in base
    ensures '/' !in StampedName(base, ts) && '.' in StampedName(base, ts)
  {
    var n := StampedName(base, ts);
    if EndsWith(base, ".md") {
      assert n[|base| - 3] == '.';
    } else {
      assert n[|base|] == '.';
    }
  }

  lemma StampedNameEnding(base: string, ts: int)
    ensures var n := StampedName(base, ts); |n| > 2 && n[|n| - 2] == (if EndsWith(base, ".md") then 'm' else 'e')
  {
    var n := StampedName(base, ts);
    if EndsWith(base, ".md") {
      assert n[|n| - 3..] == ".md";
      assert n[|n| - 2] == n[|n| - 3..][1];
    } else {
      var tail := ".quarantined";
      assert n[|n| - |tail|..] == tail;
      assert n[|n| - 2] == n[|n| - |tail|..][|tail| - 2];
    }
  }

  /** A destination has exactly one leading `_conflicts/` level, whatever the source. */
  lemma OneConflictsLevel(path: Path, ts: int)
    ensures UnderConflicts(DestPath(path, ts)) && !UnderConflicts(DestRest(path, ts))
  {
    var rel := Outside(path);
    var rest := DestRest(path, ts);
    var dir := DirOf(rel);
    StampedNameShape(BaseOf(rel), ts);
    assert '.' !in DIR && '/' !in DIR && (DIR + "/")[|DIR|] == '/';
    if dir != "" {
      assert rest[|dir|] == '/' && rel[|dir|] == '/' && rel[..|dir|] == dir;
      assert forall i | 0 <= i <= |dir| :: rest[i] == rel[i];
      assert StartsWith(rest, DIR + "/") ==> |DIR| <= |dir|;
      assert StartsWith(rest, DIR + "/") ==> StartsWith(rel, DIR + "/");
    }
    assert StartsWith(DIR + "/" + rest, DIR + "/");
  }

  lemma StampedNameInjective(a: string, b: string, ts: int)
    requires StampedName(a, ts) == StampedName(b, ts)
    ensures a == b
  {
    var n := StampedName(a, ts);
    var t := "." + Decimal(ts);
    StampedNameEnding(a, ts);
    StampedNameEnding(b, ts);
    if EndsWith(a, ".md") {
      assert n == a[..|a| - 3] + t + ".md" == b[..|b| - 3] + t + ".md";
      assert |a| == |b|;
      assert n[..|a| - 3] == a[..|a| - 3] == b[..|b| - 3];
      assert a == a[..|a| - 3] + ".md" && b == b[..|b| - 3] + ".md";
    } else {
      assert |a| == |b|;
      assert n[..|a|] == a && n[..|b|] == b;
    }
  }

  /** Two different files put aside in the same second never share a destination. */
  lemma DestInjective(p: Path, q: Path, ts: int)
    requires p != "" && q != "" && p[0] != '/' && q[0] != '/'
    requires !UnderConflicts(p) && !UnderConflicts(q)
    requires DestPath(p, ts) == DestPath(q, ts)
    ensures p == q
  {
    var prefix := DIR + "/";
    assert DestRest(p, ts) == DestPath(p, ts)[|prefix|..] == DestPath(q, ts)[|prefix|..] == DestRest(q, ts);
    var np, nq := StampedName(BaseOf(p), ts), StampedName(BaseOf(q), ts);
    StampedNameShape(BaseOf(p), ts);
    StampedNameShape(BaseOf(q), ts);
    SplitAtLastSlash(DirOf(p), np, DirOf(q), nq, DestRest(p, ts));
    StampedNameInjective(BaseOf(p), BaseOf(q), ts);
    Reassemble(p);
    Reassemble(q);
  }

  lemma StampTellsSecond(base: string, ts: int, later: int)
    requires StampedName(base, ts) == StampedName(base, later)
    ensures ts == later
  {
    hide Decimal;
    var stem := (if EndsWith(base, ".md") then base[..|base| - 3] else base) + ".";
    var tail := if EndsWith(base, ".md") then ".md" else ".quarantined";
    var a, b := StampedName(base, ts), StampedName(base, later);
    assert a == stem + Decimal(ts) + tail && b == stem + Decimal(later) + tail;
    assert a[|stem|..|a| - |tail|] == Decimal(ts) && b[|stem|..|b| - |tail|] == Decimal(later);
    ReadOfDecimal(ts);
    ReadOfDecimal(later);
  }

  /** ... and neither does one file in two different seconds. */
  lemma DestTellsSecond(p: Path, ts: int, later: int)
    requires DestPath(p, ts) == DestPath(p, later)
    ensures ts == later
  {
    hide StampedName;
    hide LastSlash;
    hide Outside;
    var rel := Outside(p);
    var a, b := StampedName(BaseOf(rel), ts), StampedName(BaseOf(rel), later);
    var dir := DIR + "/" + if DirOf(rel) == "" then "" else DirOf(rel) + "/";
    assert DestPath(p, ts) == dir + a && DestPath(p, later) == dir + b;
    assert (dir + a)[|dir|..] == a && (dir + b)[|dir|..] == b;
    StampTellsSecond(BaseOf(rel), ts, later);
  }

  lemma SplitAtLastSlash(d0: string, n0: string, d1: string, n1: string, s: string)
    requires '/' !in n0 && '/' !in n1
    requires s == (if d0 == "" then n0 else d0 + "/" + n0)
    requires s == (if d1 == "" then n1 else d1 + "/" + n1)
    ensures d0 == d1 && n0 == n1
  {
    if d0 != "" { assert s[|d0|] == '/' && forall i | |d0| < i < |s| :: s[i] == n0[i - |d0| - 1]; }
    if d1 != "" { assert s[|d1|] == '/' && forall i | |d1| < i < |s| :: s[i] == n1[i - |d1| - 1]; }
    if d0 != "" && d1 != "" {
      assert |d0| == |d1|;
      assert d0 == s[..|d0|] && d1 == s[..|d1|];
      assert n0 == s[|d0| + 1..] && n1 == s[|d1| + 1..];
    }
  }

  lemma Reassemble(p: Path)
    requires p != "" && p[0] != '/'
    ensures p == if DirOf(p) == "" then BaseOf(p) else DirOf(p) + "/" + BaseOf(p)
  {
  }

  lemma StripOneLevel(p: Path)
    requires StartsWith(p, DIR + "/")
    ensures TrimPrefix(TrimPrefix(p, DIR), "/") == p[|DIR| + 1..]
  {
    var prefix := DIR + "/";
    assert p[..|prefix|] == prefix && p[..|DIR|] == DIR && p[|DIR|] == prefix[|DIR|] == '/';
    assert StartsWith(p, DIR);
    assert p[|DIR|..][..1] == "/";
    assert p[|DIR|..][1..] == p[|DIR| + 1..];
  }

  lemma DestRestLonger(p: Path, ts: int)
    requires !UnderConflicts(p)
    ensures |DestRest(p, ts)| > |p|
  {
    StampedNameLonger(BaseOf(p), ts);
    var i := LastSlash(p);
    if i.Some? { assert |p| == i.value + 1 + |BaseOf(p)|; }
  }

  /** A destination is never its own source. */
  lemma DestIsElsewhere(p: Path, ts: int)
    ensures DestPath(p, ts) != p
  {
    OneConflictsLevel(p, ts);
    if p == DIR {
      assert |DestPath(p, ts)| > |DIR|;
    } else if UnderConflicts(p) {
      StripOneLevel(p);
      var x := p[|DIR| + 1..];
      assert DestRest(p, ts) == DestPath(p, ts)[|DIR| + 1..];
      if !UnderConflicts(x) {
        assert DestRest(p, ts) == DestRest(x, ts);
        DestRestLonger(x, ts);
      }
    }
  }

  lemma StampedNameLonger(base: string, ts: int)
    ensures |StampedName(base, ts)| > |base| + 1
  {
  }

  // ----------------------------------------------- one merge, path by path

  /** Where each conflicted path of one merge would be put aside. */
  type Places = map<Path, Path>

  function PlacesAt(paths: seq<Path>, ts: int): Places { map p | p in paths :: DestPath(p, ts) }

  /** The conflict kind of a path, BothSides if git has none recorded. */
  function KindAt(d: Disk, p: Path): Kind {
    if p in UnmergedOf(d) then KindOf(UnmergedOf(d)[p]) else BothSides
  }

  function Kinds(d: Disk): map<Path, Kind> { map p | p in UnmergedOf(d) :: KindAt(d, p) }

  /** Take one side of an unmerged path into the working tree and stage it. */
  function TakeSide(d: Disk, p: Path, side: Option<Bytes>): Disk { AfterAdd(WithFile(d, p, side), p) }

  function PutAside(d: Disk, p: Path, dest: Path): Disk {
    AfterCheckoutHead(TakeSide(AfterRm(d, p), dest, Get(d.work, p)), p)
  }

  /** A path goes to the resolver when its conflict is neither a deletion that is settled
      by rule nor below `_conflicts/`, and is put aside when the resolver fails. */
  predicate NeedsResolver(d: Disk, p: Path) { !KindAt(d, p).OursDeleted? && !UnderConflicts(p) }

  predicate IsPutAside(d: Disk, answers: map<Path, Bytes>, p: Path) { NeedsResolver(d, p) && p !in answers }

  /** How the turn of one conflicted path ends when no command breaks: settled, put
      aside, put aside but not restored because HEAD does not have the path, or left as
      it is because there is no version to keep or no file to copy. */
  datatype Turn = Resolved | Aside | Dropped | Stuck

  function TurnOf(d: Disk, answers: map<Path, Bytes>, p: Path): Turn
    requires p in UnmergedOf(d)
  {
    var s := UnmergedOf(d)[p];
    if KindOf(s).OursDeleted? then Resolved else
    if UnderConflicts(p) then if KindOf(s).TheirsDeleted? || s.ours.Some? then Resolved else Stuck else
    if p in answers then Resolved else
    if p !in d.work then Stuck else
    if p in d.tip.tree then Aside else Dropped
  }

  predicate IsCopied(d: Disk, answers: map<Path, Bytes>, p: Path)
    requires p in UnmergedOf(d)
  {
    TurnOf(d, answers, p).Aside? || TurnOf(d, answers, p).Dropped?
  }

  /** The guard under which a path is settled or put aside, in terms a caller can see:
      below `_conflicts/` our side has a version; a path that is to be put aside has a
      file and is in HEAD. */
  predicate CanSettle(d: Disk, answers: map<Path, Bytes>, p: Path)
    requires p in UnmergedOf(d)
  {
    var s := UnmergedOf(d)[p];
    && (UnderConflicts(p) ==> s.ours.Some? || s.theirs.Some?)
    && (IsPutAside(d, answers, p) ==> p in d.work && p in d.tip.tree)
  }

  lemma CanSettleExactly(d: Disk, answers: map<Path, Bytes>, p: Path)
    requires p in UnmergedOf(d)
    ensures CanSettle(d, answers, p) <==> TurnOf(d, answers, p).Resolved? || TurnOf(d, answers, p).Aside?
  {
  }

  /** What a merge does to one conflicted path when no command breaks; `answers`
      are the contents the configured resolver would stage. */
  function SettleOne(d: Disk, p: Path, answers: map<Path, Bytes>, places: Places): Disk
    requires p in UnmergedOf(d) && p in places
  {
    var s := UnmergedOf(d)[p];
    if TurnOf(d, answers, p).Stuck? then d else
    if KindOf(s).OursDeleted? then TakeSide(d, p, s.theirs) else
    if KindOf(s).TheirsDeleted? && UnderConflicts(p) then AfterRm(d, p) else
    if UnderConflicts(p) then TakeSide(d, p, s.ours) else
    if p in answers then TakeSide(d, p, Some(answers[p])) else PutAside(d, p, places[p])
  }

  function SettleAll(d: Disk, paths: seq<Path>, answers: map<Path, Bytes>, places: Places): Disk
    decreases |paths|
  {
    if |paths| == 0 then d else
    if paths[0] !in UnmergedOf(d) || paths[0] !in places then d else
      SettleAll(SettleOne(d, paths[0], answers, places), paths[1..], answers, places)
  }

  predicate Distinct(paths: seq<Path>) { forall i, j | 0 <= i < j < |paths| :: paths[i] != paths[j] }

  predicate SafePath(p: Path) { p != "" && p[0] != '/' }

  /** No destination is in use, git may add it, and no two paths share one. */
  ghost predicate PlacesFree(d: Disk, ignored: Ignore, paths: seq<Path>, places: Places) {
    && (forall p | p in paths ::
          p in places
          && (!UnderConflicts(p) ==>
                && places[p] !in d.work && places[p] !in d.index && places[p] !in UnmergedOf(d)
                && !ignored(places[p])))
    && (forall p, q | p in paths && q in paths && !UnderConflicts(p) && !UnderConflicts(q) && places[p] == places[q] ::
          p == q)
  }

  /** The destinations of safe paths in one second are apart by construction. */
  lemma PlacesApart(d: Disk, ignored: Ignore, paths: seq<Path>, ts: int)
    requires forall p | p in paths :: SafePath(p)
    requires forall p | p in paths && !UnderConflicts(p) ::
               && DestPath(p, ts) !in d.work && DestPath(p, ts) !in d.index && DestPath(p, ts) !in UnmergedOf(d)
               && !ignored(DestPath(p, ts))
    ensures PlacesFree(d, ignored, paths, PlacesAt(paths, ts))
  {
    var places := PlacesAt(paths, ts);
    forall p, q | p in paths && q in paths && !UnderConflicts(p) && !UnderConflicts(q) && places[p] == places[q]
      ensures p == q
    {
      DestInjective(p, q, ts);
    }
  }

  /** The content a conflicted path has once its turn is over, unless it is stuck. */
  function Verdict(d: Disk, p: Path, answers: map<Path, Bytes>): Option<Bytes>
    requires p in UnmergedOf(d)
  {
    var s := UnmergedOf(d)[p];
    if KindOf(s).OursDeleted? then s.theirs else
    if UnderConflicts(p) then (if KindOf(s).TheirsDeleted? then None else s.ours) else
    if p in answers then Some(answers[p]) else Get(d.tip.tree, p)
  }

  lemma TakeSideEffect(d: Disk, p: Path, side: Option<Bytes>)
    requires d.merging.Some?
    ensures var d' := TakeSide(d, p, side);
            && Get(d'.index, p) == side == Get(d'.work, p) && UnmergedOf(d') == UnmergedOf(d) - {p}
            && d'.tip == d.tip && d'.merging.Some?
            && forall q | q != p :: Get(d'.index, q) == Get(d.index, q) && Get(d'.work, q) == Get(d.work, q)
  {
  }

  lemma RmEffect(d: Disk, p: Path)
    requires d.merging.Some?
    ensures var d' := AfterRm(d, p);
            && Get(d'.index, p) == None == Get(d'.work, p) && UnmergedOf(d') == UnmergedOf(d) - {p}
            && d'.tip == d.tip && d'.merging.Some?
            && forall q | q != p :: Get(d'.index, q) == Get(d.index, q) && Get(d'.work, q) == Get(d.work, q)
  {
  }

  lemma PutAsideEffect(d: Disk, p: Path, dest: Path)
    requires d.merging.Some? && dest != p
    ensures var d' := PutAside(d, p, dest);
            && Get(d'.index, p) == Get(d.tip.tree, p) == Get(d'.work, p)
            && Get(d'.index, dest) == Get(d.work, p) == Get(d'.work, dest)
            && UnmergedOf(d') == UnmergedOf(d) - {p} - {dest}
            && d'.tip == d.tip && d'.merging.Some?
            && forall q | q != p && q != dest ::
              Get(d'.index, q) == Get(d.index, q) && Get(d'.work, q) == Get(d.work, q)
  {
    var d1 := AfterRm(d, p);
    assert UnmergedOf(d1) == UnmergedOf(d) - {p};
    TakeSideEffect(d1, dest, Get(d.work, p));
    var d2 := TakeSide(d1, dest, Get(d.work, p));
    assert UnmergedOf(d2) == UnmergedOf(d) - {p} - {dest};
    CheckoutHeadEffect(d2, p);
    assert UnmergedOf(d2) - {p} == UnmergedOf(d2);
  }

  /** For a path that HEAD does not have, the last command of a quarantine would have
      nothing to do. */
  lemma NothingToCheckOut(d: Disk, p: Path, dest: Path)
    requires p !in d.tip.tree && dest != p
    ensures TakeSide(AfterRm(d, p), dest, Get(d.work, p)) == PutAside(d, p, dest)
  {
    var d1 := TakeSide(AfterRm(d, p), dest, Get(d.work, p));
    var d2 := AfterCheckoutHead(d1, p);
    assert forall q :: Get(d1.index, q) == Get(d2.index, q) && Get(d1.work, q) == Get(d2.work, q);
    SameTree(d1.index, d2.index);
    SameTree(d1.work, d2.work);
    assert UnmergedOf(d1) - {p} == UnmergedOf(d1);
  }

  /** A file in the place of a destination is written over: its content survives if
      and only if it is in a commit nobody can lose. */
  lemma DestinationInUse(h: Hub, d: Disk, p: Path, dest: Path, c: Bytes)
    requires d.merging.Some? && dest != p && Get(d.work, dest) == Some(c) && Get(d.work, p) != Some(c)
    ensures Held(h, PutAside(d, p, dest), dest, c) <==> Saved(h, d.tip, dest, c)
  {
    PutAsideEffect(d, p, dest);
  }

  lemma CheckoutHeadEffect(d: Disk, p: Path)
    requires d.merging.Some?
    ensures var d' := AfterCheckoutHead(d, p);
            && Get(d'.index, p) == Get(d.tip.tree, p) == Get(d'.work, p)
            && UnmergedOf(d') == UnmergedOf(d) - {p} && d'.tip == d.tip && d'.merging.Some?
            && forall q | q != p :: Get(d'.index, q) == Get(d.index, q) && Get(d'.work, q) == Get(d.work, q)
  {
  }

  /** One step: path `p` gets content `c`, and if it was copied its marker copy is at
      `dest`; everything else stays. */
  ghost predicate Step(d: Disk, p: Path, c: Option<Bytes>, copied: bool, dest: Path, d': Disk) {
    && d'.tip == d.tip && d'.merging.Some?
    && Get(d'.index, p) == c == Get(d'.work, p)
    && (copied ==> Get(d'.index, dest) == Get(d.work, p) == Get(d'.work, dest))
    && UnmergedOf(d') == UnmergedOf(d) - {p} - (if copied then {dest} else {})
    && (forall q | q != p && !(q == dest && copied) ::
          Get(d'.index, q) == Get(d.index, q) && Get(d'.work, q) == Get(d.work, q))
  }

  lemma SettleOneEffect(d: Disk, p: Path, answers: map<Path, Bytes>, places: Places)
    requires p in UnmergedOf(d) && p in places && places[p] != p
    ensures if TurnOf(d, answers, p).Stuck? then SettleOne(d, p, answers, places) == d else
            Step(d, p, Verdict(d, p, answers), IsCopied(d, answers, p), places[p], SettleOne(d, p, answers, places))
    ensures IsCopied(d, answers, p) ==> !UnderConflicts(p) && p in d.work
  {
    hide TakeSide;
    hide PutAside;
    hide AfterRm;
    hide UnderConflicts;
    var s := UnmergedOf(d)[p];
    if IsCopied(d, answers, p) {
      PutAsideEffect(d, p, places[p]);
    } else if KindOf(s).TheirsDeleted? && UnderConflicts(p) {
      RmEffect(d, p);
    } else if !TurnOf(d, answers, p).Stuck? {
      TakeSideEffect(d, p, Verdict(d, p, answers));
    }
  }

  ghost predicate ReadyToSettle(d: Disk, ignored: Ignore, paths: seq<Path>, places: Places) {
    && d.merging.Some? && Distinct(paths) && (forall p | p in paths :: p in UnmergedOf(d))
    && (forall p | p in paths :: p in places && places[p] != p)
    && PlacesFree(d, ignored, paths, places)
  }

  /** The merge has stopped on these paths, none is unsafe, the destinations in second
      `ts` are free, and there is no file called `_conflicts`. */
  ghost predicate Settleable(d: Disk, ignored: Ignore, paths: seq<Path>, ts: int) {
    && ReadyToSettle(d, ignored, paths, PlacesAt(paths, ts))
    && DIR !in d.work && forall p | p in paths :: SafePath(p)
  }

  lemma AfterStep(d: Disk, ignored: Ignore, paths: seq<Path>, places: Places, c: Option<Bytes>, copied: bool, d1: Disk)
    requires ReadyToSettle(d, ignored, paths, places) && |paths| > 0
    requires Step(d, paths[0], c, copied, places[paths[0]], d1) && (copied ==> !UnderConflicts(paths[0]))
    ensures ReadyToSettle(d1, ignored, paths[1..], places)
    ensures UnmergedOf(d1) == UnmergedOf(d) - {paths[0]}
    ensures forall x | x in paths[1..] ::
              && x in paths && x != paths[0] && Get(d1.work, x) == Get(d.work, x)
              && x in UnmergedOf(d) && x in UnmergedOf(d1) && UnmergedOf(d1)[x] == UnmergedOf(d)[x]
  {
    var p, rest := paths[0], paths[1..];
    assert p in paths;
    var dest := places[p];
    assert forall x :: x in paths <==> x == p || x in rest;
    assert p !in rest;
    assert UnmergedOf(d1) == UnmergedOf(d) - {p};
    forall x | x in rest && !UnderConflicts(x)
      ensures places[x] !in d1.work && places[x] !in d1.index && places[x] !in UnmergedOf(d1)
    {
      assert x in paths && (copied ==> places[x] != dest);
      assert Get(d1.work, places[x]) == Get(d.work, places[x]);
      assert Get(d1.index, places[x]) == Get(d.index, places[x]);
    }
    forall x | x in rest ensures Get(d1.work, x) == Get(d.work, x) && x in UnmergedOf(d1) {
      assert x in paths && x in UnmergedOf(d);
    }
  }

  lemma SameConflict(d: Disk, d1: Disk, x: Path, answers: map<Path, Bytes>)
    requires d1.tip == d.tip && x in UnmergedOf(d) && x in UnmergedOf(d1) && UnmergedOf(d1)[x] == UnmergedOf(d)[x]
    requires Get(d1.work, x) == Get(d.work, x)
    ensures KindAt(d1, x) == KindAt(d, x) && TurnOf(d1, answers, x) == TurnOf(d, answers, x)
    ensures Verdict(d1, x, answers) == Verdict(d, x, answers)
  {
    hide UnderConflicts;
    assert x in d1.work <==> x in d.work;
  }

  lemma AfterFirst(d: Disk, ignored: Ignore, paths: seq<Path>, answers: map<Path, Bytes>, places: Places)
    requires ReadyToSettle(d, ignored, paths, places) && |paths| > 0
    ensures var p := paths[0];
            && p in UnmergedOf(d) && p in places && places[p] != p
            && (!UnderConflicts(p) ==> !ignored(places[p]))
            && var d1, stuck := SettleOne(d, p, answers, places), TurnOf(d, answers, p).Stuck?;
            && (if stuck then d1 == d else
                Step(d, p, Verdict(d, p, answers), IsCopied(d, answers, p), places[p], d1))
            && UnmergedOf(d1) == (if stuck then UnmergedOf(d) else UnmergedOf(d) - {p})
            && ReadyToSettle(d1, ignored, paths[1..], places)
            && (forall x | x in paths[1..] ::
                  && x in paths && x != p && Get(d1.work, x) == Get(d.work, x)
                  && x in UnmergedOf(d) && x in UnmergedOf(d1)
                  && KindAt(d1, x) == KindAt(d, x) && TurnOf(d1, answers, x) == TurnOf(d, answers, x)
                  && Verdict(d1, x, answers) == Verdict(d, x, answers))
  {
    hide Verdict;
    hide TurnOf;
    hide SettleOne;
    hide UnderConflicts;
    var p, rest := paths[0], paths[1..];
    assert p in paths;
    var d1 := SettleOne(d, p, answers, places);
    SettleOneEffect(d, p, answers, places);
    if TurnOf(d, answers, p).Stuck? {
      FewerToSettle(d, ignored, paths, places);
    } else {
      AfterStep(d, ignored, paths, places, Verdict(d, p, answers), IsCopied(d, answers, p), d1);
    }
    forall x | x in rest
      ensures KindAt(d1, x) == KindAt(d, x) && TurnOf(d1, answers, x) == TurnOf(d, answers, x)
      ensures Verdict(d1, x, answers) == Verdict(d, x, answers)
    {
      SameConflict(d, d1, x, answers);
    }
  }

  lemma FewerToSettle(d: Disk, ignored: Ignore, paths: seq<Path>, places: Places)
    requires ReadyToSettle(d, ignored, paths, places) && |paths| > 0
    ensures ReadyToSettle(d, ignored, paths[1..], places)
    ensures forall x | x in paths[1..] :: x in paths && x != paths[0]
  {
    assert forall x | x in paths[1..] :: x in paths;
  }

  /** The result of a conflicted merge, path by path: what stays unmerged, the content of
      every other conflicted path, and that every path that is neither conflicted nor a
      destination is as the merge left it. */
  lemma {:induction false} SettledContent(
      d: Disk, ignored: Ignore, paths: seq<Path>, answers: map<Path, Bytes>, places: Places, q: Path)
    requires ReadyToSettle(d, ignored, paths, places)
    ensures q in UnmergedOf(SettleAll(d, paths, answers, places)) <==>
            q in UnmergedOf(d) && (q in paths ==> TurnOf(d, answers, q).Stuck?)
    ensures q in paths && !TurnOf(d, answers, q).Stuck? ==>
              Get(SettleAll(d, paths, answers, places).index, q) == Verdict(d, q, answers)
    ensures q !in UnmergedOf(d) && (forall p | p in paths && IsCopied(d, answers, p) :: q != places[p]) ==>
              Get(SettleAll(d, paths, answers, places).index, q) == Get(d.index, q)
    decreases |paths|
  {
    hide Verdict;
    hide TurnOf;
    hide SettleOne;
    hide PlacesFree;
    if |paths| > 0 {
      AfterFirst(d, ignored, paths, answers, places);
      var p, rest := paths[0], paths[1..];
      var d1 := SettleOne(d, p, answers, places);
      SettledContent(d1, ignored, rest, answers, places, q);
      assert q in paths <==> q == p || q in rest;
      assert p in paths && forall x | x in rest :: x in paths;
      if q == p {
        forall x | x in rest && IsCopied(d1, answers, x) ensures q != places[x] {
          CopiedIsOutside(d1, answers, x);
          PlacesNotConflicted(d, ignored, paths, places, x);
        }
      }
    }
  }

  /** The content of a settled path, in terms of what git recorded: our deletion gives way
      to their version; below `_conflicts/` their deletion is accepted and otherwise our
      side stays; elsewhere the resolver's answer counts, or else HEAD's version comes back. */
  lemma SettledOutcome(
      d: Disk, ignored: Ignore, paths: seq<Path>, answers: map<Path, Bytes>, places: Places, q: Path)
    requires ReadyToSettle(d, ignored, paths, places) && q in paths
    ensures var s, c := UnmergedOf(d)[q], Get(SettleAll(d, paths, answers, places).index, q);
            && (s.ours.None? && s.theirs.Some? ==> c == s.theirs)
            && (UnderConflicts(q) && s.ours.Some? ==> c == if s.theirs.None? then None else s.ours)
            && (!UnderConflicts(q) && (s.ours.Some? || s.theirs.None?) && q in answers ==> c == Some(answers[q]))
            && (!UnderConflicts(q) && (s.ours.Some? || s.theirs.None?) && q !in answers && q in d.work ==>
                  c == Get(d.tip.tree, q))
  {
    hide UnderConflicts;
    hide SettleAll;
    SettledContent(d, ignored, paths, answers, places, q);
  }

  lemma CopiedIsOutside(d: Disk, answers: map<Path, Bytes>, p: Path)
    requires p in UnmergedOf(d) && IsCopied(d, answers, p)
    ensures !UnderConflicts(p) && p in d.work && Verdict(d, p, answers) == Get(d.tip.tree, p)
  {
    hide UnderConflicts;
  }

  lemma PlacesNotConflicted(d: Disk, ignored: Ignore, paths: seq<Path>, places: Places, x: Path)
    requires ReadyToSettle(d, ignored, paths, places) && x in paths && !UnderConflicts(x)
    ensures places[x] !in UnmergedOf(d)
  {
  }

  /** The marker copy of a path that was copied is at its own destination, and if HEAD
      has the path it is back at HEAD's version. */
  lemma {:induction false} SettledDestination(
      d: Disk, ignored: Ignore, paths: seq<Path>, answers: map<Path, Bytes>, places: Places, q: Path)
    requires ReadyToSettle(d, ignored, paths, places) && q in paths && IsCopied(d, answers, q)
    ensures q in d.work
    ensures Get(SettleAll(d, paths, answers, places).index, q) == Get(d.tip.tree, q)
    ensures Get(SettleAll(d, paths, answers, places).index, places[q]) == Get(d.work, q)
    decreases |paths|
  {
    hide Verdict;
    hide TurnOf;
    hide SettleOne;
    hide UnderConflicts;
    SettledContent(d, ignored, paths, answers, places, q);
    AfterFirst(d, ignored, paths, answers, places);
    var p, rest := paths[0], paths[1..];
    var d1 := SettleOne(d, p, answers, places);
    CopiedIsOutside(d, answers, q);
    PlacesNotConflicted(d, ignored, paths, places, q);
    if q == p {
      forall x | x in rest && IsCopied(d1, answers, x) ensures places[p] != places[x] {
        CopiedIsOutside(d1, answers, x);
        assert x in paths && x != p;
      }
      SettledContent(d1, ignored, rest, answers, places, places[p]);
    } else {
      assert q in rest;
      SettledDestination(d1, ignored, rest, answers, places, q);
    }
  }

  /** The merge can be committed exactly if every unmerged path was named and none of
      them is stuck. */
  lemma MergedExactly(d: Disk, ignored: Ignore, paths: seq<Path>, answers: map<Path, Bytes>, places: Places)
    requires ReadyToSettle(d, ignored, paths, places)
    ensures UnmergedOf(SettleAll(d, paths, answers, places)) == map[] <==>
            forall p | p in UnmergedOf(d) :: p in paths && !TurnOf(d, answers, p).Stuck?
  {
    var d' := SettleAll(d, paths, answers, places);
    forall p ensures p in UnmergedOf(d') <==> p in UnmergedOf(d) && (p in paths ==> TurnOf(d, answers, p).Stuck?) {
      SettledContent(d, ignored, paths, answers, places, p);
    }
    if forall p | p in UnmergedOf(d) :: p in paths && !TurnOf(d, answers, p).Stuck? {
      assert UnmergedOf(d').Keys == {};
    }
  }

  // ------------------------------------------------- the loop over the paths

  /** The paths done whose turn ended in this way, in order. */
  function With(done: seq<Path>, d: Disk, answers: map<Path, Bytes>, t: Turn): (r: seq<Path>)
    ensures forall p :: p in r <==> p in done && p in UnmergedOf(d) && TurnOf(d, answers, p) == t
  {
    if |done| == 0 then [] else
      var n := |done| - 1;
      assert done == done[..n] + [done[n]];
      var r := With(done[..n], d, answers, t);
      if done[n] in UnmergedOf(d) && TurnOf(d, answers, done[n]) == t then r + [done[n]] else r
  }

  lemma NoneYet(d: Disk, paths: seq<Path>, answers: map<Path, Bytes>)
    ensures forall t :: With(paths[..0], d, answers, t) == []
  {
  }

  lemma WithOneMore(done: seq<Path>, d: Disk, answers: map<Path, Bytes>, t: Turn, p: Path)
    requires p in UnmergedOf(d)
    ensures With(done + [p], d, answers, t) ==
            if TurnOf(d, answers, p) == t then With(done, d, answers, t) + [p] else With(done, d, answers, t)
  {
    assert (done + [p])[..|done|] == done;
  }

  /** Together the two lists have every path if and only if every path can be settled. */
  lemma AllToldExactly(d: Disk, paths: seq<Path>, answers: map<Path, Bytes>)
    requires forall p | p in paths :: p in UnmergedOf(d)
    ensures (forall p | p in paths :: p in With(paths, d, answers, Resolved) || p in With(paths, d, answers, Aside))
            <==> (forall p | p in paths :: CanSettle(d, answers, p))
  {
    forall p | p in paths
      ensures CanSettle(d, answers, p) <==>
              p in With(paths, d, answers, Resolved) || p in With(paths, d, answers, Aside)
    {
      CanSettleExactly(d, answers, p);
    }
  }

  /** The merge comes to a commit: every unmerged path was named, none of them is stuck,
      and at least one can be settled or put aside. */
  predicate Completes(d: Disk, paths: seq<Path>, answers: map<Path, Bytes>) {
    && (forall p | p in UnmergedOf(d) :: p in paths && !TurnOf(d, answers, p).Stuck?)
    && exists p :: p in paths && p in UnmergedOf(d) && CanSettle(d, answers, p)
  }

  lemma CompletesExactly(d: Disk, ignored: Ignore, paths: seq<Path>, answers: map<Path, Bytes>, ts: int)
    requires forall p | p in paths :: p in UnmergedOf(d)
    ensures Settleable(d, ignored, paths, ts) ==>
              (Completes(d, paths, answers) <==>
               && UnmergedOf(SettleAll(d, paths, answers, PlacesAt(paths, ts))) == map[]
               && !(With(paths, d, answers, Resolved) == [] == With(paths, d, answers, Aside)))
  {
    hide TurnOf;
    hide CanSettle;
    hide ReadyToSettle;
    hide SettleAll;
    if Settleable(d, ignored, paths, ts) { MergedExactly(d, ignored, paths, answers, PlacesAt(paths, ts)); }
    forall p | p in paths
      ensures CanSettle(d, answers, p) <==>
              p in With(paths, d, answers, Resolved) || p in With(paths, d, answers, Aside)
    {
      CanSettleExactly(d, answers, p);
    }
    var resolved, aside := With(paths, d, answers, Resolved), With(paths, d, answers, Aside);
    if resolved != [] { assert resolved[0] in resolved; }
    if aside != [] { assert aside[0] in aside; }
  }

  lemma NothingNamed(d: Disk, ignored: Ignore, paths: seq<Path>, answers: map<Path, Bytes>, ts: int)
    ensures paths == [] ==> !Completes(d, paths, answers)
    ensures (exists p :: p in paths && p !in UnmergedOf(d)) ==> !Settleable(d, ignored, paths, ts)
  {
  }

  /** After `i` turns: what is left to do. */
  ghost predicate LoopState(d0: Disk, d: Disk, ignored: Ignore, paths: seq<Path>, i: nat, kinds: map<Path, Kind>,
                            answers: map<Path, Bytes>, places: Places)
  {
    && i <= |paths| && ReadyToSettle(d, ignored, paths[i..], places)
    && SettleAll(d, paths[i..], answers, places) == SettleAll(d0, paths, answers, places)
    && (forall p | p in paths[i..] ::
          && p in kinds && kinds[p] == KindAt(d, p)
          && p in UnmergedOf(d0) && p in UnmergedOf(d) && TurnOf(d, answers, p) == TurnOf(d0, answers, p))
  }

  lemma NextLoopState(d0: Disk, d: Disk, ignored: Ignore, paths: seq<Path>, i: nat, kinds: map<Path, Kind>,
                      answers: map<Path, Bytes>, places: Places)
    requires LoopState(d0, d, ignored, paths, i, kinds, answers, places) && i < |paths|
    ensures var p := paths[i];
            && p in UnmergedOf(d) && p in UnmergedOf(d0) && p in places && places[p] != p
            && (!UnderConflicts(p) ==> !ignored(places[p]))
            && p in kinds && kinds[p] == KindAt(d, p) && TurnOf(d, answers, p) == TurnOf(d0, answers, p)
            && LoopState(d0, SettleOne(d, p, answers, places), ignored, paths, i + 1, kinds, answers, places)
  {
    hide ReadyToSettle;
    hide SettleOne;
    hide KindAt;
    hide TurnOf;
    hide Verdict;
    hide Step;
    hide UnderConflicts;
    hide Get;
    var p, rest := paths[i], paths[i..];
    assert rest[0] == p && rest[1..] == paths[i + 1..];
    AfterFirst(d, ignored, rest, answers, places);
    assert p in rest;
    assert forall x | x in paths[i + 1..] :: x in rest;
  }

  lemma FirstLoopState(d: Disk, ignored: Ignore, paths: seq<Path>, kinds: map<Path, Kind>,
                       answers: map<Path, Bytes>, places: Places)
    requires ReadyToSettle(d, ignored, paths, places) && kinds == Kinds(d)
    ensures LoopState(d, d, ignored, paths, 0, kinds, answers, places)
  {
    assert paths[0..] == paths;
  }

  lemma LastLoopState(d0: Disk, d: Disk, ignored: Ignore, paths: seq<Path>, kinds: map<Path, Kind>,
                      answers: map<Path, Bytes>, places: Places)
    requires LoopState(d0, d, ignored, paths, |paths|, kinds, answers, places)
    ensures d == SettleAll(d0, paths, answers, places)
  {
  }

  // ----------------------------------------------------------- examples

  /** Two destinations: the stamp goes before `.md`, and anything else gets an ending. */
  lemma TwoDestinations()
    ensures DestPath("n/b.md", 7) == "_conflicts/n/b.7.md"
    ensures DestPath("_conflicts/x", 7) == "_conflicts/x.7.quarantined"
  {
    StampedMarkdown();
    StampedOther();
  }

  lemma StampedMarkdown()
    ensures DestPath("n/b.md", 7) == "_conflicts/n/b.7.md"
  {
    TwoStamps();
    NotBelowConflicts("n/b.md");
    SplitName("n", "b.md");
    hide UnderConflicts;
    hide StampedName;
    hide LastSlash;
    hide DirOf;
    hide BaseOf;
    assert "n" + "/" + "b.md" == "n/b.md";
    assert DestPath("n/b.md", 7) == DIR + "/" + ("n" + "/" + "b.7.md");
  }

  lemma StampedOther()
    ensures DestPath("_conflicts/x", 7) == "_conflicts/x.7.quarantined"
  {
    TwoStamps();
    NotBelowConflicts("x");
    OneLevelOff("x");
    NoDirectory("x");
    hide StampedName;
    hide LastSlash;
    hide DirOf;
    hide BaseOf;
    assert DIR + "/" + "x" == "_conflicts/x";
    assert Outside("_conflicts/x") == "x";
    assert DestPath("_conflicts/x", 7) == DIR + "/" + "x.7.quarantined";
  }

  lemma TwoStamps()
    ensures StampedName("b.md", 7) == "b.7.md" && StampedName("x", 7) == "x.7.quarantined"
  {
    assert Decimal(7) == "7";
    assert "b.md"[1..] == ".md" && "b.md"[..1] == "b";
  }

  lemma OneLevelOff(p: Path)
    ensures Outside(DIR + "/" + p) == Outside(p)
  {
    var s := DIR + "/" + p;
    assert StartsWith(s, DIR + "/");
    StripOneLevel(s);
    assert s[|DIR| + 1..] == p;
  }

  lemma NoDirectory(base: Path)
    requires base != "" && '/' !in base
    ensures DirOf(base) == "" && BaseOf(base) == base
  {
    var i := LastSlash(base);
    assert forall j | 0 <= j < |base| :: base[j] in base;
  }

  lemma SplitName(dir: Path, base: Path)
    requires dir != "" && '/' !in base
    ensures DirOf(dir + "/" + base) == dir && BaseOf(dir + "/" + base) == base
  {
    var s := dir + "/" + base;
    var i := LastSlash(s);
    assert s[|dir|] == '/' && forall j | |dir| < j < |s| :: s[j] == base[j - |dir| - 1];
    assert i.Some? by { assert s[|dir|] in s; }
    assert forall j | i.value < j < |s| :: s[j] == s[i.value + 1..][j - i.value - 1];
    assert i.value == |dir|;
    assert s[..|dir|] == dir && s[|dir| + 1..] == base;
  }

  /** A note that an operator keeps where a marker copy goes is written over. */
  lemma DestinationInUseIsLost(ts: int)
    ensures exists h: Hub, d: Disk, c: Bytes ::
              var dest := DestPath("b.md", ts);
              d.merging.Some? && Held(h, d, dest, c) && !Held(h, PutAside(d, "b.md", dest), dest, c)
  {
    hide DestPath;
    var dest := DestPath("b.md", ts);
    DestIsElsewhere("b.md", ts);
    var head, up := RootCommit(map["b.md" := "1"], 0), RootCommit(map["b.md" := "2"], 1);
    var stages := Stages(None, Some("1"), Some("2"));
    var d := Disk(head, map[], map["b.md" := "<<<", dest := "note"], Some(Merging(up, map["b.md" := stages])), up);
    var h := Hub(up, map[]);
    assert RescueReach(h) == {} && Reach(head) == {head};
    assert dest !in StagedPaths(d);
    DestinationInUse(h, d, "b.md", dest, "note");
  }

  /** We edited `a.md`, they renamed it to `b.md` and edited it too: git records the
      conflict at `b.md`, which HEAD does not have. Put aside, it cannot be restored:
      `a.md` and `b.md` are both gone from the result, and `b.md` is on neither list. */
  lemma RenamedByTheirsIsDropped(ts: int)
    ensures var paths, none := ["b.md"], map[];
            var d := Renamed();
            && Settleable(d, p => false, paths, ts) && TurnOf(d, none, "b.md").Dropped?
            && With(paths, d, none, Resolved) == [] == With(paths, d, none, Aside)
            && var d' := SettleAll(d, paths, none, PlacesAt(paths, ts));
            && UnmergedOf(d') == map[] && "a.md" in d.tip.tree
            && "a.md" !in d'.index && "b.md" !in d'.index && Get(d'.index, DestPath("b.md", ts)) == Some("<<<")
  {
    hide DestPath;
    hide UnderConflicts;
    hide SettleAll;
    hide Verdict;
    var paths, none := ["b.md"], map[];
    var d, places := Renamed(), PlacesAt(["b.md"], ts);
    var dest := DestPath("b.md", ts);
    OneConflictsLevel("b.md", ts);
    NotBelowConflicts("a.md");
    NotBelowConflicts("b.md");
    RenamedIsReady(places);
    SettledContent(d, p => false, paths, none, places, "a.md");
    SettledDestination(d, p => false, paths, none, places, "b.md");
    forall x ensures x !in UnmergedOf(SettleAll(d, paths, none, places)) {
      SettledContent(d, p => false, paths, none, places, x);
    }
  }

  /** Both sides edited `b.md`, and there is no resolver: the merge completes, with our
      version at `b.md` and the copy with the markers at its destination. */
  lemma BothEditedCompletes(ts: int)
    ensures var paths, none := ["b.md"], map[];
            var d := BothEdited();
            && Settleable(d, p => false, paths, ts) && Completes(d, paths, none)
            && var d' := SettleAll(d, paths, none, PlacesAt(paths, ts));
            && UnmergedOf(d') == map[] && Get(d'.index, "b.md") == Some("1")
            && Get(d'.index, DestPath("b.md", ts)) == Some("<<<")
  {
    hide DestPath;
    hide UnderConflicts;
    hide SettleAll;
    hide Verdict;
    var paths, none := ["b.md"], map[];
    var d, places := BothEdited(), PlacesAt(["b.md"], ts);
    OneConflictsLevel("b.md", ts);
    NotBelowConflicts("b.md");
    BothEditedIsReady(places);
    SettledDestination(d, p => false, paths, none, places, "b.md");
    MergedExactly(d, p => false, paths, none, places);
    assert "b.md" in paths;
  }

  lemma BothEditedIsReady(places: Places)
    requires "b.md" in places && UnderConflicts(places["b.md"]) && !UnderConflicts("b.md")
    ensures ReadyToSettle(BothEdited(), p => false, ["b.md"], places)
    ensures "b.md" in UnmergedOf(BothEdited()) && TurnOf(BothEdited(), map[], "b.md").Aside?
    ensures CanSettle(BothEdited(), map[], "b.md")
  {
    hide UnderConflicts;
  }

  function BothEdited(): Disk {
    var head, up := RootCommit(map["b.md" := "1"], 0), RootCommit(map["b.md" := "2"], 1);
    Disk(head, map[], map["b.md" := "<<<"],
         Some(Merging(up, map["b.md" := Stages(Some("0"), Some("1"), Some("2"))])), up)
  }

  lemma RenamedIsReady(places: Places)
    requires "b.md" in places && UnderConflicts(places["b.md"])
    requires !UnderConflicts("a.md") && !UnderConflicts("b.md")
    ensures ReadyToSettle(Renamed(), p => false, ["b.md"], places)
    ensures "b.md" in UnmergedOf(Renamed()) && TurnOf(Renamed(), map[], "b.md").Dropped?
    ensures Verdict(Renamed(), "b.md", map[]) == None
  {
    hide UnderConflicts;
  }

  lemma NotBelowConflicts(p: Path)
    requires p != "" && p[0] != DIR[0]
    ensures !UnderConflicts(p)
  {
    assert (DIR + "/")[0] == DIR[0];
  }

  function Renamed(): Disk {
    var head, up := RootCommit(map["a.md" := "1"], 0), RootCommit(map["b.md" := "2"], 1);
    Disk(head, map[], map["b.md" := "<<<"],
         Some(Merging(up, map["b.md" := Stages(Some("0"), Some("1"), Some("2"))])), up)
  }
}
