/** What a write, a delete and a flush do to a clone without a remote when no
    command breaks: once with every write committed at once, once with writes
    collected in the pending set. The two agree on everything a client can see. */
module Coalescing {
  import opened GitObjects
  import opened Text
  import opened TaskPhase
  import opened WorkingCopy

  /** The tree of the branch tip, the index, the files, and for each pending path
      whether its first write created it. */
  datatype Local = Local(tip: Tree, index: Tree, work: Tree, pending: map<Path, bool>)

  datatype Answer = Accepted | Existing | NoFrontmatter | Refused

  datatype Request =
    | Write(path: Path, content: Bytes)
    | WriteIfAbsent(path: Path, content: Bytes)
    | Delete(path: Path)

  /** `git commit` of the index: whether it made a commit, or had nothing to do in a
      clean tree. */
  function CommitLocal(s: Local, ignored: Ignore): (Local, bool) {
    if s.index == s.tip then (s, Unstaged(s.index, s.work, ignored) == {}) else (s.(tip := s.index), true)
  }

  /** Write the file and `git add` it. */
  function Staged(s: Local, ignored: Ignore, p: Path, c: Bytes): (Local, bool) {
    var s1 := s.(work := s.work[p := c]);
    if ignored(p) && p !in s.index then (s1, false) else (s1.(index := s1.index[p := c]), true)
  }

  function Enqueued(s: Local, p: Path, created: bool): Local {
    if p in s.pending then s else s.(pending := s.pending[p := created])
  }

  /** Writing content that differs from the file on disk. */
  function Stored(s: Local, ignored: Ignore, coalesce: bool, p: Path, c: Bytes, present: bool): (Local, Answer) {
    var (s1, added) := Staged(s, ignored, p, c);
    if !added then (s1, Refused) else
    if coalesce then (Enqueued(s1, p, !present), Accepted) else
      var (s2, ok) := CommitLocal(s1, ignored);
      (s2, if ok then Accepted else Refused)
  }

  function Written(s: Local, ignored: Ignore, coalesce: bool, p: Path, raw: Bytes, present: bool): (Local, Answer) {
    var c := Normalized(p, raw);
    if present && IsTaskFile(p) && !HasFrontmatter(c) then (s, NoFrontmatter) else
    if Get(s.work, p) == Some(c) then (s, Accepted) else Stored(s, ignored, coalesce, p, c, present)
  }

  function Flushed(s: Local, ignored: Ignore): (Local, Answer) {
    if s.pending == map[] then (s, Accepted) else
      var (s1, ok) := CommitLocal(s, ignored);
      if ok then (s1.(pending := map[]), Accepted) else (s1, Refused)
  }

  /** Remove the file, if it is there, and commit. */
  function Removed(s: Local, p: Path): (Local, Answer) {
    if p !in s.work then (s, Accepted) else
    if p !in s.index || Get(s.tip, p) != Get(s.index, p) || Get(s.work, p) != Get(s.index, p) then (s, Refused) else
      var s1 := s.(index := s.index - {p}, work := s.work - {p});
      (s1.(tip := s1.index), Accepted)
  }

  function Deleted(s: Local, ignored: Ignore, p: Path): (Local, Answer) {
    var (s1, a) := Flushed(s, ignored);
    if a.Refused? then (s1, Refused) else Removed(s1, p)
  }

  function Perform(s: Local, ignored: Ignore, coalesce: bool, r: Request): (Local, Answer) {
    match r
    case Write(p, c) => Written(s, ignored, coalesce, p, c, p in s.work)
    case WriteIfAbsent(p, c) => if p in s.work then (s, Existing) else Written(s, ignored, coalesce, p, c, false)
    case Delete(p) => Deleted(s, ignored, p)
  }

  // ------------------------------------------------- what each request does

  /** git has something to commit, or the tree is clean. */
  predicate CanCommit(s: Local, ignored: Ignore) { s.index != s.tip || Unstaged(s.index, s.work, ignored) == {} }

  lemma CommitsExactly(s: Local, ignored: Ignore)
    ensures CommitLocal(s, ignored).1 <==> CanCommit(s, ignored)
  {
  }

  lemma FlushedExactly(s: Local, ignored: Ignore)
    ensures var (s1, a) := Flushed(s, ignored);
            && a == (if s.pending == map[] || CanCommit(s, ignored) then Accepted else Refused)
            && s1.work == s.work && s1.index == s.index
            && (a == Accepted ==> s1.pending == map[] && s1.tip == if s.pending == map[] then s.tip else s.index)
            && (a == Refused ==> s1 == s)
  {
  }

  lemma DeletedExactly(s: Local, ignored: Ignore, p: Path)
    ensures var (s1, a) := Deleted(s, ignored, p);
            var tip := if s.pending == map[] then s.tip else s.index;
            && a == (if (s.pending == map[] || CanCommit(s, ignored))
                        && (p in s.work ==> p in s.index && Get(s.work, p) == Get(s.index, p) == Get(tip, p))
                     then Accepted else Refused)
            && (a == Accepted ==> s1.pending == map[] && s1.work == s.work - {p})
            && (a == Accepted && p in s.work ==> s1.index == s.index - {p} == s1.tip)
            && (a == Accepted && p !in s.work ==> s1.index == s.index && s1.tip == tip)
            && (a == Refused ==> s1.work == s.work && s1.index == s.index)
  {
    FlushedExactly(s, ignored);
    hide Flushed;
    hide CanCommit;
  }

  lemma WrittenExactly(s: Local, ignored: Ignore, coalesce: bool, p: Path, raw: Bytes, present: bool)
    ensures var (s1, a) := Written(s, ignored, coalesce, p, raw, present);
            var c := Normalized(p, raw);
            var same, next := Get(s.work, p) == Some(c), s.(index := s.index[p := c], work := s.work[p := c]);
            && a == (if present && IsTaskFile(p) && !HasFrontmatter(raw) then NoFrontmatter else
                     if same || ((p in s.index || !ignored(p)) && (coalesce || CanCommit(next, ignored)))
                     then Accepted else Refused)
            && (a == Accepted ==> s1.work == s.work[p := c])
            && (a == NoFrontmatter || (a == Accepted && same) ==> s1 == s)
            && (a == Accepted && !same ==>
                  && s1.index == s.index[p := c] && s1.tip == (if coalesce then s.tip else s1.index)
                  && (if coalesce then p in s1.pending else s1.pending == s.pending))
  {
    NormalizedKeepsFrontmatter(p, raw);
    hide HasFrontmatter;
    hide Normalized;
    hide IsTaskFile;
  }

  /** The fast path compares with the file, not with the index. So an accepted write
      leaves its content staged exactly if it was staged already or is new on disk. */
  lemma AcceptedIsStaged(s: Local, ignored: Ignore, p: Path, raw: Bytes, present: bool)
    requires Written(s, ignored, true, p, raw, present).1 == Accepted
    ensures var c := Normalized(p, raw);
            Get(Written(s, ignored, true, p, raw, present).0.index, p) == Some(c)
            <==> (Get(s.work, p) == Some(c) ==> Get(s.index, p) == Some(c))
  {
    hide Normalized;
  }

  /** A file that was put there without git, written with the same content: accepted, but
      neither staged nor pending. */
  lemma AcceptedButNotStaged(ignored: Ignore)
    ensures var s := Local(map[], map[], map["a.txt" := "new"], map[]);
            var (s1, answer) := Written(s, ignored, true, "a.txt", "new", true);
            answer == Accepted && "a.txt" !in s1.index && "a.txt" !in s1.pending
  {
    SplitPiece("a.txt", '/', "");
    assert ParentName("a.txt") == LastNamed([]) == ".";
  }

  /** An ignored file that git does not track: the first write is refused after the file
      was written, the second one is accepted without another look at the index. */
  lemma RefusedThenAccepted(ignored: Ignore, coalesce: bool)
    requires ignored("x.log")
    ensures var s := Local(map[], map[], map[], map[]);
            var (s1, first) := Written(s, ignored, coalesce, "x.log", "new", false);
            var (s2, second) := Written(s1, ignored, coalesce, "x.log", "new", true);
            first == Refused && second == Accepted && "x.log" !in s2.index && "x.log" !in s2.tip
  {
    SplitPiece("x.log", '/', "");
    assert ParentName("x.log") == LastNamed([]) == ".";
  }

  // ----------------------------------------------------------- refinement

  /** The files, apart from ignored ones git does not track, are as in the index. */
  ghost predicate Tracked(s: Local, ignored: Ignore) {
    && (forall p | p in s.index :: Get(s.work, p) == Get(s.index, p))
    && (forall p | p in s.work :: p in s.index || ignored(p))
  }

  ghost predicate SyncOk(s: Local, ignored: Ignore) {
    Tracked(s, ignored) && s.index == s.tip && s.pending == map[]
  }

  /** In the coalesced run every staged path is pending, and `created` holds exactly
      for the paths that the tip lacks. */
  ghost predicate CoalescedOk(s: Local, ignored: Ignore) {
    && Tracked(s, ignored)
    && (forall p | p in Changed(s.index, s.tip) :: p in s.pending)
    && (forall p | p in s.pending :: p in s.index && (s.pending[p] <==> p !in s.tip))
  }

  ghost predicate Agree(a: Local, b: Local, ignored: Ignore) {
    SyncOk(a, ignored) && CoalescedOk(b, ignored) && a.index == b.index && a.work == b.work
  }

  lemma TrackedIsClean(s: Local, ignored: Ignore)
    requires Tracked(s, ignored)
    ensures Unstaged(s.index, s.work, ignored) == {}
  {
    forall p ensures p !in Unstaged(s.index, s.work, ignored) {}
  }

  lemma FlushedAgrees(b: Local, ignored: Ignore)
    requires CoalescedOk(b, ignored)
    ensures var (b1, x) := Flushed(b, ignored);
            x == Accepted && b1 == Local(b.index, b.index, b.work, map[]) && CoalescedOk(b1, ignored)
  {
    TrackedIsClean(b, ignored);
    if b.pending == map[] {
      assert forall p :: p !in Changed(b.index, b.tip);
      SameTree(b.index, b.tip);
    }
  }

  lemma WrittenAgrees(a: Local, b: Local, ignored: Ignore, p: Path, raw: Bytes, present: bool)
    requires Agree(a, b, ignored) && present == (p in a.work)
    ensures var (a1, x) := Written(a, ignored, false, p, raw, present);
            var (b1, y) := Written(b, ignored, true, p, raw, present);
            x == y && Agree(a1, b1, ignored)
  {
    var c := Normalized(p, raw);
    var (a1, x) := Written(a, ignored, false, p, raw, present);
    var (b1, y) := Written(b, ignored, true, p, raw, present);
    if !(present && IsTaskFile(p) && !HasFrontmatter(c)) && Get(a.work, p) != Some(c) {
      if !(ignored(p) && p !in a.index) {
        assert a.index[p := c] != a.tip by { assert Get(a.index[p := c], p) != Get(a.tip, p); }
        assert Agree(a1, b1, ignored) by { StagedAgrees(b, ignored, p, c, present, b1); }
      }
    }
  }

  lemma StagedAgrees(b: Local, ignored: Ignore, p: Path, c: Bytes, present: bool, b1: Local)
    requires CoalescedOk(b, ignored) && present == (p in b.work) && !(ignored(p) && p !in b.index)
    requires b1 == Local(b.tip, b.index[p := c], b.work[p := c],
                         if p in b.pending then b.pending else b.pending[p := !present])
    ensures CoalescedOk(b1, ignored)
  {
    forall q | q in Changed(b1.index, b1.tip) ensures q in b1.pending {
      if q != p { assert q in Changed(b.index, b.tip); }
    }
    if p !in b.pending { assert p !in Changed(b.index, b.tip); }
  }

  /** One request: same answer, same files afterwards, and the runs stay in step. */
  lemma RequestAgrees(a: Local, b: Local, ignored: Ignore, r: Request)
    requires Agree(a, b, ignored)
    ensures var (a1, x) := Perform(a, ignored, false, r);
            var (b1, y) := Perform(b, ignored, true, r);
            x == y && Agree(a1, b1, ignored)
  {
    match r {
      case Write(p, c) => WrittenAgrees(a, b, ignored, p, c, p in a.work);
      case WriteIfAbsent(p, c) => if p !in a.work { WrittenAgrees(a, b, ignored, p, c, false); }
      case Delete(p) => FlushedAgrees(b, ignored);
    }
  }

  function Answers(s: Local, ignored: Ignore, coalesce: bool, rs: seq<Request>): seq<(Answer, Tree)>
    decreases |rs|
  {
    if |rs| == 0 then [] else
      var (s1, a) := Perform(s, ignored, coalesce, rs[0]);
      [(a, s1.work)] + Answers(s1, ignored, coalesce, rs[1..])
  }

  function Final(s: Local, ignored: Ignore, coalesce: bool, rs: seq<Request>): Local
    decreases |rs|
  {
    if |rs| == 0 then s else Final(Perform(s, ignored, coalesce, rs[0]).0, ignored, coalesce, rs[1..])
  }

  /** For every sequence of requests the two modes give the same answers and the same
      files after each request; and after a final flush the same tip tree. */
  lemma {:induction false} CoalescingRefinesSynchronous(a: Local, b: Local, ignored: Ignore, rs: seq<Request>)
    requires Agree(a, b, ignored)
    ensures Answers(a, ignored, false, rs) == Answers(b, ignored, true, rs)
    ensures Agree(Final(a, ignored, false, rs), Final(b, ignored, true, rs), ignored)
    ensures Flushed(Final(b, ignored, true, rs), ignored) == (Final(a, ignored, false, rs), Accepted)
    decreases |rs|
  {
    if |rs| == 0 {
      FlushedAgrees(b, ignored);
    } else {
      RequestAgrees(a, b, ignored, rs[0]);
      CoalescingRefinesSynchronous(
        Perform(a, ignored, false, rs[0]).0, Perform(b, ignored, true, rs[0]).0, ignored, rs[1..]);
    }
  }

  /** A clone whose files are exactly the tip's starts both runs in step. */
  lemma CleanStartAgrees(t: Tree, ignored: Ignore)
    ensures Agree(Local(t, t, t, map[]), Local(t, t, t, map[]), ignored)
  {
    assert forall p :: p !in Changed(t, t);
  }
}
