/** Listing the claims under a prefix: live, with its fallbacks when a fetch fails, and
    from the local mirror. */
module ClaimListing {
  import opened GitObjects
  import opened Text

  type Sha = string

  datatype RemoteRef = RemoteRef(sha: Sha, ref: string)

  datatype Meta = Meta(cluster: string, taskID: string, leaseUntil: string)

  datatype ClaimRef = ClaimRef(ref: string, sha: Sha, meta: Meta)

  datatype Result<+T> = Ok(value: T) | Err

  const CLAIMS := "refs/claims/"
  const MIRROR := "refs/claim-mirror/"

  // ------------------------------------------------------------- matching

  predicate MatchesClaimPrefix(ref: string, prefix: string) {
    var base := "refs/" + prefix;
    if EndsWith(prefix, "/") then StartsWith(ref, base) else ref == base || StartsWith(ref, base + "/")
  }

  lemma Glue(c: char, x: seq<string>, y: seq<string>)
    requires |x| > 0
    ensures [""] + (x + y) == ([""] + x) + y
    ensures [[c] + (x + y)[0]] + (x + y)[1..] == ([[c] + x[0]] + x[1..]) + y
  {
  }

  lemma {:induction false} SplitAt(a: string, sep: char, b: string)
    ensures SplitOn(a + [sep] + b, sep) == SplitOn(a, sep) + SplitOn(b, sep)
  {
    if a == "" {
      assert ("" + [sep] + b)[1..] == b;
    } else {
      SplitAt(a[1..], sep, b);
      assert (a + [sep] + b)[1..] == a[1..] + [sep] + b;
      Glue(a[0], SplitOn(a[1..], sep), SplitOn(b, sep));
    }
  }

  lemma {:induction false} JoinAt(a: seq<string>, sep: string, b: seq<string>)
    requires |a| > 0 && |b| > 0
    ensures JoinWith(a + b, sep) == JoinWith(a, sep) + sep + JoinWith(b, sep)
  {
    assert (a + b)[1..] == a[1..] + b;
    if |a| > 1 {
      JoinAt(a[1..], sep, b);
    } else {
      assert a[1..] + b == b;
    }
  }

  /** The path components of a prefix; a slash at its end is not the start of another. */
  function PrefixParts(prefix: string): seq<string> {
    var parts := SplitOn("refs/" + prefix, '/');
    if EndsWith(prefix, "/") then parts[..|parts| - 1] else parts
  }

  /** A ref belongs to a prefix if its components start with those of the prefix; with a
      slash at the end of the prefix there must be a further one. So `claims/task/1` has
      nothing to do with `claims/task/10`. */
  predicate Belongs(ref: string, prefix: string) {
    var parts := SplitOn(ref, '/');
    if EndsWith(prefix, "/") then PrefixParts(prefix) < parts else PrefixParts(prefix) <= parts
  }

  lemma PrefixByComponents(ref: string, prefix: string)
    ensures MatchesClaimPrefix(ref, prefix) <==> Belongs(ref, prefix)
  {
    if EndsWith(prefix, "/") {
      var base := "refs/" + prefix[..|prefix| - 1];
      assert prefix == prefix[..|prefix| - 1] + "/";
      assert "refs/" + prefix == base + "/" == base + ['/'] + "";
      SplitAt(base, '/', "");
      assert PrefixParts(prefix) == SplitOn(base, '/');
      BelowByComponents(ref, base);
    } else {
      BelowByComponents(ref, "refs/" + prefix);
    }
  }

  lemma BelowByComponents(ref: string, base: string)
    ensures StartsWith(ref, base + "/") <==> SplitOn(base, '/') < SplitOn(ref, '/')
    ensures ref == base <==> SplitOn(base, '/') == SplitOn(ref, '/')
  {
    var bs, rs := SplitOn(base, '/'), SplitOn(ref, '/');
    JoinOfSplit(base, '/');
    JoinOfSplit(ref, '/');
    if StartsWith(ref, base + "/") { BelowIsLonger(ref, base); }
    hide SplitOn;
    if bs < rs {
      var more := rs[|bs|..];
      assert rs == bs + more;
      JoinAt(bs, ['/'], more);
      hide JoinWith;
      assert ref == base + ['/'] + JoinWith(more, ['/']);
      assert StartsWith(ref, base + "/");
    }
  }

  lemma BelowIsLonger(ref: string, base: string)
    requires StartsWith(ref, base + "/")
    ensures SplitOn(base, '/') < SplitOn(ref, '/')
  {
    hide SplitOn;
    var rest := ref[|base| + 1..];
    assert ref == base + ['/'] + rest;
    SplitAt(base, '/', rest);
  }

  // -------------------------------------------------------------- sorting

  predicate Less(a: string, b: string)
    decreases a
  {
    b != "" && (a == "" || a[0] < b[0] || (a[0] == b[0] && Less(a[1..], b[1..])))
  }

  lemma {:induction false} LessIsTotal(a: string, b: string)
    ensures a != b ==> (Less(a, b) <==> !Less(b, a))
    ensures !Less(a, a)
    decreases a
  {
    if a != "" && b != "" && a[0] == b[0] {
      LessIsTotal(a[1..], b[1..]);
      assert a == [a[0]] + a[1..] && b == [b[0]] + b[1..];
    }
    if a != "" { LessIsTotal(a[1..], a[1..]); }
  }

  lemma {:induction false} LessIsTransitive(a: string, b: string, c: string)
    requires Less(a, b) && Less(b, c)
    ensures Less(a, c)
    decreases a
  {
    if a != "" && a[0] == b[0] && b[0] == c[0] { LessIsTransitive(a[1..], b[1..], c[1..]); }
  }

  /** The order of names: at the first place where they differ the smaller character, or
      nothing, comes first. */
  lemma {:induction false} LessExactly(a: string, b: string)
    ensures Less(a, b) <==>
            exists i :: 0 <= i <= |a| && i < |b| && a[..i] == b[..i] && (i == |a| || a[i] < b[i])
    decreases a
  {
    if a == "" {
      assert b != "" ==> a[..0] == b[..0];
    } else if b != "" {
      LessExactly(a[1..], b[1..]);
      var x, y := a[1..], b[1..];
      if Less(a, b) {
        if a[0] < b[0] {
          assert a[..0] == b[..0];
        } else {
          var i :| 0 <= i <= |x| && i < |y| && x[..i] == y[..i] && (i == |x| || x[i] < y[i]);
          assert a[..i + 1] == [a[0]] + x[..i] && b[..i + 1] == [b[0]] + y[..i];
        }
      }
      if i :| 0 <= i <= |a| && i < |b| && a[..i] == b[..i] && (i == |a| || a[i] < b[i]) {
        if i > 0 {
          assert a[0] == a[..i][0] == b[..i][0] == b[0];
          assert x[..i - 1] == a[..i][1..] && y[..i - 1] == b[..i][1..];
        }
      }
    }
  }

  predicate Ascending(es: seq<RemoteRef>) { forall i, j | 0 <= i < j < |es| :: Less(es[i].ref, es[j].ref) }

  predicate DistinctRefs(es: seq<RemoteRef>) { forall i, j | 0 <= i < j < |es| :: es[i].ref != es[j].ref }

  function Insert(e: RemoteRef, es: seq<RemoteRef>): seq<RemoteRef> {
    if |es| == 0 || Less(e.ref, es[0].ref) then [e] + es else [es[0]] + Insert(e, es[1..])
  }

  /** sort.Slice by ref name. */
  function SortByRef(es: seq<RemoteRef>): seq<RemoteRef> {
    if |es| == 0 then [] else Insert(es[0], SortByRef(es[1..]))
  }

  lemma {:induction false} InsertSorts(e: RemoteRef, es: seq<RemoteRef>)
    requires Ascending(es) && forall x | x in es :: x.ref != e.ref
    ensures Ascending(Insert(e, es))
    ensures forall x :: x in Insert(e, es) <==> x == e || x in es
  {
    if |es| > 0 && !Less(e.ref, es[0].ref) {
      LessIsTotal(e.ref, es[0].ref);
      assert es[0] in es;
      InsertSorts(e, es[1..]);
      var r := Insert(e, es[1..]);
      forall j | 0 <= j < |r| ensures Less(es[0].ref, r[j].ref) {
        assert r[j] in r;
        if r[j] != e {
          var m :| 0 <= m < |es[1..]| && es[1..][m] == r[j];
          assert es[m + 1] == r[j];
        }
      }
    } else if |es| > 0 {
      forall j | 0 <= j < |es| ensures Less(e.ref, es[j].ref) {
        if j > 0 { LessIsTransitive(e.ref, es[0].ref, es[j].ref); }
      }
    }
  }

  lemma {:induction false} SortSorts(es: seq<RemoteRef>)
    requires DistinctRefs(es)
    ensures Ascending(SortByRef(es))
    ensures forall x :: x in SortByRef(es) <==> x in es
  {
    if |es| > 0 {
      SortSorts(es[1..]);
      forall x | x in SortByRef(es[1..]) ensures x.ref != es[0].ref {
        var m :| 0 <= m < |es[1..]| && es[1..][m] == x;
        assert es[m + 1] == x;
      }
      InsertSorts(es[0], SortByRef(es[1..]));
    }
  }

  lemma {:induction false} InsertKeeps(e: RemoteRef, es: seq<RemoteRef>)
    ensures forall x :: x in Insert(e, es) <==> x == e || x in es
  {
    if |es| > 0 && !Less(e.ref, es[0].ref) { InsertKeeps(e, es[1..]); }
  }

  lemma {:induction false} SortKeeps(es: seq<RemoteRef>)
    ensures forall x :: x in SortByRef(es) <==> x in es
  {
    if |es| > 0 {
      SortKeeps(es[1..]);
      InsertKeeps(es[0], SortByRef(es[1..]));
    }
  }

  lemma EmptyHasNothing(es: seq<RemoteRef>)
    ensures |es| > 0 ==> exists x :: x in es
  {
    if |es| > 0 { assert es[0] in es; }
  }

  /** A sorted list is settled by what is in it. */
  lemma {:induction false} SortedIsUnique(a: seq<RemoteRef>, b: seq<RemoteRef>)
    requires Ascending(a) && Ascending(b) && forall x :: x in a <==> x in b
    ensures a == b
  {
    if |a| == 0 {
      EmptyHasNothing(b);
    } else {
      assert a[0] in a;
      var j :| 0 <= j < |b| && b[j] == a[0];
      assert b[0] in b;
      var i :| 0 <= i < |a| && a[i] == b[0];
      LessIsTotal(a[0].ref, b[0].ref);
      assert a[0] == b[0];
      forall x ensures x in a[1..] <==> x in b[1..] {
        LessIsTotal(a[0].ref, a[0].ref);
        assert x in a <==> x == a[0] || x in a[1..];
        assert x in b <==> x == b[0] || x in b[1..];
        assert a[0] !in a[1..] && b[0] !in b[1..];
      }
      SortedIsUnique(a[1..], b[1..]);
      assert a == [a[0]] + a[1..] && b == [b[0]] + b[1..];
    }
  }

  // ------------------------------------------------------------ selection

  function Matching(es: seq<RemoteRef>, prefix: string): (r: seq<RemoteRef>)
    ensures forall x :: x in r <==> x in es && MatchesClaimPrefix(x.ref, prefix)
  {
    if |es| == 0 then [] else
      var n := |es| - 1;
      assert es == es[..n] + [es[n]];
      if MatchesClaimPrefix(es[n].ref, prefix) then Matching(es[..n], prefix) + [es[n]] else Matching(es[..n], prefix)
  }

  lemma {:induction false} MatchingDistinct(es: seq<RemoteRef>, prefix: string)
    requires DistinctRefs(es)
    ensures DistinctRefs(Matching(es, prefix))
  {
    if |es| > 0 {
      var n := |es| - 1;
      MatchingDistinct(es[..n], prefix);
      forall x | x in Matching(es[..n], prefix) ensures x.ref != es[n].ref {
        assert x in es[..n];
      }
    }
  }

  /** What a listing must return: the matching refs, sorted by name. */
  function Listing(refs: seq<RemoteRef>, prefix: string): seq<RemoteRef> {
    SortByRef(Matching(refs, prefix))
  }

  lemma ListingIsExact(refs: seq<RemoteRef>, prefix: string)
    requires DistinctRefs(refs)
    ensures Ascending(Listing(refs, prefix))
    ensures forall x: RemoteRef :: x in Listing(refs, prefix) <==> x in refs && MatchesClaimPrefix(x.ref, prefix)
  {
    MatchingDistinct(refs, prefix);
    SortSorts(Matching(refs, prefix));
  }

  lemma SameListing(a: seq<RemoteRef>, b: seq<RemoteRef>, prefix: string)
    requires DistinctRefs(a) && DistinctRefs(b)
    requires forall x: RemoteRef | MatchesClaimPrefix(x.ref, prefix) :: x in a <==> x in b
    ensures Listing(a, prefix) == Listing(b, prefix)
  {
    ListingIsExact(a, prefix);
    ListingIsExact(b, prefix);
    SortedIsUnique(Listing(a, prefix), Listing(b, prefix));
  }

  // --------------------------------------------------------------- mirror

  function ClaimName(mirrored: string): string {
    CLAIMS + if StartsWith(mirrored, MIRROR) then mirrored[|MIRROR|..] else mirrored
  }

  function FromMirror(mirror: seq<RemoteRef>): seq<RemoteRef> {
    seq(|mirror|, i requires 0 <= i < |mirror| => RemoteRef(mirror[i].sha, ClaimName(mirror[i].ref)))
  }

  /** The mirror holds exactly the claims of the origin. */
  ghost predicate Mirrors(mirror: seq<RemoteRef>, refs: seq<RemoteRef>) {
    && (forall m | m in mirror :: StartsWith(m.ref, MIRROR))
    && (forall sha, rest :: RemoteRef(sha, MIRROR + rest) in mirror <==> RemoteRef(sha, CLAIMS + rest) in refs)
  }

  lemma MatchIsClaim(ref: string, prefix: string)
    requires StartsWith(prefix, "claims/") && MatchesClaimPrefix(ref, prefix)
    ensures StartsWith(ref, CLAIMS)
  {
    var base := "refs/" + prefix;
    assert prefix[..|"claims/"|] == "claims/";
    assert base[..|CLAIMS|] == CLAIMS;
    assert StartsWith(ref, base);
    assert ref[..|CLAIMS|] == base[..|CLAIMS|];
  }

  /** A listing of a mirror that is up to date is the listing of the origin. */
  lemma MirrorAgrees(mirror: seq<RemoteRef>, refs: seq<RemoteRef>, prefix: string)
    requires DistinctRefs(mirror) && DistinctRefs(refs) && Mirrors(mirror, refs) && StartsWith(prefix, "claims/")
    ensures Listing(FromMirror(mirror), prefix) == Listing(refs, prefix)
  {
    var claims := FromMirror(mirror);
    forall i, j | 0 <= i < j < |claims| ensures claims[i].ref != claims[j].ref {
      assert mirror[i] in mirror && mirror[j] in mirror;
      NameOfMirrored(mirror[i].ref);
      NameOfMirrored(mirror[j].ref);
      assert claims[i].ref[|CLAIMS|..] == mirror[i].ref[|MIRROR|..]
             && claims[j].ref[|CLAIMS|..] == mirror[j].ref[|MIRROR|..];
    }
    forall x: RemoteRef | MatchesClaimPrefix(x.ref, prefix) ensures x in claims <==> x in refs {
      MatchIsClaim(x.ref, prefix);
      var rest := x.ref[|CLAIMS|..];
      assert x == RemoteRef(x.sha, CLAIMS + rest);
      if x in refs {
        var i :| 0 <= i < |mirror| && mirror[i] == RemoteRef(x.sha, MIRROR + rest);
        assert claims[i] == x;
      }
      if x in claims {
        var i :| 0 <= i < |claims| && claims[i] == x;
        assert mirror[i] in mirror;
        NameOfMirrored(mirror[i].ref);
        var r := mirror[i].ref[|MIRROR|..];
        assert x.ref == CLAIMS + r && x.ref[|CLAIMS|..] == r;
        assert mirror[i] == RemoteRef(x.sha, MIRROR + rest);
      }
    }
    SameListing(claims, refs, prefix);
  }

  lemma NameOfMirrored(name: string)
    requires StartsWith(name, MIRROR)
    ensures name == MIRROR + name[|MIRROR|..] && ClaimName(name) == CLAIMS + name[|MIRROR|..]
  {
  }

  /** What `git fetch` with pruning leaves in the mirror. */
  function MirrorOf(refs: seq<RemoteRef>): seq<RemoteRef> {
    if |refs| == 0 then [] else
      var n := |refs| - 1;
      if StartsWith(refs[n].ref, CLAIMS) then
        MirrorOf(refs[..n]) + [RemoteRef(refs[n].sha, MIRROR + refs[n].ref[|CLAIMS|..])]
      else MirrorOf(refs[..n])
  }

  lemma {:induction false} MirrorOfExactly(refs: seq<RemoteRef>)
    ensures forall m | m in MirrorOf(refs) :: StartsWith(m.ref, MIRROR)
    ensures forall sha, rest :: RemoteRef(sha, MIRROR + rest) in MirrorOf(refs) <==>
              RemoteRef(sha, CLAIMS + rest) in refs
  {
    if |refs| > 0 {
      var n := |refs| - 1;
      var e, less := refs[n], refs[..n];
      MirrorOfExactly(less);
      assert refs == less + [e];
      forall sha, rest
        ensures RemoteRef(sha, MIRROR + rest) in MirrorOf(refs) <==> RemoteRef(sha, CLAIMS + rest) in refs
      {
        assert (MIRROR + rest)[|MIRROR|..] == rest == (CLAIMS + rest)[|CLAIMS|..];
        if StartsWith(e.ref, CLAIMS) {
          var r := e.ref[|CLAIMS|..];
          assert e.ref == CLAIMS + r && (MIRROR + r)[|MIRROR|..] == r;
        } else {
          assert StartsWith(CLAIMS + rest, CLAIMS);
        }
      }
    }
  }

  lemma NotMirroredYet(refs: seq<RemoteRef>, rest: string)
    requires forall x | x in refs :: x.ref != CLAIMS + rest
    ensures forall m | m in MirrorOf(refs) :: m.ref != MIRROR + rest
  {
    MirrorOfExactly(refs);
    hide MirrorOf;
    forall m | m in MirrorOf(refs) ensures m.ref != MIRROR + rest {
      assert RemoteRef(m.sha, CLAIMS + rest) !in refs;
      assert RemoteRef(m.sha, MIRROR + rest) !in MirrorOf(refs) && m == RemoteRef(m.sha, m.ref);
    }
  }

  lemma {:induction false} MirrorIsDistinct(refs: seq<RemoteRef>)
    requires DistinctRefs(refs)
    ensures DistinctRefs(MirrorOf(refs))
  {
    if |refs| > 0 {
      var n := |refs| - 1;
      var less := refs[..n];
      MirrorIsDistinct(less);
      if StartsWith(refs[n].ref, CLAIMS) {
        var rest := refs[n].ref[|CLAIMS|..];
        assert refs[n].ref == CLAIMS + rest;
        NotMirroredYet(less, rest);
        assert forall m | m in MirrorOf(less) :: m.ref != MIRROR + rest;
      }
    }
  }

  lemma MirrorOfMirrors(refs: seq<RemoteRef>)
    requires DistinctRefs(refs)
    ensures Mirrors(MirrorOf(refs), refs) && DistinctRefs(MirrorOf(refs))
  {
    MirrorOfExactly(refs);
    MirrorIsDistinct(refs);
    hide MirrorOf;
  }

  // ------------------------------------------------------ from ls-remote

  /** `git ls-remote origin <name>` and `<name>*`: a pattern matches from the start of
      the name or from after any slash. */
  predicate Globs(ref: string, name: string, star: bool) {
    || ref == name || EndsWith(ref, "/" + name)
    || (star && (|| StartsWith(ref, name)
                 || exists i :: 0 <= i < |ref| && ref[i] == '/' && StartsWith(ref[i + 1..], name)))
  }

  lemma GlobCoversPrefix(entries: seq<RemoteRef>, refs: seq<RemoteRef>, prefix: string)
    requires DistinctRefs(entries) && DistinctRefs(refs)
    requires forall x :: x in entries <==> x in refs && Globs(x.ref, "refs/" + prefix, true)
    ensures Listing(entries, prefix) == Listing(refs, prefix)
  {
    forall x: RemoteRef | MatchesClaimPrefix(x.ref, prefix) ensures x in entries <==> x in refs {
      assert StartsWith(x.ref, "refs/" + prefix);
    }
    SameListing(entries, refs, prefix);
  }

  function Except(es: seq<RemoteRef>, gone: set<RemoteRef>): seq<RemoteRef> {
    if |es| == 0 then [] else
      var n := |es| - 1;
      if es[n] in gone then Except(es[..n], gone) else Except(es[..n], gone) + [es[n]]
  }

  lemma {:induction false} ExceptOther(es: seq<RemoteRef>, gone: set<RemoteRef>, e: RemoteRef)
    requires e !in es
    ensures Except(es, gone + {e}) == Except(es, gone)
  {
    if |es| > 0 { ExceptOther(es[..|es| - 1], gone, e); }
  }

  lemma {:induction false} NothingGone(es: seq<RemoteRef>)
    ensures Except(es, {}) == es
  {
    if |es| > 0 { NothingGone(es[..|es| - 1]); }
  }

  lemma {:induction false} ExceptExactly(es: seq<RemoteRef>, gone: set<RemoteRef>, x: RemoteRef)
    ensures x in Except(es, gone) <==> x in es && x !in gone
  {
    if |es| > 0 {
      ExceptExactly(es[..|es| - 1], gone, x);
      assert es == es[..|es| - 1] + [es[|es| - 1]];
    }
  }

  lemma OneMoreRead(matched: seq<RemoteRef>, i: nat, gone: set<RemoteRef>)
    requires Ascending(matched) && i < |matched| && forall x | x in gone :: x in matched[..i]
    ensures Except(matched[..i + 1], gone) == Except(matched[..i], gone) + [matched[i]]
    ensures Except(matched[..i + 1], gone + {matched[i]}) == Except(matched[..i], gone)
    ensures forall x | x in gone + {matched[i]} :: x in matched[..i + 1]
  {
    var more := matched[..i + 1];
    assert more[..i] == matched[..i] && more[i] == matched[i];
    if matched[i] in matched[..i] {
      var j :| 0 <= j < i && matched[..i][j] == matched[i];
      LessIsTotal(matched[i].ref, matched[i].ref);
    }
    ExceptOther(matched[..i], gone, matched[i]);
    assert forall x | x in matched[..i] :: x in more;
    assert more[i] in more;
  }

  // ---------------------------------------------------------------- reads

  datatype Read = Keep(claim: ClaimRef) | Gone | Broken

  datatype MirrorRead = Served(claims: seq<ClaimRef>) | NotServed | Cancelled

  const MIN_STALENESS := 60_000   // milliseconds

  /** One server's clone and the origin it lists. Any command may fail, and the origin
      may change before any command that contacts it. */
  class ClaimReader {
    const message: Sha -> string              // what a commit says
    const parse: string -> Option<Meta>       // the JSON library
    const pullInterval: int

    var advertised: seq<RemoteRef>
    var objects: set<Sha>
    var mirror: seq<RemoteRef>
    var freshAt: int                          // 0: never fetched with the claims refspec
    ghost var changes: nat                    // times the origin changed
    ghost var faults: nat                     // commands that broke, and cancellations
    ghost var dropped: set<RemoteRef>         // what it dropped since the last live listing began

    constructor (message: Sha -> string, parse: string -> Option<Meta>, pullInterval: int, advertised: seq<RemoteRef>)
      requires DistinctRefs(advertised)
      ensures Valid() && this.advertised == advertised && mirror == [] && freshAt == 0
    {
      this.message, this.parse, this.pullInterval, this.advertised := message, parse, pullInterval, advertised;
      objects, mirror, freshAt, changes, faults, dropped := {}, [], 0, 0, 0, {};
    }

    ghost predicate Valid()
      reads this
    {
      DistinctRefs(advertised) && DistinctRefs(mirror)
    }

    /** A claim with its metadata, or with empty metadata if it does not parse. */
    function ClaimOf(e: RemoteRef): ClaimRef {
      var meta := parse(message(e.sha));
      ClaimRef(e.ref, e.sha, if meta.Some? then meta.value else Meta("", "", ""))
    }

    function ClaimsOf(es: seq<RemoteRef>): (claims: seq<ClaimRef>)
      ensures |claims| == |es| && forall i | 0 <= i < |es| :: claims[i] == ClaimOf(es[i])
    {
      seq(|es|, i requires 0 <= i < |es| => ClaimOf(es[i]))
    }

    /** What other clients did to the origin is on record. */
    twostate predicate Moved()
      reads this
    {
      && changes >= old(changes) && (changes == old(changes) ==> advertised == old(advertised))
      && faults >= old(faults)
      && old(dropped) <= dropped && forall x | x in old(advertised) :: x in advertised || x in dropped
    }

    /** Nothing broke, and the origin did not change. */
    twostate predicate Calm()
      reads this
    {
      faults == old(faults) && changes == old(changes)
    }

    method Luck() returns (broken: bool)
      modifies `faults
      ensures faults == if broken then old(faults) + 1 else old(faults)
    {
      broken := *;
      if broken { faults := faults + 1; }
    }

    /** The claim is this ref, with the metadata of its commit or, if that does not parse,
        with none. */
    ghost predicate Shows(claim: ClaimRef, x: RemoteRef) {
      && claim.ref == x.ref && claim.sha == x.sha
      && (parse(message(x.sha)).Some? ==> claim.meta == parse(message(x.sha)).value)
      && (parse(message(x.sha)).None? ==> claim.meta == Meta("", "", ""))
    }

    /** The answer has exactly the claims that belong to the prefix, each with what its
        commit says, in ascending order of their names. */
    ghost predicate Lists(answer: seq<ClaimRef>, refs: seq<RemoteRef>, prefix: string) {
      && (forall i, j | 0 <= i < j < |answer| :: Less(answer[i].ref, answer[j].ref))
      && forall claim :: claim in answer <==>
                         exists x :: x in refs && Belongs(x.ref, prefix) && Shows(claim, x)
    }

    lemma ListingLists(refs: seq<RemoteRef>, prefix: string)
      requires DistinctRefs(refs)
      ensures Lists(ClaimsOf(Listing(refs, prefix)), refs, prefix)
    {
      hide MatchesClaimPrefix;
      hide Belongs;
      hide Listing;
      hide Less;
      ListingIsExact(refs, prefix);
      var es := Listing(refs, prefix);
      forall claim
        ensures claim in ClaimsOf(es) <==> exists x :: x in refs && Belongs(x.ref, prefix) && Shows(claim, x)
      {
        if claim in ClaimsOf(es) {
          var i :| 0 <= i < |es| && ClaimsOf(es)[i] == claim;
          PrefixByComponents(es[i].ref, prefix);
          assert es[i] in es && Shows(claim, es[i]);
        }
        if x :| x in refs && Belongs(x.ref, prefix) && Shows(claim, x) {
          assert claim == ClaimOf(x);
          PrefixByComponents(x.ref, prefix);
          ClaimsHave(es, x);
        }
      }
    }

    lemma ClaimsHave(es: seq<RemoteRef>, x: RemoteRef)
      requires x in es
      ensures ClaimOf(x) in ClaimsOf(es)
    {
      var i :| 0 <= i < |es| && es[i] == x;
      assert ClaimsOf(es)[i] == ClaimOf(x);
    }

    method Others()
      requires Valid()
      modifies `advertised, `changes, `dropped
      ensures Valid() && Moved() && faults == old(faults)
    {
      var next: seq<RemoteRef> := *;
      if DistinctRefs(next) {
        if next != advertised { changes := changes + 1; }
        dropped := dropped + set x | x in advertised && x !in next;
        advertised := next;
      }
    }

    method ListRefs(name: string, star: bool) returns (r: Result<seq<RemoteRef>>)
      requires Valid()
      modifies `advertised, `changes, `dropped, `faults
      ensures Valid() && Moved()
      ensures r.Ok? ==>
                DistinctRefs(r.value)
                && forall x :: x in r.value <==> x in advertised && Globs(x.ref, name, star)
      ensures faults == old(faults) ==> r.Ok?
    {
      Others();
      var broken := Luck();
      if broken { return Err; }
      var listed: seq<RemoteRef> := [];
      for i := 0 to |advertised|
        invariant DistinctRefs(listed)
        invariant forall x :: x in listed <==> x in advertised[..i] && Globs(x.ref, name, star)
      {
        assert advertised[..i + 1] == advertised[..i] + [advertised[i]];
        forall x | x in listed ensures x.ref != advertised[i].ref {
          assert x in advertised[..i];
        }
        if Globs(advertised[i].ref, name, star) { listed := listed + [advertised[i]]; }
      }
      assert advertised[..|advertised|] == advertised;
      return Ok(listed);
    }

    method FetchCommits(shas: seq<Sha>) returns (ok: bool)
      requires Valid()
      modifies `advertised, `changes, `dropped, `faults, `objects
      ensures Valid() && Moved()
      ensures old(objects) <= objects && (ok ==> forall sha | sha in shas :: sha in objects)
      ensures faults == old(faults) && (forall sha | sha in shas :: exists e :: e in advertised && e.sha == sha) ==> ok
    {
      Others();
      var broken := Luck();
      var served: bool := *;
      ok := !broken && (served || forall sha | sha in shas :: exists e :: e in advertised && e.sha == sha);
      var some: set<Sha> := *;
      objects := objects + if ok then (set sha | sha in shas) else some;
    }

    method ReadCommitMessage(sha: Sha) returns (r: Result<string>)
      modifies `faults
      ensures r.Ok? ==> r.value == message(sha)
      ensures faults >= old(faults) && (faults == old(faults) ==> (r.Ok? <==> sha in objects))
    {
      var broken := Luck();
      return if broken || sha !in objects then Err else Ok(message(sha));
    }

    /** A ref whose commit cannot be fetched is dropped only if it has moved. */
    method ResolveFetchFailure(e: RemoteRef) returns (r: Read)
      requires Valid()
      modifies `advertised, `changes, `dropped, `faults
      ensures Valid() && Moved()
      ensures r.Gone? ==> e !in advertised
      ensures !r.Keep?
    {
      var refs := ListRefs(e.ref, false);
      if refs.Err? { return Broken; }
      if e in refs.value { return Broken; }
      return Gone;
    }

    method ReadClaimRef(e: RemoteRef, batchOK: bool) returns (r: Read)
      requires Valid() && (batchOK ==> e.sha in objects)
      modifies `advertised, `changes, `dropped, `faults, `objects
      ensures Valid() && Moved() && old(objects) <= objects
      ensures r.Keep? ==> r.claim == ClaimOf(e)
      ensures r.Gone? ==> e !in advertised
      ensures Calm() && e in old(advertised) ==> r.Keep?
    {
      if !batchOK {
        var ok := FetchCommits([e.sha]);
        if !ok {
          r := ResolveFetchFailure(e);
          return;
        }
      }
      var text := ReadCommitMessage(e.sha);
      if text.Err? { return Broken; }
      var meta := parse(text.value);
      return Keep(ClaimRef(e.ref, e.sha, if meta.Some? then meta.value else Meta("", "", "")));
    }

    /** The live listing: an error, or every matching ref, sorted, once each and with its
        metadata. Only a ref that the origin dropped meanwhile may be missing. */
    method ListClaimRefsLive(prefix: string)
      returns (r: Result<seq<ClaimRef>>, ghost listed: seq<RemoteRef>, ghost gone: set<RemoteRef>)
      requires Valid()
      modifies `advertised, `changes, `dropped, `faults, `objects
      ensures Valid() && changes >= old(changes) && faults >= old(faults)
      ensures Calm() ==> r.Ok?
      ensures r.Ok? && changes == old(changes) ==> Lists(r.value, old(advertised), prefix)
      ensures r.Ok? ==> r.value == ClaimsOf(Except(Listing(listed, prefix), gone))
      ensures r.Ok? ==> gone <= dropped && (gone != {} ==> changes > old(changes))
      ensures r.Ok? ==> forall x | x in old(advertised) && Belongs(x.ref, prefix) ::
                          ClaimOf(x) in r.value || x in dropped
      ensures r.Ok? && changes == old(changes) ==> r.value == ClaimsOf(Listing(old(advertised), prefix))
    {
      hide MatchesClaimPrefix;
      hide Globs;
      hide Listing;
      hide Ascending;
      hide Except;
      hide Belongs;
      hide Lists;
      ListingLists(advertised, prefix);
      forall x ensures MatchesClaimPrefix(x, prefix) <==> Belongs(x, prefix) { PrefixByComponents(x, prefix); }
      listed, gone, dropped := advertised, {}, {};
      var entries := ListRefs("refs/" + prefix, true);
      if entries.Err? { return Err, listed, gone; }
      listed := advertised;
      var matched := Listing(entries.value, prefix);
      GlobCoversPrefix(entries.value, listed, prefix);
      ListingIsExact(listed, prefix);
      NothingGone(matched);
      NothingGone(matched[..0]);
      if |matched| == 0 { return Ok([]), listed, gone; }
      assert forall x | x in old(advertised) :: x in listed || x in dropped;
      var shas := seq(|matched|, i requires 0 <= i < |matched| => matched[i].sha);
      var batchOK := FetchCommits(shas);
      var result: seq<ClaimRef> := [];
      for i := 0 to |matched|
        invariant Valid() && changes >= old(changes) && faults >= old(faults)
        invariant batchOK ==> forall sha | sha in shas :: sha in objects
        invariant changes == old(changes) ==> gone == {} && advertised == listed == old(advertised)
        invariant result == ClaimsOf(Except(matched[..i], gone)) && forall x | x in gone :: x in matched[..i]
        invariant gone <= dropped && forall x | x in listed :: x in advertised || x in dropped
        invariant forall x | x in old(advertised) :: x in listed || x in dropped
      {
        var cut := Luck();
        if cut { return Err, listed, gone; }
        assert shas[i] == matched[i].sha && matched[i] in matched;
        var one := ReadClaimRef(matched[i], batchOK);
        OneMoreRead(matched, i, gone);
        match one {
          case Broken => return Err, listed, gone;
          case Gone =>
            gone := gone + {matched[i]};
          case Keep(claim) => result := result + [claim];
        }
      }
      assert matched[..|matched|] == matched;
      forall x | x in matched && x !in gone ensures ClaimOf(x) in result {
        ExceptExactly(matched, gone, x);
        ClaimsHave(Except(matched, gone), x);
      }
      return Ok(result), listed, gone;
    }

    // ------------------------------------------------------------ mirror

    function StalenessBound(): int { if 2 * pullInterval < MIN_STALENESS then MIN_STALENESS else 2 * pullInterval }

    /** The age of the mirror if it is fresh enough to be served. */
    method ClaimMirrorAge(now: int) returns (age: Option<int>)
      ensures age.Some? <==> freshAt != 0 && now - freshAt <= StalenessBound()
      ensures age.Some? ==> 0 <= age.value <= StalenessBound() && (freshAt <= now ==> age.value == now - freshAt)
    {
      if freshAt == 0 { return None; }
      var a := now - freshAt;
      if a < 0 { a := 0; }
      if a > StalenessBound() { return None; }
      return Some(a);
    }

    /** The part of `git fetch` that refreshes the mirror. Only a fetch that carried the
        claims refspec counts as fresh. */
    method FetchMirror(now: int, refspec: bool) returns (ok: bool)
      requires Valid()
      modifies `advertised, `changes, `dropped, `faults, `mirror, `freshAt, `objects
      ensures Valid() && Moved() && old(objects) <= objects
      ensures faults == old(faults) ==> ok
      ensures ok && refspec ==> forall m | m in mirror :: m.sha in objects
      ensures ok && refspec ==> Mirrors(mirror, advertised) && freshAt == now
      ensures !ok || !refspec ==> freshAt == old(freshAt) && mirror == old(mirror)
    {
      Others();
      var broken := Luck();
      ok := !broken;
      if !ok || !refspec { return; }
      MirrorOfMirrors(advertised);
      mirror, freshAt := MirrorOf(advertised), now;
      objects := objects + set m | m in mirror :: m.sha;
    }

    /** The whole answer from the mirror, or none at all. */
    method ListClaimRefsFromMirror(prefix: string) returns (r: MirrorRead)
      requires Valid()
      modifies `faults
      ensures faults >= old(faults) && (faults == old(faults) ==> !r.Cancelled?)
      ensures faults == old(faults) && (forall m | m in mirror :: m.sha in objects) ==> r.Served?
      ensures r.Served? ==> r.claims == ClaimsOf(Listing(FromMirror(mirror), prefix))
    {
      hide MatchesClaimPrefix;
      hide SortByRef;
      var broken := Luck();
      if broken { return NotServed; }
      var claims := FromMirror(mirror);
      var matched: seq<RemoteRef> := [];
      for i := 0 to |claims|
        invariant matched == Matching(claims[..i], prefix)
      {
        var more := claims[..i + 1];
        assert more[..i] == claims[..i] && more[i] == claims[i];
        if MatchesClaimPrefix(claims[i].ref, prefix) { matched := matched + [claims[i]]; }
      }
      assert claims[..|claims|] == claims;
      MatchedAreMirrored(prefix);
      matched := SortByRef(matched);
      var result: seq<ClaimRef> := [];
      for i := 0 to |matched|
        invariant result == ClaimsOf(matched)[..i] && faults >= old(faults)
      {
        assert matched[i] in Listing(claims, prefix);
        var cut := Luck();
        if cut { return Cancelled; }
        var text := ReadCommitMessage(matched[i].sha);
        if text.Err? { return NotServed; }
        var meta := parse(text.value);
        var filled := if meta.Some? then meta.value else Meta("", "", "");
        result := result + [ClaimRef(matched[i].ref, matched[i].sha, filled)];
      }
      assert result == ClaimsOf(matched);
      return Served(result);
    }

    /** What is listed from the mirror is in it. */
    lemma MatchedAreMirrored(prefix: string)
      requires Valid()
      ensures forall x | x in Listing(FromMirror(mirror), prefix) :: exists m :: m in mirror && m.sha == x.sha
    {
      hide MatchesClaimPrefix;
      var claims := FromMirror(mirror);
      forall x | x in Listing(claims, prefix) ensures exists m :: m in mirror && m.sha == x.sha {
        SortKeeps(Matching(claims, prefix));
        var i :| 0 <= i < |claims| && claims[i] == x;
        assert mirror[i] in mirror && mirror[i].sha == x.sha;
      }
    }

    /** Mirror or live: if the origin does not change during the call and the mirror is up
        to date, every answer is the exact list of claims. There is an answer unless a
        command breaks, and it is the mirror's if that is fresh and complete. */
    method ListClaimRefs(prefix: string, now: int) returns (r: Result<seq<ClaimRef>>, fromMirror: bool)
      requires Valid() && StartsWith(prefix, "claims/")
      modifies `advertised, `changes, `dropped, `faults, `objects
      ensures Valid() && changes >= old(changes)
      ensures Calm() ==> r.Ok?
      ensures faults == old(faults) && freshAt != 0 && now - freshAt <= StalenessBound()
              && (forall m | m in mirror :: m.sha in old(objects)) ==>
                fromMirror
      ensures r.Ok? && changes == old(changes) && (fromMirror ==> Mirrors(mirror, old(advertised))) ==>
                Lists(r.value, old(advertised), prefix)
      ensures fromMirror ==> r.Ok? && r.value == ClaimsOf(Listing(FromMirror(mirror), prefix))
                             && freshAt != 0 && now - freshAt <= StalenessBound()
      ensures r.Ok? && !fromMirror && changes == old(changes) ==> r.value == ClaimsOf(Listing(old(advertised), prefix))
      ensures r.Ok? && changes == old(changes) && Mirrors(mirror, old(advertised)) ==>
                r.value == ClaimsOf(Listing(old(advertised), prefix))
    {
      ListingLists(advertised, prefix);
      hide Lists;
      fromMirror := false;
      var age := ClaimMirrorAge(now);
      if age.Some? {
        var read := ListClaimRefsFromMirror(prefix);
        match read {
          case Cancelled => return Err, false;
          case NotServed =>
          case Served(claims) =>
            if Mirrors(mirror, advertised) { MirrorAgrees(mirror, advertised, prefix); }
            return Ok(claims), true;
        }
      }
      ghost var listed, gone;
      r, listed, gone := ListClaimRefsLive(prefix);
    }
  }
}
