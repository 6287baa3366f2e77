/** The recursive merge of two frontmatter maps in which their side wins. */
module DeepMerge {
  import opened GitObjects

  /** A YAML value: a mapping, or anything else. */
  datatype Node = Leaf(value: string) | Dir(entries: Fields)

  type Fields = map<string, Node>

  function Merge(ours: Fields, theirs: Fields): (out: Fields)
    ensures out.Keys == ours.Keys + theirs.Keys
    decreases Dir(theirs)
  {
    map k | k in ours.Keys + theirs.Keys ::
      if k !in theirs then ours[k]
      else if k in ours && ours[k].Dir? && theirs[k].Dir? then Dir(Merge(ours[k].entries, theirs[k].entries))
      else theirs[k]
  }

  /** The two loops go over the maps in any order. */
  method DeepMergeTheirsWins(ours: Fields, theirs: Fields) returns (out: Fields)
    ensures out == Merge(ours, theirs)
    decreases Dir(theirs)
  {
    out := map[];
    var rest := ours.Keys;
    while rest != {}
      invariant rest <= ours.Keys
      invariant out == map k | k in ours && k !in rest :: ours[k]
      decreases rest
    {
      var k :| k in rest;
      out := out[k := ours[k]];
      rest := rest - {k};
    }
    rest := theirs.Keys;
    while rest != {}
      invariant rest <= theirs.Keys
      invariant out.Keys == ours.Keys + (theirs.Keys - rest)
      invariant forall k | k in out :: out[k] == if k in rest then ours[k] else Merge(ours, theirs)[k]
      decreases rest
    {
      var k :| k in rest;
      var tv := theirs[k];
      if k in out && out[k].Dir? && tv.Dir? {
        var merged := DeepMergeTheirsWins(out[k].entries, tv.entries);
        out := out[k := Dir(merged)];
      } else {
        out := out[k := tv];
      }
      rest := rest - {k};
    }
  }

  // ---------------------------------------------------------- by lookup

  datatype Kind = IsDir | IsLeaf(value: string)

  /** What is at a path: a mapping, a leaf, or nothing. */
  function At(m: Fields, path: seq<string>): Option<Kind>
    decreases path
  {
    if |path| == 0 then Some(IsDir) else
    if path[0] !in m then None else
    match m[path[0]]
    case Leaf(v) => if |path| == 1 then Some(IsLeaf(v)) else None
    case Dir(entries) => At(entries, path[1..])
  }

  /** On the way down `path` theirs has something where not both sides have a map. */
  ghost predicate Overridden(ours: Fields, theirs: Fields, path: seq<string>) {
    exists i :: 1 <= i <= |path| && OverriddenAt(ours, theirs, path[..i])
  }

  predicate OverriddenAt(ours: Fields, theirs: Fields, path: seq<string>) {
    At(theirs, path).Some? && !(At(theirs, path) == Some(IsDir) && At(ours, path) == Some(IsDir))
  }

  lemma OverriddenStep(ours: Fields, theirs: Fields, path: seq<string>)
    requires |path| > 0
    ensures Overridden(ours, theirs, path) <==>
            path[0] in theirs
            && (path[0] in ours && ours[path[0]].Dir? && theirs[path[0]].Dir? ==>
                  Overridden(ours[path[0]].entries, theirs[path[0]].entries, path[1..]))
  {
    var head, rest := path[0], path[1..];
    if head in theirs {
      assert path[..1] == [head];
      if head in ours && ours[head].Dir? && theirs[head].Dir? {
        var o, t := ours[head].entries, theirs[head].entries;
        forall i | 1 < i <= |path|
          ensures OverriddenAt(ours, theirs, path[..i]) <==> OverriddenAt(o, t, rest[..i - 1])
        {
          assert path[..i][1..] == rest[..i - 1];
        }
        assert [head][1..] == [] && At(t, []) == Some(IsDir) == At(o, []);
        assert !OverriddenAt(ours, theirs, path[..1]);
        if Overridden(o, t, rest) {
          var i :| 1 <= i <= |rest| && OverriddenAt(o, t, rest[..i]);
          assert rest[..i] == rest[..(i + 1) - 1];
          assert OverriddenAt(ours, theirs, path[..i + 1]);
        }
      } else {
        assert At(theirs, path[..1]).Some?;
        assert OverriddenAt(ours, theirs, path[..1]);
      }
    } else {
      forall i | 1 <= i <= |path| ensures !OverriddenAt(ours, theirs, path[..i]) {
        assert path[..i][0] == head;
      }
    }
  }

  /** The merge has exactly what theirs has and what ours has and theirs does not
      override. This settles it at every path, so it does not depend on map order. */
  lemma {:induction false} MergeByLookup(ours: Fields, theirs: Fields, path: seq<string>, x: Kind)
    requires |path| > 0
    ensures At(Merge(ours, theirs), path) == Some(x) <==>
            At(theirs, path) == Some(x) || (At(ours, path) == Some(x) && !Overridden(ours, theirs, path))
    decreases |path|
  {
    var head, rest := path[0], path[1..];
    OverriddenStep(ours, theirs, path);
    if head in ours && head in theirs && ours[head].Dir? && theirs[head].Dir? {
      if |rest| > 0 {
        MergeByLookup(ours[head].entries, theirs[head].entries, rest, x);
      }
    }
  }

  // --------------------------------------------------------------- laws

  lemma EmptyIsIdentity(m: Fields)
    ensures Merge(map[], m) == m && Merge(m, map[]) == m
  {
  }

  lemma {:induction false} Idempotent(m: Fields)
    ensures Merge(m, m) == m
    decreases Dir(m)
  {
    forall k | k in m && m[k].Dir? ensures Merge(m[k].entries, m[k].entries) == m[k].entries {
      Idempotent(m[k].entries);
    }
  }

  /** Merging the same side in again changes nothing. */
  lemma {:induction false} Absorbs(a: Fields, b: Fields)
    ensures Merge(Merge(a, b), b) == Merge(a, b)
    decreases Dir(b)
  {
    var m := Merge(a, b);
    forall k | k in m ensures Merge(m, b)[k] == m[k] {
      if k in b && b[k].Dir? {
        if k in a && a[k].Dir? {
          Absorbs(a[k].entries, b[k].entries);
        } else {
          Idempotent(b[k].entries);
        }
      }
    }
  }

  // ------------------------------------------------------ associativity

  /** Every key of `x` is in `y`, also below the keys where both have a map. */
  predicate Covered(x: Fields, y: Fields)
    decreases Dir(x)
  {
    forall k | k in x ::
      k in y && (x[k].Dir? && y[k].Dir? ==> Covered(x[k].entries, y[k].entries))
  }

  /** Their side hides all of ours exactly if it covers it. */
  lemma {:induction false} HidesExactly(x: Fields, y: Fields)
    ensures Merge(x, y) == y <==> Covered(x, y)
    decreases Dir(x)
  {
    var m := Merge(x, y);
    forall k | k in x && k in y && x[k].Dir? && y[k].Dir?
      ensures m[k] == y[k] <==> Covered(x[k].entries, y[k].entries)
    {
      HidesExactly(x[k].entries, y[k].entries);
    }
    if m == y {
      forall k | k in x ensures k in y { assert k in m; }
    }
  }

  /** Wherever the outer two both have a map and the middle one has something else, the
      last map covers the first. */
  predicate Associates(a: Fields, b: Fields, c: Fields)
    decreases Dir(b)
  {
    forall k | k in a && k in b && k in c && a[k].Dir? && c[k].Dir? ::
      if b[k].Dir? then Associates(a[k].entries, b[k].entries, c[k].entries)
      else Covered(a[k].entries, c[k].entries)
  }

  /** Exactly when the order in which three versions are merged does not matter. */
  lemma {:induction false} AssociatesExactly(a: Fields, b: Fields, c: Fields)
    ensures Merge(Merge(a, b), c) == Merge(a, Merge(b, c)) <==> Associates(a, b, c)
    decreases Dir(b)
  {
    var left, right := Merge(Merge(a, b), c), Merge(a, Merge(b, c));
    assert left.Keys == right.Keys;
    forall k | k in left
      ensures left[k] == right[k] <==>
              (k in a && k in b && k in c && a[k].Dir? && c[k].Dir? ==>
                 if b[k].Dir? then Associates(a[k].entries, b[k].entries, c[k].entries)
                 else Covered(a[k].entries, c[k].entries))
    {
      if k in a && k in b && k in c && a[k].Dir? && c[k].Dir? {
        if b[k].Dir? {
          AssociatesExactly(a[k].entries, b[k].entries, c[k].entries);
        } else {
          HidesExactly(a[k].entries, c[k].entries);
        }
      }
    }
  }

  /** So it is not associative: a scalar in the middle hides what is below the first map. */
  lemma NotAssociative()
    ensures exists a, b, c :: Merge(Merge(a, b), c) != Merge(a, Merge(b, c))
  {
    var x, y := map["x" := Leaf("1")], map["y" := Leaf("2")];
    var a, b, c := map["k" := Dir(x)], map["k" := Leaf("0")], map["k" := Dir(y)];
    assert Merge(Merge(a, b), c)["k"] == Dir(y);
    assert Merge(b, c)["k"] == Dir(y);
    assert Merge(a, Merge(b, c))["k"] == Dir(Merge(x, y));
    assert "x" in Merge(x, y) && "x" !in y;
  }
}
