/** The build check that optional wallet code is not statically imported by what loads first. */
module BundleReachability {
  type File = nat

  /** An asset has no imports; a chunk may be an entry, hold the wallet boundary or the connect code. */
  datatype Item = Asset | Chunk(isEntry: bool, hasBoundary: bool, hasConnect: bool, imports: seq<File>)

  /** The build output by file name; imports may name files outside it. */
  type Bundle = map<File, Item>

  function Imports(bundle: Bundle, file: File): seq<File> {
    if file in bundle && bundle[file].Chunk? then bundle[file].imports else []
  }

  predicate IsRoot(bundle: Bundle, file: File) {
    file in bundle && bundle[file].Chunk? && (bundle[file].isEntry || bundle[file].hasConnect)
  }

  predicate IsBoundary(bundle: Bundle, file: File) {
    file in bundle && bundle[file].Chunk? && bundle[file].hasBoundary
  }

  /** A chain of static imports. */
  ghost predicate IsPath(bundle: Bundle, path: seq<File>) {
    |path| > 0 && forall i :: 0 <= i < |path| - 1 ==> path[i + 1] in Imports(bundle, path[i])
  }

  ghost predicate Reaches(bundle: Bundle, from: File, to: File) {
    exists path :: IsPath(bundle, path) && path[0] == from && path[|path| - 1] == to
  }

  lemma ReachesItself(bundle: Bundle, file: File)
    ensures Reaches(bundle, file, file)
  {
    assert IsPath(bundle, [file]);
  }

  lemma ReachesThrough(bundle: Bundle, from: File, next: File, to: File)
    requires next in Imports(bundle, from) && Reaches(bundle, next, to)
    ensures Reaches(bundle, from, to)
  {
    var path :| IsPath(bundle, path) && path[0] == next && path[|path| - 1] == to;
    var longer := [from] + path;
    forall i | 0 <= i < |longer| - 1 ensures longer[i + 1] in Imports(bundle, longer[i]) {
      assert i > 0 ==> path[i] in Imports(bundle, path[i - 1]);
    }
    assert IsPath(bundle, longer) && longer[0] == from && longer[|longer| - 1] == to;
  }

  /** All imports of `f` are among the files. */
  ghost predicate Followed(bundle: Bundle, files: set<File>, f: File) {
    forall i :: 0 <= i < |Imports(bundle, f)| ==> Imports(bundle, f)[i] in files
  }

  ghost predicate Closed(bundle: Bundle, files: set<File>) {
    forall f :: f in files ==> Followed(bundle, files, f)
  }

  /** A closed set that holds the start of a path holds all of it. */
  lemma {:induction false} ClosedHoldsPaths(bundle: Bundle, files: set<File>, path: seq<File>)
    requires Closed(bundle, files) && IsPath(bundle, path) && path[0] in files
    ensures path[|path| - 1] in files
  {
    if |path| > 1 {
      assert path[0 + 1] in Imports(bundle, path[0]);
      var rest := path[1..];
      forall i | 0 <= i < |rest| - 1 ensures rest[i + 1] in Imports(bundle, rest[i]) {
        assert path[(i + 1) + 1] in Imports(bundle, path[i + 1]);
      }
      ClosedHoldsPaths(bundle, files, rest);
    }
  }

  lemma NothingIsClosed(bundle: Bundle)
    ensures Closed(bundle, {})
  {
  }

  lemma ClosedHoldsReached(bundle: Bundle, files: set<File>, from: File, to: File)
    requires Closed(bundle, files) && from in files && Reaches(bundle, from, to)
    ensures to in files
  {
    var path :| IsPath(bundle, path) && path[0] == from && path[|path| - 1] == to;
    ClosedHoldsPaths(bundle, files, path);
  }

  /** A closed set stays closed when everything added to it has its imports in the larger one. */
  lemma ClosedGrows(bundle: Bundle, before: set<File>, after: set<File>)
    requires Closed(bundle, before) && before <= after
    requires forall f :: f in after - before ==> Followed(bundle, after, f)
    ensures Closed(bundle, after)
  {
    forall f | f in after ensures Followed(bundle, after, f) {
      if f in before { assert Followed(bundle, before, f); }
    }
  }

  /** Every file the visit can meet, by which it terminates. */
  ghost predicate Covers(universe: set<File>, bundle: Bundle) {
    forall f, i :: 0 <= i < |Imports(bundle, f)| ==> Imports(bundle, f)[i] in universe
  }

  datatype Outcome = Passed | NotIdentified | Leaked(files: seq<File>)

  class BundleCheck {
    const bundle: Bundle
    var reachable: set<File>

    constructor (b: Bundle)
      ensures bundle == b && reachable == {}
    {
      bundle, reachable := b, {};
    }

    /** Everything added since `before` came from `file` and has all its imports in the set. */
    ghost predicate Explored(before: set<File>, file: File)
      reads this
    {
      && before <= reachable
      && (forall f :: f in reachable - before ==> Reaches(bundle, file, f))
      && (forall f :: f in reachable - before ==> Followed(bundle, reachable, f))
    }

    /** `visit`, on any graph, cycles included. */
    method Visit(file: File, ghost universe: set<File>)
      requires file in universe && Covers(universe, bundle)
      modifies this`reachable
      ensures file in reachable && reachable <= old(reachable) + universe
      ensures Explored(old(reachable), file)
      decreases universe - reachable
    {
      if file in reachable {
        return;
      }
      ghost var before := reachable;
      reachable := reachable + {file};
      ReachesItself(bundle, file);
      var imports := Imports(bundle, file);
      for k := 0 to |imports|
        invariant before + {file} <= reachable <= before + universe
        invariant forall i :: 0 <= i < k ==> imports[i] in reachable
        invariant forall f :: f in reachable - before ==> Reaches(bundle, file, f)
        invariant forall f :: f in reachable - before && f != file ==> Followed(bundle, reachable, f)
      {
        ghost var mid := reachable;
        Visit(imports[k], universe);
        forall f | f in reachable - mid ensures Reaches(bundle, file, f) {
          ReachesThrough(bundle, file, imports[k], f);
        }
        forall f | f in mid - before && f != file ensures Followed(bundle, reachable, f) {
          assert Followed(bundle, mid, f);
        }
      }
    }

    /**
     The leak check over the bundle's files in order: it passes exactly when no entry or connect chunk
     reaches a boundary chunk, and otherwise names exactly the boundary chunks that are reached.
     */
    method Check(files: seq<File>, ghost universe: set<File>) returns (r: Outcome)
      requires reachable == {} && (forall f :: f in bundle <==> f in files)
      requires Covers(universe, bundle) && (forall f :: f in files ==> f in universe)
      modifies this`reachable
      ensures r.NotIdentified? <==>
        !(exists f :: f in bundle && IsBoundary(bundle, f))
          || !(exists f :: f in bundle && bundle[f].Chunk? && bundle[f].hasConnect)
      ensures r.Passed? <==>
        && !r.NotIdentified?
        && forall from, to :: IsRoot(bundle, from) && IsBoundary(bundle, to) ==> !Reaches(bundle, from, to)
      ensures r.Leaked? ==> forall to :: to in r.files <==>
        IsBoundary(bundle, to) && exists from :: IsRoot(bundle, from) && Reaches(bundle, from, to)
    {
      hide IsPath, Reaches, Closed, Followed, Covers, Imports;
      if !(exists f :: f in files && IsBoundary(bundle, f))
        || !(exists f :: f in files && bundle[f].Chunk? && bundle[f].hasConnect) {
        return NotIdentified;
      }
      VisitRoots(files, universe);
      var leaked: seq<File> := [];
      for k := 0 to |files|
        invariant forall to :: to in leaked <==> to in files[..k] && IsBoundary(bundle, to) && to in reachable
      {
        if IsBoundary(bundle, files[k]) && files[k] in reachable {
          leaked := leaked + [files[k]];
        }
      }
      assert files[..|files|] == files;
      r := if leaked == [] then Passed else Leaked(leaked);
      assert leaked != [] ==> leaked[0] in leaked;
    }

    method VisitRoots(files: seq<File>, ghost universe: set<File>)
      requires reachable == {} && (forall f :: f in bundle <==> f in files)
      requires Covers(universe, bundle) && (forall f :: f in files ==> f in universe)
      modifies this`reachable
      ensures forall to :: to in reachable <==> exists from :: IsRoot(bundle, from) && Reaches(bundle, from, to)
    {
      hide IsPath, Reaches, Closed, Followed, Covers;
      NothingIsClosed(bundle);
      for k := 0 to |files|
        invariant Closed(bundle, reachable)
        invariant forall i :: 0 <= i < k && IsRoot(bundle, files[i]) ==> files[i] in reachable
        invariant forall to :: to in reachable ==> exists from :: IsRoot(bundle, from) && Reaches(bundle, from, to)
      {
        if IsRoot(bundle, files[k]) {
          ghost var mid := reachable;
          Visit(files[k], universe);
          ClosedGrows(bundle, mid, reachable);
        }
      }
      forall from, to | IsRoot(bundle, from) && Reaches(bundle, from, to) ensures to in reachable {
        ClosedHoldsReached(bundle, reachable, from, to);
      }
    }
  }

  /** A universe always exists: the files of the bundle and all their imports. */
  lemma UniverseExists(bundle: Bundle) returns (universe: set<File>)
    ensures Covers(universe, bundle) && bundle.Keys <= universe
  {
    universe := bundle.Keys + (set f, i | f in bundle && 0 <= i < |Imports(bundle, f)| :: Imports(bundle, f)[i]);
  }
}
