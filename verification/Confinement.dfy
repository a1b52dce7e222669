/** The path policy seen from the outside: which requests a rooted daemon refuses, and where the
    data it answers with or writes lies in the tree. */
module Confinement {
  import opened Base
  import opened Wire
  import opened Paths
  import opened Placement
  import opened Handlers
  import L = ListDir

  /** How a tree appears to the handlers: `spelled` parses path texts, `name` names places. */
  datatype View = View(fs: Tree, spelled: string -> Path, name: Place -> string)

  /** What the environment answers to one request is what `v` shows, and the policy decides on it:
      a path leads to the file at the place it resolves to, a write replaces the entry where it
      lands, and exactly the tree's files have contents. */
  ghost predicate Shows(v: View, site: Site, roots: seq<Path>, l: Luck, files: map<string, Version>) {
    && WellFormed(v.fs) && site.cfg.policy.Roots() == Some(roots)
    && (forall a, b | v.name(a) == v.name(b) :: a == b)
    && (forall p :: l.allowed(p) <==> PathAllowed(v.fs, Some(roots), v.spelled(p)))
    && (forall p :: l.entry(p) == match Resolve(v.fs, v.spelled(p))
                                  case None => None
                                  case Some(place) => Some(v.name(place)))
    && (forall p | Landing(v.fs, v.spelled(p)).Some? :: l.target(p) == v.name(Landing(v.fs, v.spelled(p)).value))
    && (forall e :: e in files <==> exists place :: IsFile(v.fs, place) && v.name(place) == e)
  }

  predicate IsFile(fs: Tree, place: Place) {
    place in fs.nodes && fs.nodes[place].File?
  }

  /** The directory items of `d`; metadata is that of the entry itself. */
  ghost predicate Lists(fs: Tree, d: Place, items: seq<L.Item>) {
    forall i | 0 <= i < |items| && items[i].Item? && items[i].name.Some? ::
      var place := d + [items[i].name.value];
      place in fs.nodes && (items[i].meta.Some? ==> (items[i].meta.value.isDir <==> fs.nodes[place].Dir?))
  }

  /** Only the directory that `p` leads to can be enumerated. */
  ghost predicate ListsPath(v: View, l: Luck, p: string) {
    l.listing.Ok? ==>
      var d := Resolve(v.fs, v.spelled(p));
      d.Some? && IsDir(v.fs, d.value) && Lists(v.fs, d.value, l.listing.value)
  }

  ghost predicate ProperRoots(v: View, roots: seq<Path>) {
    forall r | r in roots :: Proper(v.fs, r)
  }

  // ---- Reads ----

  lemma ReadData(site: Site, oracle: Oracle, w: World, q: ReadFileReq)
    ensures var resp := Step(site, oracle, w, ReadFile(q)).1;
            var l := oracle(w.turn);
            && resp.ReadFileResult?
            && (resp.readFile.Ok? ==>
                  && l.allowed(q.path) && l.entry(q.path).Some? && l.entry(q.path).value in w.files
                  && resp.readFile.value.data == w.files[l.entry(q.path).value].data)
  {
  }

  /** Whatever a rooted daemon answers a read with is the contents of a file under a root, the one
      the path leads to. */
  lemma ReadStaysInside(site: Site, oracle: Oracle, w: World, q: ReadFileReq, v: View, roots: seq<Path>)
    requires Shows(v, site, roots, oracle(w.turn), w.files) && ProperRoots(v, roots)
    ensures var resp := Step(site, oracle, w, ReadFile(q)).1;
            && resp.ReadFileResult?
            && (resp.readFile.Ok? ==>
                  var place := Resolve(v.fs, v.spelled(q.path));
                  && place.Some? && IsFile(v.fs, place.value) && Inside(v.fs, roots, place.value)
                  && v.name(place.value) in w.files
                  && resp.readFile.value.data == w.files[v.name(place.value)].data)
  {
    ReadData(site, oracle, w, q);
    ProperRootsConfine(v.fs, roots, v.spelled(q.path));
  }

  lemma NameOfEntry(fs: Tree, d: Place, items: seq<L.Item>, e: DirEntry)
    requires L.IsDirectory(items) && Lists(fs, d, items) && e in L.Listing(items)
    ensures d + [e.name] in fs.nodes && (e.isDir <==> fs.nodes[d + [e.name]].Dir?)
  {
    L.ListingIsExact(items);
    var i :| 0 <= i < |items| && L.Shown(items[i]) == Some(e);
  }

  /** Whatever it answers a listing with are entries of a directory under a root, the one the path
      leads to. */
  lemma ListStaysInside(site: Site, oracle: Oracle, w: World, q: ListDirReq, v: View, roots: seq<Path>)
    requires Shows(v, site, roots, oracle(w.turn), w.files) && ProperRoots(v, roots)
    requires ListsPath(v, oracle(w.turn), q.path)
    requires oracle(w.turn).listing.Ok? ==> L.IsDirectory(oracle(w.turn).listing.value)
    ensures var resp := Step(site, oracle, w, ListDir(q)).1;
            && resp.ListDirResult?
            && (resp.listDir.Ok? ==>
                  var d := Resolve(v.fs, v.spelled(q.path));
                  && d.Some? && IsDir(v.fs, d.value) && Inside(v.fs, roots, d.value)
                  && forall e | e in resp.listDir.value.entries ::
                       d.value + [e.name] in v.fs.nodes && (e.isDir <==> v.fs.nodes[d.value + [e.name]].Dir?))
  {
    var resp := Step(site, oracle, w, ListDir(q)).1;
    ProperRootsConfine(v.fs, roots, v.spelled(q.path));
    if resp.listDir.Ok? {
      var d, items := Resolve(v.fs, v.spelled(q.path)).value, oracle(w.turn).listing.value;
      forall e | e in resp.listDir.value.entries
        ensures d + [e.name] in v.fs.nodes && (e.isDir <==> v.fs.nodes[d + [e.name]].Dir?)
      {
        NameOfEntry(v.fs, d, items, e);
      }
    }
  }

  /** A request to read, list or (where the mode lets it) write `p`. */
  predicate Asks(site: Site, r: Request, p: string) {
    match r
    case ReadFile(q) => q.path == p
    case ListDir(q) => q.path == p
    case WriteFile(q) => q.path == p && site.cfg.policy.WritesAllowed()
    case _ => false
  }

  predicate Refused(resp: Response, p: string) {
    || resp == ReadFileResult(Err(PathNotAllowed(p)))
    || resp == ListDirResult(Err(PathNotAllowed(p)))
    || resp == WriteFileResult(Err(PathNotAllowed(p)))
  }

  lemma RefusedByVerdict(site: Site, oracle: Oracle, w: World, r: Request, p: string)
    requires Asks(site, r, p)
    ensures Refused(Step(site, oracle, w, r).1, p) <==> !oracle(w.turn).allowed(p)
  {
  }

  /** A request on a path that leads to a node is refused as outside exactly if that node is under
      none of the roots. */
  lemma RefusedIffOutside(site: Site, oracle: Oracle, w: World, r: Request, p: string, v: View, roots: seq<Path>)
    requires Shows(v, site, roots, oracle(w.turn), w.files) && ProperRoots(v, roots)
    requires Asks(site, r, p)
    ensures Resolve(v.fs, v.spelled(p)).Some? ==>
              (Refused(Step(site, oracle, w, r).1, p)
               <==> !Inside(v.fs, roots, Resolve(v.fs, v.spelled(p)).value))
  {
    RefusedByVerdict(site, oracle, w, r, p);
    ProperRootsConfine(v.fs, roots, v.spelled(p));
  }

  // ---- Writes ----

  /** A write to a path that has no landing place breaks off. */
  ghost predicate WritesPath(v: View, l: Luck, p: string) {
    Landing(v.fs, v.spelled(p)).None? ==> forall data :: WriteFailure(l.write, data).Some?
  }

  lemma WriteEffect(site: Site, oracle: Oracle, w: World, q: WriteFileReq, e: string)
    ensures var (now, resp) := Step(site, oracle, w, WriteFile(q));
            var l := oracle(w.turn);
            && resp.WriteFileResult?
            && (resp.writeFile.Ok? ==>
                  && WriteFailure(l.write, q.data).None? && l.allowed(q.path)
                  && (q.ifMtimeMatches.Some? ==> l.entry(q.path).Some?)
                  && (l.target(q.path) == e ==> now.files == w.files[e := Version(q.data, l.write.modified)]))
            && (resp.writeFile.Err? ==> now.files == w.files)
  {
  }

  /** A write that succeeds changes the file at its landing place and no other, and it is under a
      root exactly if what exists of that place passes the check. The daemon checks the path itself,
      so this is more than it asks of a write whose path leads to no node, or to one that is not
      the place. */
  lemma WriteLandsInsideIff(site: Site, oracle: Oracle, w: World, q: WriteFileReq, v: View, roots: seq<Path>)
    requires Shows(v, site, roots, oracle(w.turn), w.files) && ProperRoots(v, roots)
    requires WritesPath(v, oracle(w.turn), q.path)
    ensures var (now, resp) := Step(site, oracle, w, WriteFile(q));
            var landing := Landing(v.fs, v.spelled(q.path));
            && resp.WriteFileResult?
            && (resp.writeFile.Ok? ==>
                  && landing.Some? && PathAllowed(v.fs, Some(roots), v.spelled(q.path))
                  && now.files == w.files[v.name(landing.value) := Version(q.data, oracle(w.turn).write.modified)]
                  && (Inside(v.fs, roots, landing.value)
                      <==> PathAllowed(v.fs, Some(roots), Canonical(Ground(v.fs, landing.value)))))
            && (resp.writeFile.Err? ==> now.files == w.files)
  {
    var landing := Landing(v.fs, v.spelled(q.path));
    if landing.Some? {
      LandsInsideIff(v.fs, roots, v.spelled(q.path));
      WriteEffect(site, oracle, w, q, v.name(landing.value));
    } else {
      WriteEffect(site, oracle, w, q, oracle(w.turn).target(q.path));
    }
  }

  /** Where no directory that is made is left again, a write that creates a file or replaces a link
      puts it under a root exactly if the nearest parent that exists passes the check. */
  lemma StraightWriteLandsInsideIff(v: View, roots: seq<Path>, p: string)
    requires WellFormed(v.fs) && ProperRoots(v, roots) && StraightLanding(v.fs, v.spelled(p)).Some?
    requires var place := StraightLanding(v.fs, v.spelled(p)).value; place in v.fs.nodes ==> v.fs.nodes[place].Link?
    ensures Landing(v.fs, v.spelled(p)) == StraightLanding(v.fs, v.spelled(p))
    ensures Inside(v.fs, roots, Landing(v.fs, v.spelled(p)).value)
            <==> PathAllowed(v.fs, Some(roots), Anchor(v.fs, v.spelled(p)))
  {
    NewFileInsideIff(v.fs, roots, v.spelled(p));
  }

  /** What changes a file that its path leads to stays under the roots: every write that replaces
      one in place, and every conditional write unless it replaces a link. */
  lemma RewriteStaysInside(site: Site, oracle: Oracle, w: World, q: WriteFileReq, v: View, roots: seq<Path>)
    requires Shows(v, site, roots, oracle(w.turn), w.files) && ProperRoots(v, roots)
    requires WritesPath(v, oracle(w.turn), q.path)
    requires q.ifMtimeMatches.Some? || Resolve(v.fs, v.spelled(q.path)).Some?
    requires var landing := Landing(v.fs, v.spelled(q.path));
             landing.Some? && landing.value in v.fs.nodes ==> !v.fs.nodes[landing.value].Link?
    ensures var (now, resp) := Step(site, oracle, w, WriteFile(q));
            && resp.WriteFileResult?
            && (resp.writeFile.Ok? ==>
                  var landing := Landing(v.fs, v.spelled(q.path));
                  && landing.Some? && Inside(v.fs, roots, landing.value) && Resolve(v.fs, v.spelled(q.path)) == landing
                  && now.files == w.files[v.name(landing.value) := Version(q.data, oracle(w.turn).write.modified)])
            && (resp.writeFile.Err? ==> now.files == w.files)
  {
    var p := v.spelled(q.path);
    WriteLandsInsideIff(site, oracle, w, q, v, roots);
    WriteEffect(site, oracle, w, q, oracle(w.turn).target(q.path));
    if Step(site, oracle, w, WriteFile(q)).1.writeFile.Ok? {
      LandingIsThere(v.fs, p);
      OldFileInsideIff(v.fs, roots, p);
    }
  }
}
