/** Path resolution in a tree with symbolic links, and the policy check that confines requests to
    workspace roots. */
module Paths {
  import opened Base

  datatype Component = Name(name: string) | Dot | DotDot

  /** A path as spelled. A trailing slash is a final Dot: both insist on a directory. */
  datatype Path = Path(absolute: bool, components: seq<Component>)

  datatype Node = Dir | File | Link(target: Path)

  /** A node's place: the names on the way down from the root directory. */
  type Place = seq<string>

  datatype Tree = Tree(nodes: map<Place, Node>, cwd: Place)

  predicate IsDir(fs: Tree, place: Place) {
    place in fs.nodes && fs.nodes[place].Dir?
  }

  ghost predicate WellFormed(fs: Tree) {
    && IsDir(fs, []) && IsDir(fs, fs.cwd)
    && forall place | place in fs.nodes && place != [] :: IsDir(fs, place[..|place| - 1])
  }

  // ---- Resolution (section 4.13 of POSIX.1-2017 Base Definitions) ----

  const MAX_LINKS: nat := 40

  /** Walks `todo` from the directory `at`, following at most `links` more symbolic links. */
  function Walk(fs: Tree, at: Place, todo: seq<Component>, links: nat): Option<Place>
    decreases links, |todo|
  {
    if todo == [] then Some(at)
    else if !IsDir(fs, at) then None
    else
      match todo[0]
      case Dot => Walk(fs, at, todo[1..], links)
      case DotDot => Walk(fs, if at == [] then [] else at[..|at| - 1], todo[1..], links)
      case Name(name) =>
        var child := at + [name];
        if child !in fs.nodes then None
        else
          match fs.nodes[child]
          case Link(target) =>
            if links == 0 || (target.components == [] && !target.absolute) then None
            else Walk(fs, if target.absolute then [] else at, target.components + todo[1..], links - 1)
          case _ => Walk(fs, child, todo[1..], links)
  }

  function Start(fs: Tree, p: Path): Place {
    if p.absolute then [] else fs.cwd
  }

  /** What `canonicalize`, `metadata`, `read` and `read_dir` resolve a path to. */
  function Resolve(fs: Tree, p: Path): Option<Place> {
    if !p.absolute && p.components == [] then None
    else Walk(fs, Start(fs, p), p.components, MAX_LINKS)
  }

  function Canonical(place: Place): Path {
    Path(true, seq(|place|, i requires 0 <= i < |place| => Name(place[i])))
  }

  // ---- The policy check ----

  datatype PathPart = Root | Here | Up | Normal(name: string)

  function Rest(components: seq<Component>): seq<PathPart> {
    if components == [] then []
    else
      (match components[0]
       case Dot => []
       case DotDot => [Up]
       case Name(name) => [Normal(name)])
      + Rest(components[1..])
  }

  /** The components `Path::starts_with` compares: dots vanish except at the very front. */
  function Parts(p: Path): seq<PathPart> {
    if p.absolute then [Root] + Rest(p.components)
    else if p.components != [] && p.components[0].Dot? then [Here] + Rest(p.components[1..])
    else Rest(p.components)
  }

  function CanonicalOrRaw(fs: Tree, p: Path): Path {
    match Resolve(fs, p)
    case Some(place) => Canonical(place)
    case None => p
  }

  predicate Admits(fs: Tree, root: Path, p: Path) {
    Parts(CanonicalOrRaw(fs, root)) <= Parts(CanonicalOrRaw(fs, p))
  }

  /** No roots means an unrestricted mode. */
  predicate PathAllowed(fs: Tree, roots: Option<seq<Path>>, p: Path) {
    roots.Some? ==> exists r :: r in roots.value && Admits(fs, r, p)
  }

  // ---- Resolution yields real places ----

  /** Walking ends at an existing node that is no link. */
  lemma {:induction false} WalkEndsAtNode(fs: Tree, at: Place, todo: seq<Component>, links: nat)
    requires WellFormed(fs) && at in fs.nodes && !fs.nodes[at].Link?
    requires Walk(fs, at, todo, links).Some?
    ensures var end := Walk(fs, at, todo, links).value;
            end in fs.nodes && !fs.nodes[end].Link?
    decreases links, |todo|
  {
    if todo != [] {
      match todo[0]
      case Dot => WalkEndsAtNode(fs, at, todo[1..], links);
      case DotDot => WalkEndsAtNode(fs, if at == [] then [] else at[..|at| - 1], todo[1..], links);
      case Name(name) =>
        var child := at + [name];
        match fs.nodes[child]
        case Link(target) =>
          WalkEndsAtNode(fs, if target.absolute then [] else at, target.components + todo[1..], links - 1);
        case _ => WalkEndsAtNode(fs, child, todo[1..], links);
    }
  }

  lemma {:induction false} PrefixIsDir(fs: Tree, place: Place, k: nat)
    requires WellFormed(fs) && place in fs.nodes && k < |place|
    ensures IsDir(fs, place[..k])
  {
    var parent := place[..|place| - 1];
    if k < |parent| {
      PrefixIsDir(fs, parent, k);
      assert parent[..k] == place[..k];
    } else {
      assert parent == place[..k];
    }
  }

  /** `todo` spells names of `place` from the `k`-th on, with dots anywhere. */
  predicate Spells(todo: seq<Component>, place: Place, k: nat) {
    todo == [] ||
    match todo[0]
    case Dot => Spells(todo[1..], place, k)
    case DotDot => false
    case Name(name) => k < |place| && name == place[k] && Spells(todo[1..], place, k + 1)
  }

  lemma {:induction false} SpellsBound(todo: seq<Component>, place: Place, k: nat)
    requires k <= |place| && Spells(todo, place, k)
    ensures k + |Rest(todo)| <= |place|
  {
    if todo != [] {
      SpellsBound(todo[1..], place, if todo[0].Dot? then k else k + 1);
    }
  }

  /** Walking `todo` goes straight down to the `m`-th prefix, or fails on a dot after a file. */
  ghost predicate GoesDown(fs: Tree, place: Place, m: nat, dotted: bool, end: Option<Place>)
    requires place in fs.nodes && m <= |place|
  {
    end == Some(place[..m]) || (m == |place| && fs.nodes[place].File? && dotted)
  }

  lemma {:induction false} WalkDown(fs: Tree, place: Place, k: nat, m: nat, todo: seq<Component>, links: nat)
    requires WellFormed(fs) && place in fs.nodes && !fs.nodes[place].Link?
    requires k <= |place| && Spells(todo, place, k) && m == k + |Rest(todo)|
    ensures m <= |place| && GoesDown(fs, place, m, Dot in todo, Walk(fs, place[..k], todo, links))
    decreases |todo|
  {
    SpellsBound(todo, place, k);
    if todo == [] {
    } else if todo[0].Dot? {
      StepDot(fs, place, k, todo, links);
      if IsDir(fs, place[..k]) {
        WalkDown(fs, place, k, m, todo[1..], links);
      }
    } else {
      StepDown(fs, place, k, todo, links);
      WalkDown(fs, place, k + 1, m, todo[1..], links);
    }
  }

  lemma StepDot(fs: Tree, place: Place, k: nat, todo: seq<Component>, links: nat)
    requires WellFormed(fs) && place in fs.nodes && !fs.nodes[place].Link?
    requires k <= |place| && todo != [] && todo[0].Dot? && Spells(todo, place, k)
    ensures Rest(todo) == Rest(todo[1..])
    ensures if IsDir(fs, place[..k]) then Walk(fs, place[..k], todo, links) == Walk(fs, place[..k], todo[1..], links)
            else k == |place| && fs.nodes[place].File? && (k + |Rest(todo)| <= |place| ==> Rest(todo) == [])
  {
    if k < |place| {
      PrefixIsDir(fs, place, k);
    } else {
      assert place[..k] == place;
    }
  }

  lemma StepDown(fs: Tree, place: Place, k: nat, todo: seq<Component>, links: nat)
    requires WellFormed(fs) && place in fs.nodes && !fs.nodes[place].Link?
    requires k < |place| && todo != [] && todo[0] == Name(place[k])
    ensures Walk(fs, place[..k], todo, links) == Walk(fs, place[..k + 1], todo[1..], links)
    ensures |Rest(todo)| == 1 + |Rest(todo[1..])|
  {
    PrefixIsDir(fs, place, k);
    assert place[..k] + [place[k]] == place[..k + 1];
    RealPrefix(fs, place, k + 1);
  }

  lemma RealPrefix(fs: Tree, place: Place, k: nat)
    requires WellFormed(fs) && place in fs.nodes && !fs.nodes[place].Link? && k <= |place|
    ensures place[..k] in fs.nodes && !fs.nodes[place[..k]].Link?
  {
    if k < |place| {
      PrefixIsDir(fs, place, k);
    } else {
      assert place[..k] == place;
    }
  }

  lemma {:induction false} RestSpells(todo: seq<Component>, place: Place, k: nat)
    requires k <= |place| && Rest(todo) <= Normals(place)[k..]
    ensures Spells(todo, place, k)
    decreases |todo|
  {
    if todo != [] {
      if Rest(todo) != [] {
        assert Rest(todo)[0] == Normals(place)[k..][0] == Normal(place[k]);
      }
      match todo[0]
      case Dot => RestSpells(todo[1..], place, k);
      case DotDot =>
      case Name(name) =>
        assert Rest(todo)[1..] == Rest(todo[1..]);
        assert Normals(place)[k..][1..] == Normals(place)[k + 1..];
        RestSpells(todo[1..], place, k + 1);
    }
  }

  function Normals(place: Place): seq<PathPart> {
    seq(|place|, i requires 0 <= i < |place| => Normal(place[i]))
  }

  // ---- What links and dots mean ----

  function Names(place: Place): seq<Component> {
    Canonical(place).components
  }

  lemma {:induction false} WalkFrom(fs: Tree, dir: Place, k: nat, rest: seq<Component>, links: nat)
    requires WellFormed(fs) && IsDir(fs, dir) && k <= |dir|
    ensures Walk(fs, dir[..k], Names(dir)[k..] + rest, links) == Walk(fs, dir, rest, links)
    decreases |dir| - k
  {
    var todo := Names(dir)[k..] + rest;
    if k < |dir| {
      StepDown(fs, dir, k, todo, links);
      assert todo[1..] == Names(dir)[k + 1..] + rest;
      WalkFrom(fs, dir, k + 1, rest, links);
    } else {
      assert todo == rest && dir[..k] == dir;
    }
  }

  /** Spelling the way to a directory from the root leads there. */
  lemma WalkTo(fs: Tree, dir: Place, rest: seq<Component>, links: nat)
    requires WellFormed(fs) && IsDir(fs, dir)
    ensures Walk(fs, [], Names(dir) + rest, links) == Walk(fs, dir, rest, links)
  {
    WalkFrom(fs, dir, 0, rest, links);
    assert dir[..0] == [] && Names(dir)[0..] == Names(dir);
  }

  /** A link in the middle of a path stands for its target: in place of the whole way so far if that
      is absolute, and in place of the link alone if it is relative. It costs one of the links. */
  lemma LinkMeansItsTarget(fs: Tree, dir: Place, name: string, target: Path, rest: seq<Component>, links: nat)
    requires WellFormed(fs) && IsDir(fs, dir) && dir + [name] in fs.nodes && fs.nodes[dir + [name]] == Link(target)
    requires target.absolute || target.components != []
    ensures Walk(fs, [], Names(dir) + ([Name(name)] + rest), links + 1)
            == Walk(fs, [], (if target.absolute then [] else Names(dir)) + (target.components + rest), links)
  {
    WalkTo(fs, dir, [Name(name)] + rest, links + 1);
    WalkTo(fs, dir, target.components + rest, links);
    assert ([Name(name)] + rest)[1..] == rest;
    assert [] + (target.components + rest) == target.components + rest;
  }

  /** Dot-dot after a directory takes back its name, and at the root does nothing. */
  lemma DotDotTakesBack(fs: Tree, dir: Place, rest: seq<Component>, links: nat)
    requires WellFormed(fs) && IsDir(fs, dir)
    ensures Walk(fs, [], Names(dir) + ([DotDot] + rest), links)
            == Walk(fs, [], (if dir == [] then [] else Names(dir[..|dir| - 1])) + rest, links)
  {
    WalkTo(fs, dir, [DotDot] + rest, links);
    assert ([DotDot] + rest)[1..] == rest && [] + rest == rest;
    if dir != [] {
      WalkTo(fs, dir[..|dir| - 1], rest, links);
    }
  }

  /** `names` are links in `dir`, each to the next, and at the end something that is no link. */
  ghost predicate Chain(fs: Tree, dir: Place, names: seq<string>) {
    && names != []
    && (forall i | 0 <= i < |names| - 1 ::
          dir + [names[i]] in fs.nodes && fs.nodes[dir + [names[i]]] == Link(Path(false, [Name(names[i + 1])])))
    && dir + [names[|names| - 1]] in fs.nodes && !fs.nodes[dir + [names[|names| - 1]]].Link?
  }

  lemma {:induction false} WalkChain(fs: Tree, dir: Place, names: seq<string>, links: nat)
    requires IsDir(fs, dir) && Chain(fs, dir, names)
    ensures Walk(fs, dir, [Name(names[0])], links)
            == if |names| - 1 <= links then Some(dir + [names[|names| - 1]]) else None
    decreases |names|
  {
    var child := dir + [names[0]];
    assert [Name(names[0])][1..] == [] && [Name(names[0])][0] == Name(names[0]);
    if |names| == 1 {
      assert Walk(fs, child, [], links) == Some(child);
    } else if links == 0 {
      assert fs.nodes[dir + [names[0]]] == Link(Path(false, [Name(names[0 + 1])]));
    } else {
      assert [Name(names[1])] + [] == [Name(names[1])];
      var rest := names[1..];
      assert forall i | 0 <= i < |rest| :: rest[i] == names[i + 1];
      WalkChain(fs, dir, rest, links - 1);
    }
  }

  /** A path goes through forty links and no more. */
  lemma FortyLinksResolve(fs: Tree, dir: Place, names: seq<string>)
    requires WellFormed(fs) && IsDir(fs, dir) && Chain(fs, dir, names)
    ensures Resolve(fs, Path(true, Names(dir) + [Name(names[0])]))
            == if |names| - 1 <= 40 then Some(dir + [names[|names| - 1]]) else None
  {
    WalkTo(fs, dir, [Name(names[0])], MAX_LINKS);
    WalkChain(fs, dir, names, MAX_LINKS);
  }

  // ---- What the check admits ----

  lemma {:induction false} RestOfConcat(a: seq<Component>, b: seq<Component>)
    ensures Rest(a + b) == Rest(a) + Rest(b)
  {
    if a == [] {
      assert a + b == b;
    } else {
      assert (a + b)[1..] == a[1..] + b;
      RestOfConcat(a[1..], b);
    }
  }

  lemma PartsFromRoot(a: seq<Component>, b: seq<Component>)
    ensures Parts(Path(true, a + b)) == Parts(Path(true, a)) + Rest(b)
  {
    RestOfConcat(a, b);
    assert Parts(Path(true, a + b)) == [Root] + (Rest(a) + Rest(b));
  }

  lemma PartsAfterDot(a: seq<Component>, b: seq<Component>, ab: seq<Component>)
    requires a != [] && a[0].Dot? && ab == a + b
    ensures Parts(Path(false, ab)) == Parts(Path(false, a)) + Rest(b)
  {
    RestOfConcat(a[1..], b);
    assert ab[1..] == a[1..] + b;
  }

  lemma PartsAfterOther(a: seq<Component>, b: seq<Component>, ab: seq<Component>)
    requires a != [] && !a[0].Dot? && ab == a + b
    ensures Parts(Path(false, ab)) == Parts(Path(false, a)) + Rest(b)
  {
    RestOfConcat(a, b);
    assert ab[0] == a[0];
  }

  /** What the check compares of a path: a name and a dot-dot are one part each, in order, ... */
  lemma PartsGoOn(absolute: bool, a: seq<Component>, name: string)
    requires absolute || a != []
    ensures Parts(Path(absolute, a + [Name(name)])) == Parts(Path(absolute, a)) + [Normal(name)]
    ensures Parts(Path(absolute, a + [DotDot])) == Parts(Path(absolute, a)) + [Up]
    ensures Parts(Path(absolute, a + [Dot])) == Parts(Path(absolute, a))
  {
    forall tail ensures Parts(Path(absolute, a + tail)) == Parts(Path(absolute, a)) + Rest(tail) {
      if absolute {
        PartsFromRoot(a, tail);
      } else if a[0].Dot? {
        PartsAfterDot(a, tail, a + tail);
      } else {
        PartsAfterOther(a, tail, a + tail);
      }
    }
    assert Rest([Name(name)]) == [Normal(name)] && Rest([DotDot]) == [Up] && Rest([Dot]) == [];
  }

  /** ... after the root directory or, in a relative path, a dot at its front. */
  lemma FirstParts(name: string)
    ensures Parts(Path(true, [])) == [Root] && Parts(Path(false, [])) == []
    ensures Parts(Path(false, [Dot])) == [Here] && Parts(Path(false, [DotDot])) == [Up]
    ensures Parts(Path(false, [Name(name)])) == [Normal(name)]
  {
    assert Rest([Name(name)]) == [Normal(name)] && Rest([DotDot]) == [Up] && Rest([]) == [];
  }

  lemma CanonicalParts(place: Place)
    ensures Rest(Canonical(place).components) == Normals(place)
    ensures Parts(Canonical(place)) == [Root] + Normals(place)
  {
    CanonicalRest(place, 0);
    assert Canonical(place).components[0..] == Canonical(place).components;
    assert Normals(place)[0..] == Normals(place);
  }

  lemma {:induction false} CanonicalRest(place: Place, k: nat)
    requires k <= |place|
    ensures Rest(Canonical(place).components[k..]) == Normals(place)[k..]
    decreases |place| - k
  {
    if k < |place| {
      CanonicalRest(place, k + 1);
      assert Canonical(place).components[k..][1..] == Canonical(place).components[k + 1..];
      assert Normals(place)[k..] == [Normal(place[k])] + Normals(place)[k + 1..];
    }
  }

  lemma PlaceResolves(fs: Tree, place: Place)
    requires WellFormed(fs) && place in fs.nodes && !fs.nodes[place].Link?
    ensures Resolve(fs, Canonical(place)) == Some(place)
  {
    CanonicalParts(place);
    assert Normals(place)[0..] == Normals(place) && place[..0] == [] && place[..|place|] == place;
    RestSpells(Canonical(place).components, place, 0);
    WalkDown(fs, place, 0, |place|, Canonical(place).components, MAX_LINKS);
  }

  /** A canonical path resolves to the place it spells, and to itself. */
  lemma CanonicalResolves(fs: Tree, p: Path)
    requires WellFormed(fs) && Resolve(fs, p).Some?
    ensures Resolve(fs, Canonical(Resolve(fs, p).value)) == Resolve(fs, p)
  {
    WalkEndsAtNode(fs, Start(fs, p), p.components, MAX_LINKS);
    PlaceResolves(fs, Resolve(fs, p).value);
  }

  lemma PartsPrefix(a: Place, b: Place)
    ensures Parts(Canonical(a)) <= Parts(Canonical(b)) <==> a <= b
  {
    CanonicalParts(a);
    CanonicalParts(b);
    if |a| <= |b| {
      var x, y := [Root] + Normals(a), [Root] + Normals(b);
      if x <= y {
        forall i | 0 <= i < |a| ensures a[i] == b[i] {
          assert x[i + 1] == y[i + 1];
        }
      }
    }
  }

  /** A root that does not resolve is compared as spelled. It can only match as the empty path, or
      by spelling a regular file with a trailing dot or slash. */
  ghost predicate Stray(fs: Tree, root: Path, place: Place)
    requires place in fs.nodes
  {
    && Resolve(fs, root).None?
    && (Parts(root) == [] ||
        (Parts(root) == Parts(Canonical(place)) && fs.nodes[place].File? && Dot in root.components))
  }

  lemma RootComesFirst(root: Path)
    requires Parts(root) != [] && Parts(root)[0] == Root
    ensures root.absolute && Parts(root) == [Root] + Rest(root.components)
  {
  }

  lemma TailOfPrefix(a: seq<PathPart>, b: seq<PathPart>)
    requires [Root] + a <= [Root] + b
    ensures a <= b
  {
    forall i | 0 <= i < |a| ensures a[i] == b[i] {
      assert ([Root] + a)[i + 1] == ([Root] + b)[i + 1];
    }
  }

  lemma UnresolvedRootIsStray(fs: Tree, root: Path, place: Place)
    requires WellFormed(fs) && place in fs.nodes && !fs.nodes[place].Link?
    requires Resolve(fs, root).None? && Parts(root) <= Parts(Canonical(place))
    ensures Stray(fs, root, place)
  {
    CanonicalParts(place);
    if Parts(root) != [] {
      RootComesFirst(root);
      TailOfPrefix(Rest(root.components), Normals(place));
      assert place[..0] == [] && Normals(place)[0..] == Normals(place);
      RestSpells(root.components, place, 0);
      WalkDown(fs, place, 0, |Rest(root.components)|, root.components, MAX_LINKS);
    }
  }

  ghost predicate Encloses(fs: Tree, root: Path, place: Place) {
    Resolve(fs, root).Some? && Resolve(fs, root).value <= place
  }

  ghost predicate Inside(fs: Tree, roots: seq<Path>, place: Place) {
    exists r :: r in roots && Encloses(fs, r, place)
  }

  /** The spelling of `p` continues what stands for `root`. */
  ghost predicate SpelledUnder(fs: Tree, root: Path, p: Path) {
    match Resolve(fs, root)
    case Some(top) => [Root] + Normals(top) <= Parts(p)
    case None => Parts(root) <= Parts(p)
  }

  /** What the check admits, for every path: one that resolves, exactly if some root resolves to an
      ancestor of the node that will be touched (or the node itself) or is stray for it; one that
      does not, exactly if its spelling continues some root. */
  lemma AllowedIff(fs: Tree, roots: seq<Path>, p: Path)
    requires WellFormed(fs)
    ensures match Resolve(fs, p)
            case Some(place) =>
              && place in fs.nodes
              && (PathAllowed(fs, Some(roots), p) <==>
                  exists r :: r in roots && (Encloses(fs, r, place) || Stray(fs, r, place)))
            case None =>
              PathAllowed(fs, Some(roots), p) <==> exists r :: r in roots && SpelledUnder(fs, r, p)
  {
    match Resolve(fs, p)
    case Some(place) =>
      WalkEndsAtNode(fs, Start(fs, p), p.components, MAX_LINKS);
      forall r ensures Admits(fs, r, p) <==> Encloses(fs, r, place) || Stray(fs, r, place) {
        AdmitsIff(fs, r, p, place);
      }
    case None =>
      forall r ensures Admits(fs, r, p) <==> SpelledUnder(fs, r, p) {
        if Resolve(fs, r).Some? {
          CanonicalParts(Resolve(fs, r).value);
        }
      }
  }

  lemma AdmitsIff(fs: Tree, r: Path, p: Path, place: Place)
    requires WellFormed(fs) && Resolve(fs, p) == Some(place)
    requires place in fs.nodes && !fs.nodes[place].Link?
    ensures Admits(fs, r, p) <==> Encloses(fs, r, place) || Stray(fs, r, place)
  {
    match Resolve(fs, r)
    case Some(top) => PartsPrefix(top, place);
    case None =>
      if Admits(fs, r, p) {
        UnresolvedRootIsStray(fs, r, place);
      }
  }

  /** Without roots every path is allowed, and with an empty list none is. */
  lemma NoRoots(fs: Tree, p: Path)
    ensures PathAllowed(fs, None, p) && !PathAllowed(fs, Some([]), p)
  {
  }

  /** A root as operators write them: not empty and free of dots, or else something that exists. */
  predicate Proper(fs: Tree, root: Path) {
    Resolve(fs, root).Some? || (Parts(root) != [] && Dot !in root.components)
  }

  /** With proper roots the check confines every operation that follows its path to a node to the
      nodes under the roots, through any links and dot-dots, and admits all of those nodes. A root
      that does not resolve admits nothing. */
  lemma ProperRootsConfine(fs: Tree, roots: seq<Path>, p: Path)
    requires WellFormed(fs)
    requires forall r | r in roots :: Proper(fs, r)
    ensures Resolve(fs, p).Some? ==> (PathAllowed(fs, Some(roots), p) <==> Inside(fs, roots, Resolve(fs, p).value))
  {
    AllowedIff(fs, roots, p);
  }

  /** Roots confine every resolvable path exactly if none is stray for a place no other encloses. */
  lemma ConfinesIff(fs: Tree, roots: seq<Path>)
    requires WellFormed(fs)
    ensures (forall p | Resolve(fs, p).Some? && PathAllowed(fs, Some(roots), p) ::
               Inside(fs, roots, Resolve(fs, p).value))
            <==>
            (forall r, place | r in roots && place in fs.nodes && !fs.nodes[place].Link? && Stray(fs, r, place) ::
               Inside(fs, roots, place))
  {
    forall p | Resolve(fs, p).Some? && PathAllowed(fs, Some(roots), p)
      ensures var place := Resolve(fs, p).value;
              && place in fs.nodes && !fs.nodes[place].Link?
              && exists r :: r in roots && (Encloses(fs, r, place) || Stray(fs, r, place))
    {
      AllowedIff(fs, roots, p);
      WalkEndsAtNode(fs, Start(fs, p), p.components, MAX_LINKS);
    }
    forall r, place | r in roots && place in fs.nodes && !fs.nodes[place].Link? && Stray(fs, r, place)
      ensures Resolve(fs, Canonical(place)) == Some(place) && PathAllowed(fs, Some(roots), Canonical(place))
    {
      PlaceResolves(fs, place);
      AllowedIff(fs, roots, Canonical(place));
    }
  }
}
