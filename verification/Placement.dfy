/** Where a write puts its file, and what the path check says about that place.

    The check judges the node a path leads to. A write replaces an entry of the directory its path
    ends in, creating missing directories on the way, and does not follow a link that stands at
    that entry; so for a path with no node at its end the check judges the spelling alone. */
module Placement {
  import opened Base
  import opened Paths

  // ---- Making directories ----

  datatype Made = Made(fs: Tree, at: Place)

  function Ahead(foreign: nat): nat {
    if foreign == 0 then 0 else foreign - 1
  }

  function WithDir(fs: Tree, place: Place): Tree {
    fs.(nodes := fs.nodes[place := Dir])
  }

  /** `create_dir_all`: a walk that makes the directories it misses, which later components may
      leave again. The first `foreign` components of `todo` come from links; nothing is made on
      their account, for a link stands where the directory would be. */
  function Make(fs: Tree, at: Place, todo: seq<Component>, links: nat, foreign: nat): Option<Made>
    decreases links, |todo|
  {
    if todo == [] then Some(Made(fs, at))
    else if !IsDir(fs, at) then None
    else
      match todo[0]
      case Dot => Make(fs, at, todo[1..], links, Ahead(foreign))
      case DotDot => Make(fs, if at == [] then [] else at[..|at| - 1], todo[1..], links, Ahead(foreign))
      case Name(name) =>
        var child := at + [name];
        if child !in fs.nodes then
          if foreign > 0 then None else Make(WithDir(fs, child), child, todo[1..], links, 0)
        else
          match fs.nodes[child]
          case Link(target) =>
            if links == 0 || (target.components == [] && !target.absolute) then None
            else Make(fs, if target.absolute then [] else at, target.components + todo[1..], links - 1,
                      |target.components| + Ahead(foreign))
          case _ => Make(fs, child, todo[1..], links, Ahead(foreign))
  }

  /** The directory part of a path, from where its resolution starts. */
  function Up(p: Path): Path
    requires p.components != []
  {
    Path(p.absolute, p.components[..|p.components| - 1])
  }

  function Reach(fs: Tree, p: Path): Option<Place> {
    Walk(fs, Start(fs, p), p.components, MAX_LINKS)
  }

  /** The entry a write to `p` replaces or creates, in the directory that its parent leads to once
      the missing ones have been made. A path that does not end in a name cannot be renamed to. */
  function Landing(fs: Tree, p: Path): Option<Place> {
    var n := |p.components|;
    if n == 0 || !p.components[n - 1].Name? then None
    else
      match Make(fs, Start(fs, p), Up(p).components, MAX_LINKS, 0)
      case None => None
      case Some(made) => if IsDir(made.fs, made.at) then Some(made.at + [p.components[n - 1].name]) else None
  }

  /** Only a path that ends in a name lands, under that name, in what its directory part leads to. */
  lemma LandsUnderItsName(fs: Tree, p: Path)
    requires Landing(fs, p).Some?
    ensures var n, place := |p.components|, Landing(fs, p).value;
            && n > 0 && p.components[n - 1].Name? && place != [] && place[|place| - 1] == p.components[n - 1].name
            && var made := Make(fs, Start(fs, p), Up(p).components, MAX_LINKS, 0).value;
               place[..|place| - 1] == made.at && IsDir(made.fs, made.at)
               && Walk(made.fs, Start(fs, p), Up(p).components, MAX_LINKS) == Some(made.at)
  {
    MadeIsReached(fs, Start(fs, p), Up(p).components, MAX_LINKS, 0);
  }

  // ---- What making directories keeps ----

  /** `now` is `was` with directories added where nothing stood. */
  ghost predicate Extends(was: Tree, now: Tree) {
    && now.cwd == was.cwd
    && (forall q | q in was.nodes :: q in now.nodes && now.nodes[q] == was.nodes[q])
    && (forall q | q in now.nodes && q !in was.nodes :: now.nodes[q].Dir?)
  }

  lemma ExtendsOn(a: Tree, b: Tree, c: Tree)
    requires Extends(a, b) && Extends(b, c)
    ensures Extends(a, c)
  {
  }

  /** Making directories leaves everything that stood as it was. */
  lemma {:induction false} MakeExtends(fs: Tree, at: Place, todo: seq<Component>, links: nat, foreign: nat)
    requires Make(fs, at, todo, links, foreign).Some?
    ensures Extends(fs, Make(fs, at, todo, links, foreign).value.fs)
    decreases links, |todo|
  {
    if todo != [] {
      match todo[0]
      case Dot => MakeExtends(fs, at, todo[1..], links, Ahead(foreign));
      case DotDot => MakeExtends(fs, if at == [] then [] else at[..|at| - 1], todo[1..], links, Ahead(foreign));
      case Name(name) =>
        var child := at + [name];
        if child !in fs.nodes {
          var more := WithDir(fs, child);
          MakeExtends(more, child, todo[1..], links, 0);
          ExtendsOn(fs, more, Make(more, child, todo[1..], links, 0).value.fs);
        } else {
          match fs.nodes[child]
          case Link(target) =>
            MakeExtends(fs, if target.absolute then [] else at, target.components + todo[1..], links - 1,
                        |target.components| + Ahead(foreign));
          case _ => MakeExtends(fs, child, todo[1..], links, Ahead(foreign));
        }
    }
  }

  /** In the tree that has been made the path leads where the making ended. */
  lemma {:induction false} MadeIsReached(fs: Tree, at: Place, todo: seq<Component>, links: nat, foreign: nat)
    requires Make(fs, at, todo, links, foreign).Some?
    ensures var made := Make(fs, at, todo, links, foreign).value;
            Walk(made.fs, at, todo, links) == Some(made.at)
    decreases links, |todo|
  {
    MakeExtends(fs, at, todo, links, foreign);
    if todo != [] {
      match todo[0]
      case Dot => MadeIsReached(fs, at, todo[1..], links, Ahead(foreign));
      case DotDot => MadeIsReached(fs, if at == [] then [] else at[..|at| - 1], todo[1..], links, Ahead(foreign));
      case Name(name) =>
        var child := at + [name];
        if child !in fs.nodes {
          MakeExtends(WithDir(fs, child), child, todo[1..], links, 0);
          MadeIsReached(WithDir(fs, child), child, todo[1..], links, 0);
        } else {
          match fs.nodes[child]
          case Link(target) =>
            MadeIsReached(fs, if target.absolute then [] else at, target.components + todo[1..], links - 1,
                          |target.components| + Ahead(foreign));
          case _ => MadeIsReached(fs, child, todo[1..], links, Ahead(foreign));
        }
    }
  }

  /** Where everything is there already, nothing is made. */
  lemma {:induction false} MakeOfWalk(fs: Tree, at: Place, todo: seq<Component>, links: nat, foreign: nat)
    requires Walk(fs, at, todo, links).Some?
    ensures Make(fs, at, todo, links, foreign) == Some(Made(fs, Walk(fs, at, todo, links).value))
    decreases links, |todo|
  {
    if todo != [] {
      match todo[0]
      case Dot => MakeOfWalk(fs, at, todo[1..], links, Ahead(foreign));
      case DotDot => MakeOfWalk(fs, if at == [] then [] else at[..|at| - 1], todo[1..], links, Ahead(foreign));
      case Name(name) =>
        match fs.nodes[at + [name]]
        case Link(target) =>
          MakeOfWalk(fs, if target.absolute then [] else at, target.components + todo[1..], links - 1,
                     |target.components| + Ahead(foreign));
        case _ => MakeOfWalk(fs, at + [name], todo[1..], links, Ahead(foreign));
    }
  }

  lemma {:induction false} ForeignIsWalked(fs: Tree, at: Place, a: seq<Component>, b: seq<Component>, links: nat, foreign: nat)
    requires |a| <= foreign && Make(fs, at, a + b, links, foreign).Some?
    ensures Walk(fs, at, a, links).Some?
    decreases links, |a|
  {
    if a != [] {
      assert (a + b)[0] == a[0] && (a + b)[1..] == a[1..] + b;
      match a[0]
      case Dot => ForeignIsWalked(fs, at, a[1..], b, links, foreign - 1);
      case DotDot => ForeignIsWalked(fs, if at == [] then [] else at[..|at| - 1], a[1..], b, links, foreign - 1);
      case Name(name) =>
        match fs.nodes[at + [name]]
        case Link(target) =>
          assert target.components + (a[1..] + b) == (target.components + a[1..]) + b;
          ForeignIsWalked(fs, if target.absolute then [] else at, target.components + a[1..], b, links - 1,
                          |target.components| + foreign - 1);
        case _ => ForeignIsWalked(fs, at + [name], a[1..], b, links, foreign - 1);
    }
  }

  /** Nothing is made where a link points to nothing: with such a link on the way, the making fails. */
  lemma DanglingLinkStops(fs: Tree, dir: Place, name: string, target: Path, rest: seq<Component>, links: nat, foreign: nat)
    requires dir + [name] in fs.nodes && fs.nodes[dir + [name]] == Link(target)
    requires links > 0 ==> Walk(fs, if target.absolute then [] else dir, target.components, links - 1).None?
    ensures Make(fs, dir, [Name(name)] + rest, links, foreign).None?
  {
    var all := [Name(name)] + rest;
    assert all[0] == Name(name) && all[1..] == rest;
    if Make(fs, dir, all, links, foreign).Some? {
      ForeignIsWalked(fs, if target.absolute then [] else dir, target.components, rest, links - 1,
                      |target.components| + Ahead(foreign));
    }
  }

  // ---- What the check says about a place ----

  /** The longest prefix of a place that exists and is no link. */
  function Ground(fs: Tree, place: Place): (g: Place)
    ensures g <= place
  {
    if place == [] || (place in fs.nodes && !fs.nodes[place].Link?) then place
    else Ground(fs, place[..|place| - 1])
  }

  lemma TakePrefix(top: Place, place: Place)
    ensures |top| <= |place| ==> (top <= place <==> top == place[..|top|])
  {
  }

  lemma OneUp(place: Place, top: Place)
    requires place != [] && top != place
    ensures top <= place <==> top <= place[..|place| - 1]
  {
    var above := place[..|place| - 1];
    TakePrefix(top, place);
    TakePrefix(top, above);
    if |top| < |place| {
      assert place[..|top|] == above[..|top|];
    } else {
      assert place[..|place|] == place;
    }
  }

  /** The ground of a place is there, and a node that is no link lies above the place exactly if it
      lies above its ground. */
  lemma {:induction false} AboveGround(fs: Tree, place: Place, top: Place)
    requires IsDir(fs, []) && top in fs.nodes && !fs.nodes[top].Link?
    ensures Ground(fs, place) in fs.nodes && !fs.nodes[Ground(fs, place)].Link?
    ensures top <= place <==> top <= Ground(fs, place)
  {
    if place != [] && !(place in fs.nodes && !fs.nodes[place].Link?) {
      OneUp(place, top);
      AboveGround(fs, place[..|place| - 1], top);
    }
  }

  /** A place is under a root exactly if what exists of it, spelled plainly, passes the check. */
  lemma InsideIff(fs: Tree, roots: seq<Path>, place: Place)
    requires WellFormed(fs) && forall r | r in roots :: Proper(fs, r)
    ensures Inside(fs, roots, place) <==> PathAllowed(fs, Some(roots), Canonical(Ground(fs, place)))
  {
    var g := Ground(fs, place);
    AboveGround(fs, place, []);
    PlaceResolves(fs, g);
    ProperRootsConfine(fs, roots, Canonical(g));
    forall r ensures Encloses(fs, r, place) <==> Encloses(fs, r, g) {
      if Resolve(fs, r).Some? {
        WalkEndsAtNode(fs, Start(fs, r), r.components, MAX_LINKS);
        AboveGround(fs, place, Resolve(fs, r).value);
      }
    }
  }

  /** Wherever a write puts its file, that is under a root if and only if the longest part of the
      place that exists passes the check. */
  lemma LandsInsideIff(fs: Tree, roots: seq<Path>, p: Path)
    requires WellFormed(fs) && Landing(fs, p).Some?
    requires forall r | r in roots :: Proper(fs, r)
    ensures var place := Landing(fs, p).value;
            Inside(fs, roots, place) <==> PathAllowed(fs, Some(roots), Canonical(Ground(fs, place)))
  {
    InsideIff(fs, roots, Landing(fs, p).value);
  }

  // ---- Paths that lead to their place ----

  lemma {:induction false} WalkThenName(fs: Tree, at: Place, todo: seq<Component>, name: string, links: nat)
    requires Walk(fs, at, todo, links).Some?
    requires var d := Walk(fs, at, todo, links).value;
             IsDir(fs, d) && d + [name] in fs.nodes && !fs.nodes[d + [name]].Link?
    ensures Walk(fs, at, todo + [Name(name)], links) == Some(Walk(fs, at, todo, links).value + [name])
    decreases links, |todo|
  {
    var all := todo + [Name(name)];
    if todo == [] {
      assert all == [Name(name)];
    } else {
      assert all[0] == todo[0] && all[1..] == todo[1..] + [Name(name)];
      match todo[0]
      case Dot => WalkThenName(fs, at, todo[1..], name, links);
      case DotDot => WalkThenName(fs, if at == [] then [] else at[..|at| - 1], todo[1..], name, links);
      case Name(n) =>
        match fs.nodes[at + [n]]
        case Link(target) =>
          assert target.components + all[1..] == (target.components + todo[1..]) + [Name(name)];
          WalkThenName(fs, if target.absolute then [] else at, target.components + todo[1..], name, links - 1);
        case _ => WalkThenName(fs, at + [n], todo[1..], name, links);
    }
  }

  lemma {:induction false} WalkBeforeName(fs: Tree, at: Place, todo: seq<Component>, name: string, links: nat)
    requires Walk(fs, at, todo + [Name(name)], links).Some?
    ensures Walk(fs, at, todo, links).Some? && IsDir(fs, Walk(fs, at, todo, links).value)
    decreases links, |todo|
  {
    var all := todo + [Name(name)];
    if todo != [] {
      assert all[0] == todo[0] && all[1..] == todo[1..] + [Name(name)];
      match todo[0]
      case Dot => WalkBeforeName(fs, at, todo[1..], name, links);
      case DotDot => WalkBeforeName(fs, if at == [] then [] else at[..|at| - 1], todo[1..], name, links);
      case Name(n) =>
        match fs.nodes[at + [n]]
        case Link(target) =>
          assert target.components + all[1..] == (target.components + todo[1..]) + [Name(name)];
          WalkBeforeName(fs, if target.absolute then [] else at, target.components + todo[1..], name, links - 1);
        case Dir => WalkBeforeName(fs, at + [n], todo[1..], name, links);
        case File =>
    }
  }

  lemma {:induction false} NameIsThere(fs: Tree, at: Place, todo: seq<Component>, name: string, links: nat)
    requires Walk(fs, at, todo + [Name(name)], links).Some? && Walk(fs, at, todo, links).Some?
    ensures Walk(fs, at, todo, links).value + [name] in fs.nodes
    decreases links, |todo|
  {
    var all := todo + [Name(name)];
    if todo == [] {
      assert all == [Name(name)];
    } else {
      assert all[0] == todo[0] && all[1..] == todo[1..] + [Name(name)];
      match todo[0]
      case Dot => NameIsThere(fs, at, todo[1..], name, links);
      case DotDot => NameIsThere(fs, if at == [] then [] else at[..|at| - 1], todo[1..], name, links);
      case Name(n) =>
        match fs.nodes[at + [n]]
        case Link(target) =>
          assert target.components + all[1..] == (target.components + todo[1..]) + [Name(name)];
          NameIsThere(fs, if target.absolute then [] else at, target.components + todo[1..], name, links - 1);
        case _ => NameIsThere(fs, at + [n], todo[1..], name, links);
    }
  }

  /** A path that leads to a node lands where something stands. */
  lemma LandingIsThere(fs: Tree, p: Path)
    requires Resolve(fs, p).Some? && Landing(fs, p).Some?
    ensures Landing(fs, p).value in fs.nodes
  {
    var name := p.components[|p.components| - 1].name;
    assert p.components == Up(p).components + [Name(name)];
    WalkBeforeName(fs, Start(fs, p), Up(p).components, name, MAX_LINKS);
    MakeOfWalk(fs, Start(fs, p), Up(p).components, MAX_LINKS, 0);
    NameIsThere(fs, Start(fs, p), Up(p).components, name, MAX_LINKS);
  }

  lemma OldFileIsReached(fs: Tree, p: Path)
    requires Landing(fs, p).Some? && Resolve(fs, p).Some?
    requires var place := Landing(fs, p).value; place in fs.nodes && !fs.nodes[place].Link?
    ensures Resolve(fs, p) == Landing(fs, p)
  {
    var name := p.components[|p.components| - 1].name;
    assert p.components == Up(p).components + [Name(name)];
    WalkBeforeName(fs, Start(fs, p), Up(p).components, name, MAX_LINKS);
    MakeOfWalk(fs, Start(fs, p), Up(p).components, MAX_LINKS, 0);
    WalkThenName(fs, Start(fs, p), Up(p).components, name, MAX_LINKS);
  }

  /** Where a write replaces a file and its path leads to a node, that node is the file, and it is
      under a root exactly if the path itself passes the check. */
  lemma OldFileInsideIff(fs: Tree, roots: seq<Path>, p: Path)
    requires WellFormed(fs) && Landing(fs, p).Some? && Resolve(fs, p).Some?
    requires forall r | r in roots :: Proper(fs, r)
    requires var place := Landing(fs, p).value; place in fs.nodes && !fs.nodes[place].Link?
    ensures Resolve(fs, p) == Landing(fs, p)
    ensures Inside(fs, roots, Landing(fs, p).value) <==> PathAllowed(fs, Some(roots), p)
  {
    OldFileIsReached(fs, p);
    ProperRootsConfine(fs, roots, p);
  }

  // ---- Missing directories that are not left again ----

  function TrimDots(components: seq<Component>): (r: seq<Component>)
    ensures |r| <= |components|
  {
    if components != [] && components[|components| - 1].Dot? then TrimDots(components[..|components| - 1])
    else components
  }

  /** The landing place of a path that goes straight down from the last directory that exists. */
  function StraightLanding(fs: Tree, p: Path): Option<Place>
    decreases |p.components|
  {
    var n := |p.components|;
    if n == 0 || !p.components[n - 1].Name? then None
    else
      var name := p.components[n - 1].name;
      match Reach(fs, Up(p))
      case Some(d) => if IsDir(fs, d) then Some(d + [name]) else None
      case None =>
        match StraightLanding(fs, Above(p))
        case Some(place) => if place !in fs.nodes then Some(place + [name]) else None
        case None => None
  }

  /** The parent of `p`, without the dots at its end. */
  function Above(p: Path): Path
    requires p.components != []
  {
    Path(p.absolute, TrimDots(Up(p).components))
  }

  /** An empty relative path, as a parent, is the current directory. */
  function AsParent(p: Path): Path {
    if !p.absolute && p.components == [] then Path(false, [Dot]) else p
  }

  /** The nearest parent of `p` that exists. */
  function Anchor(fs: Tree, p: Path): Path
    requires p.components != []
    decreases |p.components|
  {
    if Reach(fs, Up(p)).Some? || Above(p).components == [] then AsParent(Up(p)) else Anchor(fs, Above(p))
  }

  lemma ParentResolves(fs: Tree, p: Path)
    requires WellFormed(fs)
    ensures Resolve(fs, AsParent(p)) == Reach(fs, p)
  {
  }

  /** The anchor is a directory above the landing place, and everything between them is missing. */
  ghost predicate Hangs(fs: Tree, place: Place, d: Place) {
    && IsDir(fs, d) && d < place
    && forall k | |d| < k < |place| :: place[..k] !in fs.nodes
  }

  lemma MissingBelow(fs: Tree, place: Place, d: Place, name: string)
    requires WellFormed(fs) && Hangs(fs, place, d) && place !in fs.nodes
    ensures Hangs(fs, place + [name], d) && place + [name] !in fs.nodes
  {
    var q := place + [name];
    assert q[..|place|] == place == q[..|q| - 1];
    forall k | |d| < k < |q| ensures q[..k] !in fs.nodes {
      assert k < |place| ==> q[..k] == place[..k];
    }
  }

  lemma {:induction false} AnchorHangs(fs: Tree, p: Path)
    requires WellFormed(fs) && StraightLanding(fs, p).Some?
    ensures Resolve(fs, Anchor(fs, p)).Some?
    ensures Hangs(fs, StraightLanding(fs, p).value, Resolve(fs, Anchor(fs, p)).value)
    decreases |p.components|
  {
    var name := p.components[|p.components| - 1].name;
    ParentResolves(fs, Up(p));
    if Reach(fs, Up(p)).None? {
      AnchorHangs(fs, Above(p));
      MissingBelow(fs, StraightLanding(fs, Above(p)).value, Resolve(fs, Anchor(fs, Above(p))).value, name);
    }
  }

  /** One more component that follows no link. */
  lemma {:induction false} MakeThen(fs: Tree, at: Place, todo: seq<Component>, c: Component, links: nat, foreign: nat)
    requires foreign <= |todo| && Make(fs, at, todo, links, foreign).Some?
    requires var made := Make(fs, at, todo, links, foreign).value;
             c.Dot? || (c.Name? && made.at + [c.name] !in made.fs.nodes)
    ensures var made := Make(fs, at, todo, links, foreign).value;
            Make(fs, at, todo + [c], links, foreign) == Make(made.fs, made.at, [c], 0, 0)
    decreases links, |todo|
  {
    var all := todo + [c];
    if todo == [] {
      assert all == [c];
    } else {
      assert all[0] == todo[0] && all[1..] == todo[1..] + [c];
      match todo[0]
      case Dot => MakeThen(fs, at, todo[1..], c, links, Ahead(foreign));
      case DotDot => MakeThen(fs, if at == [] then [] else at[..|at| - 1], todo[1..], c, links, Ahead(foreign));
      case Name(name) =>
        var child := at + [name];
        if child !in fs.nodes {
          MakeThen(WithDir(fs, child), child, todo[1..], c, links, 0);
        } else {
          match fs.nodes[child]
          case Link(target) =>
            assert target.components + all[1..] == (target.components + todo[1..]) + [c];
            MakeThen(fs, if target.absolute then [] else at, target.components + todo[1..], c, links - 1,
                     |target.components| + Ahead(foreign));
          case _ => MakeThen(fs, child, todo[1..], c, links, Ahead(foreign));
        }
    }
  }

  lemma {:induction false} MakeThenDots(fs: Tree, at: Place, todo: seq<Component>, made: Made, links: nat)
    requires Make(fs, at, TrimDots(todo), links, 0) == Some(made) && IsDir(made.fs, made.at)
    ensures Make(fs, at, todo, links, 0) == Some(made)
  {
    if todo != [] && todo[|todo| - 1].Dot? {
      var rest := todo[..|todo| - 1];
      MakeThenDots(fs, at, rest, made, links);
      MakeThen(fs, at, rest, Dot, links, 0);
      assert todo == rest + [Dot];
      assert [Dot][1..] == [];
    }
  }

  /** All directories made are `place` or above it. */
  ghost predicate MadeUpTo(fs: Tree, now: Tree, place: Place) {
    forall q | q in now.nodes && q !in fs.nodes :: |q| <= |place|
  }

  /** Making the missing directories down to the straight landing place, that one included. */
  lemma {:induction false} MakeStraight(fs: Tree, p: Path) returns (now: Tree)
    requires WellFormed(fs) && StraightLanding(fs, p).Some? && StraightLanding(fs, p).value !in fs.nodes
    ensures Make(fs, Start(fs, p), p.components, MAX_LINKS, 0) == Some(Made(now, StraightLanding(fs, p).value))
    ensures IsDir(now, StraightLanding(fs, p).value) && MadeUpTo(fs, now, StraightLanding(fs, p).value)
    decreases |p.components|
  {
    var name := p.components[|p.components| - 1].name;
    var above := ParentIsMade(fs, p);
    var place := StraightLanding(fs, p).value;
    assert p.components == Up(p).components + [Name(name)];
    MakeThen(fs, Start(fs, p), Up(p).components, Name(name), MAX_LINKS, 0);
    assert [Name(name)][1..] == [];
    now := WithDir(above.fs, place);
  }

  lemma {:induction false} ParentIsMade(fs: Tree, p: Path) returns (made: Made)
    requires WellFormed(fs) && StraightLanding(fs, p).Some?
    ensures Make(fs, Start(fs, p), Up(p).components, MAX_LINKS, 0) == Some(made) && IsDir(made.fs, made.at)
    ensures StraightLanding(fs, p) == Some(made.at + [p.components[|p.components| - 1].name])
    ensures MadeUpTo(fs, made.fs, made.at)
    ensures StraightLanding(fs, p).value !in fs.nodes ==> StraightLanding(fs, p).value !in made.fs.nodes
    decreases |p.components|, 0
  {
    if Reach(fs, Up(p)).Some? {
      MakeOfWalk(fs, Start(fs, p), Up(p).components, MAX_LINKS, 0);
      made := Made(fs, Reach(fs, Up(p)).value);
    } else {
      var above := Above(p);
      var now := MakeStraight(fs, above);
      made := Made(now, StraightLanding(fs, above).value);
      MakeThenDots(fs, Start(fs, p), Up(p).components, made, MAX_LINKS);
    }
  }

  /** It is the landing place. */
  lemma StraightIsLanding(fs: Tree, p: Path)
    requires WellFormed(fs) && StraightLanding(fs, p).Some?
    ensures Landing(fs, p) == StraightLanding(fs, p)
  {
    var made := ParentIsMade(fs, p);
  }

  lemma {:induction false} GroundOfHanging(fs: Tree, place: Place, d: Place, rest: Place)
    requires Hangs(fs, place, d) && (place in fs.nodes ==> fs.nodes[place].Link?)
    requires d <= rest <= place
    ensures Ground(fs, rest) == d
    decreases |rest|
  {
    if |rest| > |d| {
      assert rest == place[..|rest|] && place[..|place|] == place;
      GroundOfHanging(fs, place, d, rest[..|rest| - 1]);
    } else {
      assert rest == d;
    }
  }

  /** For such a path the nearest parent that exists decides: where the write finds no node at its
      place, or a link, the file ends up under a root exactly if that parent passes the check. */
  lemma NewFileInsideIff(fs: Tree, roots: seq<Path>, p: Path)
    requires WellFormed(fs) && StraightLanding(fs, p).Some?
    requires forall r | r in roots :: Proper(fs, r)
    requires var place := StraightLanding(fs, p).value; place in fs.nodes ==> fs.nodes[place].Link?
    ensures Landing(fs, p) == StraightLanding(fs, p)
    ensures Inside(fs, roots, Landing(fs, p).value) <==> PathAllowed(fs, Some(roots), Anchor(fs, p))
  {
    var place := StraightLanding(fs, p).value;
    StraightIsLanding(fs, p);
    AnchorHangs(fs, p);
    var d := Resolve(fs, Anchor(fs, p)).value;
    GroundOfHanging(fs, place, d, place);
    InsideIff(fs, roots, place);
    PlaceResolves(fs, d);
    ProperRootsConfine(fs, roots, Canonical(d));
    ProperRootsConfine(fs, roots, Anchor(fs, p));
  }

  // ---- The check on the spelling ----

  /** With roots that exist, the spelling does say where a new file will be if it is the plain one:
      absolute, through no link, and free of dots. */
  lemma PlainSpellingConfines(fs: Tree, roots: seq<Path>, p: Path)
    requires WellFormed(fs) && forall r | r in roots :: Resolve(fs, r).Some?
    requires Resolve(fs, p).None? && Landing(fs, p).Some? && p == Canonical(Landing(fs, p).value)
    ensures PathAllowed(fs, Some(roots), p) <==> Inside(fs, roots, Landing(fs, p).value)
  {
    var place := Landing(fs, p).value;
    AllowedIff(fs, roots, p);
    CanonicalParts(place);
    forall r | r in roots ensures SpelledUnder(fs, r, p) <==> Encloses(fs, r, place) {
      PartsPrefix(Resolve(fs, r).value, place);
      CanonicalParts(Resolve(fs, r).value);
    }
  }

  /** Two directories side by side, one of them the root. */
  function TwoDirs(): Tree {
    Tree(map[[] := Dir, ["ws"] := Dir, ["other"] := Dir], [])
  }

  const WORKSPACE := Path(true, [Name("ws")])
  const NEW_FILE := Path(true, [Name("ws"), DotDot, Name("other"), Name("new")])

  lemma StepInto(fs: Tree, name: string, rest: seq<Component>, links: nat)
    requires IsDir(fs, []) && IsDir(fs, [name])
    ensures Walk(fs, [], [Name(name)] + rest, links) == Walk(fs, [name], rest, links)
  {
    assert [] + [name] == [name];
    assert ([Name(name)] + rest)[1..] == rest;
  }

  lemma RootIsThere(fs: Tree)
    requires fs == TwoDirs()
    ensures WellFormed(fs) && Resolve(fs, WORKSPACE) == Some(["ws"])
  {
    assert WORKSPACE.components == [Name("ws")] + [];
    StepInto(fs, "ws", [], MAX_LINKS);
  }

  lemma StepOut(fs: Tree, name: string, rest: seq<Component>, links: nat)
    requires IsDir(fs, [name])
    ensures Walk(fs, [name], [DotDot] + rest, links) == Walk(fs, [], rest, links)
  {
    assert ([DotDot] + rest)[1..] == rest;
  }

  /** Out of the root again and over to its sibling. */
  lemma WalksOver(fs: Tree, rest: seq<Component>)
    requires fs == TwoDirs()
    ensures Walk(fs, [], [Name("ws"), DotDot, Name("other")] + rest, MAX_LINKS) == Walk(fs, ["other"], rest, MAX_LINKS)
  {
    assert [Name("ws"), DotDot, Name("other")] + rest == [Name("ws")] + ([DotDot] + ([Name("other")] + rest));
    StepInto(fs, "ws", [DotDot] + ([Name("other")] + rest), MAX_LINKS);
    StepOut(fs, "ws", [Name("other")] + rest, MAX_LINKS);
    StepInto(fs, "other", rest, MAX_LINKS);
  }

  lemma NewFileIsOver(fs: Tree)
    requires fs == TwoDirs()
    ensures Resolve(fs, NEW_FILE).None? && Landing(fs, NEW_FILE) == Some(["other", "new"])
    ensures ["other", "new"] !in fs.nodes
  {
    WalksOver(fs, [Name("new")]);
    WalksOver(fs, []);
    assert NEW_FILE.components == [Name("ws"), DotDot, Name("other")] + [Name("new")];
    assert Up(NEW_FILE).components == [Name("ws"), DotDot, Name("other")] + [];
    assert ["other"] + ["new"] == ["other", "new"];
  }

  lemma SpelledFromRoot(fs: Tree, p: Path)
    requires fs == TwoDirs() && Resolve(fs, p).None? && p.absolute
    requires p.components != [] && p.components[0] == Name("ws")
    ensures PathAllowed(fs, Some([WORKSPACE]), p)
  {
    RootIsThere(fs);
    assert Rest(p.components) == [Normal("ws")] + Rest(p.components[1..]);
    assert Normals(["ws"]) == [Normal("ws")];
    assert SpelledUnder(fs, WORKSPACE, p);
    var roots := [WORKSPACE];
    assert roots[0] == WORKSPACE;
    AllowedIff(fs, roots, p);
  }

  /** `p` passes the check, no node is at its place yet, and a write to it puts a file under no root. */
  ghost predicate Strays(fs: Tree, roots: seq<Path>, p: Path) {
    && WellFormed(fs) && (forall r | r in roots :: Proper(fs, r))
    && PathAllowed(fs, Some(roots), p)
    && p.components != [] && Landing(fs, p).Some? && Landing(fs, p).value !in fs.nodes
    && !Inside(fs, roots, Landing(fs, p).value)
  }

  lemma NewFileIsOutside(fs: Tree)
    requires fs == TwoDirs()
    ensures !Inside(fs, [WORKSPACE], ["other", "new"])
  {
    RootIsThere(fs);
    assert ["ws"][0] == "ws" != ["other", "new"][0];
  }

  lemma StraysFrom(fs: Tree, root: Path, p: Path, place: Place)
    requires WellFormed(fs) && Resolve(fs, root).Some? && PathAllowed(fs, Some([root]), p)
    requires Landing(fs, p) == Some(place) && place !in fs.nodes && !Inside(fs, [root], place)
    ensures exists fs', roots, p' :: Strays(fs', roots, p')
  {
    assert Strays(fs, [root], p);
  }

  /** The check on a new file's own path does not say where the file will be: a path spelled from
      the root that leaves it again passes. */
  lemma SpellingDoesNotConfine()
    ensures exists fs, roots, p :: Strays(fs, roots, p)
  {
    var fs := TwoDirs();
    RootIsThere(fs);
    NewFileIsOver(fs);
    SpelledFromRoot(fs, NEW_FILE);
    NewFileIsOutside(fs);
    StraysFrom(fs, WORKSPACE, NEW_FILE, ["other", "new"]);
  }

  const DETOUR := Path(true, [Name("ws"), Name("gone"), DotDot, DotDot, Name("other"), Name("new")])

  /** The directory that is made on the way and left again. */
  lemma DetourIsMade(fs: Tree)
    requires fs == TwoDirs()
    ensures Make(fs, [], Up(DETOUR).components, MAX_LINKS, 0) == Some(Made(WithDir(fs, ["ws", "gone"]), ["other"]))
  {
    var more := WithDir(fs, ["ws", "gone"]);
    var c := Up(DETOUR).components;
    assert c == [Name("ws"), Name("gone"), DotDot, DotDot, Name("other")];
    assert c[1..] == [Name("gone"), DotDot, DotDot, Name("other")] && c[2..] == [DotDot, DotDot, Name("other")];
    assert c[3..] == [DotDot, Name("other")] && c[4..] == [Name("other")] && c[5..] == [];
    assert c[1..][1..] == c[2..] && c[2..][1..] == c[3..] && c[3..][1..] == c[4..] && c[4..][1..] == c[5..];
    assert [] + ["ws"] == ["ws"] && ["ws"] + ["gone"] == ["ws", "gone"] && [] + ["other"] == ["other"];
    assert ["ws", "gone"][..1] == ["ws"] && ["ws"][..0] == [];
    assert Make(more, ["other"], c[5..], MAX_LINKS, 0) == Some(Made(more, ["other"]));
    assert Make(more, [], c[4..], MAX_LINKS, 0) == Make(more, ["other"], c[5..], MAX_LINKS, 0);
    assert Make(more, ["ws"], c[3..], MAX_LINKS, 0) == Make(more, [], c[4..], MAX_LINKS, 0);
    assert Make(more, ["ws", "gone"], c[2..], MAX_LINKS, 0) == Make(more, ["ws"], c[3..], MAX_LINKS, 0);
    assert Make(fs, ["ws"], c[1..], MAX_LINKS, 0) == Make(more, ["ws", "gone"], c[2..], MAX_LINKS, 0);
  }

  /** The first missing name ends a walk that makes nothing. */
  lemma WalkMisses(fs: Tree, rest: seq<Component>)
    requires fs == TwoDirs()
    ensures Walk(fs, [], [Name("ws"), Name("gone")] + rest, MAX_LINKS).None?
  {
    assert [Name("ws"), Name("gone")] + rest == [Name("ws")] + ([Name("gone")] + rest);
    StepInto(fs, "ws", [Name("gone")] + rest, MAX_LINKS);
    assert ["ws"] + ["gone"] == ["ws", "gone"];
  }

  lemma AnchorGoesUp(fs: Tree, p: Path, up: Path)
    requires p.components != [] && up == Up(p) && Reach(fs, up).None?
    requires up.components != [] && !up.components[|up.components| - 1].Dot?
    ensures Anchor(fs, p) == Anchor(fs, up)
  {
  }

  function Detour(rest: seq<Component>): Path {
    Path(true, [Name("ws"), Name("gone")] + rest)
  }

  lemma DetourUp(fs: Tree, rest: seq<Component>, c: Component)
    requires fs == TwoDirs() && (rest != [] ==> !rest[|rest| - 1].Dot?)
    ensures Anchor(fs, Detour(rest + [c])) == Anchor(fs, Detour(rest))
  {
    WalkMisses(fs, rest);
    assert Up(Detour(rest + [c])) == Detour(rest);
    AnchorGoesUp(fs, Detour(rest + [c]), Detour(rest));
  }

  lemma FirstAnchor(fs: Tree)
    requires fs == TwoDirs()
    ensures Anchor(fs, Detour([])) == WORKSPACE
  {
    RootIsThere(fs);
    assert Up(Detour([])) == WORKSPACE;
  }

  lemma DetourAnchor(fs: Tree)
    requires fs == TwoDirs()
    ensures Anchor(fs, DETOUR) == WORKSPACE
  {
    var r1, r2, r3 := [DotDot], [DotDot, DotDot], [DotDot, DotDot, Name("other")];
    assert DETOUR == Detour(r3 + [Name("new")]) && r3 == r2 + [Name("other")] && r2 == r1 + [DotDot] && r1 == [] + [DotDot];
    DetourUp(fs, r3, Name("new"));
    DetourUp(fs, r2, Name("other"));
    DetourUp(fs, r1, DotDot);
    DetourUp(fs, [], DotDot);
    FirstAnchor(fs);
  }

  lemma DetourLands(fs: Tree)
    requires fs == TwoDirs()
    ensures Resolve(fs, DETOUR).None? && Landing(fs, DETOUR) == Some(["other", "new"])
  {
    WalkMisses(fs, [DotDot, DotDot, Name("other"), Name("new")]);
    assert DETOUR == Detour([DotDot, DotDot, Name("other"), Name("new")]);
    DetourIsMade(fs);
    assert ["other"] + ["new"] == ["other", "new"];
  }

  lemma RootPasses(fs: Tree)
    requires fs == TwoDirs()
    ensures PathAllowed(fs, Some([WORKSPACE]), WORKSPACE)
  {
    var roots := [WORKSPACE];
    assert roots[0] == WORKSPACE && Admits(fs, WORKSPACE, WORKSPACE);
  }

  lemma StraysThough(fs: Tree, root: Path, p: Path, place: Place)
    requires WellFormed(fs) && Resolve(fs, root).Some? && PathAllowed(fs, Some([root]), p)
    requires Landing(fs, p) == Some(place) && place !in fs.nodes && !Inside(fs, [root], place)
    requires p.components != [] && PathAllowed(fs, Some([root]), Anchor(fs, p))
    ensures exists fs', roots, p' :: Strays(fs', roots, p') && PathAllowed(fs', Some(roots), Anchor(fs', p'))
  {
    assert Strays(fs, [root], p);
  }

  /** Nor does the nearest parent that exists say it in general: a path may have a directory made
      under the root and then leave it, and the root, again. */
  lemma ParentDoesNotDecide()
    ensures exists fs, roots, p :: Strays(fs, roots, p) && PathAllowed(fs, Some(roots), Anchor(fs, p))
  {
    var fs := TwoDirs();
    RootIsThere(fs);
    DetourLands(fs);
    SpelledFromRoot(fs, DETOUR);
    DetourAnchor(fs);
    RootPasses(fs);
    NewFileIsOutside(fs);
    NewFileIsOver(fs);
    StraysThough(fs, WORKSPACE, DETOUR, ["other", "new"]);
  }
}
