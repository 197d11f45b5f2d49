/**
 The memory filesystem as a value: a flat map from paths to nodes, and what each operation of
 `MemoryFileProvider` (core/rust/src/file.rs) makes of it.  Every guarantee here rests on the
 map always representing a tree.
 */
module MemoryTree {
  import opened Results
  import opened Words
  import opened LogicalPaths

  datatype Node = Directory | File(bytes: seq<int>)
  type Nodes = map<Path, Node>

  datatype WriteMode = Create | Replace | Append

  /** A result together with the nodes left behind. */
  datatype Done = Done(result: Res<Path>, nodes: Nodes)

  predicate IsDir(n: Nodes, p: Path) { p in n && n[p].Directory? }

  ghost predicate Tree(n: Nodes) {
    && IsDir(n, [])
    && forall p :: p in n ==> Normal(p) && (p != [] ==> IsDir(n, Parent(p)))
  }

  /** The ancestors of `path` below the root, down to depth `k`. */
  function Ancestors(path: Path, k: nat): set<Path>
    requires k <= |path|
  {
    set i | 0 < i <= k :: path[..i]
  }

  function Above(path: Path): set<Path>
    requires path != []
  {
    Ancestors(path, |path| - 1)
  }

  /** Adds directories where nothing stands yet. */
  function WithDirs(n: Nodes, dirs: set<Path>): Nodes {
    map q | q in n.Keys + dirs :: if q in n then n[q] else Directory
  }

  predicate FileAmong(n: Nodes, dirs: set<Path>) { exists q :: q in dirs && q in n && n[q].File? }

  predicate HasBeneath(n: Nodes, p: Path) { exists q :: q in n && p < q }

  // ----- operations -----

  function EnsureParent(n: Nodes, path: Path, parents: bool): Done {
    if path == [] then Done(Err(Denied), n)
    else if parents then
      if FileAmong(n, Above(path)) then Done(Err(NotDirectory), n)
      else Done(Ok(path), WithDirs(n, Above(path)))
    else if Parent(path) !in n then Done(Err(NotFound), n)
    else if n[Parent(path)].File? then Done(Err(NotDirectory), n)
    else Done(Ok(path), n)
  }

  function WriteAt(n: Nodes, p: Path, bytes: seq<int>, mode: WriteMode, parents: bool): Done {
    if p == [] then Done(Err(IsDirectory), n)
    else
      var e := EnsureParent(n, p, parents);
      if e.result.Err? then e
      else if IsDir(e.nodes, p) then Done(Err(IsDirectory), e.nodes)
      else if p in e.nodes && mode == Create then Done(Err(AlreadyExists), e.nodes)
      else
        var content := if p in e.nodes && mode == Append then e.nodes[p].bytes + bytes else bytes;
        Done(Ok(p), e.nodes[p := File(content)])
  }

  function MkdirAt(n: Nodes, p: Path, parents: bool, existsOk: bool): Done {
    if p in n then Done(if n[p].Directory? && existsOk then Ok(p) else Err(AlreadyExists), n)
    else
      var e := EnsureParent(n, p, parents);
      if e.result.Err? then e else Done(Ok(p), e.nodes[p := Directory])
  }

  function DeleteAt(n: Nodes, p: Path, missingOk: bool): Done {
    if p == [] then Done(Err(Denied), n)
    else if p !in n then Done(if missingOk then Ok(p) else Err(NotFound), n)
    else if n[p].Directory? && HasBeneath(n, p) then Done(Err(DirectoryNotEmpty), n)
    else Done(Ok(p), n - {p})
  }

  function CopyAt(n: Nodes, s: Path, t: Path, replace: bool, parents: bool): Done {
    if s == t then Done(Err(AlreadyExists), n)
    else if s !in n then Done(Err(NotFound), n)
    else if n[s].Directory? then Done(Err(IsDirectory), n)
    else WriteAt(n, t, n[s].bytes, if replace then Replace else Create, parents)
  }

  /** The keys at or beneath `s`, and where they land under `t`. */
  function Under(n: Nodes, s: Path): set<Path> { set q | q in n && s <= q }

  function Landing(n: Nodes, s: Path, t: Path): set<Path> {
    set q | q in Under(n, s) :: t + q[|s|..]
  }

  lemma LandingOrigin(n: Nodes, s: Path, t: Path, q: Path)
    requires q in Landing(n, s, t)
    ensures t <= q && s + q[|t|..] in n
  {
    var r :| r in Under(n, s) && q == t + r[|s|..];
    assert q[|t|..] == r[|s|..] && s + r[|s|..] == r;
  }

  function Relocated(n: Nodes, s: Path, t: Path): Nodes {
    map q | q in (n.Keys - Under(n, s)) + Landing(n, s, t) ::
      if q in Landing(n, s, t) then LandingOrigin(n, s, t, q); n[s + q[|t|..]] else n[q]
  }

  function MoveAt(n: Nodes, s: Path, t: Path, replace: bool, parents: bool): Done {
    if s == [] || t == [] then Done(Err(Denied), n)
    else if s == t then Done(if s in n then Ok(t) else Err(NotFound), n)
    else if s < t then Done(Err(InvalidPath), n)
    else
      var e := EnsureParent(n, t, parents);
      if e.result.Err? then e
      else if s !in e.nodes then Done(Err(NotFound), e.nodes)
      else if t in e.nodes && !replace then Done(Err(AlreadyExists), e.nodes)
      else if replace && IsDir(e.nodes, t) && HasBeneath(e.nodes, t) then Done(Err(DirectoryNotEmpty), e.nodes)
      else
        var cleared := if replace then e.nodes - {t} else e.nodes;
        Done(Ok(t), Relocated(cleared, s, t))
  }

  function Refused(n: Nodes, e: FileError): Done { Done(Err(e), n) }

  function Write(n: Nodes, path: string, bytes: seq<int>, mode: WriteMode, parents: bool): Done {
    match Normalised(path) case Err(e) => Refused(n, e) case Ok(p) => WriteAt(n, p, bytes, mode, parents)
  }

  function Mkdir(n: Nodes, path: string, parents: bool, existsOk: bool): Done {
    match Normalised(path) case Err(e) => Refused(n, e) case Ok(p) => MkdirAt(n, p, parents, existsOk)
  }

  function Delete(n: Nodes, path: string, missingOk: bool): Done {
    match Normalised(path) case Err(e) => Refused(n, e) case Ok(p) => DeleteAt(n, p, missingOk)
  }

  function Copy(n: Nodes, source: string, target: string, replace: bool, parents: bool): Done {
    match Normalised(source)
    case Err(e) => Refused(n, e)
    case Ok(s) => match Normalised(target) case Err(e) => Refused(n, e) case Ok(t) => CopyAt(n, s, t, replace, parents)
  }

  function Move(n: Nodes, source: string, target: string, replace: bool, parents: bool): Done {
    match Normalised(source)
    case Err(e) => Refused(n, e)
    case Ok(s) => match Normalised(target) case Err(e) => Refused(n, e) case Ok(t) => MoveAt(n, s, t, replace, parents)
  }

  // ----- temporary entries -----

  function Hex(n: nat, width: nat): string {
    if width == 0 then (if n == 0 then "" else Hex(n / 16, 0) + [HexDigit(n % 16)])
    else Hex(n / 16, width - 1) + [HexDigit(n % 16)]
  }

  function TempName(prefix: string, sequence: nat, suffix: string): string {
    prefix + "-" + Hex(sequence, 16) + suffix
  }

  predicate SingleFragment(s: string) { '/' !in s && !Forbidden(s) }

  /** Tries successive names; at most `attempts` of them. */
  function TempAt(n: Nodes, parent: string, prefix: string, suffix: string, directory: bool,
                  sequence: nat, attempts: nat): Done
    decreases attempts
  {
    if attempts == 0 then Done(Err(Exhausted), n)
    else
      match Resolve(parent, TempName(prefix, sequence, suffix))
      case Err(e) => Refused(n, e)
      case Ok(p) =>
        var d := if directory then MkdirAt(n, p, false, false) else WriteAt(n, p, [], Create, false);
        if d.result == Err(AlreadyExists) then
          TempAt(n, parent, prefix, suffix, directory, sequence + 1, attempts - 1)
        else d
  }

  function Temp(n: Nodes, parent: string, prefix: string, suffix: string, directory: bool, sequence: nat): Done {
    if !SingleFragment(prefix) || !SingleFragment(suffix) then Refused(n, InvalidPath)
    else TempAt(n, parent, prefix, suffix, directory, sequence, 1024)
  }

  // ----- the tree invariant -----

  lemma {:induction false} AncestorsAreDirs(n: Nodes, p: Path, q: Path)
    requires Tree(n) && q in n && p < q
    ensures IsDir(n, p)
    decreases |q|
  {
    var up := Parent(q);
    if p != up {
      assert p < up by { assert q[..|q| - 1][..|p|] == q[..|p|]; }
      AncestorsAreDirs(n, p, up);
    }
  }

  lemma AncestorsPresent(n: Nodes, path: Path, k: nat)
    requires Tree(n) && k < |path| && path[..k + 1] in n
    ensures Ancestors(path, k) <= n.Keys
  {
    forall q | q in Ancestors(path, k) ensures q in n {
      var i :| 0 < i <= k && q == path[..i];
      assert path[..k + 1][..i] == path[..i];
      AncestorsAreDirs(n, q, path[..k + 1]);
    }
  }

  /** Creating missing ancestors keeps a tree, and makes the parent a directory. */
  lemma WithDirsTree(n: Nodes, path: Path)
    requires Tree(n) && Normal(path) && path != [] && !FileAmong(n, Above(path))
    ensures Tree(WithDirs(n, Above(path))) && IsDir(WithDirs(n, Above(path)), Parent(path))
  {
    var m := WithDirs(n, Above(path));
    forall p | p in m ensures Normal(p) && (p != [] ==> IsDir(m, Parent(p))) {
      if p !in n {
        var i :| 0 < i <= |path| - 1 && p == path[..i];
        assert Parent(p) == path[..i - 1];
        if i > 1 { assert path[..i - 1] in Above(path); }
      }
    }
    if |path| > 1 { assert Parent(path) == path[..|path| - 1] && Parent(path) in Above(path); }
  }

  lemma EnsureParentTree(n: Nodes, path: Path, parents: bool)
    requires Tree(n) && Normal(path)
    ensures var e := EnsureParent(n, path, parents);
            Tree(e.nodes) && (e.result.Ok? ==> path != [] && IsDir(e.nodes, Parent(path)))
  {
    if path != [] && parents && !FileAmong(n, Above(path)) { WithDirsTree(n, path); }
  }

  lemma AddedTree(n: Nodes, p: Path, node: Node)
    requires Tree(n) && Normal(p) && p != [] && IsDir(n, Parent(p)) && !(node.File? && IsDir(n, p))
    ensures Tree(n[p := node])
  {
    assert Parent(p) != p;
    forall q | q in n[p := node] && q != [] ensures IsDir(n[p := node], Parent(q)) {
      if q != p && Parent(q) == p { assert IsDir(n, p); }
    }
  }

  lemma WriteTree(n: Nodes, p: Path, bytes: seq<int>, mode: WriteMode, parents: bool)
    requires Tree(n) && Normal(p)
    ensures Tree(WriteAt(n, p, bytes, mode, parents).nodes)
  {
    EnsureParentTree(n, p, parents);
    var e := EnsureParent(n, p, parents);
    if e.result.Ok? && !IsDir(e.nodes, p) {
      var content := if p in e.nodes && mode == Append then e.nodes[p].bytes + bytes else bytes;
      AddedTree(e.nodes, p, File(content));
    }
  }

  lemma MkdirTree(n: Nodes, p: Path, parents: bool, existsOk: bool)
    requires Tree(n) && Normal(p)
    ensures Tree(MkdirAt(n, p, parents, existsOk).nodes)
  {
    EnsureParentTree(n, p, parents);
    var e := EnsureParent(n, p, parents);
    if p !in n && e.result.Ok? { AddedTree(e.nodes, p, Directory); }
  }

  lemma RemovedTree(n: Nodes, p: Path)
    requires Tree(n) && p != [] && !HasBeneath(n, p)
    ensures Tree(n - {p})
  {
    forall q | q in n - {p} && q != [] ensures IsDir(n - {p}, Parent(q)) {
      assert Parent(q) < q;
    }
  }

  lemma FileHasNothingBeneath(n: Nodes, p: Path)
    requires Tree(n) && !IsDir(n, p)
    ensures !HasBeneath(n, p)
  {
    forall q | q in n && p < q ensures false { AncestorsAreDirs(n, p, q); }
  }

  lemma DeleteTree(n: Nodes, p: Path, missingOk: bool)
    requires Tree(n)
    ensures Tree(DeleteAt(n, p, missingOk).nodes)
  {
    if p != [] && p in n {
      if !n[p].Directory? { FileHasNothingBeneath(n, p); }
      if !HasBeneath(n, p) { RemovedTree(n, p); }
    }
  }

  // ----- failures leave the tree as it was -----

  /** A created ancestor cannot already have something beneath it. */
  lemma NothingToCreate(n: Nodes, path: Path)
    requires Tree(n) && path != [] && path in n
    ensures WithDirs(n, Above(path)) == n
  {
    assert path[..|path| - 1 + 1] == path;
    AncestorsPresent(n, path, |path| - 1);
    assert n.Keys + Above(path) == n.Keys;
  }

  /** A failing write changes nothing, even when it may create parents. */
  lemma FailedWriteChangesNothing(n: Nodes, p: Path, bytes: seq<int>, mode: WriteMode, parents: bool)
    requires Tree(n) && Normal(p) && WriteAt(n, p, bytes, mode, parents).result.Err?
    ensures WriteAt(n, p, bytes, mode, parents).nodes == n
  {
    if p != [] && parents && !FileAmong(n, Above(p)) && p in WithDirs(n, Above(p)) {
      NotAbove(p);
      NothingToCreate(n, p);
    }
  }

  lemma NotAbove(p: Path)
    requires p != []
    ensures p !in Above(p)
  {
    assert forall i :: 0 < i <= |p| - 1 ==> |p[..i]| < |p|;
  }

  lemma FailedOperationsChangeNothing(n: Nodes, p: Path, t: Path, parents: bool, option: bool)
    requires Tree(n) && Normal(p) && Normal(t)
    ensures MkdirAt(n, p, parents, option).result.Err? ==> MkdirAt(n, p, parents, option).nodes == n
    ensures DeleteAt(n, p, option).result.Err? ==> DeleteAt(n, p, option).nodes == n
    ensures CopyAt(n, p, t, option, parents).result.Err? ==> CopyAt(n, p, t, option, parents).nodes == n
  {
    if CopyAt(n, p, t, option, parents).result.Err? && p != t && p in n && n[p].File? {
      FailedWriteChangesNothing(n, t, n[p].bytes, if option then Replace else Create, parents);
    }
  }

  /** Creating the ancestors of a path changes something exactly when one of them is missing. */
  lemma CreatesSomething(n: Nodes, t: Path)
    requires t != []
    ensures WithDirs(n, Above(t)) != n <==> !(Above(t) <= n.Keys)
  {
    var m := WithDirs(n, Above(t));
    if Above(t) <= n.Keys {
      assert n.Keys + Above(t) == n.Keys;
      assert m == n;
    } else {
      var q :| q in Above(t) && q !in n;
      assert q in m;
    }
  }

  /**
   A failing move changes the nodes exactly when nothing it checks before creating parents
   refuses it, the source is absent and some ancestor of the target is missing; and then all it
   does is create the missing ancestors.
   */
  lemma FailedMoveAddsAncestorsOnly(n: Nodes, s: Path, t: Path, replace: bool, parents: bool)
    requires Tree(n) && Normal(s) && Normal(t) && MoveAt(n, s, t, replace, parents).result.Err?
    ensures var d := MoveAt(n, s, t, replace, parents);
            && (d.nodes != n <==>
                  && s != [] && t != [] && s != t && !(s < t)
                  && parents && s !in n && !FileAmong(n, Above(t)) && !(Above(t) <= n.Keys))
            && (d.nodes != n ==> d.result == Err(NotFound) && d.nodes == WithDirs(n, Above(t)))
  {
    if s != [] && t != [] && s != t && !(s < t) {
      CreatesSomething(n, t);
      var e := EnsureParent(n, t, parents);
      if e.result.Ok? && parents {
        NotAbove(t);
        if t in e.nodes { NothingToCreate(n, t); }
        assert s !in Above(t) by { assert forall i :: 0 < i <= |t| - 1 ==> t[..i] < t; }
      }
    }
  }

  /** So moving the missing `/a` to `/b/c` with parents on fails and leaves a new directory `/b`. */
  lemma FailedMoveLeavesDirectory()
    ensures var n := map[[] := Directory];
            var d := MoveAt(n, ["a"], ["b", "c"], false, true);
            d.result == Err(NotFound) && d.nodes == map[[] := Directory, ["b"] := Directory]
  {
    var n: Nodes := map[[] := Directory];
    var t := ["b", "c"];
    assert t[..1] == ["b"];
    assert Above(t) == {["b"]} by {
      forall q | q in Above(t) ensures q == ["b"] { var i :| 0 < i <= |t| - 1 && q == t[..i]; }
    }
    assert !FileAmong(n, Above(t));
    assert WithDirs(n, Above(t)) == map[[] := Directory, ["b"] := Directory];
    assert !(["a"] < t) by { assert t[..1] != ["a"]; }
    assert ["a"] != [];
  }

  // ----- moves -----

  /** Under the conditions a move checks, source and landing area are apart and the landing area is free. */
  lemma MoveApart(n: Nodes, s: Path, t: Path)
    requires Tree(n) && s != [] && t != [] && s != t && !(s < t) && s in n && !HasBeneath(n, t)
    ensures !(t <= s) && !(s <= t)
  {
    assert t < s ==> HasBeneath(n, t);
  }

  lemma LandingKey(n: Nodes, s: Path, t: Path, suffix: Path)
    ensures t + suffix in Landing(n, s, t) <==> s + suffix in n
  {
    if s + suffix in n {
      assert (s + suffix)[|s|..] == suffix;
      assert s + suffix in Under(n, s);
    }
    if t + suffix in Landing(n, s, t) {
      var q :| q in Under(n, s) && t + suffix == t + q[|s|..];
      assert (t + suffix)[|t|..] == suffix && (t + q[|s|..])[|t|..] == q[|s|..];
      assert q == s + q[|s|..];
    }
  }

  /** The relocated map, key by key: the subtree is renamed, and everything else stays where it was. */
  lemma RelocatedAt(n: Nodes, s: Path, t: Path, q: Path)
    requires forall r :: r in n ==> !(t <= r)
    ensures t <= q ==> (q in Relocated(n, s, t) <==> s + q[|t|..] in n)
    ensures t <= q && q in Relocated(n, s, t) ==> Relocated(n, s, t)[q] == n[s + q[|t|..]]
    ensures !(t <= q) ==> (q in Relocated(n, s, t) <==> q in n && !(s <= q))
    ensures !(t <= q) && q in Relocated(n, s, t) ==> Relocated(n, s, t)[q] == n[q]
  {
    if t <= q {
      var suffix := q[|t|..];
      assert q == t + suffix;
      LandingKey(n, s, t, suffix);
    } else {
      assert forall r :: r in Under(n, s) ==> t <= t + r[|s|..];
    }
  }

  lemma RelocatedTree(n: Nodes, s: Path, t: Path)
    requires Tree(n) && Normal(t) && s != [] && t != [] && s in n && IsDir(n, Parent(t))
    requires !(s <= t) && !(t <= s) && forall r :: r in n ==> !(t <= r)
    ensures Tree(Relocated(n, s, t))
  {
    hide Relocated;
    var m := Relocated(n, s, t);
    RelocatedAt(n, s, t, []);
    forall q | q in m ensures Normal(q) && (q != [] ==> IsDir(m, Parent(q))) {
      RelocatedAt(n, s, t, q);
      if q != [] { RelocatedAt(n, s, t, Parent(q)); }
      if t <= q {
        var r := s + q[|t|..];
        NormalMoved(n, s, t, q);
        if |q| > |t| {
          assert Parent(r) == s + Parent(q)[|t|..];
        } else {
          assert q == t;
          assert !(s <= Parent(t)) by { assert Parent(t) <= t; }
        }
      } else if q != [] {
        assert !(t <= Parent(q)) by { assert Parent(q) <= q; }
        assert !(s <= Parent(q)) by { assert Parent(q) <= q; }
      }
    }
  }

  lemma NormalMoved(n: Nodes, s: Path, t: Path, q: Path)
    requires Tree(n) && Normal(t) && t <= q && s + q[|t|..] in n
    ensures Normal(q)
  {
    forall x | x in q ensures Segment(x) {
      assert q == t + q[|t|..];
      assert x in t || x in q[|t|..];
      if x in q[|t|..] { assert x in s + q[|t|..]; }
    }
  }

  /** What a successful move has cleared and created before it renames. */
  function MoveGround(n: Nodes, t: Path, replace: bool, parents: bool): Nodes
    requires t != []
  {
    var e := EnsureParent(n, t, parents).nodes;
    if replace then e - {t} else e
  }

  lemma MoveGroundFacts(n: Nodes, s: Path, t: Path, replace: bool, parents: bool)
    requires Tree(n) && Normal(s) && Normal(t) && MoveAt(n, s, t, replace, parents).result.Ok? && s != t
    ensures t != [] && s != [] && s in n
    ensures var g := MoveGround(n, t, replace, parents);
            Tree(g) && s in g && IsDir(g, Parent(t)) && !(s <= t) && !(t <= s) && (forall r :: r in g ==> !(t <= r))
    ensures MoveAt(n, s, t, replace, parents).nodes == Relocated(MoveGround(n, t, replace, parents), s, t)
  {
    var e := EnsureParent(n, t, parents).nodes;
    EnsureParentTree(n, t, parents);
    assert forall i :: 0 < i <= |t| - 1 ==> t[..i] < t;
    assert s in n;
    if !IsDir(e, t) { FileHasNothingBeneath(e, t); }
    assert !HasBeneath(e, t);
    MoveApart(e, s, t);
    var g := MoveGround(n, t, replace, parents);
    if replace { RemovedTree(e, t); assert Parent(t) != t; }
    forall r | r in g ensures !(t <= r) {
      assert t <= r && r != t ==> t < r;
    }
  }

  /**
   A successful move is exactly a subtree renaming: what was at `s` plus a suffix is now at `t`
   plus that suffix with the same content, nothing is left at or beneath `s`, and every other
   node is as before, except what stood at `t` and ancestors of `t` that were missing.
   */
  lemma MoveIsRenaming(n: Nodes, s: Path, t: Path, replace: bool, parents: bool, q: Path, suffix: Path)
    requires Tree(n) && Normal(s) && Normal(t) && s != t && MoveAt(n, s, t, replace, parents).result.Ok?
    ensures var m := MoveAt(n, s, t, replace, parents).nodes;
            && (t + suffix in m <==> s + suffix in n)
            && (t + suffix in m ==> m[t + suffix] == n[s + suffix])
            && s + suffix !in m
    ensures var m := MoveAt(n, s, t, replace, parents).nodes;
            !(s <= q) && !(t <= q) ==>
              && (q in n ==> q in m && m[q] == n[q])
              && (q in m && q !in n ==> parents && q in Above(t) && m[q] == Directory)
    ensures Tree(MoveAt(n, s, t, replace, parents).nodes)
  {
    hide Relocated;
    MoveGroundFacts(n, s, t, replace, parents);
    var g := MoveGround(n, t, replace, parents);
    RelocatedTree(g, s, t);
    RelocatedAt(g, s, t, t + suffix);
    RelocatedAt(g, s, t, s + suffix);
    RelocatedAt(g, s, t, q);
    assert (t + suffix)[|t|..] == suffix;
    assert !(t <= s + suffix) by { ApartBeneath(s, t, suffix); }
    GroundAt(n, s, t, replace, parents, s + suffix);
    if !(t <= q) { GroundAt(n, s, t, replace, parents, q); }
  }

  lemma ApartBeneath(s: Path, t: Path, suffix: Path)
    requires !(s <= t) && !(t <= s)
    ensures !(t <= s + suffix)
  {
    if |t| <= |s| { assert (s + suffix)[..|t|] == s[..|t|]; } else { assert (s + suffix)[..|s|] == s; }
  }

  /** Preparing the ground touches only the target and its missing ancestors. */
  lemma GroundAt(n: Nodes, s: Path, t: Path, replace: bool, parents: bool, q: Path)
    requires t != [] && !(t <= q)
    ensures var g := MoveGround(n, t, replace, parents);
            && (q in n ==> q in g && g[q] == n[q])
            && (q in g && q !in n ==> parents && q in Above(t) && g[q] == Directory)
            && (s <= q && !(s <= t) && q in g ==> q in n)
  {
    if q in Above(t) { var i :| 0 < i <= |t| - 1 && q == t[..i]; assert q <= t; }
  }

  lemma MoveTree(n: Nodes, s: Path, t: Path, replace: bool, parents: bool)
    requires Tree(n) && Normal(s) && Normal(t)
    ensures Tree(MoveAt(n, s, t, replace, parents).nodes)
  {
    var d := MoveAt(n, s, t, replace, parents);
    if d.result.Err? {
      EnsureParentTree(n, t, parents);
    } else if s != t {
      MoveIsRenaming(n, s, t, replace, parents, [], []);
    }
  }

  // ----- whole runs -----

  datatype Operation =
    | WriteOp(path: string, bytes: seq<int>, mode: WriteMode, parents: bool)
    | MkdirOp(path: string, parents: bool, existsOk: bool)
    | DeleteOp(path: string, missingOk: bool)
    | CopyOp(source: string, target: string, replace: bool, parents: bool)
    | MoveOp(source: string, target: string, replace: bool, parents: bool)
    | TempOp(parent: string, prefix: string, suffix: string, directory: bool, sequence: nat)

  function Perform(n: Nodes, op: Operation): Done {
    match op
    case WriteOp(path, bytes, mode, parents) => Write(n, path, bytes, mode, parents)
    case MkdirOp(path, parents, existsOk) => Mkdir(n, path, parents, existsOk)
    case DeleteOp(path, missingOk) => Delete(n, path, missingOk)
    case CopyOp(source, target, replace, parents) => Copy(n, source, target, replace, parents)
    case MoveOp(source, target, replace, parents) => Move(n, source, target, replace, parents)
    case TempOp(parent, prefix, suffix, directory, sequence) => Temp(n, parent, prefix, suffix, directory, sequence)
  }

  function Run(n: Nodes, ops: seq<Operation>): Nodes
    decreases |ops|
  {
    if ops == [] then n else Run(Perform(n, ops[0]).nodes, ops[1..])
  }

  lemma {:induction false} TempTree(n: Nodes, parent: string, prefix: string, suffix: string, directory: bool,
                                    sequence: nat, attempts: nat)
    requires Tree(n)
    ensures Tree(TempAt(n, parent, prefix, suffix, directory, sequence, attempts).nodes)
    decreases attempts
  {
    hide Resolve, TempName, MkdirAt, WriteAt, Tree;
    if attempts > 0 {
      var r := Resolve(parent, TempName(prefix, sequence, suffix));
      if r.Ok? {
        ResolvedIsNormal(parent, TempName(prefix, sequence, suffix));
        MkdirTree(n, r.value, false, false);
        WriteTree(n, r.value, [], Create, false);
        TempTree(n, parent, prefix, suffix, directory, sequence + 1, attempts - 1);
      }
    }
  }

  lemma ResolvedIsNormal(base: string, path: string)
    requires Resolve(base, path).Ok?
    ensures Normal(Resolve(base, path).value)
  {
    if path != "" && path[0] == '/' { NormalisedIsNormal(path); }
    else {
      var b := Normalised(base).value;
      NormalisedIsNormal(TrimEnd(Render(b)) + "/" + TrimStart(path));
    }
  }

  lemma CopyTree(n: Nodes, s: Path, t: Path, replace: bool, parents: bool)
    requires Tree(n) && Normal(t)
    ensures Tree(CopyAt(n, s, t, replace, parents).nodes)
  {
    hide WriteAt;
    if s in n && n[s].File? { WriteTree(n, t, n[s].bytes, if replace then Replace else Create, parents); }
  }

  lemma PerformKeepsTree(n: Nodes, op: Operation)
    requires Tree(n)
    ensures Tree(Perform(n, op).nodes)
  {
    hide Tree, Normalised, WriteAt, MkdirAt, DeleteAt, CopyAt, MoveAt, TempAt, Normal;
    match op
    case WriteOp(path, bytes, mode, parents) =>
      if Normalised(path).Ok? { NormalisedIsNormal(path); WriteTree(n, Normalised(path).value, bytes, mode, parents); }
    case MkdirOp(path, parents, existsOk) =>
      if Normalised(path).Ok? { NormalisedIsNormal(path); MkdirTree(n, Normalised(path).value, parents, existsOk); }
    case DeleteOp(path, missingOk) =>
      if Normalised(path).Ok? { DeleteTree(n, Normalised(path).value, missingOk); }
    case CopyOp(source, target, replace, parents) =>
      if Normalised(source).Ok? && Normalised(target).Ok? {
        NormalisedIsNormal(target);
        CopyTree(n, Normalised(source).value, Normalised(target).value, replace, parents);
      }
    case MoveOp(source, target, replace, parents) =>
      if Normalised(source).Ok? && Normalised(target).Ok? {
        NormalisedIsNormal(source);
        NormalisedIsNormal(target);
        MoveTree(n, Normalised(source).value, Normalised(target).value, replace, parents);
      }
    case TempOp(parent, prefix, suffix, directory, sequence) =>
      TempTree(n, parent, prefix, suffix, directory, sequence, 1024);
  }

  /** Over every sequence of operations, successful or failing, the filesystem stays a tree. */
  lemma {:induction false} RunKeepsTree(n: Nodes, ops: seq<Operation>)
    requires Tree(n)
    ensures Tree(Run(n, ops))
    decreases |ops|
  {
    if ops != [] {
      PerformKeepsTree(n, ops[0]);
      RunKeepsTree(Perform(n, ops[0]).nodes, ops[1..]);
    }
  }
}
