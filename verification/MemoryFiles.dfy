/**
 `MemoryFileProvider` (core/rust/src/file.rs): the object whose methods update the node map in
 place, step by step, each proved to do what the operation on values says.
 */
module MemoryFiles {
  import opened Results
  import opened Ordering
  import opened LogicalPaths
  import opened MemoryTree

  // ----- listings -----

  ghost function Children(n: Nodes, p: Path): set<Path> {
    set q | q in n && p <= q && |q| == |p| + 1
  }

  /** The files at or beneath `p`. */
  ghost function FilesAt(n: Nodes, p: Path): set<Path> {
    set q | q in n && p <= q && n[q].File?
  }

  ghost function Beneath(n: Nodes, p: Path): set<Path> { set q | q in n && p < q }

  ghost function KeyedAll(paths: set<Path>): set<(Key, Path)> { set q | q in paths :: Keyed(q) }

  function Paths(es: seq<(Key, Path)>): seq<Path> {
    seq(|es|, i requires 0 <= i < |es| => es[i].1)
  }

  /** A set of paths in the order of their text. */
  ghost function InOrder(paths: set<Path>): seq<Path> { Paths(Arrange(KeyedAll(paths))) }

  ghost predicate AllNormal(paths: set<Path>) { forall q :: q in paths ==> Normal(q) }

  ghost predicate Lists(s: seq<Path>, paths: set<Path>) {
    (forall q :: q in s <==> q in paths) && forall i, j :: 0 <= i < j < |s| ==> s[i] != s[j]
  }

  function WithKeys(s: seq<Path>): seq<(Key, Path)> {
    seq(|s|, i requires 0 <= i < |s| => Keyed(s[i]))
  }

  /** Sorting any listing of a set of normal paths by text gives the set in order. */
  lemma SortedListing(s: seq<Path>, paths: set<Path>)
    requires Lists(s, paths) && AllNormal(paths)
    ensures Paths(Sort(WithKeys(s))) == InOrder(paths)
  {
    hide Sort, Arrange, Codes, Render, Normal;
    var es := WithKeys(s);
    forall i, j | 0 <= i < j < |es| ensures es[i].0 != es[j].0 {
      assert s[i] in s && s[j] in s;
      if Keyed(s[i]).0 == Keyed(s[j]).0 { KeyedInjective(s[i], s[j]); }
    }
    SortIsArrange(es);
    forall e ensures e in Ordering.Entries(es) <==> e in KeyedAll(paths) {
      if e in es { var i :| 0 <= i < |es| && es[i] == e; assert s[i] in s; }
      if e in KeyedAll(paths) {
        var q :| q in paths && e == Keyed(q);
        assert q in s;
        var i :| 0 <= i < |s| && s[i] == q;
        assert es[i] == e;
      }
    }
    assert Ordering.Entries(es) == KeyedAll(paths);
  }

  /** The listing in order: exactly the set, in dictionary order of the texts. */
  lemma InOrderFacts(paths: set<Path>)
    requires AllNormal(paths)
    ensures Lists(InOrder(paths), paths)
    ensures forall i, j :: 0 <= i < j < |InOrder(paths)| ==>
              Precedes(Codes(Render(InOrder(paths)[i])), Codes(Render(InOrder(paths)[j])))
  {
    hide Arrange, Codes, Render, Normal, Less, Precedes;
    var es := KeyedAll(paths);
    var t := Arrange(es);
    ArrangeEntries(es);
    assert DistinctKeys(es) by {
      forall x, y | x in es && y in es && x.0 == y.0 ensures x == y {
        KeyedInjective(x.1, y.1);
      }
    }
    ArrangeAscends(es);
    var s := InOrder(paths);
    forall i | 0 <= i < |t| ensures t[i] == Keyed(s[i]) && s[i] in paths {
      assert t[i] in Ordering.Entries(t);
    }
    forall q | q in paths ensures q in s {
      assert Keyed(q) in Ordering.Entries(t);
      var i :| 0 <= i < |t| && t[i] == Keyed(q);
      assert s[i] == q;
    }
    forall i, j | 0 <= i < j < |s|
      ensures Precedes(Codes(Render(s[i])), Codes(Render(s[j]))) && s[i] != s[j]
    {
      assert Less(t[i].0, t[j].0);
      LessIrreflexive(t[i].0);
      LessMeans(t[i].0, t[j].0);
    }
  }

  lemma TreeNormal(n: Nodes, paths: set<Path>)
    requires Tree(n) && paths <= n.Keys
    ensures AllNormal(paths)
  {
  }

  /**
   The files beneath a directory are those at or beneath its entries.  This needs the tree:
   without every intermediate directory the descent would miss files.
   */
  lemma FilesThroughChildren(n: Nodes, p: Path, q: Path)
    requires Tree(n) && IsDir(n, p)
    ensures q in FilesAt(n, p) <==> exists c :: c in Children(n, p) && q in FilesAt(n, c)
  {
    if q in FilesAt(n, p) {
      assert q != p;
      var c := q[..|p| + 1];
      assert p <= c && c <= q;
      if c != q { AncestorsAreDirs(n, c, q); }
      assert c in Children(n, p) && q in FilesAt(n, c);
    }
    if c :| c in Children(n, p) && q in FilesAt(n, c) {
      assert p <= q;
    }
  }

  lemma ChildrenApart(n: Nodes, p: Path, c: Path, d: Path)
    requires c in Children(n, p) && d in Children(n, p) && c != d
    ensures FilesAt(n, c) !! FilesAt(n, d)
  {
    forall q | q in FilesAt(n, c) ensures q !in FilesAt(n, d) {
      assert c == q[..|p| + 1];
    }
  }

  // ----- temporary entries are new -----

  /** A temporary entry is created at a path where nothing stood, and nothing else changes. */
  lemma {:induction false} TempIsNew(n: Nodes, parent: string, prefix: string, suffix: string, directory: bool,
                                     sequence: nat, attempts: nat)
    requires TempAt(n, parent, prefix, suffix, directory, sequence, attempts).result.Ok?
    ensures var d := TempAt(n, parent, prefix, suffix, directory, sequence, attempts);
            var p := d.result.value;
            p !in n && d.nodes == n[p := if directory then Directory else File([])] && p != [] && IsDir(n, Parent(p))
    decreases attempts
  {
    hide Resolve, TempName;
    var p := Resolve(parent, TempName(prefix, sequence, suffix)).value;
    var d := if directory then MkdirAt(n, p, false, false) else WriteAt(n, p, [], Create, false);
    if d.result == Err(AlreadyExists) {
      TempIsNew(n, parent, prefix, suffix, directory, sequence + 1, attempts - 1);
    }
  }

  class MemoryFileProvider {
    var nodes: Nodes
    var sequence: nat

    constructor ()
      ensures Tree(nodes) && nodes == map[[] := Directory]
    {
      nodes := map[[] := Directory];
      sequence := 1;
    }

    method MakeParents(path: Path, parents: bool) returns (r: Res<Path>)
      requires Tree(nodes) && Normal(path)
      modifies this`nodes
      ensures Done(r, nodes) == EnsureParent(old(nodes), path, parents)
    {
      if path == [] { return Err(Denied); }
      var parent := Parent(path);
      if !parents {
        if parent !in nodes { return Err(NotFound); }
        if nodes[parent].File? { return Err(NotDirectory); }
        return Ok(path);
      }
      var current: Path := [];
      assert WithDirs(nodes, Ancestors(path, 0)) == nodes && !FileAmong(nodes, Ancestors(path, 0));
      hide WithDirs, Ancestors, FileAmong, Tree, Normal;
      while |current| < |parent|
        invariant |current| <= |parent| && current == path[..|current|]
        invariant nodes == WithDirs(old(nodes), Ancestors(path, |current|))
        invariant !FileAmong(old(nodes), Ancestors(path, |current|))
      {
        var next := current + [parent[|current|]];
        assert next == path[..|next|];
        AncestorStep(old(nodes), path, |current|);
        if next in nodes {
          if nodes[next].File? { return Err(NotDirectory); }
        } else {
          nodes := nodes[next := Directory];
        }
        current := next;
      }
      r := Ok(path);
    }

    method WriteBytes(path: string, bytes: seq<int>, mode: WriteMode, parents: bool) returns (r: Res<Path>)
      requires Tree(nodes)
      modifies this`nodes
      ensures Done(r, nodes) == Write(old(nodes), path, bytes, mode, parents)
      ensures Tree(nodes) && (r.Err? ==> nodes == old(nodes))
    {
      var normal := Normalise(path);
      if normal.Err? { return normal; }
      var p := normal.value;
      NormalisedIsNormal(path);
      WriteTree(nodes, p, bytes, mode, parents);
      if WriteAt(nodes, p, bytes, mode, parents).result.Err? {
        FailedWriteChangesNothing(nodes, p, bytes, mode, parents);
      }
      if p == [] { return Err(IsDirectory); }
      r := MakeParents(p, parents);
      if r.Err? { return; }
      var content := bytes;
      if p in nodes {
        if nodes[p].Directory? { return Err(IsDirectory); }
        if mode == Create { return Err(AlreadyExists); }
        if mode == Append { content := nodes[p].bytes + bytes; }
      }
      nodes := nodes[p := File(content)];
      r := Ok(p);
    }

    method MkdirPath(path: string, parents: bool, existsOk: bool) returns (r: Res<Path>)
      requires Tree(nodes)
      modifies this`nodes
      ensures Done(r, nodes) == Mkdir(old(nodes), path, parents, existsOk)
      ensures Tree(nodes) && (r.Err? ==> nodes == old(nodes))
    {
      var normal := Normalise(path);
      if normal.Err? { return normal; }
      var p := normal.value;
      NormalisedIsNormal(path);
      MkdirTree(nodes, p, parents, existsOk);
      if p in nodes {
        return if nodes[p].Directory? && existsOk then Ok(p) else Err(AlreadyExists);
      }
      r := MakeParents(p, parents);
      if r.Err? { return; }
      nodes := nodes[p := Directory];
      r := Ok(p);
    }

    method DeletePath(path: string, missingOk: bool) returns (r: Res<Path>)
      requires Tree(nodes)
      modifies this`nodes
      ensures Done(r, nodes) == Delete(old(nodes), path, missingOk)
      ensures Tree(nodes) && (r.Err? ==> nodes == old(nodes))
    {
      var normal := Normalise(path);
      if normal.Err? { return normal; }
      var p := normal.value;
      DeleteTree(nodes, p, missingOk);
      if p == [] { return Err(Denied); }
      if p !in nodes { return if missingOk then Ok(p) else Err(NotFound); }
      if nodes[p].Directory? && HasBeneath(nodes, p) { return Err(DirectoryNotEmpty); }
      nodes := nodes - {p};
      r := Ok(p);
    }

    method CopyPath(source: string, target: string, replace: bool, parents: bool) returns (r: Res<Path>)
      requires Tree(nodes)
      modifies this`nodes
      ensures Done(r, nodes) == Copy(old(nodes), source, target, replace, parents)
      ensures Tree(nodes) && (r.Err? ==> nodes == old(nodes))
    {
      var s := Normalise(source);
      if s.Err? { return s; }
      var t := Normalise(target);
      if t.Err? { return t; }
      if s.value == t.value { return Err(AlreadyExists); }
      if s.value !in nodes { return Err(NotFound); }
      if nodes[s.value].Directory? { return Err(IsDirectory); }
      NormalisedIsNormal(target);
      RenderedIsFixed(t.value);
      r := WriteBytes(Render(t.value), nodes[s.value].bytes, if replace then Replace else Create, parents);
    }

    method MovePath(source: string, target: string, replace: bool, parents: bool) returns (r: Res<Path>)
      requires Tree(nodes)
      modifies this`nodes
      ensures Done(r, nodes) == Move(old(nodes), source, target, replace, parents)
      ensures Tree(nodes)
    {
      var ns := Normalise(source);
      if ns.Err? { return ns; }
      var nt := Normalise(target);
      if nt.Err? { return nt; }
      var s, t := ns.value, nt.value;
      NormalisedIsNormal(source);
      NormalisedIsNormal(target);
      MoveTree(nodes, s, t, replace, parents);
      if s == [] || t == [] { return Err(Denied); }
      if s == t { return if s in nodes then Ok(t) else Err(NotFound); }
      if s < t { return Err(InvalidPath); }
      if MoveAt(nodes, s, t, replace, parents).result.Ok? { MoveGroundFacts(nodes, s, t, replace, parents); }
      r := MakeParents(t, parents);
      if r.Err? { return; }
      if s !in nodes { return Err(NotFound); }
      if t in nodes && !replace { return Err(AlreadyExists); }
      if replace {
        if IsDir(nodes, t) && HasBeneath(nodes, t) { return Err(DirectoryNotEmpty); }
        nodes := nodes - {t};
      }
      Relocate(s, t);
      r := Ok(t);
    }

    /** Takes the subtree out, node by node, then puts it back under its new name. */
    method Relocate(s: Path, t: Path)
      requires forall q :: q in nodes ==> !(t <= q)
      modifies this`nodes
      ensures nodes == Relocated(old(nodes), s, t)
    {
      var moving := map p | p in nodes && s <= p :: nodes[p];
      assert moving.Keys == Under(nodes, s);
      TakeOut(moving.Keys);
      PutBack(moving, s, t);
      RelocationComplete(old(nodes), nodes, s, t);
    }

    method TakeOut(keys: set<Path>)
      modifies this`nodes
      ensures nodes == old(nodes) - keys
    {
      var rest := keys;
      while rest != {}
        invariant rest <= keys && nodes == old(nodes) - (keys - rest)
        decreases |rest|
      {
        var p :| p in rest;
        nodes := nodes - {p};
        rest := rest - {p};
      }
    }

    method PutBack(moving: Nodes, s: Path, t: Path)
      requires forall p :: p in moving ==> s <= p
      requires forall q :: q in nodes ==> !(t <= q)
      modifies this`nodes
      ensures Landed(old(nodes), nodes, moving, moving.Keys, s, t)
    {
      var rest := moving.Keys;
      while rest != {}
        invariant rest <= moving.Keys && Landed(old(nodes), nodes, moving, moving.Keys - rest, s, t)
        decreases |rest|
      {
        var p :| p in rest;
        LandOne(old(nodes), nodes, moving, moving.Keys - rest, p, s, t);
        nodes := nodes[t + p[|s|..] := moving[p]];
        rest := rest - {p};
        assert moving.Keys - rest == moving.Keys - (rest + {p}) + {p};
      }
      assert moving.Keys - rest == moving.Keys;
    }

    method TempPath(parent: string, prefix: string, suffix: string, directory: bool) returns (r: Res<Path>)
      requires Tree(nodes)
      modifies this
      ensures Done(r, nodes) == Temp(old(nodes), parent, prefix, suffix, directory, old(sequence))
      ensures Tree(nodes)
    {
      hide Resolve, TempName, MkdirAt, WriteAt;
      if !SingleFragment(prefix) || !SingleFragment(suffix) { return Err(InvalidPath); }
      var attempts := 1024;
      while attempts > 0
        invariant attempts >= 0 && nodes == old(nodes)
        invariant TempAt(nodes, parent, prefix, suffix, directory, sequence, attempts)
               == Temp(old(nodes), parent, prefix, suffix, directory, old(sequence))
        decreases attempts
      {
        var name := TempName(prefix, sequence, suffix);
        sequence := sequence + 1;
        var path := Resolve(parent, name);
        if path.Err? { return path; }
        ResolvedIsNormal(parent, name);
        RenderedIsFixed(path.value);
        if directory { r := MkdirPath(Render(path.value), false, false); }
        else { r := WriteBytes(Render(path.value), [], Create, false); }
        if r != Err(AlreadyExists) { return; }
        attempts := attempts - 1;
      }
      r := Err(Exhausted);
    }

    /** The entries of a directory, sorted by path. */
    method EntriesOf(p: Path) returns (r: Res<seq<Path>>)
      requires Tree(nodes)
      ensures r == if p !in nodes then Err(NotFound) else if nodes[p].File? then Err(NotDirectory)
                   else Ok(InOrder(Children(nodes, p)))
    {
      if p !in nodes { return Err(NotFound); }
      if nodes[p].File? { return Err(NotDirectory); }
      var output: seq<Path> := [];
      var rest := nodes.Keys;
      while rest != {}
        invariant rest <= nodes.Keys && Lists(output, Children(nodes, p) - rest)
        decreases |rest|
      {
        var q :| q in rest;
        assert q !in output;
        if p <= q && |q| == |p| + 1 { output := output + [q]; }
        rest := rest - {q};
      }
      assert Children(nodes, p) - rest == Children(nodes, p);
      TreeNormal(nodes, Children(nodes, p));
      SortedListing(output, Children(nodes, p));
      r := Ok(Paths(Sort(WithKeys(output))));
    }

    /** Descends through directories, appending the files it meets. */
    method WalkCollect(p: Path, output: seq<Path>) returns (out: seq<Path>)
      requires Tree(nodes) && p in nodes
      requires forall q :: q in output ==> q !in FilesAt(nodes, p)
      ensures |output| <= |out| && out[..|output|] == output
      ensures Lists(out[|output|..], FilesAt(nodes, p))
      decreases Beneath(nodes, p)
    {
      if nodes[p].File? {
        OwnFile(nodes, p);
        out := output + [p];
        assert out[|output|..] == [p];
        return;
      }
      var listed := EntriesOf(p);
      var entries := listed.value;
      ListedChildren(nodes, p);
      hide FilesAt, Children, Lists, InOrder, Tree, FilesOf, Beneath;
      assert Lists([], FilesOf(nodes, entries[..0])) by { NoFiles(nodes, entries); }
      out := output;
      assert out[|output|..] == [];
      var i := 0;
      while i < |entries|
        invariant 0 <= i <= |entries| && |output| <= |out| && out[..|output|] == output
        invariant Lists(out[|output|..], FilesOf(nodes, entries[..i]))
      {
        var c := entries[i];
        ListedChild(nodes, p, entries, i);
        NewFiles(nodes, p, entries, i, output, out);
        ghost var before := out;
        if nodes[c].Directory? {
          Narrower(nodes, p, c);
          out := WalkCollect(c, out);
        } else {
          OwnFile(nodes, c);
          out := out + [c];
          assert out[|before|..] == [c];
        }
        assert out[|output|..] == before[|output|..] + out[|before|..];
        MoreFiles(nodes, p, entries, i, before[|output|..], out[|before|..]);
        i := i + 1;
      }
      assert entries[..i] == entries;
      AllFiles(nodes, p, entries);
    }

    /** All files at or beneath an existing path, in strictly increasing order of path text. */
    method Walk(path: string) returns (r: Res<seq<Path>>)
      requires Tree(nodes)
      ensures match Normalised(path)
              case Err(e) => r == Err(e)
              case Ok(p) => r == if p in nodes then Ok(InOrder(FilesAt(nodes, p))) else Err(NotFound)
    {
      var normal := Normalise(path);
      if normal.Err? { return Err(normal.error); }
      var p := normal.value;
      if p !in nodes { return Err(NotFound); }
      var files := WalkCollect(p, []);
      assert files[0..] == files;
      TreeNormal(nodes, FilesAt(nodes, p));
      SortedListing(files, FilesAt(nodes, p));
      r := Ok(Paths(Sort(WithKeys(files))));
    }
  }

  // ----- steps of the loops -----

  lemma NextAncestor(path: Path, k: nat)
    requires k < |path|
    ensures Ancestors(path, k + 1) == Ancestors(path, k) + {path[..k + 1]}
  {
    assert forall i :: 0 < i <= k + 1 ==> i == k + 1 || path[..i] in Ancestors(path, k);
  }

  /** One turn of the loop that creates parents: a file in the way stops it before anything was created. */
  lemma AncestorStep(n: Nodes, path: Path, k: nat)
    requires Tree(n) && k + 1 < |path| && !FileAmong(n, Ancestors(path, k))
    ensures var m, next := WithDirs(n, Ancestors(path, k)), path[..k + 1];
            && (next in m && m[next].File? ==> FileAmong(n, Above(path)) && m == n)
            && (!(next in m && m[next].File?) ==> !FileAmong(n, Ancestors(path, k + 1)))
            && WithDirs(n, Ancestors(path, k + 1)) == if next in m then m else m[next := Directory]
  {
    var m, next := WithDirs(n, Ancestors(path, k)), path[..k + 1];
    NextAncestor(path, k);
    if next in m && m[next].File? {
      assert next in n;
      AncestorsPresent(n, path, k);
      assert n.Keys + Ancestors(path, k) == n.Keys;
      assert next in Above(path);
    }
  }

  /** The nodes of `moving` at `done` stand under `t`; everything else is as before. */
  ghost predicate Landed(before: Nodes, after: Nodes, moving: Nodes, done: set<Path>, s: Path, t: Path)
    requires done <= moving.Keys && forall p :: p in moving ==> s <= p
  {
    && (forall q :: q in after ==> q in before || (t <= q && s + q[|t|..] in done))
    && (forall q :: q in before ==> q in after && after[q] == before[q])
    && (forall p :: p in done ==> t + p[|s|..] in after && after[t + p[|s|..]] == moving[p])
  }

  lemma LandOne(before: Nodes, after: Nodes, moving: Nodes, done: set<Path>, p: Path, s: Path, t: Path)
    requires forall q :: q in moving ==> s <= q
    requires forall q :: q in before ==> !(t <= q)
    requires done <= moving.Keys && p in moving && Landed(before, after, moving, done, s, t)
    ensures Landed(before, after[t + p[|s|..] := moving[p]], moving, done + {p}, s, t)
  {
    var at := t + p[|s|..];
    assert t <= at && at[|t|..] == p[|s|..] && s + p[|s|..] == p;
    forall o | o in done && t + o[|s|..] == at ensures o == p {
      assert (t + o[|s|..])[|t|..] == o[|s|..];
      assert o == s + o[|s|..];
    }
  }

  lemma RelocationComplete(before: Nodes, after: Nodes, s: Path, t: Path)
    requires forall q :: q in before ==> !(t <= q)
    requires Landed(before - Under(before, s), after, map p | p in before && s <= p :: before[p], Under(before, s), s, t)
    ensures after == Relocated(before, s, t)
  {
    forall q ensures q in after <==> q in Relocated(before, s, t)
             ensures q in after ==> after[q] == Relocated(before, s, t)[q]
    {
      RelocatedAt(before, s, t, q);
      if t <= q {
        var o := s + q[|t|..];
        assert q == t + o[|s|..];
        assert o in before ==> o in Under(before, s);
      }
    }
  }

  ghost function FilesOf(n: Nodes, cs: seq<Path>): set<Path> {
    set c, q | c in cs && q in FilesAt(n, c) :: q
  }

  lemma OwnFile(n: Nodes, p: Path)
    requires Tree(n) && p in n && n[p].File?
    ensures FilesAt(n, p) == {p} && Lists([p], FilesAt(n, p))
  {
    FileHasNothingBeneath(n, p);
    forall q | q in FilesAt(n, p) ensures q == p { assert p == q || p < q; }
  }

  lemma ListedChildren(n: Nodes, p: Path)
    requires Tree(n)
    ensures Lists(InOrder(Children(n, p)), Children(n, p))
  {
    TreeNormal(n, Children(n, p));
    InOrderFacts(Children(n, p));
  }

  lemma ListedChild(n: Nodes, p: Path, entries: seq<Path>, i: nat)
    requires i < |entries| && Lists(entries, Children(n, p))
    ensures entries[i] in n && p < entries[i]
  {
    assert entries[i] in entries;
  }

  lemma NoFiles(n: Nodes, entries: seq<Path>)
    ensures Lists([], FilesOf(n, entries[..0]))
  {
  }

  lemma Narrower(n: Nodes, p: Path, c: Path)
    requires c in n && p < c
    ensures Beneath(n, c) < Beneath(n, p)
  {
    var lower, upper := Beneath(n, c), Beneath(n, p);
    assert c in upper && c !in lower;
    forall q | q in lower ensures q in upper { assert q[..|p|] == c[..|p|]; }
  }

  lemma NewFiles(n: Nodes, p: Path, entries: seq<Path>, i: nat, output: seq<Path>, out: seq<Path>)
    requires i < |entries| && Lists(entries, Children(n, p))
    requires |output| <= |out| && out[..|output|] == output && Lists(out[|output|..], FilesOf(n, entries[..i]))
    requires forall q :: q in output ==> q !in FilesAt(n, p)
    ensures forall q :: q in out ==> q !in FilesAt(n, entries[i])
  {
    var c := entries[i];
    assert c in Children(n, p);
    forall q | q in out ensures q !in FilesAt(n, c) {
      assert out == out[..|output|] + out[|output|..];
      if q in out[|output|..] {
        assert q in FilesOf(n, entries[..i]);
        var d :| d in entries[..i] && q in FilesAt(n, d);
        var j :| 0 <= j < i && entries[j] == d;
        assert d in entries;
        ChildrenApart(n, p, d, c);
      } else {
        assert q in output;
        assert q in FilesAt(n, c) ==> q in FilesAt(n, p);
      }
    }
  }

  lemma MoreFiles(n: Nodes, p: Path, entries: seq<Path>, i: nat, a: seq<Path>, b: seq<Path>)
    requires i < |entries| && Lists(entries, Children(n, p))
    requires Lists(a, FilesOf(n, entries[..i])) && Lists(b, FilesAt(n, entries[i]))
    ensures Lists(a + b, FilesOf(n, entries[..i + 1]))
  {
    forall q ensures q in a + b <==> q in FilesOf(n, entries[..i + 1]) {
      assert entries[..i + 1] == entries[..i] + [entries[i]];
      if q in FilesOf(n, entries[..i + 1]) {
        var c :| c in entries[..i + 1] && q in FilesAt(n, c);
        if c in entries[..i] { assert q in FilesOf(n, entries[..i]); }
      }
      if q in b { assert entries[i] in entries[..i + 1]; }
      if q in a {
        var c :| c in entries[..i] && q in FilesAt(n, c);
        assert c in entries[..i + 1];
      }
    }
    forall j, k | 0 <= j < |a| && 0 <= k < |b| ensures a[j] != b[k] {
      assert a[j] in a && b[k] in b;
      var c :| c in entries[..i] && a[j] in FilesAt(n, c);
      var x :| 0 <= x < i && entries[x] == c;
      assert entries[x] in entries && entries[i] in entries;
      ChildrenApart(n, p, entries[x], entries[i]);
    }
  }

  lemma AllFiles(n: Nodes, p: Path, entries: seq<Path>)
    requires Tree(n) && IsDir(n, p) && Lists(entries, Children(n, p))
    ensures FilesOf(n, entries) == FilesAt(n, p)
  {
    forall q ensures q in FilesOf(n, entries) <==> q in FilesAt(n, p) {
      FilesThroughChildren(n, p, q);
    }
  }
}
