/**
 What each operation of the memory filesystem leaves behind when it succeeds, exactly when it
 succeeds, and which error it gives otherwise, all in terms of the nodes before it.
 */
module MemoryEffects {
  import opened Results
  import opened Words
  import opened Splitting
  import opened LogicalPaths
  import opened MemoryTree

  /** A directory strictly between the root and `p`. */
  predicate Between(q: Path, p: Path) { q != [] && q < p }

  lemma AboveMeans(p: Path, q: Path)
    requires p != []
    ensures q in Above(p) <==> Between(q, p)
  {
    if Between(q, p) { assert q == p[..|q|]; }
  }

  /** The parent of `p` is there, or can be made: nothing between it and the root is a file. */
  ghost predicate Room(n: Nodes, p: Path, parents: bool) {
    p != [] && if parents then forall q :: Between(q, p) && q in n ==> n[q].Directory? else IsDir(n, Parent(p))
  }

  /** Why there is no room. */
  function NoRoom(n: Nodes, p: Path, parents: bool): FileError
    requires p != []
  {
    if !parents && Parent(p) !in n then NotFound else NotDirectory
  }

  /** The nodes but for `p` itself: those before it as they were, and with `parents` on every directory above it. */
  ghost predicate Around(n: Nodes, m: Nodes, p: Path, parents: bool) {
    forall q :: q != p ==>
      && (q in n ==> q in m && m[q] == n[q])
      && (q in m && q !in n ==> parents && Between(q, p) && m[q] == Directory)
      && (parents && Between(q, p) ==> q in m)
  }

  lemma RoomMeans(n: Nodes, p: Path, parents: bool)
    requires p != []
    ensures var e := EnsureParent(n, p, parents);
            && e.result == (if Room(n, p, parents) then Ok(p) else Err(NoRoom(n, p, parents)))
            && (Room(n, p, parents) ==> Around(n, e.nodes, p, parents) && (p in e.nodes <==> p in n) && (p in n ==> e.nodes[p] == n[p]))
            && (!Room(n, p, parents) ==> e.nodes == n)
  {
    forall q ensures q in Above(p) <==> Between(q, p) { AboveMeans(p, q); }
    hide Above;
  }

  // ----- write -----

  ghost predicate CanWrite(n: Nodes, p: Path, mode: WriteMode, parents: bool) {
    Room(n, p, parents) && !IsDir(n, p) && (mode == Create ==> p !in n)
  }

  lemma WriteOutcome(n: Nodes, p: Path, bytes: seq<int>, mode: WriteMode, parents: bool)
    ensures WriteAt(n, p, bytes, mode, parents).result ==
            if CanWrite(n, p, mode, parents) then Ok(p)
            else if p == [] then Err(IsDirectory)
            else if !Room(n, p, parents) then Err(NoRoom(n, p, parents))
            else if IsDir(n, p) then Err(IsDirectory)
            else Err(AlreadyExists)
  {
    assert p == [] ==> !Room(n, p, parents);
    hide EnsureParent, Room, Around;
    if p != [] { RoomMeans(n, p, parents); }
  }

  /**
   A successful write: appended to an existing file, the content is the old bytes followed by the
   new ones; otherwise it is exactly the new bytes.  Every other node is as before, and the only
   other new ones are directories above it, with `parents` on.
   */
  lemma WriteLeaves(n: Nodes, p: Path, bytes: seq<int>, mode: WriteMode, parents: bool)
    requires WriteAt(n, p, bytes, mode, parents).result.Ok?
    ensures var m := WriteAt(n, p, bytes, mode, parents).nodes;
            && Around(n, m, p, parents) && p in m && m[p].File?
            && (mode == Append && p in n ==>
                  && n[p].File? && |m[p].bytes| == |n[p].bytes| + |bytes|
                  && n[p].bytes <= m[p].bytes && m[p].bytes[|n[p].bytes|..] == bytes)
            && (mode != Append || p !in n ==> m[p].bytes == bytes)
  {
    RoomMeans(n, p, parents);
    hide EnsureParent, Room;
  }

  // ----- mkdir -----

  lemma MkdirOutcome(n: Nodes, p: Path, parents: bool, existsOk: bool)
    requires Tree(n)
    ensures MkdirAt(n, p, parents, existsOk).result ==
            if p in n then (if IsDir(n, p) && existsOk then Ok(p) else Err(AlreadyExists))
            else if Room(n, p, parents) then Ok(p)
            else Err(NoRoom(n, p, parents))
  {
    hide EnsureParent, Room, Around;
    if p !in n { RoomMeans(n, p, parents); }
  }

  /** A successful mkdir leaves what was there, and otherwise a new directory and, with `parents` on, those above it. */
  lemma MkdirLeaves(n: Nodes, p: Path, parents: bool, existsOk: bool)
    requires Tree(n) && MkdirAt(n, p, parents, existsOk).result.Ok?
    ensures var m := MkdirAt(n, p, parents, existsOk).nodes;
            IsDir(m, p) && (if p in n then m == n else Around(n, m, p, parents))
  {
    hide EnsureParent, Room;
    if p !in n { RoomMeans(n, p, parents); }
  }

  // ----- delete -----

  lemma DeleteOutcome(n: Nodes, p: Path, missingOk: bool)
    requires Tree(n)
    ensures DeleteAt(n, p, missingOk).result ==
            if p == [] then Err(Denied)
            else if p !in n then (if missingOk then Ok(p) else Err(NotFound))
            else if exists q :: q in n && p < q then Err(DirectoryNotEmpty)
            else Ok(p)
  {
    if p in n && n[p].File? { FileHasNothingBeneath(n, p); }
  }

  /** A successful delete leaves exactly the other nodes. */
  lemma DeleteLeaves(n: Nodes, p: Path, missingOk: bool, q: Path)
    requires DeleteAt(n, p, missingOk).result.Ok?
    ensures var m := DeleteAt(n, p, missingOk).nodes;
            (q in m <==> q in n && q != p) && (q in m ==> m[q] == n[q])
  {
  }

  // ----- copy -----

  lemma CopyOutcome(n: Nodes, s: Path, t: Path, replace: bool, parents: bool)
    ensures CopyAt(n, s, t, replace, parents).result ==
            if s == t then Err(AlreadyExists)
            else if s !in n then Err(NotFound)
            else if IsDir(n, s) then Err(IsDirectory)
            else if t == [] then Err(IsDirectory)
            else if !Room(n, t, parents) then Err(NoRoom(n, t, parents))
            else if IsDir(n, t) then Err(IsDirectory)
            else if t in n && !replace then Err(AlreadyExists)
            else Ok(t)
  {
    assert t == [] ==> !Room(n, t, parents);
    hide WriteAt, Room;
    if s != t && s in n && n[s].File? { WriteOutcome(n, t, n[s].bytes, if replace then Replace else Create, parents); }
  }

  /** A successful copy leaves the same bytes at both places and every other node as before. */
  lemma CopyLeaves(n: Nodes, s: Path, t: Path, replace: bool, parents: bool)
    requires CopyAt(n, s, t, replace, parents).result.Ok?
    ensures var m := CopyAt(n, s, t, replace, parents).nodes;
            s in n && n[s].File? && t in m && m[t] == n[s] && s in m && m[s] == n[s] && Around(n, m, t, parents)
  {
    hide WriteAt;
    WriteLeaves(n, t, n[s].bytes, if replace then Replace else Create, parents);
  }

  // ----- move -----

  /** Which moves succeed, and why the others do not. */
  lemma MoveOutcome(n: Nodes, s: Path, t: Path, replace: bool, parents: bool)
    requires Tree(n)
    ensures MoveAt(n, s, t, replace, parents).result ==
            if s == [] || t == [] then Err(Denied)
            else if s == t then (if s in n then Ok(t) else Err(NotFound))
            else if s < t then Err(InvalidPath)
            else if !Room(n, t, parents) then Err(NoRoom(n, t, parents))
            else if s !in n then Err(NotFound)
            else if t in n && !replace then Err(AlreadyExists)
            else if exists q :: q in n && t < q then Err(DirectoryNotEmpty)
            else Ok(t)
  {
    if s != [] && t != [] && s != t && !(s < t) {
      RoomMeans(n, t, parents);
      var e := EnsureParent(n, t, parents).nodes;
      hide EnsureParent;
      if Room(n, t, parents) {
        assert s in e <==> s in n;
        assert HasBeneath(e, t) <==> HasBeneath(n, t) by {
          if q :| q in e && t < q { assert !Between(q, t); assert q in n; }
        }
        if !IsDir(n, t) { FileHasNothingBeneath(n, t); }
      }
    }
  }

  // ----- temporary names -----

  lemma HexDigitInjective(a: int, b: int)
    requires 0 <= a < 16 && 0 <= b < 16 && HexDigit(a) == HexDigit(b)
    ensures a == b
  {
  }

  lemma HexEnds(n: nat, width: nat)
    requires width > 0 || n > 0
    ensures Hex(n, width) == Hex(n / 16, if width == 0 then 0 else width - 1) + [HexDigit(n % 16)]
  {
  }

  lemma {:induction false} HexInjective(a: nat, b: nat, width: nat)
    requires Hex(a, width) == Hex(b, width)
    ensures a == b
    decreases width, a
  {
    if width > 0 || (a > 0 && b > 0) {
      var rest := if width == 0 then 0 else width - 1;
      HexEnds(a, width);
      HexEnds(b, width);
      hide Hex, HexDigit;
      var s, t, x, y := Hex(a / 16, rest), Hex(b / 16, rest), HexDigit(a % 16), HexDigit(b % 16);
      assert (s + [x])[|s|] == x && (t + [y])[|t|] == y && |s| == |t|;
      assert (s + [x])[..|s|] == s && (t + [y])[..|t|] == t;
      HexDigitInjective(a % 16, b % 16);
      HexInjective(a / 16, b / 16, rest);
    }
  }

  /** Temporary names differ when their numbers do. */
  lemma TempNamesDiffer(prefix: string, suffix: string, a: nat, b: nat)
    requires TempName(prefix, a, suffix) == TempName(prefix, b, suffix)
    ensures a == b
  {
    hide Hex;
    var s, t, k := TempName(prefix, a, suffix), TempName(prefix, b, suffix), |prefix| + 1;
    assert s[k..|s| - |suffix|] == Hex(a, 16) && t[k..|t| - |suffix|] == Hex(b, 16);
    HexInjective(a, b, 16);
  }

  /** The entry a temporary name with this number would be. */
  function Candidate(parent: string, prefix: string, sequence: nat, suffix: string): Res<Path> {
    Resolve(parent, TempName(prefix, sequence, suffix))
  }

  /** The names of the numbers from `sequence` to before `end` all stand for entries that exist. */
  ghost predicate AllTaken(n: Nodes, parent: string, prefix: string, suffix: string, sequence: nat, end: nat) {
    forall i :: sequence <= i < end ==> Taken(n, Candidate(parent, prefix, i, suffix))
  }

  predicate Taken(n: Nodes, r: Res<Path>) { r.Ok? && r.value in n }

  function TempEntry(n: Nodes, p: Path, directory: bool): Done {
    if directory then MkdirAt(n, p, false, false) else WriteAt(n, p, [], Create, false)
  }

  lemma TempEntryResult(n: Nodes, p: Path, directory: bool)
    requires Tree(n)
    ensures var r := TempEntry(n, p, directory).result;
            && (r == Err(AlreadyExists) ==> p in n) && r != Err(Exhausted) && (r.Ok? ==> r == Ok(p))
  {
    hide MkdirAt, WriteAt, Room;
    MkdirOutcome(n, p, false, false);
    WriteOutcome(n, p, [], Create, false);
  }

  lemma {:induction false} FoldErrors(stack: Path, pieces: seq<string>)
    ensures FoldAll(stack, pieces).Err? ==> FoldAll(stack, pieces).error in {OutsideRoot, InvalidPath}
    decreases |pieces|
  {
    if pieces != [] && Fold(stack, pieces[0]).Ok? { FoldErrors(Fold(stack, pieces[0]).value, pieces[1..]); }
  }

  lemma ResolveErrors(base: string, path: string)
    ensures Resolve(base, path) != Err(Exhausted)
  {
    hide FoldAll, Split, Forbidden;
    FoldErrors([], Split(path, '/'));
    FoldErrors([], Split(base, '/'));
    var b := Normalised(base);
    if b.Ok? { FoldErrors([], Split(TrimEnd(Render(b.value)) + "/" + TrimStart(path), '/')); }
  }

  lemma TempStep(n: Nodes, parent: string, prefix: string, suffix: string, directory: bool, sequence: nat, attempts: nat)
    requires attempts > 0
    ensures var r := Candidate(parent, prefix, sequence, suffix);
            TempAt(n, parent, prefix, suffix, directory, sequence, attempts) ==
            if r.Err? then Done(Err(r.error), n)
            else if TempEntry(n, r.value, directory).result == Err(AlreadyExists)
            then TempAt(n, parent, prefix, suffix, directory, sequence + 1, attempts - 1)
            else TempEntry(n, r.value, directory)
  {
    hide Resolve, TempName, MkdirAt, WriteAt;
  }

  /** A temporary entry takes the first number whose name is free; it is out of names only when all it may try are taken. */
  lemma {:induction false} TempFirstFree(n: Nodes, parent: string, prefix: string, suffix: string, directory: bool,
                                         sequence: nat, attempts: nat) returns (end: nat)
    requires Tree(n)
    ensures var r := TempAt(n, parent, prefix, suffix, directory, sequence, attempts).result;
            && sequence <= end <= sequence + attempts && AllTaken(n, parent, prefix, suffix, sequence, end)
            && (r.Ok? ==> end < sequence + attempts && Candidate(parent, prefix, end, suffix) == r)
            && (r == Err(Exhausted) ==> end == sequence + attempts)
    decreases attempts
  {
    hide Candidate, TempEntry, Tree, TempAt, Resolve, TempName;
    end := sequence;
    if attempts == 0 {
      NoMoreNames(n, parent, prefix, suffix, directory, sequence);
    } else {
      TempStep(n, parent, prefix, suffix, directory, sequence, attempts);
      CandidateErrors(parent, prefix, sequence, suffix);
      var r := Candidate(parent, prefix, sequence, suffix);
      if r.Ok? {
        TempEntryResult(n, r.value, directory);
        if TempEntry(n, r.value, directory).result == Err(AlreadyExists) {
          end := TempFirstFree(n, parent, prefix, suffix, directory, sequence + 1, attempts - 1);
        }
      }
    }
  }

  lemma NoMoreNames(n: Nodes, parent: string, prefix: string, suffix: string, directory: bool, sequence: nat)
    ensures TempAt(n, parent, prefix, suffix, directory, sequence, 0).result == Err(Exhausted)
  {
  }

  lemma CandidateErrors(parent: string, prefix: string, sequence: nat, suffix: string)
    ensures Candidate(parent, prefix, sequence, suffix) != Err(Exhausted)
  {
    hide Resolve, TempName;
    ResolveErrors(parent, TempName(prefix, sequence, suffix));
  }
}
