/**
 Logical paths (core/rust/src/file.rs).

 A normalised path is kept as its list of segments; `Render` is the text the provider
 stores, and the lemmas say that tests on that text are tests on segments.
 */
module LogicalPaths {
  import opened Results
  import opened Ordering
  import opened Splitting

  datatype FileError =
    | NotFound | AlreadyExists | InvalidPath | OutsideRoot | Denied | NotDirectory
    | IsDirectory | DirectoryNotEmpty | Exhausted
  type Res<+T> = Result<T, FileError>

  type Path = seq<string>

  predicate Alphabetic(c: char) { 'a' <= c <= 'z' || 'A' <= c <= 'Z' }

  predicate DrivePrefix(s: string) { |s| >= 2 && Alphabetic(s[0]) && s[1] == ':' }

  predicate Forbidden(s: string) { '\0' in s || '\\' in s }

  /** A segment that survives normalisation. */
  predicate Segment(s: string) {
    s != "" && s != "." && s != ".." && '/' !in s && !Forbidden(s) && !DrivePrefix(s)
  }

  predicate Normal(p: Path) { forall s :: s in p ==> Segment(s) }

  /** What one piece does to the stack of segments. */
  function Fold(stack: Path, piece: string): Res<Path> {
    if piece == "" || piece == "." then Ok(stack)
    else if piece == ".." then (if stack == [] then Err(OutsideRoot) else Ok(stack[..|stack| - 1]))
    else if DrivePrefix(piece) then Err(InvalidPath)
    else Ok(stack + [piece])
  }

  function FoldAll(stack: Path, pieces: seq<string>): Res<Path>
    decreases |pieces|
  {
    if pieces == [] then Ok(stack)
    else
      var next :- Fold(stack, pieces[0]);
      FoldAll(next, pieces[1..])
  }

  function Normalised(s: string): Res<Path> {
    if Forbidden(s) then Err(InvalidPath) else FoldAll([], Split(s, '/'))
  }

  function Render(p: Path): string { if p == [] then "/" else Joined(p) }

  function Joined(p: Path): string { if p == [] then "" else "/" + p[0] + Joined(p[1..]) }

  function TrimStart(s: string): string { if s != "" && s[0] == '/' then TrimStart(s[1..]) else s }
  function TrimEnd(s: string): string { if s != "" && s[|s| - 1] == '/' then TrimEnd(s[..|s| - 1]) else s }

  function Join(base: string, path: string): Res<Path> {
    var b :- Normalised(base);
    Normalised(TrimEnd(Render(b)) + "/" + TrimStart(path))
  }

  function Resolve(base: string, path: string): Res<Path> {
    if path != "" && path[0] == '/' then Normalised(path) else Join(base, path)
  }

  function Parent(p: Path): Path
    requires p != []
  {
    p[..|p| - 1]
  }

  /** The loop of `logical_normalise`. */
  method Normalise(s: string) returns (r: Res<Path>)
    ensures r == Normalised(s)
  {
    if Forbidden(s) { return Err(InvalidPath); }
    var pieces := Split(s, '/');
    var segments: Path := [];
    var i := 0;
    assert pieces[0..] == pieces;
    while i < |pieces|
      invariant 0 <= i <= |pieces|
      invariant FoldAll([], pieces) == FoldAll(segments, pieces[i..])
    {
      assert pieces[i..][1..] == pieces[i + 1..];
      var piece := pieces[i];
      if piece == "" || piece == "." {
      } else if piece == ".." {
        if segments == [] { return Err(OutsideRoot); }
        segments := segments[..|segments| - 1];
      } else if DrivePrefix(piece) {
        return Err(InvalidPath);
      } else {
        segments := segments + [piece];
      }
      i := i + 1;
    }
    r := Ok(segments);
  }

  // ----- normalisation yields normal paths, and fixes them -----

  lemma {:induction false} PiecesOf(s: string)
    requires !Forbidden(s)
    ensures forall piece :: piece in Split(s, '/') ==> '/' !in piece && !Forbidden(piece)
    decreases |s|
  {
    if s != "" {
      PiecesOf(s[1..]);
      var rest := Split(s[1..], '/');
      assert rest[0] in rest;
      assert s[0] in s;
    }
  }

  lemma {:induction false} FoldKeepsNormal(stack: Path, pieces: seq<string>)
    requires Normal(stack) && forall piece :: piece in pieces ==> '/' !in piece && !Forbidden(piece)
    ensures FoldAll(stack, pieces).Ok? ==> Normal(FoldAll(stack, pieces).value)
    decreases |pieces|
  {
    if pieces != [] {
      assert pieces[0] in pieces;
      var next := Fold(stack, pieces[0]);
      if next.Ok? { FoldKeepsNormal(next.value, pieces[1..]); }
    }
  }

  lemma NormalisedIsNormal(s: string)
    requires Normalised(s).Ok?
    ensures Normal(Normalised(s).value)
  {
    PiecesOf(s);
    FoldKeepsNormal([], Split(s, '/'));
  }

  // ----- what normalisation keeps -----

  predicate Names(piece: string) { piece != "" && piece != "." && piece != ".." }

  function Climb(piece: string): int { if piece == ".." then -1 else if Names(piece) then 1 else 0 }

  lemma FoldStep(stack: Path, piece: string)
    requires !DrivePrefix(piece)
    ensures var r := Fold(stack, piece);
            && (r.Ok? <==> |stack| + Climb(piece) >= 0) && (r.Err? ==> r == Err(OutsideRoot))
            && (r.Ok? ==> |r.value| == |stack| + Climb(piece))
            && (r.Ok? ==> if Climb(piece) > 0 then Names(piece) && r.value == stack + [piece] else r.value <= stack)
  {
  }

  /** How far below the root the first `k` pieces lead. */
  function Height(pieces: seq<string>, k: nat): int
    requires k <= |pieces|
  {
    if k == 0 then 0
    else Height(pieces, k - 1) + Climb(pieces[k - 1])
  }

  lemma HeightStep(pieces: seq<string>, k: nat)
    requires k < |pieces|
    ensures Height(pieces, k + 1) == Height(pieces, k) + Climb(pieces[k])
  {
  }

  /** Piece `j` is segment `i` of what the first `k` pieces lead to: it is entered at that depth and not left again. */
  ghost predicate Kept(pieces: seq<string>, k: nat, j: nat, i: nat)
    requires k <= |pieces|
  {
    j < k && Names(pieces[j]) && Height(pieces, j) == i && forall l :: j < l <= k ==> Height(pieces, l) > i
  }

  /** Some prefix of the pieces goes up more often than down. */
  ghost predicate Escapes(pieces: seq<string>) { exists l :: 0 <= l <= |pieces| && Height(pieces, l) < 0 }

  /** Segment `i` of what the first `k` pieces lead to is `s`. */
  ghost predicate SegmentAt(pieces: seq<string>, k: nat, i: nat, s: string)
    requires k <= |pieces|
  {
    exists j: nat :: Kept(pieces, k, j, i) && s == pieces[j]
  }

  ghost predicate Leads(pieces: seq<string>, k: nat, stack: Path)
    requires k <= |pieces|
  {
    && |stack| == Height(pieces, k)
    && (forall i :: 0 <= i < |stack| ==> SegmentAt(pieces, k, i, stack[i]))
    && (forall l :: 0 <= l <= k ==> Height(pieces, l) >= 0)
  }

  lemma SegmentStays(pieces: seq<string>, k: nat, i: nat, s: string)
    requires k < |pieces| && SegmentAt(pieces, k, i, s) && i < Height(pieces, k + 1)
    ensures SegmentAt(pieces, k + 1, i, s)
  {
    hide Height, Names;
    var j: nat :| Kept(pieces, k, j, i) && s == pieces[j];
    assert Kept(pieces, k + 1, j, i);
  }

  lemma SegmentEntered(pieces: seq<string>, k: nat)
    requires k < |pieces| && Names(pieces[k]) && Height(pieces, k) >= 0
    ensures SegmentAt(pieces, k + 1, Height(pieces, k), pieces[k])
  {
    assert Climb(pieces[k]) == 1;
    hide Height, Names, Climb;
    HeightStep(pieces, k);
    assert Kept(pieces, k + 1, k, Height(pieces, k));
  }

  lemma OnePiece(pieces: seq<string>, k: nat, stack: Path)
    requires k < |pieces| && Leads(pieces, k, stack) && !DrivePrefix(pieces[k])
    ensures Fold(stack, pieces[k]).Ok? <==> Height(pieces, k + 1) >= 0
    ensures Fold(stack, pieces[k]).Ok? ==> Leads(pieces, k + 1, Fold(stack, pieces[k]).value)
    ensures Fold(stack, pieces[k]).Err? ==> Fold(stack, pieces[k]) == Err(OutsideRoot)
  {
    hide Height, Fold, Names, SegmentAt, Climb, DrivePrefix;
    var r := Fold(stack, pieces[k]);
    HeightStep(pieces, k);
    FoldStep(stack, pieces[k]);
    if r.Ok? {
      forall i | 0 <= i < |r.value| ensures SegmentAt(pieces, k + 1, i, r.value[i]) {
        if i < |stack| { SegmentStays(pieces, k, i, stack[i]); } else { SegmentEntered(pieces, k); }
      }
    }
  }

  lemma {:induction false} FoldLeads(pieces: seq<string>, k: nat, stack: Path)
    requires k <= |pieces| && Leads(pieces, k, stack) && forall piece :: piece in pieces ==> !DrivePrefix(piece)
    ensures var r := FoldAll(stack, pieces[k..]);
            && (r.Ok? ==> Leads(pieces, |pieces|, r.value) && !Escapes(pieces))
            && (r.Err? ==> r.error == OutsideRoot && Escapes(pieces))
    decreases |pieces| - k
  {
    if k < |pieces| {
      assert pieces[k..][0] == pieces[k] && pieces[k..][1..] == pieces[k + 1..];
      assert pieces[k] in pieces;
      OnePiece(pieces, k, stack);
      assert Fold(stack, pieces[k]).Err? ==> Escapes(pieces);
      hide Fold, Leads, Escapes;
      var next := Fold(stack, pieces[k]);
      if next.Ok? { FoldLeads(pieces, k + 1, next.value); }
    } else {
      assert pieces[k..] == [];
    }
  }

  /**
   Normalisation, on the pieces between slashes: it is refused as leaving the root exactly when
   some prefix of the pieces goes up more often than down; otherwise segment `i` is the last piece
   entered at depth `i` and not left again.
   */
  lemma NormalisedLeads(s: string)
    requires !Forbidden(s) && forall piece :: piece in Split(s, '/') ==> !DrivePrefix(piece)
    ensures var pieces, r := Split(s, '/'), Normalised(s);
            && (r.Err? ==> r.error == OutsideRoot)
            && (r.Err? <==> Escapes(pieces))
            && (r.Ok? ==> |r.value| == Height(pieces, |pieces|)
                          && forall i :: 0 <= i < |r.value| ==> SegmentAt(pieces, |pieces|, i, r.value[i]))
  {
    var pieces := Split(s, '/');
    assert pieces[0..] == pieces && Height(pieces, 0) == 0;
    hide Height, Fold, SegmentAt, Split, FoldAll;
    FoldLeads(pieces, 0, []);
    var r := Normalised(s);
    assert r == FoldAll([], pieces[0..]);
  }

  /** Text with a NUL or a backslash is refused, and so is a piece that begins like a drive letter. */
  lemma TextRefused(s: string)
    ensures '\0' in s || '\\' in s ==> Normalised(s) == Err(InvalidPath)
    ensures (exists piece :: piece in Split(s, '/') && |piece| >= 2 && piece[1] == ':'
                             && ('a' <= piece[0] <= 'z' || 'A' <= piece[0] <= 'Z')) ==> Normalised(s).Err?
  {
    if Normalised(s).Ok? { NoDrives([], Split(s, '/')); }
  }

  lemma {:induction false} NoDrives(stack: Path, pieces: seq<string>)
    requires FoldAll(stack, pieces).Ok?
    ensures forall piece :: piece in pieces ==> !DrivePrefix(piece)
    decreases |pieces|
  {
    if pieces != [] {
      NoDrives(Fold(stack, pieces[0]).value, pieces[1..]);
      assert pieces == [pieces[0]] + pieces[1..];
    }
  }

  lemma ConsCancel(a: seq<string>, b: seq<string>)
    requires [""] + a == [""] + b
    ensures a == b
  {
    assert ([""] + a)[1..] == a && ([""] + b)[1..] == b;
  }

  lemma {:induction false} SplitJoined(p: Path)
    requires forall s :: s in p ==> '/' !in s
    ensures Split(Joined(p), '/') == [""] + p
    decreases |p|
  {
    if p != [] {
      var front, seg := p[..|p| - 1], p[|p| - 1];
      assert p == front + [seg] && seg in p;
      SplitJoined(front);
      SplitSegment(seg, '/');
      JoinedSnoc(front, seg);
      hide Split, Joined;
      SplitAppend(Joined(front), seg, '/');
    }
  }

  lemma {:induction false} FoldSegments(stack: Path, p: Path)
    requires Normal(p)
    ensures FoldAll(stack, p) == Ok(stack + p)
    decreases |p|
  {
    if p == [] {
      assert stack + p == stack;
    } else {
      assert p[0] in p;
      assert Normal(p[1..]) by { assert forall s :: s in p[1..] ==> s in p; }
      FoldSegments(stack + [p[0]], p[1..]);
      assert stack + [p[0]] + p[1..] == stack + p;
    }
  }

  lemma {:induction false} JoinedAllowed(p: Path)
    requires Normal(p)
    ensures !Forbidden(Joined(p))
    decreases |p|
  {
    if p != [] {
      assert p[0] in p;
      assert Normal(p[1..]) by { assert forall s :: s in p[1..] ==> s in p; }
      JoinedAllowed(p[1..]);
    }
  }

  /** Every stored key is a fixed point of normalisation. */
  lemma RenderedIsFixed(p: Path)
    requires Normal(p)
    ensures Normalised(Render(p)) == Ok(p)
  {
    if p == [] {
      assert Split("/", '/') == ["", ""];
      assert FoldAll([], ["", ""]) == FoldAll([], ["", ""][1..]);
      assert FoldAll([], [""]) == FoldAll([], [""][1..]);
      assert ["", ""][1..] == [""] && [""][1..] == [];
    } else {
      JoinedAllowed(p);
      SplitJoined(p);
      assert ([""] + p)[1..] == p;
      FoldSegments([], p);
      assert [] + p == p;
    }
  }

  lemma RenderInjective(p: Path, q: Path)
    requires Normal(p) && Normal(q) && Render(p) == Render(q)
    ensures p == q
  {
    RenderedIsFixed(p);
    RenderedIsFixed(q);
  }

  // ----- tests on text are tests on segments -----

  lemma {:induction false} JoinedConcat(p: Path, q: Path)
    ensures Joined(p + q) == Joined(p) + Joined(q)
    decreases |p|
  {
    if p == [] {
      assert p + q == q;
    } else {
      assert (p + q)[1..] == p[1..] + q;
      JoinedConcat(p[1..], q);
    }
  }

  /** What the text of everything beneath `p` starts with; the root's own text already ends in '/'. */
  function PrefixOf(p: Path): string { if p == [] then "/" else Render(p) + "/" }

  lemma PrefixJoined(p: Path)
    ensures PrefixOf(p) == Joined(p) + "/"
  {
  }

  /** The text of a path strictly beneath `p`: the prefix, its next segment, and the rest. */
  lemma BeneathParts(p: Path, q: Path)
    requires p < q
    ensures Render(q) == PrefixOf(p) + (q[|p|] + Joined(q[|p| + 1..]))
  {
    var rest := q[|p|..];
    assert q == p + rest && rest[0] == q[|p|] && rest[1..] == q[|p| + 1..];
    JoinedConcat(p, rest);
    assert Joined(rest) == "/" + rest[0] + Joined(rest[1..]);
    PrefixJoined(p);
    hide Joined;
    assert Joined(p) + ("/" + rest[0] + Joined(rest[1..])) == Joined(p) + "/" + (rest[0] + Joined(rest[1..]));
  }

  /** A candidate other than `path` starts with its prefix exactly when it lies strictly beneath it, the root included. */
  lemma BeneathText(p: Path, q: Path)
    requires Normal(p) && Normal(q)
    ensures q != p && PrefixOf(p) <= Render(q) <==> p < q
    ensures p != [] ==> (Render(p) + "/" <= Render(q) <==> p < q)
  {
    if p < q { BeneathParts(p, q); }
    if p != [] && Render(p) + "/" <= Render(q) { OnlyBeneath(p, q); }
    hide Joined, Normal;
  }

  lemma OnlyBeneath(p: Path, q: Path)
    requires Normal(p) && Normal(q) && p != [] && Render(p) + "/" <= Render(q)
    ensures p < q
  {
    var rest := Render(q)[|Joined(p)| + 1..];
    assert Render(q) == Joined(p) + "/" + rest;
    hide Joined, Split;
    SplitAppend(Joined(p), rest, '/');
    SplitJoined(p);
    BeneathSplit(p, q, Split(rest, '/'));
  }

  /** Beneath `p`, a remainder without a further '/' is the test for its direct entries. */
  lemma ChildText(p: Path, q: Path)
    requires Normal(q) && p < q
    ensures PrefixOf(p) <= Render(q)
    ensures var remainder := Render(q)[|PrefixOf(p)|..];
            remainder != "" && ('/' !in remainder <==> |q| == |p| + 1)
  {
    BeneathParts(p, q);
    var more := q[|p| + 1..];
    assert q[|p|] in q;
    assert more != [] ==> Joined(more)[0] == '/';
    assert Render(q)[|PrefixOf(p)|..] == q[|p|] + Joined(more);
  }

  /** Putting the source's remainder behind the target's text renames the path. */
  lemma SuffixText(s: Path, t: Path, q: Path)
    requires s != [] && t != [] && s <= q
    ensures Render(s) <= Render(q)
    ensures Render(t + q[|s|..]) == Render(t) + Render(q)[|Render(s)|..]
  {
    var rest := q[|s|..];
    assert q == s + rest;
    JoinedConcat(s, rest);
    JoinedConcat(t, rest);
  }

  lemma BeneathSplit(p: Path, q: Path, more: seq<string>)
    requires Normal(q) && p != [] && more != [] && Split(Render(q), '/') == [""] + p + more
    ensures p < q
  {
    assert Split("/", '/') == ["", ""] && |[""] + p + more| >= 3;
    SplitJoined(q);
    assert [""] + p + more == [""] + (p + more);
    ConsCancel(q, p + more);
  }

  /** Joining one segment to a directory, as parent creation does, appends it. */
  lemma ResolveSegment(p: Path, seg: string)
    requires Normal(p) && Segment(seg)
    ensures Resolve(Render(p), seg) == Ok(p + [seg])
  {
    RenderedIsFixed(p);
    assert seg[0] in seg;
    assert TrimStart(seg) == seg;
    TrimRendered(p);
    JoinedSnoc(p, seg);
    assert Normal(p + [seg]);
    hide Joined, Normal, Normalised, TrimStart, TrimEnd;
    RenderedIsFixed(p + [seg]);
  }

  lemma JoinedSnoc(p: Path, seg: string)
    ensures Joined(p + [seg]) == Joined(p) + "/" + seg
  {
    JoinedConcat(p, [seg]);
    assert Joined([seg]) == "/" + seg + Joined([seg][1..]);
    assert Joined([seg]) == "/" + seg;
    hide Joined;
  }

  lemma {:induction false} JoinedEnds(p: Path)
    requires Normal(p) && p != []
    ensures Joined(p) != "" && Joined(p)[|Joined(p)| - 1] != '/'
    decreases |p|
  {
    assert p[0] in p;
    assert p[0][|p[0]| - 1] in p[0];
    if |p| > 1 {
      assert Normal(p[1..]) by { assert forall s :: s in p[1..] ==> s in p; }
      JoinedEnds(p[1..]);
    } else {
      assert Joined(p) == "/" + p[0];
    }
  }

  lemma TrimRendered(p: Path)
    requires Normal(p)
    ensures TrimEnd(Render(p)) == Joined(p)
  {
    if p == [] {
      assert TrimEnd("/") == TrimEnd("/"[..0]);
    } else {
      JoinedEnds(p);
    }
  }

  /** Keys are listed in the order of their text. */
  function Keyed(p: Path): (Key, Path) { (Codes(Render(p)), p) }

  lemma KeyedInjective(p: Path, q: Path)
    requires Normal(p) && Normal(q) && Keyed(p).0 == Keyed(q).0
    ensures p == q
  {
    CodesInjective(Render(p), Render(q));
    RenderInjective(p, q);
  }
}
