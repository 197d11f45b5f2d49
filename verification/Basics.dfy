/** What several models share: optional values, results, bytes, sequences, split text, words, powers of two and graphs. */
module Optional {
  datatype Option<+T> = None | Some(value: T)
}

module Results {
  datatype Result<+T, +E> = Ok(value: T) | Err(error: E) {
    predicate IsFailure() { Err? }
    function PropagateFailure<U>(): Result<U, E>
      requires Err?
    {
      Err(error)
    }
    function Extract(): T
      requires Ok?
    {
      value
    }
  }
}

module ByteStrings {
  type byte = b: int | 0 <= b < 256
  type Bytes = seq<byte>
  const U32: nat := 0x1_0000_0000

  /** Whether bytes are valid UTF-8 is the host library's business. */
  type Utf8 = Bytes -> bool

  /** Big-endian, `k` bytes. */
  function BigEndian(n: nat, k: nat): (s: Bytes)
    ensures |s| == k
  {
    if k == 0 then [] else BigEndian(n / 256, k - 1) + [n % 256]
  }

  function FromBigEndian(s: Bytes): nat {
    if s == [] then 0 else FromBigEndian(s[..|s| - 1]) * 256 + s[|s| - 1]
  }

  function Power256(k: nat): nat { if k == 0 then 1 else Power256(k - 1) * 256 }

  lemma {:induction false} BigEndianRoundTrip(n: nat, k: nat)
    requires n < Power256(k)
    ensures FromBigEndian(BigEndian(n, k)) == n
  {
    if k > 0 {
      var s := BigEndian(n, k);
      assert s[..|s| - 1] == BigEndian(n / 256, k - 1);
      BigEndianRoundTrip(n / 256, k - 1);
    }
  }

  /** A 32-bit length on the wire, most significant byte first. */
  lemma FourBytes(n: nat)
    requires n < U32
    ensures BigEndian(n, 4) == [n / 0x100_0000, n / 0x1_0000 % 256, n / 0x100 % 256, n % 256]
  {
    assert BigEndian(n, 4) == BigEndian(n / 256, 3) + [n % 256];
    assert BigEndian(n / 256, 3) == BigEndian(n / 256 / 256, 2) + [n / 256 % 256];
    assert BigEndian(n / 256 / 256, 2) == BigEndian(n / 256 / 256 / 256, 1) + [n / 256 / 256 % 256];
    assert BigEndian(n / 256 / 256 / 256, 1) == BigEndian(0, 0) + [n / 256 / 256 / 256 % 256];
  }

  /** A value read from the front of some bytes and the bytes left, or why there is none. */
  datatype Reading<+T, +E> = Got(value: T, rest: Bytes) | Bad(error: E) {
    predicate IsFailure() { Bad? }
    function PropagateFailure<U>(): Reading<U, E>
      requires Bad?
    {
      Bad(error)
    }
    function Extract(): (T, Bytes)
      requires Got?
    {
      (value, rest)
    }
  }

  /** The first `n` bytes, or `short` when there are fewer. */
  function Front<E>(s: Bytes, n: nat, short: E): Reading<Bytes, E> {
    if n <= |s| then Got(s[..n], s[n..]) else Bad(short)
  }
}

/** Sequences: distinctness, the maps they list, and the regrouping of concatenations that readers and printers bracket differently. */
module Sequences {
  ghost predicate Distinct<T>(s: seq<T>) {
    forall i, j :: 0 <= i < j < |s| ==> s[i] != s[j]
  }

  ghost predicate DistinctFirsts<K, V>(s: seq<(K, V)>) {
    forall i, j :: 0 <= i < j < |s| ==> s[i].0 != s[j].0
  }

  /** Of several pairs with the same first part the last counts. */
  function MapOf<K(==), V>(pairs: seq<(K, V)>): map<K, V> {
    if pairs == [] then map[] else MapOf(pairs[..|pairs| - 1])[pairs[|pairs| - 1].0 := pairs[|pairs| - 1].1]
  }

  lemma Joined<T>(a: seq<T>, b: seq<T>, c: seq<T>)
    ensures a + b + c == a + (b + c)
  {
  }

  lemma JoinedFour<T>(a: seq<T>, b: seq<T>, c: seq<T>, d: seq<T>)
    ensures a + b + c + d == a + (b + (c + d)) == a + (b + c + d)
  {
    assert a + b + c + d == a + b + (c + d);
    Joined(b, c, d);
  }

  lemma JoinedFive<T>(a: seq<T>, b: seq<T>, c: seq<T>, d: seq<T>, e: seq<T>)
    ensures a + b + c + d + e == a + (b + (c + (d + e)))
  {
    Joined(a + b + c, d, e);
    JoinedFour(a, b, c, d + e);
  }
}

/** Text in pieces between marks, such as the segments of a path or a namespace. */
module Splitting {
  /** Splits at every `mark`; the pieces are never none. */
  function Split(s: string, mark: char): (pieces: seq<string>)
    ensures pieces != []
  {
    if s == "" then [""]
    else if s[0] == mark then [""] + Split(s[1..], mark)
    else
      var rest := Split(s[1..], mark);
      [[s[0]] + rest[0]] + rest[1..]
  }

  function Attach(c: char, pieces: seq<string>, mark: char): seq<string>
    requires pieces != []
  {
    if c == mark then [""] + pieces else [[c] + pieces[0]] + pieces[1..]
  }

  lemma SplitCons(c: char, s: string, mark: char)
    ensures Split([c] + s, mark) == Attach(c, Split(s, mark), mark)
  {
    assert ([c] + s)[1..] == s;
  }

  lemma HeadAppend(c: char, a: seq<string>, b: seq<string>, mark: char)
    requires a != []
    ensures Attach(c, a + b, mark) == Attach(c, a, mark) + b
  {
    assert (a + b)[1..] == a[1..] + b;
  }

  /** Splitting goes through every mark. */
  lemma {:induction false} SplitAppend(a: string, b: string, mark: char)
    ensures Split(a + [mark] + b, mark) == Split(a, mark) + Split(b, mark)
    decreases |a|
  {
    if a == "" {
      assert a + [mark] + b == [mark] + b;
      SplitCons(mark, b, mark);
    } else {
      SplitAppend(a[1..], b, mark);
      SplitCons(a[0], a[1..] + [mark] + b, mark);
      SplitCons(a[0], a[1..], mark);
      hide Split, Attach;
      HeadAppend(a[0], Split(a[1..], mark), Split(b, mark), mark);
      assert a + [mark] + b == [a[0]] + (a[1..] + [mark] + b) && a == [a[0]] + a[1..];
    }
  }

  lemma {:induction false} SplitSegment(s: string, mark: char)
    requires mark !in s
    ensures Split(s, mark) == [s]
    decreases |s|
  {
    if s != "" {
      assert s[0] in s;
      SplitSegment(s[1..], mark);
      assert s == [s[0]] + s[1..];
    }
  }

  /** Text is determined by its pieces. */
  lemma {:induction false} SplitInjective(a: string, b: string, mark: char)
    requires Split(a, mark) == Split(b, mark)
    ensures a == b
    decreases |a|
  {
    if a != "" { SplitNonEmpty(a, mark); }
    if b != "" { SplitNonEmpty(b, mark); }
    assert a != "" ==> a == [a[0]] + a[1..];
    assert b != "" ==> b == [b[0]] + b[1..];
    if a != "" && b != "" {
      var p, q := Split(a[1..], mark), Split(b[1..], mark);
      SplitCons(a[0], a[1..], mark);
      SplitCons(b[0], b[1..], mark);
      assert a[0] == b[0] && p == q by { AttachInjective(a[0], p, b[0], q, mark); }
      SplitInjective(a[1..], b[1..], mark);
    }
  }

  lemma SplitNonEmpty(s: string, mark: char)
    requires s != ""
    ensures Split(s, mark) != [""]
  {
    var rest := Split(s[1..], mark);
    assert |[""] + rest| > 1 && ([[s[0]] + rest[0]] + rest[1..])[0] != "";
  }

  lemma AttachInjective(c: char, p: seq<string>, d: char, q: seq<string>, mark: char)
    requires p != [] && q != [] && Attach(c, p, mark) == Attach(d, q, mark)
    ensures c == d && p == q
  {
    var s, t := Attach(c, p, mark), Attach(d, q, mark);
    if c == mark {
      assert s[0] == "" && s[1..] == p;
      assert t[1..] == q;
    } else {
      assert s[0] == [c] + p[0] && s[1..] == p[1..];
      assert d != mark && t[0] == [d] + q[0] && t[1..] == q[1..];
      assert s[0][0] == c && s[0][1..] == p[0] && t[0][0] == d && t[0][1..] == q[0];
      assert p == [p[0]] + p[1..] && q == [q[0]] + q[1..];
    }
  }
}

/** Values of fixed width. */
module Words {
  predicate FitsLong(n: int) { -0x8000_0000_0000_0000 <= n < 0x8000_0000_0000_0000 }

  /** A hexadecimal digit in lower case. */
  function HexDigit(n: int): char
    requires 0 <= n < 16
  {
    "0123456789abcdef"[n]
  }

  /** The Unicode scalar values: code points that are not surrogates. */
  predicate Scalar(n: int) { 0 <= n < 0xD800 || 0xE000 <= n < 0x11_0000 }

  /** The exponent field of a double, given as its bits. */
  function ExponentBits(bits: nat): nat { bits / 0x10_0000_0000_0000 % 0x800 }

  /** All exponent bits set means infinity or not-a-number. */
  predicate Finite(bits: nat) { ExponentBits(bits) != 0x7ff }
}

module Powers {
  function Pow2(n: nat): (p: nat)
    ensures p > 0
  {
    if n == 0 then 1 else 2 * Pow2(n - 1)
  }

  lemma {:induction false} Pow2Sum(a: nat, b: nat)
    ensures Pow2(a + b) == Pow2(a) * Pow2(b)
    decreases a
  {
    if a > 0 {
      Pow2Sum(a - 1, b);
      assert Pow2(a + b) == 2 * (Pow2(a - 1) * Pow2(b));
    }
  }

  lemma Pow2Seven(n: nat)
    ensures Pow2(n + 7) == 128 * Pow2(n)
  {
    assert Pow2(n + 2) == 4 * Pow2(n);
    assert Pow2(n + 4) == 4 * Pow2(n + 2);
    assert Pow2(n + 6) == 4 * Pow2(n + 4);
  }

  lemma {:induction false} Pow2Grows(a: nat, b: nat)
    requires a <= b
    ensures Pow2(a) <= Pow2(b)
    decreases b - a
  {
    if a < b { Pow2Grows(a + 1, b); }
  }
}

/** Reachability along the edges of a graph. */
module Graphs {
  /** A walk along edges, given as the vertices it visits. */
  ghost predicate Walk<T>(edges: iset<(T, T)>, p: seq<T>) {
    p != [] && forall i :: 0 <= i < |p| - 1 ==> (p[i], p[i + 1]) in edges
  }

  ghost predicate Leads<T>(edges: iset<(T, T)>, p: seq<T>, a: T, b: T) {
    Walk(edges, p) && p[0] == a && p[|p| - 1] == b
  }

  ghost predicate Reachable<T(!new)>(edges: iset<(T, T)>, a: T, b: T) { exists p :: Leads(edges, p, a, b) }

  lemma ReachesSelf<T(!new)>(edges: iset<(T, T)>, a: T)
    ensures Reachable(edges, a, a)
  {
    assert Leads(edges, [a], a, a);
  }

  lemma ReachesOn<T(!new)>(edges: iset<(T, T)>, a: T, b: T, c: T)
    requires (a, b) in edges && Reachable(edges, b, c)
    ensures Reachable(edges, a, c)
  {
    var p :| Leads(edges, p, b, c);
    var q := [a] + p;
    forall i | 0 <= i < |q| - 1 ensures (q[i], q[i + 1]) in edges {
      if i > 0 { assert (p[i - 1], p[i - 1 + 1]) in edges; }
    }
    assert Leads(edges, q, a, c);
  }

  /** All but the first vertex of a walk are a walk. */
  lemma WalkOn<T>(edges: iset<(T, T)>, p: seq<T>)
    requires Walk(edges, p) && |p| > 1
    ensures (p[0], p[1]) in edges && Walk(edges, p[1..])
  {
    assert (p[0], p[0 + 1]) in edges;
    forall i | 0 <= i < |p[1..]| - 1 ensures (p[1..][i], p[1..][i + 1]) in edges {
      assert (p[i + 1], p[i + 1 + 1]) in edges;
    }
  }
}
