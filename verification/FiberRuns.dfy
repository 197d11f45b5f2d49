/**
 Runs of a step function over configurations, and how they compose.

 `Returns` says that a run from `c` calls the continuation `k` with an outcome after
 exactly `n` steps, never touching `k` or a frame below it before that moment.
 */
module FiberRuns {
  import opened Optional
  import opened Results
  import opened FiberSyntax
  import opened FiberMachine

  type Next = Config -> Config

  function Depth(k: Stack): nat {
    if k.Bottom? then 0 else 1 + Depth(k.rest)
  }

  predicate Extends(a: Stack, b: Stack) {
    a == b || (a.Push? && Extends(a.rest, b))
  }

  /** The run is still working above `k`: `k` is intact and has not been called. */
  predicate Inside(c: Config, k: Stack) {
    Extends(c.k, k) && !(c.ctl.Ret? && c.k == k)
  }

  predicate Returns(next: Next, c: Config, k: Stack, n: nat, o: Outcome, w: World)
    decreases n
  {
    if n == 0 then c == Config(Ret(o), k, w)
    else Inside(c, k) && Returns(next, next(c), k, n - 1, o, w)
  }

  predicate Stays(next: Next, c: Config, k: Stack, n: nat)
    decreases n
  {
    n == 0 || (Inside(c, k) && Stays(next, next(c), k, n - 1))
  }

  /** The run from `c` is at `d` after `n` steps, all of them spent above `k`. */
  predicate Reaches(next: Next, c: Config, k: Stack, n: nat, d: Config)
    decreases n
  {
    if n == 0 then c == d else Inside(c, k) && Reaches(next, next(c), k, n - 1, d)
  }

  function Iterate(next: Next, c: Config, n: nat): Config
    decreases n
  {
    if n == 0 then c else Iterate(next, next(c), n - 1)
  }

  /** How a direct evaluation ended: with an outcome, or out of fuel. */
  datatype End = Stop(o: Outcome, w: World) | OutOfFuel

  ghost predicate Meets(next: Next, end: End, c: Config, k: Stack, fuel: nat) {
    match end
    case Stop(o, w) => exists n: nat :: Returns(next, c, k, n, o, w)
    case OutOfFuel => Stays(next, c, k, fuel)
  }

  lemma {:induction false} ExtendsDepth(a: Stack, b: Stack)
    requires Extends(a, b)
    ensures Depth(b) <= Depth(a)
  {
    if a != b { ExtendsDepth(a.rest, b); }
  }

  lemma {:induction false} InsideLower(c: Config, f: Frame, k: Stack)
    requires Extends(c.k, Push(f, k))
    ensures Inside(c, k)
  {
    ExtendsDepth(c.k, Push(f, k));
    ExtendsTrans(c.k, Push(f, k), k);
  }

  lemma {:induction false} ExtendsTrans(a: Stack, b: Stack, c: Stack)
    requires Extends(a, b) && Extends(b, c)
    ensures Extends(a, c)
  {
    if a != b { ExtendsTrans(a.rest, b, c); }
  }

  /** Fewer steps of staying above `k` follow from more. */
  lemma {:induction false} StaysLess(next: Next, c: Config, k: Stack, n: nat, m: nat)
    requires m <= n && Stays(next, c, k, n)
    ensures Stays(next, c, k, m)
    decreases n
  {
    if m > 0 { StaysLess(next, next(c), k, n - 1, m - 1); }
  }

  lemma {:induction false} StaysLower(next: Next, c: Config, f: Frame, k: Stack, n: nat)
    requires Stays(next, c, Push(f, k), n)
    ensures Stays(next, c, k, n)
    decreases n
  {
    if n > 0 {
      InsideLower(c, f, k);
      StaysLower(next, next(c), f, k, n - 1);
    }
  }

  lemma {:induction false} ReturnsThrough(next: Next, c: Config, f: Frame, k: Stack, n: nat,
                                          o: Outcome, w: World, m: nat, o': Outcome, w': World)
    requires Returns(next, c, Push(f, k), n, o, w)
    requires Returns(next, next(Config(Ret(o), Push(f, k), w)), k, m, o', w')
    ensures Returns(next, c, k, n + 1 + m, o', w')
    decreases n
  {
    InsideLower(c, f, k);
    if n > 0 { ReturnsThrough(next, next(c), f, k, n - 1, o, w, m, o', w'); }
  }

  lemma {:induction false} StaysThrough(next: Next, c: Config, f: Frame, k: Stack, n: nat,
                                        o: Outcome, w: World, m: nat)
    requires Returns(next, c, Push(f, k), n, o, w)
    requires Stays(next, next(Config(Ret(o), Push(f, k), w)), k, m)
    ensures Stays(next, c, k, n + 1 + m)
    decreases n
  {
    InsideLower(c, f, k);
    if n > 0 { StaysThrough(next, next(c), f, k, n - 1, o, w, m); }
  }

  /** A call that passes its continuation on. */
  lemma {:induction false} MeetsStep(next: Next, end: End, c: Config, k: Stack, fuel: nat)
    requires Inside(c, k) && Meets(next, end, next(c), k, fuel)
    ensures Meets(next, end, c, k, fuel + 1)
  {
    if end.Stop? {
      var n: nat :| Returns(next, next(c), k, n, end.o, end.w);
      assert Returns(next, c, k, n + 1, end.o, end.w);
    }
  }

  /** A call whose continuation is a new frame: the frame is called once the callee ends. */
  lemma {:induction false} MeetsPush(next: Next, end: End, sub: End, c: Config, f: Frame, k: Stack, fuel: nat)
    requires Meets(next, sub, c, Push(f, k), fuel)
    requires sub.OutOfFuel? ==> end.OutOfFuel?
    requires sub.Stop? ==> Meets(next, end, next(Config(Ret(sub.o), Push(f, k), sub.w)), k, fuel)
    ensures Meets(next, end, c, k, fuel)
  {
    match sub
    case OutOfFuel => StaysLower(next, c, f, k, fuel);
    case Stop(o, w) =>
      var n: nat :| Returns(next, c, Push(f, k), n, o, w);
      if end.Stop? {
        var m: nat :| Returns(next, next(Config(Ret(o), Push(f, k), w)), k, m, end.o, end.w);
        ReturnsThrough(next, c, f, k, n, o, w, m, end.o, end.w);
      } else {
        StaysThrough(next, c, f, k, n, o, w, fuel);
        StaysLess(next, c, k, n + 1 + fuel, fuel);
      }
  }

  /** A run that has just called `k` has nothing left to do. */
  lemma MeetsNow(next: Next, o: Outcome, w: World, k: Stack, fuel: nat)
    ensures Meets(next, Stop(o, w), Config(Ret(o), k, w), k, fuel)
  {
    assert Returns(next, Config(Ret(o), k, w), k, 0, o, w);
  }

  lemma {:induction false} ReturnsAt(next: Next, c: Config, k: Stack, n: nat, o: Outcome, w: World, m: nat)
    requires Returns(next, c, k, n, o, w) && m <= n
    ensures m < n ==> Inside(Iterate(next, c, m), k)
    ensures m == n ==> Iterate(next, c, m) == Config(Ret(o), k, w)
    decreases n
  {
    if m > 0 { ReturnsAt(next, next(c), k, n - 1, o, w, m - 1); }
  }

  lemma {:induction false} ReturnsFrom(next: Next, c: Config, k: Stack, n: nat, o: Outcome, w: World)
    requires Iterate(next, c, n) == Config(Ret(o), k, w)
    requires forall m: nat :: m < n ==> Inside(Iterate(next, c, m), k)
    ensures Returns(next, c, k, n, o, w)
    decreases n
  {
    if n > 0 {
      assert Iterate(next, c, 0) == c;
      forall m: nat | m < n - 1 ensures Inside(Iterate(next, next(c), m), k) {
        assert Iterate(next, c, m + 1) == Iterate(next, next(c), m);
      }
      ReturnsFrom(next, next(c), k, n - 1, o, w);
    }
  }

  lemma {:induction false} ReachesThrough(next: Next, c: Config, f: Frame, k: Stack, n: nat, o: Outcome, w: World)
    requires Returns(next, c, Push(f, k), n, o, w)
    ensures Reaches(next, c, k, n + 1, next(Config(Ret(o), Push(f, k), w)))
    decreases n
  {
    InsideLower(c, f, k);
    if n > 0 { ReachesThrough(next, next(c), f, k, n - 1, o, w); }
  }

  /** A run that calls `k` after `n` steps does not stay above it for more than `n`. */
  lemma {:induction false} ReturnsNotStays(next: Next, c: Config, k: Stack, n: nat, o: Outcome, w: World, m: nat)
    requires Returns(next, c, k, n, o, w) && Stays(next, c, k, m)
    ensures m <= n
    decreases n
  {
    if n > 0 && m > 0 { ReturnsNotStays(next, next(c), k, n - 1, o, w, m - 1); }
  }

  /** The continuation is called at most once: a run has one first call and one outcome. */
  lemma {:induction false} ReturnsOnce(next: Next, c: Config, k: Stack, n: nat, o: Outcome, w: World,
                                       n': nat, o': Outcome, w': World)
    requires Returns(next, c, k, n, o, w) && Returns(next, c, k, n', o', w')
    ensures n == n' && o == o' && w == w'
    decreases n
  {
    if n > 0 && n' > 0 { ReturnsOnce(next, next(c), k, n - 1, o, w, n' - 1, o', w'); }
  }

  // ----- runs seen step by step -----

  lemma {:induction false} IterateSum(next: Next, c: Config, a: nat, b: nat)
    ensures Iterate(next, c, a + b) == Iterate(next, Iterate(next, c, a), b)
    decreases a
  {
    if a > 0 { IterateSum(next, next(c), a - 1, b); }
  }

  lemma {:induction false} ReachesIterates(next: Next, c: Config, k: Stack, n: nat, d: Config, m: nat)
    requires Reaches(next, c, k, n, d) && m <= n
    ensures Iterate(next, c, n) == d && (m < n ==> Inside(Iterate(next, c, m), k))
    decreases n
  {
    if n > 0 { ReachesIterates(next, next(c), k, n - 1, d, if m > 0 then m - 1 else 0); }
  }

  lemma {:induction false} ReachesAppend(next: Next, c: Config, k: Stack, n: nat, d: Config, m: nat, e: Config)
    requires Reaches(next, c, k, n, d) && Reaches(next, d, k, m, e)
    ensures Reaches(next, c, k, n + m, e)
    decreases n
  {
    if n > 0 { ReachesAppend(next, next(c), k, n - 1, d, m, e); }
  }

  /** For its first `n` steps the run stands strictly above `k`; then it is at `d`. */
  ghost predicate Descends(next: Next, c: Config, k: Stack, n: nat, d: Config) {
    Iterate(next, c, n) == d && forall m: nat :: m < n ==> Iterate(next, c, m).k != k
  }

  /** A run that calls a frame just above `k` stays strictly above `k` until that frame has been called. */
  lemma ReturnsDescends(next: Next, c: Config, f: Frame, k: Stack, n: nat, o: Outcome, w: World)
    requires Returns(next, c, Push(f, k), n, o, w)
    ensures Descends(next, c, k, n + 1, next(Config(Ret(o), Push(f, k), w)))
  {
    forall m: nat | m <= n ensures Iterate(next, c, m).k != k {
      ReturnsAt(next, c, Push(f, k), n, o, w, m);
      ExtendsDepth(Iterate(next, c, m).k, Push(f, k));
    }
    ReturnsAt(next, c, Push(f, k), n, o, w, n);
    IterateSum(next, c, n, 1);
    assert Iterate(next, Iterate(next, c, n), 1) == Iterate(next, next(Iterate(next, c, n)), 0);
  }

  lemma DescendsAppend(next: Next, c: Config, k: Stack, n: nat, d: Config, m: nat, e: Config)
    requires Descends(next, c, k, n, d) && Descends(next, d, k, m, e)
    ensures Descends(next, c, k, n + m, e)
  {
    IterateSum(next, c, n, m);
    forall j: nat | j < n + m ensures Iterate(next, c, j).k != k {
      if j >= n { IterateSum(next, c, n, j - n); }
    }
  }
}
