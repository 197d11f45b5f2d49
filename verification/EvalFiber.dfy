/**
 `EvalFiber`: the object that drives the machine, suspends on promises and is resumed.

 The accept loop of core/rust/src/fiber.rs runs until the evaluation ends or waits; it need
 not terminate, so methods that run it take a ghost bound on the steps it makes.
 */
module EvalFibers {
  import opened Optional
  import opened Results
  import opened FiberSyntax
  import opened FiberMachine
  import opened FiberRuns
  import opened FiberDirect
  import opened FiberAdequacy

  datatype FiberState = Running | Suspended | Completed(v: Value) | Failed(e: string) | Cancelled {
    predicate Terminal() { Completed? || Failed? || Cancelled? }
  }

  /** Only values and errors reach the fiber's own continuation: see `RunProgram`. */
  function Finish(o: Outcome): FiberState {
    match o
    case Val(v) => Completed(v)
    case Thrown(e) => Failed(e)
    case _ => Failed("no value")
  }

  function Advancer(h: Host): Config -> Config { c => Advance(h, c) }

  /** Where the accept loop stops when it stops within `n` steps. */
  function Settled(h: Host, c: Config, n: nat): Config { Iterate(Advancer(h), c, n) }

  predicate Ended(c: Config) { c.ctl.Ret? && c.k.Bottom? }

  lemma {:induction false} StoppedStays(h: Host, c: Config, n: nat)
    requires Stopped(c)
    ensures Settled(h, c, n) == c
    decreases n
  {
    if n > 0 { StoppedStays(h, c, n - 1); }
  }

  lemma {:induction false} EndedStays(h: Host, q: Answers, c: Config, n: nat)
    requires Ended(c)
    ensures Iterate(Stepper(h, q), c, n) == c
    decreases n
  {
    if n > 0 { EndedStays(h, q, c, n - 1); }
  }

  /** A run that ends splits into its silent part up to the first stop, and the rest. */
  lemma {:induction false} UpToStop(h: Host, q: Answers, c: Config, n: nat) returns (m: nat)
    requires Ended(Iterate(Stepper(h, q), c, n))
    ensures m <= n && Stopped(Settled(h, c, m))
    ensures Iterate(Stepper(h, q), Settled(h, c, m), n - m) == Iterate(Stepper(h, q), c, n)
    decreases n
  {
    hide Step, FiberMachine.Resume, Settle;
    if Stopped(c) || n == 0 {
      m := 0;
    } else {
      assert Stepper(h, q)(c) == Advance(h, c);
      m := UpToStop(h, q, Advance(h, c), n - 1);
      m := m + 1;
    }
  }

  class EvalFiber {
    const h: Host
    const root: EnvId
    var w: World
    var pending: Option<Promise>
    var resume: Option<Config>
    var state: FiberState

    /** Suspended holds exactly when both a pending promise and a continuation are stored. */
    ghost predicate Valid()
      reads this
    {
      && (state.Suspended? <==> pending.Some? && resume.Some?)
      && (pending.Some? <==> resume.Some?)
      && (resume.Some? ==> resume.value.ctl.Wait? && resume.value.ctl.promise == pending.value && resume.value.w == w)
    }

    /** The fiber stands where the machine stands in the stopped configuration `c`. */
    ghost predicate StandsAt(c: Config)
      reads this
    {
      && Stopped(c) && w == c.w
      && (c.ctl.Wait? ==> state == Suspended && pending == Some(c.ctl.promise) && resume == Some(c))
      && (c.ctl.Ret? ==> state == Finish(c.ctl.outcome) && pending == None && resume == None)
    }

    constructor StartForms(h: Host, forms: seq<Form>, env: Env, w0: World, ghost n: nat)
      requires Stopped(Settled(h, Config(Run(Forms(forms, 0, Nil, w0.nextEnv)), Bottom, Alloc(w0, env)), n))
      ensures Valid() && this.h == h && root == w0.nextEnv
      ensures StandsAt(Settled(h, Config(Run(Forms(forms, 0, Nil, w0.nextEnv)), Bottom, Alloc(w0, env)), n))
    {
      this.h := h;
      root := w0.nextEnv;
      w := Alloc(w0, env);
      pending, resume, state := None, None, Running;
      new;
      Accept(Config(Run(Forms(forms, 0, Nil, root)), Bottom, w), n);
    }

    method Accept(start: Config, ghost n: nat)
      requires state == Running && pending == None && resume == None
      requires Stopped(Settled(h, start, n))
      modifies this
      ensures Valid() && StandsAt(Settled(h, start, n))
    {
      hide Step, FiberMachine.Resume;
      var c := start;
      ghost var left: nat := n;
      while !Stopped(c)
        invariant Settled(h, c, left) == Settled(h, start, n)
        invariant state == Running && pending == None && resume == None
        decreases left
      {
        c := Advance(h, c);
        left := left - 1;
      }
      StoppedStays(h, c, left);
      w := c.w;
      match c.ctl
      case Ret(o) => state := Finish(o);
      case Wait(p, _) =>
        pending := Some(p);
        resume := Some(c);
        state := Suspended;
    }

    /** A fiber that is not suspended ignores the answer; otherwise it runs on from its continuation. */
    method Resume(answer: PromiseState, ghost n: nat) returns (s: FiberState)
      requires Valid()
      requires state.Suspended? ==> Stopped(Settled(h, Settle(h, resume.value, answer), n))
      modifies this
      ensures Valid() && s == state
      ensures !old(state.Suspended?) ==> state == old(state) && w == old(w) && pending == old(pending) && resume == old(resume)
      ensures old(state.Suspended?) ==> StandsAt(Settled(h, Settle(h, old(resume).value, answer), n))
    {
      if !state.Suspended? { return state; }
      var c := Settle(h, resume.value, answer);
      resume, pending, state := None, None, Running;
      Accept(c, n);
      s := state;
    }

    /** Cancelling notifies the pending promise and is final; a finished fiber cannot be cancelled. */
    method Cancel() returns (cancelled: bool, notified: Option<Promise>)
      requires Valid()
      modifies this
      ensures Valid() && cancelled == !old(state.Terminal()) && w == old(w)
      ensures cancelled ==> state == Cancelled && pending == None && resume == None && notified == old(pending)
      ensures !cancelled ==> state == old(state) && pending == old(pending) && resume == old(resume) && notified == None
    {
      notified := None;
      if state.Terminal() { return false, None; }
      notified := pending;
      pending, resume, state := None, None, Cancelled;
      cancelled := true;
    }

    /** What is left of the run, started from the stored continuation. */
    ghost function Rest(q: Answers, n: nat): Config
      requires Valid() && state.Suspended?
      reads this
    {
      Iterate(Stepper(h, q), resume.value, n)
    }

    /**
     Waits for each pending promise in turn and resumes with the state it settles in.
     However many times that happens, the fiber ends where the uninterrupted run ends.
     */
    method DriveSync(q: Answers, ghost n: nat) returns (r: Res<Value>)
      requires Valid() && state != Running
      requires state.Suspended? ==> Ended(Rest(q, n))
      modifies this
      ensures Valid() && state.Terminal()
      ensures old(state.Terminal()) ==> state == old(state) && w == old(w)
      ensures old(state.Suspended?) ==>
                state == Finish(old(Rest(q, n)).ctl.outcome) && w == old(Rest(q, n)).w
      ensures r == match state case Completed(v) => Ok(v) case Failed(e) => Err(e) case _ => Err("eval cancelled")
    {
      hide Step, FiberMachine.Resume;
      ghost var left: nat := n;
      while state.Suspended?
        invariant Valid() && state != Running
        invariant old(state.Terminal()) ==> state == old(state) && w == old(w)
        invariant state.Suspended? ==> old(state.Suspended?) && Ended(Rest(q, left)) && Rest(q, left) == old(Rest(q, n))
        invariant old(state.Suspended?) && !state.Suspended? ==>
                    state == Finish(old(Rest(q, n)).ctl.outcome) && w == old(Rest(q, n)).w && state.Terminal()
        decreases if state.Suspended? then left + 1 else 0
      {
        var c := resume.value;
        var answer := q(w.answered, pending.value);
        assert left > 0;
        assert Stepper(h, q)(c) == Settle(h, c, answer);
        ghost var m := UpToStop(h, q, Settle(h, c, answer), left - 1);
        ghost var stop := Settled(h, Settle(h, c, answer), m);
        var s := Resume(answer, m);
        left := left - 1 - m;
        if !state.Suspended? { EndedStays(h, q, stop, left); }
      }
      match state
      case Completed(v) => r := Ok(v);
      case Failed(e) => r := Err(e);
      case _ => r := Err("eval cancelled");
    }
  }

  /**
   Suspension is transparent.  If evaluating the program directly, each await answering at once
   with the state `q` gives, ends with a result and a world, then starting a fiber and resuming
   it with those states, however often it suspends, ends with that result and that world.
   */
  method RunProgram(h: Host, forms: seq<Form>, env: Env, w0: World, q: Answers, ghost fuel: nat)
    returns (r: Res<Value>, fiber: EvalFiber)
    requires EvalForms(h, q, fuel, forms, Nil, w0.nextEnv, Alloc(w0, env)).Done?
    ensures fiber.Valid() && fiber.state.Terminal()
    ensures Done(r, fiber.w) == EvalForms(h, q, fuel, forms, Nil, w0.nextEnv, Alloc(w0, env))
  {
    hide Step, FiberMachine.Resume, EvalForms, Settle;
    ghost var out := EvalForms(h, q, fuel, forms, Nil, w0.nextEnv, Alloc(w0, env));
    ghost var o := EndV(out).o;
    ghost var c := Config(Run(Forms(forms, 0, Nil, w0.nextEnv)), Bottom, Alloc(w0, env));
    assert ProgramEnds(h, q, fuel, forms, w0.nextEnv, Alloc(w0, env), o, out.w);
    ProgramIffDirect(h, q, forms, w0.nextEnv, Bottom, Alloc(w0, env), o, out.w);
    ghost var n: nat :| MachineCalls(h, q, Forms(forms, 0, Nil, w0.nextEnv), Bottom, Alloc(w0, env), n, o, out.w);
    ReturnsAt(Stepper(h, q), c, Bottom, n, o, out.w, n);
    ghost var m := UpToStop(h, q, c, n);
    fiber := new EvalFiber.StartForms(h, forms, env, w0, m);
    ghost var stop := Settled(h, c, m);
    if Ended(stop) { EndedStays(h, q, stop, n - m); }
    r := fiber.DriveSync(q, n - m);
  }
}
