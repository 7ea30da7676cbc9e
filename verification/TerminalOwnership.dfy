/** Which thread may restore the terminal: a registry counts the claims of lifecycle guards, and lets
    one thread at a time hold any. */
module TerminalOwnership {
  import opened Numbers
  import opened Wrappers

  type ThreadId = nat

  datatype ClaimError = CountOverflowed | OwnedByAnotherThread

  datatype Registry = Registry(owner: Option<ThreadId>, claimCount: nat)

  const UNCLAIMED := Registry(None, 0)

  function ClaimFor(registry: Registry, thread: ThreadId): Result<Registry, ClaimError> {
    match registry.owner
    case None => Ok(Registry(Some(thread), 1))
    case Some(owner) =>
      if owner != thread then Err(OwnedByAnotherThread)
      else if registry.claimCount >= USIZE_MAX then Err(CountOverflowed)
      else Ok(registry.(claimCount := registry.claimCount + 1))
  }

  function ReleaseFor(registry: Registry, owner: ThreadId): Registry {
    if registry.owner != Some(owner) || registry.claimCount == 0 then registry
    else if registry.claimCount == 1 then Registry(None, 0)
    else registry.(claimCount := registry.claimCount - 1)
  }

  class TerminalPanicRestoreRegistry {
    var owner: Option<ThreadId>
    var claimCount: nat

    function View(): Registry
      reads this
    {
      Registry(owner, claimCount)
    }

    constructor ()
      ensures View() == UNCLAIMED
    {
      owner, claimCount := None, 0;
    }

    method ClaimCurrentThread(currentThread: ThreadId) returns (result: Result<ThreadId, ClaimError>)
      modifies this
      ensures match ClaimFor(old(View()), currentThread)
              case Ok(registry) => result == Ok(currentThread) && View() == registry
              case Err(error) => result == Err(error) && View() == old(View())
    {
      match owner {
        case None =>
          owner, claimCount := Some(currentThread), 1;
        case Some(thread) =>
          if thread != currentThread { return Err(OwnedByAnotherThread); }
          if claimCount >= USIZE_MAX { return Err(CountOverflowed); }
          claimCount := claimCount + 1;
      }
      result := Ok(currentThread);
    }

    method Release(claimant: ThreadId)
      modifies this
      ensures View() == ReleaseFor(old(View()), claimant)
    {
      if owner != Some(claimant) || claimCount == 0 { return; }
      claimCount := claimCount - 1;
      if claimCount == 0 {
        owner := None;
      }
    }
  }

  // ----- what a guard does around every call -----

  function EnsureClaim(registry: Registry, claim: Option<ThreadId>, thread: ThreadId)
    : Result<(Registry, Option<ThreadId>), ClaimError>
  {
    if claim.Some? then Ok((registry, claim))
    else match ClaimFor(registry, thread)
      case Ok(claimed) => Ok((claimed, Some(thread)))
      case Err(error) => Err(error)
  }

  function DropClaim(registry: Registry, claim: Option<ThreadId>): Registry {
    if claim.Some? then ReleaseFor(registry, claim.value) else registry
  }

  function SyncClaim(registry: Registry, claim: Option<ThreadId>, owes: bool): (Registry, Option<ThreadId>) {
    if owes then (registry, claim) else (DropClaim(registry, claim), None)
  }

  // ----- guards on many threads -----

  /** Inside a call a guard may add obligations only if the call began by making sure of a claim. */
  datatype Phase = Idle | Busy(mayAdd: bool) | Gone

  datatype Guard = Guard(thread: ThreadId, claim: Option<ThreadId>, owes: bool, phase: Phase)

  datatype World = World(registry: Registry, guards: seq<Guard>)

  /** Claiming, operating on the terminal and releasing are separate steps, so that calls of different
      threads interleave freely. */
  datatype Step =
    | NewGuard(thread: ThreadId)
    | Enter(g: nat, mayAdd: bool)
    | Operate(g: nat, owes: bool)
    | Leave(g: nat)
    | DropGuard(g: nat)

  function EnterCall(w: World, g: nat, mayAdd: bool): World
    requires g < |w.guards|
  {
    var guard := w.guards[g];
    if !mayAdd && !guard.owes then w.(guards := w.guards[g := guard.(phase := Busy(false))])
    else match EnsureClaim(w.registry, guard.claim, guard.thread)
      case Ok((registry, claim)) =>
        World(registry, w.guards[g := guard.(claim := claim, phase := Busy(mayAdd))])
      case Err(_) => w
  }

  function LeaveCall(w: World, g: nat): World
    requires g < |w.guards|
  {
    var guard := w.guards[g];
    var (registry, claim) := SyncClaim(w.registry, guard.claim, guard.owes);
    World(registry, w.guards[g := guard.(claim := claim, phase := Idle)])
  }

  function Take(w: World, step: Step): World {
    match step
    case NewGuard(thread) => w.(guards := w.guards + [Guard(thread, None, false, Idle)])
    case Enter(g, mayAdd) =>
      if g < |w.guards| && w.guards[g].phase.Idle? then EnterCall(w, g, mayAdd) else w
    case Operate(g, owes) =>
      if g < |w.guards| && w.guards[g].phase.Busy? && (w.guards[g].phase.mayAdd || (owes ==> w.guards[g].owes))
      then w.(guards := w.guards[g := w.guards[g].(owes := owes)]) else w
    case Leave(g) =>
      if g < |w.guards| && w.guards[g].phase.Busy? then LeaveCall(w, g) else w
    case DropGuard(g) =>
      if g < |w.guards| && w.guards[g].phase.Idle?
      then World(DropClaim(w.registry, w.guards[g].claim), w.guards[g := w.guards[g].(claim := None, phase := Gone)])
      else w
  }

  function TakeAll(steps: seq<Step>): World {
    if steps == [] then World(UNCLAIMED, [])
    else Take(TakeAll(steps[..|steps| - 1]), steps[|steps| - 1])
  }

  // ----- the invariant -----

  function ClaimsOf(guard: Guard): nat {
    if guard.claim.Some? then 1 else 0
  }

  function LiveClaims(guards: seq<Guard>): nat {
    if guards == [] then 0 else LiveClaims(guards[..|guards| - 1]) + ClaimsOf(guards[|guards| - 1])
  }

  ghost predicate GuardSound(registry: Registry, guard: Guard) {
    && (guard.claim.Some? ==> guard.claim == Some(guard.thread) && registry.owner == Some(guard.thread))
    && match guard.phase
       case Idle => guard.claim.Some? <==> guard.owes
       case Busy(mayAdd) => (mayAdd || guard.owes ==> guard.claim.Some?)
       case Gone => guard.claim.None?
  }

  ghost predicate Sound(w: World) {
    && w.registry.claimCount == LiveClaims(w.guards)
    && (w.registry.owner.None? <==> w.registry.claimCount == 0)
    && forall g :: 0 <= g < |w.guards| ==> GuardSound(w.registry, w.guards[g])
  }

  // ----- counting -----

  lemma {:induction false} LiveClaimsAfter(guards: seq<Guard>, g: nat, guard: Guard)
    requires g < |guards|
    ensures LiveClaims(guards[g := guard]) + ClaimsOf(guards[g]) == LiveClaims(guards) + ClaimsOf(guard)
  {
    var n := |guards| - 1;
    if g == n {
      assert guards[g := guard][..n] == guards[..n];
    } else {
      assert guards[g := guard][..n] == guards[..n][g := guard];
      LiveClaimsAfter(guards[..n], g, guard);
    }
  }

  lemma {:induction false} NoClaimsLeft(guards: seq<Guard>, g: nat)
    requires LiveClaims(guards) == 0 && g < |guards|
    ensures guards[g].claim.None?
  {
    if g < |guards| - 1 {
      NoClaimsLeft(guards[..|guards| - 1], g);
    }
  }

  // ----- every step keeps the invariant -----

  lemma EnterKeepsSound(w: World, g: nat, mayAdd: bool)
    requires Sound(w) && g < |w.guards| && w.guards[g].phase.Idle?
    ensures Sound(EnterCall(w, g, mayAdd))
  {
    var w' := EnterCall(w, g, mayAdd);
    assert GuardSound(w.registry, w.guards[g]);
    LiveClaimsAfter(w.guards, g, w'.guards[g]);
    forall h | 0 <= h < |w'.guards|
      ensures GuardSound(w'.registry, w'.guards[h])
    {
      assert GuardSound(w.registry, w.guards[h]);
      if w.registry.claimCount == 0 { NoClaimsLeft(w.guards, h); }
    }
  }

  /** Giving up a claim keeps every other guard sound. */
  lemma ReleaseKeepsSound(w: World, g: nat, guard: Guard)
    requires Sound(w) && g < |w.guards|
    requires guard.claim.None? && (guard.phase.Gone? || (guard.phase.Idle? && !guard.owes))
    ensures Sound(World(DropClaim(w.registry, w.guards[g].claim), w.guards[g := guard]))
  {
    var w' := World(DropClaim(w.registry, w.guards[g].claim), w.guards[g := guard]);
    assert GuardSound(w.registry, w.guards[g]);
    LiveClaimsAfter(w.guards, g, guard);
    forall h | 0 <= h < |w'.guards|
      ensures GuardSound(w'.registry, w'.guards[h])
    {
      assert GuardSound(w.registry, w.guards[h]);
      if w'.registry.claimCount == 0 { NoClaimsLeft(w'.guards, h); }
    }
  }

  lemma StepKeepsSound(w: World, step: Step)
    requires Sound(w)
    ensures Sound(Take(w, step))
  {
    var w' := Take(w, step);
    match step
    case NewGuard(thread) =>
      assert w'.guards[..|w'.guards| - 1] == w.guards;
    case Enter(g, mayAdd) =>
      if g < |w.guards| && w.guards[g].phase.Idle? { EnterKeepsSound(w, g, mayAdd); }
    case Operate(g, owes) =>
      if w' != w {
        LiveClaimsAfter(w.guards, g, w'.guards[g]);
        assert GuardSound(w.registry, w.guards[g]);
      }
    case Leave(g) =>
      if g < |w.guards| && w.guards[g].phase.Busy? {
        var guard := w.guards[g];
        assert GuardSound(w.registry, guard);
        if guard.owes {
          LiveClaimsAfter(w.guards, g, w'.guards[g]);
        } else {
          ReleaseKeepsSound(w, g, guard.(claim := None, phase := Idle));
        }
      }
    case DropGuard(g) =>
      if g < |w.guards| && w.guards[g].phase.Idle? {
        ReleaseKeepsSound(w, g, w.guards[g].(claim := None, phase := Gone));
      }
  }

  lemma {:induction false} AllRunsAreSound(steps: seq<Step>)
    ensures Sound(TakeAll(steps))
  {
    if steps != [] {
      AllRunsAreSound(steps[..|steps| - 1]);
      StepKeepsSound(TakeAll(steps[..|steps| - 1]), steps[|steps| - 1]);
    }
  }

  ghost predicate OwesRestore(guard: Guard) {
    !guard.phase.Gone? && guard.owes
  }

  /** Ownership over all interleavings: the registry counts the live claims, and all of them are of the
      one recorded owner, each on the thread of its guard; between its calls a guard holds a claim exactly
      when it owes a restore; a live guard that owes one is on the owner thread, so that no two threads owe
      restores at once and the owner may restore after a panic. */
  lemma OwnershipIsExclusive(steps: seq<Step>)
    ensures var w := TakeAll(steps);
      && w.registry.claimCount == LiveClaims(w.guards)
      && (forall guard :: guard in w.guards && guard.claim.Some? ==>
            guard.claim == Some(guard.thread) == w.registry.owner)
      && (forall g :: 0 <= g < |w.guards| && w.guards[g].phase.Idle? ==>
            (w.guards[g].claim.Some? <==> w.guards[g].owes))
      && (forall guard :: guard in w.guards && OwesRestore(guard) ==> w.registry.owner == Some(guard.thread))
      && (forall a, b :: a in w.guards && b in w.guards && OwesRestore(a) && OwesRestore(b) ==> a.thread == b.thread)
  {
    AllRunsAreSound(steps);
    var w := TakeAll(steps);
    forall guard | guard in w.guards
      ensures GuardSound(w.registry, guard)
    {
    }
  }

  /** Another thread is turned away exactly while some claim is alive; the owner's claims nest up to the
      largest count; and a claim that is granted makes the thread the owner of one more. */
  lemma RefusedWhileClaimed(steps: seq<Step>, thread: ThreadId)
    ensures var registry, live := TakeAll(steps).registry, LiveClaims(TakeAll(steps).guards);
      ClaimFor(registry, thread)
      == if live > 0 && registry.owner != Some(thread) then Err(OwnedByAnotherThread)
         else if live > 0 && live >= USIZE_MAX then Err(CountOverflowed)
         else Ok(Registry(Some(thread), live + 1))
  {
    AllRunsAreSound(steps);
  }
}
