/**
  Export sessions (server.rs:307-461 over usb.rs:87-141). Clients compete for a busid through
  the shared `exports` map; each step below is one lock region or one fallible call of a
  session, in the order of `handle_import` and `handle_urb_loop`, and every early return
  through `?` is a step of its own. Any number of sessions interleave in any order.
 */
module Sessions {
  type Id = nat
  type Busid = string

  datatype Phase =
    | Requested   // busid read, device entry not looked up yet
    | Found       // device exists; `exports` not consulted yet
    | Reserved    // busid inserted into `exports`
    | Claimed     // device claimed, handle recorded
    | Looping     // reply sent, URB loop running
    | Released    // handle removed, busid still in `exports`
    | Finished    // returned without owning anything: unknown device, busy, or complete
    | Lost(held: bool)  // returned early with the busid still in `exports`; `held`: handle still recorded

  datatype Session = Session(busid: Busid, phase: Phase)
  {
    /** The session owns its busid in `exports`. */
    predicate Owns() {
      phase.Reserved? || phase.Claimed? || phase.Looping? || phase.Released? || phase.Lost?
    }

    /** The session keeps a handle of the device manager. */
    predicate Holds() {
      phase.Claimed? || phase.Looping? || (phase.Lost? && phase.held)
    }
  }

  datatype Server = Server(exports: map<Busid, Id>, handles: set<Busid>, sessions: map<Id, Session>)

  const START := Server(map[], {}, map[])

  datatype Step =
    | Connect(id: Id, busid: Busid)   // OP_REQ_IMPORT received
    | Lookup(id: Id, found: bool)   // get_device_entry; without an entry, reply NODEV and return
    | Reserve(id: Id)                 // lock `exports`: busy reply, or insert
    | Claim(id: Id, ok: bool)         // claim_device(...)?
    | Announce(id: Id, ok: bool)      // get_descriptor_tree, write, flush and key exchange, each with ?
    | AbortLoop(id: Id)               // a batch write inside the loop fails: ?
    | Release(id: Id, ok: bool)       // loop over; release_device(...)? removes the handle first
    | Remove(id: Id)                  // lock `exports`: remove

  function SetPhase(s: Server, id: Id, phase: Phase): (s': Server)
    requires id in s.sessions
  {
    s.(sessions := s.sessions[id := s.sessions[id].(phase := phase)])
  }

  /** Whether a session is at the point where the step applies. */
  predicate Enabled(s: Server, step: Step) {
    match step
    case Connect(id, _) => id !in s.sessions
    case Lookup(id, _) => id in s.sessions && s.sessions[id].phase.Requested?
    case Reserve(id) => id in s.sessions && s.sessions[id].phase.Found?
    case Claim(id, _) => id in s.sessions && s.sessions[id].phase.Reserved?
    case Announce(id, _) => id in s.sessions && s.sessions[id].phase.Claimed?
    case AbortLoop(id) => id in s.sessions && s.sessions[id].phase.Looping?
    case Release(id, _) => id in s.sessions && s.sessions[id].phase.Looping?
    case Remove(id) => id in s.sessions && s.sessions[id].phase.Released?
  }

  function Next(s: Server, step: Step): (s': Server)
    requires Enabled(s, step)
  {
    match step
    case Connect(id, busid) => s.(sessions := s.sessions[id := Session(busid, Requested)])
    case Lookup(id, found) => SetPhase(s, id, if found then Found else Finished)
    case Reserve(id) =>
      var b := s.sessions[id].busid;
      if b in s.exports then SetPhase(s, id, Finished)
      else SetPhase(s, id, Reserved).(exports := s.exports[b := id])
    case Claim(id, ok) =>
      if ok then SetPhase(s, id, Claimed).(handles := s.handles + {s.sessions[id].busid})
      else SetPhase(s, id, Lost(false))
    case Announce(id, ok) => SetPhase(s, id, if ok then Looping else Lost(true))
    case AbortLoop(id) => SetPhase(s, id, Lost(true))
    case Release(id, ok) =>
      SetPhase(s, id, if ok then Released else Lost(false)).(handles := s.handles - {s.sessions[id].busid})
    case Remove(id) => SetPhase(s, id, Finished).(exports := s.exports - {s.sessions[id].busid})
  }

  /** A run: steps that are enabled when they happen; others cannot occur and change nothing. */
  function Run(s: Server, steps: seq<Step>): (s': Server)
    decreases |steps|
  {
    if steps == [] then s else
    var before := Run(s, steps[..|steps| - 1]);
    if Enabled(before, steps[|steps| - 1]) then Next(before, steps[|steps| - 1]) else before
  }

  // ---- Safety in every interleaving ----

  /** The exports are exactly the owners, by busid; the handles are exactly the holders. */
  ghost predicate Exclusive(s: Server) {
    && (forall b :: b in s.exports ==>
          s.exports[b] in s.sessions && s.sessions[s.exports[b]].busid == b && s.sessions[s.exports[b]].Owns())
    && (forall id :: id in s.sessions && s.sessions[id].Owns() ==>
          s.sessions[id].busid in s.exports && s.exports[s.sessions[id].busid] == id)
    && (forall b :: b in s.handles ==> b in s.exports && s.sessions[s.exports[b]].Holds())
    && (forall id :: id in s.sessions && s.sessions[id].Holds() ==> s.sessions[id].busid in s.handles)
  }

  /** Moving a session on without changing what it owns or holds. */
  lemma PhaseKeepsExclusive(s: Server, id: Id, phase: Phase)
    requires Exclusive(s) && id in s.sessions
    requires Session(s.sessions[id].busid, phase).Owns() == s.sessions[id].Owns()
    requires Session(s.sessions[id].busid, phase).Holds() == s.sessions[id].Holds()
    ensures Exclusive(SetPhase(s, id, phase))
  {
  }

  lemma ReserveKeepsExclusive(s: Server, id: Id)
    requires Exclusive(s) && id in s.sessions && s.sessions[id].phase.Found? && s.sessions[id].busid !in s.exports
    ensures Exclusive(Next(s, Reserve(id)))
  {
  }

  lemma ClaimKeepsExclusive(s: Server, id: Id)
    requires Exclusive(s) && id in s.sessions && s.sessions[id].phase.Reserved?
    ensures Exclusive(Next(s, Claim(id, true)))
  {
  }

  lemma ReleaseKeepsExclusive(s: Server, id: Id, ok: bool)
    requires Exclusive(s) && id in s.sessions && s.sessions[id].phase.Looping?
    ensures Exclusive(Next(s, Release(id, ok)))
  {
  }

  lemma RemoveKeepsExclusive(s: Server, id: Id)
    requires Exclusive(s) && id in s.sessions && s.sessions[id].phase.Released?
    ensures Exclusive(Next(s, Remove(id)))
  {
  }

  lemma StepKeepsExclusive(s: Server, step: Step)
    requires Exclusive(s) && Enabled(s, step)
    ensures Exclusive(Next(s, step))
  {
    match step
    case Connect(id, busid) =>
    case Lookup(id, found) => PhaseKeepsExclusive(s, id, if found then Found else Finished);
    case Reserve(id) =>
      if s.sessions[id].busid in s.exports {
        PhaseKeepsExclusive(s, id, Finished);
      } else {
        ReserveKeepsExclusive(s, id);
      }
    case Claim(id, ok) =>
      if ok {
        ClaimKeepsExclusive(s, id);
      } else {
        PhaseKeepsExclusive(s, id, Lost(false));
      }
    case Announce(id, ok) => PhaseKeepsExclusive(s, id, if ok then Looping else Lost(true));
    case AbortLoop(id) => PhaseKeepsExclusive(s, id, Lost(true));
    case Release(id, ok) => ReleaseKeepsExclusive(s, id, ok);
    case Remove(id) => RemoveKeepsExclusive(s, id);
  }

  lemma {:induction false} EveryRunIsExclusive(steps: seq<Step>)
    ensures Exclusive(Run(START, steps))
    decreases |steps|
  {
    if steps != [] {
      var before := Run(START, steps[..|steps| - 1]);
      EveryRunIsExclusive(steps[..|steps| - 1]);
      if Enabled(before, steps[|steps| - 1]) {
        StepKeepsExclusive(before, steps[|steps| - 1]);
      }
    }
  }

  /** Two sessions never own the same busid. */
  ghost predicate OneOwnerEach(s: Server) {
    forall i, j :: i in s.sessions && j in s.sessions && s.sessions[i].busid == s.sessions[j].busid ==>
      (s.sessions[i].Owns() && s.sessions[j].Owns() ==> i == j)
  }

  /**
    In every interleaving: at most one session owns a busid; the keys of `exports` are exactly the
    busids of the owners; a session in its URB loop has its busid among the handles; and the handles
    are exactly the busids of the sessions that hold one.
   */
  lemma SessionSafety(steps: seq<Step>)
    ensures var s := Run(START, steps);
            && OneOwnerEach(s)
            && s.exports.Keys == (set i | i in s.sessions && s.sessions[i].Owns() :: s.sessions[i].busid)
            && s.handles == (set i | i in s.sessions && s.sessions[i].Holds() :: s.sessions[i].busid)
            && (forall i :: i in s.sessions && s.sessions[i].phase.Looping? ==> s.sessions[i].busid in s.handles)
  {
    EveryRunIsExclusive(steps);
  }

  // ---- What an early return leaves behind ----

  lemma LostStep(s: Server, step: Step, id: Id)
    requires Enabled(s, step) && id in s.sessions && s.sessions[id].phase.Lost?
    ensures id in Next(s, step).sessions && Next(s, step).sessions[id] == s.sessions[id]
  {
  }

  lemma {:induction false} LostStays(s: Server, steps: seq<Step>, id: Id)
    requires Exclusive(s) && id in s.sessions && s.sessions[id].phase.Lost?
    ensures var after := Run(s, steps);
            Exclusive(after) && id in after.sessions && after.sessions[id] == s.sessions[id]
    decreases |steps|
  {
    if steps != [] {
      var last := steps[|steps| - 1];
      var before := Run(s, steps[..|steps| - 1]);
      LostStays(s, steps[..|steps| - 1], id);
      if Enabled(before, last) {
        StepKeepsExclusive(before, last);
        LostStep(before, last, id);
      }
    }
  }

  /**
    A session that returns early after reserving keeps its busid in `exports` for good: in every
    continuation, whatever other clients do, the busid stays reserved and no other session ever
    owns it, so every later import of that busid is answered "busy".
   */
  lemma LostBusidIsNeverFreed(s: Server, steps: seq<Step>, id: Id)
    requires Exclusive(s) && id in s.sessions && s.sessions[id].phase.Lost?
    ensures var after, b := Run(s, steps), s.sessions[id].busid;
            && b in after.exports && after.exports[b] == id
            && (forall j :: j in after.sessions && j != id && after.sessions[j].busid == b ==>
                  !after.sessions[j].Owns())
            && (forall j :: j in after.sessions && after.sessions[j].busid == b && after.sessions[j].phase.Found? ==>
                  Next(after, Reserve(j)).sessions[j].phase.Finished?)
  {
    LostStays(s, steps, id);
  }

  /** The four failures after which a session returns with its busid still in `exports`. */
  predicate Loses(step: Step, id: Id) {
    step in {Claim(id, false), Announce(id, false), AbortLoop(id), Release(id, false)}
  }

  predicate IsLost(s: Server, id: Id) {
    id in s.sessions && s.sessions[id].phase.Lost?
  }

  lemma LostNext(s: Server, step: Step, id: Id)
    requires Enabled(s, step)
    ensures IsLost(Next(s, step), id) <==> IsLost(s, id) || Loses(step, id)
  {
  }

  lemma OwnerKeepsBusid(s: Server, step: Step, id: Id)
    requires Exclusive(s) && Enabled(s, step) && id in s.sessions && s.sessions[id].Owns()
    ensures var b, s' := s.sessions[id].busid, Next(s, step);
            b in s'.exports && s'.exports[b] == id <==> step != Remove(id)
  {
  }

  /** What one step can do to the owner of a busid. */
  lemma OwnerStep(s: Server, step: Step, id: Id)
    requires Exclusive(s) && Enabled(s, step) && id in s.sessions && s.sessions[id].Owns()
    ensures var b, s' := s.sessions[id].busid, Next(s, step);
            && s'.sessions[id].busid == b
            && (b in s'.exports && s'.exports[b] == id <==> step != Remove(id))
            && (IsLost(s', id) <==> IsLost(s, id) || Loses(step, id))
  {
    OwnerKeepsBusid(s, step, id);
    LostNext(s, step, id);
  }

  /** Step `k` of the run is one of the four failures of session `id`, and it does happen. */
  predicate LosesAt(steps: seq<Step>, id: Id, k: nat) {
    k < |steps| && Loses(steps[k], id) && Enabled(Run(START, steps[..k]), steps[k])
  }

  ghost predicate LosesIn(steps: seq<Step>, id: Id) {
    exists k: nat :: LosesAt(steps, id, k)
  }

  lemma LosesInLast(steps: seq<Step>, id: Id)
    requires steps != []
    ensures var n := |steps| - 1;
            LosesIn(steps, id) <==> LosesIn(steps[..n], id) || LosesAt(steps, id, n)
  {
    var n := |steps| - 1;
    forall k: nat | k < n ensures LosesAt(steps, id, k) <==> LosesAt(steps[..n], id, k) {
      assert steps[..n][..k] == steps[..k];
    }
    if LosesIn(steps[..n], id) {
      var k: nat :| LosesAt(steps[..n], id, k);
      assert LosesAt(steps, id, k);
    }
  }

  /**
    In every interleaving, a session is lost if and only if one of the four failures has happened to
    it: a failed claim, a failed announcement, a failed batch write or a failed release.
   */
  lemma {:induction false} LostIff(steps: seq<Step>, id: Id)
    ensures IsLost(Run(START, steps), id) <==> LosesIn(steps, id)
    decreases |steps|
  {
    if steps != [] {
      var n := |steps| - 1;
      LostIff(steps[..n], id);
      LosesInLast(steps, id);
      if Enabled(Run(START, steps[..n]), steps[n]) {
        LostNext(Run(START, steps[..n]), steps[n], id);
      }
    }
  }

  /** The shortest such run: one client whose claim of the device fails. */
  lemma FailedClaimLoses(b: Busid)
    ensures var s := Run(START, [Connect(0, b), Lookup(0, true), Reserve(0), Claim(0, false)]);
            IsLost(s, 0) && b in s.exports && s.exports[b] == 0
  {
    var s1 := Next(START, Connect(0, b));
    var s2 := Next(s1, Lookup(0, true));
    var s3 := Next(s2, Reserve(0));
    RunCons(START, Connect(0, b), [Lookup(0, true), Reserve(0), Claim(0, false)]);
    RunCons(s1, Lookup(0, true), [Reserve(0), Claim(0, false)]);
    RunCons(s2, Reserve(0), [Claim(0, false)]);
    RunCons(s3, Claim(0, false), []);
    assert [Connect(0, b)] + [Lookup(0, true), Reserve(0), Claim(0, false)] ==
           [Connect(0, b), Lookup(0, true), Reserve(0), Claim(0, false)];
    assert [Lookup(0, true)] + [Reserve(0), Claim(0, false)] == [Lookup(0, true), Reserve(0), Claim(0, false)];
    assert [Reserve(0)] + [Claim(0, false)] == [Reserve(0), Claim(0, false)];
    assert [Claim(0, false)] + [] == [Claim(0, false)];
  }

  lemma {:induction false} RunCons(s: Server, step: Step, steps: seq<Step>)
    requires Enabled(s, step)
    ensures Run(s, [step] + steps) == Run(Next(s, step), steps)
    decreases |steps|
  {
    var all := [step] + steps;
    if steps == [] {
      assert all[..|all| - 1] == [];
    } else {
      assert all[..|all| - 1] == [step] + steps[..|steps| - 1];
      RunCons(s, step, steps[..|steps| - 1]);
    }
  }

  /** The step that takes an owner towards completion when every call succeeds. */
  function Onward(id: Id, phase: Phase): (step: Step) {
    match phase
    case Reserved => Claim(id, true)
    case Claimed => Announce(id, true)
    case Looping => Release(id, true)
    case _ => Remove(id)
  }

  function Distance(phase: Phase): (n: nat) {
    match phase
    case Reserved => 4
    case Claimed => 3
    case Looping => 2
    case Released => 1
    case _ => 0
  }

  /** Every owner that is not lost can still run to completion, and completion frees the busid and the handle. */
  lemma {:induction false} OwnerCanFinish(s: Server, id: Id) returns (steps: seq<Step>)
    requires Exclusive(s) && id in s.sessions && s.sessions[id].Owns() && !s.sessions[id].phase.Lost?
    ensures var after := Run(s, steps);
            && id in after.sessions && after.sessions[id].phase.Finished?
            && s.sessions[id].busid !in after.exports && s.sessions[id].busid !in after.handles
    decreases Distance(s.sessions[id].phase)
  {
    var step := Onward(id, s.sessions[id].phase);
    StepKeepsExclusive(s, step);
    var later: seq<Step> := [];
    if !s.sessions[id].phase.Released? {
      later := OwnerCanFinish(Next(s, step), id);
    }
    RunCons(s, step, later);
    steps := [step] + later;
  }

  /** No continuation, whatever clients do, takes the busid out of `exports`. */
  ghost predicate BlockedForever(s: Server, b: Busid) {
    forall more: seq<Step> :: b in Run(s, more).exports
  }

  lemma LostBlocks(s: Server, id: Id)
    requires Exclusive(s) && IsLost(s, id)
    ensures BlockedForever(s, s.sessions[id].busid)
  {
    forall more: seq<Step> ensures s.sessions[id].busid in Run(s, more).exports {
      LostBusidIsNeverFreed(s, more, id);
    }
  }

  lemma OwnerCanFree(s: Server, b: Busid)
    requires Exclusive(s) && b in s.exports && !IsLost(s, s.exports[b])
    ensures !BlockedForever(s, b)
  {
    var more := OwnerCanFinish(s, s.exports[b]);
    assert b !in Run(s, more).exports;
  }

  lemma BlockedMeansLost(s: Server, b: Busid)
    requires Exclusive(s) && BlockedForever(s, b)
    ensures b in s.exports && IsLost(s, s.exports[b]) && s.sessions[s.exports[b]].busid == b
  {
    assert b in Run(s, []).exports;
    if !IsLost(s, s.exports[b]) {
      OwnerCanFree(s, b);
    }
  }

  /**
    In every interleaving, a busid is blocked for good if and only if one of the four failures has
    happened to a session that asked for it.
   */
  lemma BlockedForeverIff(steps: seq<Step>, b: Busid)
    ensures var s := Run(START, steps);
            BlockedForever(s, b) <==> exists id :: id in s.sessions && s.sessions[id].busid == b && LosesIn(steps, id)
  {
    var s := Run(START, steps);
    EveryRunIsExclusive(steps);
    if BlockedForever(s, b) {
      BlockedMeansLost(s, b);
      LostIff(steps, s.exports[b]);
    }
    forall id | id in s.sessions && s.sessions[id].busid == b && LosesIn(steps, id) ensures BlockedForever(s, b) {
      LostIff(steps, id);
      LostBlocks(s, id);
    }
  }
}
