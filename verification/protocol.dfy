/** Sequences of operations on one handle and the response protocol they
    keep. Upstream the per-handle mutex is held from reading the flag to
    raising it, so concurrent callers are served one after another: every
    schedule of calls on one handle is some sequence of invocations, and
    the theorems below hold for all of them. */
module Protocol {
  import opened Wrappers
  import opened Twilight
  import opened InteractionHandle

  /** A public operation of the handle, with its arguments. */
  datatype Op =
    | CheckPermissionsOp(required: Permissions)
    | DeferOp(ephemeral: bool)
    | ReplyOp(reply: Reply, followupCheck: Option<ValidationError>)
    | AutocompleteOp(choices: seq<CommandOptionChoice>)
    | ModalOp(customId: string, title: string, inputs: seq<TextInput>)

  /** An operation together with the answer its call gets, if it makes one. */
  datatype Invocation = Invocation(op: Op, delivery: Delivery)

  /** The handle after a sequence of invocations, the result of each, and
      every call made, in order. */
  datatype Session = Session(handle: Handle, results: seq<Result<(), Error>>, trace: seq<Attempt>)

  /** One invocation as one atomic step. Every step makes at most one call:
      an initial response exactly when the handle has not responded, a
      followup otherwise. The flag never falls, rises only with a delivered
      initial response, and nothing else about the handle changes. */
  function Apply(h: Handle, inv: Invocation): (s: Step)
    ensures |s.attempts| <= 1
    ensures forall a | a in s.attempts :: a.call.CreateResponse? <==> !h.responded
    ensures forall a | a in s.attempts :: a.call.token == h.token
    ensures s.attempts == [] ==> s.handle.responded == h.responded
    ensures !h.responded && s.attempts != [] ==> (s.handle.responded <==> s.attempts[0].delivery.Delivered?)
    ensures h.responded ==> s.handle.responded
    ensures s.result.Err? ==> s.handle == h
    ensures s.handle.(responded := h.responded) == h
    ensures inv.op.CheckPermissionsOp? ==> s.attempts == [] && s.handle == h
  {
    match inv.op
    case CheckPermissionsOp(required) =>
      var r := CheckPermissions(h, required);
      Step(h, if r.Ok? then Ok(()) else Err(UserFailure(r.error)), [])
    case DeferOp(ephemeral) => Defer(h, ephemeral, inv.delivery)
    case ReplyOp(reply, check) => SendReply(h, reply, check, inv.delivery)
    case AutocompleteOp(choices) => Autocomplete(h, choices, inv.delivery)
    case ModalOp(customId, title, inputs) => ShowModal(h, customId, title, inputs, inv.delivery)
  }

  /** Runs the invocations one after another (defined by its last step). */
  function Run(h: Handle, invs: seq<Invocation>): (r: Session)
    ensures |r.results| == |invs|
    ensures r.handle.(responded := h.responded) == h
    ensures h.responded ==> r.handle.responded
    decreases |invs|
  {
    if invs == [] then Session(h, [], [])
    else
      var before := Run(h, invs[..|invs| - 1]);
      var s := Apply(before.handle, invs[|invs| - 1]);
      Session(s.handle, before.results + [s.result], before.trace + s.attempts)
  }

  // ---------------------------------------------------------------------
  // The protocol as an automaton over the call trace

  /** The protocol as the handle observes it, after one more call:
      `Some(responded)` while the protocol holds, `None` once it is broken.
      An initial response is allowed only before one was reported
      delivered; a followup only after. */
  function Next(state: Option<bool>, a: Attempt): Option<bool>
  {
    match state
    case None => None
    case Some(responded) =>
      if a.call.CreateResponse? then
        if responded then None else Some(a.delivery.Delivered?)
      else if responded then Some(true) else None
  }

  function Scan(t: seq<Attempt>): Option<bool>
    decreases |t|
  {
    if t == [] then Some(false) else Next(Scan(t[..|t| - 1]), t[|t| - 1])
  }

  // ---------------------------------------------------------------------
  // The protocol stated directly over the trace

  /** An initial response the client reported delivered. */
  predicate Accepted(a: Attempt)
  {
    a.call.CreateResponse? && a.delivery.Delivered?
  }

  predicate HasAccepted(t: seq<Attempt>)
  {
    exists j :: 0 <= j < |t| && Accepted(t[j])
  }

  /** Every followup comes after a delivered initial response. */
  predicate FollowupsAfterInitial(t: seq<Attempt>)
  {
    forall i :: 0 <= i < |t| && t[i].call.CreateFollowup? ==> exists j :: 0 <= j < i && Accepted(t[j])
  }

  /** No initial response is attempted once one was delivered. */
  predicate NoInitialAfterAccepted(t: seq<Attempt>)
  {
    forall i, j :: 0 <= i < j < |t| && Accepted(t[i]) ==> !t[j].call.CreateResponse?
  }

  /** The number of delivered initial responses. */
  function AcceptedInitials(t: seq<Attempt>): nat
    decreases |t|
  {
    if t == [] then 0 else AcceptedInitials(t[..|t| - 1]) + (if Accepted(t[|t| - 1]) then 1 else 0)
  }

  lemma {:induction false} AcceptedInitialsCounts(t: seq<Attempt>)
    ensures AcceptedInitials(t) > 0 <==> HasAccepted(t)
    decreases |t|
  {
    if t != [] {
      var p := t[..|t| - 1];
      AcceptedInitialsCounts(p);
      if HasAccepted(p) {
        var j :| 0 <= j < |p| && Accepted(p[j]);
        assert Accepted(t[j]);
      }
      if HasAccepted(t) && !Accepted(t[|t| - 1]) {
        var j :| 0 <= j < |t| && Accepted(t[j]);
        assert Accepted(p[j]);
      }
    }
  }

  /** Whenever the automaton accepts a trace, the trace keeps the protocol
      and the automaton's state says whether an initial response landed. */
  lemma {:induction false} ScanSound(t: seq<Attempt>)
    requires Scan(t).Some?
    ensures FollowupsAfterInitial(t) && NoInitialAfterAccepted(t)
    ensures Scan(t).value <==> HasAccepted(t)
    decreases |t|
  {
    if t != [] {
      var p := t[..|t| - 1];
      var a := t[|t| - 1];
      assert Scan(p).Some?;
      ScanSound(p);
      forall i | 0 <= i < |t| && t[i].call.CreateFollowup?
        ensures exists j :: 0 <= j < i && Accepted(t[j])
      {
        if i < |p| {
          assert p[i] == t[i];
          var j :| 0 <= j < i && Accepted(p[j]);
          assert Accepted(t[j]);
        } else {
          var j :| 0 <= j < |p| && Accepted(p[j]);
          assert Accepted(t[j]);
        }
      }
      forall i, j | 0 <= i < j < |t| && Accepted(t[i])
        ensures !t[j].call.CreateResponse?
      {
        assert Accepted(p[i]);
        if j < |p| {
          assert p[j] == t[j];
        } else {
          assert HasAccepted(p);
        }
      }
      if HasAccepted(t) && !Accepted(a) {
        var j :| 0 <= j < |t| && Accepted(t[j]);
        assert Accepted(p[j]);
      }
      if HasAccepted(p) {
        var j :| 0 <= j < |p| && Accepted(p[j]);
        assert Accepted(t[j]);
      }
    }
  }

  /** Every trace that keeps the protocol is accepted by the automaton. */
  lemma {:induction false} ScanComplete(t: seq<Attempt>)
    requires FollowupsAfterInitial(t) && NoInitialAfterAccepted(t)
    ensures Scan(t).Some?
    decreases |t|
  {
    if t != [] {
      var p := t[..|t| - 1];
      var a := t[|t| - 1];
      forall i | 0 <= i < |p| && p[i].call.CreateFollowup?
        ensures exists j :: 0 <= j < i && Accepted(p[j])
      {
        assert t[i] == p[i];
        var j :| 0 <= j < i && Accepted(t[j]);
        assert Accepted(p[j]);
      }
      forall i, j | 0 <= i < j < |p| && Accepted(p[i])
        ensures !p[j].call.CreateResponse?
      {
        assert Accepted(t[i]) && t[j] == p[j];
      }
      ScanComplete(p);
      ScanSound(p);
      if a.call.CreateFollowup? {
        var j :| 0 <= j < |p| && Accepted(t[j]);
        assert Accepted(p[j]);
      }
    }
  }

  /** With no initial response after a delivered one, at most one is
      delivered. */
  lemma {:induction false} AtMostOneAccepted(t: seq<Attempt>)
    requires NoInitialAfterAccepted(t)
    ensures AcceptedInitials(t) <= 1
    decreases |t|
  {
    if t != [] {
      var p := t[..|t| - 1];
      assert NoInitialAfterAccepted(p) by {
        forall i, j | 0 <= i < j < |p| && Accepted(p[i])
          ensures !p[j].call.CreateResponse?
        {
          assert Accepted(t[i]) && t[j] == p[j];
        }
      }
      AtMostOneAccepted(p);
      AcceptedInitialsCounts(p);
    }
  }

  // ---------------------------------------------------------------------
  // The handle keeps the protocol

  /** One step extends an accepted trace to an accepted trace, and the
      automaton's state stays equal to the handle's flag. */
  lemma StepKeepsProtocol(h: Handle, inv: Invocation, t: seq<Attempt>)
    requires Scan(t) == Some(h.responded)
    ensures Scan(t + Apply(h, inv).attempts) == Some(Apply(h, inv).handle.responded)
  {
    var s := Apply(h, inv);
    if s.attempts == [] {
      assert t + s.attempts == t;
    } else {
      var a := s.attempts[0];
      assert s.attempts == [a];
      assert (t + [a])[..|t|] == t;
    }
  }

  /** Any run from a fresh handle leaves a trace the automaton accepts,
      in the state the handle's flag records. */
  lemma {:induction false} RunKeepsProtocol(h: Handle, invs: seq<Invocation>)
    requires !h.responded
    ensures Scan(Run(h, invs).trace) == Some(Run(h, invs).handle.responded)
    decreases |invs|
  {
    if invs != [] {
      var before := Run(h, invs[..|invs| - 1]);
      RunKeepsProtocol(h, invs[..|invs| - 1]);
      StepKeepsProtocol(before.handle, invs[|invs| - 1], before.trace);
    }
  }

  /** The central guarantee, over the outcomes the client reports:
      whatever operations are invoked on a fresh handle, in whatever order
      and with whatever reported outcomes, at most one initial response is
      reported delivered, no initial response is attempted after it, every
      followup comes after it, and the handle's flag says exactly whether
      it happened. */
  lemma {:induction false} ProtocolHolds(i: Interaction, invs: seq<Invocation>)
    ensures var r := Run(NewHandle(i), invs);
      && AcceptedInitials(r.trace) <= 1
      && FollowupsAfterInitial(r.trace)
      && NoInitialAfterAccepted(r.trace)
      && (r.handle.responded <==> HasAccepted(r.trace))
  {
    var r := Run(NewHandle(i), invs);
    RunKeepsProtocol(NewHandle(i), invs);
    ScanSound(r.trace);
    AtMostOneAccepted(r.trace);
  }

  /** Once responded, a handle stays responded and never again attempts an
      initial response. */
  lemma {:induction false} RespondedIsFinal(h: Handle, invs: seq<Invocation>)
    requires h.responded
    ensures Run(h, invs).handle.responded
    ensures forall a | a in Run(h, invs).trace :: a.call.CreateFollowup?
    decreases |invs|
  {
    if invs != [] {
      RespondedIsFinal(h, invs[..|invs| - 1]);
    }
  }

  // ---------------------------------------------------------------------
  // Permissions

  /** Without permission information every check passes. */
  lemma UnknownPermissionsPass(i: Interaction, required: Permissions)
    requires i.appPermissions.None?
    ensures CheckPermissions(NewHandle(i), required) == Ok(())
  {
  }

  /** Requiring {A, B} with only {A} granted reports {B} missing; with
      {A, B, C} granted the check passes. */
  lemma MissingPermissionsExample(i: Interaction)
    ensures CheckPermissions(NewHandle(i.(appPermissions := Some({0}))), {0, 1}) == Err(MissingPermissions(Some({1})))
    ensures CheckPermissions(NewHandle(i.(appPermissions := Some({0, 1, 2}))), {0, 1}) == Ok(())
  {
    var required: Permissions := {0, 1};
    assert required - {0} == {1};
  }

  // ---------------------------------------------------------------------
  // Scenarios

  /** A single invocation runs as one step. */
  lemma RunOne(h: Handle, x: Invocation)
    ensures var s := Apply(h, x); Run(h, [x]) == Session(s.handle, [s.result], s.attempts)
  {
    var s := Apply(h, x);
    assert [x][..0] == [];
    assert [] + [s.result] == [s.result];
    assert [] + s.attempts == s.attempts;
  }

  /** Two invocations run as the second step after the first. */
  lemma RunPair(h: Handle, x: Invocation, y: Invocation)
    ensures var s1 := Apply(h, x); var s2 := Apply(s1.handle, y);
      Run(h, [x, y]) == Session(s2.handle, [s1.result, s2.result], s1.attempts + s2.attempts)
  {
    RunOne(h, x);
    assert [x, y][..1] == [x];
  }

  /** Defer, then reply: the reply goes out as a followup. */
  lemma DeferThenReply(i: Interaction, ephemeral: bool, reply: Reply)
    ensures var r := Run(NewHandle(i), [Invocation(DeferOp(ephemeral), Delivered), Invocation(ReplyOp(reply, None), Delivered)]);
      && r.results == [Ok(()), Ok(())]
      && r.trace == [Attempt(CreateResponse(i.id, i.token, DeferResponse(ephemeral)), Delivered),
                     Attempt(CreateFollowup(i.token, FollowupOf(reply)), Delivered)]
      && r.handle.responded
  {
    RunPair(NewHandle(i), Invocation(DeferOp(ephemeral), Delivered), Invocation(ReplyOp(reply, None), Delivered));
  }

  /** Two replies racing on one handle are served one after the other by
      the handle's lock; whichever is served first is the initial
      response, the other a followup, each carrying its own reply. */
  lemma RacingReplies(i: Interaction, first: Reply, second: Reply)
    ensures var r := Run(NewHandle(i), [Invocation(ReplyOp(first, None), Delivered), Invocation(ReplyOp(second, None), Delivered)]);
      && r.results == [Ok(()), Ok(())]
      && r.trace == [Attempt(CreateResponse(i.id, i.token, MessageResponse(first)), Delivered),
                     Attempt(CreateFollowup(i.token, FollowupOf(second)), Delivered)]
  {
    RunPair(NewHandle(i), Invocation(ReplyOp(first, None), Delivered), Invocation(ReplyOp(second, None), Delivered));
  }

  /** A second autocomplete fails with `AlreadyResponded` and makes no call. */
  lemma AutocompleteTwice(i: Interaction, first: seq<CommandOptionChoice>, second: seq<CommandOptionChoice>, d: Delivery)
    ensures var r := Run(NewHandle(i), [Invocation(AutocompleteOp(first), Delivered), Invocation(AutocompleteOp(second), d)]);
      && r.results == [Ok(()), Err(InteractionFailure(AlreadyResponded))]
      && r.trace == [Attempt(CreateResponse(i.id, i.token, AutocompleteResponse(first)), Delivered)]
  {
    RunPair(NewHandle(i), Invocation(AutocompleteOp(first), Delivered), Invocation(AutocompleteOp(second), d));
  }

  /** A deferral whose call fails leaves the handle fresh, so the next
      reply is still the initial response. */
  lemma FailedDeferThenReply(i: Interaction, ephemeral: bool, e: HttpError, reply: Reply, check: Option<ValidationError>)
    ensures var r := Run(NewHandle(i), [Invocation(DeferOp(ephemeral), Failed(e)), Invocation(ReplyOp(reply, check), Delivered)]);
      && r.results == [Err(HttpFailure(e)), Ok(())]
      && r.trace == [Attempt(CreateResponse(i.id, i.token, DeferResponse(ephemeral)), Failed(e)),
                     Attempt(CreateResponse(i.id, i.token, MessageResponse(reply)), Delivered)]
      && r.handle.responded
  {
    RunPair(NewHandle(i), Invocation(DeferOp(ephemeral), Failed(e)), Invocation(ReplyOp(reply, check), Delivered));
  }
}
