// The native backend as the public layer sees it: how a call ends, and what logind may have done by then,
// decide whether its answer is one the control flag can rely on.
module Backend {
  import S = Session
  import C = Control
  import Framing

  // What may really have happened, given how the call that carried a request ended. Part of a request is
  // not acted on; a reply means it was; an error reply other than a timeout means it was not; a
  // connection reset means logind no longer counts us, as does a connection found closed, unless what
  // closed it was a request cut short.
  ghost predicate MayHave(e: S.Ending, cut: bool, controller: bool, req: C.Request, effect: C.Effect) {
    var after := C.ControllerAfter(controller, req, C.Answer(e.r, 0, effect));
    && (e.done < e.total || e.done == 0 ==> effect != C.Acted)
    && (effect == C.Cut ==> 0 < e.done < e.total)
    && (e.how.Reply? ==> effect == C.Acted)
    && (e.how.Error? && e.r != S.ETIMEDOUT ==> effect == C.Nothing)
    && (e.how.Nothing? && e.r == S.ECONNRESET ==> !after)
    && (e.wasClosed ==> effect == C.Nothing && (cut || !controller))
    && (cut ==> e.wasClosed)
  }

  // An answer the flag cannot rely on: the request was sent whole and acted on, and the call failed locally
  // with an errno that is neither a timeout nor a lost connection; or an error name is mapped to the
  // errno of a broken connection; or to the one that means "not in control".
  ghost predicate Misleads(e: S.Ending, controller: bool, req: C.Request, effect: C.Effect) {
    || (e.how.Nothing? && e.r !in {S.ETIMEDOUT, S.ECONNRESET} && effect == C.Acted)
    || (e.how.Error? && e.r in {S.ECONNRESET, S.ENOTCONN} && controller)
    || (req == C.ReleaseControl && e.r == S.EINVAL && controller)
  }

  // The native backend's answers are truthful exactly when they are none of these.
  lemma NativeTruthfulIff(e: S.Ending, cut: bool, controller: bool, req: C.Request, word: int, effect: C.Effect)
    requires S.CallEnds(e) && !e.bad && MayHave(e, cut, controller, req, effect)
    requires req !in {C.OpenBus, C.CloseBus, C.Pump}
    ensures C.Truthful(cut, controller, req, C.Answer(e.r, word, effect)) <==> !Misleads(e, controller, req, effect)
  {
  }

  // A TakeControl sent whole and granted, whose call then ends without a reply and with neither a timeout nor a
  // lost connection, is one: the stream has become unreadable, or a poll or a receive failed with an
  // errno that does not mean the peer is gone. logind counts us as its controller, and the flag says no
  // release is owed.
  lemma GrantHidden(r: int, code: int, total: nat)
    requires S.Unanswered(r, code, false) && r != S.ETIMEDOUT && total > 0
    ensures var e := S.Ending(S.Nothing(0), r, total, total, false, false, Framing.NEED_MORE, code, false);
      && S.CallEnds(e) && MayHave(e, false, false, C.TakeControl, C.Acted)
      && !C.Sound(C.FlagAfterTake(0, r), C.ControllerAfter(false, C.TakeControl, C.Answer(r, 0, C.Acted)))
  {
  }

  // A ReleaseControl whose error reply is named after the errno of a broken connection, or after the one that
  // means "not in control", is one too, when logind goes on counting us: the flag is cleared.
  lemma ReleaseHidden(r: int, total: nat)
    requires r in {S.ECONNRESET, S.ENOTCONN, S.EINVAL} && total > 0
    ensures var e := S.Ending(S.Error(r), r, total, total, false, false, Framing.NEED_MORE, Framing.NEED_MORE, false);
      && S.CallEnds(e) && MayHave(e, false, true, C.ReleaseControl, C.Nothing)
      && C.ControllerAfter(true, C.ReleaseControl, C.Answer(r, 0, C.Nothing))
      && !C.Sound(C.FlagAfterDrop(1, false, true, r), true)
  {
  }

  // A call leaves the connection cut short exactly when part of its request was written, and every later
  // call is refused unsent.
  lemma CutRefuses(e: S.Ending, later: S.Ending)
    requires S.CallEnds(e) && S.CallEnds(later) && 0 < e.done < e.total && later.wasClosed == e.closed && !later.bad
    ensures later.r == S.ENOTCONN && later.done == 0 && later.how.Nothing?
  {
  }
}
