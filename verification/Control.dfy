// The public layer: the held-device table and the three-valued control flag, run against a backend
// table whose slots dispatch to an abstract logind that may answer anything, or not at all.
module Control {

  datatype Option<T> = None | Some(value: T)

  const HELD_CAP := 256
  const KIND_LIBSYSTEMD := 1
  const KIND_PURE_CYRIUS := 2
  const U32_LIMIT := 0x1_0000_0000

  const EINVAL := -22
  const EBUSY := -16
  const ENOSYS := -38
  const ENOTCONN := -107
  const ECONNRESET := -104
  const ETIMEDOUT := -110
  const EMFILE := -24
  const EBADF := -9

  // Which slots of the function table are filled, and its kind word.
  datatype Table = Table(kind: int, openBus: bool, sessionPath: bool, takeDevice: bool, releaseDevice: bool,
                         pump: bool, closeBus: bool, takeControl: bool, releaseControl: bool)

  // ---- device numbers and their keys ----

  predicate DevnumOk(v: int) {
    0 <= v < U32_LIMIT
  }

  // The low 32 bits of a word, as a signed number.
  function Int32(w: int): (n: int)
    ensures -0x8000_0000 <= n < 0x8000_0000
    ensures (n - w) % U32_LIMIT == 0
  {
    var low := w % U32_LIMIT;
    if low >= 0x8000_0000 then low - U32_LIMIT else low
  }

  // (major << 32) | minor in a signed 64-bit word.
  function Key(major: int, minor: int): (k: int)
    requires DevnumOk(major) && DevnumOk(minor)
  {
    var w := major * U32_LIMIT + minor;
    if w >= 0x8000_0000_0000_0000 then w - 0x1_0000_0000_0000_0000 else w
  }

  // Two devices have the same key only if they are the same device, sign bit and all.
  lemma KeyInjective(a: int, b: int, c: int, d: int)
    requires DevnumOk(a) && DevnumOk(b) && DevnumOk(c) && DevnumOk(d)
    ensures Key(a, b) == Key(c, d) <==> a == c && b == d
  {
    if a < c {
      assert (c - a) * U32_LIMIT >= U32_LIMIT;
    } else if c < a {
      assert (a - c) * U32_LIMIT >= U32_LIMIT;
    }
  }

  // ---- logind ----

  datatype Request = OpenBus | SessionPath | TakeControl | ReleaseControl
                   | TakeDevice(major: int, minor: int) | ReleaseDevice(major: int, minor: int) | Pump | CloseBus

  // What really happened: nothing; what was asked; the connection is gone and logind has dropped
  // everything it held for us; or only part of the request was written, and this connection will send
  // nothing more.
  datatype Effect = Nothing | Acted | Dropped | Cut

  // The backend's answer: its errno or result, the word it stored, and what really happened.
  datatype Answer = Answer(rc: int, word: int, effect: Effect)

  // A request, how many devices were held when it was dispatched, whether the layer was closing, and
  // what was answered.
  datatype Entry = Entry(req: Request, held: nat, closing: bool, ans: Answer)

  // Does logind count us as the session's controller afterwards?
  function ControllerAfter(controller: bool, req: Request, ans: Answer): (c: bool) {
    match ans.effect
    case Nothing => controller
    case Cut => controller
    case Dropped => false
    case Acted =>
      if req == TakeControl then true
      else if req in {ReleaseControl, CloseBus} then false
      else controller
  }

  // Was a request cut short on the connection that is now open?
  function CutAfter(cut: bool, req: Request, ans: Answer): (c: bool) {
    req != CloseBus && (cut || ans.effect == Cut)
  }

  // Was the connection that is now open found to be gone?
  function GoneAfter(gone: bool, req: Request, ans: Answer): (g: bool) {
    req != CloseBus && (gone || ans.effect == Dropped)
  }

  // A truthful answer: success means it was done; a broken connection means logind no longer counts us; a
  // timeout may hide anything; any other error means it was not done; and "not in control" is only said
  // to one who is not. Once a request was cut short, every later one is refused unsent as if the
  // connection were gone, and it is not. Pumping asks for nothing; closing the bus always lets go.
  predicate Truthful(cut: bool, controller: bool, req: Request, ans: Answer) {
    if req == CloseBus then ans.effect == Acted
    else if req == Pump then ans.effect != Cut
    else if cut then ans.rc == ENOTCONN && ans.effect == Nothing
    else
      && (ans.rc >= 0 ==> ans.effect == Acted)
      && (ans.rc in {ECONNRESET, ENOTCONN} ==> !ControllerAfter(controller, req, ans))
      && (ans.rc < 0 && ans.rc !in {ECONNRESET, ENOTCONN, ETIMEDOUT} ==> ans.effect != Acted)
      && (req == ReleaseControl && ans.rc == EINVAL ==> !controller)
      && (req == OpenBus ==> ans.effect != Cut)
  }

  class Logind {
    var answers: seq<Answer>
    ghost var controller: bool
    ghost var truthful: bool     // every answer so far was
    ghost var cut: bool          // a request was cut short on this connection
    ghost var gone: bool         // this connection was found to be gone
    ghost var log: seq<Entry>

    constructor (answers: seq<Answer>)
      ensures !controller && truthful && !cut && !gone && log == [] && this.answers == answers
    {
      this.answers, controller, truthful, cut, gone, log := answers, false, true, false, false, [];
    }

    method Dispatch(req: Request, ghost held: nat, ghost closing: bool) returns (ans: Answer)
      modifies this
      ensures log == old(log) + [Entry(req, held, closing, ans)]
      ensures controller == ControllerAfter(old(controller), req, ans)
      ensures truthful == (old(truthful) && Truthful(old(cut), old(controller), req, ans))
      ensures cut == CutAfter(old(cut), req, ans) && gone == GoneAfter(old(gone), req, ans)
    {
      ans := Answer(ETIMEDOUT, 0, if req == CloseBus then Acted else Nothing);
      if |answers| > 0 {
        ans := answers[0];
        answers := answers[1..];
      }
      truthful := truthful && Truthful(cut, controller, req, ans);
      controller := ControllerAfter(controller, req, ans);
      cut, gone := CutAfter(cut, req, ans), GoneAfter(gone, req, ans);
      log := log + [Entry(req, held, closing, ans)];
    }
  }

  // ---- the control flag ----

  // 0: control is not held; 1: it is; 2: it may be.
  predicate FlagOk(flag: int) {
    flag in {0, 1, 2}
  }

  // If logind counts us as controller, the flag knows that a release is owed.
  predicate Sound(flag: int, controller: bool) {
    controller ==> flag != 0
  }

  function FlagAfterTake(flag: int, rc: int): (f: int) {
    if rc == ETIMEDOUT then (if flag == 0 then 2 else flag)
    else if rc < 0 then flag
    else 1
  }

  // Does dropping control ask logind, in this state?
  predicate Asks(flag: int, closing: bool, hasSlot: bool) {
    flag != 0 && !(closing && flag == 2) && hasSlot
  }

  function FlagAfterDrop(flag: int, closing: bool, hasSlot: bool, rc: int): (f: int) {
    if flag == 0 || (closing && flag == 2) then 0
    else if !hasSlot || rc >= 0 then 0
    else if rc == ETIMEDOUT then 2
    else if rc in {EINVAL, ECONNRESET, ENOTCONN} then 0
    else flag
  }

  // Taking control keeps the flag sound exactly when an error other than a timeout that reports
  // failure did not hide a grant: truthful answers never do.
  lemma TakeSoundIff(flag: int, cut: bool, controller: bool, ans: Answer)
    requires FlagOk(flag) && Sound(flag, controller)
    ensures Sound(FlagAfterTake(flag, ans.rc), ControllerAfter(controller, TakeControl, ans))
        <==> !(flag == 0 && ans.rc < 0 && ans.rc != ETIMEDOUT && ans.effect == Acted)
    ensures Truthful(cut, controller, TakeControl, ans)
        ==> Sound(FlagAfterTake(flag, ans.rc), ControllerAfter(controller, TakeControl, ans))
  {
  }

  ghost predicate DropAlwaysSound(hasSlot: bool, cut: bool) {
    forall flag, controller, ans |
      FlagOk(flag) && Sound(flag, controller) && Truthful(cut, controller, ReleaseControl, ans) ::
      Sound(FlagAfterDrop(flag, false, hasSlot, ans.rc),
            if Asks(flag, false, hasSlot) then ControllerAfter(controller, ReleaseControl, ans) else controller)
  }

  // With a truthful logind, dropping control keeps the flag sound exactly when the backend has a
  // ReleaseControl slot and no earlier request was cut short. Without a slot the flag is cleared and
  // nothing is sent; `init` checks only the TakeControl slot. After a cut, the refusal of an unsent
  // ReleaseControl is taken for a connection that is gone.
  lemma DropSoundIff(hasSlot: bool, cut: bool)
    ensures DropAlwaysSound(hasSlot, cut) <==> hasSlot && !cut
  {
    if cut {
      CutHidesControl();
      var ans := Answer(ENOTCONN, 0, Nothing);
      assert FlagOk(1) && Truthful(true, true, ReleaseControl, ans);
      assert !Sound(FlagAfterDrop(1, false, hasSlot, ans.rc), true);
    } else if !hasSlot {
      var ans := Answer(0, 0, Acted);
      assert FlagOk(1) && Sound(1, true) && Truthful(cut, true, ReleaseControl, ans);
      assert !Sound(FlagAfterDrop(1, false, false, ans.rc), true);
    }
  }

  // In control, the last device's ReleaseDevice is cut part-way; the ReleaseControl after it is answered
  // -107 unsent, the flag is cleared, and logind still counts us as its controller.
  lemma CutHidesControl()
    ensures var first, second := Answer(ETIMEDOUT, 0, Cut), Answer(ENOTCONN, 0, Nothing);
      var req := Request.ReleaseDevice(226, 0);
      && Truthful(false, true, req, first) && CutAfter(false, req, first) && ControllerAfter(true, req, first)
      && Truthful(true, true, ReleaseControl, second) && ControllerAfter(true, ReleaseControl, second)
      && FlagAfterDrop(1, false, true, second.rc) == 0
      && !Sound(FlagAfterDrop(1, false, true, second.rc), ControllerAfter(true, ReleaseControl, second))
  {
  }

  // Whether logind counts us after the layer is closed: control is dropped if it is asked for, and then the
  // bus is closed if the backend can. The flag is cleared whatever happens.
  function ControllerClosed(flag: int, controller: bool, hasSlot: bool, hasClose: bool,
                            drop: Answer, close: Answer): (c: bool)
  {
    var dropped := if Asks(flag, true, hasSlot) then ControllerAfter(controller, ReleaseControl, drop) else controller;
    if hasClose then ControllerAfter(dropped, CloseBus, close) else dropped
  }

  ghost predicate CloseAlwaysSound(hasSlot: bool, hasClose: bool, cut: bool) {
    forall flag, controller, drop, close |
      && FlagOk(flag) && Sound(flag, controller) && Truthful(cut, controller, ReleaseControl, drop)
      && Truthful(cut, ControllerAfter(controller, ReleaseControl, drop), CloseBus, close) ::
      Sound(0, ControllerClosed(flag, controller, hasSlot, hasClose, drop, close))
  }

  // Closing the layer is sound exactly when the backend has a CloseBus slot, cut or no cut: with the flag
  // in doubt nothing is sent at closing, on the strength of the bus being closed next.
  lemma CloseSoundIff(hasSlot: bool, hasClose: bool, cut: bool)
    ensures CloseAlwaysSound(hasSlot, hasClose, cut) <==> hasClose
  {
    if !hasClose {
      var drop, close := Answer(ENOTCONN, 0, if cut then Nothing else Dropped), Answer(0, 0, Acted);
      assert FlagOk(2) && Sound(2, true) && Truthful(cut, true, ReleaseControl, drop);
      assert Truthful(cut, ControllerAfter(true, ReleaseControl, drop), CloseBus, close);
      assert !Sound(0, ControllerClosed(2, true, hasSlot, hasClose, drop, close));
    }
  }

  // One request was sent, and this was its answer.
  predicate Sent(before: seq<Entry>, after: seq<Entry>, req: Request, held: nat, closing: bool, ans: Answer) {
    after == before + [Entry(req, held, closing, ans)]
  }

  // The bus was opened, at `bus`, and the session looked up.
  ghost predicate Opened(bus: int, log: seq<Entry>, log': seq<Entry>) {
    exists a, b, mid ::
      && Sent(log, mid, OpenBus, 0, false, a) && Sent(mid, log', SessionPath, 0, false, b)
      && a.rc >= 0 && b.rc >= 0 && bus == a.word
  }

  // Opening failed with `r`, the bus being `bus` by then, 0 if none was had.
  ghost predicate OpenFailed(t: Table, r: int, bus: int, log: seq<Entry>, log': seq<Entry>) {
    if !t.openBus then r == ENOSYS && bus == 0 && log' == log
    else
      exists a, mid ::
        && Sent(log, mid, OpenBus, 0, false, a)
        && if a.rc < 0 then r == a.rc && bus == 0 && log' == mid
           else
             && bus == a.word
             && if bus == 0 then r == ENOTCONN && log' == mid
                else if !t.sessionPath then r == ENOSYS && log' == mid
                else
                  exists b :: Sent(mid, log', SessionPath, 0, false, b) && r == if b.rc < 0 then b.rc else ENOSYS
  }

  // A failed init closes the bus it had opened, if it had.
  ghost predicate InitFailed(t: Table, r: int, log: seq<Entry>, log': seq<Entry>) {
    exists bus, mid ::
      OpenFailed(t, r, bus, log, mid) && if bus != 0 then Closed(t, 0, 0, mid, log') else log' == mid
  }

  // What dropping control sends, and what it leaves of the flag.
  ghost predicate DropSent(t: Table, flag: int, flag': int, closing: bool, held: nat,
                           log: seq<Entry>, log': seq<Entry>)
  {
    if Asks(flag, closing, t.releaseControl) then
      exists ans ::
        Sent(log, log', ReleaseControl, held, closing, ans) && flag' == FlagAfterDrop(flag, closing, true, ans.rc)
    else log' == log && flag' == 0
  }

  // What a take that failed with `rc` does afterwards: with nothing held control goes back; otherwise
  // a logind that is answering is asked to release this one device, and one that is not may still
  // count us as controller.
  ghost predicate CleanedUp(t: Table, req: Request, rc: int, held: nat, flag: int, flag': int,
                            log: seq<Entry>, log': seq<Entry>)
  {
    if held == 0 then DropSent(t, flag, flag', false, 0, log, log')
    else if rc == ETIMEDOUT then flag' == 2 && log' == log
    else
      && flag' == flag
      && if BusFailed(rc) || !t.releaseDevice then log' == log else exists ans :: Sent(log, log', req, held, false, ans)
  }

  // What taking control sends, answers, and leaves of the flag.
  ghost predicate ControlTaken(t: Table, r: int, held: nat, flag: int, flag': int, log: seq<Entry>, log': seq<Entry>) {
    if !t.takeControl then r == ENOSYS && flag' == flag && log' == log
    else exists ans ::
      && Sent(log, log', Request.TakeControl, held, false, ans)
      && flag' == FlagAfterTake(flag, ans.rc) && r == if ans.rc < 0 then ans.rc else 0
  }

  // What a take answers: the descriptor, or why there is none.
  function TakeResult(ans: Answer): (r: int) {
    if ans.rc < 0 then ans.rc else if Int32(ans.word) >= 0 then Int32(ans.word) else EBADF
  }

  // A take with control in hand, from the flag `flag` and the log `log`: the device was asked for, and
  // on failure the state was put right.
  ghost predicate DeviceAsked(t: Table, major: int, minor: int, r: int, held: nat, flag: int, flag': int,
                              log: seq<Entry>, log': seq<Entry>)
  {
    exists ans, after ::
      && Sent(log, after, Request.TakeDevice(major, minor), held, false, ans) && r == TakeResult(ans)
      && if r >= 0 then log' == after && flag' == flag
         else CleanedUp(t, Request.ReleaseDevice(major, minor), r, held, flag, flag', after, log')
  }

  // A whole take: with nothing held, control is taken first, and the device is asked for only then.
  ghost predicate Taken(t: Table, major: int, minor: int, r: int, held: nat, flag: int, flag': int,
                        log: seq<Entry>, log': seq<Entry>)
  {
    if held > 0 then DeviceAsked(t, major, minor, r, held, flag, flag', log, log')
    else
      exists tc, mid, between ::
        && ControlTaken(t, tc, 0, flag, mid, log, between)
        && if tc < 0 then r == tc && flag' == mid && log' == between
           else DeviceAsked(t, major, minor, r, 0, mid, flag', between, log')
  }

  // A device was given back, and with the last one control.
  ghost predicate GivenBack(t: Table, major: int, minor: int, r: int, held: nat, held': nat, flag: int, flag': int,
                      log: seq<Entry>, log': seq<Entry>) {
    exists ans, after ::
      && Sent(log, after, Request.ReleaseDevice(major, minor), held, false, ans)
      && r == (if ans.rc < 0 then ans.rc else 0)
      && if held' == 0 then DropSent(t, flag, flag', false, 0, after, log') else flag' == flag && log' == after
  }

  // The bus was closed, control given back first if that was owed.
  ghost predicate Closed(t: Table, held: nat, flag: int, log: seq<Entry>, log': seq<Entry>) {
    exists mid, flag' ::
      && DropSent(t, flag, flag', true, held, log, mid)
      && if t.closeBus then exists ans :: Sent(mid, log', CloseBus, held, true, ans) else log' == mid
  }

  // ---- the same, entry by entry ----

  // The flag after ReleaseControl was answered `rc`, `flag` being what it was.
  predicate FlagLeft(flag: int, flag': int, rc: int) {
    if rc >= 0 || rc == -22 || rc == -104 || rc == -107 then flag' == 0
    else if rc == -110 then flag' == 2
    else flag' == flag
  }

  // Dropping control: an owed release is asked for, but not again at closing when it is in doubt.
  lemma DropEntries(t: Table, flag: int, flag': int, closing: bool, held: nat, log: seq<Entry>, log': seq<Entry>)
    requires DropSent(t, flag, flag', closing, held, log, log') && FlagOk(flag)
    ensures log <= log' && |log'| <= |log| + 1
    ensures |log'| > |log| <==> t.releaseControl && (flag == 1 || (flag == 2 && !closing))
    ensures |log'| > |log| ==>
      log'[|log|].req == ReleaseControl && log'[|log|].held == held && FlagLeft(flag, flag', log'[|log|].ans.rc)
    ensures |log'| == |log| ==> flag' == 0
  {
  }

  // Closing: ReleaseControl goes out exactly when the flag says control is held, and CloseBus comes last.
  lemma CloseEntries(t: Table, held: nat, flag: int, log: seq<Entry>, log': seq<Entry>)
    requires Closed(t, held, flag, log, log') && FlagOk(flag)
    ensures var asks := flag == 1 && t.releaseControl;
      && log <= log' && |log'| == |log| + (if asks then 1 else 0) + (if t.closeBus then 1 else 0)
      && (asks ==> log'[|log|].req == ReleaseControl)
      && (t.closeBus ==> log'[|log'| - 1].req == CloseBus)
  {
    var mid, flag' :|
      && DropSent(t, flag, flag', true, held, log, mid)
      && if t.closeBus then exists ans :: Sent(mid, log', CloseBus, held, true, ans) else log' == mid;
    DropEntries(t, flag, flag', true, held, log, mid);
  }

  // Giving a device back: logind is told of it first, and with the last device held control goes back.
  lemma GivenBackEntries(t: Table, major: int, minor: int, r: int, held: nat, held': nat, flag: int, flag': int,
                         log: seq<Entry>, log': seq<Entry>)
    requires GivenBack(t, major, minor, r, held, held', flag, flag', log, log') && FlagOk(flag)
    ensures var drops := held' == 0 && flag != 0 && t.releaseControl;
      && log < log' && |log'| == |log| + (if drops then 2 else 1)
      && log'[|log|].req == Request.ReleaseDevice(major, minor)
      && r == (if log'[|log|].ans.rc < 0 then log'[|log|].ans.rc else 0)
      && (drops ==> log'[|log| + 1].req == ReleaseControl && FlagLeft(flag, flag', log'[|log| + 1].ans.rc))
      && (held' == 0 && !drops ==> flag' == 0)
      && (held' > 0 ==> flag' == flag)
  {
    var ans, after :|
      && Sent(log, after, Request.ReleaseDevice(major, minor), held, false, ans)
      && r == (if ans.rc < 0 then ans.rc else 0)
      && if held' == 0 then DropSent(t, flag, flag', false, 0, after, log') else flag' == flag && log' == after;
    if held' == 0 {
      DropEntries(t, flag, flag', false, 0, after, log');
    }
  }

  // Taking a device: logind is asked for it, with nothing held after it granted control. The result is the
  // descriptor stored, the backend's errno, or -9 for a descriptor that is negative as 32 bits.
  lemma AskedEntries(t: Table, major: int, minor: int, r: int, held: nat, flag: int, flag': int,
                     log: seq<Entry>, log': seq<Entry>)
    requires DeviceAsked(t, major, minor, r, held, flag, flag', log, log') && FlagOk(flag)
    ensures log < log' && log'[|log|].req == Request.TakeDevice(major, minor)
    ensures var ans, more := log'[|log|].ans, |log'| - |log| - 1;
      && (r >= 0 <==> ans.rc >= 0 && ans.word % 0x1_0000_0000 < 0x8000_0000)
      && (r >= 0 ==> r == ans.word % 0x1_0000_0000 && more == 0 && flag' == flag)
      && (ans.rc < 0 ==> r == ans.rc)
      && (ans.rc >= 0 && r < 0 ==> r == -9)
      && (r < 0 && held == 0 ==>
            if flag == 0 || !t.releaseControl then more == 0 && flag' == 0
            else more == 1 && log'[|log| + 1].req == ReleaseControl && FlagLeft(flag, flag', log'[|log| + 1].ans.rc))
      && (r < 0 && held > 0 ==>
            && flag' == (if r == -110 then 2 else flag)
            && more == (if r == -110 || r == -104 || r == -107 || !t.releaseDevice then 0 else 1)
            && (more == 1 ==> log'[|log| + 1].req == Request.ReleaseDevice(major, minor)))
  {
    var ans, after :|
      && Sent(log, after, Request.TakeDevice(major, minor), held, false, ans) && r == TakeResult(ans)
      && if r >= 0 then log' == after && flag' == flag
         else CleanedUp(t, Request.ReleaseDevice(major, minor), r, held, flag, flag', after, log');
    if r < 0 && held == 0 {
      DropEntries(t, flag, flag', false, 0, after, log');
    }
  }

  lemma TakenEntries(t: Table, major: int, minor: int, r: int, flag: int, flag': int, log: seq<Entry>, log': seq<Entry>)
    requires Taken(t, major, minor, r, 0, flag, flag', log, log') && FlagOk(flag)
    ensures !t.takeControl ==> r == -38 && flag' == flag && log' == log
    ensures t.takeControl ==>
      && log < log' && log'[|log|].req == Request.TakeControl
      && var rc := log'[|log|].ans.rc;
      if rc < 0 then
        r == rc && |log'| == |log| + 1 && flag' == if rc == -110 && flag == 0 then 2 else flag
      else
        DeviceAsked(t, major, minor, r, 0, 1, flag', log'[..|log| + 1], log')
  {
    var tc, mid, between :|
      && ControlTaken(t, tc, 0, flag, mid, log, between)
      && if tc < 0 then r == tc && flag' == mid && log' == between
         else DeviceAsked(t, major, minor, r, 0, mid, flag', between, log');
    if tc >= 0 {
      AskedEntries(t, major, minor, r, 0, mid, flag', between, log');
      assert log'[..|log| + 1] == between;
    }
  }

  // A failed init: each step fails with its own errno, and a bus that was open is closed again.
  lemma InitEntries(t: Table, r: int, log: seq<Entry>, log': seq<Entry>)
    requires InitFailed(t, r, log, log')
    ensures !t.openBus ==> r == -38 && log' == log
    ensures t.openBus ==> log < log' && log'[|log|].req == OpenBus
    ensures t.openBus ==>
      var open, last := log'[|log|].ans, if t.closeBus then 1 else 0;
      if open.rc < 0 || open.word == 0 then
        |log'| == |log| + 1 && r == if open.rc < 0 then open.rc else -107
      else
        && |log'| == |log| + 1 + last + (if t.sessionPath then 1 else 0)
        && (t.closeBus ==> log'[|log'| - 1].req == CloseBus)
        && (t.sessionPath ==> log'[|log| + 1].req == SessionPath)
        && r == if t.sessionPath && log'[|log| + 1].ans.rc < 0 then log'[|log| + 1].ans.rc else -38
  {
    var bus, mid :| OpenFailed(t, r, bus, log, mid) && if bus != 0 then Closed(t, 0, 0, mid, log') else log' == mid;
    if bus != 0 {
      CloseEntries(t, 0, 0, mid, log');
    }
  }

  // The flag may stay in doubt past an error that is not a timeout: TakeControl timed out, and was then
  // refused.
  lemma DoubtOutlastsRefusal()
    ensures var late, refused := Answer(-110, 0, Acted), Answer(-13, 0, Nothing);
      && Truthful(false, false, Request.TakeControl, late)
      && Truthful(false, ControllerAfter(false, Request.TakeControl, late), Request.TakeControl, refused)
      && FlagAfterTake(FlagAfterTake(0, late.rc), refused.rc) == 2
  {
  }

  // ReleaseControl is only ever sent with no device held, or to close.
  predicate NeverUnderHeld(log: seq<Entry>) {
    forall e | e in log :: e.req == ReleaseControl ==> e.held == 0 || e.closing
  }

  // Requests were sent, none but these: for control, and for this device.
  predicate LogGrows(before: seq<Entry>, after: seq<Entry>, major: int, minor: int) {
    before <= after
    && forall i | |before| <= i < |after| ::
         after[i].req in {Request.TakeControl, ReleaseControl,
                          Request.TakeDevice(major, minor), Request.ReleaseDevice(major, minor)}
  }

  lemma LogGrowsMore(a: seq<Entry>, b: seq<Entry>, c: seq<Entry>, major: int, minor: int)
    requires LogGrows(a, b, major, minor) && LogGrows(b, c, major, minor)
    ensures LogGrows(a, c, major, minor)
  {
  }

  // A request for control or a device timed out.
  predicate TimedOut(e: Entry) {
    e.ans.rc == -110 && (e.req in {Request.TakeControl, ReleaseControl} || e.req.TakeDevice?)
  }

  // Control was given.
  predicate Grants(e: Entry) {
    e.req == Request.TakeControl && e.ans.rc >= 0
  }

  // Control was taken or given back: the answer leaves no doubt.
  predicate Resolves(e: Entry) {
    || Grants(e)
    || (e.req == ReleaseControl && (e.ans.rc >= 0 || e.ans.rc in {-22, -104, -107}))
  }

  // A request timed out, and nothing since has settled who holds control.
  predicate Unresolved(log: seq<Entry>) {
    exists k ::
      0 <= k < |log| && TimedOut(log[k]) && forall j | k < j < |log| :: !Resolves(log[j])
  }

  // ReleaseControl was answered with an error that neither is a timeout nor says that control is not held.
  predicate Refuses(e: Entry) {
    e.req == ReleaseControl && e.ans.rc < 0 && e.ans.rc !in {-22, -104, -107, -110}
  }

  // ReleaseControl was refused, and control has not been taken since.
  predicate Refused(log: seq<Entry>) {
    exists k ::
      0 <= k < |log| && Refuses(log[k]) && forall j | k < j < |log| :: !Grants(log[j])
  }

  // What one more entry makes of these.
  lemma OneMore(log: seq<Entry>, e: Entry)
    ensures Unresolved(log) && !Resolves(e) ==> Unresolved(log + [e])
    ensures TimedOut(e) ==> Unresolved(log + [e])
    ensures Refused(log) && !Grants(e) ==> Refused(log + [e])
    ensures Refuses(e) ==> Refused(log + [e])
  {
    var after := log + [e];
    assert after[|log|] == e;
    if k :| 0 <= k < |log| && TimedOut(log[k]) && forall j | k < j < |log| :: !Resolves(log[j]) {
      assert after[k] == log[k];
    }
    if k :| 0 <= k < |log| && Refuses(log[k]) && forall j | k < j < |log| :: !Grants(log[j]) {
      assert after[k] == log[k];
    }
  }

  // ---- the layer ----

  class Samvada {
    const logind: Logind
    const held: array<int>
    var table: Option<Table>
    var bus: int
    var control: int
    var heldn: nat
    ghost var devs: seq<(int, int)>   // the devices in the table, slot by slot
    ghost var slots: bool             // every table so far had ReleaseControl and CloseBus slots

    ghost function Held(): (s: set<(int, int)>)
      reads this
    {
      set d | d in devs
    }

    // The table holds the keys of distinct devices with 32-bit numbers.
    ghost predicate HeldOk()
      reads this, held
    {
      && held.Length == HELD_CAP
      && heldn == |devs| <= HELD_CAP
      && (forall d | d in devs :: DevnumOk(d.0) && DevnumOk(d.1))
      && (forall i | 0 <= i < heldn :: held[i] == Key(devs[i].0, devs[i].1))
      && (forall i, j | 0 <= i < j < heldn :: devs[i] != devs[j])
    }

    // A held device means the flag says so; ReleaseControl was never sent while a device was held,
    // except to close; with every slot there, a truthful logind and no request cut short, the flag is
    // sound. What was cut short ends with its connection. The other way round, the flag says control is held
    // only while logind counts us, unless the connection was found gone; and it is in doubt only after a
    // timeout that nothing has settled since.
    ghost predicate ControlOk()
      reads this, logind
    {
      && FlagOk(control)
      && NeverUnderHeld(logind.log)
      && (slots && logind.truthful && !logind.cut ==> Sound(control, logind.controller))
      && (slots && logind.truthful && bus == 0 ==> !logind.cut)
      && (logind.truthful && !logind.gone && control == 1 ==> logind.controller)
      && (control == 2 ==> Unresolved(logind.log))
      && (table.Some? && slots ==> table.value.releaseControl && table.value.closeBus)
      && (bus == 0 ==> control == 0 && heldn == 0)
    }

    ghost predicate Uninitialised()
      reads this
    {
      table == None && bus == 0 && control == 0 && heldn == 0
    }

    ghost predicate Valid()
      reads this, held, logind
    {
      && HeldOk() && ControlOk()
      && (heldn > 0 ==> control != 0)
      && (heldn == 0 && control == 1 ==> Refused(logind.log))
      && (table == None ==> Uninitialised())
      && (table.Some? ==> bus != 0)
    }

    constructor (logind: Logind)
      requires !logind.controller && !logind.cut && logind.log == []
      ensures Valid() && Uninitialised() && slots && this.logind == logind && fresh(held)
    {
      this.logind := logind;
      held := new int[HELD_CAP];
      table, bus, control, heldn, devs, slots := None, 0, 0, 0, [], true;
    }

    // ---- the held table ----

    method HeldFind(major: int, minor: int) returns (r: int)
      requires HeldOk() && DevnumOk(major) && DevnumOk(minor)
      ensures r == -1 || 0 <= r < heldn
      ensures r == -1 <==> (major, minor) !in Held()
      ensures r >= 0 ==> devs[r] == (major, minor)
    {
      var key := Key(major, minor);
      var i := 0;
      while i < heldn
        invariant 0 <= i <= heldn
        invariant forall k | 0 <= k < i :: devs[k] != (major, minor)
      {
        KeyInjective(devs[i].0, devs[i].1, major, minor);
        if held[i] == key {
          assert devs[i] in devs;
          return i;
        }
        i := i + 1;
      }
      return -1;
    }

    method HeldAdd(major: int, minor: int) returns (r: int)
      requires HeldOk() && DevnumOk(major) && DevnumOk(minor) && (major, minor) !in Held()
      modifies this`heldn, this`devs, held
      ensures HeldOk()
      ensures r == if old(heldn) >= 256 then -24 else 0
      ensures r == 0 ==> Held() == old(Held()) + {(major, minor)} && heldn == old(heldn) + 1
      ensures r != 0 ==> devs == old(devs)
    {
      if heldn >= HELD_CAP {
        return EMFILE;
      }
      held[heldn] := Key(major, minor);
      heldn := heldn + 1;
      devs := devs + [(major, minor)];
      return 0;
    }

    // The last entry takes the place of the one that goes.
    method HeldDel(i: int)
      requires HeldOk()
      modifies this`heldn, this`devs, held
      ensures HeldOk()
      ensures !(0 <= i < old(heldn)) ==> devs == old(devs)
      ensures 0 <= i < old(heldn) ==> Held() == old(Held()) - {old(devs)[i]} && heldn == old(heldn) - 1
    {
      if i < 0 || i >= heldn {
        return;
      }
      var last := heldn - 1;
      held[i] := held[last];
      heldn := last;
      ghost var was := devs;
      devs := devs[i := devs[last]][..last];
      SwapOut(was, i);
    }

    // The device leaves the table, if it was in it.
    method Forget(major: int, minor: int)
      requires HeldOk() && DevnumOk(major) && DevnumOk(minor)
      modifies this`heldn, this`devs, held
      ensures HeldOk() && heldn <= old(heldn) && Held() == old(Held()) - {(major, minor)}
    {
      var at := HeldFind(major, minor);
      HeldDel(at);
    }

    // ---- session control ----

    // Take session control. A timeout may hide a grant, so a release is then owed.
    method TakeControl() returns (r: int)
      requires HeldOk() && ControlOk() && table.Some? && bus != 0
      modifies this`control, logind
      ensures ControlOk()
      ensures ControlTaken(table.value, r, heldn, old(control), control, old(logind.log), logind.log)
      ensures r == 0 ==> control == 1
      ensures r < 0 && old(heldn == 0 && control == 1 ==> Refused(logind.log)) ==>
        (heldn == 0 && control == 1 ==> Refused(logind.log))
    {
      if !table.value.takeControl {
        return ENOSYS;
      }
      ghost var log := logind.log;
      var ans := logind.Dispatch(Request.TakeControl, heldn, false);
      OneMore(log, Entry(Request.TakeControl, heldn, false, ans));
      if ans.rc == ETIMEDOUT {
        if control == 0 {
          control := 2;
        }
        return ans.rc;
      }
      if ans.rc < 0 {
        return ans.rc;
      }
      control := 1;
      return 0;
    }

    // Give control back when the flag says it is owed. Only at closing may devices still be held.
    method DropControl(closing: bool) returns (r: int)
      requires HeldOk() && ControlOk() && table.Some? && (closing || heldn == 0)
      modifies this`control, logind
      ensures FlagOk(control) && NeverUnderHeld(logind.log) && (logind.truthful ==> old(logind.truthful))
      ensures !(closing && old(control) == 2) ==> ControlOk()
      ensures slots && logind.truthful && !old(logind.cut) && !closing ==> Sound(control, logind.controller)
      ensures DropSent(table.value, old(control), control, closing, heldn, old(logind.log), logind.log)
      ensures control == 1 ==> Refused(logind.log)
    {
      hide Unresolved, Refused;
      if control == 0 {
        return 0;
      }
      if closing && control == 2 {
        control := 0;
        return 0;
      }
      var rc := 0;
      if table.value.releaseControl {
        ghost var log := logind.log;
        var ans := logind.Dispatch(ReleaseControl, heldn, closing);
        OneMore(log, Entry(ReleaseControl, heldn, closing, ans));
        rc := ans.rc;
      }
      if rc >= 0 {
        control := 0;
        r := 0;
      } else if rc == ETIMEDOUT {
        control := 2;
        r := rc;
      } else {
        var gone := rc == EINVAL || BusFailed(rc);
        if gone {
          control := 0;
        }
        r := rc;
      }
    }

    // ---- the public calls ----

    // All or nothing: a failed init leaves an uninitialised layer, unless it was already initialised,
    // in which case nothing at all has changed.
    method Init(t: Option<Table>) returns (r: int)
      requires Valid()
      modifies this, logind
      ensures Valid() && r <= 0
      ensures r == 0 ==> old(table) == None && table == t && t.Some? && control == 0 && heldn == 0
      ensures r == 0 ==> t.value.takeControl && t.value.kind in {1, 2}
      ensures r == 0 ==> Opened(bus, old(logind.log), logind.log)
      ensures r < 0 && old(table) == None ==> Uninitialised()
      ensures r < 0 && old(table) == None ==>
        if t == None || t.value.kind !in {1, 2} then r == -22 && logind.log == old(logind.log)
        else InitFailed(t.value, r, old(logind.log), logind.log)
      ensures old(table).Some? ==> r == (if t == None then -22 else -16)
      ensures old(table).Some? ==> table == old(table) && bus == old(bus) && control == old(control)
                                   && devs == old(devs) && logind.log == old(logind.log)
    {
      if t == None {
        return EINVAL;
      }
      if table != None {
        return EBUSY;
      }
      if t.value.kind != KIND_LIBSYSTEMD && t.value.kind != KIND_PURE_CYRIUS {
        return EINVAL;
      }
      table := t;
      slots := slots && t.value.releaseControl && t.value.closeBus;
      heldn, devs := 0, [];
      r := OpenSession(t.value);
      if r < 0 {
        ghost var up, mid := bus, logind.log;
        Release();
        assert OpenFailed(t.value, r, up, old(logind.log), mid);
      }
    }

    // The steps of init that can fail once the table is in place; each failure releases.
    method OpenSession(t: Table) returns (r: int)
      requires HeldOk() && ControlOk() && table == Some(t) && bus == 0
      modifies this`bus, logind
      ensures HeldOk() && ControlOk() && r <= 0
      ensures r == 0 ==> bus != 0 && t.takeControl
      ensures r == 0 ==> Opened(bus, old(logind.log), logind.log)
      ensures r < 0 ==> OpenFailed(t, r, bus, old(logind.log), logind.log)
    {
      if !t.openBus {
        return ENOSYS;
      }
      var ans := logind.Dispatch(OpenBus, 0, false);
      OneMore(old(logind.log), Entry(OpenBus, 0, false, ans));
      ghost var mid := logind.log;
      assert Sent(old(logind.log), mid, OpenBus, 0, false, ans);
      if ans.rc < 0 {
        return ans.rc;
      }
      bus := ans.word;
      if bus == 0 {
        return ENOTCONN;
      }
      if !t.sessionPath {
        return ENOSYS;
      }
      ans := logind.Dispatch(SessionPath, 0, false);
      OneMore(mid, Entry(SessionPath, 0, false, ans));
      assert Sent(mid, logind.log, SessionPath, 0, false, ans);
      if ans.rc < 0 {
        return ans.rc;
      }
      if !t.takeControl {
        return ENOSYS;
      }
      return 0;
    }

    // Take a device. On success it joins the table; on failure the table is as it was, and what is
    // released to put logind back in step is only a device the table does not hold.
    method TakeDevice(major: int, minor: int) returns (r: int)
      requires Valid()
      modifies this`control, this`heldn, this`devs, held, logind
      ensures Valid() && table == old(table) && bus == old(bus)
      ensures r >= 0 ==> Held() == old(Held()) + {(major, minor)} && (major, minor) !in old(Held())
      ensures r < 0 ==> devs == old(devs)
      ensures var refused :=
          if table == None then -22
          else if !table.value.takeDevice then -38
          else if !(0 <= major <= 4294967295 && 0 <= minor <= 4294967295) then -22
          else if (major, minor) in old(Held()) then -22
          else if old(heldn) == 256 then -24
          else 0;
        refused < 0 ==> r == refused && logind.log == old(logind.log) && control == old(control)
      ensures LogGrows(old(logind.log), logind.log, major, minor)
      ensures logind.log != old(logind.log) || r >= 0 ==>
        table.Some? && table.value.takeDevice
        && Taken(table.value, major, minor, r, old(heldn), old(control), control, old(logind.log), logind.log)
    {
      hide Unresolved, Refused, DeviceAsked;
      if table == None {
        return EINVAL;
      }
      if bus == 0 {
        return ENOTCONN;
      }
      if !table.value.takeDevice {
        return ENOSYS;
      }
      if !DevnumOk(major) || !DevnumOk(minor) {
        return EINVAL;
      }
      var at := HeldFind(major, minor);
      if at >= 0 {
        return EINVAL;
      }
      if heldn >= HELD_CAP {
        return EMFILE;
      }
      if heldn == 0 {
        var tc := TakeControl();
        if tc < 0 {
          return tc;
        }
      }
      r := AskDevice(major, minor);
    }

    // The round trip of a take, with control in hand.
    method AskDevice(major: int, minor: int) returns (r: int)
      requires HeldOk() && ControlOk() && table.Some? && bus != 0 && control != 0 && heldn < HELD_CAP
      requires DevnumOk(major) && DevnumOk(minor) && (major, minor) !in Held()
      modifies this`control, this`heldn, this`devs, held, logind
      ensures Valid()
      ensures r >= 0 ==> Held() == old(Held()) + {(major, minor)} && control != 0
      ensures r < 0 ==> devs == old(devs)
      ensures DeviceAsked(table.value, major, minor, r, old(heldn), old(control), control, old(logind.log), logind.log)
      ensures LogGrows(old(logind.log), logind.log, major, minor)
    {
      ghost var before := logind.log;
      var ans := logind.Dispatch(Request.TakeDevice(major, minor), heldn, false);
      assert Sent(before, logind.log, Request.TakeDevice(major, minor), heldn, false, ans);
      OneMore(before, Entry(Request.TakeDevice(major, minor), heldn, false, ans));
      var rc := ans.rc;
      var fd := Int32(ans.word);
      if rc >= 0 {
        if fd >= 0 {
          var _ := HeldAdd(major, minor);
          return fd;
        }
        rc := EBADF;
      }
      ghost var asked := logind.log;
      TakeFailed(rc, major, minor);
      LogGrowsMore(before, asked, logind.log, major, minor);
      return rc;
    }

    // The take failed, though logind may have granted it: put its view back in step with ours.
    method TakeFailed(rc: int, major: int, minor: int)
      requires HeldOk() && ControlOk() && table.Some? && bus != 0 && (heldn > 0 ==> control != 0) && rc < 0
      requires rc == ETIMEDOUT ==> Unresolved(logind.log)
      modifies this`control, logind
      ensures Valid()
      ensures CleanedUp(table.value, Request.ReleaseDevice(major, minor), rc, heldn, old(control), control,
                        old(logind.log), logind.log)
      ensures LogGrows(old(logind.log), logind.log, major, minor)
    {
      if heldn == 0 {
        var _ := DropControl(false);
        return;
      }
      if rc == ETIMEDOUT {
        control := 2;
        return;
      }
      if !BusFailed(rc) && table.value.releaseDevice {
        var ans := logind.Dispatch(Request.ReleaseDevice(major, minor), heldn, false);
        OneMore(old(logind.log), Entry(Request.ReleaseDevice(major, minor), heldn, false, ans));
        assert Sent(old(logind.log), logind.log, Request.ReleaseDevice(major, minor), heldn, false, ans);
      }
    }

    // Give a device back. It leaves the table whatever logind answers, and when it was the last one
    // control goes back too.
    method ReleaseDevice(major: int, minor: int) returns (r: int)
      requires Valid()
      modifies this`control, this`heldn, this`devs, held, logind
      ensures Valid() && table == old(table) && bus == old(bus) && r <= 0
      ensures var asked := && table.Some? && table.value.releaseDevice
                           && 0 <= major <= 4294967295 && 0 <= minor <= 4294967295;
        && (asked ==> Held() == old(Held()) - {(major, minor)})
        && (asked ==> GivenBack(table.value, major, minor, r, old(heldn), heldn, old(control), control,
                                old(logind.log), logind.log))
        && (!asked ==> r == (if table.Some? && !table.value.releaseDevice then -38 else -22))
        && (!asked ==> devs == old(devs) && logind.log == old(logind.log) && control == old(control))
    {
      if table == None {
        return EINVAL;
      }
      if bus == 0 {
        return ENOTCONN;
      }
      if !table.value.releaseDevice {
        return ENOSYS;
      }
      if !DevnumOk(major) || !DevnumOk(minor) {
        return EINVAL;
      }
      var ans := logind.Dispatch(Request.ReleaseDevice(major, minor), heldn, false);
      OneMore(old(logind.log), Entry(Request.ReleaseDevice(major, minor), heldn, false, ans));
      assert Sent(old(logind.log), logind.log, Request.ReleaseDevice(major, minor), heldn, false, ans);
      hide Unresolved, Refused;
      Forget(major, minor);
      if heldn == 0 {
        var _ := DropControl(false);
      }
      return if ans.rc < 0 then ans.rc else 0;
    }

    method PumpSignals() returns (r: int)
      requires Valid()
      modifies logind
      ensures Valid()
      ensures table.Some? && table.value.pump ==>
        exists ans :: Sent(old(logind.log), logind.log, Pump, heldn, false, ans) && r == ans.rc
      ensures table == None ==> r == -22 && logind.log == old(logind.log)
      ensures table.Some? && !table.value.pump ==> r == -38 && logind.log == old(logind.log)
    {
      if table == None {
        return EINVAL;
      }
      if bus == 0 {
        return ENOTCONN;
      }
      if !table.value.pump {
        return ENOSYS;
      }
      var ans := logind.Dispatch(Pump, heldn, false);
      OneMore(old(logind.log), Entry(Pump, heldn, false, ans));
      return ans.rc;
    }

    // Close the bus and clear everything; safe on a layer that is only partly initialised.
    method Release()
      requires HeldOk() && ControlOk() && (bus != 0 ==> table.Some?)
      modifies this`table, this`bus, this`control, this`heldn, this`devs, logind
      ensures Valid() && Uninitialised() && slots == old(slots)
      ensures slots && logind.truthful ==> !logind.controller
      ensures old(bus) == 0 ==> logind.log == old(logind.log)
      ensures old(bus) != 0 ==> Closed(old(table).value, old(heldn), old(control), old(logind.log), logind.log)
    {
      if bus != 0 {
        var _ := DropControl(true);
        ghost var dropped := logind.log;
        if table.value.closeBus {
          var ans := logind.Dispatch(CloseBus, heldn, true);
          assert Sent(dropped, logind.log, CloseBus, heldn, true, ans);
        }
        bus := 0;
      }
      control, heldn, devs, table := 0, 0, [], None;
    }
  }

  predicate BusFailed(rc: int) {
    rc in {ECONNRESET, ENOTCONN, ETIMEDOUT}
  }

  lemma SwapOut(was: seq<(int, int)>, i: nat)
    requires i < |was| && forall j, k | 0 <= j < k < |was| :: was[j] != was[k]
    ensures var now := was[i := was[|was| - 1]][..|was| - 1];
      && (forall d :: d in now <==> d in was && d != was[i])
      && (forall j, k | 0 <= j < k < |now| :: now[j] != now[k])
  {
    var n := |was| - 1;
    var now := was[i := was[n]][..n];
    forall d | d in was && d != was[i]
      ensures d in now
    {
      var k :| 0 <= k < |was| && was[k] == d;
      assert now[if k == n then i else k] == d;
    }
  }
}
