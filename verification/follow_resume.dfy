/** The reconnect loop of the change feed, against a server that keeps an append-only log of changes.
    A cursor and a revision are both positions in the log.  The environment is a script: for each turn
    of the loop, how the log grows and what the server answers. */
module FollowResume {
  import opened Options

  datatype Resume = Cursor(position: nat) | Since | Live

  datatype Event =
    | Ready(withCursor: bool)
    | Changes(grow: nat, count: nat)
    | Reset
    | Reconnect(withCursor: bool)

  /** A stream ends with its last event, by a transport error or an end of file. */
  datatype Answer = NotServed | Refused | Failed(retryAfter: Option<nat>) | Stream(events: seq<Event>)

  datatype Turn = Turn(grow: nat, probeOk: bool, growDuring: nat, roundComplete: bool, answer: Answer)

  const RETRY_BASE: nat := 10
  const RECONNECT_FLOOR: nat := 1
  const MAX_EXP: nat := 6
  const MAX_SESSIONS_WITHOUT_READY: nat := 3

  function Pow2(e: nat): nat { if e == 0 then 1 else 2 * Pow2(e - 1) }

  function Min(a: nat, b: nat): nat { if a <= b then a else b }

  function Range(lo: nat, hi: nat): (r: set<nat>)
    ensures forall p :: p in r <==> lo <= p < hi
    decreases hi
  {
    if lo >= hi then {} else Range(lo, hi - 1) + {hi - 1}
  }

  /** `covered` are the log positions whose change was applied or was visible to a complete poll round; `gap`
      says that the cursor comes from a subscription that was made without a resume point, past a change
      nobody had seen; `refusals` counts 400 answers since the last sleep. */
  datatype Loop = Loop(resume: Resume, skipProbe: bool, lastRevision: Option<nat>, exp: nat, sessionsWithoutReady: nat,
                       log: nat, covered: set<nat>, gap: bool, refusals: nat, delay: nat)
  {
    function BackoffDelay(): nat { RETRY_BASE * Pow2(exp) }

    function MaxDelay(): nat { RETRY_BASE * Pow2(MAX_EXP) }

    function Sleep(d: nat): Loop { this.(delay := d, refusals := 0) }

    function SleepBackoff(): Loop { Sleep(BackoffDelay()).(exp := Min(exp + 1, MAX_EXP)) }

    function Cover(lo: nat, hi: nat): Loop { this.(covered := covered + Range(lo, hi)) }
  }

  datatype Step = Running(loop: Loop) | Stopped(loop: Loop)

  function Probed(s: Loop, t: Turn): Loop {
    if !t.probeOk then s
    else if s.lastRevision != Some(s.log) then
      s.Cover(0, s.log).(lastRevision := Some(s.log), log := s.log + t.growDuring)
    else s
  }

  /** Where the server starts the stream. */
  function StartOf(s: Loop): nat {
    match s.resume
    case Cursor(c) => c
    case Since => s.lastRevision.UnwrapOr(s.log)
    case Live => s.log
  }

  predicate HasResumePoint(s: Loop) {
    s.resume.Cursor? || (s.resume.Since? && s.lastRevision.Some?)
  }

  predicate CoveredTo(s: Loop, p: nat) {
    forall q :: 0 <= q < p ==> q in s.covered
  }

  /** Whether a subscription that starts now leaves something out: from a cursor, what the cursor left out;
      from a revision, nothing; from nowhere, what has not been seen of the log. */
  predicate LeavesGap(s: Loop) {
    if s.resume.Cursor? then s.gap else !HasResumePoint(s) && !CoveredTo(s, s.log)
  }

  /** The events of one stream, from position `pos`; the result says whether the session was healthy. */
  function Session(s: Loop, pos: nat, events: seq<Event>, gotReady: bool): (Loop, bool)
    decreases |events|
  {
    if events == [] then (s, gotReady)
    else
      match events[0]
      case Ready(withCursor) =>
        var r := if withCursor then s.(resume := Cursor(pos)) else s;
        Session(r.(exp := 0, sessionsWithoutReady := 0), pos, events[1..], true)
      case Changes(grow, count) =>
        var next := if pos + count <= s.log + grow then pos + count else pos;
        Session(s.(log := s.log + grow).Cover(pos, next).(resume := Cursor(next)), next, events[1..], gotReady)
      case Reset => (s.(resume := Since), true)
      case Reconnect(withCursor) => (if withCursor then s.(resume := Cursor(pos)) else s, true)
  }

  function AfterSession(s: Loop, healthy: bool): Step {
    var r := if s.resume.Cursor? then s else s.(resume := Since, gap := false);
    if healthy then Running(r.Sleep(RECONNECT_FLOOR))
    else
      var q := r.(sessionsWithoutReady := r.sessionsWithoutReady + 1);
      if q.sessionsWithoutReady >= MAX_SESSIONS_WITHOUT_READY then Stopped(q) else Running(q.SleepBackoff())
  }

  function Connected(s: Loop, answer: Answer): Step {
    match answer
    case NotServed => Stopped(s)
    case Refused =>
      var r := s.(refusals := s.refusals + 1);
      (match s.resume
       case Cursor(_) => Running(r.(resume := Since, gap := false))
       case Since => Running(r.(resume := Live))
       case Live => Stopped(r))
    case Failed(hint) =>
      Running(if hint.Some? then s.Sleep(Min(hint.value, s.MaxDelay())) else s.SleepBackoff())
    case Stream(events) =>
      var (r, healthy) := Session(s.(gap := LeavesGap(s)), StartOf(s), events, false);
      AfterSession(r, healthy)
  }

  /** One turn of the loop. */
  function Turned(s0: Loop, t: Turn): Step {
    var s := s0.(log := s0.log + t.grow);
    if s.resume.Since? && s.skipProbe then Connected(s.(skipProbe := false), t.answer)
    else if s.resume.Since? then
      if t.probeOk && s.lastRevision != Some(s.log) && !t.roundComplete
      then Running(s.(log := s.log + t.growDuring).SleepBackoff())
      else Connected(Probed(s, t), t.answer)
    else Connected(s, t.answer)
  }

  function Run(s: Loop, turns: seq<Turn>): Step
    decreases |turns|
  {
    if turns == [] then Running(s)
    else
      match Turned(s, turns[0])
      case Stopped(r) => Stopped(r)
      case Running(r) => Run(r, turns[1..])
  }

  // ----- What every run keeps ----------------------------------------------------------------

  function Rank(r: Resume): nat {
    match r
    case Cursor(_) => 2
    case Since => 1
    case Live => 0
  }

  /** The resume points lie in the log.  Everything before the last known revision is covered, and everything
      before a cursor exactly when no gap is open. */
  ghost predicate PointsOk(s: Loop) {
    && RevisionOk(s) && CursorOk(s)
    && (!s.resume.Cursor? ==> !s.gap)
  }

  ghost predicate RevisionOk(s: Loop) {
    s.lastRevision.Some? ==> s.lastRevision.value <= s.log && CoveredTo(s, s.lastRevision.value)
  }

  ghost predicate CursorOk(s: Loop) {
    s.resume.Cursor? ==> s.resume.position <= s.log && (CoveredTo(s, s.resume.position) <==> !s.gap)
  }

  ghost predicate PaceOk(s: Loop) {
    && s.exp <= MAX_EXP && s.sessionsWithoutReady < MAX_SESSIONS_WITHOUT_READY
    && s.refusals + Rank(s.resume) <= 2
    && s.delay <= s.MaxDelay()
  }

  ghost predicate Inv(s: Loop) { PointsOk(s) && PaceOk(s) }

  /** The first connect: the caller has just learnt the revision, or has failed to. */
  function Start(revision: Option<nat>, log: nat): Loop {
    Loop(Since, revision.Some?, revision, 0, 0, log, Range(0, revision.UnwrapOr(0)), false, 0, 0)
  }

  lemma {:induction false} Pow2Grows(a: nat, b: nat)
    requires a <= b
    ensures 1 <= Pow2(a) <= Pow2(b)
  {
    if a < b { Pow2Grows(a, b - 1); } else if a > 0 { Pow2Grows(a - 1, b - 1); }
  }

  lemma {:induction false} SessionKeepsPoints(s: Loop, pos: nat, events: seq<Event>, gotReady: bool)
    requires RevisionOk(s) && CursorOk(s) && pos <= s.log && (CoveredTo(s, pos) <==> !s.gap)
    ensures var (r, healthy) := Session(s, pos, events, gotReady);
            RevisionOk(r) && CursorOk(r) && r.refusals == s.refusals && r.gap == s.gap && r.delay == s.delay
            && (s.sessionsWithoutReady < MAX_SESSIONS_WITHOUT_READY ==>
                r.sessionsWithoutReady < MAX_SESSIONS_WITHOUT_READY)
            && (s.exp <= MAX_EXP ==> r.exp <= MAX_EXP)
    decreases |events|
  {
    hide CoveredTo;
    if events != [] {
      match events[0]
      case Ready(withCursor) =>
        var r := if withCursor then s.(resume := Cursor(pos)) else s;
        SameCovered(s, r);
        SameCovered(s, r.(exp := 0, sessionsWithoutReady := 0));
        SessionKeepsPoints(r.(exp := 0, sessionsWithoutReady := 0), pos, events[1..], true);
      case Changes(grow, count) =>
        var next := if pos + count <= s.log + grow then pos + count else pos;
        var r := s.(log := s.log + grow).Cover(pos, next).(resume := Cursor(next));
        ChangesKeepPoints(s, pos, next, r);
        SessionKeepsPoints(r, next, events[1..], gotReady);
      case Reset => SameCovered(s, s.(resume := Since));
      case Reconnect(withCursor) => SameCovered(s, s.(resume := Cursor(pos)));
    }
  }

  lemma SameCovered(s: Loop, r: Loop)
    requires r.covered == s.covered
    ensures forall p :: CoveredTo(r, p) <==> CoveredTo(s, p)
  {
  }

  lemma ChangesKeepPoints(s: Loop, pos: nat, next: nat, r: Loop)
    requires RevisionOk(s) && (CoveredTo(s, pos) <==> !s.gap) && pos <= next <= r.log
    requires r.covered == s.covered + Range(pos, next) && r.resume == Cursor(next) && r.gap == s.gap
    requires r.lastRevision == s.lastRevision && s.log <= r.log
    ensures RevisionOk(r) && CursorOk(r) && (CoveredTo(r, next) <==> !r.gap)
  {
    if CoveredTo(r, next) {
      forall q | 0 <= q < pos ensures q in s.covered { assert q in r.covered; }
    }
  }

  lemma BackoffIsBounded(s: Loop)
    requires s.exp <= MAX_EXP
    ensures RETRY_BASE <= s.BackoffDelay() <= s.MaxDelay() && s.MaxDelay() == 640
  {
    Pow2Grows(0, s.exp);
    Pow2Grows(s.exp, MAX_EXP);
    assert Pow2(6) == 64;
  }

  /** Why the loop gives up. */
  predicate GivesUp(s: Loop, answer: Answer, r: Loop) {
    || answer.NotServed?
    || (answer.Refused? && s.resume.Live?)
    || (answer.Stream? && r.sessionsWithoutReady == MAX_SESSIONS_WITHOUT_READY)
  }

  lemma AfterSessionKeepsInv(s: Loop, healthy: bool)
    requires RevisionOk(s) && CursorOk(s) && s.exp <= MAX_EXP && s.sessionsWithoutReady < MAX_SESSIONS_WITHOUT_READY
    requires s.refusals <= 2 && s.delay <= s.MaxDelay()
    ensures var r := AfterSession(s, healthy);
            && PointsOk(r.loop) && r.loop.refusals <= 3
            && (r.Running? ==> PaceOk(r.loop) && r.loop.refusals == 0)
            && (r.Stopped? ==> r.loop.sessionsWithoutReady == MAX_SESSIONS_WITHOUT_READY)
  {
    BackoffIsBounded(s);
  }

  lemma StreamKeepsInv(s: Loop, answer: Answer)
    requires Inv(s) && answer.Stream?
    ensures var r := Connected(s, answer);
            && PointsOk(r.loop) && r.loop.refusals <= 3
            && (r.Running? ==> PaceOk(r.loop) && r.loop.refusals == 0)
            && (r.Stopped? ==> GivesUp(s, answer, r.loop))
  {
    var b := s.(gap := LeavesGap(s));
    SessionKeepsPoints(b, StartOf(s), answer.events, false);
    var (r, healthy) := Session(b, StartOf(s), answer.events, false);
    hide Session, PointsOk, RevisionOk, CursorOk, AfterSession;
    AfterSessionKeepsInv(r, healthy);
  }

  lemma ConnectedKeepsInv(s: Loop, answer: Answer)
    requires Inv(s)
    ensures var r := Connected(s, answer);
            && PointsOk(r.loop) && r.loop.refusals <= 3
            && (r.Running? ==> PaceOk(r.loop))
            && (r.Running? ==> r.loop.refusals == 0 || (answer.Refused? && r.loop.refusals == s.refusals + 1))
            && (r.Stopped? ==> GivesUp(s, answer, r.loop))
  {
    BackoffIsBounded(s);
    if answer.Stream? {
      hide Connected, Inv;
      StreamKeepsInv(s, answer);
    }
  }

  /** One turn keeps the invariant.  A turn that neither stops nor sleeps is one more refusal, and the
      third refusal in a row is the last: the resume point has run out. */
  lemma TurnKeepsInv(s: Loop, t: Turn)
    requires Inv(s)
    ensures var r := Turned(s, t);
            && PointsOk(r.loop) && r.loop.refusals <= 3
            && (r.Running? ==> Inv(r.loop))
            && (r.Running? ==> r.loop.refusals == 0 || r.loop.refusals == s.refusals + 1)
            && (r.Stopped? ==> GivesUp(s, t.answer, r.loop))
  {
    hide Connected;
    BackoffIsBounded(s);
    var g := s.(log := s.log + t.grow);
    if s.resume.Since? && s.skipProbe {
      ConnectedKeepsInv(g.(skipProbe := false), t.answer);
    } else if s.resume.Since? {
      if t.probeOk && s.lastRevision != Some(g.log) && !t.roundComplete {
      } else {
        ConnectedKeepsInv(Probed(g, t), t.answer);
      }
    } else {
      ConnectedKeepsInv(g, t.answer);
    }
  }

  /** In every run, against every server, from a known or an unknown revision: every change before the current
      resume point has been applied by the stream or was covered by a complete poll round, exactly when no
      gap is open; and everything before the last known revision is covered in any case. */
  lemma {:induction false} NoChangeIsSkippedIff(s: Loop, turns: seq<Turn>)
    requires Inv(s)
    ensures var r := Run(s, turns).loop;
            && PointsOk(r) && r.refusals <= 3
            && ((HasResumePoint(r) ==> CoveredTo(r, StartOf(r))) <==> !r.gap)
            && (r.lastRevision.Some? ==> CoveredTo(r, r.lastRevision.value))
    decreases |turns|
  {
    if turns != [] {
      TurnKeepsInv(s, turns[0]);
      var next := Turned(s, turns[0]);
      if next.Running? { NoChangeIsSkippedIff(next.loop, turns[1..]); }
    }
  }

  lemma StartIsOk(revision: Option<nat>, log: nat)
    requires revision.Some? ==> revision.value <= log
    ensures Inv(Start(revision, log))
  {
    Pow2Grows(0, MAX_EXP);
  }

  /** After an answer a gap is open exactly when the loop holds a cursor, and it held one with a gap before, or
      it subscribed without a cursor and without a revision while a change of the log had not been seen. */
  lemma GapIff(s: Loop, answer: Answer)
    requires Inv(s)
    ensures var r := Connected(s, answer).loop;
            r.gap <==> r.resume.Cursor? && (if s.resume.Cursor? then s.gap
                                            else !HasResumePoint(s) && !CoveredTo(s, s.log))
  {
    if answer.Stream? {
      var b := s.(gap := LeavesGap(s));
      SessionKeepsPoints(b, StartOf(s), answer.events, false);
      hide Session, PointsOk, RevisionOk, CursorOk;
    }
  }

  /** A gap lasts exactly as long as the cursor: nothing that the stream brings closes it, and every way back
      to the last known revision does. */
  lemma GapLasts(s: Loop, t: Turn)
    requires Inv(s) && s.gap
    ensures var r := Turned(s, t).loop;
            && (r.gap <==> r.resume.Cursor?)
            && (r.gap ==> exists q :: 0 <= q < s.log && q !in r.covered)
  {
    var g := s.(log := s.log + t.grow);
    GapIff(g, t.answer);
    TurnKeepsInv(s, t);
    var r := Turned(s, t).loop;
    if r.gap { GapStays(s, g, t.answer); }
    hide Connected;
  }

  lemma GapStays(s: Loop, g: Loop, answer: Answer)
    requires Inv(s) && s.gap && g.log >= s.log && g == s.(log := g.log)
    requires Connected(g, answer).loop.resume.Cursor?
    ensures exists q :: 0 <= q < s.log && q !in Connected(g, answer).loop.covered
  {
    var q :| 0 <= q < s.resume.position && q !in s.covered;
    if answer.Stream? {
      SessionCoversAhead(g.(gap := LeavesGap(g)), s.resume.position, answer.events, false, q);
      hide Session;
    }
    assert q !in Connected(g, answer).loop.covered;
  }

  /** A stream covers nothing before its start. */
  lemma {:induction false} SessionCoversAhead(s: Loop, pos: nat, events: seq<Event>, gotReady: bool, q: nat)
    requires q < pos && q !in s.covered
    ensures q !in Session(s, pos, events, gotReady).0.covered
    decreases |events|
  {
    if events != [] {
      match events[0]
      case Ready(withCursor) =>
        var r := if withCursor then s.(resume := Cursor(pos)) else s;
        SessionCoversAhead(r.(exp := 0, sessionsWithoutReady := 0), pos, events[1..], true, q);
      case Changes(grow, count) =>
        var next := if pos + count <= s.log + grow then pos + count else pos;
        SessionCoversAhead(s.(log := s.log + grow).Cover(pos, next).(resume := Cursor(next)), next, events[1..],
            gotReady, q);
      case _ =>
    }
  }

  /** A gap does open: the server refuses the revision, accepts a bare subscription and hands out a cursor,
      and the changes in between are not looked at for as long as that cursor is good. */
  lemma RefusedRevisionSkipsChanges()
    ensures var r := Run(Start(Some(1), 1),
                         [Turn(4, true, 0, true, Refused), Turn(0, true, 0, true, Stream([Ready(true)]))]);
            r.Running? && r.loop.resume == Cursor(5) && 3 !in r.loop.covered && r.loop.gap
  {
    var turns := [Turn(4, true, 0, true, Refused), Turn(0, true, 0, true, Stream([Ready(true)]))];
    var s := Start(Some(1), 1);
    var s1 := s.(log := 5, skipProbe := false, refusals := 1, resume := Live);
    assert Turned(s, turns[0]) == Running(s1);
    assert turns[1..] == [turns[1]] && turns[1..][1..] == [];
    assert [Ready(true)][1..] == [];
    assert 3 !in s1.covered && LeavesGap(s1);
    var r1 := s1.(gap := true, resume := Cursor(5), exp := 0, sessionsWithoutReady := 0);
    assert Session(s1.(gap := true), 5, [Ready(true)], false) == (r1, true);
    assert Run(s, turns) == Run(s1, turns[1..]);
  }

  // ----- What the events of a stream do ------------------------------------------------------------

  /** None of these events lets the server end the stream. */
  predicate Endless(events: seq<Event>) {
    forall e :: e in events ==> !e.Reset? && !e.Reconnect?
  }

  /** How far the server's log and the stream have come after these events. */
  function Reached(log: nat, pos: nat, events: seq<Event>): (nat, nat)
    decreases |events|
  {
    if events == [] then (log, pos)
    else
      match events[0]
      case Changes(grow, count) =>
        Reached(log + grow, if pos + count <= log + grow then pos + count else pos, events[1..])
      case _ => Reached(log, pos, events[1..])
  }

  lemma {:induction false} SessionSplits(s: Loop, pos: nat, a: seq<Event>, b: seq<Event>, gotReady: bool)
    requires Endless(a)
    ensures var (r, healthy) := Session(s, pos, a, gotReady);
            && Session(s, pos, a + b, gotReady) == Session(r, Reached(s.log, pos, a).1, b, healthy)
            && r.log == Reached(s.log, pos, a).0
    decreases |a|
  {
    if a == [] {
      assert a + b == b;
    } else {
      assert a[0] in a && (a + b)[0] == a[0] && (a + b)[1..] == a[1..] + b;
      var n, next, healthy := s, pos, gotReady;
      match a[0] {
        case Ready(withCursor) =>
          n := (if withCursor then s.(resume := Cursor(pos)) else s).(exp := 0, sessionsWithoutReady := 0);
          healthy := true;
        case Changes(grow, count) =>
          next := if pos + count <= s.log + grow then pos + count else pos;
          n := s.(log := s.log + grow).Cover(pos, next).(resume := Cursor(next));
      }
      assert Session(s, pos, a, gotReady) == Session(n, next, a[1..], healthy);
      assert Session(s, pos, a + b, gotReady) == Session(n, next, a[1..] + b, healthy);
      assert Reached(s.log, pos, a) == Reached(n.log, next, a[1..]);
      hide Session, Reached;
      SessionSplits(n, next, a[1..], b, healthy);
    }
  }

  /** A stream that the server resets: the loop goes back to the last known revision, whatever came before and
      whatever would have come after, and the session counts as healthy. */
  lemma ResetGoesBack(s: Loop, front: seq<Event>, rest: seq<Event>)
    requires Endless(front)
    ensures var r := Connected(s, Stream(front + [Reset] + rest));
            r.Running? && r.loop.resume.Since? && !r.loop.gap && r.loop.delay == RECONNECT_FLOOR
            && r.loop.lastRevision == s.lastRevision && r.loop.skipProbe == s.skipProbe
  {
    var g := s.(gap := LeavesGap(s));
    SessionSplits(g, StartOf(s), front, [Reset] + rest, false);
    SessionKeepsRevision(g, StartOf(s), front, false);
    assert front + ([Reset] + rest) == front + [Reset] + rest;
  }

  lemma {:induction false} SessionKeepsRevision(s: Loop, pos: nat, events: seq<Event>, gotReady: bool)
    ensures var r := Session(s, pos, events, gotReady).0;
            && r.lastRevision == s.lastRevision && r.skipProbe == s.skipProbe
            && s.covered <= r.covered && s.log <= r.log
    decreases |events|
  {
    if events != [] {
      match events[0]
      case Ready(withCursor) =>
        var r := if withCursor then s.(resume := Cursor(pos)) else s;
        SessionKeepsRevision(r.(exp := 0, sessionsWithoutReady := 0), pos, events[1..], true);
      case Changes(grow, count) =>
        var next := if pos + count <= s.log + grow then pos + count else pos;
        SessionKeepsRevision(s.(log := s.log + grow).Cover(pos, next).(resume := Cursor(next)), next, events[1..],
            gotReady);
      case _ =>
    }
  }

  /** The turn after a reset asks for the revision first.  When it has moved, a complete round makes everything
      up to it visible and it is remembered, and an incomplete round is tried again after a pause. */
  lemma ResetReconciles(s: Loop, front: seq<Event>, rest: seq<Event>, t: Turn)
    requires Endless(front) && !s.skipProbe
    ensures var r := Connected(s, Stream(front + [Reset] + rest)).loop;
            var next, log := Turned(r, t), r.log + t.grow;
            && (t.probeOk && r.lastRevision != Some(log) && t.roundComplete ==>
                  CoveredTo(next.loop, log) && next.loop.lastRevision == Some(log))
            && (t.probeOk && r.lastRevision != Some(log) && !t.roundComplete ==>
                  next.Running? && next.loop.resume.Since? && next.loop.lastRevision == r.lastRevision
                  && next.loop.delay == r.BackoffDelay())
            && (t.probeOk && r.lastRevision != Some(log) ==> next.loop.log >= log + t.growDuring)
            && (!t.probeOk || r.lastRevision == Some(log) ==>
                  next == Connected(r.(log := log), t.answer) && next.loop.lastRevision == r.lastRevision)
  {
    ResetGoesBack(s, front, rest);
    var r := Connected(s, Stream(front + [Reset] + rest)).loop;
    var g := r.(log := r.log + t.grow);
    hide Connected;
    if !(t.probeOk && r.lastRevision != Some(g.log) && !t.roundComplete) {
      ConnectedKeepsRevision(Probed(g, t), t.answer);
    }
  }

  /** The probe is skipped before the first connection only. */
  lemma ProbeIsSkippedOnce(s: Loop, t: Turn)
    requires s.skipProbe ==> s.resume.Since?
    ensures !Turned(s, t).loop.skipProbe
  {
    hide Connected;
    var g := s.(log := s.log + t.grow);
    ConnectedKeepsRevision(g.(skipProbe := false), t.answer);
    ConnectedKeepsRevision(Probed(g, t), t.answer);
    ConnectedKeepsRevision(g, t.answer);
  }

  lemma ConnectedKeepsRevision(s: Loop, answer: Answer)
    ensures var r := Connected(s, answer).loop;
            r.lastRevision == s.lastRevision && r.skipProbe == s.skipProbe && s.covered <= r.covered && s.log <= r.log
  {
    if answer.Stream? {
      SessionKeepsRevision(s.(gap := LeavesGap(s)), StartOf(s), answer.events, false);
      hide Session;
    }
  }

  lemma StreamSplits(s: Loop, front: seq<Event>, tail: seq<Event>)
    requires Endless(front)
    ensures var (r, healthy) := Session(s.(gap := LeavesGap(s)), StartOf(s), front, false);
            var (q, ok) := Session(r, Reached(s.log, StartOf(s), front).1, tail, healthy);
            && Connected(s, Stream(front)) == AfterSession(r, healthy)
            && Connected(s, Stream(front + tail)) == AfterSession(q, ok)
            && r.log == Reached(s.log, StartOf(s), front).0
  {
    SessionSplits(s.(gap := LeavesGap(s)), StartOf(s), front, tail, false);
    hide Session, AfterSession, Reached;
  }

  /** After a stream the loop never subscribes without a resume point again: it goes on from a cursor that came
      with the stream, and else from the last known revision, with no gap left open. */
  lemma LiveIsOneShot(s: Loop, events: seq<Event>)
    ensures var r := Connected(s, Stream(events)).loop;
            && !r.resume.Live? && (r.resume.Since? ==> !r.gap)
            && ((forall e :: e in events ==> e == Ready(false) || e == Reconnect(false)) ==>
                  r.resume == if s.resume.Live? then Since else s.resume)
  {
    if forall e :: e in events ==> e == Ready(false) || e == Reconnect(false) {
      NoCursorKeepsResume(s.(gap := LeavesGap(s)), StartOf(s), events, false);
    }
    hide Session;
  }

  lemma {:induction false} NoCursorKeepsResume(s: Loop, pos: nat, events: seq<Event>, gotReady: bool)
    requires forall e :: e in events ==> e == Ready(false) || e == Reconnect(false)
    ensures Session(s, pos, events, gotReady).0.resume == s.resume
    decreases |events|
  {
    if events != [] {
      assert events[0] in events && forall e :: e in events[1..] ==> e in events;
      NoCursorKeepsResume(s.(exp := 0, sessionsWithoutReady := 0), pos, events[1..], true);
    }
  }

  /** A batch of changes is covered, and the cursor that comes with it is the position after it. */
  lemma ChangesMoveTheCursor(s: Loop, front: seq<Event>, grow: nat, count: nat)
    requires Endless(front)
    ensures var (log, pos) := Reached(s.log, StartOf(s), front);
            pos + count <= log + grow ==>
              var r := Connected(s, Stream(front + [Changes(grow, count)])).loop;
              && r.resume == Cursor(pos + count) && r.log == log + grow
              && r.covered == Connected(s, Stream(front)).loop.covered + Range(pos, pos + count)
  {
    StreamSplits(s, front, [Changes(grow, count)]);
    var (r, healthy) := Session(s.(gap := LeavesGap(s)), StartOf(s), front, false);
    LastEvent(r, Reached(s.log, StartOf(s), front).1, [], grow, count, healthy);
    hide Session, Connected, Reached;
  }

  /** A cursor that comes with `ready` is the position reached, and without one the resume point stays; either way
      the backing off is over. */
  lemma ReadyEndsTheBackoff(s: Loop, front: seq<Event>, withCursor: bool)
    requires Endless(front)
    ensures var r := Connected(s, Stream(front + [Ready(withCursor)]));
            && r.Running? && r.loop.exp == 0 && r.loop.sessionsWithoutReady == 0 && r.loop.delay == RECONNECT_FLOOR
            && r.loop.resume == if withCursor then Cursor(Reached(s.log, StartOf(s), front).1)
                                else Connected(s, Stream(front)).loop.resume
  {
    StreamSplits(s, front, [Ready(withCursor)]);
    var (r, healthy) := Session(s.(gap := LeavesGap(s)), StartOf(s), front, false);
    LastEvent(r, Reached(s.log, StartOf(s), front).1, [], 0, 0, healthy);
    hide Session, Connected, Reached;
  }

  /** So is a cursor that comes with `reconnect`; the session is healthy, and nothing after it counts. */
  lemma ReconnectEndsTheStream(s: Loop, front: seq<Event>, withCursor: bool, rest: seq<Event>)
    requires Endless(front)
    ensures var r := Connected(s, Stream(front + ([Reconnect(withCursor)] + rest)));
            && r.Running? && r.loop.delay == RECONNECT_FLOOR
            && r.loop.covered == Connected(s, Stream(front)).loop.covered
            && r.loop.resume == if withCursor then Cursor(Reached(s.log, StartOf(s), front).1)
                                else Connected(s, Stream(front)).loop.resume
  {
    StreamSplits(s, front, [Reconnect(withCursor)] + rest);
    var (r, healthy) := Session(s.(gap := LeavesGap(s)), StartOf(s), front, false);
    LastEvent(r, Reached(s.log, StartOf(s), front).1, rest, 0, 0, healthy);
    hide Session, Connected, Reached;
  }

  lemma LastEvent(s: Loop, pos: nat, rest: seq<Event>, grow: nat, count: nat, healthy: bool)
    ensures var next := if pos + count <= s.log + grow then pos + count else pos;
            Session(s, pos, [Changes(grow, count)], healthy)
              == (s.(log := s.log + grow).Cover(pos, next).(resume := Cursor(next)), healthy)
    ensures Session(s, pos, [Ready(true)], healthy)
         == (s.(resume := Cursor(pos), exp := 0, sessionsWithoutReady := 0), true)
    ensures Session(s, pos, [Ready(false)], healthy) == (s.(exp := 0, sessionsWithoutReady := 0), true)
    ensures Session(s, pos, [Reconnect(true)] + rest, healthy) == (s.(resume := Cursor(pos)), true)
    ensures Session(s, pos, [Reconnect(false)] + rest, healthy) == (s, true)
  {
    assert [Changes(grow, count)][1..] == [] && [Ready(true)][1..] == [] && [Ready(false)][1..] == [];
  }

  /** A session is healthy when the server said that it was ready or ended it itself. */
  lemma {:induction false} HealthyIff(s: Loop, pos: nat, events: seq<Event>, gotReady: bool)
    ensures Session(s, pos, events, gotReady).1
       <==> gotReady || exists e :: e in events && (e.Ready? || e.Reset? || e.Reconnect?)
    ensures !Session(s, pos, events, gotReady).1 ==>
      Session(s, pos, events, gotReady).0.sessionsWithoutReady == s.sessionsWithoutReady
    decreases |events|
  {
    if events != [] {
      assert forall e :: e in events <==> e == events[0] || e in events[1..];
      match events[0]
      case Ready(withCursor) =>
        var r := if withCursor then s.(resume := Cursor(pos)) else s;
        HealthyIff(r.(exp := 0, sessionsWithoutReady := 0), pos, events[1..], true);
      case Changes(grow, count) =>
        var next := if pos + count <= s.log + grow then pos + count else pos;
        HealthyIff(s.(log := s.log + grow).Cover(pos, next).(resume := Cursor(next)), next, events[1..], gotReady);
      case _ =>
    }
  }

  /** The loop gives up exactly when the feed is not served, when a subscription without any resume point is
      refused, or with the third stream in a row that the server neither opened with `ready` nor ended itself. */
  lemma GivesUpIff(s: Loop, answer: Answer)
    requires s.sessionsWithoutReady < MAX_SESSIONS_WITHOUT_READY
    ensures Connected(s, answer).Stopped?
       <==> match answer
            case NotServed => true
            case Refused => s.resume.Live?
            case Failed(_) => false
            case Stream(events) =>
              s.sessionsWithoutReady == 2 && forall e :: e in events ==> e.Changes?
  {
    if answer.Stream? {
      HealthyIff(s.(gap := LeavesGap(s)), StartOf(s), answer.events, false);
      hide Session;
    }
  }

  /** A refused resume point is given up for the next best one, without a pause; a failed connection keeps it
      and pauses for as long as the server asks, within the limit, or as the backoff says. */
  lemma SetbacksStepBack(s: Loop, hint: Option<nat>)
    ensures s.resume.Cursor? ==>
      Connected(s, Refused).loop == s.(resume := Since, gap := false, refusals := s.refusals + 1)
    ensures s.resume.Since? ==> Connected(s, Refused).loop == s.(resume := Live, refusals := s.refusals + 1)
    ensures var r := Connected(s, Failed(hint)).loop;
            && r.resume == s.resume && r.covered == s.covered && r.lastRevision == s.lastRevision
            && r.delay == (match hint
                           case Some(h) => if h <= 640 then h else 640
                           case None => 10 * Pow2(s.exp))
            && r.exp == (if hint.Some? || s.exp == 6 then s.exp else if s.exp < 6 then s.exp + 1 else 6)
  {
    assert Pow2(6) == 64;
  }

  // ----- The loop ----------------------------------------------------------------------------

  /** Exponential backoff: the delay doubles with every attempt, up to 64 times the base. */
  class Backoff {
    const base: nat
    var exp: nat

    constructor (b: nat)
      ensures base == b && exp == 0
    {
      base, exp := b, 0;
    }

    method Next() returns (delay: nat)
      modifies this
      ensures delay == base * Pow2(old(exp)) && exp == Min(old(exp) + 1, MAX_EXP)
    {
      delay := base * Pow2(exp);
      exp := Min(exp + 1, MAX_EXP);
    }

    method Reset()
      modifies this
      ensures exp == 0
    {
      exp := 0;
    }
  }

  class FollowLoop {
    var resume: Resume
    var skipProbe: bool
    var lastRevision: Option<nat>
    var sessionsWithoutReady: nat
    const backoff: Backoff
    /** The server's log, which the answers depend on; the other ghost fields only watch. */
    var log: nat
    ghost var covered: set<nat>
    ghost var gap: bool
    ghost var refusals: nat
    ghost var delay: nat

    ghost function State(): Loop
      reads this, backoff
    {
      Loop(resume, skipProbe, lastRevision, backoff.exp, sessionsWithoutReady, log, covered, gap, refusals, delay)
    }

    ghost predicate Valid()
      reads this, backoff
    {
      backoff.base == RETRY_BASE
    }

    constructor (revision: Option<nat>, initial: nat)
      ensures Valid() && State() == Start(revision, initial) && fresh(backoff)
    {
      resume, skipProbe, lastRevision, sessionsWithoutReady := Since, revision.Some?, revision, 0;
      backoff := new Backoff(RETRY_BASE);
      log, covered, gap, refusals, delay := initial, Range(0, revision.UnwrapOr(0)), false, 0, 0;
    }

    method SleepFor(d: nat)
      modifies this`refusals, this`delay
      ensures refusals == 0 && delay == d
    {
      refusals, delay := 0, d;
    }

    /** The events of one session; the server is at position `start` of the log. */
    method FollowStream(start: nat, events: seq<Event>) returns (healthy: bool)
      requires Valid()
      modifies this, backoff
      ensures Valid() && (State(), healthy) == Session(old(State()), start, events, false)
    {
      var gotReady, pos := false, start;
      for k := 0 to |events|
        invariant Valid()
        invariant Session(State(), pos, events[k..], gotReady) == Session(old(State()), start, events, false)
      {
        assert events[k..][0] == events[k] && events[k..][1..] == events[k + 1..];
        match events[k]
        case Ready(withCursor) =>
          if withCursor { resume := Cursor(pos); }
          gotReady := true;
          backoff.Reset();
          sessionsWithoutReady := 0;
        case Changes(grow, count) =>
          log := log + grow;
          var next := if pos + count <= log then pos + count else pos;
          covered := covered + Range(pos, next);
          pos := next;
          resume := Cursor(pos);
        case Reset =>
          resume := Since;
          return true;
        case Reconnect(withCursor) =>
          if withCursor { resume := Cursor(pos); }
          return true;
      }
      assert events[|events|..] == [];
      healthy := gotReady;
    }

    /** Probes the revision and, when it moved, reconciles; false means to sleep and try again. */
    method ProbeAndReconcile(t: Turn) returns (proceed: bool)
      requires Valid()
      modifies this, backoff
      ensures Valid()
      ensures var s := old(State());
              if t.probeOk && s.lastRevision != Some(s.log) && !t.roundComplete
              then !proceed && State() == s.(log := s.log + t.growDuring).SleepBackoff()
              else proceed && State() == Probed(s, t)
      ensures log == if t.probeOk && old(lastRevision) != Some(old(log)) then old(log) + t.growDuring else old(log)
    {
      proceed := true;
      if t.probeOk {
        var rev := log;
        if lastRevision != Some(rev) {
          log := log + t.growDuring;
          if !t.roundComplete {
            var d := backoff.Next();
            SleepFor(d);
            return false;
          }
          covered := covered + Range(0, rev);
        }
        lastRevision := Some(rev);
      }
    }

    method EndSession(healthy: bool) returns (running: bool)
      requires Valid()
      modifies this, backoff
      ensures Valid() && AfterSession(old(State()), healthy) == if running then Running(State()) else Stopped(State())
    {
      if resume.Live? { resume := Since; }
      gap := gap && resume.Cursor?;
      if healthy {
        SleepFor(RECONNECT_FLOOR);
        return true;
      }
      sessionsWithoutReady := sessionsWithoutReady + 1;
      if sessionsWithoutReady >= MAX_SESSIONS_WITHOUT_READY { return false; }
      var d := backoff.Next();
      SleepFor(d);
      running := true;
    }

    method Connect(answer: Answer) returns (running: bool)
      requires Valid()
      modifies this, backoff
      ensures Valid() && Connected(old(State()), answer) == if running then Running(State()) else Stopped(State())
    {
      var start := match resume
                   case Cursor(c) => c
                   case Since => lastRevision.UnwrapOr(log)
                   case Live => log;
      match answer
      case NotServed => return false;
      case Refused =>
        refusals := refusals + 1;
        match resume {
          case Cursor(_) => resume := Since; gap := false;
          case Since => resume := Live;
          case Live => return false;
        }
        running := true;
      case Failed(hint) =>
        if hint.Some? {
          SleepFor(Min(hint.value, backoff.base * Pow2(MAX_EXP)));
        } else {
          var d := backoff.Next();
          SleepFor(d);
        }
        running := true;
      case Stream(events) =>
        gap := LeavesGap(State());
        var healthy := FollowStream(start, events);
        running := EndSession(healthy);
    }

    method OneTurn(t: Turn) returns (running: bool)
      requires Valid()
      modifies this, backoff
      ensures Valid() && Turned(old(State()), t) == if running then Running(State()) else Stopped(State())
    {
      hide Connected;
      log := log + t.grow;
      if resume.Since? {
        if !skipProbe {
          var proceed := ProbeAndReconcile(t);
          if !proceed { return true; }
        }
        skipProbe := false;
      }
      running := Connect(t.answer);
    }

    /** The whole loop, for as long as the environment keeps answering. */
    method FollowRemoteChanges(turns: seq<Turn>) returns (running: bool)
      requires Valid()
      modifies this, backoff
      ensures Valid() && Run(old(State()), turns) == if running then Running(State()) else Stopped(State())
    {
      hide Turned;
      for k := 0 to |turns|
        invariant Valid()
        invariant Run(State(), turns[k..]) == Run(old(State()), turns)
      {
        assert turns[k..][0] == turns[k] && turns[k..][1..] == turns[k + 1..];
        running := OneTurn(turns[k]);
        if !running { return; }
      }
      assert turns[|turns|..] == [];
      running := true;
    }
  }
}
