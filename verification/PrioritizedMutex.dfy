/** The three-mutex priority lock as a transition system: any number of threads, each at a
    program point of one of the four lock and unlock calls, taking one mutex operation at a
    time in any order. */
module PrioritizedMutex {

  datatype Owner = Free | Held(thread: nat)

  /** Where a thread is; each point names the mutex operation it performs next. */
  datatype Point =
    | Idle
    | LowWantWait | LowWantNext | LowWantData
    | LowCritical | LowFreeData | LowFreeWait
    | HighWantNext | HighWantData | HighFreeNext
    | HighCritical

  datatype State = State(prioritize: bool, points: seq<Point>, wait: Owner, next: Owner, data: Owner)

  /** A thread calls a lock method, or performs its next mutex operation. */
  datatype Action = CallLow(t: nat) | CallHigh(t: nat) | Advance(t: nat)

  predicate Initial(s: State) {
    s.wait == s.next == s.data == Free && forall t :: 0 <= t < |s.points| ==> s.points[t] == Idle
  }

  /** A lock operation waits for its mutex; everything else is always possible. */
  predicate Enabled(s: State, a: Action) {
    a.t < |s.points| &&
    match a
    case CallLow(t) => s.points[t] == Idle
    case CallHigh(t) => s.points[t] == Idle
    case Advance(t) =>
      match s.points[t]
      case Idle => false
      case LowWantWait => s.wait == Free
      case LowWantNext => s.next == Free
      case HighWantNext => s.next == Free
      case LowWantData => s.data == Free
      case HighWantData => s.data == Free
      case _ => true
  }

  function Step(s: State, a: Action): (r: State)
    requires Enabled(s, a)
  {
    match a
    case CallLow(t) => Move(s, t, if s.prioritize then LowWantWait else LowWantData)
    case CallHigh(t) => Move(s, t, if s.prioritize then HighWantNext else HighWantData)
    case Advance(t) =>
      match s.points[t]
      case LowWantWait => Move(s, t, LowWantNext).(wait := Held(t))
      case LowWantNext => Move(s, t, LowWantData).(next := Held(t))
      case LowWantData => Move(s, t, LowCritical).(data := Held(t))
      case LowCritical =>
        if s.prioritize then Move(s, t, LowFreeData).(next := Free)
        else Move(s, t, Idle).(data := Free)
      case LowFreeData => Move(s, t, LowFreeWait).(data := Free)
      case LowFreeWait => Move(s, t, Idle).(wait := Free)
      case HighWantNext => Move(s, t, HighWantData).(next := Held(t))
      case HighWantData => Move(s, t, if s.prioritize then HighFreeNext else HighCritical).(data := Held(t))
      case HighFreeNext => Move(s, t, HighCritical).(next := Free)
      case HighCritical => Move(s, t, Idle).(data := Free)
  }

  function Move(s: State, t: nat, p: Point): (r: State)
    requires t < |s.points|
  {
    s.(points := s.points[t := p])
  }

  /** A schedule that can be run from a state, and where it leads. */
  ghost predicate Runs(s: State, actions: seq<Action>)
    decreases actions
  {
    actions == [] || (Enabled(s, actions[0]) && Runs(Step(s, actions[0]), actions[1..]))
  }

  ghost function Run(s: State, actions: seq<Action>): (r: State)
    requires Runs(s, actions)
    decreases actions
  {
    if actions == [] then s else Run(Step(s, actions[0]), actions[1..])
  }

  // ---- what every step keeps

  predicate HoldsWait(s: State, p: Point) {
    p in {LowWantNext, LowFreeData, LowFreeWait} || (s.prioritize && p in {LowWantData, LowCritical})
  }

  predicate HoldsNext(s: State, p: Point) {
    p == HighFreeNext || (s.prioritize && p in {LowWantData, LowCritical, HighWantData})
  }

  predicate HoldsData(p: Point) {
    p in {LowCritical, LowFreeData, HighFreeNext, HighCritical}
  }

  predicate PrioritizedOnly(p: Point) {
    p in {LowWantWait, LowWantNext, LowFreeData, LowFreeWait, HighWantNext, HighFreeNext}
  }

  /** A thread holds exactly the mutexes its program point says it holds. */
  predicate ThreadInv(s: State, t: nat)
    requires t < |s.points|
  {
    && (s.wait == Held(t) <==> HoldsWait(s, s.points[t]))
    && (s.next == Held(t) <==> HoldsNext(s, s.points[t]))
    && (s.data == Held(t) <==> HoldsData(s.points[t]))
    && (s.prioritize || !PrioritizedOnly(s.points[t]))
  }

  predicate OwnerExists(s: State, o: Owner) {
    o.Held? ==> o.thread < |s.points|
  }

  ghost predicate Inv(s: State) {
    && OwnerExists(s, s.wait) && OwnerExists(s, s.next) && OwnerExists(s, s.data)
    && forall t :: 0 <= t < |s.points| ==> ThreadInv(s, t)
  }

  /** A step gives or takes a mutex only to or from the thread that moves. */
  predicate Handed(before: Owner, after: Owner, t: nat) {
    before == after || (before == Free && after == Held(t)) || (before == Held(t) && after == Free)
  }

  lemma StepOfThread(s: State, a: Action)
    requires Enabled(s, a) && ThreadInv(s, a.t)
    ensures ThreadInv(Step(s, a), a.t)
    ensures var r := Step(s, a);
            r.prioritize == s.prioritize && r.points == s.points[a.t := r.points[a.t]]
            && Handed(s.wait, r.wait, a.t) && Handed(s.next, r.next, a.t) && Handed(s.data, r.data, a.t)
  {
  }

  lemma StepKeepsInv(s: State, a: Action)
    requires Inv(s) && Enabled(s, a)
    ensures Inv(Step(s, a))
  {
    hide Step;
    var r := Step(s, a);
    StepOfThread(s, a);
    forall t | 0 <= t < |r.points| ensures ThreadInv(r, t) {
      assert ThreadInv(s, t);
    }
  }

  lemma {:induction false} RunKeepsInv(s: State, actions: seq<Action>)
    requires Inv(s) && Runs(s, actions)
    ensures Inv(Run(s, actions)) && Run(s, actions).prioritize == s.prioritize
    ensures |Run(s, actions).points| == |s.points|
    decreases actions
  {
    hide Step;
    if actions != [] {
      StepOfThread(s, actions[0]);
      StepKeepsInv(s, actions[0]);
      RunKeepsInv(Step(s, actions[0]), actions[1..]);
    }
  }

  predicate InCriticalSection(p: Point) {
    p == LowCritical || p == HighCritical
  }

  /** A low-priority thread that has passed the wait mutex. */
  predicate LowPastWait(p: Point) {
    p in {LowWantNext, LowWantData, LowCritical, LowFreeData, LowFreeWait}
  }

  /** Safety of every schedule of any number of threads: at most one thread is in the critical
      section, and with priorities at most one low-priority thread is past the wait mutex,
      so high-priority threads compete with at most one low-priority thread. */
  lemma Safety(s: State, actions: seq<Action>, t: nat, u: nat)
    requires Initial(s) && Runs(s, actions) && t < |s.points| && u < |s.points| && t != u
    ensures var r := Run(s, actions);
            && |r.points| == |s.points|
            && !(InCriticalSection(r.points[t]) && InCriticalSection(r.points[u]))
            && (s.prioritize ==> !(LowPastWait(r.points[t]) && LowPastWait(r.points[u])))
  {
    RunKeepsInv(s, actions);
    var r := Run(s, actions);
    assert ThreadInv(r, t) && ThreadInv(r, u);
  }

  /** The purpose of unlocking in the order next, data, wait: from the moment a low-priority
      thread gives up the next mutex until its unlock call returns, only high-priority
      threads can take the next mutex. */
  lemma HandOffFavorsHigh(s: State, t: nat, u: nat)
    requires Inv(s) && t < |s.points| && s.points[t] in {LowFreeData, LowFreeWait}
    requires Enabled(s, Advance(u)) && s.next == Free && Step(s, Advance(u)).next == Held(u)
    ensures s.points[u] == HighWantNext
  {
    assert ThreadInv(s, t) && ThreadInv(s, u);
  }

  // ---- the paths of the two calls

  predicate LowPath(p: Point) {
    p in {LowWantWait, LowWantNext, LowWantData, LowCritical, LowFreeData, LowFreeWait}
  }

  predicate HighPath(p: Point) {
    p in {HighWantNext, HighWantData, HighFreeNext, HighCritical}
  }

  /** Idle, or on the path of the call. */
  predicate OnPath(p: Point, high: bool) {
    p == Idle || if high then HighPath(p) else LowPath(p)
  }

  predicate CallsBy(a: Action, t: nat) {
    a == CallLow(t) || a == CallHigh(t)
  }

  /** The latest call of a thread in a schedule, and the one before when there is none. */
  ghost function LatestIsHigh(actions: seq<Action>, t: nat, before: bool): (r: bool) {
    if actions == [] then before
    else LatestIsHigh(actions[1..], t, if CallsBy(actions[0], t) then actions[0].CallHigh? else before)
  }

  lemma {:induction false} LatestAt(actions: seq<Action>, t: nat, before: bool, i: nat)
    requires i < |actions| && CallsBy(actions[i], t) && forall j :: i < j < |actions| ==> !CallsBy(actions[j], t)
    ensures LatestIsHigh(actions, t, before) == actions[i].CallHigh?
    decreases |actions|
  {
    var rest := actions[1..];
    assert forall j :: 0 <= j < |rest| ==> rest[j] == actions[j + 1];
    var next := if CallsBy(actions[0], t) then actions[0].CallHigh? else before;
    if i > 0 {
      LatestAt(rest, t, next, i - 1);
    } else {
      NoLaterCall(rest, t, next);
    }
  }

  lemma {:induction false} NoLaterCall(actions: seq<Action>, t: nat, before: bool)
    requires forall j :: 0 <= j < |actions| ==> !CallsBy(actions[j], t)
    ensures LatestIsHigh(actions, t, before) == before
  {
    if actions != [] { NoLaterCall(actions[1..], t, before); }
  }

  lemma StepStaysOnPath(s: State, a: Action, t: nat, high: bool)
    requires Enabled(s, a) && t < |s.points| && OnPath(s.points[t], high)
    ensures t < |Step(s, a).points|
    ensures OnPath(Step(s, a).points[t], if CallsBy(a, t) then a.CallHigh? else high)
  {
  }

  lemma {:induction false} RunStaysOnPath(s: State, actions: seq<Action>, t: nat, high: bool)
    requires Runs(s, actions) && t < |s.points| && OnPath(s.points[t], high)
    ensures t < |Run(s, actions).points| && OnPath(Run(s, actions).points[t], LatestIsHigh(actions, t, high))
    decreases actions
  {
    hide Step, OnPath;
    if actions != [] {
      StepStaysOnPath(s, actions[0], t, high);
      RunStaysOnPath(Step(s, actions[0]), actions[1..], t,
                     if CallsBy(actions[0], t) then actions[0].CallHigh? else high);
    }
  }

  /** At most one low-priority thread has passed the wait mutex. */
  ghost predicate OneLowPastWait(points: seq<Point>) {
    forall u, v :: 0 <= u < |points| && 0 <= v < |points| && LowPastWait(points[u]) && LowPastWait(points[v]) ==> u == v
  }

  /** Over every run the two calls keep to their paths: after its latest call a thread is idle or at a
      point of that call. So a high-priority caller never holds the wait mutex and never waits for it,
      and while it waits for the next mutex at most one low-priority caller is past the wait mutex. */
  lemma CallsKeepTheirPath(s: State, actions: seq<Action>, t: nat, i: nat)
    requires Initial(s) && Runs(s, actions) && t < |s.points|
    requires i < |actions| && CallsBy(actions[i], t) && forall j :: i < j < |actions| ==> !CallsBy(actions[j], t)
    ensures var r := Run(s, actions);
            && t < |r.points| && OnPath(r.points[t], actions[i].CallHigh?)
            && (actions[i].CallHigh? ==> r.wait != Held(t) && r.points[t] != LowWantWait)
            && (r.points[t] == HighWantNext ==> OneLowPastWait(r.points))
  {
    RunStaysOnPath(s, actions, t, true);
    LatestAt(actions, t, true, i);
    RunKeepsInv(s, actions);
    var r := Run(s, actions);
    assert ThreadInv(r, t);
    if r.points[t] == HighWantNext {
      forall u, v | 0 <= u < |r.points| && 0 <= v < |r.points| && LowPastWait(r.points[u]) && LowPastWait(r.points[v])
        ensures u == v
      {
        assert ThreadInv(r, u) && ThreadInv(r, v);
      }
    }
  }

  // ---- progress

  /** No deadlock: while any thread is inside a call or the critical section, some thread
      that is not idle can take a step. */
  lemma SomeThreadCanStep(s: State, t: nat) returns (u: nat)
    requires Inv(s) && t < |s.points| && s.points[t] != Idle
    ensures Enabled(s, Advance(u))
  {
    u := if s.data.Held? then s.data.thread else if s.next.Held? then s.next.thread
         else if s.wait.Held? then s.wait.thread else t;
    assert ThreadInv(s, u);
  }

  /** Mutex operations a thread still has to perform until it is idle. */
  function Remaining(prioritize: bool, p: Point): (n: nat) {
    match p
    case Idle => 0
    case LowWantWait => 6
    case LowWantNext => 5
    case LowWantData => if prioritize then 4 else 2
    case LowCritical => if prioritize then 3 else 1
    case LowFreeData => 2
    case LowFreeWait => 1
    case HighWantNext => 4
    case HighWantData => if prioritize then 3 else 2
    case HighFreeNext => 2
    case HighCritical => 1
  }

  function TotalRemaining(prioritize: bool, points: seq<Point>): (n: nat) {
    if points == [] then 0
    else Remaining(prioritize, points[0]) + TotalRemaining(prioritize, points[1..])
  }

  lemma {:induction false} TotalAfterMove(prioritize: bool, points: seq<Point>, t: nat, p: Point)
    requires t < |points|
    ensures TotalRemaining(prioritize, points[t := p])
         == TotalRemaining(prioritize, points) - Remaining(prioritize, points[t]) + Remaining(prioritize, p)
  {
    if t == 0 {
      assert points[0 := p][1..] == points[1..];
    } else {
      TotalAfterMove(prioritize, points[1..], t - 1, p);
      assert points[t := p][1..] == points[1..][t - 1 := p];
    }
  }

  lemma AdvanceUsesOne(s: State, t: nat)
    requires Inv(s) && Enabled(s, Advance(t))
    ensures TotalRemaining(s.prioritize, Step(s, Advance(t)).points) == TotalRemaining(s.prioritize, s.points) - 1
  {
    var r := Step(s, Advance(t));
    TotalAfterMove(s.prioritize, s.points, t, r.points[t]);
    assert r.points == s.points[t := r.points[t]];
    assert ThreadInv(s, t);
  }

  lemma {:induction false} AllIdle(prioritize: bool, points: seq<Point>)
    requires forall t :: 0 <= t < |points| ==> points[t] == Idle
    ensures TotalRemaining(prioritize, points) == 0
  {
    if points != [] { AllIdle(prioritize, points[1..]); }
  }

  /** Without new calls, every step of a schedule uses up one outstanding operation. */
  lemma {:induction false} ScheduleLength(s: State, actions: seq<Action>)
    requires Inv(s) && Runs(s, actions) && forall i :: 0 <= i < |actions| ==> actions[i].Advance?
    ensures |actions| + TotalRemaining(s.prioritize, Run(s, actions).points)
         == TotalRemaining(s.prioritize, s.points)
    decreases actions
  {
    hide Step, TotalRemaining;
    if actions != [] {
      StepKeepsInv(s, actions[0]);
      StepOfThread(s, actions[0]);
      assert actions[0] == Advance(actions[0].t);
      AdvanceUsesOne(s, actions[0].t);
      ScheduleLength(Step(s, actions[0]), actions[1..]);
    }
  }

  /** Every schedule without new calls that cannot be continued has served every caller, in
      exactly the number of outstanding operations: no order of steps can get stuck. */
  lemma EveryScheduleDrains(s: State, actions: seq<Action>)
    requires Inv(s) && Runs(s, actions) && forall i :: 0 <= i < |actions| ==> actions[i].Advance?
    requires forall t: nat :: !Enabled(Run(s, actions), Advance(t))
    ensures forall t :: 0 <= t < |Run(s, actions).points| ==> Run(s, actions).points[t] == Idle
    ensures |actions| == TotalRemaining(s.prioritize, s.points)
  {
    hide Step, Enabled, TotalRemaining;
    var r := Run(s, actions);
    RunKeepsInv(s, actions);
    forall t | 0 <= t < |r.points| ensures r.points[t] == Idle {
      if r.points[t] != Idle {
        var u := SomeThreadCanStep(r, t);
      }
    }
    ScheduleLength(s, actions);
    AllIdle(s.prioritize, r.points);
  }
}
