/** Admin-confirmed public alerts: the double-dispatch guard, the audit rows, and their retention. */
module Evacuation {
  import opened Common

  const DEDUPE_SECONDS := 60.0

  datatype Kind = Evacuate | AllClear

  /** What the citizen app sees; live and from the history. */
  datatype PublicAlert = PublicAlert(id: int, level: string, title: string, message: string, location: int, at: int)

  datatype Key = Key(location: int, kind: Kind)

  /** One audit row. */
  datatype Audit = Audit(id: int, location: int, kind: Kind, message: string, at: int)

  /** How far an authorised confirmation has got: each stage ends at an await. */
  datatype Stage = Authorised | Pushed | Broadcast | Audited {
    function Next(): Stage {
      match this case Authorised => Pushed case Pushed => Broadcast case Broadcast => Audited case Audited => Audited
    }
  }

  datatype Task = Task(alert: PublicAlert, kind: Kind, armedAt: real, stage: Stage)

  /** The guard's dictionary, the confirmations under way or done, what was broadcast live, and the rows written. */
  datatype State = State(lastDispatch: map<Key, real>, tasks: seq<Task>, broadcasts: seq<PublicAlert>, audits: seq<Audit>)

  const INITIAL := State(map[], [], [], [])

  datatype Reply = Conflict | EmptyMessage | Accepted

  /**
   `Confirm` is everything up to the first await, so it runs undisturbed; `Resume` lets one confirmation
   under way take its next stage. Any sequence of events is an interleaving.
   */
  datatype Event =
    | Confirm(location: int, kind: Kind, message: string, id: int, at: int, now: real)
    | Resume(task: nat)

  // ---------------------------------------------------------------- steps

  predicate Blocked(s: State, k: Key, now: real) {
    k in s.lastDispatch && now - s.lastDispatch[k] < DEDUPE_SECONDS
  }

  /** The alert a confirmation broadcasts. */
  function LiveAlert(e: Event): PublicAlert
    requires e.Confirm?
  {
    if e.kind.AllClear? then PublicAlert(e.id, "all_clear", "All Clear", e.message, e.location, e.at)
    else PublicAlert(e.id, "evacuate", "Evacuation Order", e.message, e.location, e.at)
  }

  /** The alert the public history shows for an audit row. */
  function HistoryAlert(a: Audit): PublicAlert {
    if a.kind.AllClear? then PublicAlert(a.id, "all_clear", "All Clear", a.message, a.location, a.at)
    else PublicAlert(a.id, "evacuate", "Evacuation Order", a.message, a.location, a.at)
  }

  function History(audits: seq<Audit>): seq<PublicAlert> {
    if audits == [] then [] else History(audits[..|audits| - 1]) + [HistoryAlert(audits[|audits| - 1])]
  }

  /** The row a confirmation writes in its last stage. */
  function AuditOf(t: Task): Audit { Audit(t.alert.id, t.alert.location, t.kind, t.alert.message, t.alert.at) }

  function ReplyTo(s: State, e: Event): Reply
    requires e.Confirm?
  {
    if Blocked(s, Key(e.location, e.kind), e.now) then Conflict
    else if e.message == "" then EmptyMessage
    else Accepted
  }

  /** `message` is the text after the default and the strip. */
  function Confirmed(s: State, e: Event): State
    requires e.Confirm?
  {
    var k := Key(e.location, e.kind);
    if Blocked(s, k, e.now) then s
    else
      var armed := s.(lastDispatch := s.lastDispatch[k := e.now]);
      if e.message == "" then armed
      else armed.(tasks := s.tasks + [Task(LiveAlert(e), e.kind, e.now, Authorised)])
  }

  function Resumed(s: State, i: nat): State {
    if i >= |s.tasks| || s.tasks[i].stage == Audited then s
    else
      var t := s.tasks[i];
      var next := s.(tasks := s.tasks[i := t.(stage := t.stage.Next())]);
      match t.stage
      case Pushed => next.(broadcasts := s.broadcasts + [t.alert])
      case Broadcast => next.(audits := s.audits + [AuditOf(t)])
      case _ => next
  }

  function Step(s: State, e: Event): State {
    match e
    case Confirm(_, _, _, _, _, _) => Confirmed(s, e)
    case Resume(i) => Resumed(s, i)
  }

  function Run(evs: seq<Event>): State {
    if evs == [] then INITIAL else Step(Run(evs[..|evs| - 1]), evs[|evs| - 1])
  }

  class EvacuationService {
    var lastDispatch: map<Key, real>

    constructor ()
      ensures lastDispatch == map[]
    {
      lastDispatch := map[];
    }

    /** Check and arm without an await in between. A rejected attempt does not extend the window. */
    method GuardDoubleDispatch(location: int, kind: Kind, now: real) returns (allowed: bool)
      modifies this
      ensures allowed <==> !(Key(location, kind) in old(lastDispatch)
                             && now - old(lastDispatch)[Key(location, kind)] < DEDUPE_SECONDS)
      ensures lastDispatch == if allowed then old(lastDispatch)[Key(location, kind) := now] else old(lastDispatch)
    {
      var key := Key(location, kind);
      if key in lastDispatch {
        if now - lastDispatch[key] < DEDUPE_SECONDS {
          return false;
        }
      }
      lastDispatch := lastDispatch[key := now];
      return true;
    }

    /** The head of `confirm`: guard first, then the message check. */
    method BeginConfirm(e: Event, ghost s: State) returns (reply: Reply, task: Option<Task>)
      requires e.Confirm? && s.lastDispatch == lastDispatch
      modifies this
      ensures reply == ReplyTo(s, e) && lastDispatch == Confirmed(s, e).lastDispatch
      ensures Confirmed(s, e).tasks == s.tasks + if task.Some? then [task.value] else []
    {
      var allowed := GuardDoubleDispatch(e.location, e.kind, e.now);
      if !allowed {
        return Conflict, None;
      }
      var level, title := "evacuate", "Evacuation Order";
      if e.kind == AllClear {
        level, title := "all_clear", "All Clear";
      }
      if e.message == "" {
        return EmptyMessage, None;
      }
      var alert := PublicAlert(e.id, level, title, e.message, e.location, e.at);
      return Accepted, Some(Task(alert, e.kind, e.now, Authorised));
    }
  }

  // ---------------------------------------------------------------- spacing in every interleaving

  ghost predicate ArmsAt(evs: seq<Event>, i: nat, k: Key)
    requires i < |evs|
  {
    evs[i].Confirm? && Key(evs[i].location, evs[i].kind) == k && ReplyTo(Run(evs[..i]), evs[i]) != Conflict
  }

  lemma RunOfPrefix(evs: seq<Event>, n: nat)
    requires n < |evs|
    ensures Run(evs[..n + 1]) == Step(Run(evs[..n]), evs[n])
  {
    assert evs[..n + 1][..n] == evs[..n];
  }

  lemma GuardStep(s: State, e: Event, k: Key)
    ensures k in s.lastDispatch ==> k in Step(s, e).lastDispatch && Step(s, e).lastDispatch[k] >= s.lastDispatch[k]
    ensures e.Confirm? && Key(e.location, e.kind) == k && ReplyTo(s, e) != Conflict ==>
              k in Step(s, e).lastDispatch && Step(s, e).lastDispatch[k] == e.now
              && (k in s.lastDispatch ==> e.now - s.lastDispatch[k] >= DEDUPE_SECONDS)
    ensures !(e.Confirm? && Key(e.location, e.kind) == k && ReplyTo(s, e) != Conflict) ==>
              (k in Step(s, e).lastDispatch <==> k in s.lastDispatch)
              && (k in s.lastDispatch ==> Step(s, e).lastDispatch[k] == s.lastDispatch[k])
  {
  }

  lemma {:induction false} ArmedTimeNeverGoesBack(evs: seq<Event>, i: nat, j: nat, k: Key)
    requires i < j <= |evs| && ArmsAt(evs, i, k)
    ensures k in Run(evs[..j]).lastDispatch && Run(evs[..j]).lastDispatch[k] >= evs[i].now
    decreases j
  {
    hide Step, ReplyTo, Run;
    RunOfPrefix(evs, j - 1);
    GuardStep(Run(evs[..j - 1]), evs[j - 1], k);
    if i < j - 1 {
      ArmedTimeNeverGoesBack(evs, i, j - 1, k);
    }
  }

  /** Two confirmations that pass the guard for the same location and kind are at least a minute apart. */
  lemma AuthorisationsSpaced(evs: seq<Event>, i: nat, j: nat, k: Key)
    requires i < j < |evs| && ArmsAt(evs, i, k) && ArmsAt(evs, j, k)
    ensures evs[j].now - evs[i].now >= DEDUPE_SECONDS
  {
    ArmedTimeNeverGoesBack(evs, i, j, k);
  }

  lemma {:induction false} StoredTimeIsArming(evs: seq<Event>, j: nat, k: Key)
    requires j <= |evs| && k in Run(evs[..j]).lastDispatch
    ensures exists i :: 0 <= i < j && ArmsAt(evs, i, k) && Run(evs[..j]).lastDispatch[k] == evs[i].now
  {
    hide Step, ReplyTo, Run;
    if j == 0 {
      NothingArmed(evs[..0]);
    } else {
      RunOfPrefix(evs, j - 1);
      GuardStep(Run(evs[..j - 1]), evs[j - 1], k);
      if ArmsAt(evs, j - 1, k) {
        assert Run(evs[..j]).lastDispatch[k] == evs[j - 1].now;
      } else {
        StoredTimeIsArming(evs, j - 1, k);
      }
    }
  }

  lemma NothingArmed(evs: seq<Event>)
    requires evs == []
    ensures Run(evs).lastDispatch == map[]
  {
  }

  /**
   The guard refines the history, in every interleaving: a confirmation is refused exactly when an earlier one of
   its place and kind passed the guard less than a minute before, whatever became of that one.
   */
  lemma RefusedIffArmedBefore(evs: seq<Event>, j: nat)
    requires j < |evs| && evs[j].Confirm?
    ensures ReplyTo(Run(evs[..j]), evs[j]) == Conflict <==>
              exists i :: 0 <= i < j && ArmsAt(evs, i, Key(evs[j].location, evs[j].kind))
                          && evs[j].now - evs[i].now < DEDUPE_SECONDS
  {
    hide Run, Step;
    var k := Key(evs[j].location, evs[j].kind);
    if k in Run(evs[..j]).lastDispatch {
      StoredTimeIsArming(evs, j, k);
    }
    forall i | 0 <= i < j && ArmsAt(evs, i, k)
      ensures k in Run(evs[..j]).lastDispatch && Run(evs[..j]).lastDispatch[k] >= evs[i].now
    {
      ArmedTimeNeverGoesBack(evs, i, j, k);
    }
  }

  /** A confirmation refused for its empty message has armed the guard: the corrected one is refused as well. */
  lemma EmptyMessageBlocksRetry(evs: seq<Event>, i: nat, j: nat)
    requires i < j < |evs| && evs[i].Confirm? && evs[j].Confirm?
    requires evs[j].location == evs[i].location && evs[j].kind == evs[i].kind
    requires ReplyTo(Run(evs[..i]), evs[i]) == EmptyMessage && evs[j].now - evs[i].now < DEDUPE_SECONDS
    ensures ReplyTo(Run(evs[..j]), evs[j]) == Conflict
  {
    hide Run, Step, ReplyTo;
    assert ArmsAt(evs, i, Key(evs[j].location, evs[j].kind));
    RefusedIffArmedBefore(evs, j);
  }

  // ---------------------------------------------------------------- live alerts, audit rows and the history

  function Collect<T>(tasks: seq<Task>, part: Task -> multiset<T>): multiset<T> {
    if tasks == [] then multiset{}
    else Collect(tasks[..|tasks| - 1], part) + part(tasks[|tasks| - 1])
  }

  function AuditPart(t: Task): multiset<Audit> { if t.stage == Audited then multiset{AuditOf(t)} else multiset{} }

  function LivePart(t: Task): multiset<PublicAlert> {
    if t.stage == Broadcast || t.stage == Audited then multiset{t.alert} else multiset{}
  }

  function UnwrittenPart(t: Task): multiset<PublicAlert> { if t.stage == Broadcast then multiset{t.alert} else multiset{} }

  lemma AddToBoth<T>(a: multiset<T>, b: multiset<T>, c: multiset<T>, d: multiset<T>, m: multiset<T>)
    requires a + b == c + d
    ensures (a + m) + b == (c + m) + d
  {
    assert (a + m) + b == (a + b) + m;
    assert (c + m) + d == (c + d) + m;
  }

  lemma {:induction false} CollectUpdate<T>(tasks: seq<Task>, k: nat, t: Task, part: Task -> multiset<T>)
    requires k < |tasks|
    ensures Collect(tasks[k := t], part) + part(tasks[k]) == Collect(tasks, part) + part(t)
  {
    var n, updated := |tasks| - 1, tasks[k := t];
    var last: multiset<T> := part(updated[n]);
    assert Collect(updated, part) == Collect(updated[..n], part) + last;
    if k < n {
      CollectUpdate(tasks[..n], k, t, part);
      assert updated[..n] == tasks[..n][k := t];
      AddToBoth(Collect(updated[..n], part), part(tasks[k]), Collect(tasks[..n], part), part(t), last);
    } else {
      assert updated[..n] == tasks[..n];
      assert Collect(tasks, part) == Collect(tasks[..n], part) + part(tasks[n]);
    }
  }

  lemma CollectAppend<T>(tasks: seq<Task>, t: Task, part: Task -> multiset<T>)
    ensures Collect(tasks + [t], part) == Collect(tasks, part) + part(t)
  {
    var more := tasks + [t];
    assert more[..|more| - 1] == tasks && more[|more| - 1] == t;
  }

  lemma HistoryAppend(audits: seq<Audit>, a: Audit)
    ensures History(audits + [a]) == History(audits) + [HistoryAlert(a)]
  {
    var more := audits + [a];
    assert more[..|more| - 1] == audits && more[|more| - 1] == a;
  }

  /** Each confirmation was worded live as its audit row will be in the history. */
  ghost predicate WordedAlike(tasks: seq<Task>) {
    forall i :: 0 <= i < |tasks| ==> tasks[i].alert == HistoryAlert(AuditOf(tasks[i]))
  }

  /**
   The rows are exactly those of the finished confirmations, the broadcasts exactly those of the confirmations that
   got so far, and the public history is what was broadcast but for the confirmations still without their row.
   */
  ghost predicate Accounted(s: State) {
    && multiset(s.audits) == Collect(s.tasks, AuditPart)
    && multiset(s.broadcasts) == Collect(s.tasks, LivePart)
    && multiset(History(s.audits)) + Collect(s.tasks, UnwrittenPart) == multiset(s.broadcasts)
  }

  function KeyOf(t: Task): Key { Key(t.alert.location, t.kind) }

  /** Confirmations under way or done, of one place and kind, were armed a minute apart, none after the guard's time. */
  ghost predicate TasksSpaced(s: State) {
    && (forall i, j :: 0 <= i < j < |s.tasks| && KeyOf(s.tasks[i]) == KeyOf(s.tasks[j]) ==>
          s.tasks[j].armedAt - s.tasks[i].armedAt >= DEDUPE_SECONDS)
    && (forall i :: 0 <= i < |s.tasks| ==>
          KeyOf(s.tasks[i]) in s.lastDispatch && s.lastDispatch[KeyOf(s.tasks[i])] >= s.tasks[i].armedAt)
  }

  ghost predicate TaskInvariant(s: State) {
    WordedAlike(s.tasks) && Accounted(s) && TasksSpaced(s)
  }

  lemma ConfirmKeepsSpacing(s: State, e: Event)
    requires TasksSpaced(s) && e.Confirm?
    ensures TasksSpaced(Confirmed(s, e))
  {
  }

  lemma AuthorisedAccounted(s: State, t: Task)
    requires Accounted(s) && t.stage == Authorised
    ensures Accounted(s.(tasks := s.tasks + [t]))
  {
    hide Collect, History;
    CollectAppend(s.tasks, t, AuditPart);
    CollectAppend(s.tasks, t, LivePart);
    CollectAppend(s.tasks, t, UnwrittenPart);
  }

  lemma ConfirmKeeps(s: State, e: Event)
    requires TaskInvariant(s) && e.Confirm?
    ensures TaskInvariant(Confirmed(s, e))
  {
    hide TasksSpaced, Accounted;
    ConfirmKeepsSpacing(s, e);
    ConfirmKeepsAccounts(s, e);
  }

  lemma ConfirmKeepsAccounts(s: State, e: Event)
    requires Accounted(s) && e.Confirm?
    ensures Accounted(Confirmed(s, e))
  {
    hide Collect, History;
    AuthorisedAccounted(s, Task(LiveAlert(e), e.kind, e.now, Authorised));
  }

  lemma AddToEqual<T>(a: multiset<T>, b: multiset<T>, m: multiset<T>)
    requires a + multiset{} == b + m
    ensures a == b + m
  {
    assert a + multiset{} == a;
  }

  lemma Cancel<T>(a: multiset<T>, b: multiset<T>, m: multiset<T>)
    requires a + m == b + m
    ensures a == b
  {
    assert (a + m) - m == a && (b + m) - m == b;
  }

  lemma AppendToMultiset<T>(xs: seq<T>, x: T)
    ensures multiset(xs + [x]) == multiset(xs) + multiset{x} && multiset(xs) == multiset(xs) + multiset{}
  {
  }

  lemma ResumeKeepsRows(s: State, k: nat)
    requires multiset(s.audits) == Collect(s.tasks, AuditPart) && k < |s.tasks| && s.tasks[k].stage != Audited
    ensures multiset(Resumed(s, k).audits) == Collect(Resumed(s, k).tasks, AuditPart)
  {
    hide Collect;
    var t := s.tasks[k];
    var u := t.(stage := t.stage.Next());
    CollectUpdate(s.tasks, k, u, AuditPart);
    AddToEqual(Collect(s.tasks[k := u], AuditPart), Collect(s.tasks, AuditPart), AuditPart(u));
    AppendToMultiset(s.audits, AuditOf(t));
  }

  lemma ResumeKeepsBroadcasts(s: State, k: nat)
    requires multiset(s.broadcasts) == Collect(s.tasks, LivePart) && k < |s.tasks| && s.tasks[k].stage != Audited
    ensures multiset(Resumed(s, k).broadcasts) == Collect(Resumed(s, k).tasks, LivePart)
  {
    hide Collect;
    var t := s.tasks[k];
    var u := t.(stage := t.stage.Next());
    CollectUpdate(s.tasks, k, u, LivePart);
    if t.stage == Broadcast {
      Cancel(Collect(s.tasks[k := u], LivePart), Collect(s.tasks, LivePart), LivePart(u));
    } else {
      AddToEqual(Collect(s.tasks[k := u], LivePart), Collect(s.tasks, LivePart), LivePart(u));
      AppendToMultiset(s.broadcasts, t.alert);
    }
  }

  lemma ResumeKeepsHistory(s: State, k: nat)
    requires multiset(History(s.audits)) + Collect(s.tasks, UnwrittenPart) == multiset(s.broadcasts)
    requires WordedAlike(s.tasks) && k < |s.tasks| && s.tasks[k].stage != Audited
    ensures var next := Resumed(s, k);
            multiset(History(next.audits)) + Collect(next.tasks, UnwrittenPart) == multiset(next.broadcasts)
  {
    hide Collect, History, AuditOf, HistoryAlert;
    var t := s.tasks[k];
    var u := t.(stage := t.stage.Next());
    CollectUpdate(s.tasks, k, u, UnwrittenPart);
    HistoryAppend(s.audits, AuditOf(t));
    var shown, open, open' := multiset(History(s.audits)), Collect(s.tasks, UnwrittenPart), Collect(s.tasks[k := u], UnwrittenPart);
    if t.stage == Broadcast {
      assert open' + multiset{t.alert} == open;
      MoveAcross(shown, multiset{t.alert}, open');
    } else {
      AddToEqual(open', open, UnwrittenPart(u));
      MoveAcross(shown, UnwrittenPart(u), open);
    }
  }

  lemma MoveAcross<T>(a: multiset<T>, m: multiset<T>, b: multiset<T>)
    ensures (a + m) + b == a + (b + m) == (a + b) + m
  {
  }

  lemma ResumeKeepsAccounts(s: State, k: nat)
    requires Accounted(s) && WordedAlike(s.tasks) && k < |s.tasks| && s.tasks[k].stage != Audited
    ensures Accounted(Resumed(s, k))
  {
    hide Collect, History, WordedAlike, Resumed, AuditPart, LivePart, UnwrittenPart;
    ResumeKeepsRows(s, k);
    ResumeKeepsBroadcasts(s, k);
    ResumeKeepsHistory(s, k);
  }

  lemma ResumeKeepsTasks(s: State, k: nat)
    requires TasksSpaced(s) && WordedAlike(s.tasks)
    ensures TasksSpaced(Resumed(s, k)) && WordedAlike(Resumed(s, k).tasks)
  {
    hide HistoryAlert;
    var next := Resumed(s, k);
    assert |next.tasks| == |s.tasks| && next.lastDispatch == s.lastDispatch;
    assert forall i :: 0 <= i < |s.tasks| ==>
             KeyOf(next.tasks[i]) == KeyOf(s.tasks[i]) && next.tasks[i].armedAt == s.tasks[i].armedAt
             && next.tasks[i].alert == s.tasks[i].alert && AuditOf(next.tasks[i]) == AuditOf(s.tasks[i]);
  }

  lemma ResumeKeeps(s: State, k: nat)
    requires TaskInvariant(s)
    ensures TaskInvariant(Resumed(s, k))
  {
    ResumeKeepsTasks(s, k);
    if k < |s.tasks| && s.tasks[k].stage != Audited {
      ResumeKeepsAccounts(s, k);
    }
    hide TasksSpaced, WordedAlike, Accounted;
  }

  /**
   In every interleaving: each finished confirmation has its own audit row and there is no other row, the public
   history shows what was broadcast live except for confirmations still before their row, and confirmations of one
   place and kind are a minute apart.
   */
  lemma {:induction false} EveryInterleaving(evs: seq<Event>)
    ensures TaskInvariant(Run(evs))
  {
    hide TaskInvariant, Confirmed, Resumed;
    if evs == [] {
      InitialInvariant();
    } else {
      EveryInterleaving(evs[..|evs| - 1]);
      var s, e := Run(evs[..|evs| - 1]), evs[|evs| - 1];
      match e
      case Confirm(_, _, _, _, _, _) => ConfirmKeeps(s, e);
      case Resume(i) => ResumeKeeps(s, i);
    }
  }

  lemma InitialInvariant()
    ensures TaskInvariant(INITIAL)
  {
  }

  /** The alerts of the confirmations accepted so far, in their order. */
  function AcceptedAlerts(evs: seq<Event>): seq<PublicAlert> {
    if evs == [] then []
    else
      var before, e := evs[..|evs| - 1], evs[|evs| - 1];
      AcceptedAlerts(before) + if e.Confirm? && ReplyTo(Run(before), e) == Accepted then [LiveAlert(e)] else []
  }

  function AlertsOf(tasks: seq<Task>): seq<PublicAlert> { seq(|tasks|, i requires 0 <= i < |tasks| => tasks[i].alert) }

  lemma AlertsStep(s: State, e: Event)
    ensures AlertsOf(Step(s, e).tasks)
         == AlertsOf(s.tasks) + if e.Confirm? && ReplyTo(s, e) == Accepted then [LiveAlert(e)] else []
  {
  }

  /** The confirmations under way or done are exactly those accepted, in order and each once. */
  lemma {:induction false} TasksAreAccepted(evs: seq<Event>)
    ensures AlertsOf(Run(evs).tasks) == AcceptedAlerts(evs)
  {
    hide Step, ReplyTo, LiveAlert;
    if evs != [] {
      TasksAreAccepted(evs[..|evs| - 1]);
      AlertsStep(Run(evs[..|evs| - 1]), evs[|evs| - 1]);
    }
  }

  /** Some confirmation of the place and kind passed the guard less than a minute before event `j`. */
  ghost predicate ArmedRecently(evs: seq<Event>, j: nat)
    requires j < |evs| && evs[j].Confirm?
  {
    exists i :: 0 <= i < j && ArmsAt(evs, i, Key(evs[j].location, evs[j].kind)) && evs[j].now - evs[i].now < DEDUPE_SECONDS
  }

  /** In every interleaving the recent guard passes and the message decide the answer, the guard first. */
  lemma RepliesExactly(evs: seq<Event>, j: nat)
    requires j < |evs| && evs[j].Confirm?
    ensures ReplyTo(Run(evs[..j]), evs[j]) ==
              if ArmedRecently(evs, j) then Conflict else if evs[j].message == "" then EmptyMessage else Accepted
  {
    hide Run;
    RefusedIffArmedBefore(evs, j);
  }

  /** The alert says in plain words what the confirmation asked for. */
  predicate Announces(a: PublicAlert, e: Event) {
    && e.Confirm? && a.id == e.id && a.location == e.location && a.message == e.message && a.at == e.at
    && (e.kind == Evacuate ==> a.level == "evacuate" && a.title == "Evacuation Order")
    && (e.kind == AllClear ==> a.level == "all_clear" && a.title == "All Clear")
  }

  ghost predicate AcceptedAt(evs: seq<Event>, i: nat)
    requires i < |evs|
  {
    evs[i].Confirm? && ReplyTo(Run(evs[..i]), evs[i]) == Accepted
  }

  ghost predicate Announced(evs: seq<Event>, a: PublicAlert) {
    exists i: nat :: i < |evs| && AcceptedAt(evs, i) && Announces(a, evs[i])
  }

  lemma {:induction false} AcceptedIsAnnounced(evs: seq<Event>, a: PublicAlert)
    requires a in AcceptedAlerts(evs)
    ensures Announced(evs, a)
  {
    hide Run, ReplyTo;
    var n := |evs| - 1;
    if a in AcceptedAlerts(evs[..n]) {
      AcceptedIsAnnounced(evs[..n], a);
      var i: nat :| i < n && AcceptedAt(evs[..n], i) && Announces(a, evs[..n][i]);
      assert evs[..n][..i] == evs[..i];
      assert AcceptedAt(evs, i) && Announces(a, evs[i]);
    } else {
      assert AcceptedAt(evs, n) && Announces(a, evs[n]);
    }
  }

  lemma {:induction false} LiveAlertsOfTasks(tasks: seq<Task>, a: PublicAlert)
    requires a in Collect(tasks, LivePart)
    ensures a in AlertsOf(tasks)
  {
    var n := |tasks| - 1;
    if a in Collect(tasks[..n], LivePart) {
      LiveAlertsOfTasks(tasks[..n], a);
      var i :| 0 <= i < n && AlertsOf(tasks[..n])[i] == a;
      assert AlertsOf(tasks)[i] == a;
    } else {
      assert AlertsOf(tasks)[n] == a;
    }
  }

  /** Everything broadcast, and everything the history shows, announces an accepted confirmation in its own words. */
  lemma OnlyAcceptedIsAnnounced(evs: seq<Event>, a: PublicAlert)
    requires a in Run(evs).broadcasts || a in History(Run(evs).audits)
    ensures Announced(evs, a)
  {
    hide Run, History, Announced, Collect, WordedAlike, TasksSpaced, AcceptedAlerts;
    EveryInterleaving(evs);
    var s := Run(evs);
    assert a in multiset(s.broadcasts) by {
      if a in History(s.audits) {
        assert a in multiset(History(s.audits));
      }
    }
    LiveAlertsOfTasks(s.tasks, a);
    TasksAreAccepted(evs);
    AcceptedIsAnnounced(evs, a);
  }
}
