/** Responder sign-up: one-time passwords, activation, and the groups, with the reserved default group. */
module Responders {
  import opened Common

  const DEFAULT_GROUP := "All Active Responders"

  datatype Status = Pending | Active

  datatype Group = Group(name: string, members: set<int>)

  datatype Otp = Otp(code: string, expiresAt: int, attempts: nat)

  /** `str.strip` and `str.casefold`, whatever they do to the text. */
  datatype Text = Text(strip: string -> string, fold: string -> string)

  /** The three tables. */
  datatype Directory = Directory(responders: map<int, Status>, groups: map<nat, Group>, otps: map<int, Otp>, next: nat)

  datatype Reply = Done | NotFound | BadRequest | NoRequest | Expired | TooMany | Incorrect | Verified

  datatype Event =
    | CreateResponders(ids: set<int>)
    | SendOtp(responder: int, code: string, expiresAt: int)
    | Verify(responder: int, code: string, now: int)
    | ListGroups
    | CreateGroup(name: string, members: seq<int>)
    | UpdateGroup(id: nat, name: string, members: seq<int>)
    | DeleteGroup(id: nat)
    | DeleteExpired(now: int)

  // ---------------------------------------------------------------- steps

  /** `validate_group_name`. */
  function ValidName(name: string, tx: Text): Option<string> {
    var normalized := tx.strip(name);
    if normalized == "" || tx.fold(normalized) == tx.fold(DEFAULT_GROUP) then None else Some(normalized)
  }

  predicate IsReserved(name: string, tx: Text) { tx.fold(name) == tx.fold(DEFAULT_GROUP) }

  ghost predicate HasGroup(d: Directory, name: string) { exists g :: g in d.groups && d.groups[g].name == name }

  ghost predicate TakenByOther(d: Directory, name: string, id: nat) {
    exists g :: g in d.groups && g != id && d.groups[g].name == name
  }

  /** `ensure_exists` for the default group. */
  ghost function EnsureDefault(d: Directory): Directory {
    if HasGroup(d, DEFAULT_GROUP) then d
    else d.(groups := d.groups[d.next := Group(DEFAULT_GROUP, {})], next := d.next + 1)
  }

  function WithMember(groups: map<nat, Group>, name: string, r: int): map<nat, Group> {
    map g | g in groups ::
      if groups[g].name == name then groups[g].(members := groups[g].members + {r}) else groups[g]
  }

  ghost function VerifyStep(d0: Directory, r: int, code: string, now: int, limit: nat): (Directory, Reply) {
    var d := EnsureDefault(d0);
    if r !in d.otps then (d, NoRequest)
    else
      var record := d.otps[r];
      if record.expiresAt < now then (d.(otps := d.otps - {r}), Expired)
      else if record.code != code then
        if record.attempts + 1 >= limit then (d.(otps := d.otps - {r}), TooMany)
        else (d.(otps := d.otps[r := record.(attempts := record.attempts + 1)]), Incorrect)
      else
        var pending := r in d.responders && d.responders[r] == Pending;
        (d.(responders := if pending then d.responders[r := Active] else d.responders,
            groups := if pending then WithMember(d.groups, DEFAULT_GROUP, r) else d.groups,
            otps := d.otps - {r}),
         Verified)
  }

  ghost function CreateGroupStep(d: Directory, name: string, members: seq<int>, tx: Text): (Directory, Reply) {
    var valid := ValidName(name, tx);
    if valid.None? || HasGroup(d, valid.value) || !(Elements(members) <= d.responders.Keys) then (d, BadRequest)
    else (d.(groups := d.groups[d.next := Group(valid.value, Elements(members))], next := d.next + 1), Done)
  }

  ghost function UpdateGroupStep(d: Directory, id: nat, name: string, members: seq<int>, tx: Text): (Directory, Reply) {
    var valid := ValidName(name, tx);
    if valid.None? then (d, BadRequest)
    else if id !in d.groups then (d, NotFound)
    else if IsReserved(d.groups[id].name, tx) != IsReserved(valid.value, tx)
         || TakenByOther(d, valid.value, id)
         || !(Elements(members) <= d.responders.Keys) then (d, BadRequest)
    else (d.(groups := d.groups[id := Group(valid.value, Elements(members))]), Done)
  }

  function DeleteGroupStep(d: Directory, id: nat, tx: Text): (Directory, Reply) {
    if id !in d.groups then (d, NotFound)
    else if IsReserved(d.groups[id].name, tx) then (d, BadRequest)
    else (d.(groups := d.groups - {id}), Done)
  }

  ghost function Step(d: Directory, e: Event, tx: Text, limit: nat): (Directory, Reply) {
    match e
    case CreateResponders(ids) =>
      if ids !! d.responders.Keys
      then (d.(responders := d.responders + map r | r in ids :: Pending), Done)
      else (d, BadRequest)
    case SendOtp(r, code, expiresAt) =>
      if r in d.responders then (d.(otps := d.otps[r := Otp(code, expiresAt, 0)]), Done) else (d, NotFound)
    case Verify(r, code, now) => VerifyStep(d, r, code, now, limit)
    case ListGroups => (EnsureDefault(d), Done)
    case CreateGroup(name, members) => CreateGroupStep(d, name, members, tx)
    case UpdateGroup(id, name, members) => UpdateGroupStep(d, id, name, members, tx)
    case DeleteGroup(id) => DeleteGroupStep(d, id, tx)
    case DeleteExpired(now) =>
      (d.(otps := map r | r in d.otps && d.otps[r].expiresAt >= now :: d.otps[r]), Done)
  }

  // ---------------------------------------------------------------- invariant

  function ActiveSet(d: Directory): set<int> { set r | r in d.responders && d.responders[r] == Active }

  /** Group names are unique and ids are below the next one; members exist. */
  ghost predicate GroupsValid(d: Directory) {
    && (forall g, h :: g in d.groups && h in d.groups && d.groups[g].name == d.groups[h].name ==> g == h)
    && (forall g :: g in d.groups ==> g < d.next && d.groups[g].members <= d.responders.Keys)
  }

  /** Active responders are exactly the members of the default group. */
  ghost predicate ActiveIffMember(d: Directory) {
    && (forall g :: g in d.groups && d.groups[g].name == DEFAULT_GROUP ==> d.groups[g].members == ActiveSet(d))
    && (!HasGroup(d, DEFAULT_GROUP) ==> ActiveSet(d) == {})
  }

  ghost predicate OtpsValid(d: Directory, limit: nat) {
    && d.otps.Keys <= d.responders.Keys
    && (forall r :: r in d.otps ==> d.otps[r].attempts < limit)
  }

  ghost predicate Valid(d: Directory, limit: nat) { GroupsValid(d) && ActiveIffMember(d) && OtpsValid(d, limit) }

  const EMPTY := Directory(map[], map[], map[], 0)

  lemma EnsureDefaultKeeps(d: Directory, limit: nat)
    requires Valid(d, limit)
    ensures Valid(EnsureDefault(d), limit) && HasGroup(EnsureDefault(d), DEFAULT_GROUP)
    ensures EnsureDefault(d).responders == d.responders && EnsureDefault(d).otps == d.otps
  {
    var e := EnsureDefault(d);
    if !HasGroup(d, DEFAULT_GROUP) {
      assert e.groups[d.next].name == DEFAULT_GROUP;
      assert ActiveSet(e) == ActiveSet(d);
    }
  }

  lemma ActivationKeeps(d: Directory, r: int, limit: nat)
    requires Valid(d, limit) && HasGroup(d, DEFAULT_GROUP) && r in d.responders && d.responders[r] == Pending
    ensures forall g :: g in d.groups && d.groups[g].name == DEFAULT_GROUP ==> r !in d.groups[g].members
    ensures Valid(d.(responders := d.responders[r := Active], groups := WithMember(d.groups, DEFAULT_GROUP, r),
                     otps := d.otps - {r}), limit)
  {
    var groups := WithMember(d.groups, DEFAULT_GROUP, r);
    var e := d.(responders := d.responders[r := Active], groups := groups, otps := d.otps - {r});
    assert ActiveSet(e) == ActiveSet(d) + {r};
    assert forall g :: g in groups ==> groups[g].name == d.groups[g].name;
    assert HasGroup(e, DEFAULT_GROUP) by {
      var g :| g in d.groups && d.groups[g].name == DEFAULT_GROUP;
      assert g in e.groups && e.groups[g].name == DEFAULT_GROUP;
    }
  }

  lemma VerifyKeeps(d0: Directory, r: int, code: string, now: int, limit: nat)
    requires Valid(d0, limit)
    ensures Valid(VerifyStep(d0, r, code, now, limit).0, limit)
  {
    EnsureDefaultKeeps(d0, limit);
    var d := EnsureDefault(d0);
    hide EnsureDefault, WithMember;
    var (e, reply) := VerifyStep(d0, r, code, now, limit);
    if reply == Verified && d.responders[r] == Pending {
      ActivationKeeps(d, r, limit);
    } else {
      assert ActiveSet(e) == ActiveSet(d);
    }
  }

  /** A validated name is never the default group's. */
  lemma ValidNameNotDefault(name: string, tx: Text)
    ensures ValidName(name, tx).Some? ==> ValidName(name, tx).value != DEFAULT_GROUP
    ensures ValidName(name, tx).Some? ==> !IsReserved(ValidName(name, tx).value, tx)
  {
  }

  /** Replacing or adding a group of another name leaves the default group's standing alone. */
  lemma OtherGroupKeeps(d: Directory, id: nat, g: Group, next: nat, limit: nat)
    requires Valid(d, limit) && next >= d.next && id < next
    requires g.name != DEFAULT_GROUP && g.members <= d.responders.Keys && !TakenByOther(d, g.name, id)
    requires id in d.groups ==> d.groups[id].name != DEFAULT_GROUP
    ensures Valid(d.(groups := d.groups[id := g], next := next), limit)
  {
    var e := d.(groups := d.groups[id := g], next := next);
    assert ActiveSet(e) == ActiveSet(d);
    if HasGroup(d, DEFAULT_GROUP) {
      var h :| h in d.groups && d.groups[h].name == DEFAULT_GROUP;
      assert h in e.groups && e.groups[h].name == DEFAULT_GROUP;
    }
  }

  lemma CreateGroupKeeps(d: Directory, name: string, members: seq<int>, tx: Text, limit: nat)
    requires Valid(d, limit)
    ensures Valid(CreateGroupStep(d, name, members, tx).0, limit)
  {
    ValidNameNotDefault(name, tx);
    var (e, reply) := CreateGroupStep(d, name, members, tx);
    if reply == Done {
      OtherGroupKeeps(d, d.next, Group(ValidName(name, tx).value, Elements(members)), d.next + 1, limit);
    }
  }

  lemma UpdateGroupKeeps(d: Directory, id: nat, name: string, members: seq<int>, tx: Text, limit: nat)
    requires Valid(d, limit)
    ensures Valid(UpdateGroupStep(d, id, name, members, tx).0, limit)
    ensures id in d.groups && IsReserved(d.groups[id].name, tx) ==> UpdateGroupStep(d, id, name, members, tx) == (d, BadRequest)
  {
    ValidNameNotDefault(name, tx);
    var (e, reply) := UpdateGroupStep(d, id, name, members, tx);
    if reply == Done {
      OtherGroupKeeps(d, id, Group(ValidName(name, tx).value, Elements(members)), d.next, limit);
    }
  }

  lemma DeleteGroupKeeps(d: Directory, id: nat, tx: Text, limit: nat)
    requires Valid(d, limit)
    ensures Valid(DeleteGroupStep(d, id, tx).0, limit)
  {
    var (e, reply) := DeleteGroupStep(d, id, tx);
    assert ActiveSet(e) == ActiveSet(d);
    if reply == Done && HasGroup(d, DEFAULT_GROUP) {
      var h :| h in d.groups && d.groups[h].name == DEFAULT_GROUP;
      assert h in e.groups && e.groups[h].name == DEFAULT_GROUP;
    }
  }

  lemma SameActiveKeeps(d: Directory, e: Directory, limit: nat)
    requires Valid(d, limit) && e.groups == d.groups && e.next == d.next
    requires d.responders.Keys <= e.responders.Keys && ActiveSet(e) == ActiveSet(d) && OtpsValid(e, limit)
    ensures Valid(e, limit)
  {
    assert HasGroup(e, DEFAULT_GROUP) <==> HasGroup(d, DEFAULT_GROUP);
  }

  /** Every operation keeps the invariant: active iff in the default group, unique names, attempts below the limit. */
  lemma StepKeepsValid(d: Directory, e: Event, tx: Text, limit: nat)
    requires Valid(d, limit) && limit >= 1
    ensures Valid(Step(d, e, tx, limit).0, limit)
  {
    hide VerifyStep, CreateGroupStep, UpdateGroupStep, DeleteGroupStep, EnsureDefault, GroupsValid, ActiveIffMember;
    match e
    case CreateResponders(ids) =>
      assert ActiveSet(Step(d, e, tx, limit).0) == ActiveSet(d);
      SameActiveKeeps(d, Step(d, e, tx, limit).0, limit);
    case SendOtp(_, _, _) => SameActiveKeeps(d, Step(d, e, tx, limit).0, limit);
    case Verify(r, code, now) => VerifyKeeps(d, r, code, now, limit);
    case ListGroups => EnsureDefaultKeeps(d, limit);
    case CreateGroup(name, members) => CreateGroupKeeps(d, name, members, tx, limit);
    case UpdateGroup(id, name, members) => UpdateGroupKeeps(d, id, name, members, tx, limit);
    case DeleteGroup(id) => DeleteGroupKeeps(d, id, tx, limit);
    case DeleteExpired(_) => SameActiveKeeps(d, Step(d, e, tx, limit).0, limit);
  }

  // ---------------------------------------------------------------- runs

  ghost function Run(d: Directory, evs: seq<Event>, tx: Text, limit: nat): Directory {
    if evs == [] then d else Step(Run(d, evs[..|evs| - 1], tx, limit), evs[|evs| - 1], tx, limit).0
  }

  lemma {:induction false} RunKeepsValid(d: Directory, evs: seq<Event>, tx: Text, limit: nat)
    requires Valid(d, limit) && limit >= 1
    ensures Valid(Run(d, evs, tx, limit), limit)
  {
    hide Step, Valid;
    if evs != [] {
      RunKeepsValid(d, evs[..|evs| - 1], tx, limit);
      StepKeepsValid(Run(d, evs[..|evs| - 1], tx, limit), evs[|evs| - 1], tx, limit);
    }
  }

  /** After any run from the empty tables a responder is active iff the default group exists and has it as a member. */
  lemma ActiveIffInDefaultGroup(evs: seq<Event>, tx: Text, limit: nat, r: int)
    requires limit >= 1
    ensures var d := Run(EMPTY, evs, tx, limit);
            (r in d.responders && d.responders[r] == Active) <==>
            exists g :: g in d.groups && d.groups[g].name == DEFAULT_GROUP && r in d.groups[g].members
  {
    hide Step;
    assert Valid(EMPTY, limit);
    RunKeepsValid(EMPTY, evs, tx, limit);
    var d := Run(EMPTY, evs, tx, limit);
    if r in ActiveSet(d) {
      var g :| g in d.groups && d.groups[g].name == DEFAULT_GROUP;
      assert r in d.groups[g].members;
    }
  }

  /**
   The default group keeps its id and name for good. Only a successful verification changes it, by the one
   responder it activates.
   */
  lemma DefaultGroupProtected(d: Directory, e: Event, tx: Text, limit: nat, g: nat)
    requires Valid(d, limit) && g in d.groups && d.groups[g].name == DEFAULT_GROUP
    ensures var next := Step(d, e, tx, limit).0;
            && g in next.groups && next.groups[g].name == DEFAULT_GROUP
            && d.groups[g].members <= next.groups[g].members
            && (next.groups[g] != d.groups[g] ==>
                 e.Verify? && Step(d, e, tx, limit).1 == Verified
                 && next.groups[g].members == d.groups[g].members + {e.responder})
  {
    assert HasGroup(d, DEFAULT_GROUP);
    if e.CreateGroup? {
      ValidNameNotDefault(e.name, tx);
    }
    if e.UpdateGroup? {
      ValidNameNotDefault(e.name, tx);
    }
  }

  /** The responders activated by the events of a run. */
  ghost function Verifieds(d: Directory, evs: seq<Event>, tx: Text, limit: nat): set<int> {
    if evs == [] then {}
    else
      var last := evs[|evs| - 1];
      Verifieds(d, evs[..|evs| - 1], tx, limit)
      + if last.Verify? && Step(Run(d, evs[..|evs| - 1], tx, limit), last, tx, limit).1 == Verified
        then {last.responder} else {}
  }

  /**
   Between any two points of a run the default group keeps its id and name, loses nobody, and gains only
   responders whose code was verified in between.
   */
  lemma {:induction false} DefaultGroupOverRun(d: Directory, evs: seq<Event>, tx: Text, limit: nat, g: nat)
    requires Valid(d, limit) && limit >= 1 && g in d.groups && d.groups[g].name == DEFAULT_GROUP
    ensures var next := Run(d, evs, tx, limit);
            && g in next.groups && next.groups[g].name == DEFAULT_GROUP
            && d.groups[g].members <= next.groups[g].members <= d.groups[g].members + Verifieds(d, evs, tx, limit)
  {
    hide Step, Valid;
    if evs != [] {
      var before, last := evs[..|evs| - 1], evs[|evs| - 1];
      DefaultGroupOverRun(d, before, tx, limit, g);
      RunKeepsValid(d, before, tx, limit);
      DefaultGroupProtected(Run(d, before, tx, limit), last, tx, limit, g);
    }
  }

  // ---------------------------------------------------------------- one-time passwords

  /** Guesses the record of `r` still admits. */
  function Budget(d: Directory, r: int, limit: nat): int {
    if r in d.otps then limit - d.otps[r].attempts else 0
  }

  /** The event checks a code of `r` against a live record. */
  ghost predicate Guesses(d: Directory, e: Event, tx: Text, limit: nat, r: int) {
    e.Verify? && e.responder == r && Step(d, e, tx, limit).1 in {TooMany, Incorrect, Verified}
  }

  /** Without a new code every checked guess uses up the budget, and a success or a last failure all of it. */
  lemma BudgetStep(d: Directory, e: Event, tx: Text, limit: nat, r: int)
    requires Valid(d, limit) && (e.SendOtp? ==> e.responder != r)
    ensures var next := Step(d, e, tx, limit).0;
            && Budget(next, r, limit) >= 0
            && Budget(next, r, limit) <= Budget(d, r, limit) - (if Guesses(d, e, tx, limit, r) then 1 else 0)
            && (Guesses(d, e, tx, limit, r) && Step(d, e, tx, limit).1 == Verified ==> Budget(next, r, limit) == 0)
  {
    hide GroupsValid, ActiveIffMember, CreateGroupStep, UpdateGroupStep, WithMember;
    EnsureDefaultKeeps(d, limit);
    hide EnsureDefault;
    if e.CreateGroup? {
      assert CreateGroupStep(d, e.name, e.members, tx).0.otps == d.otps by { GroupStepsKeepOtps(d, e, tx); }
    }
    if e.UpdateGroup? {
      assert UpdateGroupStep(d, e.id, e.name, e.members, tx).0.otps == d.otps by { GroupStepsKeepOtps(d, e, tx); }
    }
  }

  lemma GroupStepsKeepOtps(d: Directory, e: Event, tx: Text)
    ensures e.CreateGroup? ==> CreateGroupStep(d, e.name, e.members, tx).0.otps == d.otps
    ensures e.UpdateGroup? ==> UpdateGroupStep(d, e.id, e.name, e.members, tx).0.otps == d.otps
  {
  }

  ghost function GuessCount(d: Directory, evs: seq<Event>, tx: Text, limit: nat, r: int): nat {
    if evs == [] then 0
    else
      var prev := evs[..|evs| - 1];
      GuessCount(d, prev, tx, limit, r)
      + if Guesses(Run(d, prev, tx, limit), evs[|evs| - 1], tx, limit, r) then 1 else 0
  }

  ghost function SuccessCount(d: Directory, evs: seq<Event>, tx: Text, limit: nat, r: int): nat {
    if evs == [] then 0
    else
      var prev := evs[..|evs| - 1];
      var last := evs[|evs| - 1];
      SuccessCount(d, prev, tx, limit, r)
      + if last.Verify? && last.responder == r && Step(Run(d, prev, tx, limit), last, tx, limit).1 == Verified then 1 else 0
  }

  ghost predicate NoNewCode(evs: seq<Event>, r: int) {
    forall i :: 0 <= i < |evs| ==> !(evs[i].SendOtp? && evs[i].responder == r)
  }

  lemma {:induction false} GuessesWithinBudget(d: Directory, evs: seq<Event>, tx: Text, limit: nat, r: int)
    requires Valid(d, limit) && limit >= 1 && NoNewCode(evs, r)
    ensures GuessCount(d, evs, tx, limit, r) + Budget(Run(d, evs, tx, limit), r, limit) <= Budget(d, r, limit)
    ensures Budget(Run(d, evs, tx, limit), r, limit) >= 0
    ensures SuccessCount(d, evs, tx, limit, r) <= 1
    ensures SuccessCount(d, evs, tx, limit, r) == 1 ==> Budget(Run(d, evs, tx, limit), r, limit) == 0
  {
    hide Step, Valid, Budget;
    if evs == [] {
      BudgetSign(d, r, limit);
    } else {
      var prev, last := evs[..|evs| - 1], evs[|evs| - 1];
      GuessesWithinBudget(d, prev, tx, limit, r);
      RunKeepsValid(d, prev, tx, limit);
      BudgetStep(Run(d, prev, tx, limit), last, tx, limit, r);
    }
  }

  lemma BudgetSign(d: Directory, r: int, limit: nat)
    requires Valid(d, limit)
    ensures Budget(d, r, limit) >= 0
  {
  }

  /**
   From one issued code to the next, in any run: at most `limit` codes are checked for the responder, and at
   most one of them succeeds.
   */
  lemma IssuedCodeAdmitsFewGuesses(before: seq<Event>, issue: Event, after: seq<Event>, tx: Text, limit: nat)
    requires limit >= 1 && issue.SendOtp? && NoNewCode(after, issue.responder)
    ensures var d := Step(Run(EMPTY, before, tx, limit), issue, tx, limit).0;
            && GuessCount(d, after, tx, limit, issue.responder) <= limit
            && SuccessCount(d, after, tx, limit, issue.responder) <= 1
  {
    assert Valid(EMPTY, limit);
    RunKeepsValid(EMPTY, before, tx, limit);
    hide Valid, Run;
    var d0 := Run(EMPTY, before, tx, limit);
    StepKeepsValid(d0, issue, tx, limit);
    var d := Step(d0, issue, tx, limit).0;
    GuessesWithinBudget(d, after, tx, limit, issue.responder);
    BudgetSign(d0, issue.responder, limit);
    BudgetAtMostLimit(d, issue.responder, limit);
  }

  lemma BudgetAtMostLimit(d: Directory, r: int, limit: nat)
    ensures Budget(d, r, limit) <= limit
  {
  }

  // ---------------------------------------------------------------- which code verifies

  ghost function ReplyAt(evs: seq<Event>, i: nat, tx: Text, limit: nat): Reply
    requires i < |evs|
  {
    Step(Run(EMPTY, evs[..i], tx, limit), evs[i], tx, limit).1
  }

  /** Event `i` issues a code to the responder. */
  ghost predicate Issues(evs: seq<Event>, i: nat, tx: Text, limit: nat, r: int)
    requires i < |evs|
  {
    evs[i].SendOtp? && evs[i].responder == r && ReplyAt(evs, i, tx, limit) == Done
  }

  predicate Tries(e: Event, r: int) { e.Verify? && e.responder == r }

  function TryCount(evs: seq<Event>, lo: nat, hi: nat, r: int): nat
    requires lo <= hi <= |evs|
    decreases hi
  {
    if lo == hi then 0 else TryCount(evs, lo, hi - 1, r) + if Tries(evs[hi - 1], r) then 1 else 0
  }

  /** The event neither presents this code, nor comes after its expiry to try or clear it. */
  predicate Spares(e: Event, r: int, code: string, expiresAt: int) {
    (Tries(e, r) ==> e.now <= expiresAt && e.code != code) && (e.DeleteExpired? ==> e.now <= expiresAt)
  }

  /** After `n` events the code issued by event `i` is the one in force: not replaced, used, expired or out of attempts. */
  ghost predicate Live(evs: seq<Event>, i: nat, n: nat, tx: Text, limit: nat, r: int)
    requires n <= |evs|
  {
    && i < n && Issues(evs, i, tx, limit, r)
    && (forall m: nat :: i < m < n ==> !Issues(evs, m, tx, limit, r))
    && (forall m: nat :: i < m < n ==> Spares(evs[m], r, evs[i].code, evs[i].expiresAt))
    && (TryCount(evs, i + 1, n, r) == 0 || TryCount(evs, i + 1, n, r) < limit)
  }

  /** What an event does to the code of `r`, and what a try is answered. */
  lemma OtpStep(d: Directory, e: Event, tx: Text, limit: nat, r: int)
    ensures var (next, reply) := Step(d, e, tx, limit);
            if e.SendOtp? && e.responder == r && reply == Done then r in next.otps && next.otps[r] == Otp(e.code, e.expiresAt, 0)
            else if r !in d.otps then r !in next.otps && (Tries(e, r) ==> reply == NoRequest)
            else
              var o := d.otps[r];
              && (Tries(e, r) ==>
                   reply == if o.expiresAt < e.now then Expired else if e.code == o.code then Verified
                            else if o.attempts + 1 >= limit then TooMany else Incorrect)
              && (r in next.otps <==> Spares(e, r, o.code, o.expiresAt) && (Tries(e, r) ==> o.attempts + 1 < limit))
              && (r in next.otps ==> next.otps[r] == o.(attempts := o.attempts + if Tries(e, r) then 1 else 0))
  {
    hide CreateGroupStep, UpdateGroupStep, WithMember, HasGroup;
    GroupStepsKeepOtps(d, e, tx);
  }

  lemma RunOfPrefix(evs: seq<Event>, n: nat, tx: Text, limit: nat)
    requires n < |evs|
    ensures Run(EMPTY, evs[..n + 1], tx, limit) == Step(Run(EMPTY, evs[..n], tx, limit), evs[n], tx, limit).0
  {
    assert evs[..n + 1][..n] == evs[..n];
  }

  lemma LiveStep(evs: seq<Event>, i: nat, n: nat, tx: Text, limit: nat, r: int)
    requires n < |evs|
    ensures Live(evs, i, n + 1, tx, limit, r) <==>
              if Issues(evs, n, tx, limit, r) then i == n
              else
                && Live(evs, i, n, tx, limit, r) && Spares(evs[n], r, evs[i].code, evs[i].expiresAt)
                && (Tries(evs[n], r) ==> TryCount(evs, i + 1, n, r) + 1 < limit)
  {
    hide Issues, Spares, Tries;
  }

  /** The stored code is the live one, with the wrong tries since it was issued. */
  ghost predicate Recorded(evs: seq<Event>, i: nat, n: nat, tx: Text, limit: nat, r: int)
    requires i < n <= |evs| && evs[i].SendOtp?
  {
    var otps := Run(EMPTY, evs[..n], tx, limit).otps;
    r in otps && otps[r] == Otp(evs[i].code, evs[i].expiresAt, TryCount(evs, i + 1, n, r))
  }

  lemma {:induction false} OtpIsHistory(evs: seq<Event>, n: nat, tx: Text, limit: nat, r: int)
    requires n <= |evs|
    ensures forall i: nat :: Live(evs, i, n, tx, limit, r) ==> Recorded(evs, i, n, tx, limit, r)
    ensures r in Run(EMPTY, evs[..n], tx, limit).otps ==> exists i: nat :: Live(evs, i, n, tx, limit, r)
  {
    hide Step, Issues, Spares;
    if n == 0 {
      assert Run(EMPTY, evs[..0], tx, limit) == EMPTY;
    } else {
      OtpIsHistory(evs, n - 1, tx, limit, r);
      RunOfPrefix(evs, n - 1, tx, limit);
      OtpHistoryStep(evs, n - 1, n, tx, limit, r);
    }
  }

  lemma IssueMeans(evs: seq<Event>, i: nat, tx: Text, limit: nat, r: int)
    requires i < |evs|
    ensures Issues(evs, i, tx, limit, r) <==>
              evs[i].SendOtp? && evs[i].responder == r
              && Step(Run(EMPTY, evs[..i], tx, limit), evs[i], tx, limit).1 == Done
  {
  }

  lemma OtpHistoryStep(evs: seq<Event>, n: nat, next: nat, tx: Text, limit: nat, r: int)
    requires n < |evs| && next == n + 1
    requires forall i: nat :: Live(evs, i, n, tx, limit, r) ==> Recorded(evs, i, n, tx, limit, r)
    requires r in Run(EMPTY, evs[..n], tx, limit).otps ==> exists i: nat :: Live(evs, i, n, tx, limit, r)
    ensures forall i: nat :: Live(evs, i, next, tx, limit, r) ==> Recorded(evs, i, next, tx, limit, r)
    ensures r in Run(EMPTY, evs[..next], tx, limit).otps ==> exists i: nat :: Live(evs, i, next, tx, limit, r)
  {
    var d := Run(EMPTY, evs[..n], tx, limit);
    RunOfPrefix(evs, n, tx, limit);
    OtpStep(d, evs[n], tx, limit, r);
    IssueMeans(evs, n, tx, limit, r);
    hide Step, Run, Issues, Spares, Live;
    forall i: nat | Live(evs, i, next, tx, limit, r) ensures Recorded(evs, i, next, tx, limit, r) {
      LiveStep(evs, i, n, tx, limit, r);
      LiveIssues(evs, i, next, tx, limit, r);
    }
    if r in Run(EMPTY, evs[..next], tx, limit).otps {
      if Issues(evs, n, tx, limit, r) {
        LiveStep(evs, n, n, tx, limit, r);
      } else {
        var i: nat :| Live(evs, i, n, tx, limit, r);
        LiveIssues(evs, i, n, tx, limit, r);
        LiveStep(evs, i, n, tx, limit, r);
      }
    }
  }

  lemma LiveIssues(evs: seq<Event>, i: nat, n: nat, tx: Text, limit: nat, r: int)
    requires n <= |evs| && Live(evs, i, n, tx, limit, r)
    ensures i < n && evs[i].SendOtp? && evs[i].responder == r
  {
  }

  /** The try at `n` presents the live code in time. */
  ghost predicate PresentsLiveCode(evs: seq<Event>, n: nat, tx: Text, limit: nat, r: int)
    requires n < |evs|
  {
    Tries(evs[n], r)
    && exists i: nat :: Live(evs, i, n, tx, limit, r) && evs[n].code == evs[i].code && evs[n].now <= evs[i].expiresAt
  }

  /**
   In every run a try is answered by the live code alone: none means no request, and otherwise the expiry, the code and
   the number of tries since it was issued decide, in this order.
   */
  lemma VerifyAnswersExactly(evs: seq<Event>, n: nat, tx: Text, limit: nat, r: int)
    requires n < |evs| && Tries(evs[n], r)
    ensures (exists i: nat :: Live(evs, i, n, tx, limit, r)) <==> ReplyAt(evs, n, tx, limit) != NoRequest
    ensures forall i: nat :: Live(evs, i, n, tx, limit, r) ==>
              ReplyAt(evs, n, tx, limit) ==
                if evs[i].expiresAt < evs[n].now then Expired
                else if evs[n].code == evs[i].code then Verified
                else if TryCount(evs, i + 1, n, r) + 1 >= limit then TooMany else Incorrect
    ensures ReplyAt(evs, n, tx, limit) == Verified <==> PresentsLiveCode(evs, n, tx, limit, r)
  {
    OtpIsHistory(evs, n, tx, limit, r);
    OtpStep(Run(EMPTY, evs[..n], tx, limit), evs[n], tx, limit, r);
    hide Step, Run, Live, Spares;
    forall i: nat | Live(evs, i, n, tx, limit, r) ensures i < n && evs[i].SendOtp? && Recorded(evs, i, n, tx, limit, r) {
      LiveIssues(evs, i, n, tx, limit, r);
    }
  }

  lemma ActiveStep(d: Directory, e: Event, tx: Text, limit: nat, r: int)
    requires Valid(d, limit)
    ensures r in ActiveSet(Step(d, e, tx, limit).0) <==>
              r in ActiveSet(d) || (Tries(e, r) && Step(d, e, tx, limit).1 == Verified)
    ensures r in Step(d, e, tx, limit).0.responders <==>
              r in d.responders || (e.CreateResponders? && r in e.ids && Step(d, e, tx, limit).1 == Done)
    ensures e.SendOtp? ==> (Step(d, e, tx, limit).1 == Done <==> e.responder in d.responders)
    ensures e.CreateResponders? ==> (Step(d, e, tx, limit).1 == Done <==> e.ids !! d.responders.Keys)
  {
    hide WithMember, GroupsValid, ActiveIffMember, HasGroup;
  }

  /** A code can be issued to exactly the responders created before, and only new responders are created. */
  lemma {:induction false} RegisteredIsHistory(evs: seq<Event>, n: nat, tx: Text, limit: nat, r: int)
    requires n <= |evs| && limit >= 1
    ensures r in Run(EMPTY, evs[..n], tx, limit).responders <==>
              exists m: nat :: m < n && evs[m].CreateResponders? && r in evs[m].ids && ReplyAt(evs, m, tx, limit) == Done
    ensures n < |evs| && evs[n].SendOtp? && evs[n].responder == r ==>
              (ReplyAt(evs, n, tx, limit) == Done <==> r in Run(EMPTY, evs[..n], tx, limit).responders)
    ensures n < |evs| && evs[n].CreateResponders? && r in evs[n].ids && ReplyAt(evs, n, tx, limit) == Done ==>
              r !in Run(EMPTY, evs[..n], tx, limit).responders
  {
    hide Step, Valid;
    RunFromEmptyValid(evs[..n], tx, limit);
    if n < |evs| {
      ActiveStep(Run(EMPTY, evs[..n], tx, limit), evs[n], tx, limit, r);
    }
    if n == 0 {
      assert Run(EMPTY, evs[..0], tx, limit) == EMPTY;
    } else {
      RegisteredIsHistory(evs, n - 1, tx, limit, r);
      RunOfPrefix(evs, n - 1, tx, limit);
      RunFromEmptyValid(evs[..n - 1], tx, limit);
      ActiveStep(Run(EMPTY, evs[..n - 1], tx, limit), evs[n - 1], tx, limit, r);
    }
  }

  lemma RunFromEmptyValid(evs: seq<Event>, tx: Text, limit: nat)
    requires limit >= 1
    ensures Valid(Run(EMPTY, evs, tx, limit), limit)
  {
    assert Valid(EMPTY, limit);
    RunKeepsValid(EMPTY, evs, tx, limit);
  }

  lemma {:induction false} ActiveIsHistory(evs: seq<Event>, n: nat, tx: Text, limit: nat, r: int)
    requires n <= |evs| && limit >= 1
    ensures r in ActiveSet(Run(EMPTY, evs[..n], tx, limit)) <==>
              exists m: nat :: m < n && PresentsLiveCode(evs, m, tx, limit, r)
  {
    hide Step, Valid, ActiveSet, PresentsLiveCode;
    if n == 0 {
      NobodyActive(r);
      assert Run(EMPTY, evs[..0], tx, limit) == EMPTY;
    } else {
      ActiveIsHistory(evs, n - 1, tx, limit, r);
      RunOfPrefix(evs, n - 1, tx, limit);
      RunFromEmptyValid(evs[..n - 1], tx, limit);
      ActiveStep(Run(EMPTY, evs[..n - 1], tx, limit), evs[n - 1], tx, limit, r);
      if Tries(evs[n - 1], r) {
        VerifyAnswersExactly(evs, n - 1, tx, limit, r);
      } else {
        OnlyTriesPresent(evs, n - 1, tx, limit, r);
      }
    }
  }

  lemma NobodyActive(r: int)
    ensures r !in ActiveSet(EMPTY)
  {
  }

  lemma OnlyTriesPresent(evs: seq<Event>, n: nat, tx: Text, limit: nat, r: int)
    requires n < |evs| && !Tries(evs[n], r)
    ensures !PresentsLiveCode(evs, n, tx, limit, r)
  {
  }

  /** A responder is active, and in the default group, exactly if it once presented its live code in time. */
  lemma ActiveIffPresentedCode(evs: seq<Event>, tx: Text, limit: nat, r: int)
    requires limit >= 1
    ensures var d := Run(EMPTY, evs, tx, limit);
            && (r in d.responders && d.responders[r] == Active <==>
                 exists m: nat :: m < |evs| && PresentsLiveCode(evs, m, tx, limit, r))
            && ((exists g :: g in d.groups && d.groups[g].name == DEFAULT_GROUP && r in d.groups[g].members) <==>
                 exists m: nat :: m < |evs| && PresentsLiveCode(evs, m, tx, limit, r))
  {
    hide Run, PresentsLiveCode;
    assert evs[..|evs|] == evs;
    ActiveIsHistory(evs, |evs|, tx, limit, r);
    ActiveIffInDefaultGroup(evs, tx, limit, r);
  }

  // ---------------------------------------------------------------- what groups hold

  /** Event `i` creates the group or replaces its name and members. */
  ghost predicate Writes(evs: seq<Event>, i: nat, tx: Text, limit: nat, g: nat)
    requires i < |evs|
  {
    && ReplyAt(evs, i, tx, limit) == Done
    && (|| (evs[i].CreateGroup? && g == Run(EMPTY, evs[..i], tx, limit).next)
        || (evs[i].UpdateGroup? && g == evs[i].id))
  }

  ghost predicate Deletes(evs: seq<Event>, i: nat, tx: Text, limit: nat, g: nat)
    requires i < |evs|
  {
    evs[i].DeleteGroup? && evs[i].id == g && ReplyAt(evs, i, tx, limit) == Done
  }

  /** Whether a group operation goes through, from the tables alone. */
  lemma GroupReplies(d: Directory, e: Event, tx: Text, limit: nat)
    requires e.CreateGroup? || e.UpdateGroup? || e.DeleteGroup?
    ensures var reserved := tx.fold(DEFAULT_GROUP);
            var known := e.DeleteGroup? || (Elements(e.members) <= d.responders.Keys && tx.strip(e.name) != ""
                                            && tx.fold(tx.strip(e.name)) != reserved);
            Step(d, e, tx, limit).1 == Done <==>
              && known
              && (e.CreateGroup? ==> forall h :: h in d.groups ==> d.groups[h].name != tx.strip(e.name))
              && (e.UpdateGroup? ==> forall h :: h in d.groups && h != e.id ==> d.groups[h].name != tx.strip(e.name))
              && (!e.CreateGroup? ==> e.id in d.groups && tx.fold(d.groups[e.id].name) != reserved)
    ensures Step(d, e, tx, limit).1 in {Done, BadRequest, NotFound}
    ensures Step(d, e, tx, limit).1 != Done ==> Step(d, e, tx, limit).0 == d
    ensures Step(d, e, tx, limit).1 == NotFound <==>
              && !e.CreateGroup? && e.id !in d.groups
              && (e.UpdateGroup? ==> tx.strip(e.name) != "" && tx.fold(tx.strip(e.name)) != tx.fold(DEFAULT_GROUP))
  {
  }

  lemma GroupWritten(d: Directory, e: Event, tx: Text, limit: nat)
    requires (e.CreateGroup? || e.UpdateGroup?) && Step(d, e, tx, limit).1 == Done
    ensures var g := if e.CreateGroup? then d.next else e.id;
            var next := Step(d, e, tx, limit).0;
            && g in next.groups && next.groups[g] == Group(tx.strip(e.name), Elements(e.members))
            && next.groups[g].name != DEFAULT_GROUP
  {
    ValidNameNotDefault(e.name, tx);
  }

  lemma GroupUntouched(d: Directory, e: Event, tx: Text, limit: nat, g: nat)
    requires Valid(d, limit) && g in d.groups && d.groups[g].name != DEFAULT_GROUP
    requires (e.UpdateGroup? || e.DeleteGroup?) && e.id == g ==> Step(d, e, tx, limit).1 != Done
    ensures var next := Step(d, e, tx, limit).0; g in next.groups && next.groups[g] == d.groups[g]
  {
    hide OtpsValid, ActiveIffMember, ValidName, IsReserved, Elements, HasGroup, TakenByOther;
  }

  lemma GroupGone(d: Directory, e: Event, tx: Text, limit: nat, g: nat)
    requires Valid(d, limit) && g < d.next
    ensures var next := Step(d, e, tx, limit).0;
            && g < next.next
            && (g !in d.groups || (e.DeleteGroup? && e.id == g && Step(d, e, tx, limit).1 == Done) ==> g !in next.groups)
  {
    hide OtpsValid, ActiveIffMember, ValidName, IsReserved;
  }

  /**
   After any run a group holds the stripped name and exactly the members of the last operation that created or updated
   it, as long as it is not deleted.
   */
  lemma {:induction false} GroupHoldsLastWrite(evs: seq<Event>, i: nat, n: nat, tx: Text, limit: nat, g: nat)
    requires i < n <= |evs| && limit >= 1 && Writes(evs, i, tx, limit, g)
    requires forall m: nat :: i < m < n ==> !Writes(evs, m, tx, limit, g) && !Deletes(evs, m, tx, limit, g)
    ensures var groups := Run(EMPTY, evs[..n], tx, limit).groups;
            && g in groups && groups[g] == Group(tx.strip(evs[i].name), Elements(evs[i].members))
            && groups[g].name != DEFAULT_GROUP
    decreases n
  {
    hide Step, Valid;
    RunOfPrefix(evs, n - 1, tx, limit);
    if i == n - 1 {
      GroupWritten(Run(EMPTY, evs[..i], tx, limit), evs[i], tx, limit);
    } else {
      GroupHoldsLastWrite(evs, i, n - 1, tx, limit, g);
      RunFromEmptyValid(evs[..n - 1], tx, limit);
      assert !Writes(evs, n - 1, tx, limit, g) && !Deletes(evs, n - 1, tx, limit, g);
      GroupUntouched(Run(EMPTY, evs[..n - 1], tx, limit), evs[n - 1], tx, limit, g);
    }
  }

  lemma DeletedHadId(d: Directory, e: Event, tx: Text, limit: nat)
    requires Valid(d, limit) && e.DeleteGroup? && Step(d, e, tx, limit).1 == Done
    ensures e.id < d.next
  {
  }

  /** A deleted group never comes back; its id is not used again. */
  lemma {:induction false} DeletedForGood(evs: seq<Event>, i: nat, n: nat, tx: Text, limit: nat, g: nat)
    requires i < n <= |evs| && limit >= 1 && Deletes(evs, i, tx, limit, g)
    ensures g !in Run(EMPTY, evs[..n], tx, limit).groups && g < Run(EMPTY, evs[..n], tx, limit).next
    decreases n
  {
    hide Step, Valid;
    RunOfPrefix(evs, n - 1, tx, limit);
    RunFromEmptyValid(evs[..n - 1], tx, limit);
    if i == n - 1 {
      DeletedHadId(Run(EMPTY, evs[..i], tx, limit), evs[i], tx, limit);
    } else {
      DeletedForGood(evs, i, n - 1, tx, limit, g);
    }
    GroupGone(Run(EMPTY, evs[..n - 1], tx, limit), evs[n - 1], tx, limit, g);
  }
}
