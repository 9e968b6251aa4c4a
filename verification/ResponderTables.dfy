/** The services and table operations behind `Responders`, changing the rows one at a time. */
module ResponderTables {
  import opened Common
  import opened Responders

  class Tables {
    var responders: map<int, Status>
    var groups: map<nat, Group>
    var otps: map<int, Otp>
    var next: nat
    const tx: Text
    const limit: nat

    constructor (tx: Text, limit: nat)
      ensures View() == EMPTY && this.tx == tx && this.limit == limit
    {
      responders, groups, otps, next := map[], map[], map[], 0;
      this.tx, this.limit := tx, limit;
    }

    function View(): Directory
      reads this
    {
      Directory(responders, groups, otps, next)
    }

    // -------------------------------------------------------------- table operations

    method EnsureExists() returns (id: nat)
      modifies this`groups, this`next
      ensures View() == EnsureDefault(old(View()))
      ensures id in groups && groups[id].name == DEFAULT_GROUP
    {
      if g :| g in groups && groups[g].name == DEFAULT_GROUP {
        return g;
      }
      groups := groups[next := Group(DEFAULT_GROUP, {})];
      id := next;
      next := next + 1;
    }

    /** The insert fails on a duplicate (responder, group) pair; callers must rule that out. */
    method AddMember(id: nat, r: int)
      requires id in groups && r !in groups[id].members
      modifies this`groups
      ensures groups == old(groups[id := groups[id].(members := groups[id].members + {r})])
    {
      groups := groups[id := groups[id].(members := groups[id].members + {r})];
    }

    /** Delete what is no longer wanted, insert what is missing, rename. */
    method UpdateWithMembers(id: nat, name: string, members: seq<int>) returns (added: nat, removed: nat)
      requires id in groups
      modifies this`groups
      ensures groups == old(groups)[id := Group(name, Elements(members))]
      ensures added == |Elements(members) - old(groups[id].members)|
      ensures removed == |old(groups[id].members) - Elements(members)|
    {
      var current, desired := groups[id].members, Elements(members);
      var toAdd, toRemove := desired - current, current - desired;
      added, removed := |toAdd|, |toRemove|;
      var kept := current;
      if toRemove != {} {
        kept := kept - toRemove;
      }
      if toAdd != {} {
        kept := kept + toAdd;
      }
      forall x ensures x in kept <==> x in desired {
        assert x in toAdd <==> x in desired && x !in current;
        assert x in toRemove <==> x in current && x !in desired;
      }
      assert kept == desired;
      groups := groups[id := Group(name, kept)];
    }

    // -------------------------------------------------------------- services

    method SendOtp(r: int, code: string, expiresAt: int) returns (reply: Reply)
      modifies this`otps
      ensures (View(), reply) == Step(old(View()), Event.SendOtp(r, code, expiresAt), tx, limit)
    {
      if r !in responders {
        return NotFound;
      }
      otps := otps - {r};
      otps := otps[r := Otp(code, expiresAt, 0)];
      assert otps == old(otps)[r := Otp(code, expiresAt, 0)];
      return Done;
    }

    /** The whole flow keeps the insert into the default group free of duplicates. */
    method VerifyOtp(r: int, code: string, now: int) returns (reply: Reply)
      requires Valid(View(), limit)
      modifies this
      ensures (View(), reply) == Step(old(View()), Verify(r, code, now), tx, limit)
      ensures Valid(View(), limit)
    {
      hide EnsureDefault, WithMember, GroupsValid, ActiveIffMember;
      VerifyKeeps(View(), r, code, now, limit);
      EnsureDefaultKeeps(View(), limit);
      var activeGroup := EnsureExists();
      ghost var d := View();
      if r !in otps {
        return NoRequest;
      }
      var record := otps[r];
      if record.expiresAt < now {
        otps := otps - {r};
        return Expired;
      }
      if record.code != code {
        if record.attempts + 1 >= limit {
          otps := otps - {r};
          return TooMany;
        }
        otps := otps[r := record.(attempts := record.attempts + 1)];
        return Incorrect;
      }
      if responders[r] == Pending {
        ActivationKeeps(d, r, limit);
        WithMemberAt(d, activeGroup, r);
        responders := responders[r := Active];
        AddMember(activeGroup, r);
      }
      otps := otps - {r};
      return Verified;
    }

    method CreateGroup(name: string, members: seq<int>) returns (reply: Reply)
      modifies this`groups, this`next
      ensures (View(), reply) == CreateGroupStep(old(View()), name, members, tx)
    {
      var valid := ValidName(name, tx);
      if valid.None? {
        return BadRequest;
      }
      if exists g :: g in groups && groups[g].name == valid.value {
        return BadRequest;
      }
      if !(Elements(members) <= responders.Keys) {
        return BadRequest;
      }
      groups := groups[next := Group(valid.value, Elements(members))];
      next := next + 1;
      return Done;
    }

    method UpdateGroup(id: nat, name: string, members: seq<int>) returns (reply: Reply)
      modifies this`groups
      ensures (View(), reply) == UpdateGroupStep(old(View()), id, name, members, tx)
    {
      var valid := ValidName(name, tx);
      if valid.None? {
        return BadRequest;
      }
      if id !in groups {
        return NotFound;
      }
      var existingIsDefault := IsReserved(groups[id].name, tx);
      var incomingIsDefault := IsReserved(valid.value, tx);
      if existingIsDefault && !incomingIsDefault {
        return BadRequest;
      }
      if !existingIsDefault && incomingIsDefault {
        return BadRequest;
      }
      if exists g :: g in groups && groups[g].name == valid.value && g != id {
        return BadRequest;
      }
      if !(Elements(members) <= responders.Keys) {
        return BadRequest;
      }
      var _, _ := UpdateWithMembers(id, valid.value, members);
      return Done;
    }

    method DeleteGroup(id: nat) returns (reply: Reply)
      modifies this`groups
      ensures (View(), reply) == DeleteGroupStep(old(View()), id, tx)
    {
      if id !in groups {
        return NotFound;
      }
      if IsReserved(groups[id].name, tx) {
        return BadRequest;
      }
      groups := groups - {id};
      return Done;
    }
  }

  lemma WithMemberAt(d: Directory, id: nat, r: int)
    requires GroupsValid(d) && id in d.groups && d.groups[id].name == DEFAULT_GROUP
    ensures WithMember(d.groups, DEFAULT_GROUP, r)
         == d.groups[id := d.groups[id].(members := d.groups[id].members + {r})]
  {
  }
}
