/** A Wikibase entity as a list of claims, and the three queries the crate
    offers on it: the items it is an instance of, and the first birth and
    death dates. */
module Entities {
  import opened Wrappers
  import opened Ids
  import opened WbTime
  import opened Snaks
  import opened Claims

  /** `Entity`: its claims, each with the property it is stated for. */
  datatype Entity = Entity(claims: seq<(Pid, ClaimValue)>)

  /** Property P31, "instance of". */
  const InstanceOf: Pid := Pid(31)
  /** Property P569, "date of birth". */
  const DateOfBirth: Pid := Pid(569)
  /** Property P570, "date of death". */
  const DateOfDeath: Pid := Pid(570)

  // ---------------------------------------------------------------------------
  // instances

  /** A claim that contributes to `instances`: an `Item` value of "instance of". */
  predicate IsInstanceClaim(c: (Pid, ClaimValue)) {
    c.0 == InstanceOf && c.1.data.Item?
  }

  /** What one claim contributes to `instances`. */
  function InstanceOfClaim(c: (Pid, ClaimValue)): seq<Qid> {
    if IsInstanceClaim(c) then [c.1.data.qid] else []
  }

  /** The reference definition of `instances`: the contributions of the
      claims, concatenated in claim order. */
  function InstancesOf(claims: seq<(Pid, ClaimValue)>): seq<Qid>
    decreases |claims|
  {
    if |claims| == 0 then []
    else InstancesOf(claims[..|claims| - 1]) + InstanceOfClaim(claims[|claims| - 1])
  }

  /** `Entity::instances`: walks the claims in order and collects the target
      of every "instance of" claim whose value is an item. */
  method Instances(e: Entity) returns (instances: seq<Qid>)
    ensures instances == InstancesOf(e.claims)
    ensures |instances| <= |e.claims|
    ensures forall q :: q in instances <==>
      exists i :: 0 <= i < |e.claims| && e.claims[i].0 == InstanceOf && e.claims[i].1.data == Item(q)
  {
    instances := [];
    var i := 0;
    while i < |e.claims|
      invariant 0 <= i <= |e.claims|
      invariant instances == InstancesOf(e.claims[..i])
      invariant |instances| <= i
    {
      var (pid, claim) := e.claims[i];
      if pid == InstanceOf {
        if claim.data.Item? {
          instances := instances + [claim.data.qid];
        }
      }
      assert e.claims[..i + 1][..i] == e.claims[..i];
      i := i + 1;
    }
    assert e.claims[..i] == e.claims;
    InstancesMembers(e.claims);
  }

  /** `instances` distributes over concatenation of claim lists: together
      with `InstanceOfClaim` this fixes both the contents and the order. */
  lemma {:induction false} InstancesAppend(a: seq<(Pid, ClaimValue)>, b: seq<(Pid, ClaimValue)>)
    ensures InstancesOf(a + b) == InstancesOf(a) + InstancesOf(b)
    decreases |b|
  {
    if |b| == 0 {
      assert a + b == a;
    } else {
      var b' := b[..|b| - 1];
      assert (a + b)[..|a + b| - 1] == a + b';
      assert (a + b)[|a + b| - 1] == b[|b| - 1];
      InstancesAppend(a, b');
    }
  }

  /** A target is listed exactly when some "instance of" claim has it as its
      item value; there is at most one entry per claim. */
  lemma {:induction false} InstancesMembers(claims: seq<(Pid, ClaimValue)>)
    ensures |InstancesOf(claims)| <= |claims|
    ensures forall q :: q in InstancesOf(claims) <==>
      exists i :: 0 <= i < |claims| && claims[i].0 == InstanceOf && claims[i].1.data == Item(q)
    decreases |claims|
  {
    if |claims| > 0 {
      var init := claims[..|claims| - 1];
      InstancesMembers(init);
      forall q | q in InstancesOf(claims)
        ensures exists i :: 0 <= i < |claims| && claims[i].0 == InstanceOf && claims[i].1.data == Item(q)
      {
        if q in InstancesOf(init) {
          var i :| 0 <= i < |init| && init[i].0 == InstanceOf && init[i].1.data == Item(q);
          assert claims[i] == init[i];
        } else {
          assert claims[|claims| - 1].1.data == Item(q);
        }
      }
      forall q | exists i :: 0 <= i < |claims| && claims[i].0 == InstanceOf && claims[i].1.data == Item(q)
        ensures q in InstancesOf(claims)
      {
        var i :| 0 <= i < |claims| && claims[i].0 == InstanceOf && claims[i].1.data == Item(q);
        if i < |init| {
          assert init[i] == claims[i];
        } else {
          assert InstanceOfClaim(claims[i]) == [q];
        }
      }
    }
  }

  // ---------------------------------------------------------------------------
  // start_time and end_time

  /** A claim `start_time`/`end_time` can answer with: a date-time value of
      property `p`. */
  predicate IsDateClaim(c: (Pid, ClaimValue), p: Pid) {
    c.0 == p && c.1.data.DateTime?
  }

  /** Claim `i` is the first date-time claim of property `p`. */
  predicate FirstDateClaim(claims: seq<(Pid, ClaimValue)>, p: Pid, i: int) {
    0 <= i < |claims| && IsDateClaim(claims[i], p)
    && forall j :: 0 <= j < i ==> !IsDateClaim(claims[j], p)
  }

  /** The loop shared by `start_time` and `end_time`: the date-time of the
      first claim of property `p` whose value is a date-time. Claims of `p`
      with any other kind of value are passed over. */
  method FirstDateTime(claims: seq<(Pid, ClaimValue)>, p: Pid) returns (r: Option<Instant>)
    ensures r.Some? <==> exists i :: 0 <= i < |claims| && IsDateClaim(claims[i], p)
    ensures r.Some? ==> exists i :: FirstDateClaim(claims, p, i) && claims[i].1.data.dateTime == r.value
  {
    var i := 0;
    while i < |claims|
      invariant 0 <= i <= |claims|
      invariant forall j :: 0 <= j < i ==> !IsDateClaim(claims[j], p)
    {
      var (pid, claim) := claims[i];
      if pid == p {
        if claim.data.DateTime? {
          return Some(claim.data.dateTime);
        }
      }
      i := i + 1;
    }
    return None;
  }

  /** `Entity::start_time`: the first date of birth given as a date-time. */
  method StartTime(e: Entity) returns (r: Option<Instant>)
    ensures r.Some? <==> exists i :: 0 <= i < |e.claims| && IsDateClaim(e.claims[i], DateOfBirth)
    ensures r.Some? ==> exists i :: FirstDateClaim(e.claims, DateOfBirth, i) && e.claims[i].1.data.dateTime == r.value
  {
    r := FirstDateTime(e.claims, DateOfBirth);
  }

  /** `Entity::end_time`: the first date of death given as a date-time. */
  method EndTime(e: Entity) returns (r: Option<Instant>)
    ensures r.Some? <==> exists i :: 0 <= i < |e.claims| && IsDateClaim(e.claims[i], DateOfDeath)
    ensures r.Some? ==> exists i :: FirstDateClaim(e.claims, DateOfDeath, i) && e.claims[i].1.data.dateTime == r.value
  {
    r := FirstDateTime(e.claims, DateOfDeath);
  }
}
