/**
 Calls handled one after another. The model assumes one call at a time: each
 call is a single step on the registry, with no other call interleaved.
 */
module History {
  import opened Activities
  import Seed

  /** A call on the service: the activity listing or a signup. */
  datatype Call = List | Join(activityName: string, email: string)

  /** The registry after one call. A listing answers with
      `GetActivities(reg)` and leaves the registry as it was. */
  function Step(reg: Registry, call: Call): Registry {
    match call
    case List => reg
    case Join(name, email) => Signup(reg, name, email).registry
  }

  /** `after` keeps every activity of `before`, with the same description,
      schedule and capacity, and a roster that extends the old one. */
  predicate Grows(before: Registry, after: Registry) {
    && after.Keys == before.Keys
    && forall name :: name in before ==>
         && after[name].description == before[name].description
         && after[name].schedule == before[name].schedule
         && after[name].maxParticipants == before[name].maxParticipants
         && before[name].participants <= after[name].participants
  }

  /** Every email on a roster of `after` was already there in `before` or was
      the subject of a signup call for that activity. */
  predicate Explained(before: Registry, after: Registry, calls: seq<Call>)
    requires after.Keys == before.Keys
  {
    forall name, email :: name in after && email in after[name].participants ==>
      email in before[name].participants || Join(name, email) in calls
  }

  /** Lemma: a single call keeps the activities, only extends rosters, keeps
      the invariants, and adds only the email it was asked to add. */
  lemma StepFacts(reg: Registry, call: Call)
    ensures Grows(reg, Step(reg, call))
    ensures Valid(reg) ==> Valid(Step(reg, call))
    ensures Explained(reg, Step(reg, call), [call])
  {
  }

  /** Lemma: growth composes. */
  lemma GrowsTransitive(a: Registry, b: Registry, c: Registry)
    requires Grows(a, b) && Grows(b, c)
    ensures Grows(a, c)
  {
  }

  /** Lemma: explanations compose along a history. */
  lemma ExplainedCompose(a: Registry, b: Registry, c: Registry, call: Call, rest: seq<Call>)
    requires Grows(a, b) && Grows(b, c)
    requires Explained(a, b, [call]) && Explained(b, c, rest)
    ensures Explained(a, c, [call] + rest)
  {
  }

  /** The registry after the calls, in order. Whatever the calls, the set of
      activities stays fixed, rosters only grow, both roster invariants are
      kept, and every new participant asked to join that activity. */
  function Run(reg: Registry, calls: seq<Call>): (r: Registry)
    ensures Grows(reg, r)
    ensures Valid(reg) ==> Valid(r)
    ensures Explained(reg, r, calls)
    decreases |calls|
  {
    if calls == [] then reg
    else
      var next := Step(reg, calls[0]);
      var r := Run(next, calls[1..]);
      StepFacts(reg, calls[0]);
      GrowsTransitive(reg, next, r);
      ExplainedCompose(reg, next, r, calls[0], calls[1..]);
      assert [calls[0]] + calls[1..] == calls;
      r
  }

  /** The signup calls of `calls`, in order. */
  function Joins(calls: seq<Call>): (r: seq<Call>)
    ensures forall i :: 0 <= i < |r| ==> r[i].Join?
    ensures forall c :: c in r <==> c in calls && c.Join?
  {
    if calls == [] then []
    else if calls[0].List? then Joins(calls[1..])
    else [calls[0]] + Joins(calls[1..])
  }

  /** Lemma: listing has no effect on state: dropping every listing from a
      history leaves the final registry the same. */
  lemma {:induction false} ListingsDoNotAffectState(reg: Registry, calls: seq<Call>)
    ensures Run(reg, Joins(calls)) == Run(reg, calls)
    decreases |calls|
  {
    if calls != [] {
      ListingsDoNotAffectState(Step(reg, calls[0]), calls[1..]);
      if calls[0].Join? {
        assert ([calls[0]] + Joins(calls[1..]))[1..] == Joins(calls[1..]);
      }
    }
  }

  /** Lemma: from the seeded registry, no history of calls can overfill an
      activity or put a student on a roster twice, and the nine activities
      stay the nine activities. */
  lemma SeedInvariantsHoldAfterAnyHistory(calls: seq<Call>)
    ensures Run(Seed.Initial(), calls).Keys == Seed.Initial().Keys
    ensures forall name :: name in Run(Seed.Initial(), calls) ==>
              |Run(Seed.Initial(), calls)[name].participants|
                <= Run(Seed.Initial(), calls)[name].maxParticipants
    ensures forall name :: name in Run(Seed.Initial(), calls) ==>
              Distinct(Run(Seed.Initial(), calls)[name].participants)
  {
  }
}
