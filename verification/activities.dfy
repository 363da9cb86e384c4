/**
 The in-memory activity registry of the school signup service and the two
 operations over it: listing every activity and signing a student up for one.
 */
module Activities {
  import opened Wrappers

  /** One extracurricular activity: free-text description and schedule, a
      capacity, and the ordered roster of participant emails. */
  datatype Activity = Activity(
    description: string,
    schedule: string,
    maxParticipants: int,
    participants: seq<string>)

  /** Activities keyed by their human-readable name. */
  type Registry = map<string, Activity>

  /** A failed call: the HTTP status code and the human-readable detail. */
  datatype HttpError = HttpError(statusCode: int, detail: string)

  const NotFound := HttpError(404, "Activity not found")
  const AlreadySignedUp := HttpError(400, "Student is already signed up")
  const ActivityFull := HttpError(400, "Activity is full")

  /** What a signup produces: the confirmation message or the error, together
      with the registry as it stands after the call. */
  datatype Outcome = Outcome(response: Result<string, HttpError>, registry: Registry)

  /** No email occurs twice on the roster. */
  predicate Distinct(s: seq<string>) {
    forall i, j :: 0 <= i < j < |s| ==> s[i] != s[j]
  }

  /** The two roster invariants of a single activity. */
  predicate ActivityValid(a: Activity) {
    |a.participants| <= a.maxParticipants && Distinct(a.participants)
  }

  /** Every activity of the registry keeps both roster invariants. */
  predicate Valid(reg: Registry) {
    forall name :: name in reg ==> ActivityValid(reg[name])
  }

  /** The confirmation returned by a successful signup. */
  function Confirmation(email: string, name: string): string {
    "Signed up " + email + " for " + name
  }

  /** The condition under which a signup is accepted, stated independently of
      the order in which the checks are made. */
  predicate CanJoin(reg: Registry, name: string, email: string) {
    name in reg
    && email !in reg[name].participants
    && |reg[name].participants| < reg[name].maxParticipants
  }

  /** `before` and `after` agree everywhere except that `email` was appended to the
      roster of `name`. */
  predicate AppendedOnly(before: Registry, after: Registry, name: string, email: string)
    requires name in before
  {
    && after.Keys == before.Keys
    && after[name].participants == before[name].participants + [email]
    && after[name].description == before[name].description
    && after[name].schedule == before[name].schedule
    && after[name].maxParticipants == before[name].maxParticipants
    && forall other :: other in before && other != name ==> after[other] == before[other]
  }

  /** The listing of all activities: the registry itself, with its current
      rosters, and no change to it. */
  function GetActivities(reg: Registry): (r: Registry)
    ensures r.Keys == reg.Keys
    ensures forall name :: name in reg ==> r[name] == reg[name]
  {
    reg
  }

  /** Lemma: after an accepted signup, the listing shows that roster with the
      new email appended. */
  lemma ListingShowsSignup(reg: Registry, name: string, email: string)
    requires CanJoin(reg, name, email)
    ensures name in GetActivities(Signup(reg, name, email).registry)
    ensures GetActivities(Signup(reg, name, email).registry)[name].participants
         == reg[name].participants + [email]
  {
  }

  /** Signs `email` up for the activity called `name`. The checks run in a fixed
      order and the first one that fails decides the error: unknown activity,
      then duplicate email, then full roster. A failed call changes nothing. */
  function Signup(reg: Registry, name: string, email: string): (o: Outcome)
    // Unknown activity.
    ensures name !in reg ==> o.response == Failure(NotFound) && o.registry == reg
    // Duplicate email, reported whatever the roster's size.
    ensures name in reg && email in reg[name].participants
         ==> o.response == Failure(AlreadySignedUp) && o.registry == reg
    // Full roster, for an email not yet on it.
    ensures name in reg && email !in reg[name].participants
            && |reg[name].participants| >= reg[name].maxParticipants
         ==> o.response == Failure(ActivityFull) && o.registry == reg
    // Success exactly when every check passes.
    ensures o.response.Success? <==> CanJoin(reg, name, email)
    ensures o.response.Failure? ==> o.registry == reg
    // Success: exact message, and only the named roster grows, by `email`.
    ensures o.response.Success? ==>
              && o.response.value == Confirmation(email, name)
              && AppendedOnly(reg, o.registry, name, email)
    // Both roster invariants survive every call.
    ensures Valid(reg) ==> Valid(o.registry)
  {
    if name !in reg then
      Outcome(Failure(NotFound), reg)
    else
      var activity := reg[name];
      if email in activity.participants then
        Outcome(Failure(AlreadySignedUp), reg)
      else if |activity.participants| >= activity.maxParticipants then
        Outcome(Failure(ActivityFull), reg)
      else
        var joined := activity.(participants := activity.participants + [email]);
        Outcome(Success(Confirmation(email, name)), reg[name := joined])
  }

  /** Lemma: the duplicate check precedes the capacity check, so a repeated
      email on a full activity is reported as a duplicate. */
  lemma DuplicateReportedBeforeFull(reg: Registry, name: string, email: string)
    requires name in reg
    requires email in reg[name].participants
    requires |reg[name].participants| >= reg[name].maxParticipants
    ensures Signup(reg, name, email).response == Failure(AlreadySignedUp)
    ensures Signup(reg, name, email).registry == reg
  {
  }

  /** Lemma: a second signup of the same email for the same activity is
      rejected as a duplicate and leaves the roster's length as it was. */
  lemma SecondSignupRejected(reg: Registry, name: string, email: string)
    requires Signup(reg, name, email).response.Success?
    ensures var reg' := Signup(reg, name, email).registry;
            && Signup(reg', name, email).response == Failure(AlreadySignedUp)
            && Signup(reg', name, email).registry == reg'
            && |reg'[name].participants| == |reg[name].participants| + 1
  {
  }
}
