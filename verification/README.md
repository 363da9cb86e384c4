# Mergington High School activity registry — Dafny model

The service keeps a process-local registry of extracurricular activities,
keyed by activity name. Each activity has a description, a schedule, a
capacity (`max_participants`) and an ordered roster of participant emails.
The registry starts with nine seeded activities. Two operations act on it:

- listing every activity with its current roster (`get_activities`);
- signing a student, identified by email, up for one activity
  (`signup_for_activity`). Three checks run in a fixed order, and the first
  that fails decides the error. An unknown activity gives 404 "Activity not
  found". An email already on the roster gives 400 "Student is already signed
  up". A roster at or over capacity gives 400 "Activity is full". Otherwise
  the email is appended to that roster and the reply is
  "Signed up <email> for <activity>".

The model is functional. The registry is a `map<string, Activity>`. A signup
is a pure function that returns the reply (a `Result` of the confirmation or an
`HttpError` with status code and detail) together with the new registry.

Files:

- `wrappers.dfy`: the `Result` type.
- `activities.dfy`: the data model, the two roster invariants (length within
  capacity, no repeated email), the error values, `GetActivities` and `Signup`.
- `seed.dfy`: the nine seeded activities and three example signups on them.
- `history.dfy`: a history of calls applied one after another, and what holds
  after any history.

## Model

| member | source | states |
|---|---|---|
| Activities.Signup | src/app.py:130-151 | An unknown name gives 404 "Activity not found". An email already on the roster gives 400 "Student is already signed up", whatever the roster's size. A new email on a roster at or over capacity gives 400 "Activity is full". The call succeeds exactly when the name is known, the email is new and the roster is below capacity. A failure leaves the registry unchanged. A success replies "Signed up <email> for <name>" and appends the email to that roster only: description, schedule and capacity stay, every other activity stays, the key set stays. Both roster invariants are preserved. |
| Activities.GetActivities | src/app.py:121-123 | The listing has the registry's keys and each activity exactly as stored, current roster included (the order of the activities is not modelled). |
| Activities.ListingShowsSignup | src/app.py:121-123 | After an accepted signup, the listing shows that activity's roster as the old roster followed by the new email. |
| Activities.DuplicateReportedBeforeFull | src/app.py:141-146 | A duplicate email on a full activity is reported as "already signed up", not "full", and nothing changes. |
| Activities.SecondSignupRejected | src/app.py:141-149 | After an accepted signup, repeating it is rejected as a duplicate, nothing changes, and the roster grew by exactly one. |
| Seed.FromEntries | src/app.py:52-109 | The registry built from a list of named activities has exactly the listed names as keys, every value is one of the listed activities, each name maps to the last activity listed under it (as a dict literal keeps the last value of a repeated key), and so, when names do not repeat, each name maps to its own activity. |
| Seed.NamesCount | src/app.py:52-109 | Distinct names give as many keys as there are entries. |
| Seed.SeedEntriesValid | src/app.py:52-109 | Every seeded activity has a positive capacity and a roster within it without repeats. |
| Seed.SeedNamesDistinct | src/app.py:52-109 | No activity name is seeded twice. |
| Seed.Initial | src/app.py:52-109 | The start-up registry has nine activities, each seeded name maps to its seeded record, every capacity is positive, and every roster is within capacity and free of repeats. |
| Seed.SeedLookups | src/app.py:52-109 | The seed maps "Soccer Practice" to its empty 22-place record and "Chess Club" to its record, and has no "Robotics Club". |
| Seed.SoccerPracticeSignup | src/app.py:73-78 | On the seed, "ana@mergington.edu" joins the empty Soccer Practice roster and gets "Signed up ana@mergington.edu for Soccer Practice". |
| Seed.AnaConfirmation | src/app.py:151 | The confirmation for that signup is exactly the expected text. |
| Seed.ChessClubDuplicate | src/app.py:55-60 | On the seed, "michael@mergington.edu" is already in Chess Club and is rejected as a duplicate, with no change. |
| Seed.UnknownActivity | src/app.py:134-135 | On the seed, "Robotics Club" is not an activity and is rejected with 404, with no change. |
| History.StepFacts | src/app.py:130-151 | One call keeps the set of activities, keeps each activity's description, schedule and capacity, only extends rosters, preserves both invariants, and adds only the email it was asked to add. |
| History.Run | src/app.py:130-151 | After any history of calls the set of activities is the same, every roster extends the one it started from, both invariants still hold if they held before, and every new roster entry comes from a signup call for that activity with that email. |
| History.ListingsDoNotAffectState | src/app.py:121-123 | Removing every listing call from a history leaves the final registry unchanged: listing has no effect on state. |
| History.SeedInvariantsHoldAfterAnyHistory | src/app.py:52-151 | Starting from the seed, after any history the nine activities remain, no roster exceeds its capacity and no roster holds an email twice. |

## Left out

- The web application object, the `/static` file mount and the `/` redirect
  (src/app.py:22-39, 114-117): framework and file-serving glue.
- The `uvicorn` launcher (src/app.py:157-162): process start-up.
- HTTP request and response semantics. An `HTTPException` is modelled only as
  a status code and a detail string. A successful signup's `{"message": ...}`
  JSON body is modelled as the message string alone.
- Concurrent signups. The model assumes one call at a time and applies calls
  in sequence. The source has no locking, and its synchronous handlers run on
  worker threads, so two signups for the last place can both pass the capacity
  check (src/app.py:145) before either appends (src/app.py:149). The sequential
  model hides that race: `History.SeedInvariantsHoldAfterAnyHistory` holds only
  when calls run one at a time.
- Activities.GetActivities: does not state the order of the activities in the
  listing. The registry is a Python dict, which keeps the seed's insertion
  order, and the listing returns it in that order; the model's registry is a
  map, which has no order.
- Seed.Initial: holds the seeded activities as a map, without their order;
  only `Seed.SeedEntries` keeps the seed order.
- Email format and the content of descriptions and schedules. The source
  treats them as opaque strings, and so does the model.
- Capacity as a positive number is a property of the seed data only. The
  source never checks it, so `Valid` does not require it and `Signup` works
  for any integer capacity, as the Python comparison does.
- Both 400 errors share status 400 and differ only in their detail text; the
  model keeps them apart by detail, as the code does.
