/** The nine activities the registry holds when the service starts. */
module Seed {
  import opened Wrappers
  import opened Activities

  /** The seeded activities, each under its own name. */
  const ChessClub := Activity(
    "Learn strategies and compete in chess tournaments",
    "Fridays, 3:30 PM - 5:00 PM",
    12,
    ["michael@mergington.edu", "daniel@mergington.edu"])

  const ProgrammingClass := Activity(
    "Learn programming fundamentals and build software projects",
    "Tuesdays and Thursdays, 3:30 PM - 4:30 PM",
    20,
    ["emma@mergington.edu", "sophia@mergington.edu"])

  const GymClass := Activity(
    "Physical education and sports activities",
    "Mondays, Wednesdays, Fridays, 2:00 PM - 3:00 PM",
    30,
    ["john@mergington.edu", "olivia@mergington.edu"])

  const SoccerPractice := Activity(
    "Team drills, conditioning, and scrimmages",
    "Tuesdays and Thursdays, 4:00 PM - 5:30 PM",
    22,
    [])

  const TrackAndField := Activity(
    "Sprint, distance, and field event training",
    "Mondays and Wednesdays, 3:30 PM - 5:00 PM",
    28,
    [])

  const DramaClub := Activity(
    "Acting workshops and preparing stage performances",
    "Wednesdays, 3:30 PM - 5:00 PM",
    18,
    [])

  const ArtStudio := Activity(
    "Drawing, painting, and mixed-media projects",
    "Mondays, 3:30 PM - 5:00 PM",
    16,
    [])

  const DebateTeam := Activity(
    "Practice structured debates and public speaking",
    "Thursdays, 3:30 PM - 5:00 PM",
    14,
    [])

  const MathOlympiad := Activity(
    "Problem-solving sessions and competition prep",
    "Tuesdays, 3:30 PM - 4:45 PM",
    20,
    [])

  /** The seeded activities in declaration order, each with its name. */
  const SeedEntries: seq<(string, Activity)> := [
    ("Chess Club", ChessClub),
    ("Programming Class", ProgrammingClass),
    ("Gym Class", GymClass),
    ("Soccer Practice", SoccerPractice),
    ("Track & Field", TrackAndField),
    ("Drama Club", DramaClub),
    ("Art Studio", ArtStudio),
    ("Debate Team", DebateTeam),
    ("Math Olympiad", MathOlympiad)
  ]

  /** The names given in `entries`. */
  function Names(entries: seq<(string, Activity)>): set<string> {
    set i | 0 <= i < |entries| :: entries[i].0
  }

  /** No name is given twice. */
  predicate DistinctNames(entries: seq<(string, Activity)>) {
    forall i, j :: 0 <= i < j < |entries| ==> entries[i].0 != entries[j].0
  }

  /** Lemma: the names of a non-empty list are those of all but its last
      entry, plus the last entry's name. */
  lemma NamesSnoc(entries: seq<(string, Activity)>)
    requires entries != []
    ensures Names(entries) == Names(entries[..|entries| - 1]) + {entries[|entries| - 1].0}
  {
  }

  /** Lemma: distinct names give as many registry keys as there are entries. */
  lemma {:induction false} NamesCount(entries: seq<(string, Activity)>)
    requires DistinctNames(entries)
    ensures |Names(entries)| == |entries|
  {
    if entries != [] {
      var init := entries[..|entries| - 1];
      assert DistinctNames(init);
      NamesCount(init);
      NamesSnoc(entries);
      assert entries[|entries| - 1].0 !in Names(init);
    }
  }

  /** No entry after the `i`-th gives the same name. */
  predicate LastWithName(entries: seq<(string, Activity)>, i: int)
    requires 0 <= i < |entries|
  {
    forall j :: i < j < |entries| ==> entries[j].0 != entries[i].0
  }

  /** Each name of `entries` is a key of `r`, bound to the last activity
      given under it. */
  predicate LastWins(entries: seq<(string, Activity)>, r: Registry) {
    forall i :: 0 <= i < |entries| && LastWithName(entries, i) ==>
      entries[i].0 in r && r[entries[i].0] == entries[i].1
  }

  /** `r` holds exactly the entries' names, each bound to an activity given
      with it: the last one given under that name, and so its own activity
      when names do not repeat. */
  predicate Represents(entries: seq<(string, Activity)>, r: Registry) {
    && r.Keys == Names(entries)
    && (forall name :: name in r ==>
          exists i :: 0 <= i < |entries| && entries[i] == (name, r[name]))
    && LastWins(entries, r)
  }

  /** Lemma: adding the last entry keeps the last activity under each name. */
  lemma LastWinsSnoc(entries: seq<(string, Activity)>, m: Registry)
    requires entries != []
    requires LastWins(entries[..|entries| - 1], m)
    ensures LastWins(entries, m[entries[|entries| - 1].0 := entries[|entries| - 1].1])
  {
    var init := entries[..|entries| - 1];
    forall i | 0 <= i < |init| && LastWithName(entries, i)
      ensures LastWithName(init, i) && entries[i] == init[i]
    {
      forall j | i < j < |init| ensures init[j].0 != init[i].0 {
        assert init[j] == entries[j];
      }
    }
  }

  /** Lemma: adding the last entry to a registry that represents the others
      gives one that represents them all. */
  lemma RepresentsSnoc(entries: seq<(string, Activity)>, m: Registry)
    requires entries != []
    requires Represents(entries[..|entries| - 1], m)
    ensures Represents(entries, m[entries[|entries| - 1].0 := entries[|entries| - 1].1])
  {
    var init := entries[..|entries| - 1];
    var last := entries[|entries| - 1];
    var r := m[last.0 := last.1];
    NamesSnoc(entries);
    LastWinsSnoc(entries, m);
    forall name | name in r
      ensures exists i :: 0 <= i < |entries| && entries[i] == (name, r[name])
    {
      if name == last.0 {
        assert entries[|entries| - 1] == (name, r[name]);
      } else {
        var i :| 0 <= i < |init| && init[i] == (name, m[name]);
        assert entries[i] == (name, r[name]);
      }
    }
  }

  /** The registry holding `entries`: each name maps to the activity given
      with it (the last one wins if a name repeats, as in a dict literal). */
  function FromEntries(entries: seq<(string, Activity)>): (r: Registry)
    ensures r.Keys == Names(entries)
    ensures forall name :: name in r ==>
              exists i :: 0 <= i < |entries| && entries[i] == (name, r[name])
    ensures LastWins(entries, r)
    ensures DistinctNames(entries) ==>
              forall i :: 0 <= i < |entries| ==> r[entries[i].0] == entries[i].1
  {
    if entries == [] then map[]
    else
      var init := entries[..|entries| - 1];
      var last := entries[|entries| - 1];
      RepresentsSnoc(entries, FromEntries(init));
      var r := FromEntries(init)[last.0 := last.1];
      assert DistinctNames(entries) ==>
        forall i :: 0 <= i < |entries| ==> LastWithName(entries, i);
      r
  }

  /** Lemma: every seeded activity has a positive capacity and a roster
      within it without repeats. */
  lemma SeedEntriesValid()
    ensures forall i :: 0 <= i < |SeedEntries| ==>
              ActivityValid(SeedEntries[i].1) && SeedEntries[i].1.maxParticipants > 0
  {
  }

  /** Lemma: no activity name is seeded twice. */
  lemma SeedNamesDistinct()
    ensures DistinctNames(SeedEntries)
  {
  }

  /** The registry at start-up: nine activities with positive capacities and
      rosters that already satisfy both invariants; each seeded name maps to
      its seeded activity. */
  function Initial(): (r: Registry)
    ensures r.Keys == Names(SeedEntries)
    ensures |r| == 9
    ensures Valid(r)
    ensures forall name :: name in r ==> r[name].maxParticipants > 0
    ensures forall i :: 0 <= i < |SeedEntries| ==> r[SeedEntries[i].0] == SeedEntries[i].1
  {
    SeedEntriesValid();
    SeedNamesDistinct();
    NamesCount(SeedEntries);
    FromEntries(SeedEntries)
  }

  /** Lemma: the seeded records the example signups use, and one name that
      is not seeded. */
  lemma SeedLookups()
    ensures "Soccer Practice" in Initial() && Initial()["Soccer Practice"] == SoccerPractice
    ensures "Chess Club" in Initial() && Initial()["Chess Club"] == ChessClub
    ensures "Robotics Club" !in Initial()
  {
    assert SeedEntries[3] == ("Soccer Practice", SoccerPractice);
    assert SeedEntries[0] == ("Chess Club", ChessClub);
    assert forall i :: 0 <= i < |SeedEntries| ==> SeedEntries[i].0 != "Robotics Club";
  }

  /** Lemma: a new student joins the empty Soccer Practice roster and gets the
      exact confirmation message. */
  lemma SoccerPracticeSignup()
    ensures var o := Signup(Initial(), "Soccer Practice", "ana@mergington.edu");
            && o.response == Success("Signed up ana@mergington.edu for Soccer Practice")
            && o.registry["Soccer Practice"].participants == ["ana@mergington.edu"]
  {
    SeedLookups();
    AnaConfirmation();
    var reg := Initial();
    assert CanJoin(reg, "Soccer Practice", "ana@mergington.edu");
    assert [] + ["ana@mergington.edu"] == ["ana@mergington.edu"];
  }

  /** Lemma: a student already on the Chess Club roster cannot join again. */
  lemma ChessClubDuplicate()
    ensures var o := Signup(Initial(), "Chess Club", "michael@mergington.edu");
            o.response == Failure(AlreadySignedUp) && o.registry == Initial()
  {
    SeedLookups();
    assert ChessClub.participants[0] == "michael@mergington.edu";
  }

  /** Lemma: a name that is not seeded is reported as not found. */
  lemma UnknownActivity()
    ensures var o := Signup(Initial(), "Robotics Club", "x@mergington.edu");
            o.response == Failure(NotFound) && o.registry == Initial()
  {
    SeedLookups();
  }

  /** Lemma: the confirmation for the Soccer Practice scenario, spelled out. */
  lemma AnaConfirmation()
    ensures Confirmation("ana@mergington.edu", "Soccer Practice")
         == "Signed up ana@mergington.edu for Soccer Practice"
  {
    var greeting := "Signed up ana@mergington.edu";
    assert "Signed up " + "ana@mergington.edu" == greeting by {
      forall i | 0 <= i < |greeting|
        ensures ("Signed up " + "ana@mergington.edu")[i] == greeting[i] {}
    }
    var lead := "Signed up ana@mergington.edu for ";
    assert greeting + " for " == lead by {
      forall i | 0 <= i < |lead| ensures (greeting + " for ")[i] == lead[i] {}
    }
    var message := "Signed up ana@mergington.edu for Soccer Practice";
    assert lead + "Soccer Practice" == message by {
      forall i | 0 <= i < |message| ensures (lead + "Soccer Practice")[i] == message[i] {}
    }
  }
}
