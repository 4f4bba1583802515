/** The league manager's user editor: a submitted form is validated, the
    fields that differ from the stored user are collected with their old
    and new values, all six editable fields are overwritten, and an audit
    entry is written when anything changed. */
module Users {
  import opened Wrappers
  import Text
  import Sorting
  import Model
  import Audit

  const NotFound := "User not found."
  const TeamNameRequired := "Team name is required."
  const ShortTeamNameRequired := "Short team name is required."
  const TiebreakerRequired := "Tiebreaker order is required."
  const TiebreakerNotNumber := "Tiebreaker order must be a number."

  /** The submitted form: the three required fields as typed, the two chat
      ids ("" when absent) and the league-manager checkbox, absent when
      unticked. */
  datatype EditForm = EditForm(teamName: string, shortTeamName: string, tiebreakerOrder: string,
                               slackId: string, discordId: string, managerBox: Option<string>)

  /** The response: a redirect with its flashed message, the edit page with
      an optional error, or an uncaught IntegrityError at commit. */
  datatype Outcome = Redirected(flash: string) | Rendered(error: Option<string>) | Crashed

  function IsManager(form: EditForm): bool {
    form.managerBox == Some("on")
  }

  /** The error the form produces, if any. The required checks come in
      order; a tiebreaker order that does not parse overrides them all,
      which makes the "required" message for it unreachable. */
  function FormError(form: EditForm): (e: Option<string>)
    ensures Text.ParseInt(form.tiebreakerOrder).None? ==> e == Some(TiebreakerNotNumber)
    ensures Text.ParseInt(form.tiebreakerOrder).Some? ==>
      && (form.teamName == "" ==> e == Some(TeamNameRequired))
      && (form.teamName != "" && form.shortTeamName == "" ==> e == Some(ShortTeamNameRequired))
      && (form.teamName != "" && form.shortTeamName != "" ==> e == None)
    ensures e != Some(TiebreakerRequired)
  {
    var error :=
      if form.teamName == "" then Some(TeamNameRequired)
      else if form.shortTeamName == "" then Some(ShortTeamNameRequired)
      else if form.tiebreakerOrder == "" then Some(TiebreakerRequired)
      else None;
    if Text.ParseInt(form.tiebreakerOrder).None? then Some(TiebreakerNotNumber) else error
  }

  function OptionalInt(v: Option<int>): Audit.Value {
    if v.Some? then Audit.Int(v.value) else Audit.Null
  }

  function OptionalStr(v: Option<string>): Audit.Value {
    if v.Some? then Audit.Str(v.value) else Audit.Null
  }

  /** The six editable fields, each with the stored and the submitted value. */
  function Candidates(u: Model.User, form: EditForm, order: int): (r: seq<Audit.Change>)
    ensures |r| == 6
  {
    [ Audit.Change("team_name", Audit.Str(u.teamName), Audit.Str(form.teamName)),
      Audit.Change("short_team_name", Audit.Str(u.shortTeamName), Audit.Str(form.shortTeamName)),
      Audit.Change("tiebreaker_order", OptionalInt(u.tiebreakerOrder), Audit.Int(order)),
      Audit.Change("slack_id", OptionalStr(u.slackId), Audit.Str(form.slackId)),
      Audit.Change("discord_id", OptionalStr(u.discordId), Audit.Str(form.discordId)),
      Audit.Change("is_league_manager", Audit.Bool(u.isLeagueManager), Audit.Bool(IsManager(form))) ]
  }

  function Differs(c: Audit.Change): bool {
    c.before != c.after
  }

  /** The `changes` dictionary: the fields whose value differs, in field order. */
  function Changes(u: Model.User, form: EditForm, order: int): seq<Audit.Change> {
    Sorting.Filter(Candidates(u, form, order), Differs)
  }

  /** The user with all six fields overwritten. */
  function Updated(u: Model.User, form: EditForm, order: int): (r: Model.User)
    ensures r.id == u.id && r.username == u.username && r.password == u.password
  {
    u.(teamName := form.teamName, shortTeamName := form.shortTeamName,
       tiebreakerOrder := Some(order), slackId := Some(form.slackId),
       discordId := Some(form.discordId), isLeagueManager := IsManager(form))
  }

  /** A field is among the changes exactly when its stored and submitted
      values differ, and then with both values recorded. */
  lemma ChangedFields(u: Model.User, form: EditForm, order: int)
    ensures forall i :: 0 <= i < 6 ==>
              (Candidates(u, form, order)[i] in Changes(u, form, order)
               <==> Candidates(u, form, order)[i].before != Candidates(u, form, order)[i].after)
  {
    var cands := Candidates(u, form, order);
    Sorting.FilterMembers(cands, Differs);
    assert forall i :: 0 <= i < 6 ==> cands[i] in cands;
  }

  /** Every recorded change is one of the six fields, with differing values. */
  lemma OnlyDifferences(u: Model.User, form: EditForm, order: int)
    ensures forall c :: c in Changes(u, form, order) ==> c in Candidates(u, form, order) && c.before != c.after
  {
    Sorting.FilterMembers(Candidates(u, form, order), Differs);
  }

  /** There are no changes exactly when the update leaves the user as it
      was, so the audit entry is skipped exactly for a no-op edit. */
  lemma NoChangesIffUnchanged(u: Model.User, form: EditForm, order: int)
    ensures Changes(u, form, order) == [] <==> Updated(u, form, order) == u
  {
    var cands := Candidates(u, form, order);
    var cs := Changes(u, form, order);
    Sorting.FilterMembers(cands, Differs);
    if cs == [] {
      forall i | 0 <= i < 6 ensures !Differs(cands[i]) {
        assert cands[i] in cands && cands[i] !in cs;
      }
      assert !Differs(cands[0]) && !Differs(cands[1]) && !Differs(cands[5]);
      assert !Differs(cands[2]) && !Differs(cands[3]) && !Differs(cands[4]);
      assert u.teamName == form.teamName && u.shortTeamName == form.shortTeamName;
      assert u.isLeagueManager == IsManager(form);
      assert u.tiebreakerOrder == Some(order) && u.slackId == Some(form.slackId) && u.discordId == Some(form.discordId);
    } else {
      assert cs[0] in cs;
    }
  }

  /** One comparison: the field is recorded with its old and new value
      when they differ. */
  method Note(changes: seq<Audit.Change>, field: string, before: Audit.Value, after: Audit.Value)
    returns (r: seq<Audit.Change>)
    ensures r == changes + (if before != after then [Audit.Change(field, before, after)] else [])
  {
    r := changes;
    if before != after {
      r := r + [Audit.Change(field, before, after)];
    }
  }

  /** The field-by-field comparison. */
  method Diff(u: Model.User, form: EditForm, order: int) returns (changes: seq<Audit.Change>)
    ensures changes == Changes(u, form, order)
  {
    ghost var cands := Candidates(u, form, order);
    changes := [];
    Sorting.FilterSnoc([], cands[0], Differs);
    changes := Note(changes, "team_name", Audit.Str(u.teamName), Audit.Str(form.teamName));
    Sorting.FilterSnoc(cands[..1], cands[1], Differs);
    changes := Note(changes, "short_team_name", Audit.Str(u.shortTeamName), Audit.Str(form.shortTeamName));
    Sorting.FilterSnoc(cands[..2], cands[2], Differs);
    changes := Note(changes, "tiebreaker_order", OptionalInt(u.tiebreakerOrder), Audit.Int(order));
    Sorting.FilterSnoc(cands[..3], cands[3], Differs);
    changes := Note(changes, "slack_id", OptionalStr(u.slackId), Audit.Str(form.slackId));
    Sorting.FilterSnoc(cands[..4], cands[4], Differs);
    changes := Note(changes, "discord_id", OptionalStr(u.discordId), Audit.Str(form.discordId));
    Sorting.FilterSnoc(cands[..5], cands[5], Differs);
    changes := Note(changes, "is_league_manager", Audit.Bool(u.isLeagueManager), Audit.Bool(IsManager(form)));
    assert cands[..1] == [] + [cands[0]];
    assert cands[..2] == cands[..1] + [cands[1]];
    assert cands[..3] == cands[..2] + [cands[2]];
    assert cands[..4] == cands[..3] + [cands[3]];
    assert cands[..5] == cands[..4] + [cands[4]];
    assert cands == cands[..5] + [cands[5]];
  }

  function UserId(u: Model.User): nat {
    u.id
  }

  /** The position of the user with the given id. */
  function Find(users: seq<Model.User>, id: nat): Option<nat> {
    Model.FindBy(users, UserId, id)
  }

  /** Another user already holds the tiebreaker order, which the unique
      column refuses at commit. */
  predicate OrderTaken(users: seq<Model.User>, k: nat, order: int) {
    exists j :: 0 <= j < |users| && j != k && users[j].tiebreakerOrder == Some(order)
  }

  /** The user table. */
  class Directory {
    var users: seq<Model.User>

    /** The ids are distinct, and so are the tiebreaker orders that are set. */
    ghost predicate Valid()
      reads this
    {
      && (forall i, j :: 0 <= i < j < |users| ==> users[i].id != users[j].id)
      && (forall i, j :: 0 <= i < j < |users| && users[i].tiebreakerOrder.Some?
            ==> users[i].tiebreakerOrder != users[j].tiebreakerOrder)
    }

    constructor(users: seq<Model.User>)
      requires forall i, j :: 0 <= i < j < |users| ==> users[i].id != users[j].id
      requires forall i, j :: 0 <= i < j < |users| && users[i].tiebreakerOrder.Some?
                 ==> users[i].tiebreakerOrder != users[j].tiebreakerOrder
      ensures Valid() && this.users == users
    {
      this.users := users;
    }

    /** edit: a GET shows the page; a POST is validated and, when valid,
        overwrites the six fields and logs what changed. */
    method Edit(userId: nat, post: bool, form: EditForm, journal: Audit.Journal, req: Audit.Request)
      returns (outcome: Outcome)
      requires Valid() && journal.Valid()
      modifies this, journal
      ensures Valid() && journal.Valid()
      ensures Find(old(users), userId).None? ==> outcome == Redirected(NotFound)
      ensures (Find(old(users), userId).None? || !post || FormError(form).Some? || outcome == Crashed)
                ==> users == old(users) && journal.entries == old(journal.entries)
      ensures Find(old(users), userId).Some? && !post ==> outcome == Rendered(None)
      ensures (Find(old(users), userId).Some? && post && FormError(form).Some?)
                ==> outcome == Rendered(FormError(form))
      ensures outcome == Crashed <==>
                Find(old(users), userId).Some? && post && FormError(form).None?
                && OrderTaken(old(users), Find(old(users), userId).value, Text.ParseInt(form.tiebreakerOrder).value)
      ensures Find(old(users), userId).Some? && post && FormError(form).None? && !outcome.Crashed? ==>
                var k := Find(old(users), userId).value;
                var order := Text.ParseInt(form.tiebreakerOrder).value;
                var changes := Changes(old(users)[k], form, order);
                && outcome == Redirected("User '" + form.teamName + "' updated successfully.")
                && users == old(users)[k := Updated(old(users)[k], form, order)]
                && journal.entries == old(journal.entries)
                   + (if changes == [] then []
                      else [Audit.NewEntry(|old(journal.entries)| + 1, "update", "user", Some(userId),
                                           "Updated user " + form.teamName + ": " + Audit.ChangeSummary(changes),
                                           Some(Audit.OldValues(changes)), Some(Audit.NewValues(changes)),
                                           false, req.user, req, journal.encode)])
    {
      var found := Find(users, userId);
      if found.None? {
        return Redirected(NotFound);
      }
      if !post {
        return Rendered(None);
      }
      var error := FormError(form);
      if error.Some? {
        return Rendered(error);
      }
      var k := found.value;
      var order := Text.ParseInt(form.tiebreakerOrder).value;
      var user := users[k];
      if OrderTaken(users, k, order) {
        // the commit raises IntegrityError and the session is rolled back
        return Crashed;
      }
      var changes := Diff(user, form, order);
      users := users[k := Updated(user, form, order)];
      if changes != [] {
        journal.Log("update", "user", Some(userId),
                    "Updated user " + form.teamName + ": " + Audit.ChangeSummary(changes),
                    Some(Audit.OldValues(changes)), Some(Audit.NewValues(changes)), false, req.user, req);
      }
      outcome := Redirected("User '" + form.teamName + "' updated successfully.");
    }
  }
}
