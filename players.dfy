/** The league manager's player editor: the player's manager and the team
    holding match rights are chosen from the existing users, or cleared. */
module Players {
  import opened Wrappers
  import Text
  import Model

  const StatusInvalid := "Status is invalid."
  const MatcherInvalid := "Match rights user ID is invalid."

  /** The two submitted fields, as text. */
  datatype EditForm = EditForm(managerId: string, matcherId: string)

  /** The response: back to the player list, the edit page with an optional
      error, or an uncaught AttributeError when the player does not exist. */
  datatype Outcome = Redirected | Rendered(error: Option<string>) | Crashed

  /** An empty field means "nobody". */
  function Field(s: string): (r: Option<string>)
    ensures r.None? <==> s == ""
    ensures r.Some? ==> r.value == s
  {
    if s == "" then None else Some(s)
  }

  /** The users' ids as the page renders them. */
  function IdTexts(users: seq<Model.User>): (r: seq<string>)
    ensures |r| == |users|
    ensures forall i :: 0 <= i < |users| ==> r[i] == Text.NatToString(users[i].id)
  {
    seq(|users|, i requires 0 <= i < |users| => Text.NatToString(users[i].id))
  }

  /** A chosen id is acceptable when it is absent or names an existing user. */
  predicate Acceptable(v: Option<string>, users: seq<Model.User>) {
    v.None? || v.value in IdTexts(users)
  }

  /** The error the form produces: the matcher check runs second and
      overwrites the manager check's message. */
  function FormError(form: EditForm, users: seq<Model.User>): (e: Option<string>)
    ensures !Acceptable(Field(form.matcherId), users) ==> e == Some(MatcherInvalid)
    ensures (Acceptable(Field(form.matcherId), users) && !Acceptable(Field(form.managerId), users))
              ==> e == Some(StatusInvalid)
    ensures e.None? <==> Acceptable(Field(form.managerId), users) && Acceptable(Field(form.matcherId), users)
  {
    var error := if !Acceptable(Field(form.managerId), users) then Some(StatusInvalid) else None;
    if !Acceptable(Field(form.matcherId), users) then Some(MatcherInvalid) else error
  }

  /** The id an accepted field stores: the id of a user whose id renders as
      the submitted text, or nobody. */
  function Chosen(v: Option<string>, users: seq<Model.User>): (r: Option<nat>)
    requires Acceptable(v, users)
    ensures r.None? <==> v.None?
    ensures r.Some? ==> Text.NatToString(r.value) == v.value
    ensures r.Some? ==> exists i :: 0 <= i < |users| && users[i].id == r.value
    decreases |users|
  {
    if v.None? then None
    else if Text.NatToString(users[|users| - 1].id) == v.value then Some(users[|users| - 1].id)
    else
      assert IdTexts(users) == IdTexts(users[..|users| - 1]) + [Text.NatToString(users[|users| - 1].id)];
      var r := Chosen(v, users[..|users| - 1]);
      assert forall i :: 0 <= i < |users| - 1 ==> users[..|users| - 1][i] == users[i];
      r
  }

  /** A stored id is the only one whose text is the one submitted. */
  lemma ChosenIsUnique(v: Option<string>, users: seq<Model.User>, id: nat)
    requires Acceptable(v, users) && v.Some?
    requires Text.NatToString(id) == v.value
    ensures Chosen(v, users) == Some(id)
  {
    Text.IntToStringInjective(id, Chosen(v, users).value);
  }

  function PlayerId(p: Model.Player): nat {
    p.id
  }

  /** The position of the player with the given id. */
  function Find(players: seq<Model.Player>, id: nat): Option<nat> {
    Model.FindBy(players, PlayerId, id)
  }

  /** The player table. */
  class Roster {
    var players: seq<Model.Player>

    constructor(players: seq<Model.Player>)
      ensures this.players == players
    {
      this.players := players;
    }

    /** edit: a GET shows the page; a valid POST replaces the manager and
        the matcher and nothing else. */
    method Edit(playerId: nat, post: bool, form: EditForm, users: seq<Model.User>) returns (outcome: Outcome)
      modifies this
      ensures !post ==> outcome == Rendered(None) && players == old(players)
      ensures (post && FormError(form, users).Some?)
                ==> outcome == Rendered(FormError(form, users)) && players == old(players)
      ensures (post && FormError(form, users).None? && Find(old(players), playerId).None?)
                ==> outcome == Crashed && players == old(players)
      ensures post && FormError(form, users).None? && Find(old(players), playerId).Some? ==>
                var k := Find(old(players), playerId).value;
                && outcome == Redirected
                && players == old(players)[k := old(players)[k].(
                     managerId := Chosen(Field(form.managerId), users),
                     matcherId := Chosen(Field(form.matcherId), users))]
    {
      var found := Find(players, playerId);
      if !post {
        return Rendered(None);
      }
      var managerId := Field(form.managerId);
      var matcherId := Field(form.matcherId);
      var error := FormError(form, users);
      if error.Some? {
        return Rendered(error);
      }
      if found.None? {
        // assigning to an attribute of None
        return Crashed;
      }
      var k := found.value;
      players := players[k := players[k].(managerId := Chosen(managerId, users),
                                          matcherId := Chosen(matcherId, users))];
      outcome := Redirected;
    }
  }
}
