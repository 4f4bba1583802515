/** The tiebreaker ledger: every user's tiebreaker_order, a nullable integer
    that the database keeps unique among the users that have one. A smaller
    order wins a tie; the winner of a tie is then dropped to the bottom. */
module Tiebreaker {
  import opened Wrappers
  import Text

  type UserId = nat

  /** tiebreaker_order of every user, None when the user has none. */
  type Ranks = map<UserId, Option<int>>

  const NotPositiveMessage := "Tiebreaker order values must be positive integers."
  const NotUniqueMessage := "Tiebreaker order values must be unique."

  /** The unique constraint on User.tiebreaker_order: no two users share a
      (non-null) order. */
  predicate Distinct(ranks: Ranks) {
    forall u, v :: u in ranks && v in ranks && u != v && ranks[u].Some? && ranks[v].Some?
      ==> ranks[u].value != ranks[v].value
  }

  /** The ranked users hold exactly the orders 1..n. */
  ghost predicate Dense(ranks: Ranks, n: int) {
    && (forall u :: u in ranks && ranks[u].Some? ==> 1 <= ranks[u].value <= n)
    && (forall k :: 1 <= k <= n ==> exists u :: u in ranks && ranks[u] == Some(k))
  }

  /** A user ranked strictly after the winner's order wr. */
  predicate Above(r: Option<int>, wr: int) {
    r.Some? && r.value > wr
  }

  ghost predicate Covers(users: seq<UserId>, ranks: Ranks) {
    forall u :: u in ranks <==> u in users
  }

  /** The running maximum of the drop loop: the largest order above wr among
      users, starting from 0. */
  function MaxAbove(users: seq<UserId>, ranks: Ranks, wr: int): int
    requires forall u :: u in users ==> u in ranks
    decreases |users|
  {
    if users == [] then 0
    else
      var m := MaxAbove(users[..|users| - 1], ranks, wr);
      var r := ranks[users[|users| - 1]];
      if Above(r, wr) && r.value > m then r.value else m
  }

  lemma {:induction false} MaxAboveBounds(users: seq<UserId>, ranks: Ranks, wr: int)
    requires forall u :: u in users ==> u in ranks
    ensures 0 <= MaxAbove(users, ranks, wr)
    ensures forall u :: u in users && Above(ranks[u], wr) ==> ranks[u].value <= MaxAbove(users, ranks, wr)
    ensures MaxAbove(users, ranks, wr) == 0
            || exists u :: u in users && Above(ranks[u], wr) && ranks[u].value == MaxAbove(users, ranks, wr)
    decreases |users|
  {
    if users != [] {
      var init := users[..|users| - 1];
      MaxAboveBounds(init, ranks, wr);
      assert users == init + [users[|users| - 1]];
      forall u | u in users && Above(ranks[u], wr)
        ensures ranks[u].value <= MaxAbove(users, ranks, wr)
      {
        if u != users[|users| - 1] {
          assert u in init;
        }
      }
      if MaxAbove(users, ranks, wr) != MaxAbove(init, ranks, wr) {
        assert users[|users| - 1] in users;
      } else if MaxAbove(init, ranks, wr) != 0 {
        var v :| v in init && Above(ranks[v], wr) && ranks[v].value == MaxAbove(init, ranks, wr);
        assert v in users;
      }
    }
  }

  /** The ranks after drop_to_tiebreaker_bottom(w): every user ranked after
      w moves up by one and w takes the largest of their old orders. When
      nobody is ranked after w, nothing changes. */
  function Dropped(users: seq<UserId>, ranks: Ranks, w: UserId): Ranks
    requires Covers(users, ranks)
    requires w in ranks && ranks[w].Some?
  {
    var wr := ranks[w].value;
    if exists u :: u in users && Above(ranks[u], wr) then
      map u | u in ranks ::
        if Above(ranks[u], wr) then Some(ranks[u].value - 1)
        else if u == w then Some(MaxAbove(users, ranks, wr))
        else ranks[u]
    else ranks
  }

  /** Users ranked after w move up by one; users ranked before w and
      unranked users keep their order; nobody gains or loses a rank. */
  lemma DropShifts(users: seq<UserId>, ranks: Ranks, w: UserId)
    requires Covers(users, ranks)
    requires w in ranks && ranks[w].Some?
    ensures var d := Dropped(users, ranks, w);
      && d.Keys == ranks.Keys
      && (forall u :: u in ranks && Above(ranks[u], ranks[w].value) ==> d[u] == Some(ranks[u].value - 1))
      && (forall u :: u in ranks && u != w && !Above(ranks[u], ranks[w].value) ==> d[u] == ranks[u])
      && (forall u :: u in ranks ==> (d[u].Some? <==> ranks[u].Some?))
  {
  }

  /** If nobody is ranked after w, no order changes at all. */
  lemma DropNoOp(users: seq<UserId>, ranks: Ranks, w: UserId)
    requires Covers(users, ranks)
    requires w in ranks && ranks[w].Some?
    requires forall u :: u in ranks ==> !Above(ranks[u], ranks[w].value)
    ensures Dropped(users, ranks, w) == ranks
  {
  }

  /** Afterwards w is ranked strictly after every other ranked user. */
  lemma DropPutsWinnerLast(users: seq<UserId>, ranks: Ranks, w: UserId)
    requires Covers(users, ranks)
    requires w in ranks && ranks[w].Some?
    requires exists u :: u in ranks && Above(ranks[u], ranks[w].value)
    ensures var d := Dropped(users, ranks, w);
      d[w].Some? && forall u :: u in d && u != w && d[u].Some? ==> d[u].value < d[w].value
  {
    var wr := ranks[w].value;
    MaxAboveBounds(users, ranks, wr);
    var a :| a in ranks && Above(ranks[a], wr);
    assert a in users;
  }

  /** When w's order is not negative, its new order is the largest old order
      among the users ranked after it. */
  lemma DropGivesLargestOrder(users: seq<UserId>, ranks: Ranks, w: UserId)
    requires Covers(users, ranks)
    requires w in ranks && ranks[w].Some? && ranks[w].value >= 0
    requires exists u :: u in ranks && Above(ranks[u], ranks[w].value)
    ensures var d := Dropped(users, ranks, w);
      && d[w].Some?
      && (exists u :: u in ranks && Above(ranks[u], ranks[w].value) && ranks[u].value == d[w].value)
      && (forall u :: u in ranks && Above(ranks[u], ranks[w].value) ==> ranks[u].value <= d[w].value)
  {
    var wr := ranks[w].value;
    MaxAboveBounds(users, ranks, wr);
    var a :| a in ranks && Above(ranks[a], wr);
    assert a in users;
  }

  /** Distinct orders stay distinct: the unique constraint still holds when
      the updates are committed. */
  lemma DropKeepsDistinct(users: seq<UserId>, ranks: Ranks, w: UserId)
    requires Covers(users, ranks)
    requires w in ranks && ranks[w].Some?
    requires Distinct(ranks)
    ensures Distinct(Dropped(users, ranks, w))
  {
    var wr := ranks[w].value;
    var d := Dropped(users, ranks, w);
    if exists u :: u in users && Above(ranks[u], wr) {
      MaxAboveBounds(users, ranks, wr);
      var m := MaxAbove(users, ranks, wr);
      var a :| a in users && Above(ranks[a], wr);
      assert m > wr;
      forall u, v | u in d && v in d && u != v && d[u].Some? && d[v].Some?
        ensures d[u].value != d[v].value
      {
        if u != w && v != w {
          assert ranks[u].value != ranks[v].value;
        }
      }
    }
  }

  /** The relative order of every user other than w is kept. */
  lemma DropKeepsRelativeOrder(users: seq<UserId>, ranks: Ranks, w: UserId, u: UserId, v: UserId)
    requires Covers(users, ranks)
    requires w in ranks && ranks[w].Some?
    requires Distinct(ranks)
    requires u in ranks && v in ranks && u != w && v != w
    requires ranks[u].Some? && ranks[v].Some?
    ensures var d := Dropped(users, ranks, w);
      d[u].Some? && d[v].Some? && (ranks[u].value < ranks[v].value <==> d[u].value < d[v].value)
  {
    assert ranks[u].value != ranks[w].value && ranks[v].value != ranks[w].value;
  }

  /** Orders that are exactly 1..n stay exactly 1..n. */
  lemma DropKeepsDense(users: seq<UserId>, ranks: Ranks, w: UserId, n: int)
    requires Covers(users, ranks)
    requires w in ranks && ranks[w].Some?
    requires Distinct(ranks) && Dense(ranks, n)
    ensures Dense(Dropped(users, ranks, w), n)
  {
    if exists u :: u in users && Above(ranks[u], ranks[w].value) {
      DropShiftedDense(users, ranks, w, n);
    } else {
      assert Dropped(users, ranks, w) == ranks;
    }
  }

  lemma DropShiftedDense(users: seq<UserId>, ranks: Ranks, w: UserId, n: int)
    requires Covers(users, ranks)
    requires w in ranks && ranks[w].Some?
    requires Distinct(ranks) && Dense(ranks, n)
    requires exists u :: u in users && Above(ranks[u], ranks[w].value)
    ensures Dense(Dropped(users, ranks, w), n)
  {
    DropTopIsN(users, ranks, w, n);
    DropInRange(users, ranks, w, n);
    var d := Dropped(users, ranks, w);
    forall k | 1 <= k <= n ensures exists u :: u in d && d[u] == Some(k) {
      DropCovers(users, ranks, w, n, k);
    }
  }

  lemma DropInRange(users: seq<UserId>, ranks: Ranks, w: UserId, n: int)
    requires Covers(users, ranks)
    requires w in ranks && ranks[w].Some?
    requires Dense(ranks, n)
    requires MaxAbove(users, ranks, ranks[w].value) == n
    ensures var d := Dropped(users, ranks, w);
      forall u :: u in d && d[u].Some? ==> 1 <= d[u].value <= n
  {
  }

  /** With dense orders and somebody ranked after w, w's new order is n. */
  lemma DropTopIsN(users: seq<UserId>, ranks: Ranks, w: UserId, n: int)
    requires Covers(users, ranks)
    requires w in ranks && ranks[w].Some?
    requires Dense(ranks, n)
    requires exists u :: u in users && Above(ranks[u], ranks[w].value)
    ensures MaxAbove(users, ranks, ranks[w].value) == n
  {
    var wr := ranks[w].value;
    MaxAboveBounds(users, ranks, wr);
    var a :| a in users && Above(ranks[a], wr);
    var top :| top in ranks && ranks[top] == Some(n);
    assert top in users && Above(ranks[top], wr);
  }

  lemma DropCovers(users: seq<UserId>, ranks: Ranks, w: UserId, n: int, k: int)
    requires Covers(users, ranks)
    requires w in ranks && ranks[w].Some?
    requires Distinct(ranks) && Dense(ranks, n)
    requires exists u :: u in users && Above(ranks[u], ranks[w].value)
    requires MaxAbove(users, ranks, ranks[w].value) == n
    requires 1 <= k <= n
    ensures var d := Dropped(users, ranks, w); exists u :: u in d && d[u] == Some(k)
  {
    var wr := ranks[w].value;
    var d := Dropped(users, ranks, w);
    if k < wr {
      var b :| b in ranks && ranks[b] == Some(k);
      assert d[b] == Some(k);
    } else if k < n {
      var b :| b in ranks && ranks[b] == Some(k + 1);
      assert d[b] == Some(k);
    } else {
      assert d[w] == Some(k);
    }
  }

  /** The form value submitted for a user is a positive integer. */
  predicate ValidOrder(s: string) {
    Text.ParseInt(s).Some? && Text.ParseInt(s).value > 0
  }

  /** Some user's submitted value is not a positive integer. */
  predicate AnyInvalid(ranks: Ranks, form: map<UserId, string>) {
    exists u :: u in ranks && u in form && !ValidOrder(form[u])
  }

  /** The users whose submitted value differs from their current order, with
      the submitted value. */
  function Changes(ranks: Ranks, form: map<UserId, string>): map<UserId, int> {
    map u | u in form && u in ranks && ValidOrder(form[u])
                      && ranks[u] != Some(Text.ParseInt(form[u]).value)
      :: Text.ParseInt(form[u]).value
  }

  /** The ranks with the changed users given their new orders. */
  function Applied(ranks: Ranks, changes: map<UserId, int>): (r: Ranks)
    ensures r.Keys == ranks.Keys
  {
    map u | u in ranks :: if u in changes then Some(changes[u]) else ranks[u]
  }

  datatype EditOutcome = Saved | NothingToSave | Rejected(message: string)

  // The states the two views pass through, used by the loop invariants.

  /** The ranks once the first drop loop has cleared every user of prefix
      ranked after wr. */
  ghost function Cleared(ranks: Ranks, prefix: seq<UserId>, wr: int): Ranks {
    map u | u in ranks :: if u in prefix && Above(ranks[u], wr) then None else ranks[u]
  }

  /** The updates dict once the first drop loop has looked at prefix. */
  ghost function Shifted(ranks: Ranks, prefix: seq<UserId>, wr: int): map<UserId, int> {
    map u | u in ranks && u in prefix && Above(ranks[u], wr) :: ranks[u].value - 1
  }

  /** base with the users of done given their value in updates. */
  ghost function Assigned(base: Ranks, updates: map<UserId, int>, done: seq<UserId>): Ranks {
    map u | u in base :: if u in done && u in updates then Some(updates[u]) else base[u]
  }

  /** The changes of the edit form among the users of prefix. */
  ghost function ChangesIn(ranks: Ranks, form: map<UserId, string>, prefix: seq<UserId>): map<UserId, int> {
    map u | u in Changes(ranks, form) && u in prefix :: Changes(ranks, form)[u]
  }

  /** ranks with the users of updates cleared. */
  ghost function Blanked(ranks: Ranks, updates: map<UserId, int>): Ranks {
    map u | u in ranks :: if u in updates then None else ranks[u]
  }

  lemma ScanStep(ranks: Ranks, users: seq<UserId>, i: nat, wr: int)
    requires i < |users| && users[i] in ranks
    requires forall u :: u in users[..i] ==> u in ranks
    ensures var x := users[i];
      Cleared(ranks, users[..i + 1], wr)
      == if Above(ranks[x], wr) then Cleared(ranks, users[..i], wr)[x := None] else Cleared(ranks, users[..i], wr)
    ensures var x := users[i];
      Shifted(ranks, users[..i + 1], wr)
      == if Above(ranks[x], wr) then Shifted(ranks, users[..i], wr)[x := ranks[x].value - 1] else Shifted(ranks, users[..i], wr)
    ensures var x := users[i]; var m := MaxAbove(users[..i], ranks, wr);
      MaxAbove(users[..i + 1], ranks, wr) == if Above(ranks[x], wr) && ranks[x].value > m then ranks[x].value else m
  {
    assert users[..i + 1] == users[..i] + [users[i]];
    assert users[..i + 1][..i] == users[..i];
  }

  lemma AssignStep(base: Ranks, updates: map<UserId, int>, done: seq<UserId>, x: UserId)
    requires x in base && x in updates
    ensures Assigned(base, updates, done + [x]) == Assigned(base, updates, done)[x := Some(updates[x])]
  {
  }

  lemma ChangesStep(ranks: Ranks, form: map<UserId, string>, users: seq<UserId>, i: nat)
    requires i < |users| && users[i] in ranks
    ensures var x := users[i];
      ChangesIn(ranks, form, users[..i + 1])
      == if x in Changes(ranks, form) then ChangesIn(ranks, form, users[..i])[x := Changes(ranks, form)[x]]
         else ChangesIn(ranks, form, users[..i])
  {
    assert users[..i + 1] == users[..i] + [users[i]];
  }

  lemma BlankStep(ranks: Ranks, updates: map<UserId, int>, x: UserId, v: int)
    requires x in ranks
    ensures Blanked(ranks, updates[x := v]) == Blanked(ranks, updates)[x := None]
  {
  }

  /** The two drop loops together compute Dropped. */
  lemma DropAssembled(users: seq<UserId>, ranks: Ranks, w: UserId, order: seq<UserId>)
    requires Covers(users, ranks)
    requires w in ranks && ranks[w].Some?
    requires exists u :: u in users && Above(ranks[u], ranks[w].value)
    requires forall u :: u in order <==> u in Shifted(ranks, users, ranks[w].value) || u == w
    ensures var wr := ranks[w].value;
      Assigned(Cleared(ranks, users, wr)[w := None],
               Shifted(ranks, users, wr)[w := MaxAbove(users, ranks, wr)], order)
      == Dropped(users, ranks, w)
  {
  }

  /** The two edit loops together compute Applied. */
  lemma EditAssembled(ranks: Ranks, updates: map<UserId, int>, order: seq<UserId>)
    requires forall u :: u in updates ==> u in ranks
    requires forall u :: u in order <==> u in updates
    ensures Assigned(Blanked(ranks, updates), updates, order) == Applied(ranks, updates)
  {
  }

  /** The loop that sets every user of order to its value in updates. */
  method AssignAll(base: Ranks, updates: map<UserId, int>, order: seq<UserId>) returns (r: Ranks)
    requires forall u :: u in order ==> u in base && u in updates
    ensures r == Assigned(base, updates, order)
  {
    r := base;
    var j := 0;
    while j < |order|
      invariant 0 <= j <= |order|
      invariant r == Assigned(base, updates, order[..j])
    {
      assert order[..j + 1] == order[..j] + [order[j]];
      AssignStep(base, updates, order[..j], order[j]);
      r := r[order[j] := Some(updates[order[j]])];
      j := j + 1;
    }
    assert order[..|order|] == order;
  }

  /** The first loop of drop_to_tiebreaker_bottom when the winner is
      unranked: the comparison with None raises a TypeError at the first
      ranked user, before any user has been changed. */
  method HitsRanked(users: seq<UserId>, ranks: Ranks) returns (crashed: bool)
    requires forall u :: u in users ==> u in ranks
    ensures crashed <==> exists u :: u in users && ranks[u].Some?
  {
    var i := 0;
    while i < |users|
      invariant 0 <= i <= |users|
      invariant forall j :: 0 <= j < i ==> ranks[users[j]].None?
    {
      if ranks[users[i]].Some? {
        return true;
      }
      i := i + 1;
    }
    return false;
  }

  /** The first loop of drop_to_tiebreaker_bottom when the winner has order
      wr: every user ranked after wr is cleared and recorded in updates with
      its order less one, and maxOrder tracks the largest such order. */
  method ScanAbove(users: seq<UserId>, ranks: Ranks, wr: int)
    returns (cleared: Ranks, updates: map<UserId, int>, touched: seq<UserId>, maxOrder: int)
    requires forall i, j :: 0 <= i < j < |users| ==> users[i] != users[j]
    requires forall u :: u in users ==> u in ranks
    ensures cleared == Cleared(ranks, users, wr)
    ensures updates == Shifted(ranks, users, wr)
    ensures maxOrder == MaxAbove(users, ranks, wr)
    ensures forall u :: u in touched <==> u in updates
  {
    cleared := ranks;
    updates := map[];
    touched := [];
    maxOrder := 0;
    var i := 0;
    while i < |users|
      invariant 0 <= i <= |users|
      invariant cleared == Cleared(ranks, users[..i], wr)
      invariant updates == Shifted(ranks, users[..i], wr)
      invariant maxOrder == MaxAbove(users[..i], ranks, wr)
      invariant forall u :: u in touched <==> u in updates
    {
      var u := users[i];
      assert u !in users[..i];
      ScanStep(ranks, users, i, wr);
      if ranks[u].Some? && ranks[u].value > wr {
        if ranks[u].value > maxOrder {
          maxOrder := ranks[u].value;
        }
        updates := updates[u := ranks[u].value - 1];
        touched := touched + [u];
        cleared := cleared[u := None];
      }
      i := i + 1;
    }
    assert users[..|users|] == users;
  }

  /** The first loop of the edit view over all users: the batch is invalid
      as soon as a submitted value is not a positive integer; otherwise each
      user whose submitted value differs from their order is cleared in
      working and recorded in updates. */
  method ReadForm(users: seq<UserId>, ranks: Ranks, form: map<UserId, string>)
    returns (invalid: bool, working: Ranks, updates: map<UserId, int>, touched: seq<UserId>)
    requires forall i, j :: 0 <= i < j < |users| ==> users[i] != users[j]
    requires Covers(users, ranks)
    ensures invalid <==> AnyInvalid(ranks, form)
    ensures !invalid ==> updates == Changes(ranks, form)
    ensures !invalid ==> working == Blanked(ranks, updates)
    ensures forall u :: u in touched <==> u in updates
  {
    working := ranks;
    updates := map[];
    touched := [];
    invalid := false;
    var i := 0;
    while i < |users|
      invariant 0 <= i <= |users|
      invariant forall j :: 0 <= j < i && users[j] in form ==> ValidOrder(form[users[j]])
      invariant updates == ChangesIn(ranks, form, users[..i])
      invariant working == Blanked(ranks, updates)
      invariant forall u :: u in touched <==> u in updates
    {
      var u := users[i];
      assert u !in users[..i];
      ChangesStep(ranks, form, users, i);
      if u in form {
        var parsed := Text.ParseInt(form[u]);
        if parsed.None? || parsed.value <= 0 {
          invalid := true;
          return;
        }
        assert u !in updates;
        if Some(parsed.value) != working[u] {
          BlankStep(ranks, updates, u, parsed.value);
          working := working[u := None];
          updates := updates[u := parsed.value];
          touched := touched + [u];
        }
      }
      i := i + 1;
    }
    assert users[..|users|] == users;
  }

  class Ledger {
    /** Every registered user, in the order the query returns them. */
    const users: seq<UserId>
    /** The committed tiebreaker_order of every user. */
    var ranks: Ranks

    ghost predicate Valid()
      reads this
    {
      && (forall i, j :: 0 <= i < j < |users| ==> users[i] != users[j])
      && Covers(users, ranks)
      && Distinct(ranks)
    }

    constructor (users: seq<UserId>, ranks: Ranks)
      requires forall i, j :: 0 <= i < j < |users| ==> users[i] != users[j]
      requires Covers(users, ranks) && Distinct(ranks)
      ensures Valid() && this.users == users && this.ranks == ranks
    {
      this.users := users;
      this.ranks := ranks;
    }

    /** drop_to_tiebreaker_bottom(w). When w has no order and some user has
        one, comparing that user's order with None raises a TypeError before
        anything is changed: crashed is then true and the ranks are kept. */
    method DropToBottom(w: UserId) returns (crashed: bool)
      requires Valid() && w in ranks
      modifies this
      ensures Valid()
      ensures crashed <==> old(ranks)[w].None? && exists u :: u in old(ranks) && old(ranks)[u].Some?
      ensures old(ranks)[w].None? ==> ranks == old(ranks)
      ensures old(ranks)[w].Some? ==> ranks == Dropped(users, old(ranks), w)
    {
      ghost var before := ranks;
      var wRank := ranks[w];
      if wRank.None? {
        crashed := HitsRanked(users, ranks);
        return;
      }
      crashed := false;
      var wr := wRank.value;
      var cleared, updates, touched, maxOrder := ScanAbove(users, ranks, wr);
      ranks := cleared;
      if updates != map[] {
        var some :| some in updates;
        assert some in users && Above(before[some], wr);
        updates := updates[w := maxOrder];
        ranks := ranks[w := None];
        var order := touched + [w];
        ranks := AssignAll(ranks, updates, order);
        DropAssembled(users, before, w, order);
      } else {
        forall u | u in users ensures !Above(before[u], wr) {
          assert u !in updates;
        }
        assert ranks == before;
      }
      DropKeepsDistinct(users, before, w);
    }

    /** The POST branch of the tiebreaker edit view. form holds the
        submitted value of each user that has a field in the request. The
        batch is rejected if any value is not a positive integer, and
        rolled back if the new orders collide; only users whose value
        differs from their order are updated. */
    method Edit(form: map<UserId, string>) returns (outcome: EditOutcome)
      requires Valid()
      modifies this
      ensures Valid()
      ensures outcome == Rejected(NotPositiveMessage) <==> AnyInvalid(old(ranks), form)
      ensures !AnyInvalid(old(ranks), form) && Changes(old(ranks), form) == map[]
              ==> outcome == NothingToSave
      ensures !AnyInvalid(old(ranks), form) && Changes(old(ranks), form) != map[]
              ==> outcome == (if Distinct(Applied(old(ranks), Changes(old(ranks), form)))
                              then Saved else Rejected(NotUniqueMessage))
      ensures outcome == Saved ==> ranks == Applied(old(ranks), Changes(old(ranks), form))
      ensures outcome != Saved ==> ranks == old(ranks)
    {
      // working stands for the session's user objects: nothing reaches the
      // database until the commit at the end.
      var invalid, working, updates, touched := ReadForm(users, ranks, form);
      if invalid {
        return Rejected(NotPositiveMessage);
      }
      if updates == map[] {
        return NothingToSave;
      }
      working := AssignAll(working, updates, touched);
      EditAssembled(ranks, updates, touched);
      // The commit fails on the unique constraint and is rolled back.
      if Distinct(working) {
        ranks := working;
        outcome := Saved;
      } else {
        outcome := Rejected(NotUniqueMessage);
      }
    }
  }
}
