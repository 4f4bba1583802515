/** The records of the database schema, with the uniqueness and nullability
    the columns declare, the text renderings of users and nominations, the
    order in which a nomination lists its bids, and the lookup of a row by
    its primary key. A nullable column is an Option; times are whole
    minutes. */
module Model {
  import opened Wrappers
  import Sorting

  datatype User = User(
    id: nat,
    username: Option<string>,
    password: Option<string>,
    teamName: string,
    shortTeamName: string,
    tiebreakerOrder: Option<int>,
    slackId: Option<string>,
    discordId: Option<string>,
    isLeagueManager: bool)

  datatype Player = Player(
    id: nat,
    fantraxId: string,
    name: string,
    team: string,
    position: string,
    salary: Option<int>,
    contract: Option<int>,
    managerId: Option<nat>,
    matcherId: Option<nat>,
    hometownDiscount: bool)

  datatype Slot = Slot(
    id: nat,
    round: Option<int>,
    closesAt: int,
    nominationOpensAt: int,
    nominationClosesAt: int)

  datatype Nomination = Nomination(
    id: nat,
    playerId: nat,
    slotId: nat,
    nominatorId: nat,
    createdAt: int)

  datatype Bid = Bid(
    id: nat,
    userId: nat,
    nominationId: nat,
    value: Option<int>,
    createdAt: int)

  datatype Notification = Notification(
    id: nat,
    sent: bool,
    title: Option<string>,
    message: Option<string>,
    sendAt: int,
    createdAt: int)

  datatype AuditLog = AuditLog(
    id: nat,
    userId: Option<nat>,
    action: string,
    entityType: string,
    entityId: Option<nat>,
    description: string,
    oldValues: Option<string>,
    newValues: Option<string>,
    isSensitive: bool,
    ipAddress: Option<string>,
    createdAt: int)

  // ----- Column defaults -----

  /** A player row as inserted with only its required columns given. */
  function NewPlayer(id: nat, fantraxId: string, name: string, team: string, position: string): (p: Player)
    ensures p.id == id && p.fantraxId == fantraxId && p.name == name
    ensures p.team == team && p.position == position
    ensures p.salary == None && p.contract == None
    ensures p.managerId == None && p.matcherId == None
    ensures !p.hometownDiscount
  {
    Player(id, fantraxId, name, team, position, None, None, None, None, false)
  }

  // ----- Uniqueness -----

  /** A unique, non-null column: no two rows share a value. */
  predicate Unique<T, K(==)>(rows: seq<T>, key: T -> K) {
    forall i, j :: 0 <= i < j < |rows| ==> key(rows[i]) != key(rows[j])
  }

  /** A unique, nullable column: NULLs never collide. */
  predicate UniqueWhenSet<T, K(==)>(rows: seq<T>, key: T -> Option<K>) {
    forall i, j :: 0 <= i < j < |rows| && key(rows[i]).Some? && key(rows[j]).Some?
      ==> key(rows[i]) != key(rows[j])
  }

  /** The position of the row whose primary key is id, or None when no row
      has it. */
  function FindBy<T>(rows: seq<T>, key: T -> nat, id: nat): (k: Option<nat>)
    ensures k.Some? ==> k.value < |rows| && key(rows[k.value]) == id
    ensures k.None? ==> forall j :: 0 <= j < |rows| ==> key(rows[j]) != id
    decreases |rows|
  {
    if rows == [] then None
    else if key(rows[0]) == id then Some(0)
    else match FindBy(rows[1..], key, id)
      case None => None
      case Some(j) => Some(j + 1)
  }

  /** The number of rows whose key is k. */
  function Matching<T, K(==)>(rows: seq<T>, key: T -> K, k: K): (n: nat)
    ensures n <= |rows|
    decreases |rows|
  {
    if rows == [] then 0
    else (if key(rows[0]) == k then 1 else 0) + Matching(rows[1..], key, k)
  }

  lemma {:induction false} NoneMatching<T, K>(rows: seq<T>, key: T -> K, k: K)
    requires forall i :: 0 <= i < |rows| ==> key(rows[i]) != k
    ensures Matching(rows, key, k) == 0
    decreases |rows|
  {
    if rows != [] {
      NoneMatching(rows[1..], key, k);
    }
  }

  /** A unique column holds each value at most once. */
  lemma {:induction false} UniqueAtMostOne<T, K>(rows: seq<T>, key: T -> K, k: K)
    requires Unique(rows, key)
    ensures Matching(rows, key, k) <= 1
    decreases |rows|
  {
    if rows != [] {
      UniqueAtMostOne(rows[1..], key, k);
      if key(rows[0]) == k {
        NoneMatching(rows[1..], key, k);
      }
    }
  }

  /** Every unique constraint of the schema, and the non-null foreign keys
      of a bid, which must name an existing user and nomination. */
  ghost predicate Schema(users: seq<User>, players: seq<Player>, slots: seq<Slot>,
                         nominations: seq<Nomination>, bids: seq<Bid>)
  {
    && Unique(users, (u: User) => u.id)
    && UniqueWhenSet(users, (u: User) => u.username)
    && UniqueWhenSet(users, (u: User) => u.tiebreakerOrder)
    && Unique(players, (p: Player) => p.id)
    && Unique(players, (p: Player) => p.fantraxId)
    && Unique(slots, (s: Slot) => s.id)
    && Unique(nominations, (n: Nomination) => n.id)
    && Unique(nominations, (n: Nomination) => n.playerId)
    && Unique(nominations, (n: Nomination) => n.slotId)
    && Unique(bids, (b: Bid) => b.id)
  }

  /** A player is nominated at most once, and a slot holds at most one
      nomination. */
  lemma OneNominationPerPlayerAndSlot(users: seq<User>, players: seq<Player>, slots: seq<Slot>,
                                      nominations: seq<Nomination>, bids: seq<Bid>, player: nat, slot: nat)
    requires Schema(users, players, slots, nominations, bids)
    ensures Matching(nominations, (n: Nomination) => n.playerId, player) <= 1
    ensures Matching(nominations, (n: Nomination) => n.slotId, slot) <= 1
  {
    UniqueAtMostOne(nominations, (n: Nomination) => n.playerId, player);
    UniqueAtMostOne(nominations, (n: Nomination) => n.slotId, slot);
  }

  // ----- Renderings -----

  /** str(user): the username, or the team name when the username is empty
      or NULL. */
  function UserLabel(u: User): (s: string)
    ensures u.username.Some? && u.username.value != "" ==> s == u.username.value
    ensures u.username.None? || u.username.value == "" ==> s == u.teamName
  {
    if u.username.Some? && u.username.value != "" then u.username.value else u.teamName
  }

  /** Two users whose usernames are set and non-empty render differently,
      because usernames are unique. */
  lemma LabelsTellUsersApart(users: seq<User>, i: nat, j: nat)
    requires UniqueWhenSet(users, (u: User) => u.username)
    requires i < j < |users|
    requires users[i].username.Some? && users[i].username.value != ""
    requires users[j].username.Some? && users[j].username.value != ""
    ensures UserLabel(users[i]) != UserLabel(users[j])
  {
    var key := (u: User) => u.username;
    assert key(users[i]) != key(users[j]);
  }

  /** str(nomination): "name (position, team)" of its player. */
  function NominationLabel(p: Player): (s: string)
    ensures |s| == |p.name| + |p.position| + |p.team| + 5
    ensures s[..|p.name|] == p.name && s[|s| - 1] == ')'
  {
    p.name + " (" + p.position + ", " + p.team + ")"
  }

  /** The text of s before its first c. */
  function Before(s: string, c: char): (r: string)
    ensures |r| <= |s|
    decreases |s|
  {
    if s == [] || s[0] == c then [] else [s[0]] + Before(s[1..], c)
  }

  lemma {:induction false} BeforeAppend(a: string, b: string, c: char)
    requires c !in a
    ensures Before(a + b, c) == a + Before(b, c)
    decreases |a|
  {
    if a != [] {
      BeforeAppend(a[1..], b, c);
      assert (a + b)[1..] == a[1..] + b;
    } else {
      assert a + b == b;
    }
  }

  /** The player's name as read back from a nomination's label. */
  function NameInLabel(s: string): string {
    var head := Before(s, '(');
    if |head| > 0 then head[..|head| - 1] else head
  }

  /** The label gives back the player's name when the name has no '('. */
  lemma NameInLabelRoundTrip(p: Player)
    requires '(' !in p.name
    ensures NameInLabel(NominationLabel(p)) == p.name
  {
    var rest := "(" + p.position + ", " + p.team + ")";
    assert NominationLabel(p) == (p.name + " ") + rest;
    assert '(' !in p.name + " ";
    BeforeAppend(p.name + " ", rest, '(');
    assert Before(rest, '(') == [];
  }

  // ----- Bids of a nomination -----

  // The ordering is stated for any bid record, given how to read its
  // value, so that each view's own bid record can use it.

  function Valued<T>(value: T -> Option<int>): T -> bool {
    (b: T) => value(b).Some?
  }

  function Unvalued<T>(value: T -> Option<int>): T -> bool {
    (b: T) => value(b).None?
  }

  function Descending<T>(value: T -> Option<int>): T -> int {
    (b: T) => if value(b).Some? then -value(b).value else 0
  }

  /** nomination.bids: ordered by value, largest first; a NULL value sorts
      after every value, as SQLite orders NULLs in a descending sort; bids
      with equal values keep their insertion order. */
  function OrderedBids<T>(bids: seq<T>, value: T -> Option<int>): (r: seq<T>)
    ensures |r| == |bids|
  {
    Sorting.FilterSplit(bids, Valued(value), Unvalued(value));
    assert |multiset(Sorting.Filter(bids, Valued(value))) + multiset(Sorting.Filter(bids, Unvalued(value)))|
        == |multiset(bids)|;
    Sorting.SortBy(Sorting.Filter(bids, Valued(value)), Descending(value))
      + Sorting.Filter(bids, Unvalued(value))
  }

  /** The ordering lists every bid once, values first and descending, then
      the bids without a value. */
  lemma OrderedBidsFacts<T>(bids: seq<T>, value: T -> Option<int>)
    ensures multiset(OrderedBids(bids, value)) == multiset(bids)
    ensures forall i, j :: 0 <= i < j < |OrderedBids(bids, value)| && value(OrderedBids(bids, value)[j]).Some?
              ==> (value(OrderedBids(bids, value)[i]).Some?
                   && value(OrderedBids(bids, value)[i]).value >= value(OrderedBids(bids, value)[j]).value)
  {
    var valued := Sorting.Filter(bids, Valued(value));
    var sorted := Sorting.SortBy(valued, Descending(value));
    var rest := Sorting.Filter(bids, Unvalued(value));
    Sorting.SortByFacts(valued, Descending(value));
    Sorting.FilterSplit(bids, Valued(value), Unvalued(value));
    FilteredValues(bids, value);
    SortedValuesDescend(valued, sorted, value);
    var r := OrderedBids(bids, value);
    assert r == sorted + rest;
    forall i, j | 0 <= i < j < |r| && value(r[j]).Some?
      ensures value(r[i]).Some? && value(r[i]).value >= value(r[j]).value
    {
      assert j < |sorted|;
    }
  }

  lemma FilteredValues<T>(bids: seq<T>, value: T -> Option<int>)
    ensures forall b :: b in Sorting.Filter(bids, Valued(value)) ==> value(b).Some?
    ensures forall b :: b in Sorting.Filter(bids, Unvalued(value)) ==> value(b).None?
  {
    Sorting.FilterMembers(bids, Valued(value));
    Sorting.FilterMembers(bids, Unvalued(value));
  }

  /** A sort of valued bids by Descending lists values from largest down. */
  lemma SortedValuesDescend<T>(valued: seq<T>, sorted: seq<T>, value: T -> Option<int>)
    requires Sorting.SortedBy(sorted, Descending(value))
    requires multiset(sorted) == multiset(valued)
    requires forall b :: b in valued ==> value(b).Some?
    ensures forall i :: 0 <= i < |sorted| ==> value(sorted[i]).Some?
    ensures forall i, j :: 0 <= i < j < |sorted| ==> value(sorted[i]).value >= value(sorted[j]).value
  {
    forall i | 0 <= i < |sorted| ensures value(sorted[i]).Some? {
      assert sorted[i] in multiset(valued);
    }
    forall i, j | 0 <= i < j < |sorted|
      ensures value(sorted[i]).value >= value(sorted[j]).value
    {
      assert sorted[i] in multiset(valued) && sorted[j] in multiset(valued);
      assert Descending(value)(sorted[i]) <= Descending(value)(sorted[j]);
    }
  }

  /** The first listed bid carries the largest value whenever any bid has
      one. */
  lemma TopBidIsHighest<T>(bids: seq<T>, value: T -> Option<int>, b: T)
    requires b in bids && value(b).Some?
    ensures |OrderedBids(bids, value)| > 0
    ensures value(OrderedBids(bids, value)[0]).Some?
    ensures value(OrderedBids(bids, value)[0]).value >= value(b).value
  {
    OrderedBidsFacts(bids, value);
    var r := OrderedBids(bids, value);
    assert b in multiset(r);
    var k :| 0 <= k < |r| && r[k] == b;
    if k > 0 {
      assert value(r[0]).Some? && value(r[0]).value >= value(r[k]).value;
    }
  }
}
