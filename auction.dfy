/** The auction views: nominating a player, bidding, accepting a match, the
    league manager's update and delete, the listing that sorts nominations
    into open, match and closed lists, and the results CSV.

    The database is a Store holding the users and the nominations. Each
    nomination carries its bids in insertion order, one per user, in the
    order of the users; the order in which a nomination lists its bids
    (largest value first) is Model.OrderedBids. Slot closing times and
    player details are lookups the views only read. Times are whole
    minutes. */
module Auction {
  import opened Wrappers
  import Text
  import Sorting
  import Model

  const MinimumBidValue: int := 10
  /** The days ahead of now within which a user may nominate, as (from, to). */
  const NominationDayRange: (int, int) := (1, 5)

  const PlayerRequired := "Player is required."
  const SlotRequired := "Ends at date time is required."
  const BidRequired := "Bid value is required."
  const BidNotInteger := "Bid value must be an integer."
  const MinimumBidMessage := "Minimum bid value is $" + Text.IntToString(MinimumBidValue) + "."
  const AuctionClosed := "Auction has closed."
  const NominatorReset := "The nominator cannot reset their bid."

  /** A user as the auction and auth views see it. */
  datatype Account = Account(
    id: nat,
    username: Option<string>,
    passwordHash: Option<string>,
    team: Option<string>,
    slackId: Option<string>,
    isLeagueManager: bool)

  datatype Bid = Bid(userId: nat, value: Option<int>)

  datatype Nomination = Nomination(
    id: nat,
    playerId: nat,
    slotId: nat,
    nominatorId: nat,
    matcherId: Option<nat>,
    winnerId: Option<nat>,
    bids: seq<Bid>)

  /** A player as the auction views read it: the columns of the results,
      and the manager the won notification names. */
  datatype PlayerInfo = PlayerInfo(
    fantraxId: string,
    name: string,
    position: string,
    team: string,
    managerId: Option<nat>)

  /** A notification row a view adds: a nomination announced with its
      nominator and its slot's round, or an auction won, naming the
      player's manager and the first bid the nomination lists. */
  datatype Notice =
    | PlayerNominated(nominationId: nat, nominatorId: nat, slotId: nat)
    | AuctionWon(nominationId: nat, managerId: nat, topBid: Option<int>)

  /** What a request ends in: a redirect after a change, a flashed message
      with nothing changed, an abort with an HTTP status, an uncaught
      exception (each view's contract says what it committed first), or a
      declined match. */
  datatype Outcome = Redirected | Flashed(message: string) | Aborted(code: nat) | Crashed | Declined

  /** The nominate form. An empty select is None. */
  datatype NominationForm = NominationForm(
    playerId: Option<nat>,
    slotId: Option<nat>,
    matcherId: Option<nat>,
    bidValue: string)

  /** The verdict of a view's checks: go ahead with a value, or stop. */
  datatype Check<T> = Pass(value: T) | Stop(outcome: Outcome)

  function BidValue(b: Bid): Option<int> {
    b.value
  }

  function PlayerOf(n: Nomination): nat {
    n.playerId
  }

  function SlotOf(n: Nomination): nat {
    n.slotId
  }

  function IdOf(n: Nomination): nat {
    n.id
  }

  function AccountId(u: Account): nat {
    u.id
  }

  // ----- The invariant of the store -----

  /** One bid per user, listed in the order of the users. */
  predicate Aligned(bids: seq<Bid>, users: seq<Account>) {
    |bids| == |users| && forall i :: 0 <= i < |bids| ==> bids[i].userId == users[i].id
  }

  predicate DistinctIds(users: seq<Account>) {
    forall i, j :: 0 <= i < j < |users| ==> users[i].id != users[j].id
  }

  /** The unique columns of the nomination table: id, player and slot. */
  predicate UniqueNominations(ns: seq<Nomination>) {
    Model.Unique(ns, IdOf) && Model.Unique(ns, PlayerOf) && Model.Unique(ns, SlotOf)
  }

  predicate AllAligned(ns: seq<Nomination>, users: seq<Account>) {
    forall k :: 0 <= k < |ns| ==> Aligned(ns[k].bids, users)
  }

  // ----- Lookups -----

  /** The position of the nomination with the given id. */
  function FindNomination(ns: seq<Nomination>, id: nat): Option<nat> {
    Model.FindBy(ns, IdOf, id)
  }

  /** The position of the user with the given id. */
  function FindUser(users: seq<Account>, id: nat): Option<nat> {
    Model.FindBy(users, AccountId, id)
  }

  /** The id a new row receives: one more than the largest id in use. */
  function NextId(ns: seq<Nomination>): (id: nat)
    ensures id > 0 && forall k :: 0 <= k < |ns| ==> ns[k].id < id
    decreases |ns|
  {
    if ns == [] then 1
    else
      var rest := NextId(ns[1..]);
      assert forall k :: 1 <= k < |ns| ==> ns[k].id == ns[1..][k - 1].id;
      if ns[0].id >= rest then ns[0].id + 1 else rest
  }

  // ----- Nominate -----

  /** The checks of the nominate view. The first missing field names the
      error, but a bid below the minimum overrides it, and a bid that is
      not an integer (the empty bid among them) raises a ValueError on the
      second int() call before any error is shown. */
  function NominationCheck(form: NominationForm): (r: Check<int>)
    ensures r == Stop(Crashed) <==> Text.ParseInt(form.bidValue).None?
    ensures r.Pass? <==> form.playerId.Some? && form.slotId.Some?
                         && Text.ParseInt(form.bidValue).Some?
                         && Text.ParseInt(form.bidValue).value >= MinimumBidValue
    ensures r.Pass? ==> Text.ParseInt(form.bidValue) == Some(r.value)
    ensures Text.ParseInt(form.bidValue).Some? && Text.ParseInt(form.bidValue).value < MinimumBidValue
            ==> r == Stop(Flashed(MinimumBidMessage))
    ensures Text.ParseInt(form.bidValue).Some? && Text.ParseInt(form.bidValue).value >= MinimumBidValue
            ==> (form.playerId.None? ==> r == Stop(Flashed(PlayerRequired)))
                && (form.playerId.Some? && form.slotId.None? ==> r == Stop(Flashed(SlotRequired)))
    ensures r != Stop(Flashed(BidRequired)) && r != Stop(Flashed(BidNotInteger))
  {
    var required :=
      if form.playerId.None? then Some(PlayerRequired)
      else if form.slotId.None? then Some(SlotRequired)
      else if form.bidValue == "" then Some(BidRequired)
      else None;
    var parsed := Text.ParseInt(form.bidValue);
    if parsed.None? then Stop(Crashed)
    else if parsed.value < MinimumBidValue then Stop(Flashed(MinimumBidMessage))
    else if required.Some? then Stop(Flashed(required.value))
    else Pass(parsed.value)
  }

  /** The bids a new nomination starts with: the nominator's is the bid
      value, every other user's is None. */
  function Seeded(users: seq<Account>, nominator: nat, value: int): seq<Bid> {
    seq(|users|, i requires 0 <= i < |users| =>
      Bid(users[i].id, if users[i].id == nominator then Some(value) else None))
  }

  /** The loop that appends a bid for every user to a new nomination. */
  method SeedBids(users: seq<Account>, nominator: nat, value: int) returns (bids: seq<Bid>)
    ensures bids == Seeded(users, nominator, value)
  {
    bids := [];
    var i := 0;
    while i < |users|
      invariant 0 <= i <= |users|
      invariant bids == Seeded(users[..i], nominator, value)
    {
      var user := users[i];
      var userBidValue := if user.id == nominator then Some(value) else None;
      bids := bids + [Bid(user.id, userBidValue)];
      i := i + 1;
    }
    assert users[..i] == users;
  }

  /** A new nomination has exactly one bid per user, and the only bid with
      a value is the nominator's. */
  lemma SeededFacts(users: seq<Account>, nominator: nat, value: int)
    ensures Aligned(Seeded(users, nominator, value), users)
    ensures forall i :: 0 <= i < |users| ==>
      (Seeded(users, nominator, value)[i].value.Some? <==> users[i].id == nominator)
    ensures forall i :: 0 <= i < |users| && users[i].id == nominator ==>
      Seeded(users, nominator, value)[i].value == Some(value)
  {
  }

  /** The new nomination's player or slot is already in use, so the commit
      fails on a unique constraint. */
  predicate Taken(ns: seq<Nomination>, playerId: nat, slotId: nat) {
    exists k :: 0 <= k < |ns| && (ns[k].playerId == playerId || ns[k].slotId == slotId)
  }

  // ----- Bid -----

  /** The checks of the bid view once the nomination and its slot are
      found. An empty field is None. The nominator may not clear their
      bid; a value must be an integer (else a ValueError escapes) of at
      least the minimum. */
  function BidCheck(nominatorId: nat, endsAt: int, actor: nat, value: string, now: int)
    : (r: Check<Option<int>>)
    ensures r == Stop(Flashed(AuctionClosed)) <==> now > endsAt
    ensures now <= endsAt && value == "" ==>
      r == (if actor == nominatorId then Stop(Flashed(NominatorReset)) else Pass(None))
    ensures now <= endsAt && value != "" && Text.ParseInt(value).None? ==> r == Stop(Crashed)
    ensures now <= endsAt && Text.ParseInt(value).Some? ==>
      r == (if Text.ParseInt(value).value < MinimumBidValue then Stop(Flashed(MinimumBidMessage))
            else Pass(Text.ParseInt(value)))
    ensures r.Pass? && r.value.Some? ==> r.value.value >= MinimumBidValue
  {
    if now > endsAt then Stop(Flashed(AuctionClosed))
    else
      var given := if value == "" then None else Some(value);
      var error := if given.None? && actor == nominatorId then Some(NominatorReset) else None;
      if given.None? then
        (if error.Some? then Stop(Flashed(error.value)) else Pass(None))
      else
        var parsed := Text.ParseInt(value);
        if parsed.None? then Stop(Crashed)
        else if parsed.value < MinimumBidValue then Stop(Flashed(MinimumBidMessage))
        else Pass(Some(parsed.value))
  }

  /** Nomination k with the bid at position i set to v. */
  function WithBid(ns: seq<Nomination>, k: nat, i: nat, v: Option<int>): (r: seq<Nomination>)
    requires k < |ns| && i < |ns[k].bids|
    ensures |r| == |ns| && |r[k].bids| == |ns[k].bids|
    ensures r[k].bids[i] == Bid(ns[k].bids[i].userId, v)
    ensures forall j :: 0 <= j < |ns| && j != k ==> r[j] == ns[j]
    ensures r[k] == ns[k].(bids := r[k].bids)
    ensures forall m :: 0 <= m < |ns[k].bids| && m != i ==> r[k].bids[m] == ns[k].bids[m]
  {
    ns[k := ns[k].(bids := ns[k].bids[i := ns[k].bids[i].(value := v)])]
  }

  /** Setting one bid keeps one bid per user in user order, and leaves the
      unique columns alone. */
  lemma WithBidKeepsInvariant(ns: seq<Nomination>, users: seq<Account>, k: nat, i: nat, v: Option<int>)
    requires k < |ns| && i < |ns[k].bids|
    requires UniqueNominations(ns) && AllAligned(ns, users)
    ensures UniqueNominations(WithBid(ns, k, i, v)) && AllAligned(WithBid(ns, k, i, v), users)
  {
    var r := WithBid(ns, k, i, v);
    assert forall j :: 0 <= j < |ns| ==> r[j].id == ns[j].id && r[j].playerId == ns[j].playerId && r[j].slotId == ns[j].slotId;
    assert forall j :: 0 <= j < |ns| ==> IdOf(r[j]) == IdOf(ns[j]) && PlayerOf(r[j]) == PlayerOf(ns[j]) && SlotOf(r[j]) == SlotOf(ns[j]);
  }

  // ----- Match -----

  /** The value of the first bid as the nomination lists them. */
  function TopValue(bids: seq<Bid>): Option<int>
    requires |bids| > 0
  {
    Model.OrderedBids(bids, BidValue)[0].value
  }

  /** The won notification can name the player's manager: the player has
      one, and that user exists. */
  predicate ManagerKnown(playerId: nat, players: map<nat, PlayerInfo>, users: seq<Account>) {
    playerId in players && players[playerId].managerId.Some?
    && FindUser(users, players[playerId].managerId.value).Some?
  }

  /** Nomination k after user position i accepts the match: that user's
      bid takes the top value and the user becomes the winner. */
  function Accepted(ns: seq<Nomination>, k: nat, i: nat, actor: nat): (r: seq<Nomination>)
    requires k < |ns| && i < |ns[k].bids|
  {
    var n := ns[k];
    ns[k := n.(winnerId := Some(actor), bids := n.bids[i := n.bids[i].(value := TopValue(n.bids))])]
  }

  /** Accepting a match makes the nominator the winner at the highest bid:
      their bid is at least every bid of the nomination that has a value,
      and no other nomination changes. */
  lemma MatchTakesTopBid(ns: seq<Nomination>, k: nat, i: nat, actor: nat)
    requires k < |ns| && i < |ns[k].bids|
    ensures var r := Accepted(ns, k, i, actor);
      && |r| == |ns|
      && r[k].winnerId == Some(actor)
      && r[k].bids[i].userId == ns[k].bids[i].userId
      && (forall b :: b in ns[k].bids && b.value.Some? ==>
            r[k].bids[i].value.Some? && r[k].bids[i].value.value >= b.value.value)
      && (forall j :: 0 <= j < |ns| && j != k ==> r[j] == ns[j])
  {
    var r := Accepted(ns, k, i, actor);
    forall b | b in ns[k].bids && b.value.Some?
      ensures r[k].bids[i].value.Some? && r[k].bids[i].value.value >= b.value.value
    {
      Model.TopBidIsHighest(ns[k].bids, BidValue, b);
    }
  }

  /** Any change that keeps the id, player, slot and user order of every
      nomination keeps the store's invariant. */
  lemma SameKeysKeepInvariant(ns: seq<Nomination>, r: seq<Nomination>, users: seq<Account>)
    requires UniqueNominations(ns) && AllAligned(ns, users)
    requires |r| == |ns|
    requires forall j :: 0 <= j < |ns| ==>
      r[j].id == ns[j].id && r[j].playerId == ns[j].playerId && r[j].slotId == ns[j].slotId
    requires forall j :: 0 <= j < |ns| ==> Aligned(r[j].bids, users)
    ensures UniqueNominations(r) && AllAligned(r, users)
  {
    assert forall j :: 0 <= j < |ns| ==>
      IdOf(r[j]) == IdOf(ns[j]) && PlayerOf(r[j]) == PlayerOf(ns[j]) && SlotOf(r[j]) == SlotOf(ns[j]);
  }

  // ----- Update -----

  /** Another nomination than k already uses slot s. */
  predicate SlotInUse(ns: seq<Nomination>, k: nat, s: nat) {
    exists j :: 0 <= j < |ns| && j != k && ns[j].slotId == s
  }

  // ----- Index -----

  /** A row of the listing: the nomination, joined with the viewer's own
      bid when someone is logged in. */
  datatype Row = Row(nomination: Nomination, bid: Option<Bid>)

  datatype Listing = OpenList | MatchList | ClosedList

  /** The rows of one nomination joined with the bids of user u. */
  function JoinBids(n: Nomination, bids: seq<Bid>, u: nat): seq<Row>
    decreases |bids|
  {
    if bids == [] then []
    else (if bids[0].userId == u then [Row(n, Some(bids[0]))] else []) + JoinBids(n, bids[1..], u)
  }

  /** The query of the listing: every nomination, or, for a logged-in
      viewer, every nomination joined with the viewer's bids. */
  function Rows(ns: seq<Nomination>, viewer: Option<nat>): seq<Row>
    decreases |ns|
  {
    if ns == [] then []
    else (if viewer.None? then [Row(ns[0], None)] else JoinBids(ns[0], ns[0].bids, viewer.value))
         + Rows(ns[1..], viewer)
  }

  lemma {:induction false} JoinOne(n: Nomination, bids: seq<Bid>, users: seq<Account>, i: nat)
    requires Aligned(bids, users) && DistinctIds(users) && i < |users|
    ensures JoinBids(n, bids, users[i].id) == [Row(n, Some(bids[i]))]
    decreases |bids|
  {
    if i == 0 {
      NoJoin(n, bids[1..], users[1..], users[0].id);
    } else {
      JoinOne(n, bids[1..], users[1..], i - 1);
    }
  }

  lemma {:induction false} NoJoin(n: Nomination, bids: seq<Bid>, users: seq<Account>, u: nat)
    requires Aligned(bids, users)
    requires forall j :: 0 <= j < |users| ==> users[j].id != u
    ensures JoinBids(n, bids, u) == []
    decreases |bids|
  {
    if bids != [] {
      NoJoin(n, bids[1..], users[1..], u);
    }
  }

  /** For a registered viewer the listing has exactly one row per
      nomination, carrying the viewer's own bid. */
  lemma {:induction false} OneRowPerNomination(ns: seq<Nomination>, users: seq<Account>, i: nat)
    requires AllAligned(ns, users) && DistinctIds(users) && i < |users|
    ensures |Rows(ns, Some(users[i].id))| == |ns|
    ensures forall k :: 0 <= k < |ns| ==>
      Rows(ns, Some(users[i].id))[k] == Row(ns[k], Some(ns[k].bids[i]))
    decreases |ns|
  {
    if ns != [] {
      JoinOne(ns[0], ns[0].bids, users, i);
      OneRowPerNomination(ns[1..], users, i);
    }
  }

  /** Which list a row goes to. An ended auction (its slot closed before
      now) with a winner is closed; one with a matcher and no winner is
      waiting for the match; everything else is open. A zero id counts as
      no id, as Python's truth test does. */
  function ListOf(n: Nomination, endsAt: int, now: int): Listing {
    if endsAt < now then
      if n.winnerId.Some? && n.winnerId.value != 0 then ClosedList
      else if n.matcherId.Some? && n.matcherId.value != 0 then MatchList
      else OpenList
    else OpenList
  }

  function InList(l: Listing, now: int, slotEnds: map<nat, int>): Row -> bool {
    (r: Row) => r.nomination.slotId in slotEnds && ListOf(r.nomination, slotEnds[r.nomination.slotId], now) == l
  }

  /** The sort key of the lists: the slot's closing time, latest first. */
  function LatestFirst(slotEnds: map<nat, int>): Row -> int {
    (r: Row) => if r.nomination.slotId in slotEnds then -slotEnds[r.nomination.slotId] else 0
  }

  function Listed(rows: seq<Row>, l: Listing, now: int, slotEnds: map<nat, int>): seq<Row> {
    Sorting.SortBy(Sorting.Filter(rows, InList(l, now, slotEnds)), LatestFirst(slotEnds))
  }

  lemma ListsSplit(rows: seq<Row>, now: int, slotEnds: map<nat, int>)
    requires forall r :: r in rows ==> r.nomination.slotId in slotEnds
    ensures multiset(Sorting.Filter(rows, InList(OpenList, now, slotEnds)))
          + multiset(Sorting.Filter(rows, InList(MatchList, now, slotEnds)))
          + multiset(Sorting.Filter(rows, InList(ClosedList, now, slotEnds)))
          == multiset(rows)
  {
    var o, m, c := InList(OpenList, now, slotEnds), InList(MatchList, now, slotEnds), InList(ClosedList, now, slotEnds);
    var notOpen := (r: Row) => !o(r);
    var notMatch := (r: Row) => !m(r);
    var neither := (r: Row) => !o(r) && !m(r);
    // the rows are split into open and the rest, and the rest into match and closed
    Sorting.FilterSplit(rows, o, notOpen);
    Sorting.FilterSplit(Sorting.Filter(rows, notOpen), m, notMatch);
    Sorting.FilterFilter(rows, notOpen, m, m);
    Sorting.FilterFilter(rows, notOpen, notMatch, neither);
    forall k | 0 <= k < |rows|
      ensures neither(rows[k]) == c(rows[k])
    {
      assert rows[k] in rows;
    }
    Sorting.FilterAgree(rows, neither, c);
  }

  /** Every row lands in exactly one of the three lists, each list holds
      exactly the rows of its kind, and each is ordered by closing time,
      latest first, rows closing together keeping their query order. */
  lemma ListingFacts(rows: seq<Row>, now: int, slotEnds: map<nat, int>)
    requires forall r :: r in rows ==> r.nomination.slotId in slotEnds
    ensures multiset(Listed(rows, OpenList, now, slotEnds))
          + multiset(Listed(rows, MatchList, now, slotEnds))
          + multiset(Listed(rows, ClosedList, now, slotEnds))
          == multiset(rows)
    ensures forall l :: ListedFacts(rows, l, now, slotEnds)
  {
    ListsSplit(rows, now, slotEnds);
    ListedOne(rows, OpenList, now, slotEnds);
    ListedOne(rows, MatchList, now, slotEnds);
    ListedOne(rows, ClosedList, now, slotEnds);
    forall l: Listing ensures ListedFacts(rows, l, now, slotEnds) {
      ListedOne(rows, l, now, slotEnds);
    }
  }

  /** One list holds exactly the rows of its kind, ordered by closing
      time, latest first, rows closing together keeping their query
      order. */
  ghost predicate ListedFacts(rows: seq<Row>, l: Listing, now: int, slotEnds: map<nat, int>)
    requires forall r :: r in rows ==> r.nomination.slotId in slotEnds
  {
    var out := Listed(rows, l, now, slotEnds);
    && multiset(out) == multiset(Sorting.Filter(rows, InList(l, now, slotEnds)))
    && (forall r :: r in out <==> r in rows && ListOf(r.nomination, slotEnds[r.nomination.slotId], now) == l)
    && (forall i, j :: 0 <= i < j < |out| ==>
          slotEnds[out[i].nomination.slotId] >= slotEnds[out[j].nomination.slotId])
    && (forall k :: Sorting.WithKey(out, LatestFirst(slotEnds), k)
          == Sorting.WithKey(Sorting.Filter(rows, InList(l, now, slotEnds)), LatestFirst(slotEnds), k))
  }

  lemma ListedOne(rows: seq<Row>, l: Listing, now: int, slotEnds: map<nat, int>)
    requires forall r :: r in rows ==> r.nomination.slotId in slotEnds
    ensures ListedFacts(rows, l, now, slotEnds)
  {
    var kept := Sorting.Filter(rows, InList(l, now, slotEnds));
    var out := Listed(rows, l, now, slotEnds);
    Sorting.FilterMembers(rows, InList(l, now, slotEnds));
    Sorting.SortByFacts(kept, LatestFirst(slotEnds));
    forall r ensures r in out <==> r in kept {
      assert r in out <==> r in multiset(out);
    }
    forall i, j | 0 <= i < j < |out|
      ensures slotEnds[out[i].nomination.slotId] >= slotEnds[out[j].nomination.slotId]
    {
      assert out[i] in kept && out[j] in kept;
      assert LatestFirst(slotEnds)(out[i]) <= LatestFirst(slotEnds)(out[j]);
    }
  }

  // ----- Results -----

  const ResultsHeader: seq<string> := ["Fantrax ID", "Player", "Position", "Team", "Winner", "Bids"]

  /** str() of a bid value: the integer, or "None". */
  function BidText(v: Option<int>): (s: string)
    ensures s != "" && Text.Free(s, ';') && Text.Free(s, ',')
  {
    match v
    case None => "None"
    case Some(x) => Text.IntToString(x)
  }

  function BidTexts(bids: seq<Bid>): (r: seq<string>)
    ensures |r| == |bids|
    ensures forall i :: 0 <= i < |bids| ==> r[i] == BidText(bids[i].value)
    decreases |bids|
  {
    if bids == [] then [] else [BidText(bids[0].value)] + BidTexts(bids[1..])
  }

  /** The Bids column: every bid of the nomination in its listing order,
      joined by ';'. */
  function BidsColumn(bids: seq<Bid>): string {
    Text.Join(BidTexts(Model.OrderedBids(bids, BidValue)), ";")
  }

  /** The row of a won nomination cannot be built: its player or its
      winner is missing, and reading a column of None raises before the
      download starts. */
  predicate Unreadable(n: Nomination, players: map<nat, PlayerInfo>, users: seq<Account>) {
    n.winnerId.Some? && (n.playerId !in players || FindUser(users, n.winnerId.value).None?)
  }

  /** The columns of one result, or None where the view raises: the player
      or the winner is missing, or the winner has no username to join. */
  function ResultFields(n: Nomination, players: map<nat, PlayerInfo>, users: seq<Account>)
    : (r: Option<seq<string>>)
    requires n.winnerId.Some?
    ensures r.Some? ==> |r.value| == |ResultsHeader|
    ensures r.None? <==> Unreadable(n, players, users) || users[FindUser(users, n.winnerId.value).value].username.None?
  {
    var w := FindUser(users, n.winnerId.value);
    if n.playerId !in players || w.None? || users[w.value].username.None? then None
    else
      var p := players[n.playerId];
      Some([p.fantraxId, p.name, p.position, p.team, users[w.value].username.value, BidsColumn(n.bids)])
  }

  /** The row of a won nomination cannot be joined into a line. */
  predicate Unwritable(n: Nomination, players: map<nat, PlayerInfo>, users: seq<Account>) {
    n.winnerId.Some? && ResultFields(n, players, users).None?
  }

  function CsvLine(fields: seq<string>): string {
    Text.Join(fields, ",") + "\n"
  }

  /** A download as it is sent: the lines, and whether it ran to its end. */
  datatype Stream = Stream(lines: seq<string>, complete: bool)

  /** The lines the generator sends after the header: one per nomination
      that has a winner, in query order, until a row whose winner has no
      username, where joining the row raises and the download stops. */
  function Streamed(ns: seq<Nomination>, players: map<nat, PlayerInfo>, users: seq<Account>): Stream
    decreases |ns|
  {
    if ns == [] then Stream([], true)
    else if ns[0].winnerId.None? then Streamed(ns[1..], players, users)
    else match ResultFields(ns[0], players, users)
      case None => Stream([], false)
      case Some(fields) =>
        var rest := Streamed(ns[1..], players, users);
        Stream([CsvLine(fields)] + rest.lines, rest.complete)
  }

  /** The results view: None when building the rows raises, before
      anything is sent; otherwise the header line, then the streamed
      lines. */
  function Results(ns: seq<Nomination>, players: map<nat, PlayerInfo>, users: seq<Account>): Option<Stream> {
    if exists k :: 0 <= k < |ns| && Unreadable(ns[k], players, users) then None
    else
      var s := Streamed(ns, players, users);
      Some(Stream([CsvLine(ResultsHeader)] + s.lines, s.complete))
  }

  predicate HasWinner(n: Nomination) {
    n.winnerId.Some?
  }

  /** The stream runs to its end exactly when every won nomination's row
      can be joined, and then has one line per won nomination. */
  lemma {:induction false} ResultsShape(ns: seq<Nomination>, players: map<nat, PlayerInfo>, users: seq<Account>)
    ensures Streamed(ns, players, users).complete <==>
      forall k :: 0 <= k < |ns| ==> !Unwritable(ns[k], players, users)
    ensures Streamed(ns, players, users).complete ==>
      |Streamed(ns, players, users).lines| == |Sorting.Filter(ns, HasWinner)|
    decreases |ns|
  {
    if ns != [] {
      ResultsShape(ns[1..], players, users);
      assert forall k :: 1 <= k < |ns| ==> ns[k] == ns[1..][k - 1];
    }
  }

  /** f is the first nomination whose row cannot be joined. */
  predicate FirstUnwritable(ns: seq<Nomination>, players: map<nat, PlayerInfo>, users: seq<Account>, f: nat) {
    f < |ns| && Unwritable(ns[f], players, users)
    && forall k :: 0 <= k < f ==> !Unwritable(ns[k], players, users)
  }

  /** A download that stops at nomination f has sent the lines of every
      won nomination before f, and nothing after. */
  lemma {:induction false} StreamStopsAt(ns: seq<Nomination>, players: map<nat, PlayerInfo>, users: seq<Account>, f: nat)
    requires FirstUnwritable(ns, players, users, f)
    ensures Streamed(ns, players, users) == Stream(Streamed(ns[..f], players, users).lines, false)
    ensures Streamed(ns[..f], players, users).complete
    ensures |Streamed(ns[..f], players, users).lines| == |Sorting.Filter(ns[..f], HasWinner)|
    decreases f
  {
    ResultsShape(ns[..f], players, users);
    if f > 0 {
      StreamStopsAt(ns[1..], players, users, f - 1);
      assert ns[..f][1..] == ns[1..][..f - 1];
      assert !Unwritable(ns[0], players, users);
    }
  }

  /** Every first failing row gives the same truncated download. */
  lemma StreamsStop(ns: seq<Nomination>, players: map<nat, PlayerInfo>, users: seq<Account>)
    ensures forall f: nat :: FirstUnwritable(ns, players, users, f) ==>
      Streamed(ns, players, users) == Stream(Streamed(ns[..f], players, users).lines, false)
  {
    forall f: nat | FirstUnwritable(ns, players, users, f)
      ensures Streamed(ns, players, users) == Stream(Streamed(ns[..f], players, users).lines, false)
    {
      StreamStopsAt(ns, players, users, f);
    }
  }

  /** A result line reads back into its six columns when no column holds a
      comma, and its Bids column reads back into the rendered bids. */
  lemma ResultLineRoundTrip(fields: seq<string>, bids: seq<Bid>)
    requires |fields| == 6 && fields[5] == BidsColumn(bids)
    requires forall k :: 0 <= k < 6 ==> Text.Free(fields[k], ',')
    requires |bids| > 0
    ensures var line := CsvLine(fields);
      Text.Split(line[..|line| - 1], ',') == fields
    ensures Text.Split(fields[5], ';') == BidTexts(Model.OrderedBids(bids, BidValue))
  {
    var line := CsvLine(fields);
    assert line[..|line| - 1] == Text.Join(fields, ",");
    Text.JoinSplit(fields, ',');
    var texts := BidTexts(Model.OrderedBids(bids, BidValue));
    Text.JoinSplit(texts, ';');
  }

  // ----- The store and the views that change it -----

  class Store {
    /** The user table, in id order. */
    var users: seq<Account>
    /** The nomination table, each with its bids. */
    var nominations: seq<Nomination>
    /** The player table as the results view reads it. */
    const players: map<nat, PlayerInfo>
    /** The closing time of every slot, as the views read slot.ends_at. */
    const slotEnds: map<nat, int>
    /** The notification rows the views have added. */
    var notices: seq<Notice>

    ghost predicate Valid()
      reads this
    {
      DistinctIds(users) && UniqueNominations(nominations) && AllAligned(nominations, users)
    }

    constructor (users: seq<Account>, players: map<nat, PlayerInfo>, slotEnds: map<nat, int>)
      requires DistinctIds(users)
      ensures Valid()
      ensures this.users == users && nominations == [] && notices == []
      ensures this.players == players && this.slotEnds == slotEnds
    {
      this.users := users;
      this.nominations := [];
      this.notices := [];
      this.players := players;
      this.slotEnds := slotEnds;
    }

    /** The POST of the nominate view by the logged-in user actor. On
        success the nomination is added with no winner and one bid per
        user, the actor's holding the bid value, and it is announced; a
        player or slot already nominated fails the commit. Logging the new
        nomination reads its player and the announcement reads its slot's
        round: when either is missing the view raises after the commit,
        before anything is announced. */
    method Nominate(actor: Account, form: NominationForm) returns (outcome: Outcome)
      requires Valid() && actor in users
      modifies this
      ensures Valid() && users == old(users)
      ensures NominationCheck(form).Stop? ==>
        outcome == NominationCheck(form).outcome && nominations == old(nominations) && notices == old(notices)
      ensures NominationCheck(form).Pass? && Taken(old(nominations), form.playerId.value, form.slotId.value) ==>
        outcome == Crashed && nominations == old(nominations) && notices == old(notices)
      ensures NominationCheck(form).Pass? && !Taken(old(nominations), form.playerId.value, form.slotId.value) ==>
        var id := NextId(old(nominations));
        && nominations == old(nominations) + [Nomination(id, form.playerId.value, form.slotId.value,
             actor.id, form.matcherId, None, Seeded(users, actor.id, NominationCheck(form).value))]
        && (if form.playerId.value in players && form.slotId.value in slotEnds then
              outcome == Redirected && notices == old(notices) + [PlayerNominated(id, actor.id, form.slotId.value)]
            else
              outcome == Crashed && notices == old(notices))
    {
      var check := NominationCheck(form);
      if check.Stop? {
        return check.outcome;
      }
      var playerId, slotId := form.playerId.value, form.slotId.value;
      if exists k :: 0 <= k < |nominations| && (nominations[k].playerId == playerId || nominations[k].slotId == slotId) {
        // IntegrityError on the unique player_id or slot_id
        return Crashed;
      }
      var bids := SeedBids(users, actor.id, check.value);
      SeededFacts(users, actor.id, check.value);
      var n := Nomination(NextId(nominations), playerId, slotId, actor.id, form.matcherId, None, bids);
      AddKeepsInvariant(nominations, users, n);
      nominations := nominations + [n];
      if playerId !in players || slotId !in slotEnds {
        // str(nomination) or nomination.slot.round on None, after the commit
        return Crashed;
      }
      notices := notices + [PlayerNominated(n.id, actor.id, slotId)];
      outcome := Redirected;
    }

    /** The POST of the bid view by the logged-in user actor, with the
        submitted text value. */
    method PlaceBid(actor: Account, id: nat, value: string, now: int) returns (outcome: Outcome)
      requires Valid() && actor in users
      modifies this
      ensures Valid() && users == old(users) && notices == old(notices)
      ensures FindNomination(old(nominations), id).None? ==>
        outcome == Aborted(404) && nominations == old(nominations)
      ensures FindNomination(old(nominations), id).Some? ==>
        var k := FindNomination(old(nominations), id).value;
        var n := old(nominations)[k];
        if n.slotId !in slotEnds then outcome == Crashed && nominations == old(nominations)
        else match BidCheck(n.nominatorId, slotEnds[n.slotId], actor.id, value, now)
          case Stop(o) => outcome == o && nominations == old(nominations)
          case Pass(v) =>
            outcome == Redirected && FindUser(users, actor.id).Some?
            && nominations == WithBid(old(nominations), k, FindUser(users, actor.id).value, v)
    {
      var found := FindNomination(nominations, id);
      if found.None? {
        return Aborted(404);
      }
      var k := found.value;
      var n := nominations[k];
      var i := FindUser(users, actor.id);
      assert users[i.value] == actor by {
        var j :| 0 <= j < |users| && users[j] == actor;
        assert i.value == j;
      }
      if n.slotId !in slotEnds {
        // nomination.slot is None
        return Crashed;
      }
      var check := BidCheck(n.nominatorId, slotEnds[n.slotId], actor.id, value, now);
      if check.Stop? {
        return check.outcome;
      }
      assert Aligned(n.bids, users);
      WithBidKeepsInvariant(nominations, users, k, i.value, check.value);
      nominations := WithBid(nominations, k, i.value, check.value);
      outcome := Redirected;
    }

    /** The POST of the match view by the logged-in user actor. Only the
        nominator may answer; accepting sets their bid to the top bid and
        makes them the winner, then the won auction is announced, naming
        the player's manager and the first bid the nomination lists.
        Logging reads the player and the announcement reads its manager:
        when either is missing the view raises after the commit. Declining
        is handed to the closing code, which is not part of this model. */
    method Match(actor: Account, id: nat, accept: bool) returns (outcome: Outcome)
      requires Valid() && actor in users
      modifies this
      ensures Valid() && users == old(users)
      ensures FindNomination(old(nominations), id).None? ==>
        outcome == Crashed && nominations == old(nominations) && notices == old(notices)
      ensures FindNomination(old(nominations), id).Some? ==>
        var k := FindNomination(old(nominations), id).value;
        var n := old(nominations)[k];
        if n.nominatorId != actor.id then
          outcome == Aborted(403) && nominations == old(nominations) && notices == old(notices)
        else if !accept then
          outcome == Declined && nominations == old(nominations) && notices == old(notices)
        else
          && FindUser(users, actor.id).Some?
          && FindUser(users, actor.id).value < |n.bids|
          && nominations == Accepted(old(nominations), k, FindUser(users, actor.id).value, actor.id)
          && (if ManagerKnown(n.playerId, players, users) then
                outcome == Redirected
                && notices == old(notices) + [AuctionWon(n.id, players[n.playerId].managerId.value, TopValue(nominations[k].bids))]
              else
                outcome == Crashed && notices == old(notices))
    {
      var found := FindNomination(nominations, id);
      if found.None? {
        // nomination.nominator_id on None
        return Crashed;
      }
      var k := found.value;
      if nominations[k].nominatorId != actor.id {
        return Aborted(403);
      }
      if !accept {
        return Declined;
      }
      var i := FindUser(users, actor.id);
      assert i.Some? by {
        var j :| 0 <= j < |users| && users[j] == actor;
      }
      assert Aligned(nominations[k].bids, users);
      var r := Accepted(nominations, k, i.value, actor.id);
      SameKeysKeepInvariant(nominations, r, users);
      nominations := r;
      var playerId := nominations[k].playerId;
      if !ManagerKnown(playerId, players, users) {
        // str(nomination) or nomination.player.manager_user.slack_id on None, after the commit
        return Crashed;
      }
      notices := notices + [AuctionWon(nominations[k].id, players[playerId].managerId.value, TopValue(nominations[k].bids))];
      outcome := Redirected;
    }

    /** The POST of the update view: a league manager sets the slot, the
        matcher and the winner of a nomination. */
    method Update(actor: Account, id: nat, slotId: Option<nat>, matcherId: Option<nat>, winnerId: Option<nat>)
      returns (outcome: Outcome)
      requires Valid()
      modifies this
      ensures Valid() && users == old(users) && notices == old(notices)
      ensures !actor.isLeagueManager ==> outcome == Aborted(403) && nominations == old(nominations)
      ensures actor.isLeagueManager && FindNomination(old(nominations), id).None? ==>
        outcome == Aborted(404) && nominations == old(nominations)
      ensures actor.isLeagueManager && FindNomination(old(nominations), id).Some? ==>
        var k := FindNomination(old(nominations), id).value;
        if slotId.None? then outcome == Flashed(SlotRequired) && nominations == old(nominations)
        else if SlotInUse(old(nominations), k, slotId.value) then
          outcome == Crashed && nominations == old(nominations)
        else
          && outcome == (if old(nominations)[k].playerId in players then Redirected else Crashed)
          && nominations == old(nominations)[k := old(nominations)[k].(slotId := slotId.value,
                                                   matcherId := matcherId, winnerId := winnerId)]
    {
      if !actor.isLeagueManager {
        return Aborted(403);
      }
      var found := FindNomination(nominations, id);
      if found.None? {
        return Aborted(404);
      }
      var k := found.value;
      if slotId.None? {
        return Flashed(SlotRequired);
      }
      if exists j :: 0 <= j < |nominations| && j != k && nominations[j].slotId == slotId.value {
        // IntegrityError on the unique slot_id
        return Crashed;
      }
      var r := nominations[k := nominations[k].(slotId := slotId.value, matcherId := matcherId, winnerId := winnerId)];
      MoveKeepsInvariant(nominations, users, k, slotId.value, r);
      nominations := r;
      if r[k].playerId !in players {
        // str(nomination) on None while logging, after the commit
        return Crashed;
      }
      outcome := Redirected;
    }

    /** The delete view: a league manager removes a nomination, and its
        bids go with it. The nomination is rendered as text first, which
        reads its player. */
    method Delete(actor: Account, id: nat) returns (outcome: Outcome)
      requires Valid()
      modifies this
      ensures Valid() && users == old(users) && notices == old(notices)
      ensures !actor.isLeagueManager ==> outcome == Aborted(403) && nominations == old(nominations)
      ensures actor.isLeagueManager && FindNomination(old(nominations), id).None? ==>
        outcome == Crashed && nominations == old(nominations)
      ensures actor.isLeagueManager && FindNomination(old(nominations), id).Some? ==>
        var k := FindNomination(old(nominations), id).value;
        if old(nominations)[k].playerId !in players then
          outcome == Crashed && nominations == old(nominations)
        else
          outcome == Redirected && nominations == old(nominations)[..k] + old(nominations)[k + 1..]
    {
      if !actor.isLeagueManager {
        return Aborted(403);
      }
      var found := FindNomination(nominations, id);
      if found.None? {
        // session.delete(None) raises
        return Crashed;
      }
      var k := found.value;
      if nominations[k].playerId !in players {
        // str(nomination) on None
        return Crashed;
      }
      RemoveKeepsInvariant(nominations, users, k);
      nominations := nominations[..k] + nominations[k + 1..];
      outcome := Redirected;
    }

    /** The listing: every row of the query goes to the open, match or
        closed list, then each list is sorted by closing time, latest
        first. A row whose slot is missing raises. */
    method Index(viewer: Option<nat>, now: int)
      returns (crashed: bool, open: seq<Row>, matching: seq<Row>, closed: seq<Row>)
      ensures crashed <==> exists r :: r in Rows(nominations, viewer) && r.nomination.slotId !in slotEnds
      ensures !crashed ==> open == Listed(Rows(nominations, viewer), OpenList, now, slotEnds)
      ensures !crashed ==> matching == Listed(Rows(nominations, viewer), MatchList, now, slotEnds)
      ensures !crashed ==> closed == Listed(Rows(nominations, viewer), ClosedList, now, slotEnds)
    {
      crashed, open, matching, closed := Classify(Rows(nominations, viewer), now, slotEnds);
      if !crashed {
        open := Sorting.SortBy(open, LatestFirst(slotEnds));
        matching := Sorting.SortBy(matching, LatestFirst(slotEnds));
        closed := Sorting.SortBy(closed, LatestFirst(slotEnds));
      }
    }

    /** The results download: None when the view raises before sending
        anything; otherwise the header, then one line per won nomination,
        stopping for good at the first winner without a username. */
    function ResultsText(): (r: Option<Stream>)
      reads this
      ensures r.None? <==> exists k :: 0 <= k < |nominations| && Unreadable(nominations[k], players, users)
      ensures r.Some? ==> |r.value.lines| >= 1 && r.value.lines[0] == CsvLine(ResultsHeader)
      ensures r.Some? ==> (r.value.complete <==>
                forall k :: 0 <= k < |nominations| ==> !Unwritable(nominations[k], players, users))
      ensures r.Some? && r.value.complete ==> |r.value.lines| == 1 + |Sorting.Filter(nominations, HasWinner)|
      ensures r.Some? ==> forall f: nat :: FirstUnwritable(nominations, players, users, f) ==>
                r.value.lines == [CsvLine(ResultsHeader)] + Streamed(nominations[..f], players, users).lines
    {
      ResultsShape(nominations, players, users);
      StreamsStop(nominations, players, users);
      Results(nominations, players, users)
    }
  }

  /** The loop of the listing: each row of the query goes to the open,
      match or closed list, in query order; a row whose slot is missing
      raises. */
  method Classify(rows: seq<Row>, now: int, slotEnds: map<nat, int>)
    returns (crashed: bool, open: seq<Row>, matching: seq<Row>, closed: seq<Row>)
    ensures crashed <==> exists r :: r in rows && r.nomination.slotId !in slotEnds
    ensures !crashed ==> open == Sorting.Filter(rows, InList(OpenList, now, slotEnds))
    ensures !crashed ==> matching == Sorting.Filter(rows, InList(MatchList, now, slotEnds))
    ensures !crashed ==> closed == Sorting.Filter(rows, InList(ClosedList, now, slotEnds))
  {
    open, matching, closed := [], [], [];
    crashed := false;
    var i := 0;
    while i < |rows|
      invariant 0 <= i <= |rows|
      invariant forall j :: 0 <= j < i ==> rows[j].nomination.slotId in slotEnds
      invariant open == Sorting.Filter(rows[..i], InList(OpenList, now, slotEnds))
      invariant matching == Sorting.Filter(rows[..i], InList(MatchList, now, slotEnds))
      invariant closed == Sorting.Filter(rows[..i], InList(ClosedList, now, slotEnds))
    {
      var row := rows[i];
      if row.nomination.slotId !in slotEnds {
        // row.Nomination.slot is None
        return true, [], [], [];
      }
      IndexStep(rows, i, OpenList, now, slotEnds);
      IndexStep(rows, i, MatchList, now, slotEnds);
      IndexStep(rows, i, ClosedList, now, slotEnds);
      var endsAt := slotEnds[row.nomination.slotId];
      ghost var l := ListOf(row.nomination, endsAt, now);
      if endsAt < now {
        if row.nomination.winnerId.Some? && row.nomination.winnerId.value != 0 {
          assert l == ClosedList;
          closed := closed + [row];
        } else if row.nomination.matcherId.Some? && row.nomination.matcherId.value != 0 {
          assert l == MatchList;
          matching := matching + [row];
        } else {
          assert l == OpenList;
          open := open + [row];
        }
      } else {
        assert l == OpenList;
        open := open + [row];
      }
      i := i + 1;
    }
    assert rows[..i] == rows;
  }

  /** One step of the listing loop: the row goes to exactly the list
      ListOf names. */
  lemma IndexStep(rows: seq<Row>, i: nat, l: Listing, now: int, slotEnds: map<nat, int>)
    requires i < |rows| && rows[i].nomination.slotId in slotEnds
    ensures Sorting.Filter(rows[..i + 1], InList(l, now, slotEnds))
      == Sorting.Filter(rows[..i], InList(l, now, slotEnds))
         + (if ListOf(rows[i].nomination, slotEnds[rows[i].nomination.slotId], now) == l then [rows[i]] else [])
  {
    assert rows[..i + 1] == rows[..i] + [rows[i]];
    Sorting.FilterAppend(rows[..i], [rows[i]], InList(l, now, slotEnds));
    assert [rows[i]][1..] == [];
  }

  /** Adding a nomination with a fresh id, an unused player and slot, and
      one bid per user keeps the store's invariant. */
  lemma AddKeepsInvariant(ns: seq<Nomination>, users: seq<Account>, n: Nomination)
    requires UniqueNominations(ns) && AllAligned(ns, users)
    requires n.id == NextId(ns)
    requires !Taken(ns, n.playerId, n.slotId)
    requires Aligned(n.bids, users)
    ensures UniqueNominations(ns + [n]) && AllAligned(ns + [n], users)
  {
    var r := ns + [n];
    forall i, j | 0 <= i < j < |r|
      ensures IdOf(r[i]) != IdOf(r[j]) && PlayerOf(r[i]) != PlayerOf(r[j]) && SlotOf(r[i]) != SlotOf(r[j])
    {
      if j == |ns| {
        assert r[i] == ns[i];
      } else {
        assert r[i] == ns[i] && r[j] == ns[j];
        assert IdOf(ns[i]) != IdOf(ns[j]) && PlayerOf(ns[i]) != PlayerOf(ns[j]);
        assert SlotOf(ns[i]) != SlotOf(ns[j]);
      }
    }
  }

  lemma MoveKeepsInvariant(ns: seq<Nomination>, users: seq<Account>, k: nat, s: nat, r: seq<Nomination>)
    requires UniqueNominations(ns) && AllAligned(ns, users)
    requires k < |ns| && !SlotInUse(ns, k, s)
    requires |r| == |ns| && r == ns[k := r[k]] && r[k].id == ns[k].id && r[k].playerId == ns[k].playerId
    requires r[k].slotId == s && r[k].bids == ns[k].bids
    ensures UniqueNominations(r) && AllAligned(r, users)
  {
    forall i, j | 0 <= i < j < |r|
      ensures IdOf(r[i]) != IdOf(r[j]) && PlayerOf(r[i]) != PlayerOf(r[j]) && SlotOf(r[i]) != SlotOf(r[j])
    {
      assert IdOf(ns[i]) != IdOf(ns[j]) && PlayerOf(ns[i]) != PlayerOf(ns[j]);
      assert SlotOf(ns[i]) != SlotOf(ns[j]);
    }
  }

  lemma RemoveKeepsInvariant(ns: seq<Nomination>, users: seq<Account>, k: nat)
    requires UniqueNominations(ns) && AllAligned(ns, users) && k < |ns|
    ensures UniqueNominations(ns[..k] + ns[k + 1..]) && AllAligned(ns[..k] + ns[k + 1..], users)
  {
    var r := ns[..k] + ns[k + 1..];
    assert forall j :: 0 <= j < |r| ==> r[j] == ns[if j < k then j else j + 1];
    forall i, j | 0 <= i < j < |r|
      ensures IdOf(r[i]) != IdOf(r[j]) && PlayerOf(r[i]) != PlayerOf(r[j]) && SlotOf(r[i]) != SlotOf(r[j])
    {
      var i', j' := if i < k then i else i + 1, if j < k then j else j + 1;
      assert r[i] == ns[i'] && r[j] == ns[j'] && i' < j';
      assert IdOf(ns[i']) != IdOf(ns[j']) && PlayerOf(ns[i']) != PlayerOf(ns[j']);
      assert SlotOf(ns[i']) != SlotOf(ns[j']);
    }
  }
}
