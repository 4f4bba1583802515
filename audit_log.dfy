/** The audit trail: the journal every logged event is appended to, the
    builders of the bid and edit entries, and the admin listing with its
    filters and fifty-entry pages. A logged dictionary is an ordered list
    of key/value pairs; its JSON text is produced by an encoder given as a
    parameter. */
module Audit {
  import opened Wrappers
  import Text
  import Sorting
  import Model

  /** A value in a logged dictionary: the Python values the loggers store. */
  datatype Value = Str(s: string) | Int(i: int) | Bool(b: bool) | Null

  /** A dictionary in insertion order. */
  type Dict = seq<(string, Value)>

  /** One entry of a `changes` dictionary: the field, its old and its new value. */
  datatype Change = Change(field: string, before: Value, after: Value)

  /** What the request supplies: the logged-in user, the client address and
      the clock. */
  datatype Request = Request(user: Option<nat>, remoteAddr: Option<string>, now: int)

  function Keys(d: Dict): (r: seq<string>)
    ensures |r| == |d|
  {
    seq(|d|, i requires 0 <= i < |d| => d[i].0)
  }

  function Fields(changes: seq<Change>): (r: seq<string>)
    ensures |r| == |changes|
  {
    seq(|changes|, i requires 0 <= i < |changes| => changes[i].field)
  }

  // ----- log_audit -----

  /** A dictionary is stored as its JSON text when it is non-empty, and as
      NULL when it is absent or empty. */
  function Encoded(values: Option<Dict>, encode: Dict -> string): (r: Option<string>)
    ensures r.Some? <==> values.Some? && values.value != []
    ensures r.Some? ==> r.value == encode(values.value)
  {
    if values.Some? && values.value != [] then Some(encode(values.value)) else None
  }

  /** The row log_audit adds. The actor is the given user, or else the
      logged-in user, or else nobody; the address is the request's. */
  function NewEntry(id: nat, action: string, entityType: string, entityId: Option<nat>,
                    description: string, oldValues: Option<Dict>, newValues: Option<Dict>,
                    isSensitive: bool, user: Option<nat>, req: Request, encode: Dict -> string)
    : (e: Model.AuditLog)
    ensures e.id == id && e.action == action && e.entityType == entityType && e.entityId == entityId
    ensures e.description == description && e.isSensitive == isSensitive
    ensures user.Some? ==> e.userId == user
    ensures user.None? ==> e.userId == req.user
    ensures e.oldValues.Some? <==> oldValues.Some? && oldValues.value != []
    ensures e.newValues.Some? <==> newValues.Some? && newValues.value != []
    ensures e.ipAddress == req.remoteAddr && e.createdAt == req.now
  {
    Model.AuditLog(id, if user.Some? then user else req.user, action, entityType, entityId,
                   description, Encoded(oldValues, encode), Encoded(newValues, encode),
                   isSensitive, req.remoteAddr, req.now)
  }

  // ----- log_bid -----

  datatype BidChange = Placed | Removed | Updated

  /** Which of the three wordings a bid entry uses. */
  function BidKind(oldValue: Option<int>, newValue: Option<int>): (k: BidChange)
    ensures k == Placed <==> oldValue.None?
    ensures k == Removed <==> oldValue.Some? && newValue.None?
    ensures k == Updated <==> oldValue.Some? && newValue.Some?
  {
    if oldValue.None? then Placed else if newValue.None? then Removed else Updated
  }

  /** Python's str() of an optional integer. */
  function OptionText(v: Option<int>): string {
    if v.Some? then Text.IntToString(v.value) else "None"
  }

  function BidDescription(team: string, player: string, oldValue: Option<int>, newValue: Option<int>): string {
    match BidKind(oldValue, newValue)
    case Placed => team + " placed bid of $" + OptionText(newValue) + " on " + player
    case Removed => team + " removed bid on " + player
    case Updated => team + " updated bid on " + player
  }

  /** A bid value is logged only when it is truthy: an absent bid and a bid
      of zero both leave the dictionary out. */
  function BidValues(v: Option<int>): (r: Option<Dict>)
    ensures r.Some? <==> Truthy(v)
    ensures r.Some? ==> Keys(r.value) == ["value"] && r.value[0].1 == Int(v.value)
  {
    if Truthy(v) then Some([("value", Int(v.value))]) else None
  }

  // ----- The edit loggers -----

  /** Python's str() of a logged value. */
  function ValueText(v: Value): string {
    match v
    case Str(s) => s
    case Int(i) => Text.IntToString(i)
    case Bool(b) => if b then "True" else "False"
    case Null => "None"
  }

  function ChangeText(c: Change): string {
    c.field + ": " + ValueText(c.before) + " → " + ValueText(c.after)
  }

  /** The change descriptions joined by ", ". */
  function ChangeSummary(changes: seq<Change>): string {
    Text.Join(seq(|changes|, i requires 0 <= i < |changes| => ChangeText(changes[i])), ", ")
  }

  /** The old values of a changes dictionary, under the same keys. */
  function OldValues(changes: seq<Change>): (d: Dict)
    ensures Keys(d) == Fields(changes)
    ensures forall i :: 0 <= i < |d| ==> d[i].1 == changes[i].before
  {
    seq(|changes|, i requires 0 <= i < |changes| => (changes[i].field, changes[i].before))
  }

  /** The new values of a changes dictionary, under the same keys. */
  function NewValues(changes: seq<Change>): (d: Dict)
    ensures Keys(d) == Fields(changes)
    ensures forall i :: 0 <= i < |d| ==> d[i].1 == changes[i].after
  {
    seq(|changes|, i requires 0 <= i < |changes| => (changes[i].field, changes[i].after))
  }

  /** Pairing the two dictionaries up again gives back the changes. */
  function Rejoined(before: Dict, after: Dict): (r: seq<Change>)
    requires Keys(before) == Keys(after)
    ensures |r| == |before|
  {
    seq(|before|, i requires 0 <= i < |before| => Change(before[i].0, before[i].1, after[i].1))
  }

  lemma SplitRejoin(changes: seq<Change>)
    ensures Rejoined(OldValues(changes), NewValues(changes)) == changes
  {
    var r := Rejoined(OldValues(changes), NewValues(changes));
    forall i | 0 <= i < |changes|
      ensures r[i] == changes[i]
    {
      assert Keys(OldValues(changes))[i] == changes[i].field;
    }
  }

  /** An edit logger stores both dictionaries exactly when something changed. */
  lemma EditValuesStored(id: nat, entityType: string, entityId: Option<nat>, description: string,
                         changes: seq<Change>, user: Option<nat>, req: Request, encode: Dict -> string)
    ensures var e := NewEntry(id, "update", entityType, entityId, description,
                              Some(OldValues(changes)), Some(NewValues(changes)), false, user, req, encode);
            (e.oldValues.Some? <==> changes != []) && (e.newValues.Some? <==> changes != [])
  {
    assert |OldValues(changes)| == |changes| by { assert |Keys(OldValues(changes))| == |Fields(changes)|; }
    assert |NewValues(changes)| == |changes| by { assert |Keys(NewValues(changes))| == |Fields(changes)|; }
  }

  /** The audit table: rows are only ever appended, numbered from 1. */
  class Journal {
    var entries: seq<Model.AuditLog>
    const encode: Dict -> string

    ghost predicate Valid()
      reads this
    {
      forall i :: 0 <= i < |entries| ==> entries[i].id == i + 1
    }

    constructor(encode: Dict -> string)
      ensures Valid() && entries == [] && this.encode == encode
    {
      entries := [];
      this.encode := encode;
    }

    /** log_audit: one row is added, nothing else changes. */
    method Log(action: string, entityType: string, entityId: Option<nat>, description: string,
               oldValues: Option<Dict>, newValues: Option<Dict>, isSensitive: bool,
               user: Option<nat>, req: Request)
      requires Valid()
      modifies this
      ensures Valid()
      ensures entries == old(entries) + [NewEntry(|old(entries)| + 1, action, entityType, entityId, description,
                                                  oldValues, newValues, isSensitive, user, req, encode)]
    {
      var e := NewEntry(|entries| + 1, action, entityType, entityId, description,
                        oldValues, newValues, isSensitive, user, req, encode);
      entries := entries + [e];
    }

    /** log_bid: a sensitive update of the nomination's bid, by the bidder. */
    method LogBid(nominationId: nat, bidder: nat, team: string, player: string,
                  oldValue: Option<int>, newValue: Option<int>, req: Request)
      requires Valid()
      modifies this
      ensures Valid()
      ensures entries == old(entries) + [NewEntry(|old(entries)| + 1, "update", "bid", Some(nominationId),
                                                  BidDescription(team, player, oldValue, newValue),
                                                  BidValues(oldValue), BidValues(newValue), true,
                                                  Some(bidder), req, encode)]
    {
      Log("update", "bid", Some(nominationId), BidDescription(team, player, oldValue, newValue),
          BidValues(oldValue), BidValues(newValue), true, Some(bidder), req);
    }

    /** log_admin_player_edit: the changes split into old and new values. */
    method LogAdminPlayerEdit(playerId: nat, playerName: string, changes: seq<Change>,
                              user: Option<nat>, req: Request)
      requires Valid()
      modifies this
      ensures Valid()
      ensures entries == old(entries) + [NewEntry(|old(entries)| + 1, "update", "player", Some(playerId),
                                                  "Admin updated " + playerName + ": " + ChangeSummary(changes),
                                                  Some(OldValues(changes)), Some(NewValues(changes)), false,
                                                  user, req, encode)]
    {
      Log("update", "player", Some(playerId), "Admin updated " + playerName + ": " + ChangeSummary(changes),
          Some(OldValues(changes)), Some(NewValues(changes)), false, user, req);
    }

    /** log_nomination_edit: the same split for a nomination. */
    method LogNominationEdit(nominationId: nat, playerName: string, changes: seq<Change>,
                             user: Option<nat>, req: Request)
      requires Valid()
      modifies this
      ensures Valid()
      ensures entries == old(entries) + [NewEntry(|old(entries)| + 1, "update", "nomination", Some(nominationId),
                                                  "Admin updated nomination for " + playerName + ": "
                                                  + ChangeSummary(changes),
                                                  Some(OldValues(changes)), Some(NewValues(changes)), false,
                                                  user, req, encode)]
    {
      Log("update", "nomination", Some(nominationId),
          "Admin updated nomination for " + playerName + ": " + ChangeSummary(changes),
          Some(OldValues(changes)), Some(NewValues(changes)), false, user, req);
    }
  }

  // ----- The listing -----

  const PerPage := 50

  /** The number of pages: at least one, and just enough for every entry. */
  function TotalPages(total: nat): (p: nat)
    ensures p >= 1
    ensures total <= p * PerPage
    ensures total > 0 ==> (p - 1) * PerPage < total
    ensures total == 0 ==> p == 1
  {
    var q := (total + PerPage - 1) / PerPage;
    if q < 1 then 1 else q
  }

  /** The query arguments as received; absent ones are None. */
  datatype Args = Args(showSensitive: Option<string>, entityType: Option<string>,
                       userId: Option<string>, page: Option<string>)

  /** An entry passes the three filters: the entity type when one is
      chosen, the acting user when one is chosen, and sensitivity unless
      sensitive entries are shown. */
  function Shown(entityType: string, userId: Option<int>, showSensitive: bool): Model.AuditLog -> bool {
    (e: Model.AuditLog) =>
      (entityType == "" || e.entityType == entityType)
      && (userId.None? || (e.userId.Some? && e.userId.value == userId.value))
      && (showSensitive || !e.isSensitive)
  }

  function OfType(entityType: string): Model.AuditLog -> bool {
    (e: Model.AuditLog) => e.entityType == entityType
  }

  function ByUser(userId: int): Model.AuditLog -> bool {
    (e: Model.AuditLog) => e.userId.Some? && e.userId.value == userId
  }

  function NotSensitive(e: Model.AuditLog): bool {
    !e.isSensitive
  }

  /** The entries both queries select. */
  function Visible(entries: seq<Model.AuditLog>, entityType: string, userId: Option<int>, showSensitive: bool)
    : seq<Model.AuditLog>
  {
    Sorting.Filter(entries, Shown(entityType, userId, showSensitive))
  }

  function Newest(e: Model.AuditLog): int {
    -e.createdAt
  }

  /** Page p of rows: fifty rows from offset (p - 1) * 50. A page below one
      starts at the first row. */
  function PageOf<T>(rows: seq<T>, page: int): (r: seq<T>)
    ensures |r| <= PerPage
  {
    var start := if page < 1 then 0 else if (page - 1) * PerPage > |rows| then |rows| else (page - 1) * PerPage;
    var end := if start + PerPage > |rows| then |rows| else start + PerPage;
    rows[start..end]
  }

  /** Pages 1 to n, one after the other. */
  function Pages<T>(rows: seq<T>, n: nat): seq<T> {
    if n == 0 then [] else Pages(rows, n - 1) + PageOf(rows, n)
  }

  lemma {:induction false} PagesPrefix<T>(rows: seq<T>, n: nat)
    ensures Pages(rows, n) == rows[..if n * PerPage > |rows| then |rows| else n * PerPage]
  {
    if n > 0 {
      PagesPrefix(rows, n - 1);
    }
  }

  /** Reading pages 1 to TotalPages in turn lists every row exactly once,
      in order. */
  lemma PagesCover<T>(rows: seq<T>)
    ensures Pages(rows, TotalPages(|rows|)) == rows
  {
    PagesPrefix(rows, TotalPages(|rows|));
  }

  /** A page from 1 to TotalPages is non-empty when there are rows; a page
      past the last is empty. */
  lemma PageBounds<T>(rows: seq<T>, page: int)
    ensures 1 <= page <= TotalPages(|rows|) && rows != [] ==> PageOf(rows, page) != []
    ensures page > TotalPages(|rows|) ==> PageOf(rows, page) == []
  {
  }

  /** What the listing hands to the page, or an uncaught ValueError. */
  datatype Listing = Crashed | Listing(entries: seq<Model.AuditLog>, total: nat, totalPages: nat, showSensitive: bool)

  /** The filters applied one after the other, as each query adds them. */
  method ApplyFilters(entries: seq<Model.AuditLog>, entityType: string, userId: string, showSensitive: bool)
    returns (crashed: bool, rows: seq<Model.AuditLog>)
    ensures crashed <==> userId != "" && Text.ParseInt(userId).None?
    ensures !crashed ==> rows == Visible(entries, entityType, if userId == "" then None else Text.ParseInt(userId), showSensitive)
  {
    rows := entries;
    if entityType != "" {
      rows := Sorting.Filter(rows, OfType(entityType));
      FilterSame(entries, OfType(entityType), Shown(entityType, None, true));
    } else {
      FilterAll(entries, Shown(entityType, None, true));
    }
    var uid: Option<int> := None;
    if userId != "" {
      uid := Text.ParseInt(userId);
      if uid.None? {
        return true, rows;
      }
      Sorting.FilterFilter(entries, Shown(entityType, None, true), ByUser(uid.value), Shown(entityType, uid, true));
      rows := Sorting.Filter(rows, ByUser(uid.value));
    }
    if !showSensitive {
      Sorting.FilterFilter(entries, Shown(entityType, uid, true), NotSensitive, Shown(entityType, uid, false));
      rows := Sorting.Filter(rows, NotSensitive);
    }
    crashed := false;
  }

  /** index: the page asked for of the entries passing the filters, newest
      first, with the number of such entries and of pages. */
  method Index(entries: seq<Model.AuditLog>, args: Args) returns (r: Listing)
    ensures var page := if args.page.Some? then Text.ParseInt(args.page.value) else Some(1);
            var userId := args.userId.GetOr("");
            r.Crashed? <==> page.None? || (userId != "" && Text.ParseInt(userId).None?)
    ensures r.Listing? ==>
      var page := if args.page.Some? then Text.ParseInt(args.page.value) else Some(1);
      var userId := args.userId.GetOr("");
      var visible := Visible(entries, args.entityType.GetOr(""),
                             if userId == "" then None else Text.ParseInt(userId),
                             r.showSensitive);
      && r.showSensitive == (args.showSensitive == Some("true"))
      && r.total == |visible|
      && r.totalPages == TotalPages(r.total)
      && r.entries == PageOf(Sorting.SortBy(visible, Newest), page.value)
  {
    var showSensitive := args.showSensitive.GetOr("false") == "true";
    var entityType := args.entityType.GetOr("");
    var userId := args.userId.GetOr("");
    var page := if args.page.Some? then Text.ParseInt(args.page.value) else Some(1);
    if page.None? {
      return Crashed;
    }
    var crashed, rows := ApplyFilters(entries, entityType, userId, showSensitive);
    if crashed {
      return Crashed;
    }
    var counted;
    crashed, counted := ApplyFilters(entries, entityType, userId, showSensitive);
    var total := |counted|;
    var listed := PageOf(Sorting.SortBy(rows, Newest), page.value);
    r := Listing(listed, total, TotalPages(total), showSensitive);
  }

  /** A page is a run of consecutive rows: its rows come from the input,
      and a sorted input gives a sorted page. */
  lemma PageSlice<T>(rows: seq<T>, page: int, key: T -> int)
    ensures forall x :: x in PageOf(rows, page) ==> x in rows
    ensures Sorting.SortedBy(rows, key) ==> Sorting.SortedBy(PageOf(rows, page), key)
  {
    var start := if page < 1 then 0 else if (page - 1) * PerPage > |rows| then |rows| else (page - 1) * PerPage;
    var listed := PageOf(rows, page);
    assert forall i :: 0 <= i < |listed| ==> listed[i] == rows[start + i];
  }

  /** Every listed entry passes the filters, sensitive entries are hidden
      unless asked for, and the page runs from newest to oldest. */
  lemma ListingFacts(entries: seq<Model.AuditLog>, entityType: string, userId: Option<int>,
                     showSensitive: bool, page: int)
    ensures var listed := PageOf(Sorting.SortBy(Visible(entries, entityType, userId, showSensitive), Newest), page);
            && (forall e :: e in listed ==> e in entries && Shown(entityType, userId, showSensitive)(e))
            && (!showSensitive ==> forall e :: e in listed ==> !e.isSensitive)
            && (forall i, j :: 0 <= i < j < |listed| ==> listed[i].createdAt >= listed[j].createdAt)
  {
    var visible := Visible(entries, entityType, userId, showSensitive);
    var sorted := Sorting.SortBy(visible, Newest);
    Sorting.FilterMembers(entries, Shown(entityType, userId, showSensitive));
    Sorting.SortByFacts(visible, Newest);
    forall e | e in sorted ensures e in visible {
      assert e in multiset(sorted);
    }
    PageSlice(sorted, page, Newest);
    var listed := PageOf(sorted, page);
    forall i, j | 0 <= i < j < |listed|
      ensures listed[i].createdAt >= listed[j].createdAt
    {
      assert Newest(listed[i]) <= Newest(listed[j]);
    }
  }

  /** Two filters that agree everywhere select the same entries. */
  lemma {:induction false} FilterSame(s: seq<Model.AuditLog>, p: Model.AuditLog -> bool, q: Model.AuditLog -> bool)
    requires forall x :: p(x) == q(x)
    ensures Sorting.Filter(s, p) == Sorting.Filter(s, q)
    decreases |s|
  {
    if s != [] {
      FilterSame(s[1..], p, q);
    }
  }

  /** A filter every entry passes keeps them all. */
  lemma {:induction false} FilterAll(s: seq<Model.AuditLog>, p: Model.AuditLog -> bool)
    requires forall x :: p(x)
    ensures Sorting.Filter(s, p) == s
    decreases |s|
  {
    if s != [] {
      FilterAll(s[1..], p);
      assert s == [s[0]] + s[1..];
    }
  }
}
