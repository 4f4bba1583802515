/** The slot administration views of slots.py and of its older twin
    blocks.py: creating a run of evenly spaced slots under a new round (or
    block) number, deleting a round's slots that have not closed yet, and
    renumbering a round. The two files differ only in the column that
    groups the slots and in the word used in messages, so one model serves
    both, chosen by a Keying.

    Times are whole minutes. The start date and time arrive already parsed
    (None where strptime would raise), and the conversion from US/Eastern
    to UTC is a function passed in. The notifications the views schedule
    or cancel are recorded as a list of Notice events. */
module Schedule {
  import opened Wrappers
  import Text
  import Sorting
  import Auction

  const MinutesPerDay := 1440

  /** Which column groups the slots: round (slots.py) or block (blocks.py). */
  datatype Keying = ByRound | ByBlock

  function Noun(k: Keying): string {
    match k
    case ByRound => "Round"
    case ByBlock => "Block"
  }

  function LowerNoun(k: Keying): string {
    match k
    case ByRound => "round"
    case ByBlock => "block"
  }

  /** A slot: its round or block number, and its closing time. */
  datatype Slot = Slot(number: int, closesAt: int)

  /** The notification calls the views make. */
  datatype Notice =
    | PeriodBegun(number: int, opensAt: int, closesAt: int)
    | PeriodEnd(number: int, closesAt: int)
    | AuctionsClose(number: int, at: int)
    | PeriodBegunRemoved(number: int)
    | PeriodEndRemoved(number: int)
    | AuctionsCloseRemoved(number: int)

  /** A redirect (with the warning flashed before it, if any), a flashed
      error with nothing changed, the page shown again with nothing
      changed, or an uncaught exception with nothing committed. */
  datatype Outcome = Redirected(warning: Option<string>) | Flashed(message: string) | Rendered | Crashed

  function LabelRequired(k: Keying): string { Noun(k) + " number is required." }
  const StartDateRequired := "Start date is required."
  const StartTimeRequired := "Start time is required."
  const CountRequired := "Number of slots is required."
  const SpacingRequired := "Time between slots is required."

  function AlreadyExists(k: Keying, n: int): string {
    Noun(k) + " " + Text.IntToString(n) + " already exists."
  }

  function StillClosed(k: Keying, number: int, n: nat): string {
    "Unable to delete " + Text.IntToString(n) + " slots from " + LowerNoun(k) + " "
      + Text.IntToString(number) + " because they are already closed."
  }

  function Labels(slots: seq<Slot>): set<int> {
    set s | s in slots :: s.number
  }

  function HasLabel(number: int): Slot -> bool {
    (s: Slot) => s.number == number
  }

  // ----- Create -----

  /** The create form, as submitted text. */
  datatype CreateForm = CreateForm(number: string, startDate: string, startTime: string,
                                   count: string, spacing: string)

  /** What the checks of create decide: raise, flash an error, or go ahead
      with the parsed number, slot count and spacing in minutes. */
  datatype CreateCheck = CheckCrash | CheckFail(message: string) | Go(number: int, count: int, spacing: int)

  /** The first missing field. */
  function MissingField(k: Keying, form: CreateForm): Option<string> {
    if form.number == "" then Some(LabelRequired(k))
    else if form.startDate == "" then Some(StartDateRequired)
    else if form.startTime == "" then Some(StartTimeRequired)
    else if form.count == "" then Some(CountRequired)
    else if form.spacing == "" then Some(SpacingRequired)
    else None
  }

  /** The checks of create. The int() calls guard only against TypeError,
      which text never raises; text that is not an integer, the empty text
      among it, raises ValueError instead. So the only errors ever shown
      are a missing start date or time and an existing number, which
      overrides them. */
  function CheckCreate(k: Keying, form: CreateForm, labels: set<int>): (r: CreateCheck)
    ensures r == CheckCrash <==>
      Text.ParseInt(form.number).None? || Text.ParseInt(form.count).None? || Text.ParseInt(form.spacing).None?
    ensures r.Go? <==> r != CheckCrash && form.startDate != "" && form.startTime != ""
                       && Text.ParseInt(form.number).value !in labels
    ensures r.Go? ==> Some(r.number) == Text.ParseInt(form.number) && Some(r.count) == Text.ParseInt(form.count)
                      && Some(r.spacing) == Text.ParseInt(form.spacing)
    ensures r != CheckCrash && Text.ParseInt(form.number).value in labels ==>
      r == CheckFail(AlreadyExists(k, Text.ParseInt(form.number).value))
    ensures r != CheckCrash && Text.ParseInt(form.number).value !in labels ==>
      (form.startDate == "" ==> r == CheckFail(StartDateRequired))
      && (form.startDate != "" && form.startTime == "" ==> r == CheckFail(StartTimeRequired))
    ensures r.CheckFail? ==> r.message in {AlreadyExists(k, Text.ParseInt(form.number).value),
                                            StartDateRequired, StartTimeRequired}
  {
    var error := MissingField(k, form);
    var number, count, spacing := Text.ParseInt(form.number), Text.ParseInt(form.count), Text.ParseInt(form.spacing);
    if number.None? || count.None? || spacing.None? then CheckCrash
    else
      var error := if number.value in labels then Some(AlreadyExists(k, number.value)) else error;
      if error.Some? then CheckFail(error.value)
      else Go(number.value, count.value, spacing.value)
  }

  /** The slots of the loop, before the time zone conversion: count slots,
      the k-th closing k spacings after the start. */
  function Generated(number: int, start: int, spacing: int, count: int): (r: seq<Slot>)
    ensures |r| == if count < 0 then 0 else count
  {
    seq(if count < 0 then 0 else count, k => Slot(number, start + k * spacing))
  }

  /** The loop of create: closes_at advances by the spacing each time. */
  method Generate(number: int, start: int, spacing: int, count: int) returns (slots: seq<Slot>)
    ensures slots == Generated(number, start, spacing, count)
  {
    slots := [];
    var closesAt := start;
    var k := 0;
    while k < count
      invariant count >= 0 ==> 0 <= k <= count
      invariant count < 0 ==> k == 0
      invariant closesAt == start + k * spacing
      invariant slots == Generated(number, start, spacing, k)
    {
      slots := slots + [Slot(number, closesAt)];
      closesAt := closesAt + spacing;
      k := k + 1;
    }
  }

  /** The closing times converted to UTC. */
  function Converted(slots: seq<Slot>, toUtc: int -> int): (r: seq<Slot>)
    ensures |r| == |slots|
  {
    seq(|slots|, i requires 0 <= i < |slots| => slots[i].(closesAt := toUtc(slots[i].closesAt)))
  }

  /** The nomination window of a new run of slots: it opens one day before
      the last slot closes, plus a minute, and closes five days before the
      first slot closes. */
  function Window(created: seq<Slot>): (w: (int, int))
    requires created != []
  {
    (created[|created| - 1].closesAt - Auction.NominationDayRange.0 * MinutesPerDay + 1,
     created[0].closesAt - Auction.NominationDayRange.1 * MinutesPerDay)
  }

  /** The notifications create schedules. */
  function CreateNotices(number: int, created: seq<Slot>): seq<Notice>
    requires created != []
  {
    [PeriodBegun(number, Window(created).0, Window(created).1),
     PeriodEnd(number, Window(created).1),
     AuctionsClose(number, created[0].closesAt)]
  }

  /** The created slots: count of them under the new number, the k-th
      closing k spacings after the start; the window runs from a day less a
      minute before the last closes to five days before the first. */
  lemma CreatedSlots(number: int, start: int, spacing: int, count: int, toUtc: int -> int)
    requires count > 0
    ensures var c := Converted(Generated(number, start, spacing, count), toUtc);
            |c| == count
            && (forall k :: 0 <= k < count ==> c[k] == Slot(number, toUtc(start + k * spacing)))
            && Window(c) == (toUtc(start + (count - 1) * spacing) - 1440 + 1, toUtc(start) - 7200)
  {
  }

  /** Adding a run under a number no slot had makes that number's slots
      exactly the run, and leaves every other number's slots alone. */
  lemma CreateOwnsLabel(slots: seq<Slot>, created: seq<Slot>, number: int)
    requires number !in Labels(slots)
    requires forall s :: s in created ==> s.number == number
    ensures Sorting.Filter(slots + created, HasLabel(number)) == created
    ensures forall m :: m != number ==>
      Sorting.Filter(slots + created, HasLabel(m)) == Sorting.Filter(slots, HasLabel(m))
  {
    Sorting.FilterAppend(slots, created, HasLabel(number));
    Sorting.FilterNone(slots, HasLabel(number));
    AllKept(created, HasLabel(number));
    forall m | m != number
      ensures Sorting.Filter(slots + created, HasLabel(m)) == Sorting.Filter(slots, HasLabel(m))
    {
      Sorting.FilterAppend(slots, created, HasLabel(m));
      Sorting.FilterNone(created, HasLabel(m));
    }
  }

  lemma {:induction false} AllKept<T>(s: seq<T>, p: T -> bool)
    requires forall x :: x in s ==> p(x)
    ensures Sorting.Filter(s, p) == s
    decreases |s|
  {
    if s != [] {
      assert s[0] in s;
      assert forall x :: x in s[1..] ==> x in s;
      AllKept(s[1..], p);
      assert s == [s[0]] + s[1..];
    }
  }

  // ----- Delete the slots that have not closed -----

  /** The slots the bulk delete keeps: all but the number's slots that
      close after now. */
  function Survives(number: int, now: int): Slot -> bool {
    (s: Slot) => !(s.number == number && s.closesAt > now)
  }

  function ClosedIn(number: int, now: int): Slot -> bool {
    (s: Slot) => s.number == number && s.closesAt < now
  }

  function NotAfter(number: int, now: int): Slot -> bool {
    (s: Slot) => s.number == number && s.closesAt <= now
  }

  function DeleteFuture(slots: seq<Slot>, number: int, now: int): seq<Slot> {
    Sorting.Filter(slots, Survives(number, now))
  }

  /** How many of the number's slots have closed: the count in the
      warning. */
  function ClosedCount(slots: seq<Slot>, number: int, now: int): nat {
    |Sorting.Filter(slots, ClosedIn(number, now))|
  }

  /** The delete removes exactly the number's slots that close after now;
      what is left of the number is its slots closing at or before now, in
      order; every other number keeps all its slots; and the closed slots
      the warning counts are all kept. A slot closing exactly now is kept
      and not counted. */
  lemma DeleteFutureFacts(slots: seq<Slot>, number: int, now: int)
    ensures forall s :: s in DeleteFuture(slots, number, now) <==>
                          s in slots && !(s.number == number && s.closesAt > now)
    ensures Sorting.Filter(DeleteFuture(slots, number, now), HasLabel(number))
            == Sorting.Filter(slots, NotAfter(number, now))
    ensures forall m :: m != number ==>
      Sorting.Filter(DeleteFuture(slots, number, now), HasLabel(m)) == Sorting.Filter(slots, HasLabel(m))
    ensures forall s :: s in slots && s.number == number && s.closesAt == now ==>
      s in DeleteFuture(slots, number, now) && !ClosedIn(number, now)(s)
    ensures ClosedCount(slots, number, now) <= |Sorting.Filter(DeleteFuture(slots, number, now), HasLabel(number))|
  {
    Sorting.FilterMembers(slots, Survives(number, now));
    Sorting.FilterFilter(slots, Survives(number, now), HasLabel(number), NotAfter(number, now));
    forall m | m != number
      ensures Sorting.Filter(DeleteFuture(slots, number, now), HasLabel(m)) == Sorting.Filter(slots, HasLabel(m))
    {
      Sorting.FilterFilter(slots, Survives(number, now), HasLabel(m), HasLabel(m));
    }
    FilterWeaker(slots, ClosedIn(number, now), NotAfter(number, now));
  }

  /** A weaker condition keeps at least as many elements. */
  lemma {:induction false} FilterWeaker<T>(s: seq<T>, p: T -> bool, q: T -> bool)
    requires forall x :: p(x) ==> q(x)
    ensures |Sorting.Filter(s, p)| <= |Sorting.Filter(s, q)|
    decreases |s|
  {
    if s != [] {
      FilterWeaker(s[1..], p, q);
    }
  }

  /** The delete view as written: the query for the closed slots reads
      the attribute all of the scalars method itself, which raises before
      anything is deleted. */
  function DeleteAsWritten(slots: seq<Slot>, number: int, now: int): (r: (Outcome, seq<Slot>))
    ensures r.0 == Crashed && r.1 == slots
  {
    (Crashed, slots)
  }

  /** The delete view as written never deletes: a slot of the number that
      has not closed yet survives it, while the intended delete removes
      it. */
  lemma DeleteAsWrittenKeepsFutureSlots(slots: seq<Slot>, number: int, now: int, s: Slot)
    requires s in slots && s.number == number && s.closesAt > now
    ensures s in DeleteAsWritten(slots, number, now).1
    ensures s !in DeleteFuture(slots, number, now)
  {
    DeleteFutureFacts(slots, number, now);
  }

  // ----- Renumber -----

  /** Every slot of from gets the number to. */
  function Relabelled(slots: seq<Slot>, from: int, to: int): (r: seq<Slot>)
    ensures |r| == |slots|
  {
    seq(|slots|, i requires 0 <= i < |slots| => if slots[i].number == from then slots[i].(number := to) else slots[i])
  }

  /** The loop that sets the new number on each slot of the old one. */
  method Relabel(slots: seq<Slot>, from: int, to: int) returns (r: seq<Slot>)
    ensures r == Relabelled(slots, from, to)
  {
    r := slots;
    var i := 0;
    while i < |r|
      invariant 0 <= i <= |r| == |slots|
      invariant forall j :: 0 <= j < i ==> r[j] == Relabelled(slots, from, to)[j]
      invariant forall j :: i <= j < |r| ==> r[j] == slots[j]
    {
      if r[i].number == from {
        r := r[i := r[i].(number := to)];
      }
      i := i + 1;
    }
  }

  /** Renumbering to a number no slot has: closing times stay, the slots
      that had the old number are exactly those that now have the new one,
      no slot keeps the old number, and the other slots do not change. */
  lemma RelabelFacts(slots: seq<Slot>, from: int, to: int)
    requires to !in Labels(slots)
    ensures var r := Relabelled(slots, from, to);
            (forall i :: 0 <= i < |slots| ==> r[i].closesAt == slots[i].closesAt)
            && (forall i :: 0 <= i < |slots| ==> (r[i].number == to <==> slots[i].number == from))
            && (forall i :: 0 <= i < |slots| && slots[i].number != from ==> r[i] == slots[i])
            && from !in Labels(r)
  {
    var r := Relabelled(slots, from, to);
    forall i | 0 <= i < |slots|
      ensures r[i].number == to <==> slots[i].number == from
    {
      assert slots[i] in slots;
    }
    forall s | s in r
      ensures s.number != from
    {
      var i :| 0 <= i < |r| && r[i] == s;
      assert slots[i] in slots;
    }
  }

  // ----- The views -----

  /** The edit form: the new number as text and the submit button's
      action. */
  datatype EditForm = EditForm(number: string, action: string)

  const DeleteAction := "delete"

  class SlotTable {
    const keying: Keying
    var slots: seq<Slot>
    /** The notification calls made so far. */
    var notices: seq<Notice>

    constructor (keying: Keying, slots: seq<Slot>)
      ensures this.keying == keying && this.slots == slots && notices == []
    {
      this.keying := keying;
      this.slots := slots;
      this.notices := [];
    }

    /** The POST of create. start is the parsed start date and time, None
        where strptime raises; toUtc is the time zone conversion. */
    method Create(form: CreateForm, start: Option<int>, toUtc: int -> int) returns (outcome: Outcome)
      modifies this
      ensures var check := CheckCreate(keying, form, Labels(old(slots)));
        match check
        case CheckCrash => outcome == Crashed && slots == old(slots) && notices == old(notices)
        case CheckFail(m) => outcome == Flashed(m) && slots == old(slots) && notices == old(notices)
        case Go(number, count, spacing) =>
          if start.None? || count <= 0 then
            outcome == Crashed && slots == old(slots) && notices == old(notices)
          else
            var created := Converted(Generated(number, start.value, spacing, count), toUtc);
            outcome == Redirected(None) && created != []
            && slots == old(slots) + created
            && notices == old(notices) + CreateNotices(number, created)
    {
      var check := CheckCreate(keying, form, Labels(slots));
      if check.CheckCrash? {
        return Crashed;
      }
      if check.CheckFail? {
        return Flashed(check.message);
      }
      if start.None? {
        // strptime raises
        return Crashed;
      }
      var generated := Generate(check.number, start.value, check.spacing, check.count);
      var created := Converted(generated, toUtc);
      if created == [] {
        // slots[-1] on an empty list
        return Crashed;
      }
      slots := slots + created;
      notices := notices + CreateNotices(check.number, created);
      outcome := Redirected(None);
    }

    /** The POST of edit for the slots numbered number, at time now. */
    method Edit(number: int, form: EditForm, now: int) returns (outcome: Outcome)
      modifies this
      ensures Text.Lower(form.action) == DeleteAction ==>
        var closed := ClosedCount(old(slots), number, now);
        outcome == Redirected(if closed > 0 then Some(StillClosed(keying, number, closed)) else None)
        && slots == DeleteFuture(old(slots), number, now)
        && notices == old(notices) + [PeriodBegunRemoved(number), PeriodEndRemoved(number), AuctionsCloseRemoved(number)]
      ensures Text.Lower(form.action) != DeleteAction ==> notices == old(notices)
      ensures Text.Lower(form.action) != DeleteAction && Text.ParseInt(form.number).None? ==>
        outcome == Crashed && slots == old(slots)
      ensures Text.Lower(form.action) != DeleteAction && Text.ParseInt(form.number).Some? ==>
        var n := Text.ParseInt(form.number).value;
        if n in Labels(old(slots)) then outcome == Flashed(AlreadyExists(keying, n)) && slots == old(slots)
        else if n != number then outcome == Redirected(None) && slots == Relabelled(old(slots), number, n)
        else outcome == Rendered && slots == old(slots)
    {
      if Text.Lower(form.action) == DeleteAction {
        var closed := ClosedCount(slots, number, now);
        var warning := if closed > 0 then Some(StillClosed(keying, number, closed)) else None;
        slots := DeleteFuture(slots, number, now);
        notices := notices + [PeriodBegunRemoved(number), PeriodEndRemoved(number), AuctionsCloseRemoved(number)];
        return Redirected(warning);
      }
      var n := Text.ParseInt(form.number);
      if n.None? {
        // int() raises ValueError, the empty text included
        return Crashed;
      }
      if n.value in Labels(slots) {
        return Flashed(AlreadyExists(keying, n.value));
      }
      if n.value != number {
        slots := Relabel(slots, number, n.value);
        return Redirected(None);
      }
      outcome := Rendered;
    }

    /** The delete view, as it evidently means to work: the number's slots
        that have not closed are deleted, and the closed ones are
        counted in a warning. */
    method Delete(number: int, now: int) returns (outcome: Outcome)
      modifies this
      ensures var closed := ClosedCount(old(slots), number, now);
        outcome == Redirected(if closed > 0 then Some(StillClosed(keying, number, closed)) else None)
      ensures slots == DeleteFuture(old(slots), number, now) && notices == old(notices)
    {
      var closed := ClosedCount(slots, number, now);
      var warning := if closed > 0 then Some(StillClosed(keying, number, closed)) else None;
      slots := DeleteFuture(slots, number, now);
      outcome := Redirected(warning);
    }
  }
}
