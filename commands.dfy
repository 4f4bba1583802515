/** The init-db command: the tables are dropped and created again, then
    filled from players.csv and slots.csv. Each players.csv line loses its
    surrounding newlines and every double quote and is split on commas; the
    first four columns give the player's Fantrax id, name, team and
    position. Each slots.csv line loses its surrounding newlines only; its
    first column is the block and its second the closing time. Reading the
    files (and their UTF-8 decoding) is outside the model: the lines are
    given; the time format is read by a parameter. */
module Commands {
  import opened Wrappers
  import Text
  import Model

  // ----- players.csv -----

  /** A players.csv line with its newlines and quotes taken out. */
  function CleanLine(line: string): (r: string)
    ensures Text.Free(r, '"')
  {
    Text.Remove(Text.Strip(line, '\n'), '"')
  }

  /** The columns of a players.csv line: as many as there are commas plus
      one, none holding a comma or a quote, and joining them with commas
      gives the cleaned line back. */
  function PlayerFields(line: string): (r: seq<string>)
    ensures |r| == Text.Count(CleanLine(line), ',') + 1
    ensures forall k :: 0 <= k < |r| ==> Text.Free(r[k], ',') && Text.Free(r[k], '"')
    ensures Text.Join(r, ",") == CleanLine(line)
  {
    Text.SplitJoin(CleanLine(line), ',');
    Text.SplitKeepsFree(CleanLine(line), ',', '"');
    Text.Split(CleanLine(line), ',')
  }

  /** A line written from clean columns is read back as those columns. */
  lemma PlayerLineRoundTrip(fields: seq<string>)
    requires |fields| >= 1
    requires forall k :: 0 <= k < |fields| ==>
               Text.Free(fields[k], ',') && Text.Free(fields[k], '"') && Text.Free(fields[k], '\n')
    ensures PlayerFields(Text.Join(fields, ",") + "\n") == fields
  {
    var body := Text.Join(fields, ",");
    Text.JoinKeepsFree(fields, ',', '\n');
    Text.JoinKeepsFree(fields, ',', '"');
    StripNewline(body);
    Text.RemoveAbsent(body, '"');
    Text.JoinSplit(fields, ',');
  }

  /** The newline that ends a line is stripped. */
  lemma StripNewline(body: string)
    requires Text.Free(body, '\n')
    ensures Text.Strip(body + "\n", '\n') == body
  {
    var s := body + "\n";
    if body != [] {
      assert s[0] == body[0];
      assert s[..|s| - 1] == body;
    } else {
      assert s[1..] == [];
    }
  }

  /** The player rows, numbered from 1 in file order, or None when a line
      has fewer than four columns (IndexError). */
  function PlayerRows(lines: seq<string>): (r: Option<seq<Model.Player>>)
    ensures r.None? <==> exists i :: 0 <= i < |lines| && |PlayerFields(lines[i])| < 4
    ensures r.Some? ==> |r.value| == |lines|
    ensures r.Some? ==> forall i :: 0 <= i < |lines| ==>
              var f := PlayerFields(lines[i]);
              r.value[i] == Model.NewPlayer(i + 1, f[0], f[1], f[2], f[3])
  {
    if exists i :: 0 <= i < |lines| && |PlayerFields(lines[i])| < 4 then None
    else Some(seq(|lines|, i requires 0 <= i < |lines| =>
                var f := PlayerFields(lines[i]);
                Model.NewPlayer(i + 1, f[0], f[1], f[2], f[3])))
  }

  /** Columns past the fourth play no part: two lines that agree on their
      first four columns give the same player. */
  lemma ExtraColumnsIgnored(a: string, b: string)
    requires |PlayerFields(a)| >= 4 && |PlayerFields(b)| >= 4
    requires PlayerFields(a)[..4] == PlayerFields(b)[..4]
    ensures PlayerRows([a]) == PlayerRows([b])
  {
    var fa, fb := PlayerFields(a), PlayerFields(b);
    assert forall k :: 0 <= k < 4 ==> fa[k] == fa[..4][k] && fb[k] == fb[..4][k];
    assert [a][0] == a && [b][0] == b;
    var ra, rb := PlayerRows([a]), PlayerRows([b]);
    assert ra.Some? && rb.Some?;
    assert ra.value[0] == rb.value[0];
    assert ra.value == [ra.value[0]] && rb.value == [rb.value[0]];
  }

  /** The unique Fantrax id column accepts the rows. */
  predicate DistinctFantraxIds(rows: seq<Model.Player>) {
    forall i, j :: 0 <= i < j < |rows| ==> rows[i].fantraxId != rows[j].fantraxId
  }

  // ----- slots.csv -----

  /** The columns of a slots.csv line: quotes are kept. */
  function SlotFields(line: string): (r: seq<string>)
    ensures |r| == Text.Count(Text.Strip(line, '\n'), ',') + 1
    ensures Text.Join(r, ",") == Text.Strip(line, '\n')
  {
    Text.SplitJoin(Text.Strip(line, '\n'), ',');
    Text.Split(Text.Strip(line, '\n'), ',')
  }

  /** What a slots.csv line supplies: the block text and the closing time. */
  datatype SlotSeed = SlotSeed(block: string, closesAt: int)

  /** A line yields a slot when it has two columns and its time parses. */
  predicate SlotLineOk(line: string, parseTime: string -> Option<int>) {
    |SlotFields(line)| >= 2 && parseTime(SlotFields(line)[1]).Some?
  }

  /** The slot rows, or None when a line is short (IndexError) or its time
      does not parse (ValueError). */
  function SlotRows(lines: seq<string>, parseTime: string -> Option<int>): (r: Option<seq<SlotSeed>>)
    ensures r.None? <==> exists i :: 0 <= i < |lines| && !SlotLineOk(lines[i], parseTime)
    ensures r.Some? ==> |r.value| == |lines|
    ensures r.Some? ==> forall i :: 0 <= i < |lines| ==>
              r.value[i].block == SlotFields(lines[i])[0]
              && Some(r.value[i].closesAt) == parseTime(SlotFields(lines[i])[1])
  {
    if exists i :: 0 <= i < |lines| && !SlotLineOk(lines[i], parseTime) then None
    else Some(seq(|lines|, i requires 0 <= i < |lines| =>
                SlotSeed(SlotFields(lines[i])[0], parseTime(SlotFields(lines[i])[1]).value)))
  }

  // ----- The import -----

  datatype Tables = Tables(players: seq<Model.Player>, slots: seq<SlotSeed>)

  /** init_db as written: the slot rows are built with keyword arguments
      the slot table does not declare, which raises TypeError on the first
      slots.csv line; the tables are already dropped by then. */
  function ImportAsWritten(playerLines: seq<string>, slotLines: seq<string>): (r: Option<Tables>)
    ensures slotLines != [] ==> r.None?
    ensures r.Some? ==> r.value.slots == [] && PlayerRows(playerLines).Some?
  {
    var players := PlayerRows(playerLines);
    if players.None? || slotLines != [] || !DistinctFantraxIds(players.value) then None
    else Some(Tables(players.value, []))
  }

  /** init_db with the slot rows built as intended: every player and every
      slot is stored, unless a line is malformed or a Fantrax id repeats. */
  function Import(playerLines: seq<string>, slotLines: seq<string>, parseTime: string -> Option<int>)
    : (r: Option<Tables>)
    ensures r.Some? <==> PlayerRows(playerLines).Some? && DistinctFantraxIds(PlayerRows(playerLines).value)
                         && SlotRows(slotLines, parseTime).Some?
    ensures r.Some? ==> r.value == Tables(PlayerRows(playerLines).value, SlotRows(slotLines, parseTime).value)
  {
    var players := PlayerRows(playerLines);
    var slots := SlotRows(slotLines, parseTime);
    if players.None? || !DistinctFantraxIds(players.value) || slots.None? then None
    else Some(Tables(players.value, slots.value))
  }

  /** The discrepancy: with well-formed files holding at least one slot,
      the intended import stores every player while the code as written
      stores nothing. */
  lemma AsWrittenLosesImport(playerLines: seq<string>, slotLines: seq<string>, parseTime: string -> Option<int>)
    requires forall i :: 0 <= i < |playerLines| ==> |PlayerFields(playerLines[i])| >= 4
    requires DistinctFantraxIds(PlayerRows(playerLines).value)
    requires slotLines != [] && forall i :: 0 <= i < |slotLines| ==> SlotLineOk(slotLines[i], parseTime)
    ensures Import(playerLines, slotLines, parseTime).Some?
    ensures |Import(playerLines, slotLines, parseTime).value.players| == |playerLines|
    ensures |Import(playerLines, slotLines, parseTime).value.slots| == |slotLines|
    ensures ImportAsWritten(playerLines, slotLines).None?
  {
  }

  /** The database the command rebuilds. */
  class Database {
    var players: seq<Model.Player>
    var slots: seq<SlotSeed>

    constructor()
      ensures players == [] && slots == []
    {
      players, slots := [], [];
    }

    /** init_db as written: the tables end up empty whenever slots.csv has
        a line. */
    method InitDbAsWritten(playerLines: seq<string>, slotLines: seq<string>) returns (crashed: bool)
      modifies this
      ensures crashed <==> ImportAsWritten(playerLines, slotLines).None?
      ensures crashed ==> players == [] && slots == []
      ensures !crashed ==> Tables(players, slots) == ImportAsWritten(playerLines, slotLines).value
    {
      players, slots := [], [];
      var rows := PlayerRows(playerLines);
      if rows.None? || slotLines != [] {
        // IndexError on a short line, or TypeError from the slot row
        return true;
      }
      if !DistinctFantraxIds(rows.value) {
        // IntegrityError at commit
        return true;
      }
      players := rows.value;
      crashed := false;
    }

    /** init_db with the slot rows built as intended. */
    method InitDb(playerLines: seq<string>, slotLines: seq<string>, parseTime: string -> Option<int>)
      returns (crashed: bool)
      modifies this
      ensures crashed <==> Import(playerLines, slotLines, parseTime).None?
      ensures crashed ==> players == [] && slots == []
      ensures !crashed ==> Tables(players, slots) == Import(playerLines, slotLines, parseTime).value
    {
      players, slots := [], [];
      var rows := PlayerRows(playerLines);
      if rows.None? {
        return true;
      }
      var slotRows := SlotRows(slotLines, parseTime);
      if slotRows.None? || !DistinctFantraxIds(rows.value) {
        return true;
      }
      players, slots := rows.value, slotRows.value;
      crashed := false;
    }
  }
}
