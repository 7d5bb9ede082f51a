/** The data of a teacher: ten header fields, and then records of varying length. */
module TeachData {
  import opened Text

  /** What can be practised: its name, the highest value, and the guild level it takes. */
  datatype Entry = Entry(name: string, top: int, level: int)

  datatype Teacher = Teacher(kind: string, profession: string, guild: string, entries: seq<Entry>)

  /** The fields of the text, without the white space around them. */
  function Fields(s: string): seq<string> {
    var parts := Split(s, ';');
    seq(|parts|, i requires 0 <= i < |parts| => Text.Strip(parts[i]))
  }

  predicate Closes(field: string) { field == "0" || field == "" }

  /** The number of point costs before the 0 that closes a record. */
  function Costs(rest: seq<string>): (n: nat)
    ensures n <= |rest|
  {
    if rest == [] || Closes(rest[0]) then 0 else 1 + Costs(rest[1..])
  }

  /** Whether a record starts the fields. */
  predicate Starts(rest: seq<string>) {
    |rest| >= 5 && rest[0] != "" && ParseInt(rest[0]).Some? && ParseInt(rest[1]).Some?
  }

  /** All records at the start of the fields. */
  function Entries(rest: seq<string>): seq<Entry>
    decreases |rest|
  {
    if !Starts(rest) then []
    else
      var n := 5 + Costs(rest[5..]);
      [Entry(rest[2], ParseInt(rest[1]).value, ParseInt(rest[0]).value)]
      + Entries(if n < |rest| then rest[n + 1..] else [])
  }

  lemma {:induction false} CostsAre(rest: seq<string>, n: nat)
    requires n <= |rest| && (forall k :: 0 <= k < n ==> !Closes(rest[k])) && (n < |rest| ==> Closes(rest[n]))
    ensures Costs(rest) == n
  {
    if n > 0 {
      CostsAre(rest[1..], n - 1);
    }
  }

  /** The records from field `i` on. */
  function From(rest: seq<string>, i: nat): seq<Entry> {
    if i <= |rest| then Entries(rest[i..]) else []
  }

  lemma FromStep(rest: seq<string>, i: nat, j: nat)
    requires i + 5 <= j <= |rest| && rest[i] != "" && ParseInt(rest[i]).Some? && ParseInt(rest[i + 1]).Some?
    requires (forall k :: i + 5 <= k < j ==> !Closes(rest[k])) && (j < |rest| ==> Closes(rest[j]))
    ensures var entry := Entry(rest[i + 2], ParseInt(rest[i + 1]).value, ParseInt(rest[i]).value);
      From(rest, i) == [entry] + From(rest, j + 1)
  {
    var here := rest[i..];
    assert here[5..] == rest[i + 5..];
    CostsAre(rest[i + 5..], j - i - 5);
    assert j < |rest| ==> here[j - i + 1..] == rest[j + 1..];
    assert here[0] == rest[i] && here[1] == rest[i + 1] && here[2] == rest[i + 2];
    assert From(rest, j + 1) == Entries(if j - i < |here| then here[j - i + 1..] else []);
  }

  /** The entries taken so far, and those from field `i` on, are all. */
  ghost predicate Taken(rest: seq<string>, i: nat, taken: seq<Entry>) {
    taken + From(rest, i) == Entries(rest)
  }

  lemma EntryTaken(rest: seq<string>, i: nat, j: nat, taken: seq<Entry>, e: Entry)
    requires i + 5 <= j <= |rest| && rest[i] != "" && ParseInt(rest[i]).Some? && ParseInt(rest[i + 1]).Some?
    requires (forall k :: i + 5 <= k < j ==> !Closes(rest[k])) && (j < |rest| ==> Closes(rest[j]))
    requires e == Entry(rest[i + 2], ParseInt(rest[i + 1]).value, ParseInt(rest[i]).value)
    requires Taken(rest, i, taken)
    ensures Taken(rest, j + 1, taken + [e])
  {
    FromStep(rest, i, j);
    Associates(taken, [e], From(rest, j + 1));
  }

  lemma AllTaken(rest: seq<string>, i: nat, taken: seq<Entry>)
    requires i + 5 > |rest| || rest[i] == "" || ParseInt(rest[i]).None? || ParseInt(rest[i + 1]).None?
    requires Taken(rest, i, taken)
    ensures taken == Entries(rest)
  {
    FromEnd(rest, i);
    assert taken + [] == taken;
  }

  lemma NoneTaken(rest: seq<string>)
    ensures Taken(rest, 0, [])
  {
    assert rest[0..] == rest && [] + Entries(rest) == Entries(rest);
  }

  lemma FromEnd(rest: seq<string>, i: nat)
    requires i + 5 > |rest| || rest[i] == "" || ParseInt(rest[i]).None? || ParseInt(rest[i + 1]).None?
    ensures From(rest, i) == []
  {
    if i + 5 <= |rest| {
      assert rest[i..][0] == rest[i] && rest[i..][1] == rest[i + 1];
    }
  }

  /** Past the obsolete point costs that start at `from`. */
  method SkipCosts(rest: seq<string>, from: nat) returns (j: nat)
    requires from <= |rest|
    ensures from <= j <= |rest| && (forall k :: from <= k < j ==> !Closes(rest[k])) && (j < |rest| ==> Closes(rest[j]))
  {
    j := from;
    while j < |rest| && !Closes(rest[j])
      invariant from <= j <= |rest| && forall k :: from <= k < j ==> !Closes(rest[k])
    {
      j := j + 1;
    }
  }

  method ReadEntries(rest: seq<string>) returns (entries: seq<Entry>)
    ensures entries == Entries(rest)
  {
    var i: nat := 0;
    entries := [];
    NoneTaken(rest);
    while i + 5 <= |rest| && rest[i] != ""
      invariant Taken(rest, i, entries)
      decreases |rest| - i
    {
      var level, top := ParseInt(rest[i]), ParseInt(rest[i + 1]);
      if level.None? || top.None? {
        break;
      }
      var e := Entry(rest[i + 2], top.value, level.value);
      var j := SkipCosts(rest, i + 5);
      EntryTaken(rest, i, j, entries, e);
      entries, i := entries + [e], j + 1;
    }
    AllTaken(rest, i, entries);
  }

  /** What the text of a teacher says; None when there are not even ten fields. */
  function Parsed(s: string): Option<Teacher> {
    var fields := Fields(s);
    if |fields| < 10 then None
    else Some(Teacher(fields[0], fields[1], fields[2], Entries(fields[10..])))
  }

  method ReadTeacher(s: string) returns (t: Option<Teacher>)
    ensures t == Parsed(s)
  {
    var fields := Fields(s);
    if |fields| < 10 {
      return None;
    }
    var entries := ReadEntries(fields[10..]);
    return Some(Teacher(fields[0], fields[1], fields[2], entries));
  }

  // ----- what a teacher's text says

  /** A record as it is written. */
  datatype Row = Row(level: string, top: string, name: string, goldMin: string, goldMax: string, costs: seq<string>)

  predicate WellFormed(r: Row) {
    ParseInt(r.level).Some? && ParseInt(r.top).Some? && forall c :: c in r.costs ==> !Closes(c)
  }

  function Written(r: Row): seq<string> {
    [r.level, r.top, r.name, r.goldMin, r.goldMax] + (r.costs + ["0"])
  }

  function AllWritten(rows: seq<Row>): seq<string> {
    if rows == [] then [] else Written(rows[0]) + AllWritten(rows[1..])
  }

  function EntryOf(r: Row): Entry
    requires WellFormed(r)
  {
    Entry(r.name, ParseInt(r.top).value, ParseInt(r.level).value)
  }

  function EntriesOf(rows: seq<Row>): seq<Entry>
    requires forall r :: r in rows ==> WellFormed(r)
  {
    if rows == [] then [] else [EntryOf(rows[0])] + EntriesOf(rows[1..])
  }

  lemma RowTo(h: seq<string>, costs: seq<string>, tail: seq<string>)
    requires |h| == 5 && h[0] != "" && ParseInt(h[0]).Some? && ParseInt(h[1]).Some?
    requires (forall c :: c in costs ==> !Closes(c)) && (tail != [] ==> Closes(tail[0]))
    ensures Entries(h + (costs + tail))
         == [Entry(h[2], ParseInt(h[1]).value, ParseInt(h[0]).value)] + Entries(if tail == [] then [] else tail[1..])
  {
    var rest, n := h + (costs + tail), |costs|;
    assert rest[5..] == costs + tail && rest[0] == h[0] && rest[1] == h[1] && rest[2] == h[2];
    assert forall k :: 0 <= k < n ==> (costs + tail)[k] == costs[k] && costs[k] in costs;
    CostsAre(rest[5..], n);
    assert tail != [] ==> rest[5 + n + 1..] == tail[1..];
  }

  lemma RowRead(r: Row, more: seq<string>)
    requires WellFormed(r)
    ensures Entries(Written(r) + more) == [EntryOf(r)] + Entries(more)
  {
    var h := [r.level, r.top, r.name, r.goldMin, r.goldMax];
    assert ParseInt("") == None;
    assert Written(r) + more == h + (r.costs + (["0"] + more));
    DropPrefix(["0"], more, 1);
    RowTo(h, r.costs, ["0"] + more);
  }

  /** A record is closed by a 0, by an empty field, or by the end, and what its costs are makes no difference. */
  lemma RowClosed(level: string, top: string, name: string, goldMin: string, goldMax: string, costs: seq<string>,
                  close: string, more: seq<string>)
    requires ParseInt(level).Some? && ParseInt(top).Some? && forall c :: c in costs ==> c != "0" && c != ""
    ensures var row := [level, top, name, goldMin, goldMax];
      var entry := Entry(name, ParseInt(top).value, ParseInt(level).value);
      && (close == "0" || close == "" ==> Entries(row + (costs + ([close] + more))) == [entry] + Entries(more))
      && Entries(row + (costs + [])) == [entry] + []
  {
    var row := [level, top, name, goldMin, goldMax];
    assert ParseInt("") == None;
    if close == "0" || close == "" {
      DropPrefix([close], more, 1);
      RowTo(row, costs, [close] + more);
    }
    RowTo(row, costs, []);
    assert Entries([]) == [];
  }

  /** The records end where less than five fields are left, or the first is empty, or a level or limit is no number. */
  lemma EntriesEnd(rest: seq<string>)
    ensures Entries(rest) == [] <==>
      |rest| < 5 || rest[0] == "" || ParseInt(rest[0]).None? || ParseInt(rest[1]).None?
  {
  }

  lemma {:induction false} RowsRead(rows: seq<Row>, end: seq<string>)
    requires (forall r :: r in rows ==> WellFormed(r)) && !Starts(end)
    ensures Entries(AllWritten(rows) + end) == EntriesOf(rows)
  {
    if rows == [] {
      assert AllWritten(rows) + end == end;
    } else {
      Associates(Written(rows[0]), AllWritten(rows[1..]), end);
      RowRead(rows[0], AllWritten(rows[1..]) + end);
      RowsRead(rows[1..], end);
    }
  }

  /** The text of any header and rows, its fields padded anyhow and ended anyhow, is read back as just those. */
  lemma {:induction false} ReadBack(padded: seq<string>, header: seq<string>, rows: seq<Row>, end: seq<string>)
    requires |header| == 10 && (forall r :: r in rows ==> WellFormed(r)) && !Starts(end)
    requires |padded| == |header + (AllWritten(rows) + end)|
    requires forall i :: 0 <= i < |padded| ==>
      ';' !in padded[i] && Text.Strip(padded[i]) == (header + (AllWritten(rows) + end))[i]
    ensures Parsed(Join(padded, ';')) == Some(Teacher(header[0], header[1], header[2], EntriesOf(rows)))
  {
    SplitJoin(padded, ';');
    var fields := Fields(Join(padded, ';'));
    assert fields == header + (AllWritten(rows) + end);
    assert fields[10..] == AllWritten(rows) + end;
    RowsRead(rows, end);
  }

  /** White space around the fields makes no difference. */
  lemma PaddedRead(before: seq<string>, fields: seq<string>, after: seq<string>, padded: seq<string>,
                   header: seq<string>, rows: seq<Row>, end: seq<string>)
    requires |header| == 10 && (forall r :: r in rows ==> WellFormed(r)) && !Starts(end)
    requires fields == header + (AllWritten(rows) + end) && |before| == |fields| == |after| == |padded|
    requires forall i :: 0 <= i < |fields| ==> Blank(before[i]) && Trimmed(fields[i]) && Blank(after[i])
    requires forall i :: 0 <= i < |fields| ==> padded[i] == before[i] + fields[i] + after[i] && ';' !in padded[i]
    ensures Parsed(Join(padded, ';')) == Some(Teacher(header[0], header[1], header[2], EntriesOf(rows)))
  {
    forall i | 0 <= i < |padded| ensures ';' !in padded[i] && Text.Strip(padded[i]) == fields[i] {
      StripExactly(before[i], fields[i], after[i]);
    }
    ReadBack(padded, header, rows, end);
  }

  /** No white space at either end. */
  predicate Trimmed(s: string) {
    s != "" ==> !IsSpace(s[0]) && !IsSpace(s[|s| - 1])
  }

  /** Levels and limits written as numbers are read as those numbers. */
  lemma NumbersRead(level: int, top: int, name: string, goldMin: string, goldMax: string, costs: seq<string>)
    requires forall c :: c in costs ==> !Closes(c)
    ensures var r := Row(PrintInt(level), PrintInt(top), name, goldMin, goldMax, costs);
      WellFormed(r) && EntryOf(r) == Entry(name, top, level)
  {
    ParsePrintInt(level);
    ParsePrintInt(top);
  }
}
