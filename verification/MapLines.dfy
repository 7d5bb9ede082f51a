/** The map file: a line per room, printed from the zones and read by whoever looks for a way. */
module MapLines {
  import opened Text
  import Way

  /** A room as the zones have it; an exit is `dir=to`, where `to` may end in a door mark. */
  datatype ZoneRoom = ZoneRoom(id: string, title: string, exits: seq<string>, sector: string)

  // ----- printing

  function ExitsField(exits: seq<string>): string {
    if exits == [] then "" else Join(exits, ' ')
  }

  function Line(r: ZoneRoom): string {
    Join([r.id, r.title, ExitsField(r.exits), r.sector], '\t')
  }

  method PrintMap(world: seq<ZoneRoom>) returns (text: string)
    ensures text == Printed(world)
  {
    text := "";
    for k := 0 to |world|
      invariant text + Printed(world[k..]) == Printed(world)
    {
      assert world[k..][1..] == world[k + 1..];
      Associates(text, Line(world[k]) + "\n", Printed(world[k + 1..]));
      text := text + (Line(world[k]) + "\n");
    }
  }

  function Printed(world: seq<ZoneRoom>): string {
    if world == [] then "" else Line(world[0]) + "\n" + Printed(world[1..])
  }

  // ----- reading

  predicate LineBreak(c: char) {
    '\n' <= c <= '\r' || '\U{1C}' <= c <= '\U{1E}' || c == '\U{85}' || c == '\U{2028}' || c == '\U{2029}'
  }

  function LineLength(s: string): (n: nat)
    ensures n <= |s|
    ensures forall k :: 0 <= k < n ==> !LineBreak(s[k])
    ensures n < |s| ==> LineBreak(s[n])
  {
    if s == "" || LineBreak(s[0]) then 0 else 1 + LineLength(s[1..])
  }

  /** `s.splitlines()`. */
  function SplitLines(s: string): seq<string>
    decreases |s|
  {
    if s == "" then []
    else
      var n := LineLength(s);
      if n == |s| then [s]
      else [s[..n]] + SplitLines(s[if s[n] == '\r' && n + 1 < |s| && s[n + 1] == '\n' then n + 2 else n + 1..])
  }

  /** The characters that end a line, by number. */
  lemma LineBreaks(c: char)
    ensures LineBreak(c) <==> var n := c as int; 10 <= n <= 13 || 28 <= n <= 30 || n in {133, 8232, 8233}
  {
  }

  /** A line ends at any line break, and a return with a newline after it is one line break. */
  lemma LineThenRest(a: string, brk: string, rest: string)
    requires forall c :: c in a ==> !LineBreak(c)
    requires brk == "\r\n" || (|brk| == 1 && LineBreak(brk[0]) && !("\r" <= brk && "\n" <= rest))
    ensures SplitLines(a + brk + rest) == [a] + SplitLines(rest)
    ensures SplitLines(a) == if a == "" then [] else [a]
  {
    var s, n := a + brk + rest, |a|;
    LineLengthIs(a, brk + rest);
    Associates(a, brk, rest);
    assert s[n] == brk[0] && s[..n] == a && (|brk| == 2 ==> s[n + 1] == brk[1]);
    assert |brk| == 1 && |s| > n + 1 ==> s[n + 1] == rest[0];
    assert s[n + |brk|..] == rest;
    LineLengthIs(a, "");
    assert a + "" == a;
  }

  /** `e.partition("=")[::2]`. */
  function Partition(e: string): Way.Exit {
    var k := IndexOf(e, '=');
    Way.Exit(e[..k], if k < |e| then e[k + 1..] else "")
  }

  function Exits(words: seq<string>): seq<Way.Exit> {
    if words == [] then [] else [Partition(words[0])] + Exits(words[1..])
  }

  /** Every exit is read, each where it stands. */
  lemma {:induction false} ExitsExactly(words: seq<string>, k: nat)
    requires k < |words|
    ensures |Exits(words)| == |words| && Exits(words)[k] == Partition(words[k])
  {
    if |words| > 1 {
      ExitsExactly(words[1..], if k == 0 then 0 else k - 1);
    } else {
      assert Exits(words[1..]) == [];
    }
  }

  /** An exit is read as what is before its first equals sign and what is after it. */
  lemma PartitionExactly(e: string)
    ensures var exit := Partition(e);
      '=' !in exit.dir && e == exit.dir + (if '=' in e then "=" + exit.to else "") && ('=' in e || exit.to == "")
  {
    var k := IndexOf(e, '=');
    assert e == e[..k] + e[k..];
    assert k < |e| ==> e[k..] == "=" + e[k + 1..];
  }

  /** A line of the map: the room's id, and what is known of it. Fields that are missing are empty. */
  function ReadLine(line: string): (string, Way.Room) {
    var f := Split(line, '\t') + ["", "", ""];
    (f[0], Way.Room(f[1], Exits(Words(f[2])), "water" <= f[3]))
  }

  function ReadLines(lines: seq<string>): map<string, Way.Room> {
    if lines == [] then map[]
    else var (id, room) := ReadLine(lines[|lines| - 1]); ReadLines(lines[..|lines| - 1])[id := room]
  }

  method ReadMap(text: string) returns (rooms: map<string, Way.Room>)
    ensures rooms == ReadLines(SplitLines(text))
  {
    var lines := SplitLines(text);
    rooms := map[];
    for k := 0 to |lines|
      invariant rooms == ReadLines(lines[..k])
    {
      assert lines[..k + 1][..k] == lines[..k];
      var (id, room) := ReadLine(lines[k]);
      rooms := rooms[id := room];
    }
    assert lines[..|lines|] == lines;
  }

  // ----- round trip

  predicate FieldText(s: string) {
    forall c :: c in s ==> c != '\t' && !LineBreak(c)
  }

  /** An exit that can be read back: no white space, and no = in the direction. */
  predicate ExitText(e: string) {
    '=' in e && forall c :: c in e ==> !IsSpace(c)
  }

  predicate Printable(r: ZoneRoom) {
    FieldText(r.id) && FieldText(r.title) && FieldText(r.sector) && forall e :: e in r.exits ==> ExitText(e)
  }

  /** The room as the reader should see it. */
  function Seen(r: ZoneRoom): Way.Room {
    Way.Room(r.title, Exits(r.exits), "water" <= r.sector)
  }

  /** What is known of a room is what was printed of it: title, each exit with its direction and destination, water. */
  predicate Tells(room: Way.Room, r: ZoneRoom) {
    && room.title == r.title
    && |room.exits| == |r.exits|
    && (forall k :: 0 <= k < |r.exits| ==>
          '=' !in room.exits[k].dir && r.exits[k] == room.exits[k].dir + "=" + room.exits[k].to)
    && room.water == Wet(r.sector)
  }

  /** The sectors of water are those whose names begin so. */
  predicate Wet(sector: string) {
    |sector| >= 5 && sector[..5] == "water"
  }

  lemma SeenTells(r: ZoneRoom)
    requires Printable(r)
    ensures Tells(Seen(r), r)
  {
    forall k | 0 <= k < |r.exits|
      ensures |Seen(r).exits| == |r.exits| && '=' !in Seen(r).exits[k].dir
      ensures r.exits[k] == Seen(r).exits[k].dir + "=" + Seen(r).exits[k].to
    {
      ExitsExactly(r.exits, k);
      PartitionExactly(r.exits[k]);
      assert ExitText(r.exits[k]);
      Associates(Seen(r).exits[k].dir, "=", Seen(r).exits[k].to);
    }
  }

  lemma {:induction false} SeenAllIds(world: seq<ZoneRoom>, id: string)
    ensures id in SeenAll(world) <==> exists r :: r in world && r.id == id
  {
    if world != [] {
      var n := |world| - 1;
      SeenAllIds(world[..n], id);
      assert forall r :: r in world <==> r in world[..n] || r == world[n];
    }
  }

  /** No room after the k-th has its id. */
  ghost predicate LastOfId(world: seq<ZoneRoom>, k: nat)
    requires k < |world|
  {
    forall j :: k < j < |world| ==> world[j].id != world[k].id
  }

  lemma {:induction false} SeenAllTells(world: seq<ZoneRoom>, k: nat)
    requires k < |world| && Printable(world[k]) && LastOfId(world, k)
    ensures world[k].id in SeenAll(world) && Tells(SeenAll(world)[world[k].id], world[k])
  {
    var n := |world| - 1;
    if k == n {
      SeenTells(world[n]);
    } else {
      var before := world[..n];
      assert before[k] == world[k];
      forall j | k < j < n ensures before[j].id != before[k].id {
        assert before[j] == world[j];
      }
      SeenAllTells(before, k);
    }
  }

  /** The map as the reader should see it: of rooms with the same id, the last. */
  function SeenAll(world: seq<ZoneRoom>): map<string, Way.Room> {
    if world == [] then map[]
    else SeenAll(world[..|world| - 1])[world[|world| - 1].id := Seen(world[|world| - 1])]
  }

  lemma ExitsText(exits: seq<string>)
    requires forall e :: e in exits ==> ExitText(e)
    ensures FieldText(ExitsField(exits)) && Words(ExitsField(exits)) == exits
  {
    if exits != [] {
      assert forall e :: e in exits ==> e != "";
      WordsOfJoin(exits);
      JoinText(exits, ' ');
    }
  }

  function Field(parts: seq<string>, k: nat): string {
    if k < |parts| then parts[k] else ""
  }

  /** A line with fewer fields is read as if the missing ones were empty, and more are passed over. */
  lemma FieldsRead(parts: seq<string>)
    requires parts != [] && forall p :: p in parts ==> '\t' !in p
    ensures var (id, room) := ReadLine(Join(parts, '\t'));
      && id == parts[0] && room.title == Field(parts, 1) && room.exits == Exits(Words(Field(parts, 2)))
      && room.water == Wet(Field(parts, 3))
  {
    SplitJoin(parts, '\t');
    var f := parts + ["", "", ""];
    assert f[0] == parts[0] && f[1] == Field(parts, 1) && f[2] == Field(parts, 2) && f[3] == Field(parts, 3);
    WetExactly(f[3]);
  }

  lemma WetExactly(sector: string)
    ensures "water" <= sector <==> Wet(sector)
  {
  }

  /** A printed line reads back as its room. */
  lemma LineRoundTrip(r: ZoneRoom)
    requires Printable(r)
    ensures ReadLine(Line(r)) == (r.id, Seen(r)) && forall c :: c in Line(r) ==> !LineBreak(c)
  {
    ExitsText(r.exits);
    var parts := [r.id, r.title, ExitsField(r.exits), r.sector];
    assert forall p :: p in parts ==> FieldText(p);
    SplitJoin(parts, '\t');
    JoinText(parts, '\t');
  }

  lemma {:induction false} LineLengthIs(a: string, b: string)
    requires (forall c :: c in a ==> !LineBreak(c)) && (b == "" || LineBreak(b[0]))
    ensures LineLength(a + b) == |a|
  {
    if a == "" {
      assert a + b == b;
    } else {
      assert a[0] in a;
      DropPrefix(a, b, 1);
      LineLengthIs(a[1..], b);
    }
  }

  function Lines(world: seq<ZoneRoom>): seq<string> {
    if world == [] then [] else [Line(world[0])] + Lines(world[1..])
  }

  lemma {:induction false} PrintedLines(world: seq<ZoneRoom>)
    requires forall r :: r in world ==> Printable(r)
    ensures SplitLines(Printed(world)) == Lines(world)
  {
    if world != [] {
      var line, rest := Line(world[0]), Printed(world[1..]);
      LineRoundTrip(world[0]);
      LineThenRest(line, "\n", rest);
      PrintedLines(world[1..]);
    }
  }

  lemma {:induction false} LinesLast(world: seq<ZoneRoom>)
    requires world != []
    ensures Lines(world) == Lines(world[..|world| - 1]) + [Line(world[|world| - 1])]
  {
    if |world| > 1 {
      LinesLast(world[1..]);
      assert world[1..][..|world| - 2] == world[..|world| - 1][1..];
    }
  }

  lemma {:induction false} LinesRead(world: seq<ZoneRoom>)
    requires forall r :: r in world ==> Printable(r)
    ensures ReadLines(Lines(world)) == SeenAll(world)
  {
    if world != [] {
      var n := |world| - 1;
      LinesLast(world);
      LineRoundTrip(world[n]);
      LinesRead(world[..n]);
      assert Lines(world)[..|Lines(world)| - 1] == Lines(world[..n]);
    }
  }

  /** Reading the printed map gives every room with its title, its exits in order with their marks, and its water. */
  lemma {:induction false} MapRoundTrip(world: seq<ZoneRoom>)
    requires forall r :: r in world ==> Printable(r)
    ensures var rooms := ReadLines(SplitLines(Printed(world)));
      && rooms == SeenAll(world)
      && (forall id :: id in rooms <==> exists r :: r in world && r.id == id)
      && (forall k :: 0 <= k < |world| && LastOfId(world, k) ==>
            world[k].id in rooms && Tells(rooms[world[k].id], world[k]))
  {
    PrintedLines(world);
    LinesRead(world);
    forall id ensures id in SeenAll(world) <==> exists r :: r in world && r.id == id {
      SeenAllIds(world, id);
    }
    forall k | 0 <= k < |world| && LastOfId(world, k)
      ensures world[k].id in SeenAll(world) && Tells(SeenAll(world)[world[k].id], world[k])
    {
      SeenAllTells(world, k);
    }
  }

  /** An exit printed as `dir=to` is read as that direction and that destination, door mark and all. */
  lemma ExitRoundTrip(dir: string, to: string)
    requires '=' !in dir
    ensures Partition(dir + ['='] + to) == Way.Exit(dir, to)
  {
    IndexOfFirst(dir, '=', to);
    assert (dir + ['='] + to)[..|dir|] == dir && (dir + ['='] + to)[|dir| + 1..] == to;
  }
}
