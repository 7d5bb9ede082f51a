/** A day's session cut down for review: repeated lines are counted, and walks are one line. */
module Daylog {
  import opened Text

  const MOVES := {
    "n", "s", "e", "w", "u", "d", "ne", "nw", "se", "sw", "north", "south", "east", "west",
    "up", "down", "northeast", "northwest", "southeast", "southwest"
  }

  /** The patterns for lines of a room's description, for lines replayed at a logon, and for lines worth keeping. */
  datatype Patterns = Patterns(descr: string -> bool, replayed: string -> bool, keep: string -> bool)

  // ----- what a line is

  datatype Item = Move(move: string) | Kept(text: string) | Room(name: string) | Left

  function WithoutBracket(s: string): string {
    if s == "" then "" else if s[0] == ']' then s[1..] else [s[0]] + WithoutBracket(s[1..])
  }

  function Upto(s: string, n: nat): string {
    if |s| <= n then s else s[..n]
  }

  /** Whether a line still belongs to the description of the room before it. */
  predicate Describes(p: Patterns, line: string) {
    line != "" && (IsSpace(line[0]) || p.descr(line))
  }

  function ItemOf(p: Patterns, line: string): Item {
    if "> " <= line then
      var cmd := Lower(Strip(line[2..]));
      if cmd in MOVES then Move(cmd) else Kept(Upto(line, 300))
    else if "[room " <= line then Room(WithoutBracket(line[6..]))
    else if Strip(line) == "" || p.replayed(line) then Left
    else if ("[" <= line && !("[x" <= line)) || p.keep(line) then Kept(Upto(line, 300))
    else Left
  }

  /** The first closing bracket is left out, and nothing else. */
  lemma {:induction false} BracketExactly(a: string, b: string)
    requires ']' !in a
    ensures WithoutBracket(a) == a && (b != "" && b[0] == ']' ==> WithoutBracket(a + b) == a + b[1..])
  {
    if a == "" {
      assert a + b == b && (b != "" ==> a + b[1..] == b[1..]);
    } else {
      assert a[0] in a;
      DropPrefix(a, b, 1);
      BracketExactly(a[1..], b);
      assert [a[0]] + a[1..] == a;
      if b != "" { Associates([a[0]], a[1..], b[1..]); }
    }
  }

  /** A typed line is a move if the command is one, whatever its capitals and the white space around it; any other is
      kept, up to 300 characters. */
  lemma TypedExactly(p: Patterns, a: string, cmd: string, b: string)
    requires Blank(a) && Blank(b) && cmd != "" && !IsSpace(cmd[0]) && !IsSpace(cmd[|cmd| - 1])
    ensures var line := "> " + (a + cmd + b);
      ItemOf(p, line)
      == if Lower(cmd) in MOVES then Move(Lower(cmd)) else Kept(line[..if |line| < 300 then |line| else 300])
  {
    var line := "> " + (a + cmd + b);
    assert line[2..] == a + cmd + b;
    StripExactly(a, cmd, b);
  }

  /** What is not typed: rooms, lines that are left out, and lines in brackets or with something to keep. */
  lemma ItemExactly(p: Patterns, name: string, line: string)
    requires ']' !in name && !("> " <= line) && !("[room " <= line)
    ensures ItemOf(p, "[room " + (name + "]")) == Room(name)
    ensures Blank(line) || p.replayed(line) ==> ItemOf(p, line) == Left
    ensures !Blank(line) && !p.replayed(line) ==>
      ItemOf(p, line) == if p.keep(line) || (line[0] == '[' && (|line| == 1 || line[1] != 'x'))
        then Kept(line[..if |line| < 300 then |line| else 300]) else Left
  {
    var room := "[room " + (name + "]");
    assert room[6..] == name + "]" && room[0] == '[';
    BracketExactly(name, "]");
    assert name + "]"[1..] == name;
    StripBlank(line);
  }

  lemma StripBlank(s: string)
    ensures Strip(s) == "" <==> Blank(s)
  {
    if Blank(s) {
      StripExactly(s, "", "");
      assert s + "" + "" == s;
    } else {
      var c :| c in s && !IsSpace(c);
      StripLeftKeeps(s, c);
      StripRightKeeps(StripLeft(s), c);
    }
  }

  lemma {:induction false} StripLeftKeeps(s: string, c: char)
    requires c in s && !IsSpace(c)
    ensures c in StripLeft(s)
  {
    if IsSpace(s[0]) {
      assert c in s[1..];
      StripLeftKeeps(s[1..], c);
    }
  }

  lemma {:induction false} StripRightKeeps(s: string, c: char)
    requires c in s && !IsSpace(c)
    ensures c in StripRight(s)
  {
    if IsSpace(s[|s| - 1]) {
      assert c in s[..|s| - 1];
      StripRightKeeps(s[..|s| - 1], c);
    }
  }

  /** After a room, what is indented or fits the pattern of a description is passed over. */
  lemma DescribesExactly(p: Patterns, line: string)
    ensures Describes(p, line) <==> line != "" && (IsSpace(line[0]) || p.descr(line))
  {
  }

  // ----- the digest, as a list of what was emitted

  datatype Emitted = Walk(moves: seq<string>, room: string) | Line(text: string)

  function Worded(e: Emitted): string {
    match e
    case Walk(moves, room) =>
      "> walk " + (if moves == [] then "" else Join(moves, ' ')) + " (" + PrintInt(|moves|) + ") to " + room
    case Line(text) => text
  }

  function AllWorded(es: seq<Emitted>): seq<string> {
    if es == [] then [] else AllWorded(es[..|es| - 1]) + [Worded(es[|es| - 1])]
  }

  /** What was emitted so far, the walk under way, the last room, and whether its description is being skipped. */
  datatype Digest = Digest(emitted: seq<Emitted>, walk: seq<string>, room: string, skip: bool)

  /** Before the first line of a log. */
  function NewDigest(): Digest {
    Digest([], [], "", false)
  }

  function Flushed(d: Digest): Digest {
    if d.walk == [] then d else d.(emitted := d.emitted + [Walk(d.walk, d.room)], walk := [])
  }

  /** The walk under way ends, and a line is kept. */
  function Keep(d: Digest, text: string): Digest {
    var f := Flushed(d);
    f.(emitted := f.emitted + [Line(text)])
  }

  function Reach(d: Digest, name: string): Digest {
    d.(room := name, skip := true, emitted := if d.walk == [] then d.emitted + [Line("  at " + name)] else d.emitted)
  }

  function TakeItem(p: Patterns, d: Digest, line: string): Digest {
    match ItemOf(p, line)
    case Move(m) => d.(walk := d.walk + [m])
    case Kept(text) => Keep(d, text)
    case Room(name) => Reach(d, name)
    case Left => d
  }

  function Take(p: Patterns, d: Digest, raw: string): Digest {
    var line := StripRight(raw);
    if d.skip && Describes(p, line) then d else TakeItem(p, d.(skip := false), line)
  }

  function TakeAll(p: Patterns, d: Digest, lines: seq<string>): Digest
    decreases |lines|
  {
    if lines == [] then d else TakeAll(p, Take(p, d, lines[0]), lines[1..])
  }

  // ----- counting repeats

  datatype Counter = Counter(line: string, count: nat)

  type Counted = seq<Counter>

  function Emit(out: Counted, line: string): Counted {
    if out != [] && out[|out| - 1].line == line then out[..|out| - 1] + [Counter(line, out[|out| - 1].count + 1)]
    else out + [Counter(line, 1)]
  }

  function Repeat(line: string, n: nat): seq<string> {
    if n == 0 then [] else Repeat(line, n - 1) + [line]
  }

  function Expand(out: Counted): seq<string> {
    if out == [] then [] else Expand(out[..|out| - 1]) + Repeat(out[|out| - 1].line, out[|out| - 1].count)
  }

  /** Every count is at least one, and lines next to each other differ. */
  predicate Condensed(out: Counted) {
    out != [] ==>
      var n := |out| - 1;
      out[n].count > 0 && (n > 0 ==> out[n - 1].line != out[n].line) && Condensed(out[..n])
  }

  lemma EmitExpands(out: Counted, line: string)
    requires Condensed(out)
    ensures Expand(Emit(out, line)) == Expand(out) + [line] && Condensed(Emit(out, line))
  {
    var n := |out| - 1;
    if out != [] && out[n].line == line {
      assert Emit(out, line)[..n] == out[..n];
      Associates(Expand(out[..n]), Repeat(line, out[n].count), [line]);
    } else {
      assert (out + [Counter(line, 1)])[..|out|] == out;
      assert Repeat(line, 1) == Repeat(line, 0) + [line];
    }
  }

  lemma {:induction false} RepeatEnds(line: string, n: nat, m: nat)
    requires m <= n
    ensures Repeat(line, n) == Repeat(line, n - m) + Repeat(line, m)
  {
    if m > 0 {
      RepeatEnds(line, n - 1, m - 1);
    }
  }

  lemma LastExpanded(out: Counted)
    requires Condensed(out) && out != []
    ensures Expand(out) != [] && Expand(out)[|Expand(out)| - 1] == out[|out| - 1].line
  {
  }

  lemma CancelRight<T>(a: seq<T>, b: seq<T>, c: seq<T>)
    requires a + c == b + c
    ensures a == b
  {
    assert |a + c| == |b + c|;
    assert (a + c)[..|a|] == a && (b + c)[..|b|] == b;
  }

  /** Only one condensed list expands to given lines: what is printed says exactly what was emitted. */
  lemma {:induction false} ExpandInjective(a: Counted, b: Counted)
    requires Condensed(a) && Condensed(b) && Expand(a) == Expand(b)
    ensures a == b
    decreases |a| + |b|
  {
    if a != [] && b != [] {
      var m, n := |a| - 1, |b| - 1;
      LastExpanded(a);
      LastExpanded(b);
      var line, k, l := a[m].line, a[m].count, b[n].count;
      if k <= l {
        CancelRepeats(Expand(a[..m]), Expand(b[..n]), line, k, l);
        EndsOtherwise(a[..m], Expand(b[..n]), line, l - k);
      } else {
        CancelRepeats(Expand(b[..n]), Expand(a[..m]), line, l, k);
        EndsOtherwise(b[..n], Expand(a[..m]), line, k - l);
      }
      ExpandInjective(a[..m], b[..n]);
      assert a == a[..m] + [a[m]] && b == b[..n] + [b[n]];
    } else if a != [] {
      LastExpanded(a);
    } else if b != [] {
      LastExpanded(b);
    }
  }

  lemma CancelRepeats(x: seq<string>, init: seq<string>, line: string, k: nat, n: nat)
    requires k <= n && x + Repeat(line, k) == init + Repeat(line, n)
    ensures x == init + Repeat(line, n - k)
  {
    RepeatEnds(line, n, k);
    Associates(init, Repeat(line, n - k), Repeat(line, k));
    CancelRight(x, init + Repeat(line, n - k), Repeat(line, k));
  }

  lemma EndsOtherwise(a: Counted, init: seq<string>, line: string, more: nat)
    requires Condensed(a) && (a != [] ==> a[|a| - 1].line != line)
    requires Expand(a) == init + Repeat(line, more)
    ensures more == 0 && Expand(a) == init
  {
    var repeats := Repeat(line, more);
    RepeatLength(line, more);
    if more > 0 {
      assert repeats[more - 1] == line && (init + repeats)[|init| + more - 1] == line;
      if a != [] { LastExpanded(a); }
    } else {
      assert init + [] == init;
    }
  }

  lemma {:induction false} RepeatLength(line: string, n: nat)
    ensures |Repeat(line, n)| == n
  {
    if n > 0 { RepeatLength(line, n - 1); }
  }

  // ----- the counts in print

  /** `"  [x%d]" % n`. */
  function Mark(n: nat): string {
    "  [x" + PrintInt(n) + "]"
  }

  function Shown(c: Counter): string {
    if c.count == 1 then c.line else c.line + Mark(c.count)
  }

  function AllShown(out: Counted): seq<string> {
    if out == [] then [] else AllShown(out[..|out| - 1]) + [Shown(out[|out| - 1])]
  }

  /** The only bracket that opens in a mark is its third character. */
  lemma MarkBracket(n: nat, k: nat)
    requires k < |Mark(n)|
    ensures |Mark(n)| > 2 && (Mark(n)[k] == '[' <==> k == 2)
  {
    var digits := PrintNat(n);
    if 4 <= k < 4 + |digits| {
      assert Mark(n)[k] == digits[k - 4] && digits[k - 4] in digits;
    }
  }

  lemma MarkPlace(a: string, n: nat, b: string, m: nat)
    requires a + Mark(n) == b + Mark(m)
    ensures |a| >= |b|
  {
    if |a| < |b| {
      var k := |b| + 2 - |a|;
      assert |a + Mark(n)| == |b + Mark(m)|;
      MarkBracket(m, 2);
      assert (b + Mark(m))[|b| + 2] == Mark(m)[2] && (a + Mark(n))[|a| + k] == Mark(n)[k];
      MarkBracket(n, k);
      assert false;
    }
  }

  lemma MarkInjective(n: nat, m: nat)
    requires Mark(n) == Mark(m)
    ensures n == m
  {
    var k := |PrintNat(n)|;
    assert Mark(n)[4..4 + k] == PrintNat(n) && Mark(m)[4..|Mark(m)| - 1] == PrintNat(m);
    ParsePrintNat(n);
    ParsePrintNat(m);
  }

  lemma MarkedInjective(a: string, n: nat, b: string, m: nat)
    requires a + Mark(n) == b + Mark(m)
    ensures a == b && n == m
  {
    MarkPlace(a, n, b, m);
    MarkPlace(b, m, a, n);
    assert (a + Mark(n))[..|a|] == a && (b + Mark(m))[..|b|] == b;
    assert (a + Mark(n))[|a|..] == Mark(n) && (b + Mark(m))[|b|..] == Mark(m);
    MarkInjective(n, m);
  }

  /** A line that may occur reads like another that may occur, with a count of two or more. */
  ghost predicate Ambiguous(occurs: string -> bool) {
    exists line, n: nat :: n >= 2 && occurs(line) && occurs(line + Mark(n))
  }

  predicate Occurring(occurs: string -> bool, out: Counted) {
    forall k :: 0 <= k < |out| ==> occurs(out[k].line)
  }

  /** Of lines that may occur, what is printed leaves no doubt about what was counted. */
  ghost predicate PrintTells(occurs: string -> bool) {
    forall a: Counted, b: Counted ::
      Condensed(a) && Condensed(b) && Occurring(occurs, a) && Occurring(occurs, b) && AllShown(a) == AllShown(b) ==>
        a == b
  }

  lemma ShownInjective(occurs: string -> bool, c: Counter, d: Counter)
    requires !Ambiguous(occurs) && occurs(c.line) && occurs(d.line)
    requires c.count > 0 && d.count > 0 && Shown(c) == Shown(d)
    ensures c == d
  {
    if c.count > 1 && d.count > 1 {
      MarkedInjective(c.line, c.count, d.line, d.count);
    }
  }

  lemma Shorter(occurs: string -> bool, out: Counted)
    requires out != [] && Condensed(out) && Occurring(occurs, out)
    ensures var n := |out| - 1;
      Condensed(out[..n]) && Occurring(occurs, out[..n]) && out[n].count > 0 && occurs(out[n].line)
  {
    var before := out[..|out| - 1];
    forall k | 0 <= k < |before| ensures occurs(before[k].line) {
      assert before[k] == out[k];
    }
  }

  lemma {:induction false} AllShownInjective(occurs: string -> bool, a: Counted, b: Counted)
    requires !Ambiguous(occurs) && Condensed(a) && Condensed(b) && Occurring(occurs, a) && Occurring(occurs, b)
    requires AllShown(a) == AllShown(b)
    ensures a == b
  {
    if a != [] && b != [] {
      Shorter(occurs, a);
      Shorter(occurs, b);
      LastShownSame(a, b);
      ShownInjective(occurs, a[|a| - 1], b[|b| - 1]);
      AllShownInjective(occurs, a[..|a| - 1], b[..|b| - 1]);
      assert a == a[..|a| - 1] + [a[|a| - 1]] && b == b[..|b| - 1] + [b[|b| - 1]];
    }
  }

  lemma LastShownSame(a: Counted, b: Counted)
    requires a != [] && b != [] && AllShown(a) == AllShown(b)
    ensures Shown(a[|a| - 1]) == Shown(b[|b| - 1]) && AllShown(a[..|a| - 1]) == AllShown(b[..|b| - 1])
  {
    LastShown(a);
    LastShown(b);
    CancelRight(AllShown(a[..|a| - 1]), AllShown(b[..|b| - 1]), [Shown(a[|a| - 1])]);
  }

  lemma LastShown(out: Counted)
    requires out != []
    ensures AllShown(out) != [] && AllShown(out)[|AllShown(out)| - 1] == Shown(out[|out| - 1])
  {
  }

  /** What is printed tells the counted lines apart if and only if no line that may occur reads like a count of one. */
  lemma PrintTellsExactly(occurs: string -> bool)
    ensures PrintTells(occurs) <==> !Ambiguous(occurs)
  {
    if Ambiguous(occurs) {
      var line, n: nat :| n >= 2 && occurs(line) && occurs(line + Mark(n));
      ReadsLikeACount(line, n);
    } else {
      forall a: Counted, b: Counted
        | Condensed(a) && Condensed(b) && Occurring(occurs, a) && Occurring(occurs, b) && AllShown(a) == AllShown(b)
        ensures a == b
      {
        AllShownInjective(occurs, a, b);
      }
    }
  }

  /** A line repeated n times, and a line that ends in that mark, are printed alike. */
  lemma ReadsLikeACount(line: string, n: nat)
    requires n >= 2
    ensures var a, b := [Counter(line, n)], [Counter(line + Mark(n), 1)];
      Condensed(a) && Condensed(b) && a != b && AllShown(a) == AllShown(b) == [line + Mark(n)]
  {
    var a, b := [Counter(line, n)], [Counter(line + Mark(n), 1)];
    assert a[..0] == [] && b[..0] == [];
  }

  /** A line typed that begins with an l, which no move does. */
  predicate Typed(line: string) {
    "> l" <= line && |line| <= 300 && !IsSpace(line[|line| - 1]) && forall c :: c in line ==> !('A' <= c <= 'Z')
  }

  lemma TypedKept(p: Patterns, line: string, d: Digest)
    requires Typed(line) && d.walk == [] && !d.skip
    ensures Take(p, d, line) == d.(emitted := d.emitted + [Line(line)])
  {
    var cmd := line[2..];
    assert cmd[0] == line[2] == 'l' && cmd[|cmd| - 1] == line[|line| - 1];
    StripNothing(cmd);
    assert forall k :: 0 <= k < |cmd| ==> cmd[k] == line[k + 2] && line[k + 2] in line;
    LowerUnchanged(cmd);
    assert forall m :: m in MOVES ==> m[0] != 'l';
    assert StripRight(line) == line && ItemOf(p, line) == Kept(line);
  }

  lemma TypedTaken(p: Patterns, line: string)
    requires Typed(line)
    ensures TakeAll(p, NewDigest(), [line]).emitted == [Line(line)]
    ensures TakeAll(p, NewDigest(), [line, line]).emitted == [Line(line), Line(line)]
  {
    var one, d := [Line(line)], NewDigest();
    TypedKept(p, line, d);
    TypedKept(p, line, d.(emitted := one));
    var last, log: seq<string> := [line], [line, line];
    assert [] + one == one && one + one == [Line(line), Line(line)];
    assert last[1..] == [] && TakeAll(p, d, last) == d.(emitted := one);
    assert log[1..] == last && TakeAll(p, d, log) == TakeAll(p, d.(emitted := one), last);
  }

  lemma Expanded(line: string)
    ensures AllWorded([Line(line)]) == Expand([Counter(line, 1)])
    ensures AllWorded([Line(line), Line(line)]) == Expand([Counter(line, 2)])
  {
    WordedSnoc([], Line(line));
    WordedSnoc([Line(line)], Line(line));
    assert [Counter(line, 1)][..0] == [] && [Counter(line, 2)][..0] == [];
    assert Repeat(line, 1) == [line] && Repeat(line, 2) == [line] + [line];
  }

  /** Two logs that say different things and come out alike: `look` twice, and `look` once with such a mark. */
  lemma LogsAlike(p: Patterns)
    ensures var look, marked := "> look", "> look" + Mark(2);
      && AllWorded(TakeAll(p, NewDigest(), [look, look]).emitted) == Expand([Counter(look, 2)])
      && AllWorded(TakeAll(p, NewDigest(), [marked]).emitted) == Expand([Counter(marked, 1)])
      && AllShown([Counter(look, 2)]) == AllShown([Counter(marked, 1)])
  {
    var look, marked := "> look", "> look" + Mark(2);
    assert Mark(2) == "  [x2]";
    assert Typed(look) && Typed(marked);
    TypedTaken(p, look);
    TypedTaken(p, marked);
    Expanded(look);
    Expanded(marked);
    ReadsLikeACount(look, 2);
  }

  // ----- what must be in it

  /** What the day came to, in order: moves, the rooms that walks led to, and lines. */
  datatype Atom = Step(move: string) | Arrive(room: string) | Said(text: string)

  function Steps(moves: seq<string>): seq<Atom> {
    if moves == [] then [] else Steps(moves[..|moves| - 1]) + [Step(moves[|moves| - 1])]
  }

  function AtomsOf(e: Emitted): seq<Atom> {
    match e
    case Walk(moves, room) => Steps(moves) + [Arrive(room)]
    case Line(text) => [Said(text)]
  }

  function Atoms(es: seq<Emitted>): seq<Atom> {
    if es == [] then [] else Atoms(es[..|es| - 1]) + AtomsOf(es[|es| - 1])
  }

  /** What the log says, line by line; `walking` tells whether a move came after the last line that was kept. */
  function Told(p: Patterns, lines: seq<string>, skip: bool, walking: bool, room: string): seq<Atom>
    decreases |lines|
  {
    var arrived := if walking then [Arrive(room)] else [];
    if lines == [] then arrived
    else
      var line, rest := StripRight(lines[0]), lines[1..];
      if skip && Describes(p, line) then Told(p, rest, true, walking, room)
      else match ItemOf(p, line)
        case Move(m) => [Step(m)] + Told(p, rest, false, true, room)
        case Kept(text) => arrived + [Said(text)] + Told(p, rest, false, false, room)
        case Room(name) => (if walking then [] else [Said("  at " + name)]) + Told(p, rest, true, walking, name)
        case Left => Told(p, rest, false, walking, room)
  }

  lemma AtomsSnoc(es: seq<Emitted>, e: Emitted)
    ensures Atoms(es + [e]) == Atoms(es) + AtomsOf(e)
  {
    assert (es + [e])[..|es|] == es;
  }

  lemma WordedSnoc(es: seq<Emitted>, e: Emitted)
    ensures AllWorded(es + [e]) == AllWorded(es) + [Worded(e)]
  {
    assert (es + [e])[..|es|] == es;
  }

  lemma StepsSnoc(moves: seq<string>, m: string)
    ensures Steps(moves + [m]) == Steps(moves) + [Step(m)]
  {
    assert (moves + [m])[..|moves|] == moves;
  }

  /** What the digest stands for: what was emitted, and the walk under way. */
  function Sofar(d: Digest): seq<Atom> {
    Atoms(d.emitted) + Steps(d.walk)
  }

  lemma FlushedTells(d: Digest)
    ensures Sofar(Flushed(d)) == Sofar(d) + if d.walk != [] then [Arrive(d.room)] else []
  {
    if d.walk != [] {
      AtomsSnoc(d.emitted, Walk(d.walk, d.room));
      Associates(Atoms(d.emitted), Steps(d.walk), [Arrive(d.room)]);
    }
  }

  lemma LineTells(d: Digest, text: string)
    requires d.walk == []
    ensures Sofar(d.(emitted := d.emitted + [Line(text)])) == Sofar(d) + [Said(text)]
  {
    AtomsSnoc(d.emitted, Line(text));
  }

  /** Nothing is lost, doubled or moved: the digest tells the moves, arrivals and lines of the log, in order. */
  lemma {:induction false} DigestTells(p: Patterns, d: Digest, lines: seq<string>)
    ensures Sofar(Flushed(TakeAll(p, d, lines))) == Sofar(d) + Told(p, lines, d.skip, d.walk != [], d.room)
    decreases |lines|
  {
    if lines == [] {
      FlushedTells(d);
    } else {
      var line, rest, d' := StripRight(lines[0]), lines[1..], Take(p, d, lines[0]);
      DigestTells(p, d', rest);
      if !(d.skip && Describes(p, line)) {
        match ItemOf(p, line)
        case Move(m) =>
          StepsSnoc(d.walk, m);
          Associates(Atoms(d.emitted), Steps(d.walk), [Step(m)]);
          Associates(Sofar(d), [Step(m)], Told(p, rest, false, true, d.room));
        case Kept(text) =>
          var arrived := if d.walk != [] then [Arrive(d.room)] else [];
          FlushedTells(d.(skip := false));
          LineTells(Flushed(d.(skip := false)), text);
          Associates(Sofar(d), arrived, [Said(text)]);
          Associates(Sofar(d), arrived + [Said(text)], Told(p, rest, false, false, d.room));
        case Room(name) =>
          if d.walk == [] {
            LineTells(d, "  at " + name);
            Associates(Sofar(d), [Said("  at " + name)], Told(p, rest, true, false, name));
          }
        case Left =>
      }
    }
  }

  // ----- what a walk's line says

  /** The line of a walk: its moves in order, their number, and the room it led to. */
  ghost predicate TellsWalk(line: string, moves: seq<string>, room: string) {
    && Words(line) == [">", "walk"] + moves + ["(" + PrintInt(|moves|) + ")", "to"] + Words(room)
    && exists front :: line == front + " to " + room
  }

  lemma MovesAreWords()
    ensures forall m :: m in MOVES ==> Word(m)
  {
    forall m | m in MOVES ensures m != "" && forall c :: c in m ==> 'a' <= c <= 'z' {
    }
  }

  lemma {:induction false} MovesThen(moves: seq<string>, rest: string)
    requires moves != [] && forall m :: m in moves ==> Word(m)
    ensures Words(Join(moves, ' ') + [' '] + rest) == moves + Words(rest)
  {
    if |moves| == 1 {
      WordSpaceRest(moves[0], rest);
    } else {
      var more := Join(moves[1..], ' ');
      assert Join(moves, ' ') + [' '] + rest == moves[0] + [' '] + (more + [' '] + rest);
      WordSpaceRest(moves[0], more + [' '] + rest);
      MovesThen(moves[1..], rest);
      assert [moves[0]] + (moves[1..] + Words(rest)) == moves + Words(rest);
    }
  }

  lemma CountIsWord(n: nat)
    ensures Word("(" + PrintInt(n) + ")")
  {
    assert forall c :: c in PrintNat(n) ==> !IsSpace(c);
  }

  lemma Spell(all: string, n: string, room: string)
    ensures var line := "> walk " + all + " (" + n + ") to " + room;
      && line == ("> walk " + all + " (" + n + ")") + " to " + room
      && line == ">" + [' '] + ("walk" + [' '] + (all + [' '] + ("(" + n + ")" + [' '] + ("to" + [' '] + room))))
  {
    assert "> walk " == ">" + [' '] + ("walk" + [' ']);
    assert " (" == [' '] + "(" && ") to " == ")" + [' '] + ("to" + [' ']);
  }

  lemma TwoWords(a: string, b: string, rest: string)
    requires Word(a) && Word(b)
    ensures Words(a + [' '] + (b + [' '] + rest)) == [a, b] + Words(rest)
  {
    WordSpaceRest(b, rest);
    WordSpaceRest(a, b + [' '] + rest);
  }

  lemma WordsTold(all: string, moves: seq<string>, count: string, room: string)
    requires moves != [] && (forall m :: m in moves ==> Word(m)) && all == Join(moves, ' ') && Word(count)
    ensures Words(">" + [' '] + ("walk" + [' '] + (all + [' '] + (count + [' '] + ("to" + [' '] + room)))))
         == [">", "walk"] + moves + [count, "to"] + Words(room)
  {
    var end := count + [' '] + ("to" + [' '] + room);
    TwoWords(count, "to", room);
    MovesThen(moves, end);
    TwoWords(">", "walk", all + [' '] + end);
    Associates([">", "walk"], moves, [count, "to"] + Words(room));
    Associates([">", "walk"] + moves, [count, "to"], Words(room));
  }

  /** A walk's line has all its moves, in order, and says how many they are and where they led. */
  lemma WalkTold(moves: seq<string>, room: string)
    requires moves != [] && forall m :: m in moves ==> Word(m)
    ensures TellsWalk(Worded(Walk(moves, room)), moves, room)
  {
    var n, all := PrintInt(|moves|), Join(moves, ' ');
    CountIsWord(|moves|);
    WordsTold(all, moves, "(" + n + ")", room);
    Spell(all, n, room);
  }

  /** The walk under way and those that were emitted are of moves, and no walk emitted is empty. */
  predicate WalksAreMoves(d: Digest) {
    && (forall m :: m in d.walk ==> m in MOVES)
    && forall e :: e in d.emitted && e.Walk? ==> e.moves != [] && forall m :: m in e.moves ==> m in MOVES
  }

  lemma TakeKeepsMoves(p: Patterns, d: Digest, raw: string)
    requires WalksAreMoves(d)
    ensures WalksAreMoves(Take(p, d, raw)) && WalksAreMoves(Flushed(d))
  {
    var line := StripRight(raw);
    if !(d.skip && Describes(p, line)) {
      var item := ItemOf(p, line);
      assert item.Move? ==> item.move in MOVES;
    }
  }

  lemma {:induction false} AllKeepMoves(p: Patterns, d: Digest, lines: seq<string>)
    requires WalksAreMoves(d)
    ensures WalksAreMoves(Flushed(TakeAll(p, d, lines)))
    decreases |lines|
  {
    if lines == [] {
      TakeKeepsMoves(p, d, "");
    } else {
      TakeKeepsMoves(p, d, lines[0]);
      AllKeepMoves(p, Take(p, d, lines[0]), lines[1..]);
    }
  }

  lemma {:induction false} WordedAt(es: seq<Emitted>, k: nat)
    requires k < |es|
    ensures |AllWorded(es)| == |es| && AllWorded(es)[k] == Worded(es[k])
  {
    var n := |es| - 1;
    if n > 0 {
      WordedAt(es[..n], if k < n then k else 0);
    } else {
      assert AllWorded(es[..n]) == [];
    }
  }

  /** The line says what was emitted: a walk with all its moves, or a line as it is. */
  ghost predicate Says(line: string, e: Emitted) {
    match e
    case Walk(moves, room) => TellsWalk(line, moves, room)
    case Line(text) => line == text
  }

  lemma LineSays(d: Digest, k: nat)
    requires WalksAreMoves(d) && k < |d.emitted|
    ensures |AllWorded(d.emitted)| == |d.emitted| && Says(AllWorded(d.emitted)[k], d.emitted[k])
  {
    var e := d.emitted[k];
    WordedAt(d.emitted, k);
    if e.Walk? {
      assert e in d.emitted;
      MovesAreWords();
      WalkTold(e.moves, e.room);
    }
  }

  lemma LinesSay(p: Patterns, lines: seq<string>, d: Digest)
    requires d == Flushed(TakeAll(p, NewDigest(), lines))
    ensures |AllWorded(d.emitted)| == |d.emitted|
    ensures forall k :: 0 <= k < |d.emitted| ==> Says(AllWorded(d.emitted)[k], d.emitted[k])
  {
    AllKeepMoves(p, NewDigest(), lines);
    forall k | 0 <= k < |d.emitted|
      ensures |AllWorded(d.emitted)| == |d.emitted| && Says(AllWorded(d.emitted)[k], d.emitted[k])
    {
      LineSays(d, k);
    }
    if d.emitted != [] { LineSays(d, 0); }
  }

  // ----- the program

  class Log {
    const p: Patterns
    var out: Counted
    var walk: seq<string>
    var room: string
    var skip: bool
    ghost var emitted: seq<Emitted>

    /** The counted lines are those emitted, neither more nor fewer, with no two alike next to each other. */
    ghost predicate Valid()
      reads this
    {
      Condensed(out) && Expand(out) == AllWorded(emitted)
    }

    ghost function Value(): Digest
      reads this
    {
      Digest(emitted, walk, room, skip)
    }

    constructor (p: Patterns)
      ensures Valid() && this.p == p && Value() == NewDigest()
    {
      this.p, out, walk, room, skip, emitted := p, [], [], "", false, [];
    }

    method EmitLine(line: string, ghost e: Emitted)
      requires Valid() && line == Worded(e)
      modifies this`out, this`emitted
      ensures Valid() && emitted == old(emitted) + [e]
    {
      ghost var next := Emit(out, line);
      EmitExpands(out, line);
      WordedSnoc(emitted, e);
      if out != [] && out[|out| - 1].line == line {
        out := out[..|out| - 1] + [Counter(line, out[|out| - 1].count + 1)];
      } else {
        out := out + [Counter(line, 1)];
      }
      assert out == next;
      emitted := emitted + [e];
    }

    method Flush()
      requires Valid()
      modifies this`out, this`emitted, this`walk
      ensures Valid() && Value() == Flushed(old(Value()))
    {
      if walk != [] {
        EmitLine("> walk " + Join(walk, ' ') + " (" + PrintInt(|walk|) + ") to " + room, Walk(walk, room));
        walk := [];
      }
    }

    method KeepLine(text: string)
      requires Valid()
      modifies this`out, this`emitted, this`walk
      ensures Valid() && Value() == Keep(old(Value()), text)
    {
      Flush();
      EmitLine(text, Line(text));
    }

    method ReachRoom(name: string)
      requires Valid()
      modifies this`out, this`emitted, this`room, this`skip
      ensures Valid() && Value() == Reach(old(Value()), name)
    {
      room := name;
      skip := true;
      if walk == [] {
        EmitLine("  at " + room, Line("  at " + room));
      }
    }

    method TakeLine(raw: string)
      requires Valid()
      modifies this
      ensures Valid() && Value() == Take(p, old(Value()), raw)
    {
      var line := StripRight(raw);
      if skip {
        if line != "" && (IsSpace(line[0]) || p.descr(line)) {
          return;
        }
        skip := false;
      }
      TakeOutside(line);
    }

    /** Takes a line that is not part of a room's description. */
    method TakeOutside(line: string)
      requires Valid()
      modifies this
      ensures Valid() && Value() == TakeItem(p, old(Value()), line)
    {
      ghost var item := ItemOf(p, line);
      if "> " <= line {
        var cmd := Lower(Strip(line[2..]));
        if cmd in MOVES {
          assert item == Move(cmd);
          walk := walk + [cmd];
        } else {
          assert item == Kept(Upto(line, 300));
          KeepLine(Upto(line, 300));
        }
      } else if "[room " <= line {
        assert item == Room(WithoutBracket(line[6..]));
        ReachRoom(WithoutBracket(line[6..]));
      } else if Strip(line) == "" || p.replayed(line) {
        assert item == Left;
      } else if ("[" <= line && !("[x" <= line)) || p.keep(line) {
        assert item == Kept(Upto(line, 300));
        KeepLine(Upto(line, 300));
      } else {
        assert item == Left;
      }
    }

    /** A whole log: the counted lines expand to lines that tell its moves, arrivals and kept lines, in order. */
    method Digested(lines: seq<string>)
      requires Valid() && Value() == NewDigest()
      modifies this
      ensures Valid() && Atoms(emitted) == Told(p, lines, false, false, "")
      ensures |Expand(out)| == |emitted| && forall k :: 0 <= k < |emitted| ==> Says(Expand(out)[k], emitted[k])
    {
      ghost var before := Value();
      for k := 0 to |lines|
        invariant Valid() && TakeAll(p, Value(), lines[k..]) == TakeAll(p, before, lines)
      {
        assert lines[k..][1..] == lines[k + 1..];
        TakeLine(lines[k]);
      }
      Flush();
      DigestTells(p, before, lines);
      LinesSay(p, lines, Value());
      assert Sofar(before) == [] && [] + Told(p, lines, false, false, "") == Told(p, lines, false, false, "");
      assert Sofar(Value()) == Atoms(emitted) + [] == Atoms(emitted);
    }

    /** Prints the counted lines, each with its count if that is not one. */
    method PrintOut() returns (lines: seq<string>)
      ensures lines == AllShown(out)
    {
      lines := [];
      for k := 0 to |out|
        invariant lines == AllShown(out[..k])
      {
        assert out[..k + 1][..k] == out[..k] && out[..k + 1][k] == out[k];
        var line, n := out[k].line, out[k].count;
        lines := lines + [if n == 1 then line else line + Mark(n)];
      }
      assert out[..|out|] == out;
    }
  }
}
