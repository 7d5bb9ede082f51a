/** The reset sections of the zone sources: what is loaded where, and inside what. */
module Resetting {
  import opened Text

  /** One load of a unit: how, inside which unit if any, and into which room if that is said. */
  datatype Place = Place(how: string, parent: Option<string>, room: Option<string>)

  datatype Record = Record(sym: string, place: Place)

  const RESET_WORDS := {"load", "equip", "follow", "door", "remove", "purge", "random", "nop", "complete"}

  predicate SymbolChar(c: char) {
    'a' <= c <= 'z' || '0' <= c <= '9' || c == '_'
  }

  predicate Symbol(s: string) {
    s != "" && forall c :: c in s ==> SymbolChar(c)
  }

  function SymbolLength(s: string): (n: nat)
    ensures n <= |s|
  {
    if s != "" && SymbolChar(s[0]) then 1 + SymbolLength(s[1..]) else 0
  }

  /** sym, sym@zone or zone/sym as sym@zone. */
  function Norm(ref: string, zone: string): (r: string)
    ensures r != ""
  {
    var s := Lower(ref);
    var n := SymbolLength(s);
    if 0 < n < |s| && s[n] in {'@', '/'} && Symbol(s[n + 1..]) then
      if s[n] == '@' then s else s[n + 1..] + "@" + s[..n]
    else s + "@" + zone
  }

  predicate Brace(t: string) { t == "{" || t == "}" }

  predicate Loads(t: string) { Lower(t) in {"load", "equip"} }

  /** A token that belongs to the unit before it. */
  predicate Belongs(t: string) { !Brace(t) && Lower(t) !in RESET_WORDS }

  /** How many tokens belong to the unit before them: all up to the next brace or reset word. */
  function TailLength(ts: seq<string>): (n: nat)
    ensures n <= |ts|
  {
    if ts == [] || !Belongs(ts[0]) then 0 else 1 + TailLength(ts[1..])
  }

  /** The room that the last `into` among the first `n` tokens names. */
  function RoomIn(ts: seq<string>, n: nat, zone: string): Option<string>
    requires n <= |ts|
  {
    if n == 0 then None
    else if Lower(ts[n - 1]) == "into" && n < |ts| then Some(Norm(ts[n], zone))
    else RoomIn(ts, n - 1, zone)
  }

  // ----- the tokens of a section

  predicate WordChar(c: char) {
    'A' <= c <= 'Z' || 'a' <= c <= 'z' || '0' <= c <= '9' || c == '_'
  }

  /** The number of word characters that `s` starts with. */
  function Run(s: string): (n: nat)
    ensures n <= |s|
  {
    if s != "" && WordChar(s[0]) then 1 + Run(s[1..]) else 0
  }

  /** The length of the token at the start of `s`: a brace, or a word with perhaps another after @ or /. */
  function TokenLength(s: string): (n: nat)
    ensures n <= |s|
  {
    if s == "" then 0
    else if s[0] in {'{', '}'} then 1
    else
      var n := Run(s);
      if 0 < n < |s| && s[n] in {'@', '/'} && Run(s[n + 1..]) > 0 then n + 1 + Run(s[n + 1..]) else n
  }

  /** The tokens of a text, whatever stands between them. */
  function Tokens(s: string): seq<string>
    decreases |s|
  {
    if s == "" then []
    else if TokenLength(s) == 0 then Tokens(s[1..])
    else [s[..TokenLength(s)]] + Tokens(s[TokenLength(s)..])
  }

  predicate IsToken(t: string) {
    t != "" && TokenLength(t) == |t|
  }

  /** The characters of names and of words, by number. */
  lemma NameChars(c: char)
    ensures SymbolChar(c) <==> var n := c as int; 48 <= n <= 57 || n == 95 || 97 <= n <= 122
    ensures WordChar(c) <==> var n := c as int; 48 <= n <= 57 || 65 <= n <= 90 || n == 95 || 97 <= n <= 122
  {
  }

  /** What starts a command, and what ends the one before. */
  lemma CommandWords(t: string)
    ensures Loads(t) <==> Lower(t) == "load" || Lower(t) == "equip"
    ensures !Belongs(t) <==>
      t == "{" || t == "}" || Loads(t) || Lower(t) in {"follow", "door", "remove", "purge", "random", "nop", "complete"}
  {
  }

  predicate WordText(s: string) {
    s != "" && forall c :: c in s ==> WordChar(c)
  }

  lemma {:induction false} RunAll(s: string)
    ensures Run(s) == |s| && s != "" <==> WordText(s)
    ensures Run(s) > 0 <==> s != "" && WordChar(s[0])
  {
    if s != "" {
      RunAll(s[1..]);
      assert s[0] in s && forall c :: c in s <==> c == s[0] || c in s[1..];
    }
  }

  /** Two words with @ or / between them. */
  ghost predicate Paired(t: string) {
    exists a, sep, b :: t == a + [sep] + b && WordText(a) && sep in {'@', '/'} && WordText(b)
  }

  lemma PairIsToken(a: string, sep: char, b: string)
    requires WordText(a) && sep in {'@', '/'} && WordText(b)
    ensures IsToken(a + [sep] + b)
  {
    var t := a + [sep] + b;
    Associates(a, [sep], b);
    RunAll(a);
    RunAll(b);
    RunBefore(a, [sep] + b);
    assert t[0] == a[0] && a[0] in a && t[|a|] == sep && t[|a| + 1..] == b;
  }

  lemma {:induction false} RunIsWord(s: string)
    ensures forall c :: c in s[..Run(s)] ==> WordChar(c)
  {
    if s != "" && WordChar(s[0]) {
      RunIsWord(s[1..]);
      assert s[..Run(s)] == [s[0]] + s[1..][..Run(s[1..])];
    }
  }

  lemma TokenForm(t: string)
    requires IsToken(t)
    ensures t == "{" || t == "}" || WordText(t) || Paired(t)
  {
    RunAll(t);
    if t[0] in {'{', '}'} {
      assert t == [t[0]];
    } else if Run(t) < |t| {
      var n := Run(t);
      RunIsWord(t);
      RunAll(t[n + 1..]);
      assert WordText(t[..n]) && WordText(t[n + 1..]);
      assert t == t[..n] + [t[n]] + t[n + 1..];
    }
  }

  lemma WordIsToken(t: string)
    requires WordText(t)
    ensures IsToken(t)
  {
    RunAll(t);
    assert t[0] in t;
  }

  /** A token is a brace, a word, or two words with @ or / between them. */
  lemma TokenExactly(t: string)
    ensures IsToken(t) <==> t == "{" || t == "}" || WordText(t) || Paired(t)
  {
    if IsToken(t) {
      TokenForm(t);
    }
    if WordText(t) {
      WordIsToken(t);
    }
    if Paired(t) {
      var a, sep, b :| t == a + [sep] + b && WordText(a) && sep in {'@', '/'} && WordText(b);
      PairIsToken(a, sep, b);
    }
  }

  lemma {:induction false} RunBefore(a: string, rest: string)
    requires rest == "" || !WordChar(rest[0])
    ensures Run(a + rest) == Run(a)
  {
    if a == "" {
      assert a + rest == rest;
    } else {
      DropPrefix(a, rest, 1);
      RunBefore(a[1..], rest);
    }
  }

  /** What may follow a token so that it ends there. */
  predicate Apart(rest: string) {
    rest != "" ==> !WordChar(rest[0]) && (rest[0] in {'@', '/'} ==> |rest| == 1 || !WordChar(rest[1]))
  }

  lemma TokenThenRest(t: string, rest: string)
    requires IsToken(t) && Apart(rest)
    ensures Tokens(t + rest) == [t] + Tokens(rest)
  {
    var s, n := t + rest, Run(t);
    assert s[0] == t[0];
    RunBefore(t, rest);
    if n < |t| {
      assert s[n] == t[n];
      DropPrefix(t, rest, n + 1);
      RunBefore(t[n + 1..], rest);
    } else if rest != "" {
      assert s[n] == rest[0] && s[n + 1..] == rest[1..];
      RunAll(rest[1..]);
    }
    assert TokenLength(s) == |t|;
    DropPrefix(t, rest, |t|);
  }

  /** Characters of no token. */
  predicate Gap(g: string) {
    forall c :: c in g ==> !WordChar(c) && c != '{' && c != '}'
  }

  lemma {:induction false} GapThen(g: string, rest: string)
    requires Gap(g)
    ensures Tokens(g + rest) == Tokens(rest)
  {
    if g == "" {
      assert g + rest == rest;
    } else {
      assert g[0] in g && (g + rest)[0] == g[0];
      assert forall c :: c in g[1..] ==> c in g;
      DropPrefix(g, rest, 1);
      GapThen(g[1..], rest);
    }
  }

  /** Whatever of no token is around and between them, the tokens of a text are found. */
  lemma {:induction false} TokensExactly(gaps: seq<string>, ts: seq<string>)
    requires |gaps| == |ts| + 1 && (forall t :: t in ts ==> IsToken(t)) && (forall g :: g in gaps ==> Gap(g))
    requires forall k :: 0 < k < |ts| ==> gaps[k] !in {"", "@", "/"}
    ensures Tokens(Spaced(gaps, ts)) == ts
    decreases |ts|
  {
    if ts == [] {
      GapThen(gaps[0], "");
      assert gaps[0] + "" == gaps[0];
    } else {
      var rest := Spaced(gaps[1..], ts[1..]);
      TokensExactly(gaps[1..], ts[1..]);
      GapThen(gaps[0], ts[0] + rest);
      GapIsApart(gaps[1..], ts[1..]);
      TokenThenRest(ts[0], rest);
    }
  }

  lemma GapIsApart(gaps: seq<string>, ts: seq<string>)
    requires |gaps| == |ts| + 1 && Gap(gaps[0]) && (ts != [] ==> gaps[0] !in {"", "@", "/"})
    ensures Apart(Spaced(gaps, ts))
  {
    var g, s := gaps[0], Spaced(gaps, ts);
    if g != "" {
      assert g[0] in g && s[0] == g[0];
      if |g| > 1 {
        assert g[1] in g && s[1] == g[1];
      } else {
        assert g == [g[0]];
      }
    }
  }

  lemma TokenSpaceRest(t: string, rest: string)
    requires IsToken(t)
    ensures Tokens(t + [' '] + rest) == [t] + Tokens(rest)
  {
    TokenThenRest(t, [' '] + rest);
    Associates(t, [' '], rest);
    DropPrefix([' '], rest, 1);
  }

  /** Tokens put together with spaces are taken apart again. */
  lemma {:induction false} TokensOfJoin(ts: seq<string>)
    requires ts != [] && forall t :: t in ts ==> IsToken(t)
    ensures Tokens(Join(ts, ' ')) == ts
  {
    if |ts| == 1 {
      TokenThenRest(ts[0], "");
      assert ts[0] + "" == ts[0];
    } else {
      TokenSpaceRest(ts[0], Join(ts[1..], ' '));
      TokensOfJoin(ts[1..]);
    }
  }

  // ----- what a section records

  /** What the load or equip at the start of the tokens records. */
  function Loaded(ts: seq<string>, parent: Option<string>, zone: string): Record
    requires |ts| > 1
  {
    Record(Norm(ts[1], zone), Place(Lower(ts[0]), parent, RoomIn(ts[2..], TailLength(ts[2..]), zone)))
  }

  function AfterLoad(ts: seq<string>): seq<string>
    requires |ts| > 1
  {
    ts[2 + TailLength(ts[2..])..]
  }

  /** All that a reset section records, in order, given the units it is inside of and the last one loaded. */
  function Parse(ts: seq<string>, parents: seq<Option<string>>, last: Option<string>, zone: string): seq<Record>
    requires parents != []
    decreases |ts|
  {
    if ts == [] then []
    else
      var top := parents[|parents| - 1];
      if ts[0] == "{" then Parse(ts[1..], parents + [if last.Some? then last else top], None, zone)
      else if ts[0] == "}" then Parse(ts[1..], if |parents| > 1 then parents[..|parents| - 1] else parents, None, zone)
      else if Loads(ts[0]) && |ts| > 1 then
        var r := Loaded(ts, top, zone);
        [r] + Parse(AfterLoad(ts), parents, Some(r.sym), zone)
      else Parse(ts[1..], parents, last, zone)
  }

  // ----- the places table

  type Places = map<string, seq<Place>>

  function At(places: Places, sym: string): seq<Place> {
    if sym in places then places[sym] else []
  }

  function Add(places: Places, r: Record): Places {
    places[r.sym := At(places, r.sym) + [r.place]]
  }

  function AddAll(places: Places, rs: seq<Record>): Places {
    if rs == [] then places else Add(AddAll(places, rs[..|rs| - 1]), rs[|rs| - 1])
  }

  /** The places recorded for one unit, in order. */
  function PlacesOf(rs: seq<Record>, sym: string): seq<Place> {
    if rs == [] then []
    else PlacesOf(rs[..|rs| - 1], sym) + if rs[|rs| - 1].sym == sym then [rs[|rs| - 1].place] else []
  }

  /** The table has each unit's places after those it had, in the order recorded, and nothing else. */
  lemma {:induction false} AddAllExactly(places: Places, rs: seq<Record>, sym: string)
    ensures At(AddAll(places, rs), sym) == At(places, sym) + PlacesOf(rs, sym)
    ensures sym in AddAll(places, rs) <==> sym in places || PlacesOf(rs, sym) != []
  {
    if rs != [] {
      AddAllExactly(places, rs[..|rs| - 1], sym);
    }
  }

  class Zones {
    var places: Places

    constructor ()
      ensures places == map[]
    {
      places := map[];
    }

    /** The load or equip at tokens[i], inside `parent`: what it records, and where the tokens that belong to it end. */
    method Load(tokens: seq<string>, i: nat, parent: Option<string>, zone: string) returns (r: Record, j: nat)
      requires i + 1 < |tokens|
      ensures i < j <= |tokens| && tokens[j..] == AfterLoad(tokens[i..]) && r == Loaded(tokens[i..], parent, zone)
    {
      var sym, room := Norm(tokens[i + 1], zone), None;
      var from := i + 2;
      ghost var tail := tokens[from..];
      j := from;
      while j < |tokens| && Belongs(tokens[j])
        invariant from <= j <= |tokens|
        invariant room == RoomIn(tail, j - from, zone)
        invariant forall k :: from <= k < j ==> Belongs(tokens[k])
      {
        RoomStep(tokens, from, j, zone);
        if Lower(tokens[j]) == "into" && j + 1 < |tokens| {
          room := Some(Norm(tokens[j + 1], zone));
        }
        j := j + 1;
      }
      TailLengthIs(tail, j - from);
      DropDrop(tokens, i, 2);
      DropDrop(tokens, i, j - i);
      r := Record(sym, Place(Lower(tokens[i]), parent, room));
    }

    method Resets(text: string, zone: string)
      modifies this
      ensures places == AddAll(old(places), Parse(Tokens(text), [None], None, zone))
    {
      var tokens := Tokens(text);
      var parents: seq<Option<string>>, last: Option<string>, i := [None], None, 0;
      ghost var all := Parse(tokens, [None], None, zone);
      ghost var done: seq<Record> := [];
      assert tokens[0..] == tokens;
      while i < |tokens|
        invariant i <= |tokens| && parents != []
        invariant places == AddAll(old(places), done)
        invariant done + Parse(tokens[i..], parents, last, zone) == all
      {
        var t := tokens[i];
        assert tokens[i..][1..] == tokens[i + 1..];
        if t == "{" {
          parents := parents + [if last.Some? then last else parents[|parents| - 1]];
          last := None;
          i := i + 1;
        } else if t == "}" {
          if |parents| > 1 {
            parents := parents[..|parents| - 1];
          }
          last := None;
          i := i + 1;
        } else if Loads(t) && i + 1 < |tokens| {
          var r, j := Load(tokens, i, parents[|parents| - 1], zone);
          LoadIsNoBrace(t);
          Recorded(old(places), done, r, Parse(tokens[j..], parents, Some(r.sym), zone));
          places := places[r.sym := At(places, r.sym) + [r.place]];
          done := done + [r];
          last, i := Some(r.sym), j;
        } else {
          i := i + 1;
        }
      }
      assert done + [] == done;
    }
  }

  lemma RoomStep(tokens: seq<string>, from: nat, j: nat, zone: string)
    requires from <= j < |tokens|
    ensures RoomIn(tokens[from..], j + 1 - from, zone)
         == if Lower(tokens[j]) == "into" && j + 1 < |tokens| then Some(Norm(tokens[j + 1], zone))
            else RoomIn(tokens[from..], j - from, zone)
  {
    var tail := tokens[from..];
    assert tail[j - from] == tokens[j];
    assert j + 1 < |tokens| ==> tail[j + 1 - from] == tokens[j + 1];
  }

  lemma {:induction false} TailLengthIs(ts: seq<string>, n: nat)
    requires n <= |ts| && (forall k :: 0 <= k < n ==> Belongs(ts[k])) && (n < |ts| ==> !Belongs(ts[n]))
    ensures TailLength(ts) == n
  {
    if n > 0 {
      TailLengthIs(ts[1..], n - 1);
    }
  }

  lemma LoadIsNoBrace(t: string)
    requires Loads(t)
    ensures !Brace(t)
  {
    assert Lower("{") == "{" && Lower("}") == "}";
  }

  lemma Recorded(places: Places, done: seq<Record>, r: Record, rest: seq<Record>)
    ensures AddAll(places, done + [r]) == Add(AddAll(places, done), r)
    ensures done + ([r] + rest) == (done + [r]) + rest
  {
    assert (done + [r])[..|done|] == done;
  }

  // ----- what a well-formed section says

  /** A unit loaded, the tokens that follow it, and the units loaded inside it. */
  datatype Node = Node(how: string, sym: string, tail: seq<string>, kids: seq<Node>)

  predicate WellFormed(n: Node) {
    && Loads(n.how) && Tail(n.tail)
    && forall k :: k in n.kids ==> WellFormed(k)
  }

  /** Tokens that stay with the unit before them; the last is not an `into` that still wants its room. */
  predicate Tail(tail: seq<string>) {
    && (forall t :: t in tail ==> Belongs(t))
    && (tail != [] ==> Lower(tail[|tail| - 1]) != "into")
  }

  function Printed(n: Node): (ts: seq<string>)
    ensures |ts| >= 2
  {
    [n.how, n.sym] + (n.tail + if n.kids == [] then [] else ["{"] + (AllPrinted(n.kids) + ["}"]))
  }

  function AllPrinted(nodes: seq<Node>): (ts: seq<string>)
    ensures ts == [] <==> nodes == []
  {
    if nodes == [] then [] else Printed(nodes[0]) + AllPrinted(nodes[1..])
  }

  /** The tree in preorder, each unit with the one around it. */
  function Preorder(n: Node, parent: Option<string>, zone: string): seq<Record> {
    var sym := Norm(n.sym, zone);
    [Record(sym, Place(Lower(n.how), parent, RoomIn(n.tail, |n.tail|, zone)))] + AllPreorder(n.kids, Some(sym), zone)
  }

  function AllPreorder(nodes: seq<Node>, parent: Option<string>, zone: string): seq<Record> {
    if nodes == [] then [] else Preorder(nodes[0], parent, zone) + AllPreorder(nodes[1..], parent, zone)
  }

  /** What may come after a unit: nothing, a brace, or the next command. */
  predicate Ends(rest: seq<string>) {
    rest == [] || !Belongs(rest[0])
  }

  lemma {:induction false} TailEnds(tail: seq<string>, rest: seq<string>)
    requires (forall t :: t in tail ==> Belongs(t)) && Ends(rest)
    ensures TailLength(tail + rest) == |tail|
  {
    if tail == [] {
      assert tail + rest == rest;
    } else {
      assert tail[0] in tail;
      DropPrefix(tail, rest, 1);
      TailEnds(tail[1..], rest);
    }
  }

  lemma {:induction false} RoomInPrefix(tail: seq<string>, rest: seq<string>, n: nat, zone: string)
    requires n < |tail| || (n == |tail| && (n == 0 || Lower(tail[n - 1]) != "into"))
    ensures RoomIn(tail + rest, n, zone) == RoomIn(tail, n, zone)
  {
    if n > 0 {
      RoomInPrefix(tail, rest, n - 1, zone);
    }
  }

  lemma ParseLoad(how: string, sym: string, tail: seq<string>, rest: seq<string>,
                  parents: seq<Option<string>>, last: Option<string>, zone: string)
    requires Loads(how) && Tail(tail) && Ends(rest) && parents != []
    ensures Parse([how, sym] + (tail + rest), parents, last, zone)
         == [Record(Norm(sym, zone), Place(Lower(how), parents[|parents| - 1], RoomIn(tail, |tail|, zone)))]
            + Parse(rest, parents, Some(Norm(sym, zone)), zone)
  {
    var ts := [how, sym] + (tail + rest);
    TailEnds(tail, rest);
    RoomInPrefix(tail, rest, |tail|, zone);
    DropPrefix([how, sym], tail + rest, 2);
    assert ts[2 + |tail|..] == rest;
    LoadIsNoBrace(how);
  }

  lemma Opening(inner: seq<string>, parents: seq<Option<string>>, sym: string, zone: string)
    requires parents != []
    ensures Parse(["{"] + inner, parents, Some(sym), zone) == Parse(inner, parents + [Some(sym)], None, zone)
  {
    DropPrefix(["{"], inner, 1);
  }

  lemma Closing(rest: seq<string>, parents: seq<Option<string>>, sym: string, last: Option<string>, zone: string)
    requires parents != []
    ensures Parse(["}"] + rest, parents + [Some(sym)], last, zone) == Parse(rest, parents, None, zone)
  {
    DropPrefix(["}"], rest, 1);
    assert (parents + [Some(sym)])[..|parents|] == parents;
  }

  lemma PrintedBlock(n: Node, rest: seq<string>)
    requires n.kids != []
    ensures Printed(n) + rest == [n.how, n.sym] + (n.tail + (["{"] + (AllPrinted(n.kids) + (["}"] + rest))))
  {
  }

  /** Reading a printed tree records it in preorder, whatever it stands in and whatever follows. */
  lemma {:induction false} NodeRecorded(n: Node, rest: seq<string>, parents: seq<Option<string>>, last: Option<string>,
                                        zone: string)
    returns (last': Option<string>)
    requires WellFormed(n) && Ends(rest) && parents != []
    ensures Parse(Printed(n) + rest, parents, last, zone)
         == Preorder(n, parents[|parents| - 1], zone) + Parse(rest, parents, last', zone)
    decreases n, 0
  {
    var sym := Norm(n.sym, zone);
    if n.kids == [] {
      last' := Some(sym);
      assert Printed(n) + rest == [n.how, n.sym] + (n.tail + rest);
      ParseLoad(n.how, n.sym, n.tail, rest, parents, last, zone);
      assert Preorder(n, parents[|parents| - 1], zone) == Preorder(n, parents[|parents| - 1], zone)[..1];
    } else {
      last' := None;
      var inner := AllPrinted(n.kids) + (["}"] + rest);
      PrintedBlock(n, rest);
      ParseLoad(n.how, n.sym, n.tail, ["{"] + inner, parents, last, zone);
      Opening(inner, parents, sym, zone);
      var l := NodesRecorded(n.kids, ["}"] + rest, parents + [Some(sym)], None, zone);
      Closing(rest, parents, sym, l, zone);
      var first := Preorder(n, parents[|parents| - 1], zone)[..1];
      Associates(first, AllPreorder(n.kids, Some(sym), zone), Parse(rest, parents, None, zone));
    }
  }

  lemma {:induction false} NodesRecorded(nodes: seq<Node>, rest: seq<string>, parents: seq<Option<string>>,
                                         last: Option<string>, zone: string)
    returns (last': Option<string>)
    requires (forall n :: n in nodes ==> WellFormed(n)) && Ends(rest) && parents != []
    ensures Parse(AllPrinted(nodes) + rest, parents, last, zone)
         == AllPreorder(nodes, parents[|parents| - 1], zone) + Parse(rest, parents, last', zone)
    decreases nodes
  {
    var top := parents[|parents| - 1];
    if nodes == [] {
      last' := last;
      assert AllPrinted(nodes) + rest == rest;
    } else {
      var more := AllPrinted(nodes[1..]) + rest;
      EndsMore(nodes[1..], rest);
      Associates(Printed(nodes[0]), AllPrinted(nodes[1..]), rest);
      var l := NodeRecorded(nodes[0], more, parents, last, zone);
      last' := NodesRecorded(nodes[1..], rest, parents, l, zone);
      Associates(Preorder(nodes[0], top, zone), AllPreorder(nodes[1..], top, zone), Parse(rest, parents, last', zone));
    }
  }

  lemma EndsMore(nodes: seq<Node>, rest: seq<string>)
    requires (forall n :: n in nodes ==> WellFormed(n)) && Ends(rest)
    ensures Ends(AllPrinted(nodes) + rest)
  {
    if nodes == [] {
      assert AllPrinted(nodes) + rest == rest;
    } else {
      assert WellFormed(nodes[0]) && Printed(nodes[0])[0] == nodes[0].how;
      assert (AllPrinted(nodes) + rest)[0] == nodes[0].how;
    }
  }

  /** A brace that opens after no unit keeps the unit around it, one that closes too much changes nothing, and what is
      no command is passed over. */
  lemma Unbalanced(rest: seq<string>, parents: seq<Option<string>>, last: Option<string>, zone: string, t: string)
    requires parents != []
    ensures Parse(["{"] + rest, parents, None, zone) == Parse(rest, parents + [parents[|parents| - 1]], None, zone)
    ensures Parse(["}"] + rest, [None], last, zone) == Parse(rest, [None], None, zone)
    ensures t != "{" && t != "}" && Lower(t) != "load" && Lower(t) != "equip" ==>
      Parse([t] + rest, parents, last, zone) == Parse(rest, parents, last, zone)
    ensures Lower(t) == "load" ==> Parse([t], parents, last, zone) == []
  {
    DropPrefix(["{"], rest, 1);
    DropPrefix(["}"], rest, 1);
    DropPrefix([t], rest, 1);
    if Lower(t) == "load" { LoadIsNoBrace(t); }
    assert [t][1..] == [];
  }

  /** A printed forest is recorded as it is: each unit with how it is loaded, the unit around it, and its room. */
  lemma ForestRecorded(forest: seq<Node>, zone: string)
    requires forest != [] && (forall n :: n in forest ==> WellFormed(n))
    requires forall t :: t in AllPrinted(forest) ==> IsToken(t)
    ensures Parse(Tokens(Join(AllPrinted(forest), ' ')), [None], None, zone) == AllPreorder(forest, None, zone)
  {
    TokensOfJoin(AllPrinted(forest));
    var l := NodesRecorded(forest, [], [None], None, zone);
    assert AllPrinted(forest) + [] == AllPrinted(forest);
    assert AllPreorder(forest, None, zone) + [] == AllPreorder(forest, None, zone);
  }

  lemma {:induction false} NoInto(ts: seq<string>, n: nat, zone: string)
    requires n <= |ts| && forall k :: 0 <= k < n ==> Lower(ts[k]) != "into"
    ensures RoomIn(ts, n, zone) == None
  {
    if n > 0 { NoInto(ts, n - 1, zone); }
  }

  /** The room of a load is what follows its last `into`; without one there is none. */
  lemma {:induction false} LastInto(before: seq<string>, room: string, after: seq<string>, zone: string)
    requires Lower(room) != "into" && forall t :: t in after ==> Lower(t) != "into"
    ensures var ts := before + ["into", room] + after; RoomIn(ts, |ts|, zone) == Some(Norm(room, zone))
    ensures RoomIn(after, |after|, zone) == None
    decreases |after|
  {
    var ts, n := before + ["into", room] + after, |before|;
    assert Lower("into") == "into";
    assert ts[n] == "into" && ts[n + 1] == room;
    assert RoomIn(ts, n + 1, zone) == Some(Norm(room, zone));
    assert RoomIn(ts, n + 2, zone) == Some(Norm(room, zone));
    for k := 0 to |after|
      invariant RoomIn(ts, n + 2 + k, zone) == Some(Norm(room, zone))
    {
      assert ts[n + 2 + k] == after[k];
    }
    NoInto(after, |after|, zone);
  }

  lemma {:induction false} SymbolLengthIs(sym: string, rest: string)
    requires Symbol(sym) && (rest == "" || !SymbolChar(rest[0]))
    ensures SymbolLength(sym + rest) == |sym|
  {
    assert sym[0] in sym;
    DropPrefix(sym, rest, 1);
    if |sym| > 1 {
      SymbolLengthIs(sym[1..], rest);
    } else {
      assert sym[1..] + rest == rest;
    }
  }

  lemma LowerSymbol(s: string)
    requires forall c :: c in s ==> SymbolChar(c) || c in {'@', '/'}
    ensures Lower(s) == s
  {
    LowerUnchanged(s);
  }

  /** Two names with @ or / between them. */
  ghost predicate TwoNames(s: string) {
    exists a, sep, b :: s == a + [sep] + b && Symbol(a) && Symbol(b) && sep in {'@', '/'}
  }

  lemma SplitName(s: string, n: nat)
    requires n == SymbolLength(s) && 0 < n < |s| && s[n] in {'@', '/'} && Symbol(s[n + 1..])
    ensures TwoNames(s)
  {
    SymbolPrefix(s);
    assert Symbol(s[..n]) && s == s[..n] + [s[n]] + s[n + 1..];
  }

  /** Capitals make no difference in a name, and what is not two names is a name of its own. */
  lemma NormExactly(ref: string, zone: string)
    ensures Norm(ref, zone) == Norm(Lower(ref), zone)
    ensures !TwoNames(Lower(ref)) ==> Norm(ref, zone) == Lower(ref) + "@" + zone
  {
    var s := Lower(ref);
    var n := SymbolLength(s);
    LowerTwice(ref);
    if 0 < n < |s| && s[n] in {'@', '/'} && Symbol(s[n + 1..]) {
      SplitName(s, n);
    }
  }

  lemma {:induction false} SymbolPrefix(s: string)
    ensures forall c :: c in s[..SymbolLength(s)] ==> SymbolChar(c)
  {
    if s != "" && SymbolChar(s[0]) {
      SymbolPrefix(s[1..]);
      assert s[..SymbolLength(s)] == [s[0]] + s[1..][..SymbolLength(s[1..])];
    }
  }

  /** The three ways to name a unit, in lower case, all come to sym@zone. */
  lemma NormForms(sym: string, other: string, zone: string)
    requires Symbol(sym) && Symbol(other)
    ensures Norm(sym, zone) == sym + "@" + zone
    ensures Norm(sym + "@" + other, zone) == sym + "@" + other
    ensures Norm(other + "/" + sym, zone) == sym + "@" + other
  {
    SymbolLengthIs(sym, "");
    assert sym + "" == sym;
    LowerSymbol(sym);
    SeparatedForm(sym, '@', other, zone);
    SeparatedForm(other, '/', sym, zone);
  }

  lemma SeparatedForm(a: string, sep: char, b: string, zone: string)
    requires Symbol(a) && Symbol(b) && sep in {'@', '/'}
    ensures Norm(a + [sep] + b, zone) == if sep == '@' then a + [sep] + b else b + "@" + a
  {
    var s := a + [sep] + b;
    LowerSymbol(s);
    Associates(a, [sep], b);
    SymbolLengthIs(a, [sep] + b);
    assert s[|a|] == sep && s[..|a|] == a && s[|a| + 1..] == b;
  }
}
