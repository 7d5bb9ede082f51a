/** Route finding on the map: a breadth-first search around water, hidden doors as a last resort. */
module Way {
  import opened Text

  /** An exit as the map has it: `to` is the room it leads to, with its door mark (* or !). */
  datatype Exit = Exit(dir: string, to: string)

  datatype Room = Room(title: string, exits: seq<Exit>, water: bool)

  /** The map, and what is looked for on it (in lower case). */
  datatype World = World(rooms: map<string, Room>, want: string)

  datatype Route = Route(target: string, steps: seq<string>)

  predicate Mark(c: char) { c == '*' || c == '!' }

  function Door(to: string): string {
    if to != "" && Mark(to[|to| - 1]) then [to[|to| - 1]] else ""
  }

  /** The destination without its door marks. */
  function Dest(to: string): (d: string)
    ensures d <= to && (d != "" ==> !Mark(d[|d| - 1]))
    ensures forall k :: |d| <= k < |to| ==> Mark(to[k])
  {
    if to != "" && Mark(to[|to| - 1]) then Dest(to[..|to| - 1]) else to
  }

  predicate Matches(w: World, rid: string)
    requires rid in w.rooms
  {
    if '@' in w.want then rid == w.want
    else forall word | word in Words(w.want) :: Occurs(word, Lower(w.rooms[rid].title))
  }

  function Label(e: Exit): string { e.dir + Door(e.to) }

  /** Whether the walker may take exit `e`. */
  predicate Opens(w: World, hidden: bool, e: Exit) {
    var to := Dest(e.to);
    && to in w.rooms
    && (!w.rooms[to].water || Matches(w, to))
    && (hidden || Door(e.to) != "!")
  }

  ghost predicate Edge(w: World, hidden: bool, from: string, step: string, to: string) {
    && from in w.rooms
    && exists e :: e in w.rooms[from].exits && Opens(w, hidden, e) && Dest(e.to) == to && Label(e) == step
  }

  /** `path` is a walk over open exits, and `labels` are the directions typed on it. */
  ghost predicate IsRoute(w: World, hidden: bool, path: seq<string>, labels: seq<string>) {
    && |path| == |labels| + 1
    && (forall k :: 0 <= k < |path| ==> path[k] in w.rooms)
    && forall k :: 0 <= k < |labels| ==> Edge(w, hidden, path[k], labels[k], path[k + 1])
  }

  /** `path` is a walk from `start` to a room that matches. */
  ghost predicate Reaches(w: World, hidden: bool, start: string, path: seq<string>, labels: seq<string>) {
    IsRoute(w, hidden, path, labels) && path[0] == start && Matches(w, path[|labels|])
  }

  /** `path` reaches a matching room, and no other walk does so in fewer steps. */
  ghost predicate Shortest(w: World, hidden: bool, start: string, path: seq<string>, labels: seq<string>) {
    && Reaches(w, hidden, start, path, labels)
    && forall p, l :: Reaches(w, hidden, start, p, l) ==> |labels| <= |l|
  }

  /** A shortest walk meets no matching room and no water on its way: only its ends may be either. */
  lemma {:induction false} ShortestKeepsDry(w: World, hidden: bool, start: string, path: seq<string>,
                                            labels: seq<string>, k: nat)
    requires Shortest(w, hidden, start, path, labels)
    requires 0 < k < |labels|
    ensures !Matches(w, path[k]) && !w.rooms[path[k]].water
  {
    if Matches(w, path[k]) {
      assert Reaches(w, hidden, start, path[..k + 1], labels[..k]);
    }
    assert Edge(w, hidden, path[k - 1], labels[k - 1], path[k - 1 + 1]);
  }

  // ----- what that means for an exit as it is written

  /** The room id that an exit's text begins with: what follows it are * and ! only, and it does not end in one. */
  predicate Names(text: string, id: string) {
    && id <= text && (forall k :: |id| <= k < |text| ==> text[k] == '*' || text[k] == '!')
    && (id != "" ==> id[|id| - 1] != '*' && id[|id| - 1] != '!')
  }

  lemma DestExactly(text: string, id: string)
    ensures Names(text, id) <==> id == Dest(text)
  {
    var d := Dest(text);
    if Names(text, id) {
      assert id == text[..|id|] && d == text[..|d|];
    }
  }

  predicate EndsIn(s: string, c: char) {
    s != "" && s[|s| - 1] == c
  }

  /** A step goes from room to room over one of the exits there: to a room of the map, into water only to arrive, and
      through a door marked ! only when hidden doors count. What is typed is the direction, with the mark if any. */
  lemma StepExactly(w: World, hidden: bool, from: string, step: string, to: string)
    ensures Edge(w, hidden, from, step, to) <==>
      && from in w.rooms && to in w.rooms && (w.rooms[to].water ==> Matches(w, to))
      && exists e :: e in w.rooms[from].exits && Names(e.to, to) && (hidden || !EndsIn(e.to, '!'))
           && step == e.dir + if EndsIn(e.to, '*') then "*" else if EndsIn(e.to, '!') then "!" else ""
  {
    forall e: Exit ensures Names(e.to, to) <==> Dest(e.to) == to {
      DestExactly(e.to, to);
    }
  }

  /** Word `w` is somewhere in the title, whatever its capitals. */
  ghost predicate HasWord(title: string, word: string) {
    exists before, found, after :: title == before + found + after && Lower(found) == word
  }

  lemma HasWordExactly(title: string, word: string)
    ensures HasWord(title, word) <==> Occurs(word, Lower(title))
  {
    if before, found, after :| title == before + found + after && Lower(found) == word {
      assert Lower(title)[|before|..|before| + |word|] == word;
      assert OccursAt(word, Lower(title), |before|);
    }
    if i: nat :| i <= |title| && OccursAt(word, Lower(title), i) {
      var found := title[i..i + |word|];
      assert title == title[..i] + found + title[i + |word|..] && Lower(found) == word;
    }
  }

  /** A place looked for by its id is that room; else it is a room whose title has all the words. */
  lemma MatchesExactly(w: World, rid: string, words: seq<string>)
    requires rid in w.rooms && w.want == (if words == [] then "" else Join(words, ' '))
    requires forall x :: x in words ==> Word(x)
    ensures Matches(w, rid) <==>
      if exists x :: x in words && '@' in x then rid == w.want
      else forall x :: x in words ==> HasWord(w.rooms[rid].title, x)
  {
    if words != [] {
      WordsOfJoin(words);
      JoinText(words, ' ');
    }
    forall x ensures HasWord(w.rooms[rid].title, x) <==> Occurs(x, Lower(w.rooms[rid].title)) {
      HasWordExactly(w.rooms[rid].title, x);
    }
  }

  // ----- the search

  type Prev = map<string, Option<(string, string)>>

  /** Every room in the queue was met once, and `prev` leads back from it to the start. */
  ghost predicate Tree(w: World, start: string, hidden: bool, prev: Prev, queue: seq<string>, depth: map<string, nat>) {
    && |queue| > 0 && queue[0] == start
    && (forall a, b :: 0 <= a < b < |queue| ==> queue[a] != queue[b])
    && (forall x :: x in queue <==> x in prev)
    && (forall x :: x in queue ==> x in w.rooms)
    && prev.Keys == depth.Keys
    && prev[start] == None && depth[start] == 0
    && (forall x {:trigger Linked(w, hidden, prev, depth, x)} ::
          x in prev && x != start ==> Linked(w, hidden, prev, depth, x))
  }

  ghost predicate Linked(w: World, hidden: bool, prev: Prev, depth: map<string, nat>, x: string)
    requires x in prev && prev.Keys == depth.Keys
  {
    && prev[x].Some?
    && prev[x].value.0 in depth
    && Edge(w, hidden, prev[x].value.0, prev[x].value.1, x)
    && depth[x] == depth[prev[x].value.0] + 1
  }

  /** The queue is in order of depth, and nothing in it is more than one step beyond its i-th room. */
  ghost predicate Layered(queue: seq<string>, depth: map<string, nat>, i: nat) {
    && (forall x :: x in queue ==> x in depth)
    && (forall a, b :: 0 <= a < b < |queue| ==> depth[queue[a]] <= depth[queue[b]])
    && (i < |queue| ==> forall a :: 0 <= a < |queue| ==> depth[queue[a]] <= depth[queue[i]] + 1)
  }

  /** `to` was met, at most one step further than `x`. */
  ghost predicate Met(depth: map<string, nat>, x: string, to: string) {
    x in depth && to in depth && depth[to] <= depth[x] + 1
  }

  /** What the first `k` exits of room `x` lead to has been met, at most one step further than `x`. */
  ghost predicate Expanded(w: World, hidden: bool, depth: map<string, nat>, x: string, k: nat)
    requires x in w.rooms && k <= |w.rooms[x].exits|
  {
    forall n :: 0 <= n < k && Opens(w, hidden, w.rooms[x].exits[n]) ==> Met(depth, x, Dest(w.rooms[x].exits[n].to))
  }

  /** The first `i` rooms of the queue are dealt with: none matches, and all are expanded. */
  ghost predicate Done(w: World, hidden: bool, queue: seq<string>, depth: map<string, nat>, i: nat)
    requires i <= |queue| && forall x :: x in queue ==> x in w.rooms
  {
    forall a :: 0 <= a < i ==> !Matches(w, queue[a]) && Expanded(w, hidden, depth, queue[a], |w.rooms[queue[a]].exits|)
  }

  /** Any walk from the start either stays within what was met, or crosses a room still waiting. */
  lemma {:induction false} Frontier(w: World, start: string, hidden: bool, prev: Prev, queue: seq<string>,
                                    depth: map<string, nat>, i: nat, path: seq<string>, labels: seq<string>)
    requires Tree(w, start, hidden, prev, queue, depth) && i <= |queue| && Done(w, hidden, queue, depth, i)
    requires IsRoute(w, hidden, path, labels) && path[0] == start
    ensures (path[|labels|] in depth && depth[path[|labels|]] <= |labels|)
         || exists j :: i <= j < |queue| && depth[queue[j]] <= |labels|
    decreases |labels|
  {
    if |labels| > 0 {
      var n := |labels| - 1;
      Frontier(w, start, hidden, prev, queue, depth, i, path[..n + 1], labels[..n]);
      var x := path[n];
      if x in depth && depth[x] <= n {
        var j :| 0 <= j < |queue| && queue[j] == x;
        assert Edge(w, hidden, x, labels[n], path[n + 1]);
        if j < i {
          assert Expanded(w, hidden, depth, x, |w.rooms[x].exits|);
        }
      }
    }
  }

  /** When all rooms before the i-th are dealt with, no matching room is closer than the i-th. */
  lemma {:induction false} NoneCloser(w: World, start: string, hidden: bool, prev: Prev, queue: seq<string>,
                                      depth: map<string, nat>, i: nat, path: seq<string>, labels: seq<string>)
    requires Tree(w, start, hidden, prev, queue, depth) && i <= |queue| && Done(w, hidden, queue, depth, i)
    requires Layered(queue, depth, i)
    requires Reaches(w, hidden, start, path, labels)
    ensures i < |queue| && depth[queue[i]] <= |labels|
  {
    Frontier(w, start, hidden, prev, queue, depth, i, path, labels);
    var x := path[|labels|];
    if x in depth && depth[x] <= |labels| {
      var j :| 0 <= j < |queue| && queue[j] == x;
    }
  }

  /** The steps to `target`, walking `prev` back to the start. */
  method Backtrack(w: World, start: string, hidden: bool, prev: Prev, queue: seq<string>, ghost depth: map<string, nat>,
                   target: string)
    returns (steps: seq<string>, ghost path: seq<string>)
    requires Tree(w, start, hidden, prev, queue, depth) && target in prev
    ensures IsRoute(w, hidden, path, steps) && path[0] == start && path[|steps|] == target
    ensures |steps| == depth[target]
  {
    var rid := target;
    steps, path := [], [target];
    while prev[rid].Some?
      invariant rid in prev && |steps| + depth[rid] == depth[target]
      invariant IsRoute(w, hidden, path, steps) && path[0] == rid && path[|steps|] == target
      decreases depth[rid]
    {
      assert Linked(w, hidden, prev, depth, rid);
      var (rid0, d) := prev[rid].value;
      steps, path := [d] + steps, [rid0] + path;
      rid := rid0;
    }
    assert rid == start || Linked(w, hidden, prev, depth, rid);
  }

  /** The i-th room's exit `e` leads to a room met for the first time, which goes to the end of the queue. */
  ghost predicate Enters(prev: Prev, queue: seq<string>, depth: map<string, nat>, i: nat, e: Exit,
                         prev': Prev, queue': seq<string>, depth': map<string, nat>)
  {
    && i < |queue| && (forall x :: x in queue ==> x in depth) && (forall x :: x in queue <==> x in prev)
    && Dest(e.to) !in prev
    && prev' == prev[Dest(e.to) := Some((queue[i], Label(e)))]
    && queue' == queue + [Dest(e.to)]
    && depth' == depth[Dest(e.to) := depth[queue[i]] + 1]
  }

  lemma EnterKeepsTree(w: World, start: string, hidden: bool, prev: Prev, queue: seq<string>, depth: map<string, nat>,
                       i: nat, e: Exit, prev': Prev, queue': seq<string>, depth': map<string, nat>)
    requires Tree(w, start, hidden, prev, queue, depth)
    requires Enters(prev, queue, depth, i, e, prev', queue', depth')
    requires e in w.rooms[queue[i]].exits && Opens(w, hidden, e)
    ensures Tree(w, start, hidden, prev', queue', depth')
  {
    assert Edge(w, hidden, queue[i], Label(e), Dest(e.to));
    forall x | x in prev' && x != start ensures Linked(w, hidden, prev', depth', x) {
      assert x == Dest(e.to) || Linked(w, hidden, prev, depth, x);
    }
  }

  lemma EnterKeepsLayers(prev: Prev, queue: seq<string>, depth: map<string, nat>, i: nat, e: Exit,
                         prev': Prev, queue': seq<string>, depth': map<string, nat>)
    requires Layered(queue, depth, i)
    requires Enters(prev, queue, depth, i, e, prev', queue', depth')
    ensures Layered(queue', depth', i)
  {
  }

  lemma EnterKeepsExpanded(w: World, hidden: bool, prev: Prev, queue: seq<string>, depth: map<string, nat>, i: nat,
                           e: Exit, prev': Prev, queue': seq<string>, depth': map<string, nat>, x: string, n: nat)
    requires Enters(prev, queue, depth, i, e, prev', queue', depth')
    requires prev.Keys == depth.Keys
    requires x in w.rooms && n <= |w.rooms[x].exits| && Expanded(w, hidden, depth, x, n)
    ensures Expanded(w, hidden, depth', x, n)
    ensures n < |w.rooms[x].exits| && x == queue[i] && w.rooms[x].exits[n] == e ==>
      Expanded(w, hidden, depth', x, n + 1)
  {
    forall a, b | Met(depth, a, b) ensures Met(depth', a, b) {
    }
  }

  lemma EnterKeepsDone(w: World, start: string, hidden: bool, prev: Prev, queue: seq<string>, depth: map<string, nat>,
                       i: nat, e: Exit, prev': Prev, queue': seq<string>, depth': map<string, nat>)
    requires Tree(w, start, hidden, prev, queue, depth) && Tree(w, start, hidden, prev', queue', depth')
    requires Enters(prev, queue, depth, i, e, prev', queue', depth')
    requires Done(w, hidden, queue, depth, i)
    ensures Done(w, hidden, queue', depth', i)
  {
    forall a | 0 <= a < i
      ensures !Matches(w, queue'[a]) && Expanded(w, hidden, depth', queue'[a], |w.rooms[queue'[a]].exits|)
    {
      EnterKeepsExpanded(w, hidden, prev, queue, depth, i, e, prev', queue', depth',
                         queue[a], |w.rooms[queue[a]].exits|);
    }
  }

  /** Putting a newly met room at the end of the queue keeps all that the search maintains. */
  lemma EnterKeeps(w: World, start: string, hidden: bool, prev: Prev, queue: seq<string>, depth: map<string, nat>,
                   i: nat, k: nat, prev': Prev, queue': seq<string>, depth': map<string, nat>)
    requires Tree(w, start, hidden, prev, queue, depth) && i < |queue|
    requires Done(w, hidden, queue, depth, i) && Layered(queue, depth, i)
    requires k < |w.rooms[queue[i]].exits| && Expanded(w, hidden, depth, queue[i], k)
    requires Opens(w, hidden, w.rooms[queue[i]].exits[k])
    requires Enters(prev, queue, depth, i, w.rooms[queue[i]].exits[k], prev', queue', depth')
    ensures Tree(w, start, hidden, prev', queue', depth')
    ensures Done(w, hidden, queue', depth', i) && Layered(queue', depth', i)
    ensures Expanded(w, hidden, depth', queue'[i], k + 1)
  {
    var e := w.rooms[queue[i]].exits[k];
    EnterKeepsTree(w, start, hidden, prev, queue, depth, i, e, prev', queue', depth');
    EnterKeepsLayers(prev, queue, depth, i, e, prev', queue', depth');
    EnterKeepsDone(w, start, hidden, prev, queue, depth, i, e, prev', queue', depth');
    EnterKeepsExpanded(w, hidden, prev, queue, depth, i, e, prev', queue', depth', queue[i], k);
  }

  /** An exit that cannot be taken, or leads to a room met before, needs nothing. */
  lemma SkipKeeps(w: World, start: string, hidden: bool, prev: Prev, queue: seq<string>, depth: map<string, nat>,
                  i: nat, k: nat)
    requires Tree(w, start, hidden, prev, queue, depth) && i < |queue| && Layered(queue, depth, i)
    requires k < |w.rooms[queue[i]].exits| && Expanded(w, hidden, depth, queue[i], k)
    requires !Opens(w, hidden, w.rooms[queue[i]].exits[k]) || Dest(w.rooms[queue[i]].exits[k].to) in prev
    ensures Expanded(w, hidden, depth, queue[i], k + 1)
  {
    var to := Dest(w.rooms[queue[i]].exits[k].to);
    if to in prev {
      var j :| 0 <= j < |queue| && queue[j] == to;
      assert Met(depth, queue[i], to);
    }
  }

  /** The queue holds each room at most once, so it is no longer than the map. */
  lemma {:induction false} NoLongerThan(queue: seq<string>, rooms: set<string>)
    requires forall a, b :: 0 <= a < b < |queue| ==> queue[a] != queue[b]
    requires forall x :: x in queue ==> x in rooms
    ensures |queue| <= |rooms|
  {
    if queue != [] {
      var n := |queue| - 1;
      forall x | x in queue[..n] ensures x in rooms - {queue[n]} {
      }
      NoLongerThan(queue[..n], rooms - {queue[n]});
    }
  }

  /** Looks through the exits of the i-th room in the queue, and queues the rooms first met there. */
  method Expand(w: World, start: string, hidden: bool, i: nat, prev0: Prev, queue0: seq<string>,
                ghost depth0: map<string, nat>)
    returns (prev: Prev, queue: seq<string>, ghost depth: map<string, nat>)
    requires Tree(w, start, hidden, prev0, queue0, depth0) && i < |queue0|
    requires Done(w, hidden, queue0, depth0, i) && Layered(queue0, depth0, i)
    ensures Tree(w, start, hidden, prev, queue, depth) && i < |queue| && queue[i] == queue0[i]
    ensures Done(w, hidden, queue, depth, i) && Layered(queue, depth, i)
    ensures Expanded(w, hidden, depth, queue[i], |w.rooms[queue[i]].exits|)
  {
    prev, queue, depth := prev0, queue0, depth0;
    var rid := queue[i];
    var exits := w.rooms[rid].exits;
    var k := 0;
    while k < |exits|
      invariant k <= |exits| && i < |queue| && queue[i] == rid
      invariant Tree(w, start, hidden, prev, queue, depth)
      invariant Done(w, hidden, queue, depth, i) && Layered(queue, depth, i)
      invariant Expanded(w, hidden, depth, queue[i], k)
    {
      var e := exits[k];
      var to := Dest(e.to);
      if to in w.rooms && to !in prev && (!w.rooms[to].water || Matches(w, to)) && (hidden || Door(e.to) != "!") {
        EnterKeeps(w, start, hidden, prev, queue, depth, i, k,
                   prev[to := Some((rid, Label(e)))], queue + [to], depth[to := depth[rid] + 1]);
        prev, queue, depth := prev[to := Some((rid, Label(e)))], queue + [to], depth[to := depth[rid] + 1];
      } else {
        SkipKeeps(w, start, hidden, prev, queue, depth, i, k);
      }
      k := k + 1;
    }
  }

  lemma AtTheStart(w: World, start: string, hidden: bool)
    requires start in w.rooms
    ensures Tree(w, start, hidden, map[start := None], [start], map[start := 0])
    ensures Done(w, hidden, [start], map[start := 0], 0) && Layered([start], map[start := 0], 0)
  {
  }

  lemma OneMoreDone(w: World, start: string, hidden: bool, prev: Prev, queue: seq<string>, depth: map<string, nat>,
                    i: nat)
    requires Tree(w, start, hidden, prev, queue, depth) && i < |queue|
    requires Done(w, hidden, queue, depth, i) && Layered(queue, depth, i)
    requires !Matches(w, queue[i]) && Expanded(w, hidden, depth, queue[i], |w.rooms[queue[i]].exits|)
    ensures Done(w, hidden, queue, depth, i + 1) && Layered(queue, depth, i + 1)
    ensures |queue| <= |w.rooms|
  {
    NoLongerThan(queue, w.rooms.Keys);
  }

  lemma FoundIsShortest(w: World, start: string, hidden: bool, prev: Prev, queue: seq<string>, depth: map<string, nat>,
                        i: nat, path: seq<string>, steps: seq<string>)
    requires Tree(w, start, hidden, prev, queue, depth) && i < |queue|
    requires Done(w, hidden, queue, depth, i) && Layered(queue, depth, i)
    requires Reaches(w, hidden, start, path, steps) && |steps| == depth[queue[i]]
    ensures Shortest(w, hidden, start, path, steps)
  {
    forall p, l | Reaches(w, hidden, start, p, l) ensures |steps| <= |l| {
      NoneCloser(w, start, hidden, prev, queue, depth, i, p, l);
    }
  }

  lemma NothingFound(w: World, start: string, hidden: bool, prev: Prev, queue: seq<string>, depth: map<string, nat>)
    requires Tree(w, start, hidden, prev, queue, depth)
    requires Done(w, hidden, queue, depth, |queue|) && Layered(queue, depth, |queue|)
    ensures !exists path, labels :: Reaches(w, hidden, start, path, labels)
  {
    forall path, labels | Reaches(w, hidden, start, path, labels) ensures false {
      NoneCloser(w, start, hidden, prev, queue, depth, |queue|, path, labels);
    }
  }

  /** One run of the search: a shortest walk to a matching room, or None when there is no walk at all. */
  method Search(w: World, start: string, hidden: bool) returns (r: Option<Route>)
    requires start in w.rooms
    ensures r.Some? ==> exists path :: Shortest(w, hidden, start, path, r.value.steps)
                                    && path[|r.value.steps|] == r.value.target
    ensures r.None? ==> !exists path, labels :: Reaches(w, hidden, start, path, labels)
  {
    var prev: Prev := map[start := None];
    var queue := [start];
    ghost var depth: map<string, nat> := map[start := 0];
    var i := 0;
    AtTheStart(w, start, hidden);
    while i < |queue|
      invariant i <= |queue|
      invariant Tree(w, start, hidden, prev, queue, depth)
      invariant Done(w, hidden, queue, depth, i) && Layered(queue, depth, i)
      decreases |w.rooms| - i
    {
      var rid := queue[i];
      if Matches(w, rid) {
        ghost var path;
        var steps;
        steps, path := Backtrack(w, start, hidden, prev, queue, depth, rid);
        FoundIsShortest(w, start, hidden, prev, queue, depth, i, path, steps);
        return Some(Route(rid, steps));
      }
      prev, queue, depth := Expand(w, start, hidden, i, prev, queue, depth);
      OneMoreDone(w, start, hidden, prev, queue, depth, i);
      i := i + 1;
    }
    NothingFound(w, start, hidden, prev, queue, depth);
    return None;
  }

  /** What the walker is told. */
  datatype Answer = NotOnTheMap | NoWay | Directions(route: Route)

  /** Hidden doors are used only when nothing else leads there: they have to be found first. */
  method FindWay(w: World, start: string) returns (a: Answer)
    ensures a.NotOnTheMap? <==> start !in w.rooms
    ensures a.Directions? ==> exists path, hidden ::
      && Shortest(w, hidden, start, path, a.route.steps)
      && path[|a.route.steps|] == a.route.target
      && (hidden ==> !exists p, l :: Reaches(w, false, start, p, l))
    ensures a.NoWay? ==> !exists path, labels, hidden :: Reaches(w, hidden, start, path, labels)
  {
    if start !in w.rooms {
      return NotOnTheMap;
    }
    var r := Search(w, start, false);
    if r.None? {
      r := Search(w, start, true);
    }
    return if r.None? then NoWay else Directions(r.value);
  }
}
