/** Where a unit ends up: its places followed outwards, through monsters and containers, to rooms. */
module RoomsOfUnits {
  import opened Text
  import opened Resetting

  // ----- sorted lists without duplicates

  /** `a < b` on strings. */
  predicate Less(a: string, b: string) {
    if b == "" then false
    else if a == "" then true
    else a[0] < b[0] || (a[0] == b[0] && Less(a[1..], b[1..]))
  }

  /** The texts agree in their first `k` characters, and then `a` is at its end or has the smaller character. */
  predicate DifferAt(a: string, b: string, k: nat) {
    && k <= |a| && k < |b| && a[..k] == b[..k]
    && (k == |a| || a[k] < b[k])
  }

  /** One text is before another where they first differ, or when it is the beginning of the other. */
  lemma {:induction false} LessExactly(a: string, b: string)
    ensures Less(a, b) <==> exists k: nat :: DifferAt(a, b, k)
  {
    if a != "" && b != "" && a[0] == b[0] {
      LessExactly(a[1..], b[1..]);
      if k: nat :| DifferAt(a[1..], b[1..], k) {
        assert a[..k + 1] == [a[0]] + a[1..][..k] && b[..k + 1] == [b[0]] + b[1..][..k];
        assert DifferAt(a, b, k + 1);
      }
      if k: nat :| DifferAt(a, b, k) {
        assert k > 0 && a[1..][..k - 1] == a[..k][1..] && b[1..][..k - 1] == b[..k][1..];
        assert DifferAt(a[1..], b[1..], k - 1);
      }
    } else if a == "" || b == "" || a[0] < b[0] {
      assert b != "" ==> DifferAt(a, b, 0);
    } else if k: nat :| DifferAt(a, b, k) {
      FirstAgrees(a, b, k);
    }
  }

  lemma FirstAgrees(a: string, b: string, k: nat)
    requires k <= |a| && k <= |b| && a[..k] == b[..k]
    ensures k > 0 ==> a[0] == b[0]
  {
    assert k > 0 ==> a[..k][0] == a[0] && b[..k][0] == b[0];
  }

  lemma {:induction false} LessTotal(a: string, b: string)
    ensures Less(a, b) || a == b || Less(b, a)
    ensures !(Less(a, b) && Less(b, a)) && !Less(a, a)
  {
    if a != "" && b != "" && a[0] == b[0] {
      LessTotal(a[1..], b[1..]);
      assert a == [a[0]] + a[1..] && b == [b[0]] + b[1..];
    }
    NotBelowItself(a);
  }

  lemma {:induction false} NotBelowItself(a: string)
    ensures !Less(a, a)
  {
    if a != "" { NotBelowItself(a[1..]); }
  }

  lemma {:induction false} LessTransitive(a: string, b: string, c: string)
    requires Less(a, b) && Less(b, c)
    ensures Less(a, c)
  {
    if a != "" && a[0] == b[0] && b[0] == c[0] {
      LessTransitive(a[1..], b[1..], c[1..]);
    }
  }

  predicate Increasing(s: seq<string>) {
    forall i, j :: 0 <= i < j < |s| ==> Less(s[i], s[j])
  }

  function Insert(x: string, s: seq<string>): (r: seq<string>)
    requires Increasing(s)
    ensures Increasing(r) && forall y :: y in r <==> y == x || y in s
  {
    if s == [] then [x]
    else if x == s[0] then s
    else if Less(x, s[0]) then
      assert forall j :: 0 < j < |s| ==> Less(x, s[j]) by {
        forall j | 0 < j < |s| ensures Less(x, s[j]) { LessTransitive(x, s[0], s[j]); }
      }
      [x] + s
    else
      LessTotal(x, s[0]);
      var r := Insert(x, s[1..]);
      assert forall y :: y in r ==> Less(s[0], y);
      [s[0]] + r
  }

  /** `sorted(set(out))`. */
  function SortedSet(out: seq<string>): (r: seq<string>)
    ensures Increasing(r) && forall y :: y in r <==> y in out
  {
    if out == [] then [] else Insert(out[0], SortedSet(out[1..]))
  }

  // ----- the search

  /** Whether the search goes from a place to the unit around it. */
  predicate Follows(p: Place, seen: set<string>) {
    p.parent.Some? && p.parent.value !in seen
  }

  function Measure(places: Places, seen: set<string>): nat {
    |places.Keys - seen|
  }

  lemma Shrinks(places: Places, seen: set<string>, sym: string)
    requires sym in places
    ensures Measure(places, seen + {sym}) <= Measure(places, seen)
    ensures sym !in seen ==> Measure(places, seen + {sym}) < Measure(places, seen)
  {
    var a, b := places.Keys - (seen + {sym}), places.Keys - seen;
    if sym !in seen {
      assert b == a + {sym} && sym !in a;
    } else {
      assert a == b;
    }
  }

  /** `path` goes from unit to unit outwards, as the search does, and room `r` is found at its end. */
  ghost predicate Leads(places: Places, seen: set<string>, path: seq<string>, r: string)
    decreases |path|
  {
    && path != []
    && if |path| == 1 then
         exists p :: p in At(places, path[0]) && !Follows(p, seen) && p.room == Some(r)
       else
         && (exists p :: p in At(places, path[0]) && Follows(p, seen) && p.parent == Some(path[1]))
         && Leads(places, seen + {path[0]}, path[1..], r)
  }

  ghost predicate Found(places: Places, sym: string, seen: set<string>, r: string) {
    exists path :: Leads(places, seen, path, r) && path[0] == sym
  }

  /** The rooms a unit is loaded into, for any table: it terminates although places may go round in circles. */
  method RoomsOf(places: Places, sym: string, seen: set<string>) returns (rooms: seq<string>)
    ensures Increasing(rooms)
    ensures forall r :: r in rooms <==> Found(places, sym, seen, r)
    decreases Measure(places, seen), sym in seen
  {
    var out := [];
    var here := At(places, sym);
    for k := 0 to |here|
      invariant forall r :: r in out <==> exists n :: 0 <= n < k && FoundBy(places, sym, seen, here[n], r)
    {
      var p := here[k];
      ghost var before := out;
      if Follows(p, seen) {
        Shrinks(places, seen, sym);
        var inner := RoomsOf(places, p.parent.value, seen + {sym});
        out := out + inner;
      } else if p.room.Some? {
        out := out + [p.room.value];
      }
      assert forall r :: r in out <==> r in before || FoundBy(places, sym, seen, p, r);
    }
    forall r ensures r in out <==> Found(places, sym, seen, r) {
      FoundByPlaces(places, sym, seen, r);
    }
    rooms := SortedSet(out);
  }

  /** What one place of a unit contributes. */
  ghost predicate FoundBy(places: Places, sym: string, seen: set<string>, p: Place, r: string) {
    if Follows(p, seen) then Found(places, p.parent.value, seen + {sym}, r) else p.room == Some(r)
  }

  lemma FoundByPlaces(places: Places, sym: string, seen: set<string>, r: string)
    ensures Found(places, sym, seen, r) <==> exists p :: p in At(places, sym) && FoundBy(places, sym, seen, p, r)
  {
    if path :| Leads(places, seen, path, r) && path[0] == sym {
      if |path| > 1 {
        var p :| p in At(places, sym) && Follows(p, seen) && p.parent == Some(path[1]);
        assert Leads(places, seen + {sym}, path[1..], r);
        assert FoundBy(places, sym, seen, p, r);
      } else {
        var p :| p in At(places, sym) && !Follows(p, seen) && p.room == Some(r);
        assert FoundBy(places, sym, seen, p, r);
      }
    }
    if p :| p in At(places, sym) && FoundBy(places, sym, seen, p, r) {
      if Follows(p, seen) {
        var path :| Leads(places, seen + {sym}, path, r) && path[0] == p.parent.value;
        assert ([sym] + path)[1..] == path;
        assert Leads(places, seen, [sym] + path, r);
      } else {
        assert Leads(places, seen, [sym], r);
      }
    }
  }

  // ----- tables without circles

  /** Each unit of `path` is loaded inside the next. */
  ghost predicate Outwards(places: Places, path: seq<string>) {
    && path != []
    && forall k :: 0 <= k < |path| - 1 ==> Inside(places, path[k], path[k + 1])
  }

  ghost predicate Inside(places: Places, sym: string, around: string) {
    exists p :: p in At(places, sym) && p.parent == Some(around)
  }

  /** No unit is, however indirectly, inside itself. */
  ghost predicate Acyclic(places: Places) {
    forall path :: Outwards(places, path) && |path| > 1 ==> path[0] != path[|path| - 1]
  }

  /** Some place of the unit is in room `r` itself, inside nothing. */
  ghost predicate LiesIn(places: Places, sym: string, r: string) {
    exists p :: p in At(places, sym) && p.parent == None && p.room == Some(r)
  }

  lemma {:induction false} LeadsOutwards(places: Places, before: seq<string>, path: seq<string>, r: string)
    requires Acyclic(places) && path != [] && Outwards(places, before + [path[0]])
    ensures Leads(places, Set(before), path, r)
       <==> Outwards(places, path) && LiesIn(places, path[|path| - 1], r)
    decreases |path|
  {
    var x, seen := path[0], Set(before);
    forall p | p in At(places, x) && p.parent.Some? ensures Follows(p, seen) {
      if p.parent.value in seen {
        var k :| 0 <= k < |before| && before[k] == p.parent.value;
        Circle(places, before, x, k, p.parent.value, before[k..] + [x, p.parent.value]);
      }
    }
    if |path| > 1 {
      if Inside(places, x, path[1]) {
        Extend(places, before, x, path[1]);
        assert Set(before + [x]) == seen + {x};
        LeadsOutwards(places, before + [x], path[1..], r);
        OutwardsStep(places, path);
      }
    }
  }

  function Set(s: seq<string>): set<string> {
    set x | x in s
  }

  lemma Circle(places: Places, before: seq<string>, x: string, k: nat, around: string, circle: seq<string>)
    requires k < |before| && Outwards(places, before + [x]) && Inside(places, x, around)
    requires circle == before[k..] + [x, around]
    ensures Outwards(places, circle) && |circle| > 1 && circle[0] == before[k] && circle[|circle| - 1] == around
  {
    var path := before + [x];
    forall i | 0 <= i < |circle| - 1 ensures Inside(places, circle[i], circle[i + 1]) {
      if i < |circle| - 2 {
        assert circle[i] == path[k + i] && circle[i + 1] == path[k + i + 1];
      }
    }
  }

  lemma Extend(places: Places, before: seq<string>, x: string, around: string)
    requires Outwards(places, before + [x]) && Inside(places, x, around)
    ensures Outwards(places, before + [x] + [around])
  {
    var path, longer := before + [x], before + [x] + [around];
    forall i | 0 <= i < |longer| - 1 ensures Inside(places, longer[i], longer[i + 1]) {
      assert longer[i] == path[i];
      if i < |path| - 1 { assert longer[i + 1] == path[i + 1]; }
    }
  }

  lemma OutwardsStep(places: Places, path: seq<string>)
    requires |path| > 1
    ensures Outwards(places, path) <==> Inside(places, path[0], path[1]) && Outwards(places, path[1..])
  {
    if Inside(places, path[0], path[1]) && Outwards(places, path[1..]) {
      forall i | 0 <= i < |path| - 1 ensures Inside(places, path[i], path[i + 1]) {
        if i > 0 { assert path[i] == path[1..][i - 1] && path[i + 1] == path[1..][i]; }
      }
    }
    if Outwards(places, path) {
      forall i | 0 <= i < |path| - 2 ensures Inside(places, path[1..][i], path[1..][i + 1]) {
        assert path[1..][i] == path[i + 1] && path[1..][i + 1] == path[i + 2];
      }
      assert Inside(places, path[0], path[0 + 1]);
    }
  }

  /** Where nothing is inside itself, the rooms found are just those in which the unit, or something around it, lies. */
  lemma AcyclicRooms(places: Places, sym: string, r: string)
    requires Acyclic(places)
    ensures Found(places, sym, {}, r)
       <==> exists path :: Outwards(places, path) && path[0] == sym && LiesIn(places, path[|path| - 1], r)
  {
    assert Outwards(places, [] + [sym]);
    forall path: seq<string> | path != [] && path[0] == sym
      ensures Leads(places, {}, path, r) <==> Outwards(places, path) && LiesIn(places, path[|path| - 1], r)
    {
      LeadsOutwards(places, [], path, r);
      assert Set([]) == {};
    }
  }
}
