/** Which units run a script: those that start it, or start one that calls it, directly or not. */
module GiversOfDils {
  type Table = map<string, set<string>>

  function At(t: Table, key: string): set<string> {
    if key in t then t[key] else {}
  }

  /** What the table has for a key, if it has the key. */
  lemma AtExactly(t: Table, key: string, x: string)
    ensures x in At(t, key) <==> key in t && x in t[key]
  {
  }

  /** Each dil of `path` is called by the next. */
  ghost predicate Called(callers: Table, path: seq<string>) {
    && path != []
    && forall k :: 0 <= k < |path| - 1 ==> path[k + 1] in At(callers, path[k])
  }

  ghost predicate Reaches(callers: Table, dil: string, d: string) {
    exists path :: Called(callers, path) && path[0] == dil && path[|path| - 1] == d
  }

  lemma ReachesItself(callers: Table, dil: string)
    ensures Reaches(callers, dil, dil)
  {
    assert Called(callers, [dil]);
  }

  lemma ReachesOn(callers: Table, dil: string, d: string, c: string)
    requires Reaches(callers, dil, d) && c in At(callers, d)
    ensures Reaches(callers, dil, c)
  {
    var path :| Called(callers, path) && path[0] == dil && path[|path| - 1] == d;
    var longer := path + [c];
    forall k | 0 <= k < |longer| - 1 ensures longer[k + 1] in At(callers, longer[k]) {
      assert k < |path| - 1 ==> path[k + 1] in At(callers, path[k]);
    }
    assert Called(callers, longer);
  }

  /** A set with the dil in it that is closed under callers has all that reach it. */
  lemma {:induction false} ClosedHasAll(callers: Table, s: set<string>, path: seq<string>)
    requires Called(callers, path) && path[0] in s && forall d :: d in s ==> At(callers, d) <= s
    ensures path[|path| - 1] in s
    decreases |path|
  {
    if |path| > 1 {
      assert path[0 + 1] in At(callers, path[0]);
      forall k | 0 <= k < |path| - 2 ensures path[1..][k + 1] in At(callers, path[1..][k]) {
        assert path[1..][k] == path[k + 1] && path[1..][k + 1] == path[k + 1 + 1];
      }
      ClosedHasAll(callers, s, path[1..]);
    }
  }

  lemma CallersReach(callers: Table, dil: string, d: string)
    requires Reaches(callers, dil, d)
    ensures forall c :: c in At(callers, d) ==> Reaches(callers, dil, c) && c in Universe(callers, dil)
  {
    forall c | c in At(callers, d) ensures Reaches(callers, dil, c) {
      ReachesOn(callers, dil, d, c);
    }
  }

  lemma ReachedIsDone(callers: Table, dil: string, done: set<string>)
    requires dil in done && forall d :: d in done ==> At(callers, d) <= done
    ensures forall d :: Reaches(callers, dil, d) ==> d in done
  {
    forall d | Reaches(callers, dil, d) ensures d in done {
      var path :| Called(callers, path) && path[0] == dil && path[|path| - 1] == d;
      ClosedHasAll(callers, done, path);
    }
  }

  /** All that the table speaks of. */
  function Universe(callers: Table, dil: string): set<string> {
    {dil} + set d, c | d in callers && c in callers[d] :: c
  }

  /** The callers of `d` that are new go on the list of what is to do, in some order. */
  method Push(todo: seq<string>, fresh': set<string>) returns (more: seq<string>)
    requires Distinct(todo) && forall d :: d in todo ==> d !in fresh'
    ensures Distinct(more) && forall d :: d in more <==> d in todo || d in fresh'
  {
    more := todo;
    var rest := fresh';
    while rest != {}
      invariant rest <= fresh' && Distinct(more)
      invariant forall d :: d in more <==> d in todo || d in fresh' - rest
      decreases rest
    {
      var c :| c in rest;
      rest := rest - {c};
      more := more + [c];
    }
  }

  ghost predicate Distinct(s: seq<string>) {
    forall i, j :: 0 <= i < j < |s| ==> s[i] != s[j]
  }

  /** What was seen is what is done and what is still to do, and the callers of what is done were all seen. */
  ghost predicate Worklist(callers: Table, dil: string, seen: set<string>, todo: seq<string>, done: set<string>) {
    && Distinct(todo)
    && (forall d :: d in seen <==> d in done || d in todo) && (forall d :: d in todo ==> d !in done)
    && dil in seen && seen <= Universe(callers, dil)
    && (forall d :: d in seen ==> Reaches(callers, dil, d))
    && (forall d :: d in done ==> At(callers, d) <= seen)
  }

  lemma NextDil(callers: Table, dil: string, seen: set<string>, todo: seq<string>, done: set<string>,
                rest: seq<string>, d: string, todo': seq<string>)
    requires Worklist(callers, dil, seen, todo, done) && todo == rest + [d]
    requires Distinct(todo') && forall c :: c in todo' <==> c in rest || c in At(callers, d) - seen
    ensures Worklist(callers, dil, seen + At(callers, d), todo', done + {d})
    ensures d !in done && d in Universe(callers, dil)
  {
    assert d in todo && forall c :: c in rest ==> c in todo;
    forall k | 0 <= k < |rest| ensures rest[k] != d {
      assert todo[k] == rest[k] && todo[|rest|] == d;
    }
    CallersReach(callers, dil, d);
  }

  /** The units that start a dil which reaches `dil`: each dil is dealt with once, although calls may go in circles. */
  method Givers(started: Table, callers: Table, dil: string) returns (out: set<string>)
    ensures forall u :: u in out <==> exists d :: Reaches(callers, dil, d) && u in At(started, d)
  {
    out := {};
    var seen, todo := {dil}, [dil];
    ghost var done: set<string> := {};
    ReachesItself(callers, dil);
    while todo != []
      invariant Worklist(callers, dil, seen, todo, done)
      invariant forall u :: u in out <==> exists d :: d in done && u in At(started, d)
      decreases Universe(callers, dil) - done
    {
      var d, rest := todo[|todo| - 1], todo[..|todo| - 1];
      assert todo == rest + [d];
      out := out + At(started, d);
      var todo' := Push(rest, At(callers, d) - seen);
      NextDil(callers, dil, seen, todo, done, rest, d, todo');
      todo, seen, done := todo', seen + At(callers, d), done + {d};
    }
    ReachedIsDone(callers, dil, done);
  }
}
