/** What waits for the agent: a bounded buffer of unread text, and the watch for a rebooted mud. */
module Sessions {
  import opened Text

  const MAX_UNREAD := 100000
  const OVERLAP := 40
  const MARKER := "[... earlier output dropped ...]\n"
  const PROMPT := "By what name do they call you"

  /** `s[-n:]`. */
  function Last(s: string, n: nat): string {
    if n >= |s| then s else s[|s| - n..]
  }

  /** The number of newlines that `s` starts with. */
  function Newlines(s: string): (n: nat)
    ensures n <= |s| && forall k :: 0 <= k < n ==> s[k] == '\n'
    ensures n < |s| ==> s[n] != '\n'
  {
    if s != "" && s[0] == '\n' then 1 + Newlines(s[1..]) else 0
  }

  /** Three newlines or more in a row become two. */
  function Squeeze(s: string): string
    decreases |s|
  {
    if s == "" then ""
    else
      var n := Newlines(s);
      if n == 0 then [s[0]] + Squeeze(s[1..])
      else s[..if n < 2 then n else 2] + Squeeze(s[n..])
  }

  /** No more than two newlines in a row. */
  predicate AtMostTwo(s: string) {
    s != "" ==> Newlines(s) <= 2 && AtMostTwo(s[1..])
  }

  lemma {:induction false} LinesThen(lines: string, rest: string)
    requires |lines| <= 2 && (forall c :: c in lines ==> c == '\n') && Newlines(rest) == 0 && AtMostTwo(rest)
    ensures Newlines(lines + rest) == |lines| && AtMostTwo(lines + rest)
  {
    if lines == "" {
      assert lines + rest == rest;
    } else {
      assert lines[0] in lines && forall c :: c in lines[1..] ==> c in lines;
      DropPrefix(lines, rest, 1);
      LinesThen(lines[1..], rest);
    }
  }

  lemma {:induction false} SqueezedAtMostTwo(s: string)
    ensures AtMostTwo(Squeeze(s))
    ensures Newlines(Squeeze(s)) == if Newlines(s) < 2 then Newlines(s) else 2
    decreases |s|
  {
    if s != "" {
      var n := Newlines(s);
      if n == 0 {
        SqueezedAtMostTwo(s[1..]);
        DropPrefix([s[0]], Squeeze(s[1..]), 1);
      } else {
        SqueezedAtMostTwo(s[n..]);
        LinesThen(s[..if n < 2 then n else 2], Squeeze(s[n..]));
      }
    }
  }

  lemma {:induction false} AtMostTwoDrop(s: string, n: nat)
    requires AtMostTwo(s) && n <= |s|
    ensures AtMostTwo(s[n..])
  {
    if n > 0 {
      AtMostTwoDrop(s[1..], n - 1);
      DropDrop(s, 1, n - 1);
    } else {
      assert s[0..] == s;
    }
  }

  lemma {:induction false} UnsqueezedIsKept(s: string)
    requires AtMostTwo(s)
    ensures Squeeze(s) == s
    decreases |s|
  {
    if s != "" {
      var n := if Newlines(s) == 0 then 1 else Newlines(s);
      AtMostTwoDrop(s, n);
      UnsqueezedIsKept(s[n..]);
      assert s == s[..n] + s[n..];
    }
  }

  /** What is squeezed has no three newlines in a row, and only a text that has them is changed. */
  lemma SqueezeExactly(s: string)
    ensures AtMostTwo(Squeeze(s))
    ensures Squeeze(s) == s <==> AtMostTwo(s)
  {
    SqueezedAtMostTwo(s);
    if AtMostTwo(s) {
      UnsqueezedIsKept(s);
    }
  }

  // ----- the unread text

  /** What is kept of all the text added since it was last taken. */
  function Kept(added: string): string {
    if |added| <= MAX_UNREAD then added else MARKER + Last(added, MAX_UNREAD)
  }

  /** Up to 100000 characters all is kept, and beyond that a line that says so and the last 100000. */
  lemma KeptExactly(dropped: string, last: string)
    ensures |dropped| + |last| <= 100000 ==> Kept(dropped + last) == dropped + last
    ensures dropped != "" && |last| == 100000 ==>
      Kept(dropped + last) == "[... earlier output dropped ...]\n" + last
  {
    DropPrefix(dropped, last, |dropped|);
  }

  /** What `add` makes of the unread text. */
  function Bounded(unread: string): string {
    if |unread| > MAX_UNREAD then MARKER + Last(unread, MAX_UNREAD) else unread
  }

  /** The buffer is all that was added or one marker and the end of it, however many times it overflowed. */
  lemma {:induction false} KeptAfter(added: string, txt: string)
    ensures Bounded(Kept(added) + txt) == Kept(added + txt)
    ensures |Kept(added)| <= |MARKER| + MAX_UNREAD
  {
    if |added| > MAX_UNREAD {
      var kept := Last(added, MAX_UNREAD);
      LastOfEnd(added, kept, txt);
      Associates(MARKER, kept, txt);
      LastOfEnd(MARKER + kept, kept, txt);
    }
  }

  /** The unread text after more and more was added to it. */
  function AddedTo(unread: string, chunks: seq<string>): string
    decreases |chunks|
  {
    if chunks == [] then unread else AddedTo(Bounded(unread + chunks[0]), chunks[1..])
  }

  /** However the text comes in, what is kept is decided by the text alone: the marker never adds up. */
  lemma {:induction false} KeptAfterAll(added: string, chunks: seq<string>)
    ensures AddedTo(Kept(added), chunks) == Kept(added + Flatten(chunks))
    decreases |chunks|
  {
    if chunks == [] {
      assert added + Flatten(chunks) == added;
    } else {
      KeptAfter(added, chunks[0]);
      KeptAfterAll(added + chunks[0], chunks[1..]);
      Associates(added, chunks[0], Flatten(chunks[1..]));
    }
  }

  lemma LastOfEnd(s: string, end: string, txt: string)
    requires |end| == MAX_UNREAD && end == Last(s, MAX_UNREAD)
    ensures Last(s + txt, MAX_UNREAD) == Last(end + txt, MAX_UNREAD)
  {
    var d := |s| - |end|;
    assert s[d..] == end;
    assert (s + txt)[d..] == end + txt;
    assert |txt| > 0 ==> (s + txt)[d..][|txt|..] == (s + txt)[d + |txt|..];
  }

  // ----- the watch for the name prompt

  datatype Heard = Said(text: string) | PasswordOn

  /** The text since the last line sent, and whether the prompt was seen in it. */
  datatype Watch = Watch(text: string, playing: bool, rebooted: bool)

  function Hear(w: Watch, h: Heard): Watch {
    match h
    case PasswordOn => w.(text := w.text + "[password]")
    case Said(raw) =>
      var txt := Squeeze(raw);
      var w := w.(text := w.text + txt);
      if w.playing && Occurs(PROMPT, Last(w.text, |txt| + OVERLAP)) then w.(playing := false, rebooted := true) else w
  }

  function HearAll(w: Watch, all: seq<Heard>): Watch
    decreases |all|
  {
    if all == [] then w else HearAll(Hear(w, all[0]), all[1..])
  }

  /** All that was said, as it was said. */
  function AllSaid(all: seq<Heard>): string {
    if all == [] then ""
    else (if all[0].Said? then all[0].text else "[password]") + AllSaid(all[1..])
  }

  lemma OccursIn(p: string, s: string, i: nat, t: string, j: nat)
    requires OccursAt(p, s, i) && j + |p| <= |t| && t[j..j + |p|] == s[i..i + |p|]
    ensures Occurs(p, t)
  {
    assert OccursAt(p, t, j);
  }

  /** Where a text without the character `s[at]` occurs, it ends before `at` or starts after it. */
  lemma NotAcross(p: string, s: string, i: nat, at: nat)
    requires OccursAt(p, s, i) && at < |s| && s[at] !in p
    ensures i + |p| <= at || at < i
  {
    forall j | i <= j < i + |p| ensures s[j] in p {
      assert s[j] == s[i..i + |p|][j - i];
    }
  }

  /** A text without the character `c` is found on one side of `c` or on the other. */
  lemma OccursAround(p: string, a: string, c: char, b: string)
    requires p != "" && c !in p
    ensures Occurs(p, a + [c] + b) <==> Occurs(p, a) || Occurs(p, b)
  {
    var s, n := a + [c] + b, |a| + 1;
    assert s[..|a|] == a && s[n..] == b;
    if i: nat :| OccursAt(p, s, i) {
      NotAcross(p, s, i, |a|);
      if i + |p| <= |a| {
        SlicePrefix(a, s, i, i + |p|);
        OccursIn(p, s, i, a, i);
      } else {
        SliceOfDrop(s, n, i - n, i - n + |p|);
        OccursIn(p, s, i, b, i - n);
      }
    }
    if i: nat :| OccursAt(p, a, i) {
      SlicePrefix(a, s, i, i + |p|);
      OccursIn(p, a, i, s, i);
    }
    if i: nat :| OccursAt(p, b, i) {
      SliceOfDrop(s, n, i, i + |p|);
      OccursIn(p, b, i, s, n + i);
    }
  }

  lemma {:induction false} OccursAroundNewlines(p: string, a: string, lines: string, b: string)
    requires p != "" && '\n' !in p && lines != "" && forall c :: c in lines ==> c == '\n'
    ensures Occurs(p, a + lines + b) <==> Occurs(p, a) || Occurs(p, b)
    decreases |lines|
  {
    var rest := lines[1..];
    assert lines[0] in lines && lines == ['\n'] + rest && forall c :: c in rest ==> c in lines;
    assert a + lines + b == a + ['\n'] + (rest + b);
    OccursAround(p, a, '\n', rest + b);
    if rest == "" {
      assert rest + b == b;
    } else {
      assert rest + b == "" + rest + b;
      OccursAroundNewlines(p, "", rest, b);
      assert !Occurs(p, "");
    }
  }

  lemma Shift(a: string, b: string, c: string, d: string)
    ensures a + (b + c) + d == (a + b) + c + d == a + b + (c + d)
  {
  }

  lemma LinesInvisible(p: string, a: string, lines: string, z: string, kept: string, z': string, b: string)
    requires p != "" && '\n' !in p
    requires lines != "" && kept != "" && (forall c :: c in lines ==> c == '\n') && forall c :: c in kept ==> c == '\n'
    requires Occurs(p, "" + z' + b) <==> Occurs(p, "" + z + b)
    ensures Occurs(p, a + (kept + z') + b) <==> Occurs(p, a + (lines + z) + b)
  {
    OccursAroundNewlines(p, a, kept, z' + b);
    OccursAroundNewlines(p, a, lines, z + b);
    Shift(a, kept, z', b);
    Shift(a, lines, z, b);
    assert "" + z + b == z + b && "" + z' + b == z' + b;
  }

  /** Squeezing newlines neither makes nor breaks an occurrence of a text on one line. */
  lemma {:induction false} SqueezeInvisible(p: string, a: string, s: string, b: string)
    requires p != "" && '\n' !in p
    ensures Occurs(p, a + Squeeze(s) + b) <==> Occurs(p, a + s + b)
    decreases |s|
  {
    if s != "" {
      var n := Newlines(s);
      if n == 0 {
        SqueezeInvisible(p, a + [s[0]], s[1..], b);
        assert s == [s[0]] + s[1..];
        Shift(a, [s[0]], s[1..], b);
        Shift(a, [s[0]], Squeeze(s[1..]), b);
      } else {
        SqueezeInvisible(p, "", s[n..], b);
        assert s == s[..n] + s[n..];
        LinesInvisible(p, a, s[..n], s[n..], s[..if n < 2 then n else 2], Squeeze(s[n..]), b);
      }
    }
  }

  lemma PromptSqueezed(text: string, raw: string, rest: string)
    ensures Occurs(PROMPT, text + Squeeze(raw) + rest) <==> Occurs(PROMPT, text + (raw + rest))
  {
    SqueezeInvisible(PROMPT, text, raw, rest);
    Associates(text, raw, rest);
  }

  /** Looking through the new text and a little before it finds what looking through all of it would. */
  lemma WindowSuffices(p: string, before: string, txt: string, overlap: nat)
    requires |p| <= overlap + 1 && !Occurs(p, before)
    ensures Occurs(p, Last(before + txt, |txt| + overlap)) <==> Occurs(p, before + txt)
  {
    var s, n := before + txt, |txt| + overlap;
    var w, d := Last(s, n), if n >= |s| then 0 else |s| - n;
    assert w == s[d..];
    if i: nat :| OccursAt(p, w, i) {
      SliceOfDrop(s, d, i, i + |p|);
      assert OccursAt(p, s, d + i);
    }
    if i: nat :| OccursAt(p, s, i) {
      if i + |p| <= |before| {
        assert before[i..i + |p|] == s[i..i + |p|];
        assert OccursAt(p, before, i);
      } else {
        SliceOfDrop(s, d, i - d, i - d + |p|);
        assert OccursAt(p, w, i - d);
      }
    }
  }

  lemma OccursLonger(p: string, a: string, b: string)
    requires Occurs(p, a)
    ensures Occurs(p, a + b)
  {
    var i: nat :| i <= |a| && OccursAt(p, a, i);
    assert i + |p| <= |a| && a[i..i + |p|] == p;
    assert (a + b)[i..i + |p|] == a[i..i + |p|];
    assert OccursAt(p, a + b, i);
  }

  lemma PasswordIsNoPrompt(text: string)
    ensures Occurs(PROMPT, text + "[password]") <==> Occurs(PROMPT, text)
  {
    assert text + "[password]" == text + ['['] + "password]";
    OccursAround(PROMPT, text, '[', "password]");
    assert |PROMPT| == 29;
  }

  lemma HearKeeps(w: Watch, h: Heard)
    requires w.playing == !Occurs(PROMPT, w.text)
    ensures Hear(w, h).playing == !Occurs(PROMPT, Hear(w, h).text)
    ensures Hear(w, h).rebooted == (w.rebooted || (w.playing && !Hear(w, h).playing))
  {
    match h
    case PasswordOn => PasswordIsNoPrompt(w.text);
    case Said(raw) =>
      if w.playing {
        WindowSuffices(PROMPT, w.text, Squeeze(raw), OVERLAP);
      } else {
        OccursLonger(PROMPT, w.text, Squeeze(raw));
      }
  }

  lemma {:induction false} HeardText(w: Watch, all: seq<Heard>)
    ensures Occurs(PROMPT, HearAll(w, all).text) <==> Occurs(PROMPT, w.text + AllSaid(all))
    decreases |all|
  {
    if all == [] {
      assert w.text + AllSaid(all) == w.text;
    } else {
      var rest := AllSaid(all[1..]);
      HeardText(Hear(w, all[0]), all[1..]);
      match all[0]
      case PasswordOn => Associates(w.text, "[password]", rest);
      case Said(raw) => PromptSqueezed(w.text, raw, rest);
    }
  }

  lemma {:induction false} FlagFollowsText(w: Watch, all: seq<Heard>)
    requires w.playing == !Occurs(PROMPT, w.text)
    ensures HearAll(w, all).playing == !Occurs(PROMPT, HearAll(w, all).text)
    ensures HearAll(w, all).rebooted == (w.rebooted || (w.playing && !HearAll(w, all).playing))
    decreases |all|
  {
    if all != [] {
      HearKeeps(w, all[0]);
      FlagFollowsText(Hear(w, all[0]), all[1..]);
      StaysSeen(Hear(w, all[0]), all[1..]);
    }
  }

  lemma {:induction false} StaysSeen(w: Watch, all: seq<Heard>)
    ensures !w.playing ==> !HearAll(w, all).playing
    decreases |all|
  {
    if all != [] {
      StaysSeen(Hear(w, all[0]), all[1..]);
    }
  }

  /** While playing, a reboot is flagged exactly when the prompt is in all that was said, however it was cut up. */
  lemma RebootExactly(w: Watch, all: seq<Heard>)
    requires w.playing && !Occurs(PROMPT, w.text)
    ensures HearAll(w, all).playing == !Occurs(PROMPT, w.text + AllSaid(all))
    ensures HearAll(w, all).rebooted == (w.rebooted || Occurs(PROMPT, w.text + AllSaid(all)))
  {
    HeardText(w, all);
    FlagFollowsText(w, all);
  }

  // ----- the session

  class Session {
    var unread: string     // not yet given to the agent
    var loginText: string  // what was said since the last line sent
    var playing: bool
    var rebooted: bool
    ghost var added: string  // all text added since it was last taken

    ghost predicate Valid()
      reads this
    {
      unread == Kept(added)
    }

    ghost function Watching(): Watch
      reads this
    {
      Watch(loginText, playing, rebooted)
    }

    constructor ()
      ensures Valid() && Watching() == Watch("", false, false) && added == ""
    {
      unread, loginText, playing, rebooted, added := "", "", false, false, "";
    }

    method Add(raw: string)
      requires Valid()
      modifies this
      ensures Valid() && added == old(added) + Squeeze(raw)
      ensures Watching() == Hear(old(Watching()), Said(raw))
    {
      var txt := Squeeze(raw);
      loginText := loginText + txt;
      if playing && Occurs(PROMPT, Last(loginText, |txt| + OVERLAP)) {
        playing, rebooted := false, true;
      }
      Store(txt);
    }

    /** The rest of `add`: the text is kept until it is taken, within bounds. */
    method Store(txt: string)
      requires Valid()
      modifies this`unread, this`added
      ensures Valid() && added == old(added) + txt
    {
      KeptAfter(added, txt);
      unread := unread + txt;
      if |unread| > MAX_UNREAD {
        unread := MARKER + Last(unread, MAX_UNREAD);
      }
      added := added + txt;
    }

    method HearPasswordOn()
      requires Valid()
      modifies this`loginText
      ensures Valid() && Watching() == Hear(old(Watching()), PasswordOn)
    {
      loginText := loginText + "[password]";
    }

    /** A line is sent: what is said from now on is its answer. */
    method Send()
      requires Valid()
      modifies this`loginText
      ensures Valid() && Watching() == old(Watching()).(text := "")
    {
      loginText := "";
    }

    method Take() returns (text: string)
      requires Valid()
      modifies this`unread, this`added
      ensures Valid() && text == Kept(old(added)) && added == ""
    {
      text, unread := unread, "";
      added := "";
    }

    /** Everything heard between two lines sent: the flag follows from the text alone. */
    method Listen(all: seq<Heard>)
      requires Valid()
      modifies this
      ensures Valid() && Watching() == HearAll(old(Watching()), all)
      ensures old(playing) && !Occurs(PROMPT, old(loginText)) ==>
        rebooted == (old(rebooted) || Occurs(PROMPT, old(loginText) + AllSaid(all)))
    {
      ghost var before := Watching();
      for k := 0 to |all|
        invariant Valid() && HearAll(Watching(), all[k..]) == HearAll(before, all)
      {
        assert all[k..][1..] == all[k + 1..];
        match all[k] {
          case Said(text) => Add(text);
          case PasswordOn => HearPasswordOn();
        }
      }
      if before.playing && !Occurs(PROMPT, before.text) {
        RebootExactly(before, all);
      }
    }
  }
}
