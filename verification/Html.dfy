/** The server's HTML as plain text and events: a stack of open elements, and at most one event being collected. */
module Htmls {
  import opened Text

  type Attrs = map<string, string>

  /** What an event is, apart from its text. */
  datatype Head = Head(kind: string, attrs: Option<Attrs>, cls: Option<string>)

  /** What a feed gives: text, and events with all of their text. */
  datatype Piece = Text(text: string) | Closed(head: Head, text: string)

  datatype Token =
    | Start(tag: string, attrs: Attrs)
    | StartEnd(tag: string, attrs: Attrs)
    | End(tag: string)
    | Data(data: string)

  const COMM := {
    "tell_self", "tell_other", "say_self", "say_other", "ask_self", "ask_other", "shout_self", "shout_other",
    "whisper", "comm_say", "comm_emote", "emote_self", "emote_other", "social_self", "social_other"
  }
  const VOID := {"br", "img", "hr", "input", "meta", "link", "wbr", "col", "area", "base", "source"}
  const BLOCK := {"p", "h1", "h2", "h3", "h4", "h5", "h6", "li", "tr", "pre", "ul", "ol", "table"}

  /** The first of an element's classes that marks what someone says or does. */
  function CommClass(classes: seq<string>): Option<string> {
    if classes == [] then None
    else if classes[0] in COMM then Some(classes[0])
    else CommClass(classes[1..])
  }

  /** Classes that mark nothing are passed over, and the first that does is taken. */
  lemma {:induction false} CommFirst(before: seq<string>, c: string, after: seq<string>)
    requires c in COMM && forall x :: x in before ==> x !in COMM
    ensures CommClass(before + ([c] + after)) == Some(c) && CommClass(before) == None
  {
    if before == [] {
      assert before + ([c] + after) == [c] + after;
    } else {
      assert before[0] in before;
      DropPrefix(before, [c] + after, 1);
      CommFirst(before[1..], c, after);
    }
  }

  /** The event that an element is, if any. */
  function EventOf(tag: string, a: Attrs): Option<Head> {
    var classes := Words(if "class" in a then a["class"] else "");
    if tag in {"data", "script"} then Some(Head(tag, Some(a), None))
    else if "prompt" in classes then Some(Head("prompt", None, None))
    else if tag == "h1" && "room_title" in classes then Some(Head("room", Some(a), None))
    else if "room_descr" in classes then Some(Head("descr", None, None))
    else match CommClass(classes)
      case Some(c) => Some(Head("comm", Some(a), Some(c)))
      case None => None
  }

  /** The classes of an element, as its attribute has them. */
  predicate HasClasses(a: Attrs, classes: seq<string>) {
    && (forall c :: c in classes ==> Word(c))
    && if classes == [] then "class" !in a else "class" in a && a["class"] == Join(classes, ' ')
  }

  /** Data and scripts are events whatever their classes; then a prompt, a room's title in an h1, a description, and
      last what someone says or does, by the first class that marks it. */
  lemma EventExactly(tag: string, a: Attrs, classes: seq<string>)
    requires HasClasses(a, classes)
    ensures tag == "data" || tag == "script" ==> EventOf(tag, a) == Some(Head(tag, Some(a), None))
    ensures tag != "data" && tag != "script" ==>
      && ("prompt" in classes ==> EventOf(tag, a) == Some(Head("prompt", None, None)))
      && ("prompt" !in classes ==>
        && (tag == "h1" && "room_title" in classes ==> EventOf(tag, a) == Some(Head("room", Some(a), None)))
        && (tag != "h1" || "room_title" !in classes ==>
          && ("room_descr" in classes ==> EventOf(tag, a) == Some(Head("descr", None, None)))
          && ("room_descr" !in classes ==> EventOf(tag, a) == match CommClass(classes)
                case None => None
                case Some(c) => Some(Head("comm", Some(a), Some(c))))))
  {
    if classes != [] {
      WordsOfJoin(classes);
    }
  }

  /** Character data without carriage returns, and with plain spaces for no-break ones. */
  function Cleaned(s: string): string {
    if s == "" then ""
    else (if s[0] == '\r' then "" else if s[0] == '\U{A0}' then " " else [s[0]]) + Cleaned(s[1..])
  }

  lemma {:induction false} CleanedAppend(a: string, b: string)
    ensures Cleaned(a + b) == Cleaned(a) + Cleaned(b)
  {
    if a == "" {
      assert a + b == b;
    } else {
      DropPrefix(a, b, 1);
      CleanedAppend(a[1..], b);
    }
  }

  /** A carriage return is left out, a no-break space is a plain one, and any other character stays, where it is. */
  lemma CleanedExactly(a: string, c: char, b: string)
    ensures Cleaned(a + [c] + b)
         == Cleaned(a) + (if c as int == 13 then "" else if c as int == 160 then " " else [c]) + Cleaned(b)
    ensures Cleaned("") == ""
  {
    CleanedAppend(a + [c], b);
    CleanedAppend(a, [c]);
    assert [c][1..] == "";
  }

  /** No carriage return or no-break space is left, and a text without them is unchanged. */
  lemma {:induction false} CleanedClean(s: string)
    ensures '\r' !in Cleaned(s) && '\U{A0}' !in Cleaned(s)
    ensures '\r' !in s && '\U{A0}' !in s <==> Cleaned(s) == s
  {
    if s != "" {
      CleanedClean(s[1..]);
      CleanedShorter(s[1..]);
      assert s == [s[0]] + s[1..];
    }
  }

  lemma {:induction false} CleanedShorter(s: string)
    ensures |Cleaned(s)| <= |s|
  {
    if s != "" { CleanedShorter(s[1..]); }
  }

  // ----- the machine, on values

  /** An open element; `event` says whether it is the event being collected. */
  datatype Entry = Entry(tag: string, event: bool)

  /** `open` is the event being collected, with the text it has so far. */
  datatype State = State(out: seq<Piece>, stack: seq<Entry>, open: Option<(Head, string)>)

  function Append(out: seq<Piece>, s: string): seq<Piece> {
    if out != [] && out[|out| - 1].Text? then out[..|out| - 1] + [Text(out[|out| - 1].text + s)]
    else out + [Text(s)]
  }

  function Emit(st: State, s: string): State {
    match st.open
    case Some((h, t)) => st.(open := Some((h, t + s)))
    case None => st.(out := Append(st.out, s))
  }

  function OnStart(st: State, tag: string, a: Attrs): State {
    var st := if tag == "br" then Emit(st, "\n") else st;
    if tag in VOID then st
    else match st.open
      case Some((h, _)) =>
        var st := if h.kind == "data" && tag == "li" then Emit(st, "\n") else st;
        st.(stack := st.stack + [Entry(tag, false)])
      case None =>
        match EventOf(tag, a)
        case Some(h) => st.(stack := st.stack + [Entry(tag, true)], open := Some((h, "")))
        case None => st.(stack := st.stack + [Entry(tag, false)])
  }

  /** The nearest open element of that name: the length of the stack below it, or None. */
  function Nearest(stack: seq<Entry>, tag: string): (i: Option<nat>)
    ensures i.Some? ==> i.value < |stack| && stack[i.value].tag == tag
    ensures forall k :: (if i.Some? then i.value else -1) < k < |stack| ==> stack[k].tag != tag
  {
    if stack == [] then None
    else if stack[|stack| - 1].tag == tag then Some(|stack| - 1)
    else Nearest(stack[..|stack| - 1], tag)
  }

  /** Takes the innermost element off the stack: an event goes out, a block ends its line. */
  function Pop(st: State): State
    requires st.stack != []
  {
    var top := st.stack[|st.stack| - 1];
    var st := st.(stack := st.stack[..|st.stack| - 1]);
    if top.event && st.open.Some? then
      var (h, t) := st.open.value;
      st.(out := st.out + [Closed(h, t)], open := None)
    else if top.tag in BLOCK then Emit(st, "\n")
    else st
  }

  function PopTo(st: State, i: nat): State
    decreases |st.stack|
  {
    if |st.stack| <= i then st else PopTo(Pop(st), i)
  }

  function OnEnd(st: State, tag: string): State {
    match Nearest(st.stack, tag)
    case None => st
    case Some(i) => PopTo(st, i)
  }

  function Step(st: State, t: Token): State {
    match t
    case Start(tag, a) => OnStart(st, tag, a)
    case StartEnd(tag, a) => if tag in VOID then OnStart(st, tag, a) else OnEnd(OnStart(st, tag, a), tag)
    case End(tag) => OnEnd(st, tag)
    case Data(s) => Emit(st, Cleaned(s))
  }

  function Run(st: State, tokens: seq<Token>): State
    decreases |tokens|
  {
    if tokens == [] then st else Run(Step(st, tokens[0]), tokens[1..])
  }

  // ----- the stack and the event

  /** At most one open element is an event, and there is one exactly when an event is being collected. */
  ghost predicate Sound(st: State) {
    && (forall i, j :: 0 <= i < j < |st.stack| ==> !(st.stack[i].event && st.stack[j].event))
    && (st.open.Some? <==> exists i :: 0 <= i < |st.stack| && st.stack[i].event)
  }

  lemma PopSound(st: State)
    requires Sound(st) && st.stack != []
    ensures Sound(Pop(st)) && Pop(st).stack == st.stack[..|st.stack| - 1]
  {
    var n := |st.stack| - 1;
    if st.open.Some? {
      var i :| 0 <= i < |st.stack| && st.stack[i].event;
      assert i < n ==> Pop(st).stack[i].event;
    }
  }

  lemma {:induction false} PopToSound(st: State, i: nat)
    requires Sound(st) && i <= |st.stack|
    ensures Sound(PopTo(st, i)) && PopTo(st, i).stack == st.stack[..i]
    decreases |st.stack|
  {
    if i < |st.stack| {
      PopSound(st);
      PopToSound(Pop(st), i);
    }
  }

  lemma OnStartSound(st: State, tag: string, a: Attrs)
    requires Sound(st)
    ensures Sound(OnStart(st, tag, a))
    ensures OnStart(st, tag, a).stack[..|st.stack|] == st.stack
  {
    var st' := OnStart(st, tag, a);
    if tag !in VOID {
      var n := |st.stack|;
      assert forall i :: 0 <= i < n ==> st'.stack[i] == st.stack[i];
      if st.open.None? && EventOf(tag, a).Some? {
        assert st'.stack[n].event;
      }
    }
  }

  /** Whatever the markup, balanced or not, the machine stays sound. */
  lemma {:induction false} RunSound(st: State, tokens: seq<Token>)
    requires Sound(st)
    ensures Sound(Run(st, tokens))
    decreases |tokens|
  {
    if tokens != [] {
      StepSound(st, tokens[0]);
      RunSound(Step(st, tokens[0]), tokens[1..]);
    }
  }

  lemma StepSound(st: State, t: Token)
    requires Sound(st)
    ensures Sound(Step(st, t))
  {
    match t
    case Start(tag, a) => OnStartSound(st, tag, a);
    case StartEnd(tag, a) =>
      OnStartSound(st, tag, a);
      if tag !in VOID { OnEndSound(OnStart(st, tag, a), tag); }
    case End(tag) => OnEndSound(st, tag);
    case Data(s) =>
  }

  /** An end tag closes the nearest open element of its name with all that is open in it, or else nothing. */
  lemma OnEndSound(st: State, tag: string)
    requires Sound(st)
    ensures Sound(OnEnd(st, tag))
    ensures var rest := OnEnd(st, tag).stack;
      && rest <= st.stack
      && (rest == st.stack ==> OnEnd(st, tag) == st && forall e :: e in st.stack ==> e.tag != tag)
      && (|rest| < |st.stack| ==>
            st.stack[|rest|].tag == tag && forall e :: e in st.stack[|rest| + 1..] ==> e.tag != tag)
  {
    if Nearest(st.stack, tag).Some? {
      PopToSound(st, Nearest(st.stack, tag).value);
    }
  }

  // ----- conservation of text

  function PieceText(out: seq<Piece>): string {
    if out == [] then "" else PieceText(out[..|out| - 1]) + out[|out| - 1].text
  }

  /** All text given so far, followed by that of the event being collected. */
  function AllText(st: State): string {
    PieceText(st.out) + match st.open case Some((_, t)) => t case None => ""
  }

  /** The line ends that closing the elements of `stack` from the i-th on amounts to. */
  function Breaks(stack: seq<Entry>, i: nat): string
    decreases |stack|
  {
    if |stack| <= i then ""
    else
      var top := stack[|stack| - 1];
      (if !top.event && top.tag in BLOCK then "\n" else "") + Breaks(stack[..|stack| - 1], i)
  }

  function StartText(stack: seq<Entry>, open: Option<Head>, tag: string): string {
    if tag == "br" then "\n"
    else if tag == "li" && open.Some? && open.value.kind == "data" then "\n"
    else ""
  }

  function EndText(stack: seq<Entry>, tag: string): string {
    match Nearest(stack, tag) case Some(i) => Breaks(stack, i) case None => ""
  }

  /** The text that a token adds, given the elements open before it. */
  function Contribution(stack: seq<Entry>, open: Option<Head>, t: Token): string {
    match t
    case Start(tag, a) => StartText(stack, open, tag)
    case StartEnd(tag, a) =>
      StartText(stack, open, tag)
      + if tag !in VOID && tag in BLOCK && (open.Some? || EventOf(tag, a).None?) then "\n" else ""
    case End(tag) => EndText(stack, tag)
    case Data(s) => Cleaned(s)
  }

  function OpenHead(st: State): Option<Head> {
    match st.open case Some((h, _)) => Some(h) case None => None
  }

  lemma EmitText(st: State, s: string)
    ensures AllText(Emit(st, s)) == AllText(st) + s
    ensures Emit(st, s).stack == st.stack && OpenHead(Emit(st, s)) == OpenHead(st)
  {
    match st.open
    case Some((h, t)) => Associates(PieceText(st.out), t, s);
    case None =>
      var n := |st.out| - 1;
      if st.out != [] && st.out[n].Text? {
        var out := Append(st.out, s);
        assert out[..n] == st.out[..n] && out[n].text == st.out[n].text + s;
        Associates(PieceText(st.out[..n]), st.out[n].text, s);
      } else {
        assert (st.out + [Text(s)])[..|st.out|] == st.out;
      }
  }

  lemma PopText(st: State)
    requires Sound(st) && st.stack != []
    ensures var top := st.stack[|st.stack| - 1];
      AllText(Pop(st)) == AllText(st) + if !top.event && top.tag in BLOCK then "\n" else ""
  {
    var n := |st.stack| - 1;
    var below := st.(stack := st.stack[..n]);
    EmitText(below, "\n");
    if st.stack[n].event {
      var (h, t) := st.open.value;
      assert (st.out + [Closed(h, t)])[..|st.out|] == st.out;
    }
  }

  lemma {:induction false} PopToText(st: State, i: nat)
    requires Sound(st) && i <= |st.stack|
    ensures AllText(PopTo(st, i)) == AllText(st) + Breaks(st.stack, i)
    decreases |st.stack|
  {
    if i < |st.stack| {
      var n := |st.stack| - 1;
      PopSound(st);
      PopText(st);
      PopToText(Pop(st), i);
      var top := st.stack[n];
      Associates(AllText(st), if !top.event && top.tag in BLOCK then "\n" else "", Breaks(st.stack[..n], i));
    }
  }

  lemma OnStartText(st: State, tag: string, a: Attrs)
    requires Sound(st)
    ensures AllText(OnStart(st, tag, a)) == AllText(st) + StartText(st.stack, OpenHead(st), tag)
  {
    EmitText(st, "\n");
  }

  lemma EndOfTop(st: State, tag: string, event: bool)
    ensures var st' := st.(stack := st.stack + [Entry(tag, event)]);
      OnEnd(st', tag) == Pop(st') && Pop(st').stack == st.stack
  {
    var st', n := st.(stack := st.stack + [Entry(tag, event)]), |st.stack|;
    assert st'.stack[n].tag == tag && st'.stack[..n] == st.stack;
    assert PopTo(Pop(st'), n) == Pop(st');
  }

  lemma OnStartPushes(st: State, tag: string, a: Attrs)
    requires tag !in VOID
    ensures OnStart(st, tag, a).stack == st.stack + [Entry(tag, st.open.None? && EventOf(tag, a).Some?)]
  {
  }

  lemma StartEndText(st: State, tag: string, a: Attrs)
    requires Sound(st) && tag !in VOID
    ensures AllText(OnEnd(OnStart(st, tag, a), tag))
         == AllText(st) + Contribution(st.stack, OpenHead(st), StartEnd(tag, a))
  {
    var st', event := OnStart(st, tag, a), st.open.None? && EventOf(tag, a).Some?;
    OnStartPushes(st, tag, a);
    OnStartText(st, tag, a);
    OnStartSound(st, tag, a);
    EndOfTop(st'.(stack := st.stack), tag, event);
    PopText(st');
    Associates(AllText(st), StartText(st.stack, OpenHead(st), tag), if !event && tag in BLOCK then "\n" else "");
  }

  /** Nothing is lost, doubled or reordered: each token adds exactly its contribution, at the end. */
  lemma StepText(st: State, t: Token)
    requires Sound(st)
    ensures AllText(Step(st, t)) == AllText(st) + Contribution(st.stack, OpenHead(st), t)
  {
    match t
    case Start(tag, a) => OnStartText(st, tag, a);
    case StartEnd(tag, a) =>
      OnStartText(st, tag, a);
      if tag !in VOID { StartEndText(st, tag, a); }
    case End(tag) =>
      if Nearest(st.stack, tag).Some? { PopToText(st, Nearest(st.stack, tag).value); }
    case Data(s) => EmitText(st, Cleaned(s));
  }

  function Contributions(st: State, tokens: seq<Token>): string
    decreases |tokens|
  {
    if tokens == [] then ""
    else Contribution(st.stack, OpenHead(st), tokens[0]) + Contributions(Step(st, tokens[0]), tokens[1..])
  }

  lemma {:induction false} RunText(st: State, tokens: seq<Token>)
    requires Sound(st)
    ensures AllText(Run(st, tokens)) == AllText(st) + Contributions(st, tokens)
    decreases |tokens|
  {
    if tokens != [] {
      StepSound(st, tokens[0]);
      StepText(st, tokens[0]);
      RunText(Step(st, tokens[0]), tokens[1..]);
      Associates(AllText(st), Contribution(st.stack, OpenHead(st), tokens[0]),
                 Contributions(Step(st, tokens[0]), tokens[1..]));
    }
  }

  // ----- any division into feeds

  function Put(out: seq<Piece>, p: Piece): seq<Piece> {
    if p.Text? then Append(out, p.text) else out + [p]
  }

  /** The pieces of `b` after those of `a`: text that a feed boundary cut in two is put together again. */
  function Merge(a: seq<Piece>, b: seq<Piece>): seq<Piece> {
    if b == [] then a else Put(Merge(a, b[..|b| - 1]), b[|b| - 1])
  }

  /** The machine as it would be if `a` had been given before. */
  function After(a: seq<Piece>, st: State): State {
    st.(out := Merge(a, st.out))
  }

  lemma AppendTwice(out: seq<Piece>, s: string, t: string)
    ensures Append(Append(out, s), t) == Append(out, s + t)
  {
    var n := |out| - 1;
    if out != [] && out[n].Text? {
      assert Append(out, s)[..n] == out[..n];
      Associates(out[n].text, s, t);
    } else {
      assert Append(out, s)[..|out|] == out;
    }
  }

  lemma PutAfter(a: seq<Piece>, b: seq<Piece>, p: Piece)
    ensures Put(Merge(a, b), p) == Merge(a, Put(b, p))
  {
    var n := |b| - 1;
    if p.Text? && b != [] && b[n].Text? {
      var b' := Append(b, p.text);
      assert b'[..n] == b[..n] && b'[n] == Text(b[n].text + p.text);
      AppendTwice(Merge(a, b[..n]), b[n].text, p.text);
    } else {
      assert Put(b, p) == b + [p] && (b + [p])[..|b|] == b;
    }
  }

  lemma {:induction false} MergeAssociates(a: seq<Piece>, b: seq<Piece>, c: seq<Piece>)
    ensures Merge(Merge(a, b), c) == Merge(a, Merge(b, c))
  {
    if c != [] {
      var n := |c| - 1;
      MergeAssociates(a, b, c[..n]);
      PutAfter(a, Merge(b, c[..n]), c[n]);
    }
  }

  lemma EmitAfter(a: seq<Piece>, st: State, s: string)
    ensures Emit(After(a, st), s) == After(a, Emit(st, s))
  {
    PutAfter(a, st.out, Text(s));
  }

  lemma PopAfter(a: seq<Piece>, st: State)
    requires st.stack != []
    ensures Pop(After(a, st)) == After(a, Pop(st))
  {
    EmitAfter(a, st.(stack := st.stack[..|st.stack| - 1]), "\n");
    if st.open.Some? {
      PutAfter(a, st.out, Closed(st.open.value.0, st.open.value.1));
    }
  }

  lemma {:induction false} PopToAfter(a: seq<Piece>, st: State, i: nat)
    ensures PopTo(After(a, st), i) == After(a, PopTo(st, i))
    decreases |st.stack|
  {
    if i < |st.stack| {
      PopAfter(a, st);
      PopToAfter(a, Pop(st), i);
    }
  }

  lemma OnStartAfter(a: seq<Piece>, st: State, tag: string, at: Attrs)
    ensures OnStart(After(a, st), tag, at) == After(a, OnStart(st, tag, at))
  {
    EmitAfter(a, st, "\n");
  }

  lemma OnEndAfter(a: seq<Piece>, st: State, tag: string)
    ensures OnEnd(After(a, st), tag) == After(a, OnEnd(st, tag))
  {
    if Nearest(st.stack, tag).Some? {
      PopToAfter(a, st, Nearest(st.stack, tag).value);
    }
  }

  lemma StepAfter(a: seq<Piece>, st: State, t: Token)
    ensures Step(After(a, st), t) == After(a, Step(st, t))
  {
    match t
    case Start(tag, at) => OnStartAfter(a, st, tag, at);
    case StartEnd(tag, at) =>
      OnStartAfter(a, st, tag, at);
      OnEndAfter(a, OnStart(st, tag, at), tag);
    case End(tag) => OnEndAfter(a, st, tag);
    case Data(s) => EmitAfter(a, st, Cleaned(s));
  }

  lemma {:induction false} RunAfter(a: seq<Piece>, st: State, tokens: seq<Token>)
    ensures Run(After(a, st), tokens) == After(a, Run(st, tokens))
    decreases |tokens|
  {
    if tokens != [] {
      StepAfter(a, st, tokens[0]);
      RunAfter(a, Step(st, tokens[0]), tokens[1..]);
    }
  }

  lemma {:induction false} RunAppend(st: State, a: seq<Token>, b: seq<Token>)
    ensures Run(st, a + b) == Run(Run(st, a), b)
    decreases |a|
  {
    if a == [] {
      assert a + b == b;
    } else {
      DropPrefix(a, b, 1);
      RunAppend(Step(st, a[0]), a[1..], b);
    }
  }

  /** What the feeds give one after the other, put together, and the machine after them. */
  function Feeds(st: State, feeds: seq<seq<Token>>): (seq<Piece>, State)
    decreases |feeds|
  {
    if feeds == [] then ([], st)
    else
      var st' := Run(st, feeds[0]);
      var (pieces, last) := Feeds(st'.(out := []), feeds[1..]);
      (Merge(st'.out, pieces), last)
  }

  /** However the tokens are divided into feeds, the same text and events come out, in the same order. */
  lemma {:induction false} FeedsAsOne(st: State, feeds: seq<seq<Token>>)
    requires st.out == []
    ensures var all := Run(st, Flatten(feeds)); Feeds(st, feeds) == (all.out, all.(out := []))
    decreases |feeds|
  {
    if feeds != [] {
      var st' := Run(st, feeds[0]);
      var rest := st'.(out := []);
      RunAppend(st, feeds[0], Flatten(feeds[1..]));
      RunAfter(st'.out, rest, Flatten(feeds[1..]));
      assert After(st'.out, rest) == st';
      FeedsAsOne(rest, feeds[1..]);
    }
  }

  /** Over any feeds, the text given out, and then that of the event being collected, is what the tokens contribute. */
  lemma {:induction false} Conservation(st: State, feeds: seq<seq<Token>>)
    requires st.out == [] && Sound(st)
    ensures var (pieces, last) := Feeds(st, feeds);
      && Sound(last)
      && PieceText(pieces) + AllText(last) == AllText(st) + Contributions(st, Flatten(feeds))
  {
    FeedsAsOne(st, feeds);
    RunText(st, Flatten(feeds));
    RunSound(st, Flatten(feeds));
    var all := Run(st, Flatten(feeds));
    assert AllText(all.(out := [])) == match all.open case Some((_, t)) => t case None => "";
  }

  // ----- balanced markup

  datatype Node = Txt(data: string) | Void(tag: string, attrs: Attrs) | Elem(tag: string, attrs: Attrs, kids: seq<Node>)

  predicate WellFormed(n: Node) {
    match n
    case Txt(_) => true
    case Void(tag, _) => tag in VOID
    case Elem(tag, _, kids) => tag !in VOID && forall k :: k in kids ==> WellFormed(k)
  }

  function Tokens(n: Node): seq<Token> {
    match n
    case Txt(s) => [Data(s)]
    case Void(tag, a) => [Start(tag, a)]
    case Elem(tag, a, kids) => [Start(tag, a)] + AllTokens(kids) + [End(tag)]
  }

  function AllTokens(nodes: seq<Node>): seq<Token> {
    if nodes == [] then [] else Tokens(nodes[0]) + AllTokens(nodes[1..])
  }

  /** The text of a tree inside an event of some kind. */
  function Inside(kind: string, n: Node): string {
    match n
    case Txt(s) => Cleaned(s)
    case Void(tag, _) => if tag == "br" then "\n" else ""
    case Elem(tag, _, kids) =>
      (if kind == "data" && tag == "li" then "\n" else "") + AllInside(kind, kids) + (if tag in BLOCK then "\n" else "")
  }

  function AllInside(kind: string, nodes: seq<Node>): string {
    if nodes == [] then "" else Inside(kind, nodes[0]) + AllInside(kind, nodes[1..])
  }

  /** What a tree gives outside of any event. */
  function Rendered(n: Node): seq<Piece> {
    match n
    case Txt(s) => [Text(Cleaned(s))]
    case Void(tag, _) => if tag == "br" then [Text("\n")] else []
    case Elem(tag, a, kids) =>
      match EventOf(tag, a)
      case Some(h) => [Closed(h, AllInside(h.kind, kids))]
      case None => Merge(AllRendered(kids), if tag in BLOCK then [Text("\n")] else [])
  }

  function AllRendered(nodes: seq<Node>): seq<Piece> {
    if nodes == [] then [] else Merge(Rendered(nodes[0]), AllRendered(nodes[1..]))
  }

  /** A balanced tree inside an event adds its text to the event, and leaves the stack as it was. */
  lemma {:induction false} TreeInside(st: State, n: Node)
    requires st.open.Some? && WellFormed(n)
    ensures var (h, t) := st.open.value;
      Run(st, Tokens(n)) == st.(open := Some((h, t + Inside(h.kind, n))))
    decreases n, 0
  {
    var (h, t) := st.open.value;
    match n
    case Txt(s) => assert Run(st, [Data(s)]) == Step(st, Data(s));
    case Void(tag, a) => assert Run(st, [Start(tag, a)]) == Step(st, Start(tag, a)) && t + "" == t;
    case Elem(tag, a, kids) =>
      assert t + "" == t;
      var st1 := OnStart(st, tag, a);
      var li, mid := if h.kind == "data" && tag == "li" then "\n" else "", AllInside(h.kind, kids);
      assert st1 == st.(stack := st.stack + [Entry(tag, false)], open := Some((h, t + li)));
      TreesInside(st1, kids);
      var st2 := st.(open := Some((h, t + li + mid)));
      EndOfTop(st2, tag, false);
      Bracketed(st, Start(tag, a), AllTokens(kids), End(tag));
      ThreeParts(t, li, mid, if tag in BLOCK then "\n" else "");
  }

  lemma ThreeParts(t: string, a: string, b: string, c: string)
    ensures t + a + b + c == t + (a + b + c)
    ensures c == "" ==> t + a + b == t + (a + b + c)
  {
  }

  lemma {:induction false} TreesInside(st: State, nodes: seq<Node>)
    requires st.open.Some? && forall k :: k in nodes ==> WellFormed(k)
    ensures Run(st, AllTokens(nodes))
         == st.(open := Some((st.open.value.0, st.open.value.1 + AllInside(st.open.value.0.kind, nodes))))
    decreases nodes
  {
    var (h, t) := st.open.value;
    if nodes == [] {
      assert t + "" == t;
    } else {
      TreeInside(st, nodes[0]);
      RunAppend(st, Tokens(nodes[0]), AllTokens(nodes[1..]));
      TreesInside(st.(open := Some((h, t + Inside(h.kind, nodes[0])))), nodes[1..]);
      Associates(t, Inside(h.kind, nodes[0]), AllInside(h.kind, nodes[1..]));
    }
  }

  lemma Bracketed(st: State, first: Token, middle: seq<Token>, last: Token)
    ensures Run(st, [first] + middle + [last]) == Step(Run(Step(st, first), middle), last)
  {
    RunAppend(st, [first] + middle, [last]);
    DropPrefix([first], middle, 1);
  }

  /** A balanced tree outside of events gives its rendering, and leaves the stack as it was. */
  lemma {:induction false} TreeOutside(st: State, n: Node)
    requires st.open.None? && WellFormed(n)
    ensures Run(st, Tokens(n)) == st.(out := Merge(st.out, Rendered(n)))
    decreases n, 0
  {
    match n
    case Txt(s) =>
      assert Run(st, [Data(s)]) == Step(st, Data(s));
      MergeOne(st.out, Text(Cleaned(s)));
    case Void(tag, a) =>
      assert Run(st, [Start(tag, a)]) == Step(st, Start(tag, a));
      MergeOne(st.out, Text("\n"));
    case Elem(tag, a, kids) =>
      var st1 := OnStart(st, tag, a);
      Bracketed(st, Start(tag, a), AllTokens(kids), End(tag));
      match EventOf(tag, a)
      case Some(h) =>
        TreesInside(st1, kids);
        EventCloses(st, tag, h, AllInside(h.kind, kids));
      case None =>
        TreesOutside(st1, kids);
        ElementCloses(st, tag, AllRendered(kids));
  }

  lemma EventCloses(st: State, tag: string, h: Head, text: string)
    requires st.open.None?
    ensures OnEnd(st.(stack := st.stack + [Entry(tag, true)], open := Some((h, "" + text))), tag)
         == st.(out := Merge(st.out, [Closed(h, text)]))
  {
    assert "" + text == text;
    EndOfTop(st.(open := Some((h, text))), tag, true);
    MergeOne(st.out, Closed(h, text));
  }

  lemma ElementCloses(st: State, tag: string, pieces: seq<Piece>)
    requires st.open.None?
    ensures OnEnd(st.(stack := st.stack + [Entry(tag, false)], out := Merge(st.out, pieces)), tag)
         == st.(out := Merge(st.out, Merge(pieces, if tag in BLOCK then [Text("\n")] else [])))
  {
    var out := Merge(st.out, pieces);
    EndOfTop(st.(out := out), tag, false);
    MergeOne(out, Text("\n"));
    MergeAssociates(st.out, pieces, [Text("\n")]);
  }

  lemma MergeOne(out: seq<Piece>, p: Piece)
    ensures Merge(out, [p]) == Put(out, p)
  {
    assert [p][..0] == [];
  }

  lemma {:induction false} TreesOutside(st: State, nodes: seq<Node>)
    requires st.open.None? && forall k :: k in nodes ==> WellFormed(k)
    ensures Run(st, AllTokens(nodes)) == st.(out := Merge(st.out, AllRendered(nodes)))
    decreases nodes
  {
    if nodes != [] {
      TreeOutside(st, nodes[0]);
      RunAppend(st, Tokens(nodes[0]), AllTokens(nodes[1..]));
      TreesOutside(st.(out := Merge(st.out, Rendered(nodes[0]))), nodes[1..]);
      MergeAssociates(st.out, Rendered(nodes[0]), AllRendered(nodes[1..]));
    }
  }

  /** An element without content is an empty one: what `TreeInside` and `TreeOutside` say of it holds. */
  lemma StartEndIsEmpty(st: State, tag: string, a: Attrs)
    ensures tag !in VOID ==> Step(st, StartEnd(tag, a)) == Run(st, Tokens(Elem(tag, a, [])))
    ensures tag in VOID ==> Step(st, StartEnd(tag, a)) == Run(st, Tokens(Void(tag, a)))
  {
    assert AllTokens([]) == [];
    Bracketed(st, Start(tag, a), [], End(tag));
    assert Run(st, [Start(tag, a)]) == Step(st, Start(tag, a));
  }

  // ----- the machine itself

  /** An event while its text is being collected. */
  class Event {
    const head: Head
    var text: seq<string>

    constructor (head: Head)
      ensures this.head == head && text == []
    {
      this.head, text := head, [];
    }
  }

  datatype Element = Element(tag: string, ev: Event?)

  class Html {
    var out: seq<Piece>
    var stack: seq<Element>
    var cap: Event?  // the event whose text is being collected

    /** At most one open element holds an event, and that is the one being collected. */
    ghost predicate Valid()
      reads this
    {
      && (forall i :: 0 <= i < |stack| ==> stack[i].ev in {null, cap})
      && (forall i, j :: 0 <= i < j < |stack| ==> stack[i].ev == null || stack[j].ev == null)
      && (cap != null ==> exists i :: 0 <= i < |stack| && stack[i].ev == cap)
    }

    ghost function Value(): State
      reads this, cap
    {
      State(out, Entries(stack), if cap == null then None else Some((cap.head, Flatten(cap.text))))
    }

    constructor ()
      ensures Valid() && Value() == State([], [], None)
    {
      out, stack, cap := [], [], null;
    }

    lemma ValidSound()
      requires Valid()
      ensures Sound(Value())
    {
      var entries := Entries(stack);
      assert forall i :: 0 <= i < |stack| ==> entries[i].event == (stack[i].ev != null);
    }

    method AddText(s: string)
      requires Valid()
      modifies this`out, cap
      ensures Valid() && Value() == Emit(old(Value()), s)
    {
      if cap != null {
        FlattenAppend(cap.text, [s]);
        FlattenOne(s);
        cap.text := cap.text + [s];
      } else if out != [] && out[|out| - 1].Text? {
        out := out[..|out| - 1] + [Text(out[|out| - 1].text + s)];
      } else {
        out := out + [Text(s)];
      }
    }

    method HandleStart(tag: string, a: Attrs)
      requires Valid()
      modifies this, cap
      ensures Valid() && Value() == OnStart(old(Value()), tag, a)
      ensures cap == old(cap) || fresh(cap)
    {
      if tag == "br" {
        AddText("\n");
      }
      if tag in VOID {
        return;
      }
      var ev: Event? := null;
      if cap == null {
        var head := EventOf(tag, a);
        if head.Some? {
          ev := new Event(head.value);
          cap := ev;
        }
      } else if cap.head.kind == "data" && tag == "li" {
        AddText("\n");
      }
      EntriesAppend(stack, Element(tag, ev));
      stack := stack + [Element(tag, ev)];
      assert ev != null ==> stack[|stack| - 1].ev == cap;
      assert forall i :: 0 <= i < |stack| - 1 ==> stack[i] == old(stack)[i];
    }

    /** Takes the innermost open element off the stack. */
    method Close()
      requires Valid() && stack != []
      modifies this, cap
      ensures Valid() && Value() == Pop(old(Value()))
      ensures stack == old(stack)[..|old(stack)| - 1] && cap in {old(cap), null}
    {
      var top, n := stack[|stack| - 1], |stack| - 1;
      EntriesAppend(stack[..n], top);
      assert stack == stack[..n] + [top];
      stack := stack[..n];
      if top.ev != null {
        cap := null;
        out := out + [Closed(top.ev.head, Flatten(top.ev.text))];
      } else if top.tag in BLOCK {
        AddText("\n");
      }
    }

    method HandleEnd(tag: string)
      requires Valid()
      modifies this, cap
      ensures Valid() && Value() == OnEnd(old(Value()), tag)
      ensures cap in {old(cap), null}
    {
      var i := |stack| - 1;
      while i >= 0 && stack[i].tag != tag
        invariant -1 <= i < |stack|
        invariant forall k :: i < k < |stack| ==> stack[k].tag != tag
      {
        i := i - 1;
      }
      NearestIs(Entries(stack), tag, i);
      if i < 0 {
        return;
      }
      while |stack| > i
        invariant Valid() && i <= |stack|
        invariant cap in {old(cap), null}
        invariant PopTo(Value(), i) == PopTo(old(Value()), i)
      {
        Close();
      }
    }

    method HandleStartEnd(tag: string, a: Attrs)
      requires Valid()
      modifies this, cap
      ensures Valid() && Value() == Step(old(Value()), StartEnd(tag, a))
      ensures cap == old(cap) || cap == null || fresh(cap)
    {
      HandleStart(tag, a);
      if tag !in VOID {
        HandleEnd(tag);
      }
    }

    method HandleData(data: string)
      requires Valid()
      modifies this`out, cap
      ensures Valid() && Value() == Step(old(Value()), Data(data))
    {
      AddText(Cleaned(data));
    }

    /** Hands the tokens of the markup to their handlers, and gives what came of them. */
    method Feed(tokens: seq<Token>) returns (pieces: seq<Piece>)
      requires Valid()
      modifies this, cap
      ensures Valid() && pieces == Run(old(Value()), tokens).out
      ensures Value() == Run(old(Value()), tokens).(out := [])
    {
      ghost var before := Value();
      for k := 0 to |tokens|
        invariant Valid() && (cap == old(cap) || cap == null || fresh(cap))
        invariant Run(Value(), tokens[k..]) == Run(before, tokens)
      {
        ghost var st := Value();
        match tokens[k] {
          case Start(tag, a) => HandleStart(tag, a);
          case StartEnd(tag, a) => HandleStartEnd(tag, a);
          case End(tag) => HandleEnd(tag);
          case Data(s) => HandleData(s);
        }
        assert Value() == Step(st, tokens[k]) && tokens[k..][1..] == tokens[k + 1..];
      }
      pieces, out := out, [];
    }
  }

  ghost function Entries(stack: seq<Element>): (e: seq<Entry>)
    ensures |e| == |stack|
  {
    seq(|stack|, i requires 0 <= i < |stack| => Entry(stack[i].tag, stack[i].ev != null))
  }

  lemma EntriesAppend(stack: seq<Element>, e: Element)
    ensures Entries(stack + [e]) == Entries(stack) + [Entry(e.tag, e.ev != null)]
  {
  }

  lemma NearestIs(stack: seq<Entry>, tag: string, i: int)
    requires -1 <= i < |stack| && (i >= 0 ==> stack[i].tag == tag)
    requires forall k :: i < k < |stack| ==> stack[k].tag != tag
    ensures Nearest(stack, tag) == if i < 0 then None else Some(i)
  {
  }
}
