/** Telnet in, plain text out: commands and ANSI sequences are stripped from a stream that arrives in pieces. */
module Telnets {
  import opened Text
  import opened Bytes

  const ESC: byte := 27
  const IAC: byte := 255
  const NEWLINE: byte := 10
  const RETURN: byte := 13

  /** WILL, WONT, DO, DONT: a command with an option byte after it. */
  predicate Negotiates(b: byte) { 251 <= b <= 254 }

  /** A character of a CSI sequence's parameters. */
  predicate Parameter(b: byte) { 48 <= b <= 57 || b == 59 }

  predicate Letter(b: byte) { 65 <= b <= 90 || 97 <= b <= 122 }

  /** The length of the longest prefix of parameter characters. */
  function Parameters(s: seq<byte>): (n: nat)
    ensures n <= |s|
    ensures forall k :: 0 <= k < n ==> Parameter(s[k])
    ensures n < |s| ==> !Parameter(s[n])
  {
    if s == [] || !Parameter(s[0]) then 0 else 1 + Parameters(s[1..])
  }

  // ----- what one read does

  /** An escape sequence or a command that ends with the bytes of `s`, short of its last byte. */
  predicate CutOff(s: seq<byte>) {
    || s == [ESC]
    || (|s| >= 2 && s[0] == ESC && s[1] == 91 && Parameters(s[2..]) == |s| - 2)
    || s == [IAC]
    || (|s| == 2 && s[0] == IAC && Negotiates(s[1]))
  }

  /** The same, with `$`'s licence: one newline may come after it. */
  predicate CutAtEnd(s: seq<byte>) {
    CutOff(s) || (s != [] && s[|s| - 1] == NEWLINE && CutOff(s[..|s| - 1]))
  }

  /** Where the search for a cut-off sequence finds its first match; the length of `d` when there is none. */
  function FirstCut(d: seq<byte>): (n: nat)
    ensures n <= |d|
  {
    if d == [] || CutAtEnd(d) then 0 else 1 + FirstCut(d[1..])
  }

  /** The length of the sequence that starts `s` and is to be stripped, or 0. */
  function Stripped(s: seq<byte>): (n: nat)
    ensures n <= |s|
  {
    if |s| >= 3 && s[0] == IAC && Negotiates(s[1]) && s[2] != NEWLINE then 3
    else if |s| >= 2 && s[0] == IAC && s[1] != IAC then 2
    else if |s| >= 2 && s[0] == ESC && s[1] == 91 then
      var p := 2 + Parameters(s[2..]);
      if p < |s| && Letter(s[p]) then p + 1 else 0
    else 0
  }

  /** A parameter of a CSI sequence is a digit or a semicolon, by number. */
  ghost predicate Digits(s: seq<byte>, from: nat, to: nat)
    requires from <= to <= |s|
  {
    forall k :: from <= k < to ==> 48 <= s[k] <= 57 || s[k] == 59
  }

  lemma {:induction false} ParametersExactly(s: seq<byte>, n: nat)
    requires n < |s| && Digits(s, 0, n) && !(48 <= s[n] <= 57 || s[n] == 59)
    ensures Parameters(s) == n
  {
    if n > 0 {
      ParametersExactly(s[1..], n - 1);
    }
  }

  /** The three alternatives of the pattern for what is stripped, by number: IAC, one of 251 to 254 and any byte but a
      newline; IAC and any byte but IAC; ESC, [, digits and semicolons, and a letter. The first that fits counts. */
  ghost predicate Fits(s: seq<byte>, n: nat) {
    && n <= |s|
    && var negotiation := |s| > 2 && s[0] == 255 && 251 <= s[1] <= 254 && s[2] != 10;
      || (n == 3 && negotiation)
      || (n == 2 && !negotiation && s[0] == 255 && s[1] != 255)
      || (n > 2 && s[0] == 27 && s[1] == 91 && Digits(s, 2, n - 1)
          && (65 <= s[n - 1] <= 90 || 97 <= s[n - 1] <= 122))
  }

  lemma StrippedExactly(s: seq<byte>, n: nat)
    ensures Fits(s, n) <==> n > 0 && Stripped(s) == n
  {
    if Fits(s, n) && s[0] == 27 {
      ParametersExactly(s[2..], n - 3);
    }
    if n > 0 && Stripped(s) == n && s[0] == 27 {
      assert forall k :: 2 <= k < n - 1 ==> s[k] == s[2..][k - 2];
    }
  }

  lemma {:induction false} AllDigits(s: seq<byte>)
    ensures Parameters(s) == |s| <==> Digits(s, 0, |s|)
  {
    if s != [] {
      AllDigits(s[1..]);
      assert s == [s[0]] + s[1..];
    }
  }

  /** What may be cut off at the end of a read, by number: ESC, or ESC, [ and digits and semicolons; IAC, or IAC and one
      of 251 to 254. */
  lemma CutOffExactly(s: seq<byte>)
    ensures CutOff(s) <==>
      || s == [27] || (|s| > 1 && s[0] == 27 && s[1] == 91 && Digits(s, 2, |s|))
      || s == [255] || (|s| == 2 && s[0] == 255 && 251 <= s[1] <= 254)
  {
    if |s| > 1 {
      AllDigits(s[2..]);
      assert forall k :: 2 <= k < |s| ==> s[k] == s[2..][k - 2];
    }
  }

  function Scrub(s: seq<byte>): seq<byte>
    decreases |s|
  {
    if s == [] then []
    else if Stripped(s) > 0 then Scrub(s[Stripped(s)..])
    else [s[0]] + Scrub(s[1..])
  }

  function WithoutReturns(s: seq<byte>): seq<byte> {
    if s == [] then [] else (if s[0] == RETURN then [] else [s[0]]) + WithoutReturns(s[1..])
  }

  lemma {:induction false} WithoutReturnsAppend(a: seq<byte>, b: seq<byte>)
    ensures WithoutReturns(a + b) == WithoutReturns(a) + WithoutReturns(b)
  {
    if a == [] {
      assert a + b == b;
    } else {
      assert (a + b)[1..] == a[1..] + b;
      WithoutReturnsAppend(a[1..], b);
    }
  }

  /** Carriage returns are left out, and every other byte stays, where it is. */
  lemma ReturnsExactly(a: seq<byte>, b: byte, c: seq<byte>)
    ensures WithoutReturns(a + [b] + c) == WithoutReturns(a) + (if b == 13 then [] else [b]) + WithoutReturns(c)
    ensures WithoutReturns([]) == []
  {
    WithoutReturnsAppend(a + [b], c);
    WithoutReturnsAppend(a, [b]);
    assert [b][1..] == [];
  }

  /** What a read gives, and what it holds back, when the bytes held back before and those received are `d`. */
  function Delivered(d: seq<byte>): seq<byte> {
    WithoutReturns(Scrub(d[..FirstCut(d)]))
  }

  function Held(d: seq<byte>): seq<byte> {
    Matched(d[FirstCut(d)..])
  }

  /** The match itself, without the newline that `$` passed over. */
  function Matched(c: seq<byte>): seq<byte> {
    if c == [] || CutOff(c) then c else c[..|c| - 1]
  }

  // ----- the stream as a whole

  /** An unfinished sequence, a byte to keep, or a sequence of n bytes to drop. */
  datatype Token = Pending | Keep | Drop(n: nat)

  /** What the bytes at the start of `s` are: begun and not finished, not part of anything, or to be stripped. */
  function First(s: seq<byte>): (t: Token)
    requires s != []
    ensures t.Drop? ==> 2 <= t.n <= |s|
  {
    if CutOff(s) then Pending
    else if Stripped(s) > 0 then Drop(Stripped(s))
    else Keep
  }

  /** What the patterns leave of a stream read as a whole, and the unfinished sequence at its end. */
  function Plain(s: seq<byte>): (seq<byte>, seq<byte>)
    decreases |s|
  {
    if s == [] then ([], [])
    else match First(s)
      case Pending => ([], s)
      case Keep => var (out, rest) := Plain(s[1..]); ([s[0]] + out, rest)
      case Drop(n) => Plain(s[n..])
  }

  /** No sequence in the stream is broken off by a newline, or has ESC or IAC where its last byte should be. */
  predicate Clean(s: seq<byte>)
    decreases |s|
  {
    if s == [] then true
    else match First(s)
      case Pending => true
      case Keep => !BrokenOff(s) && Clean(s[1..])
      case Drop(n) => s[n - 1] !in {ESC, IAC, NEWLINE} && !BrokenOff(s) && Clean(s[n..])
  }

  /** An unfinished sequence with a newline after it starts `s`. */
  predicate BrokenOff(s: seq<byte>) {
    || (|s| >= 2 && s[0] == ESC && s[1] == NEWLINE)
    || (|s| >= 3 && s[0] == ESC && s[1] == 91 && 2 + Parameters(s[2..]) < |s| && s[2 + Parameters(s[2..])] == NEWLINE)
    || (|s| >= 2 && s[0] == IAC && s[1] == NEWLINE)
    || (|s| >= 3 && s[0] == IAC && Negotiates(s[1]) && s[2] == NEWLINE)
  }

  lemma {:induction false} ParametersPrefix(s: seq<byte>, t: seq<byte>)
    requires s <= t
    ensures Parameters(s) < |s| ==> Parameters(t) == Parameters(s)
    ensures Parameters(t) < |s| ==> Parameters(s) == Parameters(t)
    ensures Parameters(t) >= |s| ==> Parameters(s) == |s|
  {
    if s != [] && Parameter(s[0]) {
      ParametersPrefix(s[1..], t[1..]);
    }
  }

  /** A sequence that is complete, or a byte that begins none, stays so whatever comes after. */
  lemma FirstStable(a: seq<byte>, b: seq<byte>)
    requires a != [] && a <= b && First(a) != Pending
    ensures First(b) == First(a)
    ensures BrokenOff(a) <==> BrokenOff(b)
  {
    if |a| >= 2 {
      assert a[1] == b[1];
      assert a[2..] <= b[2..];
      ParametersPrefix(a[2..], b[2..]);
    }
  }

  /** Cutting the stream anywhere makes no difference to its plain bytes. */
  lemma {:induction false} PlainSplit(a: seq<byte>, b: seq<byte>)
    ensures Plain(a + b) == (Plain(a).0 + Plain(Plain(a).1 + b).0, Plain(Plain(a).1 + b).1)
    decreases |a|
  {
    if a == [] {
      assert a + b == b;
    } else if First(a) != Pending {
      FirstStable(a, a + b);
      var n := if First(a).Drop? then First(a).n else 1;
      assert (a + b)[n..] == a[n..] + b;
      PlainSplit(a[n..], b);
      Associates([a[0]], Plain(a[n..]).0, Plain(Plain(a).1 + b).0);
    } else {
      assert [] + Plain(a + b).0 == Plain(a + b).0;
    }
  }

  lemma {:induction false} PlainRest(s: seq<byte>)
    ensures Plain(s).1 == [] || CutOff(Plain(s).1)
    decreases |s|
  {
    if s != [] && First(s) != Pending {
      PlainRest(s[if First(s).Drop? then First(s).n else 1..]);
    }
  }

  lemma {:induction false} CleanSplit(a: seq<byte>, b: seq<byte>)
    requires Clean(a + b)
    ensures Clean(a) && Clean(Plain(a).1 + b)
    decreases |a|
  {
    if a == [] {
      assert a + b == b;
    } else if First(a) != Pending {
      FirstStable(a, a + b);
      var n := if First(a).Drop? then First(a).n else 1;
      assert (a + b)[n..] == a[n..] + b;
      CleanSplit(a[n..], b);
    }
  }

  // ----- one read of a clean stream

  lemma {:induction false} FirstCutFound(d: seq<byte>, k: nat)
    requires k < |d| && CutAtEnd(d[k..])
    ensures FirstCut(d) <= k && CutAtEnd(d[FirstCut(d)..])
  {
    assert d[0..] == d;
    if k > 0 && !CutAtEnd(d) {
      assert d[1..][k - 1..] == d[k..];
      FirstCutFound(d[1..], k - 1);
      assert d[1..][FirstCut(d[1..])..] == d[1 + FirstCut(d[1..])..];
    }
  }

  /** From the j-th byte on there is just a sequence cut off, or that and a newline. */
  predicate CutFrom(d: seq<byte>, j: nat)
    requires j < |d|
  {
    CutOff(d[j..]) || (d[|d| - 1] == 10 && CutOff(d[j..|d| - 1]))
  }

  lemma CutFromExactly(d: seq<byte>, j: nat)
    requires j < |d|
    ensures CutFrom(d, j) <==> CutAtEnd(d[j..])
  {
    var s := d[j..];
    assert s[|s| - 1] == d[|d| - 1] && s[..|s| - 1] == d[j..|d| - 1];
  }

  lemma CutBefore(d: seq<byte>, j: nat)
    requires j < |d| && j <= FirstCut(d)
    ensures CutFrom(d, j) ==> j == FirstCut(d)
    ensures j == FirstCut(d) ==> CutFrom(d, j)
  {
    CutFromExactly(d, j);
    if CutAtEnd(d[j..]) {
      FirstCutFound(d, j);
    }
    if j == FirstCut(d) {
      FirstCutCuts(d);
    }
  }

  lemma {:induction false} FirstCutCuts(d: seq<byte>)
    requires FirstCut(d) < |d|
    ensures CutAtEnd(d[FirstCut(d)..])
  {
    assert d[0..] == d;
    if !CutAtEnd(d) {
      FirstCutCuts(d[1..]);
      DropDrop(d, 1, FirstCut(d[1..]));
    }
  }

  /** A read is cut at the first such place, or nowhere if there is none. */
  lemma FirstCutExactly(d: seq<byte>, n: nat)
    requires n <= |d|
    ensures FirstCut(d) == n <==> (n < |d| ==> CutFrom(d, n)) && forall j :: 0 <= j < n ==> !CutFrom(d, j)
  {
    var m := FirstCut(d);
    if m < |d| { CutBefore(d, m); }
    forall j | 0 <= j < m ensures !CutFrom(d, j) { CutBefore(d, j); }
  }

  lemma {:induction false} SkipUncut(d: seq<byte>, n: nat)
    requires n <= |d| && forall j :: 0 <= j < n ==> !CutAtEnd(d[j..])
    ensures FirstCut(d) == n + FirstCut(d[n..])
  {
    if n > 0 {
      assert d[0..] == d;
      forall j | 0 <= j < n - 1 ensures !CutAtEnd(d[1..][j..]) {
        assert d[1..][j..] == d[j + 1..];
      }
      SkipUncut(d[1..], n - 1);
      assert d[1..][n - 1..] == d[n..];
    }
  }

  /** The first token of `d` is complete and meets the condition of `Clean`. */
  predicate CleanFirst(d: seq<byte>)
    requires d != []
  {
    First(d) != Pending && !BrokenOff(d) && (First(d).Drop? ==> d[First(d).n - 1] !in {ESC, IAC, NEWLINE})
  }

  function Size(t: Token): nat { if t.Drop? then t.n else 1 }

  lemma NoCutInside(d: seq<byte>, j: nat)
    requires d != [] && CleanFirst(d) && j < Size(First(d))
    ensures !CutAtEnd(d[j..])
  {
    if j == 0 {
      assert d[j..] == d;
      var c := d[..|d| - 1];
      if d[|d| - 1] == NEWLINE && CutOff(c) && |c| >= 2 && c[0] == ESC {
        assert c[2..] <= d[2..];
        ParametersPrefix(c[2..], d[2..]);
      }
    } else if d[0] == ESC && j >= 2 {
      assert d[j] == d[2..][j - 2];
    }
  }

  lemma StrippedPrefix(d: seq<byte>, e: seq<byte>)
    requires d != [] && CleanFirst(d) && e <= d && Size(First(d)) <= |e|
    ensures Stripped(e) == if First(d).Drop? then First(d).n else 0
  {
    if |e| >= 2 {
      assert e[2..] <= d[2..];
      ParametersPrefix(e[2..], d[2..]);
    }
  }

  lemma FirstCutAfter(d: seq<byte>)
    requires d != [] && CleanFirst(d)
    ensures FirstCut(d) == Size(First(d)) + FirstCut(d[Size(First(d))..])
  {
    forall j | 0 <= j < Size(First(d)) ensures !CutAtEnd(d[j..]) {
      NoCutInside(d, j);
    }
    SkipUncut(d, Size(First(d)));
  }

  lemma StripStep(d: seq<byte>, n: nat, kept: seq<byte>, cut: nat)
    requires d != [] && CleanFirst(d) && n == Size(First(d)) && n <= cut <= |d|
    requires kept == if First(d).Keep? then [d[0]] else []
    ensures Scrub(d[..cut]) == kept + Scrub(d[n..][..cut - n])
  {
    StrippedPrefix(d, d[..cut]);
    Slices(d, n, cut);
  }

  /** A read deals with a clean first token as the protocol does, and with the rest as if it came alone. */
  lemma {:induction false} CleanFirstRead(d: seq<byte>, n: nat, kept: seq<byte>)
    requires d != [] && CleanFirst(d) && n == Size(First(d))
    requires kept == if First(d).Keep? then [d[0]] else []
    ensures Scrub(d[..FirstCut(d)]) == kept + Scrub(d[n..][..FirstCut(d[n..])])
    ensures Held(d) == Held(d[n..])
  {
    FirstCutAfter(d);
    HeldShift(d, n);
    StripStep(d, n, kept, FirstCut(d));
  }

  lemma HeldShift(d: seq<byte>, n: nat)
    requires n <= |d| && FirstCut(d) == n + FirstCut(d[n..])
    ensures Held(d) == Held(d[n..])
  {
    Slices(d, n, FirstCut(d));
  }

  lemma Slices(d: seq<byte>, n: nat, cut: nat)
    requires n <= cut <= |d|
    ensures d[..cut][n..] == d[n..][..cut - n] && d[n..][cut - n..] == d[cut..]
  {
  }

  /** On a clean stream, one read of all of it gives the plain bytes and holds back the unfinished sequence. */
  lemma {:induction false} OneRead(d: seq<byte>)
    requires Clean(d)
    ensures Scrub(d[..FirstCut(d)]) == Plain(d).0 && Held(d) == Plain(d).1
    decreases |d|
  {
    if d != [] && First(d) != Pending {
      CleanFirstRead(d, Size(First(d)), if First(d).Keep? then [d[0]] else []);
      OneRead(d[Size(First(d))..]);
    }
  }

  // ----- any run of reads

  /** What should have been delivered, and what should be held back, once `s` has arrived: what the patterns leave of
      all of it, without carriage returns, and the sequence that is not finished yet. */
  function Reference(s: seq<byte>): (seq<byte>, seq<byte>) {
    (WithoutReturns(Plain(s).0), Plain(s).1)
  }

  /** What was delivered by a run of reads, and what is held back after it. An empty read changes nothing. */
  function Reads(held: seq<byte>, chunks: seq<seq<byte>>): (seq<byte>, seq<byte>)
    decreases |chunks|
  {
    if chunks == [] then ([], held)
    else if chunks[0] == [] then Reads(held, chunks[1..])
    else
      var d := held + chunks[0];
      var (out, rest) := Reads(Held(d), chunks[1..]);
      (Delivered(d) + out, rest)
  }

  /** However the stream is cut into reads, and after each of them, all is delivered and held as it should be. */
  ghost predicate Faithful(s: seq<byte>) {
    forall chunks: seq<seq<byte>> :: Flatten(chunks) <= s ==> Reads([], chunks) == Reference(Flatten(chunks))
  }

  lemma {:induction false} CleanReads(held: seq<byte>, chunks: seq<seq<byte>>)
    requires Clean(held + Flatten(chunks)) && (held == [] || CutOff(held))
    ensures Reads(held, chunks) == Reference(held + Flatten(chunks))
    decreases |chunks|
  {
    var d, rest := held + (if chunks == [] then [] else chunks[0]), if chunks == [] then [] else Flatten(chunks[1..]);
    assert held + Flatten(chunks) == d + rest;
    if chunks == [] {
      assert d + rest == held;
    } else if chunks[0] == [] {
      assert d == held;
      CleanReads(held, chunks[1..]);
    } else {
      CleanSplit(d, rest);
      PlainSplit(d, rest);
      OneRead(d);
      PlainRest(d);
      CleanReads(Held(d), chunks[1..]);
      WithoutReturnsAppend(Plain(d).0, Plain(Held(d) + rest).0);
    }
  }

  lemma {:induction false} NoMarksClean(q: seq<byte>)
    requires ESC !in q && IAC !in q
    ensures Clean(q) && Plain(q) == (q, [])
  {
    if q != [] {
      NoMarksClean(q[1..]);
      assert [q[0]] + q[1..] == q;
    }
  }

  const LETTER: byte := 65

  /** A letter that comes next is delivered differently when it comes in a read of its own. */
  ghost predicate Differs(p: seq<byte>) {
    Delivered(p + [LETTER]) != Delivered(p) + Delivered(Held(p) + [LETTER])
  }

  /** In a stream that is not clean, a read that ends at the first flaw holds back what it should not, and a letter
      after it shows the difference. */
  lemma {:induction false} Flaw(s: seq<byte>) returns (n: nat)
    requires !Clean(s)
    ensures 0 < n <= |s| && Held(s[..n]) != Plain(s[..n]).1 && Differs(s[..n])
    decreases |s|
  {
    if CleanFirst(s) {
      var k := Size(First(s));
      var m := Flaw(s[k..]);
      n := k + m;
      var p := s[..n];
      assert p[k..] == s[k..][..m];
      CutOffReadsRight(p, k);
      FirstStable(p, s);
      DiffersLater(p, k);
    } else {
      n := FlawFirst(s);
    }
  }

  lemma {:induction false} DiffersLater(p: seq<byte>, k: nat)
    requires p != [] && CleanFirst(p) && k == Size(First(p)) && Differs(p[k..])
    ensures Held(p) == Held(p[k..]) && Plain(p).1 == Plain(p[k..]).1 && Differs(p)
  {
    var kept := if First(p).Keep? then [p[0]] else [];
    var q := p + [LETTER];
    FirstStable(p, q);
    DropPrefix(p, [LETTER], k);
    CleanFirstRead(p, k, kept);
    CleanFirstRead(q, k, kept);
    WithoutReturnsAppend(kept, Scrub(p[k..][..FirstCut(p[k..])]));
    WithoutReturnsAppend(kept, Scrub(q[k..][..FirstCut(q[k..])]));
    Associates(WithoutReturns(kept), Delivered(p[k..]), Delivered(Held(p) + [LETTER]));
    CancelLeft(WithoutReturns(kept), Delivered(q[k..]), Delivered(p[k..]) + Delivered(Held(p) + [LETTER]));
  }

  lemma CancelLeft<T>(a: seq<T>, b: seq<T>, c: seq<T>)
    ensures a + b == a + c ==> b == c
  {
    if a + b == a + c {
      assert (a + b)[|a|..] == b && (a + c)[|a|..] == c;
    }
  }

  lemma CutOffInside(p: seq<byte>, k: nat)
    requires CutOff(p) && 0 < k <= |p|
    ensures ESC !in p[k..] && IAC !in p[k..]
  {
    forall j | k <= j < |p| ensures p[j] != ESC && p[j] != IAC {
      if j >= 2 {
        assert p[2..][j - 2] == p[j];
      }
    }
  }

  lemma CutOffReadsRight(p: seq<byte>, k: nat)
    requires 0 < k <= |p|
    ensures CutOff(p) ==> Held(p[k..]) == Plain(p[k..]).1
  {
    if CutOff(p) {
      CutOffInside(p, k);
      NoMarksClean(p[k..]);
      OneRead(p[k..]);
    }
  }

  lemma FlawFirst(s: seq<byte>) returns (n: nat)
    requires s != [] && First(s) != Pending && !CleanFirst(s)
    ensures 0 < n <= |s| && Held(s[..n]) != Plain(s[..n]).1 && Differs(s[..n])
  {
    if BrokenOff(s) {
      n := if s[1] == NEWLINE then 2 else if s[0] == IAC then 3 else 3 + Parameters(s[2..]);
      BrokenCut(s, n);
      assert s[..n][..n - 1] == s[..n - 1];
      BrokenHeld(s[..n]);
      BrokenDiffers(s[..n]);
    } else {
      n := First(s).n;
      MarkFlaw(s, n, s[..n]);
    }
  }

  lemma MarkFlaw(s: seq<byte>, n: nat, p: seq<byte>)
    requires s != [] && First(s) == Drop(n) && s[n - 1] in {ESC, IAC, NEWLINE} && !BrokenOff(s) && p == s[..n]
    ensures Held(p) != Plain(p).1 && Differs(p)
  {
    assert First(p) == First(s) && Plain(p).1 == [];
    assert p[n - 1..] == [s[n - 1]];
    FirstCutFound(p, n - 1);
    MarkDiffers(p);
  }

  /** A read that ends with a letter holds nothing back. */
  lemma {:induction false} LetterLast(d: seq<byte>)
    requires d != [] && Letter(d[|d| - 1])
    ensures FirstCut(d) == |d| && Held(d) == [] && Delivered(d) == WithoutReturns(Scrub(d))
  {
    forall j | 0 <= j < |d| ensures !CutAtEnd(d[j..]) {
      var t := d[j..];
      assert t[|t| - 1] == d[|d| - 1];
      if |t| > 2 { assert t[2..][|t| - 3] == t[|t| - 1]; }
    }
    SkipUncut(d, |d|);
    assert d[..|d|] == d;
  }

  lemma {:induction false} ScrubNoMarks(q: seq<byte>)
    requires ESC !in q && IAC !in q
    ensures Scrub(q) == q
  {
    if q != [] {
      ScrubNoMarks(q[1..]);
      assert [q[0]] + q[1..] == q;
    }
  }

  lemma BrokenCut(s: seq<byte>, n: nat)
    requires BrokenOff(s)
    requires n == if s[1] == NEWLINE then 2 else if s[0] == IAC then 3 else 3 + Parameters(s[2..])
    ensures n <= |s| && s[n - 1] == NEWLINE && CutOff(s[..n - 1])
  {
    var c := s[..n - 1];
    if |c| > 2 {
      assert c[2..] == s[2..][..|c| - 2];
      ParametersPrefix(c[2..], s[2..]);
    }
  }

  lemma BrokenNoMarks(p: seq<byte>, c: seq<byte>)
    requires CutOff(c) && p == c + [NEWLINE]
    ensures ESC !in p[1..] && IAC !in p[1..]
  {
    CutOffInside(c, 1);
    forall j | 1 <= j < |p| ensures p[j] !in {ESC, IAC} {
      assert j < |c| ==> p[j] == c[1..][j - 1];
    }
  }

  lemma BrokenNotPending(p: seq<byte>, c: seq<byte>)
    requires CutOff(c) && p == c + [NEWLINE]
    ensures First(p) != Pending
  {
    assert p[|p| - 1] == NEWLINE;
    if |p| > 2 { assert p[2..][|p| - 3] == NEWLINE; }
  }

  lemma BrokenPlain(p: seq<byte>, c: seq<byte>, n: nat)
    requires CutOff(c) && p == c + [NEWLINE] && First(p) != Pending && n == Size(First(p))
    requires ESC !in p[1..] && IAC !in p[1..]
    ensures Plain(p).1 == []
  {
    assert p[n..] == p[1..][n - 1..];
    NoMarksClean(p[n..]);
  }

  lemma BrokenHeld(p: seq<byte>)
    requires |p| >= 2 && p[|p| - 1] == NEWLINE && CutOff(p[..|p| - 1])
    ensures Held(p) != [] && Plain(p).1 == []
  {
    var c := p[..|p| - 1];
    assert p == c + [NEWLINE];
    BrokenRead(p, c);
    BrokenNoMarks(p, c);
    BrokenNotPending(p, c);
    BrokenPlain(p, c, Size(First(p)));
  }

  lemma BrokenDiffers(p: seq<byte>)
    requires |p| >= 2 && p[|p| - 1] == NEWLINE && CutOff(p[..|p| - 1])
    ensures Differs(p)
  {
    var c := p[..|p| - 1];
    var u, v := p + [LETTER], c + [LETTER];
    assert p == c + [NEWLINE];
    LetterLast(u);
    LetterLast(v);
    BrokenRead(p, c);
    if c == [ESC] {
      EscapeBroken(u, v);
    } else if c[0] == ESC {
      CsiBroken(c, u, v);
    } else {
      CommandBroken(c, u, v);
    }
  }

  lemma BrokenRead(p: seq<byte>, c: seq<byte>)
    requires CutOff(c) && p == c + [NEWLINE]
    ensures Held(p) == c && Delivered(p) + Delivered(c + [LETTER]) == Delivered(c + [LETTER])
  {
    assert p[..|p| - 1] == c && FirstCut(p) == 0;
    assert p[0..] == p && p[..0] == [];
  }

  lemma EscapeBroken(u: seq<byte>, v: seq<byte>)
    requires u == [ESC, NEWLINE, LETTER] && v == [ESC, LETTER]
    ensures WithoutReturns(Scrub(u)) != WithoutReturns(Scrub(v))
  {
    ScrubNoMarks(u[1..]);
    ScrubNoMarks(v[1..]);
    assert Scrub(u) == u && Scrub(v) == v;
    NoReturns(u);
    NoReturns(v);
  }

  lemma {:induction false} NoReturns(s: seq<byte>)
    requires RETURN !in s
    ensures WithoutReturns(s) == s
  {
    if s != [] {
      NoReturns(s[1..]);
      assert [s[0]] + s[1..] == s;
    }
  }

  lemma ParametersStop(q: seq<byte>, x: byte, rest: seq<byte>)
    requires Parameters(q) == |q| && !Parameter(x)
    ensures Parameters(q + ([x] + rest)) == |q|
  {
    var s := q + ([x] + rest);
    ParametersPrefix(q, s);
    assert s[|q|] == x;
  }

  lemma CsiBroken(c: seq<byte>, u: seq<byte>, v: seq<byte>)
    requires CutOff(c) && |c| >= 2 && c[0] == ESC && u == c + [NEWLINE] + [LETTER] && v == c + [LETTER]
    ensures WithoutReturns(Scrub(u)) != WithoutReturns(Scrub(v))
  {
    var q := c[2..];
    assert u[2..] == q + ([NEWLINE] + [LETTER]) && v[2..] == q + ([LETTER] + []);
    ParametersStop(q, NEWLINE, [LETTER]);
    ParametersStop(q, LETTER, []);
    assert u[|c|] == NEWLINE && v[|c|] == LETTER;
    assert Stripped(u) == 0 && Stripped(v) == |v|;
    assert v[|v|..] == [] && Scrub(v) == [];
    assert u[0] == ESC && Scrub(u)[0] == ESC;
  }

  lemma CommandBroken(c: seq<byte>, u: seq<byte>, v: seq<byte>)
    requires CutOff(c) && c[0] == IAC && u == c + [NEWLINE] + [LETTER] && v == c + [LETTER]
    ensures WithoutReturns(Scrub(u)) != WithoutReturns(Scrub(v))
  {
    ScrubNoMarks(u[2..]);
    if |c| == 1 {
      assert Stripped(u) == 2 && u[2..] == [LETTER] && Scrub(u) == [LETTER];
      assert Stripped(v) == 2 && Scrub(v) == [];
    } else {
      assert Stripped(u) == 2 && u[2..] == [NEWLINE, LETTER] && Scrub(u) == [NEWLINE, LETTER];
      assert Stripped(v) == 3 && Scrub(v) == [];
    }
  }

  /** A command whose last byte is ESC or IAC: a read that ends there takes that byte for a new beginning. */
  lemma MarkDiffers(p: seq<byte>)
    requires p != [] && First(p) == Drop(|p|) && p[|p| - 1] in {ESC, IAC}
    ensures Differs(p)
  {
    var n := |p| - 1;
    var mark := p[n];
    var u, v := p + [LETTER], [mark] + [LETTER];
    assert p[0] == IAC && (n == 1 || (n == 2 && Negotiates(p[1])));
    LetterLast(u);
    LetterLast(v);
    MarkCut(p);
    assert Stripped(u) == n + 1 && u[n + 1..] == [LETTER];
    ScrubNoMarks([LETTER]);
    assert Delivered(u) == [LETTER];
    if mark == ESC {
      assert v[1..] == [LETTER];
      assert Delivered(v) == [ESC, LETTER];
    } else {
      assert n == 2 && Delivered(v) == [];
      assert Scrub(p[..n]) == [];
    }
  }

  lemma MarkCut(p: seq<byte>)
    requires |p| in {2, 3} && p[0] == IAC && p[|p| - 1] in {ESC, IAC} && (|p| == 3 ==> Negotiates(p[1]))
    requires |p| == 2 ==> p[1] == ESC
    ensures FirstCut(p) == |p| - 1 && Held(p) == [p[|p| - 1]]
  {
    var n := |p| - 1;
    assert p[0..] == p && p[n..] == [p[n]];
    assert !CutAtEnd(p);
    if n == 2 { assert !CutAtEnd(p[1..]); }
    SkipUncut(p, n);
  }

  /** Whatever the reads, all is delivered and held as it should be: that is so for the clean streams, and no others. */
  lemma FaithfulExactlyWhenClean(s: seq<byte>)
    ensures Faithful(s) <==> Clean(s)
  {
    if Clean(s) {
      forall chunks: seq<seq<byte>> | Flatten(chunks) <= s ensures Reads([], chunks) == Reference(Flatten(chunks)) {
        assert Flatten(chunks) + s[|Flatten(chunks)|..] == s;
        CleanSplit(Flatten(chunks), s[|Flatten(chunks)|..]);
        assert [] + Flatten(chunks) == Flatten(chunks);
        CleanReads([], chunks);
      }
    } else {
      var n := Flaw(s);
      var p := s[..n];
      var once: seq<seq<byte>> := [p];
      FlattenOne(p);
      assert [] + p == p;
      assert Reads([], once).1 == Held(p);
      assert Flatten(once) <= s && Reads([], once) != Reference(Flatten(once));
    }
  }

  // ----- where the stream is cut

  /** `u` is a start of the stream, and perhaps some letters after it. */
  ghost predicate Arrives(s: seq<byte>, u: seq<byte>) {
    exists n: nat :: n <= |s| && n <= |u| && u[..n] == s[..n] && AllLetters(u[n..])
  }

  predicate AllLetters(t: seq<byte>) {
    forall b :: b in t ==> Letter(b)
  }

  /** At no moment does it make a difference how what came was cut into reads, even if plain letters come next. */
  ghost predicate SplitInvariant(s: seq<byte>) {
    forall a: seq<seq<byte>>, b: seq<seq<byte>> ::
      Flatten(a) == Flatten(b) && Arrives(s, Flatten(a)) ==> Reads([], a) == Reads([], b)
  }

  lemma {:induction false} CleanThenLetters(p: seq<byte>, t: seq<byte>)
    requires Clean(p) && AllLetters(t)
    ensures Clean(p + t)
    decreases |p|
  {
    if p == [] || t == [] {
      NoMarksClean(t);
      assert p + t == if p == [] then t else p;
    } else if First(p) == Pending {
      PendingThenLetters(p, t);
    } else {
      var k := Size(First(p));
      FirstStable(p, p + t);
      DropPrefix(p, t, k);
      CleanThenLetters(p[k..], t);
    }
  }

  lemma {:induction false} LettersClean(t: seq<byte>)
    requires AllLetters(t)
    ensures Clean(t) && (t != [] ==> Clean(t[1..]))
  {
    assert ESC !in t && IAC !in t;
    NoMarksClean(t);
    if t != [] { NoMarksClean(t[1..]); }
  }

  lemma PendingThenLetters(p: seq<byte>, t: seq<byte>)
    requires CutOff(p) && AllLetters(t) && t != []
    ensures Clean(p + t)
  {
    var s, n := p + t, |p|;
    LettersClean(t);
    assert t[0] in t && s[n] == t[0] && s[n..] == t && s[n + 1..] == t[1..];
    if p == [ESC] {
      assert First(s) == Keep && s[1..] == t;
    } else if p[0] == ESC {
      CsiThenLetters(p, t);
    } else {
      assert First(s) == Drop(n + 1);
    }
  }

  lemma CsiThenLetters(p: seq<byte>, t: seq<byte>)
    requires CutOff(p) && |p| >= 2 && p[0] == ESC && t != [] && Letter(t[0])
    ensures First(p + t) == Drop(|p| + 1) && !BrokenOff(p + t)
  {
    var s := p + t;
    assert s[2..] == p[2..] + ([t[0]] + t[1..]);
    ParametersStop(p[2..], t[0], t[1..]);
    assert s[|p|] == t[0];
  }

  lemma CleanAgrees(s: seq<byte>, chunks: seq<seq<byte>>)
    requires Clean(s) && Arrives(s, Flatten(chunks))
    ensures Reads([], chunks) == Reference(Flatten(chunks))
  {
    var u := Flatten(chunks);
    var n: nat :| n <= |s| && n <= |u| && u[..n] == s[..n] && AllLetters(u[n..]);
    assert s[..n] + s[n..] == s && u[..n] + u[n..] == u && [] + u == u;
    CleanSplit(s[..n], s[n..]);
    CleanThenLetters(s[..n], u[n..]);
    CleanReads([], chunks);
  }

  lemma CleanInvariant(s: seq<byte>, a: seq<seq<byte>>, b: seq<seq<byte>>)
    requires Clean(s) && Flatten(a) == Flatten(b) && Arrives(s, Flatten(a))
    ensures Reads([], a) == Reads([], b)
  {
    CleanAgrees(s, a);
    CleanAgrees(s, b);
  }

  lemma UncleanDiffers(s: seq<byte>) returns (a: seq<seq<byte>>, b: seq<seq<byte>>)
    requires !Clean(s)
    ensures Flatten(a) == Flatten(b) && Arrives(s, Flatten(a)) && Reads([], a) != Reads([], b)
  {
    var n := Flaw(s);
    a, b := [s[..n] + [LETTER]], [s[..n], [LETTER]];
    LateLetter(s[..n], a, b);
    LetterArrives(s, n);
  }

  /** How the stream is cut makes no difference for the clean streams, and for no others. */
  lemma SplitInvariantExactlyWhenClean(s: seq<byte>)
    ensures SplitInvariant(s) <==> Clean(s)
  {
    if Clean(s) {
      forall a: seq<seq<byte>>, b: seq<seq<byte>> | Flatten(a) == Flatten(b) && Arrives(s, Flatten(a))
        ensures Reads([], a) == Reads([], b)
      {
        CleanInvariant(s, a, b);
      }
    } else {
      var a, b := UncleanDiffers(s);
    }
  }

  lemma LetterArrives(s: seq<byte>, n: nat)
    requires n <= |s|
    ensures Arrives(s, s[..n] + [LETTER])
  {
    var u := s[..n] + [LETTER];
    assert u[..n] == s[..n] && u[n..] == [LETTER];
  }

  lemma LateLetter(p: seq<byte>, once: seq<seq<byte>>, twice: seq<seq<byte>>)
    requires p != [] && Differs(p) && once == [p + [LETTER]] && twice == [p, [LETTER]]
    ensures Flatten(once) == Flatten(twice) == p + [LETTER]
    ensures Reads([], once) != Reads([], twice)
  {
    FlattenOne(p + [LETTER]);
    FlattenOne([LETTER]);
    assert twice[1..] == [[LETTER]] && Flatten(twice) == p + Flatten(twice[1..]);
    ReadsOne([], p + [LETTER]);
    ReadsTwo(p, [LETTER]);
    assert [] + (p + [LETTER]) == p + [LETTER];
  }

  lemma ReadsOne(held: seq<byte>, chunk: seq<byte>)
    requires chunk != []
    ensures Reads(held, [chunk]) == (Delivered(held + chunk), Held(held + chunk))
  {
    var once: seq<seq<byte>> := [chunk];
    assert once[1..] == [] && Delivered(held + chunk) + [] == Delivered(held + chunk);
  }

  /** ESC, newline, A: read at once, all three bytes are delivered; cut before the A, the newline is lost. */
  lemma NewlineLost()
    ensures Reads([], [[ESC, NEWLINE, LETTER]]) == ([ESC, NEWLINE, LETTER], [])
    ensures Reads([], [[ESC, NEWLINE], [LETTER]]) == ([ESC, LETTER], [])
  {
    var whole, cut, left := [ESC, NEWLINE, LETTER], [ESC, NEWLINE], [ESC, LETTER];
    EscapeAlone(whole);
    EscapeAlone(left);
    ReadsOne([], whole);
    BrokenRead(cut, [ESC]);
    ReadsTwo(cut, [LETTER]);
    assert [] + whole == whole && [ESC] + [LETTER] == left;
  }

  /** An ESC that begins no sequence is kept, as is all that follows. */
  lemma EscapeAlone(u: seq<byte>)
    requires |u| >= 2 && u[0] == ESC && u[1] != 91 && Letter(u[|u| - 1])
    requires ESC !in u[1..] && IAC !in u[1..] && RETURN !in u
    ensures Delivered(u) == u && Held(u) == []
  {
    LetterLast(u);
    ScrubNoMarks(u[1..]);
    NoReturns(u);
    assert Scrub(u) == [ESC] + u[1..] == u;
  }

  lemma ReadsTwo(a: seq<byte>, b: seq<byte>)
    requires a != [] && b != []
    ensures Reads([], [a, b]) == (Delivered(a) + Delivered(Held(a) + b), Held(Held(a) + b))
  {
    var twice: seq<seq<byte>> := [a, b];
    ReadsOne(Held(a), b);
    assert twice[1..] == [b] && [] + a == a;
  }

  // ----- what a telnet server sends

  const SUB: byte := 250
  const SUB_END: byte := 240

  /** `Escaped` is the data byte 255; the data of a subnegotiation is its option and what comes with it. */
  datatype Item =
    | Byte(b: byte)
    | Csi(parameters: seq<byte>, letter: byte)
    | Command(c: byte)
    | Negotiation(c: byte, option: byte)
    | Escaped
    | Subnegotiation(data: seq<byte>)

  predicate WellFormed(i: Item) {
    match i
    case Byte(b) => b != ESC && b != IAC
    case Csi(parameters, letter) => Letter(letter) && forall p :: p in parameters ==> Parameter(p)
    case Command(c) => SUB_END < c < SUB
    case Negotiation(c, option) => Negotiates(c)
    case Escaped => true
    case Subnegotiation(data) => ESC !in data && IAC !in data
  }

  function Printed(i: Item): seq<byte> {
    match i
    case Byte(b) => [b]
    case Csi(parameters, letter) => [ESC, 91] + parameters + [letter]
    case Command(c) => [IAC, c]
    case Negotiation(c, option) => [IAC, c, option]
    case Escaped => [IAC, IAC]
    case Subnegotiation(data) => [IAC, SUB] + data + [IAC, SUB_END]
  }

  function Print(items: seq<Item>): seq<byte> {
    if items == [] then [] else Printed(items[0]) + Print(items[1..])
  }

  /** The text of an item as the telnet protocol has it, without carriage returns. */
  function Meant(i: Item): seq<byte> {
    match i
    case Byte(b) => WithoutReturns([b])
    case Escaped => [IAC]
    case _ => []
  }

  function AllMeant(items: seq<Item>): seq<byte> {
    if items == [] then [] else Meant(items[0]) + AllMeant(items[1..])
  }

  /** No data byte 255, no subnegotiation with anything but carriage returns in it, and none of three options. */
  predicate Simple(i: Item) {
    match i
    case Negotiation(c, option) => option !in {ESC, IAC, NEWLINE}
    case Escaped => false
    case Subnegotiation(data) => forall b :: b in data ==> b == RETURN
    case _ => true
  }

  lemma {:induction false} AllParameters(p: seq<byte>, letter: byte, rest: seq<byte>)
    requires Letter(letter) && forall b :: b in p ==> Parameter(b)
    ensures Parameters(p + ([letter] + rest)) == |p|
  {
    var s := p + ([letter] + rest);
    if p != [] {
      assert s[1..] == p[1..] + ([letter] + rest);
      AllParameters(p[1..], letter, rest);
    }
  }

  lemma FirstCsi(parameters: seq<byte>, letter: byte, rest: seq<byte>, s: seq<byte>)
    requires WellFormed(Csi(parameters, letter)) && s == Printed(Csi(parameters, letter)) + rest
    ensures First(s) == Drop(|parameters| + 3) && CleanFirst(s)
  {
    assert s[0] == ESC && s[1] == 91 && s[2..] == parameters + ([letter] + rest);
    AllParameters(parameters, letter, rest);
    assert s[2 + |parameters|] == letter;
  }

  lemma FirstItem(i: Item, rest: seq<byte>)
    requires WellFormed(i) && Simple(i) && !i.Subnegotiation?
    ensures First(Printed(i) + rest) == if i.Byte? then Keep else Drop(|Printed(i)|)
    ensures CleanFirst(Printed(i) + rest)
  {
    var s := Printed(i) + rest;
    match i
    case Byte(b) => assert s[0] == b;
    case Csi(parameters, letter) => FirstCsi(parameters, letter, rest, s);
    case Command(c) => assert s[0] == IAC && s[1] == c;
    case Negotiation(c, option) => assert s[0] == IAC && s[1] == c && s[2] == option;
  }

  lemma CleanStep(s: seq<byte>, n: nat)
    requires s != [] && CleanFirst(s) && n == Size(First(s))
    ensures Clean(s) == Clean(s[n..])
    ensures Plain(s) == ((if First(s).Keep? then [s[0]] else []) + Plain(s[n..]).0, Plain(s[n..]).1)
  {
    assert [] + Plain(s[n..]).0 == Plain(s[n..]).0;
  }

  /** `before` is clean and complete, and its plain bytes are `text`, whatever `rest` comes after it. */
  predicate ReadsAs(before: seq<byte>, text: seq<byte>, rest: seq<byte>) {
    && Clean(before + rest) == Clean(rest)
    && Plain(before + rest) == (text + Plain(rest).0, Plain(rest).1)
  }

  lemma ReadsOn(a: seq<byte>, x: seq<byte>, b: seq<byte>, y: seq<byte>, rest: seq<byte>)
    requires ReadsAs(a, x, b + rest) && ReadsAs(b, y, rest)
    ensures ReadsAs(a + b, x + y, rest)
  {
    Associates(a, b, rest);
    Associates(x, y, Plain(rest).0);
  }

  lemma {:induction false} BytesRead(data: seq<byte>, rest: seq<byte>)
    requires ESC !in data && IAC !in data
    ensures ReadsAs(data, data, rest)
  {
    if data == [] {
      assert [] + rest == rest && [] + Plain(rest).0 == Plain(rest).0;
    } else {
      BytesRead(data[1..], rest);
      OneByteRead(data[0], data[1..] + rest);
      ReadsOn([data[0]], [data[0]], data[1..], data[1..], rest);
      assert [data[0]] + data[1..] == data;
    }
  }

  lemma OneByteRead(b: byte, rest: seq<byte>)
    requires b != ESC && b != IAC
    ensures ReadsAs([b], [b], rest)
  {
    FirstItem(Byte(b), rest);
    CleanStep([b] + rest, 1);
    DropPrefix([b], rest, 1);
  }

  lemma CommandRead(c: byte, rest: seq<byte>)
    requires SUB_END <= c <= SUB
    ensures ReadsAs([IAC, c], [], rest)
  {
    var s := [IAC, c] + rest;
    assert s[0] == IAC && s[1] == c && First(s) == Drop(2);
    CleanStep(s, 2);
    DropPrefix([IAC, c], rest, 2);
  }

  /** What comes with a subnegotiation is taken for text. */
  lemma SubnegotiationRead(data: seq<byte>, rest: seq<byte>)
    requires ESC !in data && IAC !in data
    ensures ReadsAs(Printed(Subnegotiation(data)), data, rest)
  {
    CommandRead(SUB_END, rest);
    BytesRead(data, [IAC, SUB_END] + rest);
    ReadsOn(data, data, [IAC, SUB_END], [], rest);
    CommandRead(SUB, data + [IAC, SUB_END] + rest);
    ReadsOn([IAC, SUB], [], data + [IAC, SUB_END], data + [], rest);
    Associates([IAC, SUB], data, [IAC, SUB_END]);
    assert [] + (data + []) == data;
  }

  lemma {:induction false} ReturnsOnly(data: seq<byte>)
    ensures WithoutReturns(data) == [] <==> forall b :: b in data ==> b == RETURN
  {
    if data != [] {
      ReturnsOnly(data[1..]);
      assert forall b :: b in data <==> b == data[0] || b in data[1..];
      assert data[0] in data;
    }
  }

  lemma ItemRead(i: Item, rest: seq<byte>) returns (text: seq<byte>)
    requires WellFormed(i) && Simple(i)
    ensures ReadsAs(Printed(i), text, rest) && WithoutReturns(text) == Meant(i)
  {
    if i.Subnegotiation? {
      text := i.data;
      SubnegotiationRead(i.data, rest);
      ReturnsOnly(i.data);
    } else {
      text := if i.Byte? then [i.b] else [];
      FirstItem(i, rest);
      CleanStep(Printed(i) + rest, |Printed(i)|);
      DropPrefix(Printed(i), rest, |Printed(i)|);
      if i.Byte? { assert (Printed(i) + rest)[0] == i.b; }
    }
  }

  lemma {:induction false} ItemsRead(items: seq<Item>, rest: seq<byte>) returns (text: seq<byte>)
    requires forall i :: i in items ==> WellFormed(i) && Simple(i)
    ensures ReadsAs(Print(items), text, rest) && WithoutReturns(text) == AllMeant(items)
  {
    if items == [] {
      text := [];
      assert [] + rest == rest && [] + Plain(rest).0 == Plain(rest).0;
    } else {
      var first := ItemRead(items[0], Print(items[1..]) + rest);
      var more := ItemsRead(items[1..], rest);
      text := first + more;
      ReadsOn(Printed(items[0]), first, Print(items[1..]), more, rest);
      WithoutReturnsAppend(first, more);
    }
  }

  /** A stream of such items is clean, and what they mean is what is delivered. */
  lemma ServerStreamsClean(items: seq<Item>)
    requires forall i :: i in items ==> WellFormed(i) && Simple(i)
    ensures Clean(Print(items)) && Reference(Print(items)) == (AllMeant(items), [])
  {
    var text := ItemsRead(items, []);
    assert Print(items) + [] == Print(items) && text + [] == text;
  }

  /** So is what a server has sent at any moment, and every way it is read in delivers the same. */
  lemma ServerStreamsFaithful(items: seq<Item>, chunks: seq<seq<byte>>)
    requires forall i :: i in items ==> WellFormed(i) && Simple(i)
    requires Flatten(chunks) <= Print(items)
    ensures Reads([], chunks) == Reference(Flatten(chunks))
    ensures Flatten(chunks) == Print(items) ==> Reads([], chunks) == (AllMeant(items), [])
  {
    ServerStreamsClean(items);
    FaithfulExactlyWhenClean(Print(items));
  }

  /** Some of the items, from the first on, and a letter after them. */
  function Start(items: seq<Item>, n: nat): seq<Item>
    requires n <= |items|
  {
    items[..n] + [Byte(LETTER)]
  }

  /** After any of the items, however they are read in and if a letter comes next, what was meant is delivered. */
  ghost predicate ReadsAsMeant(items: seq<Item>) {
    forall n: nat, chunks: seq<seq<byte>> ::
      n <= |items| && Flatten(chunks) == Print(Start(items, n)) ==> Reads([], chunks) == (AllMeant(Start(items, n)), [])
  }

  lemma {:induction false} FirstNotSimple(items: seq<Item>) returns (k: nat)
    requires !forall i :: i in items ==> Simple(i)
    ensures k < |items| && !Simple(items[k]) && forall i :: i in items[..k] ==> Simple(i)
  {
    k := 0;
    if Simple(items[0]) {
      var m := FirstNotSimple(items[1..]);
      k := m + 1;
      assert items[..k] == [items[0]] + items[1..][..m];
    }
  }

  /** What is read of an item that is not simple, with a letter after it, is not what is meant. */
  lemma NotSimpleRead(i: Item)
    requires WellFormed(i) && !Simple(i) && !i.Negotiation?
    ensures var s := Printed(i) + [LETTER];
      Clean(s) && WithoutReturns(Plain(s).0) != Meant(i) + [LETTER]
  {
    if i.Escaped? {
      EscapedRead();
    } else {
      LetterRead();
      SubnegotiationRead(i.data, [LETTER]);
      ReturnsOnly(i.data);
      WithoutReturnsAppend(i.data, [LETTER]);
    }
  }

  lemma LetterRead()
    ensures Clean([LETTER]) && Plain([LETTER]) == ([LETTER], []) && WithoutReturns([LETTER]) == [LETTER]
  {
    assert First([LETTER]) == Keep && [LETTER][1..] == [];
    NoReturns([LETTER]);
  }

  /** The second IAC of a data byte 255 is taken for the start of a command, and the byte after it is lost. */
  lemma EscapedRead()
    ensures var s := Printed(Escaped) + [LETTER];
      s == [IAC, IAC, LETTER] && Clean(s) && Plain(s) == ([IAC], []) && WithoutReturns([IAC]) == [IAC]
  {
    var s := [IAC, IAC, LETTER];
    var rest := s[1..];
    assert rest == [IAC, LETTER] && First(rest) == Drop(2) && rest[2..] == [];
    assert First(s) == Keep && Clean(rest) && Plain(rest) == ([], []);
    NoReturns([IAC]);
  }

  lemma {:induction false} StartPrinted(items: seq<Item>, i: Item)
    ensures Print(items + [i] + [Byte(LETTER)]) == Print(items) + (Printed(i) + [LETTER])
    ensures AllMeant(items + [i] + [Byte(LETTER)]) == AllMeant(items) + (Meant(i) + [LETTER])
  {
    PrintAppend(items + [i], [Byte(LETTER)]);
    PrintAppend(items, [i]);
    PrintOne(i);
    PrintOne(Byte(LETTER));
    LetterRead();
    Associates(Print(items), Printed(i), [LETTER]);
    Associates(AllMeant(items), Meant(i), [LETTER]);
  }

  lemma PrintOne(i: Item)
    ensures Print([i]) == Printed(i) && AllMeant([i]) == Meant(i)
  {
    var one := [i];
    assert one[1..] == [] && Printed(i) + [] == Printed(i) && Meant(i) + [] == Meant(i);
  }

  lemma {:induction false} PrintAppend(a: seq<Item>, b: seq<Item>)
    ensures Print(a + b) == Print(a) + Print(b) && AllMeant(a + b) == AllMeant(a) + AllMeant(b)
  {
    if a == [] {
      assert a + b == b && [] + Print(b) == Print(b) && [] + AllMeant(b) == AllMeant(b);
    } else {
      DropPrefix(a, b, 1);
      PrintAppend(a[1..], b);
      Associates(Printed(a[0]), Print(a[1..]), Print(b));
      Associates(Meant(a[0]), AllMeant(a[1..]), AllMeant(b));
    }
  }

  lemma Misread(items: seq<Item>, i: Item, chunk: seq<byte>)
    requires (forall j :: j in items ==> WellFormed(j) && Simple(j))
    requires WellFormed(i) && !Simple(i) && !i.Negotiation?
    requires chunk == Print(items + [i] + [Byte(LETTER)])
    ensures Reads([], [chunk]).0 != AllMeant(items + [i] + [Byte(LETTER)])
  {
    var tail := Printed(i) + [LETTER];
    StartPrinted(items, i);
    NotSimpleRead(i);
    var text := ItemsRead(items, tail);
    WithoutReturnsAppend(text, Plain(tail).0);
    FlattenOne(chunk);
    assert [] + chunk == chunk;
    CleanReads([], [chunk]);
    CancelLeft(AllMeant(items), WithoutReturns(Plain(tail).0), Meant(i) + [LETTER]);
  }

  /** A negotiation of one of the three options: whether a read ends there makes a difference. */
  lemma OptionDiffers(i: Item)
    requires i.Negotiation? && WellFormed(i) && !Simple(i)
    ensures Differs(Printed(i))
  {
    var p := Printed(i);
    if i.option == NEWLINE {
      assert p[..2] == [IAC, i.c];
      BrokenDiffers(p);
    } else {
      assert First(p) == Drop(3);
      MarkDiffers(p);
    }
  }

  lemma {:induction false} DiffersAfter(a: seq<byte>, p: seq<byte>)
    requires Clean(a) && Plain(a).1 == [] && p != [] && Differs(p)
    ensures Differs(a + p)
    decreases |a|
  {
    if a == [] {
      assert a + p == p;
    } else {
      var k := Size(First(a));
      FirstStable(a, a + p);
      DropPrefix(a, p, k);
      DiffersAfter(a[k..], p);
      DiffersLater(a + p, k);
    }
  }

  lemma MisreadOption(items: seq<Item>, i: Item) returns (once: seq<seq<byte>>, twice: seq<seq<byte>>)
    requires forall j :: j in items ==> WellFormed(j) && Simple(j)
    requires i.Negotiation? && WellFormed(i) && !Simple(i)
    ensures Flatten(once) == Flatten(twice) == Print(items + [i] + [Byte(LETTER)])
    ensures Reads([], once) != Reads([], twice)
  {
    var p := Print(items) + Printed(i);
    ServerStreamsClean(items);
    OptionDiffers(i);
    DiffersAfter(Print(items), Printed(i));
    once, twice := [p + [LETTER]], [p, [LETTER]];
    LateLetter(p, once, twice);
    StartPrinted(items, i);
    Associates(Print(items), Printed(i), [LETTER]);
  }

  /** What a server means is delivered, however it is read in, if and only if all that it sends is simple. */
  lemma ReadsAsMeantExactly(items: seq<Item>)
    requires forall i :: i in items ==> WellFormed(i)
    ensures ReadsAsMeant(items) <==> forall i :: i in items ==> Simple(i)
  {
    if forall i :: i in items ==> Simple(i) {
      forall n: nat, chunks: seq<seq<byte>> | n <= |items| && Flatten(chunks) == Print(Start(items, n))
        ensures Reads([], chunks) == (AllMeant(Start(items, n)), [])
      {
        ServerStreamsFaithful(Start(items, n), chunks);
      }
    } else {
      var k := FirstNotSimple(items);
      assert Start(items, k + 1) == items[..k] + [items[k]] + [Byte(LETTER)];
      if items[k].Negotiation? {
        var once, twice := MisreadOption(items[..k], items[k]);
      } else {
        var chunk := Print(Start(items, k + 1));
        Misread(items[..k], items[k], chunk);
        FlattenOne(chunk);
      }
    }
  }

  /** Data byte 255 and A: the A is lost. */
  lemma EscapedLost()
    ensures Print([Escaped, Byte(LETTER)]) == [IAC, IAC, LETTER]
    ensures AllMeant([Escaped, Byte(LETTER)]) == [IAC, LETTER]
    ensures Reads([], [[IAC, IAC, LETTER]]) == ([IAC], [])
  {
    var items := [Escaped, Byte(LETTER)];
    PrintOne(Byte(LETTER));
    LetterRead();
    assert items[1..] == [Byte(LETTER)];
    EscapedRead();
    OneRead([IAC, IAC, LETTER]);
    ReadsOne([], [IAC, IAC, LETTER]);
    assert [] + [IAC, IAC, LETTER] == [IAC, IAC, LETTER];
  }

  // ----- the connection

  class Telnet {
    var partial: seq<byte>  // a sequence cut off at the end of a read
    ghost var arrived: seq<byte>
    ghost var delivered: seq<byte>

    /** So far all was delivered and held as it should be, if the stream was clean so far. */
    ghost predicate Valid()
      reads this
    {
      Clean(arrived) ==> (delivered, partial) == Reference(arrived)
    }

    constructor ()
      ensures Valid() && arrived == [] && delivered == []
    {
      partial, arrived, delivered := [], [], [];
    }

    method Read(received: seq<byte>) returns (text: seq<byte>, closed: bool)
      requires Valid()
      modifies this
      ensures Valid() && arrived == old(arrived) + received && delivered == old(delivered) + text
      ensures closed <==> received == []
      ensures (text, partial) == Reads(old(partial), [received])
    {
      if received == [] {
        assert arrived + received == arrived;
        return [], true;
      }
      var d := partial + received;
      var at := FirstCut(d);
      ghost var wasClean := Clean(arrived + received);
      if wasClean {
        CleanSplit(arrived, received);
        PlainSplit(arrived, received);
        OneRead(d);
        WithoutReturnsAppend(Plain(arrived).0, Plain(d).0);
      }
      partial := Matched(d[at..]);
      text, closed := WithoutReturns(Scrub(d[..at])), false;
      assert Reads(partial, []) == ([], partial) && text + [] == text;
      arrived, delivered := arrived + received, delivered + text;
    }
  }
}
