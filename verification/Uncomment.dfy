/** The zone sources without their comments: strings are kept, and so are the line breaks. */
module Uncommenting {
  import opened Text

  /** Where in the source a character stands. */
  datatype Mode = Code | InString | InBlock | InLine

  /** `s.startswith(a + b)`. */
  predicate Starts(s: string, a: char, b: char) {
    |s| >= 2 && s[0] == a && s[1] == b
  }

  /** The source character by character, without its comments. */
  function Uncommented(m: Mode, s: string): string
    decreases |s|
  {
    if s == "" then ""
    else match m
      case Code =>
        if s[0] == '"' then "\"" + Uncommented(InString, s[1..])
        else if Starts(s, '/', '*') then Uncommented(InBlock, s[2..])
        else if Starts(s, '/', '/') then Uncommented(InLine, s[2..])
        else [s[0]] + Uncommented(Code, s[1..])
      case InString => [s[0]] + Uncommented(if s[0] == '"' then Code else InString, s[1..])
      case InBlock =>
        if Starts(s, '*', '/') then Uncommented(Code, s[2..])
        else (if s[0] == '\n' then "\n" else "") + Uncommented(InBlock, s[1..])
      case InLine => if s[0] == '\n' then "\n" + Uncommented(Code, s[1..]) else Uncommented(InLine, s[1..])
  }

  // ----- the program

  /** `s.find("*" + "/")`, or the length of `s` when it is not there. */
  function FindClose(s: string): (k: nat)
    ensures k <= |s| && (k < |s| ==> Starts(s[k..], '*', '/'))
  {
    if s == "" || Starts(s, '*', '/') then 0 else 1 + FindClose(s[1..])
  }

  function LineBreaks(s: string): string {
    if s == "" then "" else (if s[0] == '\n' then "\n" else "") + LineBreaks(s[1..])
  }

  lemma {:induction false} UncommentedString(s: string)
    ensures Uncommented(InString, s) == if IndexOf(s, '"') == |s| then s
      else s[..IndexOf(s, '"') + 1] + Uncommented(Code, s[IndexOf(s, '"') + 1..])
  {
    if s != "" {
      UncommentedString(s[1..]);
    }
  }

  lemma {:induction false} UncommentedBlock(s: string)
    ensures Uncommented(InBlock, s) == if FindClose(s) == |s| then LineBreaks(s)
      else LineBreaks(s[..FindClose(s)]) + Uncommented(Code, s[FindClose(s) + 2..])
  {
    if s != "" && !Starts(s, '*', '/') {
      UncommentedBlock(s[1..]);
      var k := FindClose(s);
      if k < |s| {
        assert s[..k][1..] == s[1..][..k - 1];
        Associates(if s[0] == '\n' then "\n" else "", LineBreaks(s[1..k]), Uncommented(Code, s[k + 2..]));
        assert s[1..][k - 1 + 2..] == s[k + 2..];
      }
    }
  }

  lemma {:induction false} UncommentedLine(s: string)
    ensures Uncommented(InLine, s) == Uncommented(Code, s[IndexOf(s, '\n')..])
  {
    if s != "" && s[0] != '\n' {
      UncommentedLine(s[1..]);
      assert s[1..][IndexOf(s[1..], '\n')..] == s[IndexOf(s, '\n')..];
    }
  }

  lemma {:induction false} UncommentedPlain(s: string, k: nat)
    requires k <= |s| && forall j :: 0 <= j < k ==> s[j] != '"' && s[j] != '/'
    ensures Uncommented(Code, s) == s[..k] + Uncommented(Code, s[k..])
  {
    if k > 0 {
      UncommentedPlain(s[1..], k - 1);
      assert s[1..][k - 1..] == s[k..] && [s[0]] + s[1..][..k - 1] == s[..k];
      Associates([s[0]], s[1..][..k - 1], Uncommented(Code, s[k..]));
    } else {
      assert s[0..] == s;
    }
  }

  lemma {:induction false} LineBreaksAppend(a: string, b: string)
    ensures LineBreaks(a + b) == LineBreaks(a) + LineBreaks(b)
  {
    if a == "" {
      assert a + b == b;
    } else {
      DropPrefix(a, b, 1);
      LineBreaksAppend(a[1..], b);
      Associates(if a[0] == '\n' then "\n" else "", LineBreaks(a[1..]), LineBreaks(b));
    }
  }

  lemma Glue(s: string, i: nat, m: nat, z: string)
    requires i <= m <= |s|
    ensures s[..i] + (s[i..m] + z) == s[..m] + z
    ensures s[i..][..m - i] == s[i..m] && s[i..][m - i..] == s[m..]
  {
  }

  lemma {:induction false} StringStep(s: string, m: nat)
    requires s != "" && s[0] == '"'
    requires m == if IndexOf(s[1..], '"') == |s| - 1 then |s| else IndexOf(s[1..], '"') + 2
    ensures m <= |s| && Uncommented(Code, s) == s[..m] + Uncommented(Code, s[m..])
  {
    var z := Uncommented(Code, s[m..]);
    UncommentedString(s[1..]);
    Glue(s, 1, m, z);
    assert Uncommented(InString, s[1..]) == s[1..m] + z;
    assert Uncommented(Code, s) == "\"" + Uncommented(InString, s[1..]) && s[..1] == "\"";
  }

  lemma BlockStep(s: string, m: nat)
    requires Starts(s, '/', '*')
    requires m == if FindClose(s[2..]) == |s| - 2 then |s| else FindClose(s[2..]) + 4
    ensures m <= |s| && Uncommented(Code, s) == LineBreaks(s[..m]) + Uncommented(Code, s[m..])
  {
    var k, z := FindClose(s[2..]), Uncommented(Code, s[m..]);
    UncommentedBlock(s[2..]);
    Glue(s, 2, k + 2, z);
    CommentBreaks(s, k, m);
    if k < |s| - 2 {
      Glue(s, 2, m, z);
      assert s[2..][k + 2..] == s[m..];
    } else {
      assert s[2..][..k] == s[2..] && z == "" && LineBreaks(s[..m]) + "" == LineBreaks(s[..m]);
    }
    assert Uncommented(InBlock, s[2..]) == LineBreaks(s[..m]) + z;
    assert Uncommented(Code, s) == Uncommented(InBlock, s[2..]);
  }

  lemma {:induction false} NoBreaks(s: string)
    requires '\n' !in s
    ensures LineBreaks(s) == ""
  {
    if s != "" {
      NoBreaks(s[1..]);
    }
  }

  lemma CommentBreaks(s: string, k: nat, m: nat)
    requires Starts(s, '/', '*') && k + 2 <= |s|
    requires m == k + 2 || (m == k + 4 && Starts(s[2..][k..], '*', '/'))
    ensures LineBreaks(s[..m]) == LineBreaks(s[2..][..k])
  {
    var body, end := s[2..][..k], s[k + 2..m];
    assert s[..m] == "/*" + body + end;
    LineBreaksAppend("/*" + body, end);
    LineBreaksAppend("/*", body);
    NoBreaks("/*");
    NoBreaks(end);
  }

  lemma LineStep(s: string, m: nat)
    requires Starts(s, '/', '/') && m == IndexOf(s, '\n')
    ensures m <= |s| && Uncommented(Code, s) == Uncommented(Code, s[m..])
  {
    var t := s[2..];
    UncommentedLine(t);
    assert s[1..][1..] == t && IndexOf(s, '\n') == 2 + IndexOf(t, '\n');
    assert t[IndexOf(t, '\n')..] == s[m..];
  }

  lemma {:induction false} PlainStep(s: string, m: nat)
    requires s != "" && s[0] != '"' && !Starts(s, '/', '*') && !Starts(s, '/', '/')
    requires var q, h := IndexOf(s, '"'), IndexOf(s, '/'); var k := if q < h then q else h; m == if k == 0 then 1 else k
    ensures m <= |s| && Uncommented(Code, s) == s[..m] + Uncommented(Code, s[m..])
  {
    if s[0] == '/' {
      assert s[..1] == [s[0]];
    } else {
      UncommentedPlain(s, m);
    }
  }

  /** The next piece of the source, its first `m` characters, and what is kept of it. */
  method Segment(s: string) returns (m: nat, kept: string)
    requires s != ""
    ensures 0 < m <= |s| && Uncommented(Code, s) == kept + Uncommented(Code, s[m..])
  {
    if s[0] == '"' {
      var k := IndexOf(s[1..], '"');
      m := if k == |s| - 1 then |s| else k + 2;
      StringStep(s, m);
      kept := s[..m];
    } else if Starts(s, '/', '*') {
      var k := FindClose(s[2..]);
      m := if k == |s| - 2 then |s| else k + 4;
      BlockStep(s, m);
      kept := LineBreaks(s[..m]);
    } else if Starts(s, '/', '/') {
      m := IndexOf(s, '\n');
      LineStep(s, m);
      kept := "";
    } else {
      var q, h := IndexOf(s, '"'), IndexOf(s, '/');
      m := if q < h then q else h;
      if m == 0 {  // a lone slash
        m := 1;
      }
      PlainStep(s, m);
      kept := s[..m];
    }
  }

  /** The program's loop jumps from one string, comment or lone slash to the next: what is left has no comments,
      and its strings and line breaks are as they were. */
  method Uncomment(text: string) returns (out: string)
    ensures out == Uncommented(Code, text)
    ensures Bare(false, out) && (Bare(false, text) ==> out == text)
    ensures LineBreaks(out) == LineBreaks(text) && Literals(Code, out) == Literals(Code, text)
  {
    var i := 0;
    out := "";
    while i < |text|
      invariant i <= |text| && out + Uncommented(Code, text[i..]) == Uncommented(Code, text)
    {
      var m, kept := Segment(text[i..]);
      DropDrop(text, i, m);
      Associates(out, kept, Uncommented(Code, text[i + m..]));
      out := out + kept;
      i := i + m;
    }
    assert text[i..] == "" && out + "" == out;
    Idempotent(text);
    LineBreaksKept(Code, text);
    LiteralsKept(Code, text);
  }

  // ----- what a comment is

  /** Strings are kept to their closing quote, comments left out to where they close, but for their line breaks, and
      any other character is kept, a lone slash too. Of `body`, only the end may be what closes it. */
  lemma Syntax(body: string, rest: string, c: char)
    ensures '"' !in body ==>
      Uncommented(Code, "\"" + body + "\"" + rest) == "\"" + body + "\"" + Uncommented(Code, rest)
    ensures '\n' !in body ==> Uncommented(Code, "//" + body + "\n" + rest) == "\n" + Uncommented(Code, rest)
    ensures (forall k :: 0 <= k < |body| - 1 ==> !(body[k] == '*' && body[k + 1] == '/')) ==>
      Uncommented(Code, "/*" + body + "*/" + rest) == LineBreaks(body) + Uncommented(Code, rest)
    ensures c != '"' && c != '/' ==> Uncommented(Code, [c] + rest) == [c] + Uncommented(Code, rest)
    ensures rest != "" && rest[0] != '/' && rest[0] != '*' ==>
      Uncommented(Code, "/" + rest) == "/" + Uncommented(Code, rest)
  {
    if '"' !in body { StringSyntax(body, rest); }
    if '\n' !in body { LineSyntax(body, rest); }
    if forall k :: 0 <= k < |body| - 1 ==> !(body[k] == '*' && body[k + 1] == '/') { BlockSyntax(body, rest); }
    DropPrefix([c], rest, 1);
    DropPrefix("/", rest, 1);
  }

  lemma {:induction false} InStringThen(body: string, rest: string)
    requires '"' !in body
    ensures Uncommented(InString, body + ("\"" + rest)) == body + ("\"" + Uncommented(Code, rest))
  {
    if body == "" {
      assert body + ("\"" + rest) == "\"" + rest && ("\"" + rest)[1..] == rest;
      assert body + ("\"" + Uncommented(Code, rest)) == "\"" + Uncommented(Code, rest);
    } else {
      assert body[0] in body;
      DropPrefix(body, "\"" + rest, 1);
      InStringThen(body[1..], rest);
      Associates([body[0]], body[1..], "\"" + Uncommented(Code, rest));
      assert [body[0]] + body[1..] == body;
    }
  }

  lemma StringSyntax(body: string, rest: string)
    requires '"' !in body
    ensures Uncommented(Code, "\"" + body + "\"" + rest) == "\"" + body + "\"" + Uncommented(Code, rest)
  {
    InStringThen(body, rest);
    assert ("\"" + body + "\"" + rest)[1..] == body + ("\"" + rest);
  }

  lemma {:induction false} InLineThen(body: string, rest: string)
    requires '\n' !in body
    ensures Uncommented(InLine, body + ("\n" + rest)) == "\n" + Uncommented(Code, rest)
  {
    if body == "" {
      assert body + ("\n" + rest) == "\n" + rest && ("\n" + rest)[1..] == rest;
    } else {
      assert body[0] in body;
      DropPrefix(body, "\n" + rest, 1);
      InLineThen(body[1..], rest);
    }
  }

  lemma LineSyntax(body: string, rest: string)
    requires '\n' !in body
    ensures Uncommented(Code, "//" + body + "\n" + rest) == "\n" + Uncommented(Code, rest)
  {
    InLineThen(body, rest);
    assert ("//" + body + "\n" + rest)[2..] == body + ("\n" + rest);
  }

  lemma {:induction false} InBlockThen(body: string, rest: string)
    requires forall k :: 0 <= k < |body| - 1 ==> !(body[k] == '*' && body[k + 1] == '/')
    ensures Uncommented(InBlock, body + ("*/" + rest)) == LineBreaks(body) + Uncommented(Code, rest)
  {
    if body == "" {
      assert body + ("*/" + rest) == "*/" + rest && ("*/" + rest)[2..] == rest;
    } else {
      var s, tail := body + ("*/" + rest), body[1..];
      assert s[1] == if |body| > 1 then body[1] else '*';
      DropPrefix(body, "*/" + rest, 1);
      forall k | 0 <= k < |tail| - 1 ensures !(tail[k] == '*' && tail[k + 1] == '/') {
        assert tail[k] == body[k + 1] && tail[k + 1] == body[k + 1 + 1];
      }
      InBlockThen(tail, rest);
      Associates(if body[0] == '\n' then "\n" else "", LineBreaks(tail), Uncommented(Code, rest));
    }
  }

  lemma BlockSyntax(body: string, rest: string)
    requires forall k :: 0 <= k < |body| - 1 ==> !(body[k] == '*' && body[k + 1] == '/')
    ensures Uncommented(Code, "/*" + body + "*/" + rest) == LineBreaks(body) + Uncommented(Code, rest)
  {
    InBlockThen(body, rest);
    assert ("/*" + body + "*/" + rest)[2..] == body + ("*/" + rest);
  }

  /** A comment leaves as many line breaks as it has. */
  lemma LineBreaksExactly(a: string, c: char, b: string)
    ensures LineBreaks(a + [c] + b) == LineBreaks(a) + (if c as int == 10 then "\n" else "") + LineBreaks(b)
    ensures LineBreaks("") == ""
  {
    LineBreaksAppend(a + [c], b);
    LineBreaksAppend(a, [c]);
    assert [c][1..] == "";
  }

  // ----- what is kept, and what is not

  /** Every line break stays, in comments, in strings and elsewhere. */
  lemma {:induction false} LineBreaksKept(m: Mode, s: string)
    ensures LineBreaks(Uncommented(m, s)) == LineBreaks(s)
    decreases |s|
  {
    if s != "" {
      if m == Code && (Starts(s, '/', '*') || Starts(s, '/', '/')) {
        LineBreaksKept(if s[1] == '*' then InBlock else InLine, s[2..]);
        assert s[1..][1..] == s[2..];
      } else if m == InBlock && Starts(s, '*', '/') {
        LineBreaksKept(Code, s[2..]);
        assert s[1..][1..] == s[2..];
      } else {
        LineBreaksKept(Next(m, s[0]), s[1..]);
        KeptOrNot(m, s);
      }
    }
  }

  /** The mode after a character that is not part of a comment's delimiter. */
  function Next(m: Mode, c: char): Mode {
    match m
    case Code => if c == '"' then InString else Code
    case InString => if c == '"' then Code else InString
    case InBlock => InBlock
    case InLine => if c == '\n' then Code else InLine
  }

  /** A character that is not part of a comment's delimiter is kept, unless it is a comment's and no line break. */
  lemma KeptOrNot(m: Mode, s: string)
    requires s != "" && !(m == InBlock && Starts(s, '*', '/'))
    requires !(m == Code && (Starts(s, '/', '*') || Starts(s, '/', '/')))
    ensures var rest := Uncommented(Next(m, s[0]), s[1..]);
      if s[0] == '\n' || m in {Code, InString} then Uncommented(m, s) == [s[0]] + rest && Uncommented(m, s)[1..] == rest
      else Uncommented(m, s) == rest
  {
    var rest := Uncommented(Next(m, s[0]), s[1..]);
    assert ([s[0]] + rest)[1..] == rest && "" + rest == rest;
  }

  /** No comment opens in `t` outside a string; `inString` says whether it starts inside one. */
  predicate Bare(inString: bool, t: string)
    decreases |t|
  {
    if t == "" then true
    else if inString then Bare(t[0] != '"', t[1..])
    else !Starts(t, '/', '*') && !Starts(t, '/', '/') && Bare(t[0] == '"', t[1..])
  }

  lemma {:induction false} NoComments(m: Mode, s: string)
    ensures Bare(m == InString, Uncommented(m, s))
    decreases |s|
  {
    if s != "" {
      if m == Code && (Starts(s, '/', '*') || Starts(s, '/', '/')) {
        NoComments(if s[1] == '*' then InBlock else InLine, s[2..]);
      } else if m == InBlock && Starts(s, '*', '/') {
        NoComments(Code, s[2..]);
      } else {
        NoComments(Next(m, s[0]), s[1..]);
        KeptOrNot(m, s);
        if m == Code && s[0] == '/' && |s| > 1 {
          assert Uncommented(Code, s[1..])[0] == s[1];
        }
      }
    }
  }

  /** A text without comments is left as it is. */
  lemma {:induction false} BareUnchanged(inString: bool, t: string)
    requires Bare(inString, t)
    ensures Uncommented(if inString then InString else Code, t) == t
    decreases |t|
  {
    if t != "" {
      BareUnchanged(if inString then t[0] != '"' else t[0] == '"', t[1..]);
      assert [t[0]] + t[1..] == t;
    }
  }

  /** Stripping leaves no comment, does nothing more when done again, and changes just the texts that have one. */
  lemma Idempotent(s: string)
    ensures Bare(false, Uncommented(Code, s))
    ensures Uncommented(Code, Uncommented(Code, s)) == Uncommented(Code, s)
    ensures Uncommented(Code, s) == s <==> Bare(false, s)
  {
    NoComments(Code, s);
    BareUnchanged(false, Uncommented(Code, s));
    if Bare(false, s) {
      BareUnchanged(false, s);
    }
  }

  /** The string literals outside comments, quotes and all. */
  function Literals(m: Mode, s: string): string
    decreases |s|
  {
    if s == "" then ""
    else if m == Code && Starts(s, '/', '*') then Literals(InBlock, s[2..])
    else if m == Code && Starts(s, '/', '/') then Literals(InLine, s[2..])
    else if m == InBlock && Starts(s, '*', '/') then Literals(Code, s[2..])
    else (if m == InString || (m == Code && s[0] == '"') then [s[0]] else "") + Literals(Next(m, s[0]), s[1..])
  }

  /** The string literals come through unchanged. */
  lemma {:induction false} LiteralsKept(m: Mode, s: string)
    ensures Literals(if m == InString then InString else Code, Uncommented(m, s)) == Literals(m, s)
    decreases |s|
  {
    if s != "" {
      if m == Code && (Starts(s, '/', '*') || Starts(s, '/', '/')) {
        LiteralsKept(if s[1] == '*' then InBlock else InLine, s[2..]);
      } else if m == InBlock && Starts(s, '*', '/') {
        LiteralsKept(Code, s[2..]);
      } else {
        LiteralsKept(Next(m, s[0]), s[1..]);
        KeptOrNot(m, s);
        NoComments(m, s);
      }
    }
  }
}
