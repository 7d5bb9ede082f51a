/** Text as sequences: the few library operations on strings that the modelled programs rely on. */
module Text {
  datatype Option<+T> = None | Some(value: T)

  /** The concatenation of a list of sequences. */
  function Flatten<T>(parts: seq<seq<T>>): seq<T> {
    if parts == [] then [] else parts[0] + Flatten(parts[1..])
  }

  lemma {:induction false} FlattenAppend<T>(a: seq<seq<T>>, b: seq<seq<T>>)
    ensures Flatten(a + b) == Flatten(a) + Flatten(b)
  {
    if a == [] {
      assert a + b == b;
    } else {
      DropPrefix(a, b, 1);
      FlattenAppend(a[1..], b);
      Associates(a[0], Flatten(a[1..]), Flatten(b));
    }
  }

  lemma Associates<T>(a: seq<T>, b: seq<T>, c: seq<T>)
    ensures a + b + c == a + (b + c)
  {
  }

  lemma DropPrefix<T>(a: seq<T>, b: seq<T>, k: nat)
    requires k <= |a|
    ensures (a + b)[k..] == a[k..] + b
    ensures k == |a| ==> (a + b)[k..] == b
  {
  }

  lemma SlicePrefix<T>(c: seq<T>, b: seq<T>, i: nat, j: nat)
    requires c <= b && i <= j <= |c|
    ensures c[i..j] == b[i..j]
  {
    assert forall k :: 0 <= k < |c| ==> c[k] == b[k];
  }

  lemma SliceOfDrop<T>(s: seq<T>, d: nat, i: nat, j: nat)
    requires i <= j && d + j <= |s|
    ensures s[d..][i..j] == s[d + i..d + j]
  {
  }

  lemma DropDrop<T>(s: seq<T>, i: nat, m: nat)
    requires i + m <= |s|
    ensures s[i..][m..] == s[i + m..]
  {
  }

  lemma FlattenOne<T>(part: seq<T>)
    ensures Flatten([part]) == part
  {
    assert Flatten([part]) == part + Flatten([]);
  }

  /** A text without capital letters is its own lower case. */
  lemma LowerUnchanged(s: string)
    requires forall c :: c in s ==> !('A' <= c <= 'Z')
    ensures Lower(s) == s
  {
    assert forall k :: 0 <= k < |s| ==> s[k] in s;
  }

  predicate OccursAt(sub: string, s: string, i: nat) {
    i + |sub| <= |s| && s[i..i + |sub|] == sub
  }

  /** Python's `sub in s` on strings. */
  predicate Occurs(sub: string, s: string) {
    exists i: nat | i <= |s| :: OccursAt(sub, s, i)
  }

  /** A text occurs in another where that can be cut into what is before it, the text, and what is after it. */
  lemma OccursExactly(sub: string, s: string)
    ensures Occurs(sub, s) <==> exists before, after :: s == before + sub + after
  {
    if i: nat :| i <= |s| && OccursAt(sub, s, i) {
      assert s == s[..i] + sub + s[i + |sub|..];
    }
    if before, after :| s == before + sub + after {
      assert s[|before|..|before| + |sub|] == sub;
      assert OccursAt(sub, s, |before|);
    }
  }

  function LowerChar(c: char): char {
    if 'A' <= c <= 'Z' then c + 32 as char else c
  }

  /** A capital letter becomes the small letter with the same place in the alphabet, and nothing else changes. */
  lemma LowerExactly(s: string, k: nat)
    requires k < |s|
    ensures |Lower(s)| == |s|
    ensures 'A' <= s[k] <= 'Z' ==> 'a' <= Lower(s)[k] <= 'z' && Lower(s)[k] - 'a' == s[k] - 'A'
    ensures s[k] < 'A' || 'Z' < s[k] ==> Lower(s)[k] == s[k]
  {
  }

  /** `s.lower()`, for the ASCII letters. */
  function Lower(s: string): string {
    seq(|s|, i requires 0 <= i < |s| => LowerChar(s[i]))
  }

  /** `c.isspace()`. */
  predicate IsSpace(c: char) {
    || c == ' ' || '\t' <= c <= '\r' || '\U{1C}' <= c <= '\U{1F}' || c == '\U{85}' || c == '\U{A0}'
    || c == '\U{1680}' || '\U{2000}' <= c <= '\U{200A}' || c == '\U{2028}' || c == '\U{2029}'
    || c == '\U{202F}' || c == '\U{205F}' || c == '\U{3000}'
  }

  lemma LowerTwice(s: string)
    ensures Lower(Lower(s)) == Lower(s)
  {
    forall c | c in Lower(s) ensures !('A' <= c <= 'Z') {
    }
    LowerUnchanged(Lower(s));
  }

  /** The characters that Python takes for white space, by number. */
  lemma WhiteSpace(c: char)
    ensures IsSpace(c) <==>
      var n := c as int;
      || 9 <= n <= 13 || 28 <= n <= 32 || 8192 <= n <= 8202
      || n in {133, 160, 5760, 8232, 8233, 8239, 8287, 12288}
  {
  }

  predicate Blank(s: string) {
    forall c :: c in s ==> IsSpace(c)
  }

  /** The length of the longest prefix without white space. */
  function WordLength(s: string): (n: nat)
    ensures n <= |s|
    ensures s != "" && !IsSpace(s[0]) ==> n > 0
  {
    if s == "" || IsSpace(s[0]) then 0 else 1 + WordLength(s[1..])
  }

  /** `s.split()`: the maximal runs of characters that are not white space. */
  function Words(s: string): seq<string>
    decreases |s|
  {
    if s == "" then []
    else if IsSpace(s[0]) then Words(s[1..])
    else var n := WordLength(s); [s[..n]] + Words(s[n..])
  }

  function StripLeft(s: string): string {
    if s != "" && IsSpace(s[0]) then StripLeft(s[1..]) else s
  }

  /** `s.rstrip()`. */
  function StripRight(s: string): string {
    if s != "" && IsSpace(s[|s| - 1]) then StripRight(s[..|s| - 1]) else s
  }

  /** `s.strip()`. */
  function Strip(s: string): string {
    StripRight(StripLeft(s))
  }

  lemma {:induction false} BlankLeft(a: string, s: string)
    requires Blank(a) && (s == "" || !IsSpace(s[0]))
    ensures StripLeft(a + s) == s
  {
    if a == "" {
      assert a + s == s;
    } else {
      assert a[0] in a;
      DropPrefix(a, s, 1);
      BlankLeft(a[1..], s);
    }
  }

  lemma {:induction false} BlankRight(s: string, b: string)
    requires Blank(b) && (s == "" || !IsSpace(s[|s| - 1]))
    ensures StripRight(s + b) == s
  {
    if b == "" {
      assert s + b == s;
    } else {
      var n := |b| - 1;
      assert b[n] in b && (s + b)[..|s| + n] == s + b[..n];
      BlankRight(s, b[..n]);
    }
  }

  /** White space around a text is removed, all of it, and nothing else. */
  lemma StripExactly(a: string, s: string, b: string)
    requires Blank(a) && Blank(b) && (s != "" ==> !IsSpace(s[0]) && !IsSpace(s[|s| - 1]))
    ensures Strip(a + s + b) == s
  {
    Associates(a, s, b);
    if s == "" {
      assert Blank(a + b) && a + s + b == a + b + "" == a + b;
      BlankLeft(a + b, "");
    } else {
      assert (s + b)[0] == s[0];
      BlankLeft(a, s + b);
      BlankRight(s, b);
    }
  }

  // ----- whole numbers

  function DigitChar(d: nat): (c: char)
    requires d < 10
    ensures '0' <= c <= '9' && DigitValue(c) == d
  {
    '0' + d as char
  }

  function DigitValue(c: char): nat
    requires '0' <= c <= '9'
  {
    (c - '0') as nat
  }

  /** Digits with at most one underscore between two of them. */
  function ParseDigits(s: string): Option<nat> {
    if s == "" || !('0' <= s[|s| - 1] <= '9') then None
    else
      var d, rest := DigitValue(s[|s| - 1]), s[..|s| - 1];
      if rest == "" then Some(d)
      else match ParseDigits(if rest[|rest| - 1] == '_' then rest[..|rest| - 1] else rest)
        case None => None
        case Some(n) => Some(10 * n + d)
  }

  /** Digits with a sign before them, or without. */
  function ParseSigned(t: string): Option<int> {
    match ParseDigits(if t != "" && t[0] in {'+', '-'} then t[1..] else t)
    case None => None
    case Some(n) =>
      var m: int := n;
      Some(if t[0] == '-' then -m else m)
  }

  /** `int(s)`, or None where it raises ValueError. */
  function ParseInt(s: string): Option<int> {
    ParseSigned(Strip(s))
  }

  function PrintNat(n: nat): (s: string)
    ensures s != "" && forall c :: c in s ==> '0' <= c <= '9'
  {
    if n < 10 then [DigitChar(n)] else PrintNat(n / 10) + [DigitChar(n % 10)]
  }

  /** `str(n)`. */
  function PrintInt(n: int): string {
    if n < 0 then "-" + PrintNat(-n) else PrintNat(n)
  }

  lemma {:induction false} ParsePrintNat(n: nat)
    ensures ParseDigits(PrintNat(n)) == Some(n)
  {
    if n >= 10 {
      var rest := PrintNat(n / 10);
      ParsePrintNat(n / 10);
      assert PrintNat(n)[..|rest|] == rest;
    }
  }

  /** A whole number is printed without zeros before it. */
  lemma {:induction false} NoLeadingZero(n: nat)
    ensures n > 0 ==> PrintNat(n)[0] != '0'
    ensures PrintNat(0) == "0"
  {
    if n >= 10 {
      NoLeadingZero(n / 10);
    }
  }

  predicate Figures(s: string) {
    forall c :: c in s ==> '0' <= c <= '9' || c == '_'
  }

  /** The number that the digits stand for; underscores count for nothing. */
  function Decimal(s: string): nat
    requires Figures(s)
  {
    if s == "" then 0
    else
      assert forall k :: 0 <= k < |s| ==> s[k] in s;
      var c, before := s[|s| - 1], Decimal(s[..|s| - 1]);
      if c == '_' then before else 10 * before + (c as int - 48)
  }

  /** Digits, with single underscores between them. */
  predicate Numeral(s: string) {
    && s != "" && s[0] != '_' && s[|s| - 1] != '_' && Figures(s)
    && forall i :: 0 <= i < |s| - 1 ==> s[i] != '_' || s[i + 1] != '_'
  }

  /** What is before the last digit of a numeral is a numeral, with or without an underscore after it. */
  lemma NumeralStep(s: string, rest: string)
    requires |s| > 1 && rest == if s[|s| - 2] == '_' then s[..|s| - 2] else s[..|s| - 1]
    ensures Numeral(s) <==> Numeral(rest) && '0' <= s[|s| - 1] <= '9'
  {
    var n := |s| - 1;
    if Numeral(s) {
      assert s[n] in s && (s[n - 1] == '_' ==> n > 1 && s[n - 2] != '_');
      assert forall c :: c in rest ==> c in s;
      forall i | 0 <= i < |rest| - 1 ensures rest[i] != '_' || rest[i + 1] != '_' {
        assert rest[i] == s[i] && rest[i + 1] == s[i + 1];
      }
    }
    if Numeral(rest) && '0' <= s[n] <= '9' {
      assert s == rest + s[|rest|..];
      forall i | 0 <= i < n ensures s[i] != '_' || s[i + 1] != '_' {
        if i < |rest| - 1 { assert rest[i] == s[i] && rest[i + 1] == s[i + 1]; }
      }
      forall c | c in s ensures '0' <= c <= '9' || c == '_' {
        var k :| 0 <= k < |s| && s[k] == c;
        if k < |rest| { assert rest[k] in rest; }
      }
    }
  }

  /** Exactly the numerals are read, as the number that their digits stand for. */
  lemma {:induction false} DigitsExactly(s: string)
    ensures ParseDigits(s) == if Numeral(s) then Some(Decimal(s)) else None
  {
    if s != "" {
      var n := |s| - 1;
      if n == 0 {
        OneDigit(s);
      } else {
        var rest := if s[n - 1] == '_' then s[..n - 1] else s[..n];
        assert s[..n][n - 1] == s[n - 1] && s[..n][..n - 1] == s[..n - 1];
        NumeralStep(s, rest);
        DigitsExactly(rest);
        if Numeral(s) { DecimalStep(s, rest); }
      }
    }
  }

  lemma OneDigit(s: string)
    requires |s| == 1
    ensures ParseDigits(s) == if Numeral(s) then Some(Decimal(s)) else None
  {
    assert s == [s[0]] && s[..0] == "" && s[0] in s;
  }

  lemma DecimalStep(s: string, rest: string)
    requires |s| > 1 && Numeral(s) && Numeral(rest)
    requires rest == if s[|s| - 2] == '_' then s[..|s| - 2] else s[..|s| - 1]
    ensures Decimal(s) == 10 * Decimal(rest) + (s[|s| - 1] as int - 48)
  {
    var n := |s| - 1;
    assert s[n] in s && s[n] != '_';
    assert forall c :: c in s[..n] ==> c in s;
    assert s[..n][n - 1] == s[n - 1] && s[..n][..n - 1] == s[..n - 1];
  }

  function Signed(sign: string, n: Option<nat>): Option<int> {
    match n
    case None => None
    case Some(n) =>
      var m: int := n;
      Some(if sign == "-" then -m else m)
  }

  lemma SignExactly(sign: string, s: string)
    requires sign in {"", "+", "-"} && s != "" && s[0] !in {'+', '-'}
    ensures ParseSigned(sign + s) == Signed(sign, ParseDigits(s))
  {
    var t := sign + s;
    if sign == "" {
      assert t == s;
    } else {
      assert t[0] == sign[0] && t[1..] == s;
    }
  }

  /** A numeral may have a sign before it, and white space around it; without a numeral there is no number. */
  lemma IntExactly(a: string, sign: string, s: string, b: string)
    requires Blank(a) && Blank(b) && sign in {"", "+", "-"} && s != "" && s[0] !in {'+', '-'}
    requires !IsSpace(s[0]) && !IsSpace(s[|s| - 1])
    ensures ParseInt(a + (sign + s) + b) == Signed(sign, ParseDigits(s))
  {
    var t := sign + s;
    assert t[|t| - 1] == s[|s| - 1] && t[0] == if sign == "" then s[0] else sign[0];
    SignExactly(sign, s);
    StripExactly(a, t, b);
  }

  lemma StripNothing(s: string)
    requires s != "" && !IsSpace(s[0]) && !IsSpace(s[|s| - 1])
    ensures Strip(s) == s
  {
  }

  lemma DigitsTrimmed(s: string, n: nat)
    requires s == PrintNat(n) || s == "-" + PrintNat(n)
    ensures Strip(s) == s
  {
    var digits := PrintNat(n);
    assert digits[0] in digits && digits[|digits| - 1] in digits;
    assert s[|s| - 1] == digits[|digits| - 1];
    StripNothing(s);
  }

  lemma ParsePrintSigned(n: int)
    ensures ParseSigned(PrintInt(n)) == Some(n)
  {
    var m: nat := if n < 0 then -n else n;
    var digits := PrintNat(m);
    ParsePrintNat(m);
    assert digits[0] in digits;
    SignExactly(if n < 0 then "-" else "", digits);
    assert "" + digits == digits;
  }

  /** Reading a printed number gives it back. */
  lemma ParsePrintInt(n: int)
    ensures ParseInt(PrintInt(n)) == Some(n) && Strip(PrintInt(n)) == PrintInt(n)
    ensures PrintInt(n) != "" && ';' !in PrintInt(n)
  {
    DigitsTrimmed(PrintInt(n), if n < 0 then -n else n);
    ParsePrintSigned(n);
  }

  // ----- splitting and joining

  /** `s.find(c)`, or the length of `s` when it is not there. */
  function IndexOf(s: string, c: char): (k: nat)
    ensures k <= |s| && (k < |s| ==> s[k] == c)
    ensures forall j :: 0 <= j < k ==> s[j] != c
  {
    if s == "" || s[0] == c then 0 else 1 + IndexOf(s[1..], c)
  }

  /** `s.split(c)`. */
  function Split(s: string, c: char): (parts: seq<string>)
    ensures parts != []
    decreases |s|
  {
    var k := IndexOf(s, c);
    if k == |s| then [s] else [s[..k]] + Split(s[k + 1..], c)
  }

  /** `c.join(parts)`. */
  function Join(parts: seq<string>, c: char): string
    requires parts != []
  {
    if |parts| == 1 then parts[0] else parts[0] + [c] + Join(parts[1..], c)
  }

  lemma {:induction false} IndexOfFirst(a: string, c: char, b: string)
    requires c !in a
    ensures IndexOf(a + [c] + b, c) == |a|
  {
    var s := a + [c] + b;
    if a != "" {
      assert s[1..] == a[1..] + [c] + b && a[0] in a;
      IndexOfFirst(a[1..], c, b);
    }
  }

  lemma {:induction false} IndexOfNone(s: string, c: char)
    requires c !in s
    ensures IndexOf(s, c) == |s|
  {
    if s != "" {
      assert s[0] in s;
      IndexOfNone(s[1..], c);
    }
  }

  /** Splitting what was joined gives the parts back, when none has the separator in it. */
  lemma {:induction false} SplitJoin(parts: seq<string>, c: char)
    requires parts != [] && forall p :: p in parts ==> c !in p
    ensures Split(Join(parts, c), c) == parts
  {
    assert parts[0] in parts;
    if |parts| == 1 {
      IndexOfNone(parts[0], c);
    } else {
      var rest := Join(parts[1..], c);
      var s := parts[0] + [c] + rest;
      IndexOfFirst(parts[0], c, rest);
      assert s[..|parts[0]|] == parts[0] && s[|parts[0]| + 1..] == rest;
      SplitJoin(parts[1..], c);
    }
  }

  /** The parts that a text was split into have no separator in them, and joined again they are the text. */
  lemma {:induction false} JoinSplit(s: string, c: char)
    ensures Join(Split(s, c), c) == s && forall p :: p in Split(s, c) ==> c !in p
    decreases |s|
  {
    var k := IndexOf(s, c);
    if k < |s| {
      var rest := s[k + 1..];
      JoinSplit(rest, c);
      assert ([s[..k]] + Split(rest, c))[1..] == Split(rest, c);
      assert s == s[..k] + [c] + rest;
    }
  }

  /** What is in the parts, and the separator between them, is what a joined text has in it. */
  lemma {:induction false} JoinText(parts: seq<string>, c: char)
    requires parts != []
    ensures forall x :: x in Join(parts, c) ==> x == c || exists p :: p in parts && x in p
    ensures forall p, x :: p in parts && x in p ==> x in Join(parts, c)
  {
    assert parts[0] in parts;
    if |parts| > 1 {
      JoinText(parts[1..], c);
      assert forall p :: p in parts <==> p == parts[0] || p in parts[1..];
    }
  }

  lemma JoinTwo(a: string, b: string, c: char)
    ensures Join([a], c) == a && Join([a, b], c) == a + [c] + b
  {
    assert [a, b][1..] == [b];
  }

  lemma {:induction false} WordLengthIs(a: string, b: string)
    requires (forall c :: c in a ==> !IsSpace(c)) && (b == "" || IsSpace(b[0]))
    ensures WordLength(a + b) == |a|
  {
    if a == "" {
      assert a + b == b;
    } else {
      assert a[0] in a;
      DropPrefix(a, b, 1);
      WordLengthIs(a[1..], b);
    }
  }

  predicate Word(w: string) {
    w != "" && forall c :: c in w ==> !IsSpace(c)
  }

  lemma {:induction false} WordThenRest(w: string, rest: string)
    requires Word(w) && (rest == "" || IsSpace(rest[0]))
    ensures Words(w + rest) == [w] + Words(rest)
  {
    assert w[0] in w && (w + rest)[0] == w[0];
    WordLengthIs(w, rest);
    DropPrefix(w, rest, |w|);
  }

  lemma WordSpaceRest(w: string, rest: string)
    requires Word(w)
    ensures Words(w + [' '] + rest) == [w] + Words(rest)
  {
    WordThenRest(w, [' '] + rest);
    Associates(w, [' '], rest);
    DropPrefix([' '], rest, 1);
  }

  /** Taking apart words that were put together with spaces. */
  lemma {:induction false} WordsOfJoin(words: seq<string>)
    requires words != [] && forall w :: w in words ==> Word(w)
    ensures Words(Join(words, ' ')) == words
  {
    if |words| == 1 {
      WordThenRest(words[0], "");
      assert words[0] + "" == words[0];
    } else {
      WordSpaceRest(words[0], Join(words[1..], ' '));
      WordsOfJoin(words[1..]);
    }
  }

  /** The words, with white space before, between and after them. */
  function Spaced(gaps: seq<string>, words: seq<string>): string
    requires |gaps| == |words| + 1
  {
    if words == [] then gaps[0] else gaps[0] + (words[0] + Spaced(gaps[1..], words[1..]))
  }

  lemma {:induction false} BlankThen(a: string, s: string)
    requires Blank(a)
    ensures Words(a + s) == Words(s)
  {
    if a == "" {
      assert a + s == s;
    } else {
      assert a[0] in a && (a + s)[0] == a[0] && forall c :: c in a[1..] ==> c in a;
      DropPrefix(a, s, 1);
      BlankThen(a[1..], s);
    }
  }

  /** Whatever white space is around and between them, the words of a text are found. */
  lemma {:induction false} WordsExactly(gaps: seq<string>, words: seq<string>)
    requires |gaps| == |words| + 1 && (forall w :: w in words ==> Word(w)) && (forall g :: g in gaps ==> Blank(g))
    requires forall k :: 0 < k < |words| ==> gaps[k] != ""
    ensures Words(Spaced(gaps, words)) == words
    decreases |words|
  {
    if words == [] {
      BlankThen(gaps[0], "");
      assert gaps[0] + "" == gaps[0];
    } else {
      var rest := Spaced(gaps[1..], words[1..]);
      WordsExactly(gaps[1..], words[1..]);
      BlankThen(gaps[0], words[0] + rest);
      assert gaps[1] in gaps && (gaps[1] != "" ==> rest[0] == gaps[1][0] && gaps[1][0] in gaps[1]);
      WordThenRest(words[0], rest);
    }
  }
}
