/** What a game master may do: a list of commands, and daily budgets for what it loads, gives and makes. */
module GmBudget {
  import opened Text

  const GM_COMMANDS := {
    "look", "l", "exits", "score", "who", "where", "users", "wstat", "jstat", "inventory", "i",
    "equipment", "time", "weather", "help", "stand", "rest", "wizinv",
    "goto", "at", "echo", "message", "restore", "force", "makemoney", "load", "purge", "set",
    "give", "get", "drop", "put", "open", "close", "lock", "unlock", "tell", "gmmem", "gmroom", "gmtrack",
    "gmlure", "gmtreasure", "gmquest",
    "enter", "leave", "north", "east", "south", "west", "up", "down", "n", "e", "s", "w", "u", "d"
  }
  const DIRECTIONS := {"n", "e", "s", "w", "u", "d", "ne", "nw", "se", "sw"}
  const CHANNELS := {"newbie", "chat", "mud", "builder", "bugs", "diku3", "accessibility"}
  const GM_SET_FIELDS := {
    "title", "descr", "add-name", "del-name", "add-extra", "del-extra",
    "dir-to", "add-dir-name", "del-dir-name", "dir-flags"
  }
  const GM_LOADS := 30
  const GM_QUESTS := 10
  const COINS := ["iron", "copper", "silver", "gold", "platinum"]

  /** How much of a kind a day allows. */
  function Limit(kind: string): int {
    match kind
    case "load" => GM_LOADS
    case "quest" => GM_QUESTS
    case "iron" => 1000
    case "copper" => 500
    case "silver" => 100
    case "gold" => 20
    case _ => 0
  }

  datatype Why =
    | NotACommand | AtWhat | OnlyPapi | IsChannel | PurgeWhat | SetWhat | ExtraWhat | DescrWhat
    | LoadWhat | Forbidden | LoadsUsedUp | QuestsUsedUp | MoneyWhat | CoinsUsedUp

  /** What is outside the rules: the units never to be loaded, and whether the editor takes a line. */
  datatype Rules = Rules(forbidden: set<string>, editor: seq<string> -> bool)

  type Budget = map<string, int>

  function Used(used: Budget, kind: string): int {
    if kind in used then used[kind] else 0
  }

  /** The first kind of coin whose name starts that way. */
  function Coin(coins: seq<string>, prefix: string): Option<string> {
    if coins == [] then None
    else if prefix <= coins[0] then Some(coins[0])
    else Coin(coins[1..], prefix)
  }

  /** `makemoney <amount> <coin>`: which coin, and how many. */
  function Money(words: seq<string>): Option<(string, int)> {
    if |words| < 3 then None
    else match ParseInt(words[1])
      case None => None
      case Some(amount) =>
        match Coin(COINS, Lower(words[2]))
        case None => None
        case Some(coin) => Some((coin, amount))
  }

  // ----- what a line costs, and what it may not be

  /** The command that a line comes to, whatever number of `at <room>` stands before it. */
  function Core(words: seq<string>): (core: seq<string>)
    ensures words != [] ==> core != []
    decreases |words|
  {
    if |words| > 2 && Lower(words[0]) == "at" then Core(words[2..]) else words
  }

  /** What an accepted command takes from the day's budget. */
  function Cost(words: seq<string>): Option<(string, int)>
    requires words != []
  {
    var word := Lower(words[0]);
    if word == "load" || word == "gmtreasure" then Some(("load", 1))
    else if word == "gmquest" && |words| > 2 then Some(("quest", 1))
    else if word == "makemoney" then Money(words)
    else None
  }

  /** Why a command may not be sent whatever the budget, or None. */
  function Improper(rules: Rules, words: seq<string>): Option<Why>
    requires words != []
  {
    var word := Lower(words[0]);
    if word in DIRECTIONS || word == "@" then None
    else if word !in GM_COMMANDS then Some(NotACommand)
    else if word == "at" then Some(AtWhat)
    else if word == "tell" && (|words| < 2 || Lower(words[1]) != "papi") then Some(OnlyPapi)
    else if word == "force" && |words| > 2
         && (Lower(words[2]) in CHANNELS || (Lower(words[2]) <= "shout" && |words[2]| > 1)) then Some(IsChannel)
    else if word == "purge" && |words| < 2 then Some(PurgeWhat)
    else if word == "set" && (|words| < 3 || Lower(words[2]) !in GM_SET_FIELDS) then Some(SetWhat)
    else if word == "set" && Lower(words[2]) == "add-extra" && !rules.editor(words) then Some(ExtraWhat)
    else if word == "set" && Lower(words[2]) == "descr" && |words| < 4 then Some(DescrWhat)
    else if word == "load" && |words| < 2 then Some(LoadWhat)
    else if word == "load" && Lower(words[1]) in rules.forbidden then Some(Forbidden)
    else if word == "makemoney" && Money(words).None? then Some(MoneyWhat)
    else None
  }

  predicate Proper(rules: Rules, words: seq<string>)
    requires words != []
  {
    Improper(rules, words).None?
  }

  /** A load names a unit, and not one that is forbidden. */
  lemma LoadProper(rules: Rules, words: seq<string>)
    requires words != [] && Lower(words[0]) == "load"
    ensures Proper(rules, words) <==> |words| > 1 && Lower(words[1]) !in rules.forbidden
  {
  }

  /** Only Papi is told anything, and a purge names what it is to purge. */
  lemma TellProper(rules: Rules, words: seq<string>)
    requires words != []
    ensures Lower(words[0]) == "tell" ==> (Proper(rules, words) <==> |words| > 1 && Lower(words[1]) == "papi")
    ensures Lower(words[0]) == "purge" ==> (Proper(rules, words) <==> |words| > 1)
  {
  }

  /** No one is forced to speak on a channel, or to shout, which may be shortened to its first two letters. */
  lemma ForceProper(rules: Rules, words: seq<string>)
    requires words != [] && Lower(words[0]) == "force"
    ensures Proper(rules, words) <==>
      |words| > 2 ==> Lower(words[2]) !in CHANNELS && !exists k :: 2 <= k <= 5 && Lower(words[2]) == "shout"[..k]
  {
    if |words| > 2 {
      var inner := Lower(words[2]);
      assert |inner| == |words[2]|;
      if inner <= "shout" && |inner| > 1 {
        assert inner == "shout"[..|inner|];
      }
    }
  }

  /** Only some fields are set: an extra description as the editor takes it, and a description with its text. */
  lemma SetProper(rules: Rules, words: seq<string>)
    requires words != [] && Lower(words[0]) == "set"
    ensures Proper(rules, words) <==>
      && |words| > 2 && Lower(words[2]) in GM_SET_FIELDS
      && (Lower(words[2]) == "add-extra" ==> rules.editor(words))
      && (Lower(words[2]) == "descr" ==> |words| > 3)
  {
    assert "add-extra"[0] != "descr"[0];
  }

  /** Directions and the editor's @ are always proper, a bare `at` never, and of other words the commands listed. */
  lemma OtherProper(rules: Rules, words: seq<string>)
    requires words != []
    requires Lower(words[0]) !in {"load", "tell", "purge", "force", "set", "makemoney"}
    ensures Proper(rules, words) <==>
      var word := Lower(words[0]);
      word in DIRECTIONS || word == "@" || (word in GM_COMMANDS && word != "at")
  {
  }

  lemma {:induction false} CoinFrom(coins: seq<string>, prefix: string, k: nat)
    requires k < |coins| && prefix <= coins[k] && forall i :: 0 <= i < k ==> !(prefix <= coins[i])
    ensures Coin(coins, prefix) == Some(coins[k])
  {
    if k > 0 {
      CoinFrom(coins[1..], prefix, k - 1);
    }
  }

  lemma {:induction false} NoCoin(coins: seq<string>, prefix: string)
    ensures Coin(coins, prefix).None? <==> forall c :: c in coins ==> !(prefix <= c)
  {
    if coins != [] {
      NoCoin(coins[1..], prefix);
      assert coins[0] in coins && forall c :: c in coins <==> c == coins[0] || c in coins[1..];
    }
  }

  /** A coin may be shortened to its first letter: no two begin with the same. */
  lemma CoinExactly(prefix: string, coin: string)
    requires coin in COINS && prefix != "" && prefix <= coin
    ensures Coin(COINS, prefix) == Some(coin)
  {
    var c := COINS;
    assert c[0][0] == 'i' && c[1][0] == 'c' && c[2][0] == 's' && c[3][0] == 'g' && c[4][0] == 'p';
    var k :| 0 <= k < |c| && c[k] == coin;
    assert prefix[0] == coin[0];
    CoinFrom(c, prefix, k);
  }

  /** Money is made with a whole number, of a coin named by one of its beginnings. */
  lemma MoneyExactly(rules: Rules, words: seq<string>, coin: string)
    requires |words| > 2 && Lower(words[0]) == "makemoney" && Lower(words[2]) != "" && coin in COINS
    ensures Proper(rules, words) <==> ParseInt(words[1]).Some? && exists c :: c in COINS && Lower(words[2]) <= c
    ensures Lower(words[2]) <= coin && ParseInt(words[1]).Some? ==>
      Cost(words) == Some((coin, ParseInt(words[1]).value))
  {
    NoCoin(COINS, Lower(words[2]));
    if Lower(words[2]) <= coin {
      CoinExactly(Lower(words[2]), coin);
    }
  }

  /** What a day allows, and which commands take of it. */
  lemma BudgetExactly(words: seq<string>)
    requires words != []
    ensures Limit("load") == 30 && Limit("quest") == 10
    ensures Limit("iron") == 1000 && Limit("copper") == 500 && Limit("silver") == 100
    ensures Limit("gold") == 20 && Limit("platinum") == 0
    ensures Lower(words[0]) in {"load", "gmtreasure"} ==> Cost(words) == Some(("load", 1))
    ensures Lower(words[0]) == "gmquest" ==> Cost(words) == if |words| > 2 then Some(("quest", 1)) else None
    ensures Lower(words[0]) !in {"load", "gmtreasure", "gmquest", "makemoney"} ==> Cost(words) == None
  {
  }

  /** A line is accepted when it comes to a proper command whose cost the day's budget still covers. */
  ghost predicate Accepted(rules: Rules, used: Budget, line: seq<string>)
    requires line != []
  {
    var words := Core(line);
    && Improper(rules, words).None?
    && (Cost(words).Some? ==>
          Used(used, Cost(words).value.0) + Cost(words).value.1 <= Limit(Cost(words).value.0))
  }

  /** Just the proper commands are accepted, as long as their cost and what was used before are within the limit. */
  lemma BudgetCovers(rules: Rules, used: Budget, words: seq<string>, kind: string, amount: int)
    requires words != [] && Core(words) == words
    ensures Cost(words) == Some((kind, amount)) ==>
      (Accepted(rules, used, words) <==>
        Proper(rules, words) && Limit(kind) - (if kind in used then used[kind] else 0) >= amount)
    ensures Cost(words) == None ==> (Accepted(rules, used, words) <==> Proper(rules, words))
  {
  }

  function Spend(used: Budget, cost: Option<(string, int)>): Budget {
    match cost
    case None => used
    case Some((kind, amount)) => if amount == 0 then used else used[kind := Used(used, kind) + amount]
  }

  /** The line `at <r1> at <r2> ... <words>`. */
  function Nested(rooms: seq<string>, words: seq<string>): seq<string> {
    if rooms == [] then words else ["at", rooms[0]] + Nested(rooms[1..], words)
  }

  /** No nesting of `at` makes a command more or less allowed, or changes what it costs. */
  lemma {:induction false} NestingIsTransparent(rules: Rules, used: Budget, rooms: seq<string>, words: seq<string>)
    requires words != []
    ensures Nested(rooms, words) != [] && Core(Nested(rooms, words)) == Core(words)
    ensures Accepted(rules, used, Nested(rooms, words)) <==> Accepted(rules, used, words)
  {
    if rooms != [] {
      var inner := Nested(rooms[1..], words);
      NestingIsTransparent(rules, used, rooms[1..], words);
      assert (["at", rooms[0]] + inner)[2..] == inner;
      assert Lower("at") == "at";
    }
  }

  // ----- what a day's lines come to

  function CostOf(line: seq<string>, kind: string): int {
    if line == [] then 0
    else match Cost(Core(line))
      case None => 0
      case Some((k, amount)) => if k == kind then amount else 0
  }

  function Total(lines: seq<seq<string>>, kind: string): int {
    if lines == [] then 0 else Total(lines[..|lines| - 1], kind) + CostOf(lines[|lines| - 1], kind)
  }

  predicate IsLoad(line: seq<string>) {
    line != [] && Lower(Core(line)[0]) in {"load", "gmtreasure"}
  }

  predicate IsQuest(line: seq<string>) {
    line != [] && Lower(Core(line)[0]) == "gmquest" && |Core(line)| > 2
  }

  function Loads(lines: seq<seq<string>>): nat {
    if lines == [] then 0 else Loads(lines[..|lines| - 1]) + if IsLoad(lines[|lines| - 1]) then 1 else 0
  }

  function Quests(lines: seq<seq<string>>): nat {
    if lines == [] then 0 else Quests(lines[..|lines| - 1]) + if IsQuest(lines[|lines| - 1]) then 1 else 0
  }

  /** The coins of a kind that the lines made, not counting negative amounts. */
  function Made(lines: seq<seq<string>>, coin: string): int {
    if lines == [] then 0
    else
      var amount := CostOf(lines[|lines| - 1], coin);
      Made(lines[..|lines| - 1], coin) + if amount > 0 then amount else 0
  }

  lemma CoinIsCoin(coins: seq<string>, prefix: string)
    ensures Coin(coins, prefix).Some? ==> Coin(coins, prefix).value in coins && prefix <= Coin(coins, prefix).value
  {
  }

  /** The counters for loads and quests count lines. */
  lemma {:induction false} CountersCount(lines: seq<seq<string>>)
    ensures Total(lines, "load") == Loads(lines) && Total(lines, "quest") == Quests(lines)
  {
    if lines != [] {
      var line := lines[|lines| - 1];
      CountersCount(lines[..|lines| - 1]);
      if line != [] && |Core(line)| >= 3 {
        CoinIsCoin(COINS, Lower(Core(line)[2]));
      }
    }
  }

  /** The coins of a kind that the lines took back, with negative amounts. */
  function TakenBack(lines: seq<seq<string>>, coin: string): int {
    if lines == [] then 0
    else
      var amount := CostOf(lines[|lines| - 1], coin);
      TakenBack(lines[..|lines| - 1], coin) - if amount < 0 then amount else 0
  }

  ghost predicate NoneTakenBack(lines: seq<seq<string>>, coin: string) {
    forall l :: l in lines ==> CostOf(l, coin) >= 0
  }

  /** A coin's counter is short of what was made by just what was taken back. */
  lemma {:induction false} MadeIsCounted(lines: seq<seq<string>>, coin: string)
    ensures Made(lines, coin) == Total(lines, coin) + TakenBack(lines, coin)
    ensures TakenBack(lines, coin) >= 0 && (TakenBack(lines, coin) == 0 <==> NoneTakenBack(lines, coin))
  {
    if lines != [] {
      var n := |lines| - 1;
      MadeIsCounted(lines[..n], coin);
      assert lines == lines[..n] + [lines[n]];
    }
  }

  // ----- days

  /** What has been used after the lines were accepted, on a day that began with nothing used. */
  function UsedAfter(lines: seq<seq<string>>): Budget {
    if lines == [] then map[]
    else
      var used, line := UsedAfter(lines[..|lines| - 1]), lines[|lines| - 1];
      if line == [] then used else Spend(used, Cost(Core(line)))
  }

  /** The lines are accepted one after the other on one day; an empty line always is. */
  ghost predicate AcceptedDay(rules: Rules, lines: seq<seq<string>>) {
    lines != [] ==>
      var before, line := lines[..|lines| - 1], lines[|lines| - 1];
      AcceptedDay(rules, before) && (line != [] ==> Accepted(rules, UsedAfter(before), line))
  }

  lemma {:induction false} UsedIsTotal(lines: seq<seq<string>>, kind: string)
    ensures Used(UsedAfter(lines), kind) == Total(lines, kind)
  {
    if lines != [] {
      UsedIsTotal(lines[..|lines| - 1], kind);
    }
  }

  /** On a day of accepted lines, no counter passes its limit. */
  lemma {:induction false} CountersWithinLimits(rules: Rules, lines: seq<seq<string>>, kind: string)
    requires AcceptedDay(rules, lines)
    ensures Total(lines, kind) <= Limit(kind)
  {
    if lines != [] {
      CountersWithinLimits(rules, lines[..|lines| - 1], kind);
      UsedIsTotal(lines[..|lines| - 1], kind);
    }
  }

  function CoinLine(coin: string, amount: int): (line: seq<string>)
    ensures line != []
  {
    ["makemoney", PrintInt(amount), coin]
  }

  lemma CoinIsNamed(coin: string)
    requires coin in COINS
    ensures Coin(COINS, coin) == Some(coin) && Lower(coin) == coin
  {
    LowerUnchanged(coin);
    CoinExactly(coin, coin);
  }

  /** `makemoney <amount> <coin>` is a proper command for any amount, and costs that amount of the coin. */
  lemma MakesCoins(rules: Rules, coin: string, amount: int)
    requires coin in COINS
    ensures var line := CoinLine(coin, amount);
      Core(line) == line && Improper(rules, line).None? && Cost(line) == Some((coin, amount))
  {
    assert Lower("makemoney") == "makemoney";
    ParsePrintInt(amount);
    CoinIsNamed(coin);
    assert Money(CoinLine(coin, amount)) == Some((coin, amount));
  }

  lemma OneMore(rules: Rules, lines: seq<seq<string>>, line: seq<string>, kind: string, amount: int)
    requires AcceptedDay(rules, lines) && line != []
    requires Core(line) == line && Proper(rules, line) && Cost(line) == Some((kind, amount))
    ensures var more := lines + [line];
      && (AcceptedDay(rules, more) <==> Total(lines, kind) + amount <= Limit(kind))
      && Total(more, kind) == Total(lines, kind) + amount
      && Made(more, kind) == Made(lines, kind) + if amount > 0 then amount else 0
  {
    var more := lines + [line];
    assert more[..|lines|] == lines && more[|more| - 1] == line;
    UsedIsTotal(lines, kind);
  }

  lemma OneMoreLine(rules: Rules, lines: seq<seq<string>>, coin: string, amount: int)
    requires coin in COINS && AcceptedDay(rules, lines)
    ensures var more := lines + [CoinLine(coin, amount)];
      && (AcceptedDay(rules, more) <==> Total(lines, coin) + amount <= Limit(coin))
      && Total(more, coin) == Total(lines, coin) + amount
      && Made(more, coin) == Made(lines, coin) + if amount > 0 then amount else 0
  {
    MakesCoins(rules, coin, amount);
    OneMore(rules, lines, CoinLine(coin, amount), coin, amount);
  }

  /** As much of a coin as the day allows can be made again after it was taken back. */
  lemma MadeAgain(rules: Rules, coin: string, n: int, one: seq<seq<string>>, two: seq<seq<string>>,
                  three: seq<seq<string>>)
    requires coin in COINS && 0 <= n <= Limit(coin)
    requires one == [] + [CoinLine(coin, n)] && two == one + [CoinLine(coin, -n)] && three == two + [CoinLine(coin, n)]
    ensures AcceptedDay(rules, three) && Made(three, coin) == 2 * n
  {
    OneMoreLine(rules, [], coin, n);
    OneMoreLine(rules, one, coin, -n);
    OneMoreLine(rules, two, coin, n);
  }

  /** Twenty gold made, taken back and made again: all three are accepted on one day, for twice the limit. */
  lemma TakingBackMakesRoom(rules: Rules)
    ensures var day := [CoinLine("gold", 20), CoinLine("gold", -20), CoinLine("gold", 20)];
      AcceptedDay(rules, day) && Made(day, "gold") == 40 > Limit("gold")
  {
    var make, back := CoinLine("gold", 20), CoinLine("gold", -20);
    assert "gold" == COINS[3];
    MadeAgain(rules, "gold", 20, [make], [make, back], [make, back, make]);
  }

  /** From some moment of a day on, no accepted lines without negative amounts make more of the coin than its limit. */
  ghost predicate LimitHolds(rules: Rules, lines: seq<seq<string>>, coin: string) {
    forall more ::
      AcceptedDay(rules, lines + more) && NoneTakenBack(more, coin) ==> Made(lines + more, coin) <= Limit(coin)
  }

  /** The day's limit on a coin holds from then on if and only if none of that coin was taken back before. */
  lemma LimitHoldsExactly(rules: Rules, lines: seq<seq<string>>, coin: string)
    requires coin in COINS && AcceptedDay(rules, lines)
    ensures LimitHolds(rules, lines, coin) <==> NoneTakenBack(lines, coin)
  {
    MadeIsCounted(lines, coin);
    if NoneTakenBack(lines, coin) {
      forall more | AcceptedDay(rules, lines + more) && NoneTakenBack(more, coin)
        ensures Made(lines + more, coin) <= Limit(coin)
      {
        MadeIsCounted(lines + more, coin);
        CountersWithinLimits(rules, lines + more, coin);
      }
    } else {
      var rest := Limit(coin) - Total(lines, coin);
      var more := [CoinLine(coin, rest)];
      CountersWithinLimits(rules, lines, coin);
      OneMoreLine(rules, lines, coin, rest);
      MakesCoins(rules, coin, rest);
      assert NoneTakenBack(more, coin);
      assert Made(lines + more, coin) > Limit(coin);
    }
  }

  lemma DayHolds(rules: Rules, lines: seq<seq<string>>)
    requires AcceptedDay(rules, lines)
    ensures forall kind :: Used(UsedAfter(lines), kind) == Total(lines, kind) <= Limit(kind)
    ensures Loads(lines) <= GM_LOADS && Quests(lines) <= GM_QUESTS
    ensures forall coin :: Made(lines, coin) == Used(UsedAfter(lines), coin) + TakenBack(lines, coin)
    ensures forall coin :: coin in COINS ==> (LimitHolds(rules, lines, coin) <==> NoneTakenBack(lines, coin))
  {
    forall kind
      ensures Used(UsedAfter(lines), kind) == Total(lines, kind) <= Limit(kind)
      ensures Made(lines, kind) == Used(UsedAfter(lines), kind) + TakenBack(lines, kind)
    {
      UsedIsTotal(lines, kind);
      CountersWithinLimits(rules, lines, kind);
      MadeIsCounted(lines, kind);
    }
    CountersCount(lines);
    assert Total(lines, "load") <= Limit("load") && Total(lines, "quest") <= Limit("quest");
    forall coin | coin in COINS ensures LimitHolds(rules, lines, coin) <==> NoneTakenBack(lines, coin) {
      LimitHoldsExactly(rules, lines, coin);
    }
  }

  // ----- the gate

  class GameMaster {
    const rules: Rules
    var used: Budget                       // what the day's budget file holds
    ghost var sent: seq<seq<string>>       // the lines accepted today

    /** The budget file is what the accepted lines come to. */
    ghost predicate Valid()
      reads this
    {
      used == UsedAfter(sent) && AcceptedDay(rules, sent)
    }

    constructor (rules: Rules)
      ensures Valid() && sent == [] && this.rules == rules
    {
      this.rules, used, sent := rules, map[], [];
    }

    /** What has been used of a kind, adding amount; the file is written only when there is something to add. */
    method Take(kind: string, amount: int) returns (total: int)
      modifies this`used
      ensures total == Used(old(used), kind) + amount && used == Spend(old(used), Some((kind, amount)))
    {
      total := Used(used, kind) + amount;
      if amount != 0 {
        used := used[kind := total];
      }
    }

    /** Why a line may not be sent, or None, in which case its cost has been taken. */
    method Refused(line: seq<string>) returns (why: Option<Why>)
      requires line != []
      modifies this`used
      ensures why.None? <==> Accepted(rules, old(used), line)
      ensures why.Some? ==> used == old(used)
      ensures why.None? ==> Core(line) != [] && used == Spend(old(used), Cost(Core(line)))
      decreases |line|
    {
      var word := Lower(line[0]);
      if word in DIRECTIONS || word == "@" {
        return None;
      }
      if word !in GM_COMMANDS {
        return Some(NotACommand);
      }
      if word == "at" {
        if |line| > 2 {
          why := Refused(line[2..]);
          return;
        }
        return Some(AtWhat);
      }
      if word == "tell" && (|line| < 2 || Lower(line[1]) != "papi") {
        return Some(OnlyPapi);
      }
      if word == "force" && |line| > 2 {
        var inner := Lower(line[2]);
        if inner in CHANNELS || (inner <= "shout" && |inner| > 1) {
          return Some(IsChannel);
        }
      }
      if word == "purge" && |line| < 2 {
        return Some(PurgeWhat);
      }
      if word == "set" && (|line| < 3 || Lower(line[2]) !in GM_SET_FIELDS) {
        return Some(SetWhat);
      }
      if word == "set" && Lower(line[2]) == "add-extra" && !rules.editor(line) {
        return Some(ExtraWhat);
      }
      if word == "set" && Lower(line[2]) == "descr" && |line| < 4 {
        return Some(DescrWhat);
      }
      if word == "load" {
        if |line| < 2 {
          return Some(LoadWhat);
        }
        if Lower(line[1]) in rules.forbidden {
          return Some(Forbidden);
        }
        var loads := Take("load", 0);
        if loads >= GM_LOADS {
          return Some(LoadsUsedUp);
        }
        loads := Take("load", 1);
      }
      if word == "gmquest" && |line| > 2 {
        var quests := Take("quest", 0);
        if quests >= GM_QUESTS {
          return Some(QuestsUsedUp);
        }
        quests := Take("quest", 1);
      }
      if word == "gmtreasure" {
        var loads := Take("load", 0);
        if loads >= GM_LOADS {
          return Some(LoadsUsedUp);
        }
        loads := Take("load", 1);
      }
      if word == "makemoney" {
        var money := Money(line);
        if money.None? {
          return Some(MoneyWhat);
        }
        var (coin, amount) := money.value;
        var made := Take(coin, 0);
        if made + amount > Limit(coin) {
          return Some(CoinsUsedUp);
        }
        made := Take(coin, amount);
      }
      return None;
    }
  
    /** Passes a line on if it is accepted; an empty line always is. */
    method Send(line: seq<string>) returns (why: Option<Why>)
      requires Valid()
      modifies this
      ensures Valid()
      ensures why.None? <==> line == [] || Accepted(rules, old(used), line)
      ensures sent == if why.None? then old(sent) + [line] else old(sent)
      ensures why.Some? ==> used == old(used)
    {
      why := None;
      if line != [] {
        why := Refused(line);
      }
      if why.None? {
        assert (sent + [line])[..|sent|] == sent;
        sent := sent + [line];
      }
    }

    /** However many lines are tried in a day, what is accepted keeps its budgets: of loads and quests always, and of a
        coin from now on just when none of it was taken back. */
    method Day(lines: seq<seq<string>>)
      requires Valid()
      modifies this
      ensures Valid() && old(sent) <= sent
      ensures forall kind :: Used(used, kind) == Total(sent, kind) <= Limit(kind)
      ensures Loads(sent) <= GM_LOADS && Quests(sent) <= GM_QUESTS
      ensures forall coin :: coin in COINS ==> Made(sent, coin) == Used(used, coin) + TakenBack(sent, coin)
      ensures forall coin :: coin in COINS ==> (LimitHolds(rules, sent, coin) <==> NoneTakenBack(sent, coin))
    {
      for k := 0 to |lines|
        invariant Valid() && old(sent) <= sent
      {
        var why := Send(lines[k]);
      }
      DayHolds(rules, sent);
    }
  }
}
