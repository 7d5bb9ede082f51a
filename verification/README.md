# Verified models of the play agents' tools

The Python tools in `agents/` let an agent play on the mud: `mud.py` keeps the connection, `zonemap.py` and
`zoneitems.py` read the zone sources, `zoneteachers.py` reads teachers' records, and `daylog.py` condenses a day's log.
This project models their algorithms in Dafny and proves what they are relied on for.

`dafny verify dfyconfig.toml` checks everything. Each file is one module:

| file | models |
|---|---|
| `Way.dfy` | the route finder of `mud.py way`: a breadth-first search around water, hidden doors last |
| `MapLines.dfy` | the map file, as it is printed and as it is read |
| `WebSocket.dfy`, `Bytes.dfy` | the websocket: frames, masks, fragments, pings, an incrementally filled buffer |
| `Telnet.dfy` | the telnet reader: commands and ANSI sequences stripped from a stream that arrives in pieces |
| `Html.dfy` | the event machine over unbalanced HTML |
| `GmBudget.dfy` | what a game master may send, and its daily budgets |
| `Session.dfy` | the bounded unread text, and the watch for the name prompt of a rebooted mud |
| `Uncomment.dfy` | the comment stripper of the zone sources |
| `Resets.dfy`, `RoomsOf.dfy`, `Givers.dfy` | the reset parser, the search for a unit's rooms, the closure over script calls |
| `TeachData.dfy` | a teacher's record |
| `Daylog.dfy` | the log condenser |
| `Text.dfy` | the operations on strings that these share: splitting, joining, words, whole numbers |

Where the Python code changes an object or runs a loop, so does the model: a class with the same fields, methods with
the same branches, proved against a function on values; the lemmas are about that function. The small definitions that
both rest on (a door mark, a mask, a token, white space, a walk's line) are pinned down apart from them, by characters,
bytes and bits, in lemmas most of which end in `Exactly`. Four results say where the code falls short of what it is
for, each with an input and the exact condition:

* The telnet reader. The pattern at `agents/mud.py:187` ends in `$`, which also matches before a last newline, so a
  newline right after an unfinished sequence is lost when a read ends there (`Telnets.NewlineLost`: ESC, newline, `A`,
  read whole and in two); and it takes an option byte that is ESC or IAC for the start of a new sequence. `Clean` is a
  scan of the stream for just those two flaws. It is exact in two senses: for the clean streams and no others, what is
  delivered and held after every read is what the reader's own patterns leave of the stream as a whole
  (`FaithfulExactlyWhenClean`); and for the clean streams and no others, how it is cut makes no difference at any
  moment of the stream, also if plain letters come next (`SplitInvariantExactlyWhenClean`).
* The telnet protocol (RFC 854, RFC 855), which those patterns do not follow in all of it: IAC IAC, which is a data
  byte 255, makes a byte after it disappear (`EscapedLost`), and what comes with a subnegotiation is shown as text
  (`SubnegotiationRead`). What a server means is delivered, however it is cut, if and only if it sends neither of
  these and no negotiation of the options 10, 27 and 255 (`ReadsAsMeantExactly`).
* The daily budget for coins. The documentation says that `makemoney` stays within it, but a negative amount lowers
  the counter: 20 gold, -20 gold and 20 gold are accepted on one day, 40 gold over a limit of 20
  (`GmBudget.TakingBackMakesRoom`). The counter never passes the limit, and it is short of the coins made by just what
  was taken back (`MadeIsCounted`). From any moment of a day on, accepted lines without negative amounts keep what was
  made within the limit if and only if none of that coin was taken back before (`LimitHoldsExactly`).
* The printed digest. A line that itself ends in `  [xN]` is printed like a shorter one counted N times, so two logs
  can come out alike (`Daylog.LogsAlike`). What is printed determines the counted lines if and only if, among the
  lines that may occur, none is another with such a mark (`PrintTellsExactly`).

## Model

| member | source | states |
|---|---|---|
| Way.Search | agents/mud.py:973-991 | a target comes with the directions of a walk from the start to it over exits the walker may take, and no walk to any matching room is shorter; None comes exactly when no walk reaches a matching room |
| Way.FindWay | agents/mud.py:966-998 | hidden doors are on the way only when no walk without them reaches a matching room; otherwise the start is not on the map, or there is no walk at all |
| Way.ShortestKeepsDry | agents/mud.py:984-988 | between its ends, the way found meets no water and no matching room |
| Way.Dest | agents/mud.py:986 | the destination without the door marks at its end, and with all before them |
| Way.DestExactly | agents/mud.py:986 | the destination is what the text names: only * and ! follow it, and it ends in neither |
| Way.StepExactly | agents/mud.py:985-989 | a step is over an exit of the room, to the room its text names, which is on the map and no water unless it is what is looked for; without hidden doors the text does not end in !; what is typed is the direction and the *, or !, that the text ends in |
| Way.MatchesExactly | agents/mud.py:970-971 | a place with @ in it is looked for by its id, any other by all its words somewhere in the title, whatever its capitals |
| Way.Backtrack | agents/mud.py:977-983 | following `prev` back gives a walk from the start, as long as the target is deep |
| Way.Expand | agents/mud.py:984-990 | after a room's exits were looked through, every room they lead to is queued, at most one step deeper, and the queue is still in order of depth |
| Way.Frontier | agents/mud.py:974-990 | any walk from the start stays within the rooms met at no more than its length, or crosses a room still waiting that is no deeper |
| Way.NoLongerThan | agents/mud.py:974-990 | a queue that holds no room twice is no longer than the map, so the search ends |
| MapLines.MapRoundTrip | agents/zonemap.py:133-134 | the printed map reads back as just its rooms, of those with the same id the last: the title, as many exits as printed, each with the direction and destination that were printed around its equals sign, and whether it is water |
| MapLines.LineRoundTrip | agents/zonemap.py:134 | one printed line reads back as its room, and has no line break in it |
| MapLines.ExitRoundTrip | agents/mud.py:965 | an exit reads back as its direction and its destination with the door mark |
| MapLines.PrintMap | agents/zonemap.py:133-134 | the loop prints a line per room, in order |
| MapLines.ReadMap | agents/mud.py:962-965 | the loop makes a table of the lines, a later line replacing an earlier one of the same room |
| MapLines.ExitsExactly | agents/mud.py:965 | as many exits are read as there are words, the k-th from the k-th word |
| MapLines.PartitionExactly | agents/mud.py:965 | direction and destination are what is before the first equals sign and after it, and with none all is the direction |
| MapLines.FieldsRead | agents/mud.py:963-965 | lines with any number of fields are read, the missing ones as empty; the room is of water when its sector begins so |
| MapLines.LineThenRest | agents/mud.py:959 | a line ends at each line break that Python knows, and a return and a newline are one |
| Bytes.XorTwice | agents/mud.py:279 | masking twice with the same byte gives the byte back |
| Bytes.XorBits | agents/mud.py:298 | each bit of the result is the sum of the two bits, without carry |
| Bytes.BitValue | agents/mud.py:298 | the i-th bit of a number is what is odd or even after dividing by 2 to the i |
| Bytes.ToBytesDigits | agents/mud.py:287-291 | the k-th byte of a number is its k-th digit to the base of 256, the highest first |
| Bytes.ToBytes | agents/mud.py:289-291 | a number written big-endian reads back as itself |
| WebSockets.RoundTrip | agents/mud.py:259-298 | what `write` emits for any opcode below 16, payload below 2^64 bytes and mask is read by `frame` as that frame, leaving exactly what follows it (sections 5.2 and 5.3 of RFC 6455) |
| WebSockets.HeadFormat | agents/mud.py:284-291 | the head, byte by byte: FIN and opcode, the mask flag, and the length in one, two or eight bytes |
| WebSockets.WireFormat | agents/mud.py:292-298 | the head, then the mask, then as many bytes as the payload has |
| WebSockets.WireBytes | agents/mud.py:298 | bit j of byte i that goes out is bit j of the i-th byte of data plus bit j of byte i mod 4 of the mask, without carry |
| WebSockets.AnyFrame | agents/mud.py:259-281 | a frame of any peer, with any reserved bits and its length in any form that holds it, is read as its payload, FIN and opcode, whatever follows |
| WebSockets.StepExactly | agents/mud.py:247-256 | frames with opcode 0 and 1 add their data to the text, and FIN completes one message of it; 9 is answered; no other opcode changes messages or pongs |
| WebSockets.PrefixIncomplete | agents/mud.py:261-276 | no proper prefix of a written frame is read as a frame |
| WebSockets.ParseLocal | agents/mud.py:259-281 | for any bytes, whether they start with a frame and which depends on that frame's bytes alone |
| WebSockets.ParseBounds | agents/mud.py:260-281 | a frame takes at least two bytes off the buffer, and its payload can be written again |
| WebSockets.ParseAllSplit | agents/mud.py:243-247 | the frames of a stream, and the bytes left over, are the same wherever it is cut in two |
| WebSockets.AllRoundTrip | agents/mud.py:243-298 | any list of frames, written one after the other, is read back as that list |
| WebSockets.AnySplit | agents/mud.py:228-257 | any run of reads comes to the same as one read of the whole stream: messages, pongs, message under way and bytes left over |
| WebSockets.Interleaved | agents/mud.py:247-256 | frames other than data frames change nothing about the text messages |
| WebSockets.PongsInOrder | agents/mud.py:255-256 | the pongs are the payloads of the pings, in order, whatever comes between them |
| WebSockets.FragmentsJoin | agents/mud.py:248-252 | fragments up to FIN give one message, their payloads joined (section 5.4 of RFC 6455) |
| WebSockets.EndToEnd | agents/mud.py:228-281 | messages sent in any fragments, with any control frames between them, cut anywhere in transit, arrive as exactly those messages and pongs, with nothing left over |
| WebSockets.WebSocket.TakeFrame | agents/mud.py:259-281 | takes exactly the first complete frame off the buffer, which gets shorter, or leaves it alone |
| WebSockets.WebSocket.Write | agents/mud.py:283-298 | what is written is the frame with FIN, the opcode and the data under some mask of four bytes, and all that was written so far is readable as exactly the frames sent |
| WebSockets.WebSocket.Handle | agents/mud.py:247-256 | one frame's effect on the message under way, the messages delivered and the frames sent |
| WebSockets.WebSocket.Read | agents/mud.py:228-257 | a read has the effect of feeding the received bytes to the stream; a pong for each ping and nothing else is sent; closed on end of file or a close frame |
| Telnets.FaithfulExactlyWhenClean | agents/mud.py:176-192 | after every read of every run of reads, what the patterns leave of all that arrived is delivered without carriage returns and just the unfinished sequence is held back, if and only if the stream is clean |
| Telnets.SplitInvariantExactlyWhenClean | agents/mud.py:176-192 | any two ways of reading a start of the stream and perhaps letters after it deliver and hold the same, if and only if the stream is clean |
| Telnets.NewlineLost | agents/mud.py:187-191 | ESC, newline, A: all is delivered when read at once, and the newline is lost when a read ends before the A |
| Telnets.OneRead | agents/mud.py:186-192 | on a clean stream, one read gives what the patterns leave of it and holds back the unfinished sequence at its end |
| Telnets.PlainSplit | agents/mud.py:186-192 | the plain bytes of any stream are the same wherever it is cut, if the unfinished sequence is carried over |
| Telnets.StrippedExactly | agents/mud.py:191 | what is stripped, by byte values: 255, 251 to 254 and any but 10; 255 and any but 255; 27, 91, digits and semicolons, and a letter |
| Telnets.CutOffExactly | agents/mud.py:187 | what may be cut off, by byte values: 27, perhaps with 91, digits and semicolons; 255, perhaps with 251 to 254 |
| Telnets.FirstCutExactly | agents/mud.py:187-190 | a read is cut at the first place from which on there is just such a sequence, or that and a newline |
| Telnets.ReturnsExactly | agents/mud.py:192 | carriage returns are left out, and each other byte stays where it is |
| Telnets.Flaw | agents/mud.py:187-190 | in any stream that is not clean there is a place where a read that ends there holds back the wrong bytes, and a letter that comes then is read otherwise than without the cut |
| Telnets.ServerStreamsClean | agents/mud.py:187-191 | a stream of bytes, CSI sequences, two-byte commands, negotiations (option not ESC, IAC or newline) and subnegotiations without content is clean, and what these mean is what is delivered |
| Telnets.ServerStreamsFaithful | agents/mud.py:176-192 | every way of reading such a stream, or the start of one, delivers the same bytes |
| Telnets.ReadsAsMeantExactly | agents/mud.py:176-192 | for any bytes, CSI sequences, commands, negotiations, escaped IACs and subnegotiations (with no ESC or IAC inside) that are sent: after each of them, and if a letter comes next, what they mean (RFC 854, RFC 855) is delivered however it is cut, if and only if none is an escaped IAC, a negotiation of option 10, 27 or 255, or a subnegotiation with anything but carriage returns in it |
| Telnets.SubnegotiationRead | agents/mud.py:191 | what comes with a subnegotiation is left in the text |
| Telnets.EscapedLost | agents/mud.py:187-191 | IAC IAC A means a data byte 255 and A, and only the first is delivered |
| Telnets.Telnet.Read | agents/mud.py:176-192 | over any run of reads of a clean stream, what was delivered and what is held are right after each |
| Htmls.Conservation | agents/mud.py:324-392 | over any tokens in any division into feeds, the text given out, followed by the open event's, is what the tokens contribute, in order |
| Htmls.FeedsAsOne | agents/mud.py:331-342 | the pieces of any division into feeds, put together, are those of one feed of all tokens, and the machine ends in the same state |
| Htmls.StepText | agents/mud.py:336-392 | each token adds exactly its own text, at the end |
| Htmls.CleanedExactly | agents/mud.py:391-392 | each character of data stays where it is, but a carriage return is left out and a no-break space is a space |
| Htmls.CleanedClean | agents/mud.py:391-392 | neither is left, and just the data with neither is unchanged |
| Htmls.RunSound | agents/mud.py:351-388 | whatever the markup, at most one open element is an event, and one is exactly while an event is being collected |
| Htmls.OnEndSound | agents/mud.py:376-389 | an end tag cuts the stack just below the nearest open element of its name, or changes nothing when there is none |
| Htmls.TreeInside | agents/mud.py:344-392 | balanced markup inside an event adds the tree's text to it and leaves the stack as it was |
| Htmls.TreeOutside | agents/mud.py:344-392 | balanced markup outside of events gives the tree's rendering, each event with exactly the text of its inside, and leaves the stack as it was |
| Htmls.CommFirst | agents/mud.py:353 | the first of the classes that marks speech counts, and none does when no class marks it |
| Htmls.EventExactly | agents/mud.py:346-362 | which element is an event and of which kind: data and script, then prompt, a room title in an h1, a description, and the first class that marks speech |
| Htmls.StartEndIsEmpty | agents/mud.py:371-374 | an element without content is treated as one that is opened and closed |
| Htmls.Html.ValidSound | agents/mud.py:324-329 | the event of an open element is the one being collected, and there is at most one |
| Htmls.Html.AddText | agents/mud.py:336-342 | text goes to the event being collected, or else to the last piece of text given out, or a new one |
| Htmls.Html.HandleStart | agents/mud.py:344-369 | the new state after a start tag, with a new event when the element is one and none is being collected |
| Htmls.Html.HandleStartEnd | agents/mud.py:371-374 | an element without content is opened and closed |
| Htmls.Html.Close | agents/mud.py:383-389 | the innermost element is closed: an event goes out with all its text, a block ends its line |
| Htmls.Html.HandleEnd | agents/mud.py:376-389 | the elements from the nearest of that name on are closed, innermost first |
| Htmls.Html.HandleData | agents/mud.py:391-392 | character data is cleaned and added |
| Htmls.Html.Feed | agents/mud.py:331-334 | a feed gives what the run of its tokens gives, and keeps the stack and the event for the next |
| GmBudget.GameMaster.Refused | agents/mud.py:444-500 | a line is accepted if and only if the command it comes to is proper and its cost still within the day's limit; accepted, it changes its own counter by its cost and no other; refused, nothing |
| GmBudget.BudgetCovers | agents/mud.py:478-500 | a line is accepted if and only if it is proper and its cost still within the limit of what was used |
| GmBudget.BudgetExactly | agents/mud.py:423-500 | the limits of a day, and which commands take of which |
| GmBudget.LoadProper | agents/mud.py:469-477 | a load is proper if and only if it names a unit that is not forbidden |
| GmBudget.TellProper | agents/mud.py:454-461 | only Papi is told anything, and a purge names its target |
| GmBudget.ForceProper | agents/mud.py:456-459 | a force is proper unless it makes someone use a channel, or shout, with at least two of its letters |
| GmBudget.SetProper | agents/mud.py:462-468 | a set is proper if and only if its field is listed, an extra description is as the editor takes it, and a description has a text |
| GmBudget.OtherProper | agents/mud.py:448-453 | directions, @ and the other commands listed are proper, a bare `at` and any other word not |
| GmBudget.MoneyExactly | agents/mud.py:489-499 | makemoney is proper if and only if the amount is a whole number and the name begins a coin's, and costs that amount of that coin |
| GmBudget.GameMaster.Take | agents/mud.py:429-441 | one counter is read, and written when there is something to add |
| GmBudget.GameMaster.Send | agents/mud.py:517-526 | an empty line is passed on, any other if it is accepted; the budget file stays what the accepted lines come to, each accepted within its limit |
| GmBudget.GameMaster.Day | agents/mud.py:423-500 | over any lines of a day, every counter is the sum of what was accepted and within its limit, at most 30 loads and treasures and 10 quests are accepted, the coins made are the counter and what was taken back, and their limit holds from then on if and only if none was taken back |
| GmBudget.NestingIsTransparent | agents/mud.py:452-453 | however often `at <room>` stands before a command, it is as allowed and costs as much as alone |
| GmBudget.CountersCount | agents/mud.py:469-488 | the load counter is the number of accepted `load` and `gmtreasure` lines, the quest counter that of quests given |
| GmBudget.CountersWithinLimits | agents/mud.py:429-500 | on a day of accepted lines, no counter passes its limit |
| GmBudget.MadeIsCounted | agents/mud.py:489-499 | the coins made are what the counter says and what was taken back, and nothing was taken back if and only if no amount was negative |
| GmBudget.MakesCoins | agents/mud.py:489-499 | `makemoney <amount> <coin>` is proper for each coin and costs that amount of it, be it negative or not |
| GmBudget.TakingBackMakesRoom | agents/mud.py:497-499 | 20 gold, -20 gold and 20 gold are all accepted on one day: 40 made, over the limit of 20 |
| GmBudget.LimitHoldsExactly | agents/mud.py:497-499 | after any day so far, all further accepted lines without negative amounts keep the coins made within the limit, if and only if no negative amount of that coin was accepted before |
| Sessions.KeptAfter | agents/mud.py:730-732 | the unread text is all that was added, or one marker and exactly its last 100000 characters, after any number of overflows |
| Sessions.KeptAfterAll | agents/mud.py:724-732 | whatever the pieces in which text is added, the buffer depends on the whole text alone, so the marker never adds up |
| Sessions.KeptExactly | agents/mud.py:730-732 | up to 100000 characters are kept as they are; of more, a line that says so and the last 100000 |
| Sessions.RebootExactly | agents/mud.py:724-729 | while playing, a reboot is flagged exactly when the name prompt is in all that was said since the last line sent, however it was cut up |
| Sessions.SqueezeExactly | agents/mud.py:725 | no three newlines in a row are left, and only a text that has them is changed |
| Sessions.WindowSuffices | agents/mud.py:728 | looking through the new text and 40 characters before it finds what looking through all of it would |
| Sessions.SqueezeInvisible | agents/mud.py:725 | squeezing newlines makes and breaks no occurrence of a text that is on one line |
| Sessions.Session.Add | agents/mud.py:724-732 | keeps the unread text as it should be for all that was added, and watches for the prompt |
| Sessions.Session.Store | agents/mud.py:730-732 | the buffer is what should be kept of the text added since it was last taken |
| Sessions.Session.HearPasswordOn | agents/mud.py:677-678 | the mark for a password request joins the text said |
| Sessions.Session.Send | agents/mud.py:749-753 | what is said from now on is the answer to the line sent |
| Sessions.Session.Take | agents/mud.py:755-756 | gives the text kept since it was last taken, and empties the buffer |
| Sessions.Session.Listen | agents/mud.py:724-732 | over all that is heard between two lines sent, the reboot flag follows from the text alone |
| Uncommenting.Uncomment | agents/zonemap.py:21-45 | the source character by character without its comments; none is left, line breaks and string literals are as they were, and a source without comments is unchanged |
| Uncommenting.Segment | agents/zonemap.py:25-44 | each turn of the loop takes at least one character and keeps what the character-by-character reading keeps |
| Uncommenting.Idempotent | agents/zonemap.py:21-45 | doing it again changes nothing, and only sources with a comment are changed at all |
| Uncommenting.Syntax | agents/zonemap.py:25-44 | a string is kept to its closing quote, `/*` to the first `*/` after it becomes its line breaks, `//` to the line break is left out, and any other character, a lone slash too, is kept |
| Uncommenting.LineBreaksExactly | agents/zonemap.py:34 | line breaks are counted character by character |
| Uncommenting.NoComments | agents/zonemap.py:31-43 | no comment opens outside a string in the output, lone slashes and unterminated comments included |
| Uncommenting.LineBreaksKept | agents/zonemap.py:34 | as many line breaks come out as went in |
| Uncommenting.LiteralsKept | agents/zonemap.py:26-30 | the string literals outside comments come out unchanged and in order, also an unterminated one |
| Resetting.ForestRecorded | agents/zoneitems.py:115-137 | the text of any forest of loads records exactly each unit's how, enclosing unit and room, in preorder |
| Resetting.NodeRecorded | agents/zoneitems.py:118-137 | so does each tree, wherever it stands and whatever follows, and afterwards the enclosing units are as before |
| Resetting.TokensOfJoin | agents/zoneitems.py:116 | tokens put together with spaces are taken apart again |
| Resetting.TokensExactly | agents/zoneitems.py:116 | tokens are found whatever that is part of no token stands around and between them |
| Resetting.TokenExactly | agents/zoneitems.py:116 | a token is a brace, a word, or two words with @ or / between them |
| Resetting.NameChars | agents/zoneitems.py:26-116 | the characters of names and of words, by number |
| Resetting.CommandWords | agents/zoneitems.py:33-129 | load and equip, whatever their capitals, start a unit; they, braces and the other reset words end the one before |
| Resetting.Unbalanced | agents/zoneitems.py:120-136 | a brace after no unit keeps the unit around it, one too many changes nothing, other tokens are passed over, and a load at the very end records nothing |
| Resetting.AddAllExactly | agents/zoneitems.py:134 | the table has each unit's places after those it had, in the order recorded, and no others |
| Resetting.Zones.Resets | agents/zoneitems.py:115-137 | for any text, balanced or not, the loop ends with the records of the recursive reading added, and the list of enclosing units is never empty |
| Resetting.Zones.Load | agents/zoneitems.py:127-136 | the room is that of the last `into`, and the tokens up to the next brace or reset word are passed over |
| Resetting.LastInto | agents/zoneitems.py:128-132 | the room of a load is the one after its last `into`; without one there is none |
| Resetting.NormForms | agents/zoneitems.py:35-41 | sym, sym@zone and zone/sym all come to sym@zone |
| Resetting.NormExactly | agents/zoneitems.py:37-41 | capitals make no difference, and what is not two names with @ or / between them gets the zone |
| RoomsOfUnits.RoomsOf | agents/zoneitems.py:139-147 | for any table, circular ones included, it ends, and gives sorted and without duplicates exactly the rooms at the end of the walks outwards that the search takes |
| RoomsOfUnits.AcyclicRooms | agents/zoneitems.py:139-147 | where nothing is inside itself, these are exactly the rooms in which the unit, or something around it, lies inside nothing |
| RoomsOfUnits.Shrinks | agents/zoneitems.py:143-144 | fewer units of the table are unseen after going outwards from one not seen before |
| RoomsOfUnits.SortedSet | agents/zoneitems.py:147 | the same elements, in increasing order, each once |
| RoomsOfUnits.LessExactly | agents/zoneitems.py:147 | the order is that of the first character that differs, and a beginning comes before the whole |
| GiversOfDils.Givers | agents/zoneitems.py:186-194 | exactly the units that start a dil which reaches the given one by any number of calls; each dil is dealt with once, although calls may be circular |
| GiversOfDils.NextDil | agents/zoneitems.py:189-193 | one turn of the loop keeps what is seen, to do and done in order, and takes a dil not dealt with before |
| TeachData.ReadBack | agents/zoneteachers.py:84-101 | the text of any ten header fields and any records, padded anyhow, is read as the same type, profession, guild and entries in order |
| TeachData.PaddedRead | agents/zoneteachers.py:86 | so is it with any white space around every field |
| TeachData.RowClosed | agents/zoneteachers.py:97-99 | a record is closed by a 0, an empty field or the end, whatever its costs |
| TeachData.EntriesEnd | agents/zoneteachers.py:91-95 | there are no more records if and only if less than five fields are left, the first is empty, or a level or limit is no number |
| TeachData.RowsRead | vme/include/guilddef.h:28-39 | records with any number of point costs and a closing 0 are read one after the other |
| TeachData.NumbersRead | agents/zoneteachers.py:93 | levels and limits written as whole numbers are read as those numbers |
| TeachData.ReadTeacher | agents/zoneteachers.py:84-101 | the method gives what the recursive reading of the text gives, or None with fewer than ten fields |
| TeachData.ReadEntries | agents/zoneteachers.py:90-100 | the loop reads all records, up to the first that is not one |
| TeachData.SkipCosts | agents/zoneteachers.py:97-98 | stops at the first 0 or empty field |
| Daylog.DigestTells | agents/daylog.py:28-68 | what was emitted tells every move, every arrival and every kept line of the log, once and in order |
| Daylog.TypedExactly | agents/daylog.py:49-56 | a typed line is a move if the command is one, whatever its capitals and the white space around it, and otherwise kept up to 300 characters |
| Daylog.ItemExactly | agents/daylog.py:57-67 | rooms, blank and replayed lines, and lines in brackets or with something to keep, by their characters |
| Daylog.BracketExactly | agents/daylog.py:58 | the first closing bracket is left out, and nothing else |
| Daylog.EmitExpands | agents/daylog.py:32-36 | expanding the counts gives the emitted lines, and no two lines next to each other are alike |
| Daylog.ExpandInjective | agents/daylog.py:32-36 | only one counted list expands to given lines |
| Daylog.PrintTellsExactly | agents/daylog.py:69-70 | counted lists of lines that may occur print differently when they differ, if and only if no such line is another with a count of two or more after it |
| Daylog.MarkedInjective | agents/daylog.py:70 | a line and the count printed after it can be read off what is printed |
| Daylog.LogsAlike | agents/daylog.py:49-70 | `look` typed twice, and `look  [x2]` typed once, come out alike |
| Daylog.Log.EmitLine | agents/daylog.py:32-36 | the counted lines still expand to all lines emitted |
| Daylog.Log.Flush | agents/daylog.py:38-41 | the walk under way becomes one line, and nothing else changes |
| Daylog.WalkTold | agents/daylog.py:40 | the words of a walk's line are > and walk, then every move in order, their number in parentheses, to, and the room |
| Daylog.Log.KeepLine | agents/daylog.py:66-67 | the walk's line comes before the line kept |
| Daylog.Log.ReachRoom | agents/daylog.py:57-62 | a room is noted, and is a line of its own only when not walking |
| Daylog.Log.TakeLine | agents/daylog.py:44-48 | a room's description is passed over |
| Daylog.Log.TakeOutside | agents/daylog.py:49-67 | the effect of any other line |
| Daylog.Log.Digested | agents/daylog.py:43-68 | a whole log's counted lines expand to lines that tell the log, in order: the k-th has every move of the k-th walk, their number and the room, or is the line kept |
| Daylog.Log.PrintOut | agents/daylog.py:69-70 | each counted line is printed, with its count if that is not one |
| Text.StripExactly | agents/zoneteachers.py:86 | all white space around a text is removed, and nothing else |
| Text.WhiteSpace | agents/zoneteachers.py:86 | what is white space, by the numbers of the characters |
| Text.WordsExactly | agents/mud.py:965 | words are found whatever white space is around and between them |
| Text.LowerExactly | agents/mud.py:968-971 | each capital letter becomes the small one with its place in the alphabet, and nothing else changes |
| Text.OccursExactly | agents/mud.py:728 | one text is in another when that is some text, the one, and some text |
| Text.DigitsExactly | agents/zoneteachers.py:93 | exactly digits with single underscores between them are a number, the one the digits stand for |
| Text.IntExactly | agents/zoneteachers.py:93 | a number may have a sign before it and white space around it |
| Text.JoinSplit | agents/zoneteachers.py:86 | the parts of a text have no separator in them, and joined again they are the text |

## Left out

- Sockets, TLS, the websocket handshake, forking, the control socket, files and logs on disk: input and output. Reads are byte sequences, the budget file is a map for one day.
- Python's HTML tokenizer: the event machine takes tokens.
- UTF-8 decoding and HTML entities: messages and telnet text are byte sequences; the carriage returns are removed from bytes.
- Characters beyond ASCII in `lower`, in numbers and in names: not modelled. White space and line breaks are those of Python for all characters.
- The masks of written frames are any four bytes; the clock is not modelled, so a budget is that of one day.
- Htmls.Html.Close: an event that has gone out is a value, so that the model does not show that the object given out is the one that was collected.
- GmBudget.GameMaster.Refused: a line is its list of words, the forbidden units are a set, and whether the game's editor takes a line is a parameter; the wording of refusals is not modelled.
- `refused` for players who are not game masters, the greeting rules and the editor's two lines: tests of one line against lists and patterns, with no state that lasts beyond it.
- Sessions.Session.Send: writing to the connection and the log, and the flag for a look to come, are not modelled.
- Sessions.Session.Take: gives the text as it was kept; what `take` then leaves out (noise, movements, repeated lines) depends on patterns and the clock.
- Session.event, recaps, reminders and the login dialogue: classification of events by patterns.
- The output line of `way` and the choice of the start room: printing.
- `Zones.read` and `Zones.close`, `zonemap.rooms`, `zoneteachers.units`: line classifiers made of patterns.
- `sources` beyond `givers`: labels and texts put together from what is modelled.
- Daylog.Log.TakeOutside: the patterns for descriptions, replayed lines and lines to keep are parameters.
- The C++ server, `deploy/`, `vme/bin/`, the zone macros and `lokee-players.py`: not part of this model.
