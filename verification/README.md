# Models of six Synchronet scripts

Dafny models of the stateful text, protocol and scheduling code in six scripts of the Synchronet BBS,
with proofs about what that code keeps, loses and delivers. Code that changes objects in place is
modelled by classes and methods with loops, each proved against a function of the old state; the
properties are lemmas about those functions. Where a natural property does not hold of the code, the
model keeps the code as it is, a lemma gives an input that shows the failure, and another says exactly
when the property holds.

| modules | script | what |
|---|---|---|
| `EditorText`, `Reflow`, `Filling`, `Editor` | `exec/fseditor.js` | the line buffer and its two re-flow loops |
| `ColourCodec`, `CodedLines`, `ColourRoundTrip`, `MessageText` | `exec/fseditor.js` | saving a buffer as text with Ctrl-A colour codes, and loading it |
| `LongLines`, `PlainLines`, `Streams`, `SoftRows` | `exec/fseditor.js` | the branch of loading that breaks long lines: when it ends, what it keeps, which buffers come back through it |
| `Ofb`, `Rekey`, `HotlineSession` | `exec/hotline.js` | an output-feedback stream whose key changes at block boundaries |
| `ArticleList` | `exec/hotline.js` | the article list and its trimming |
| `Network`, `Relay`, `RelayRun`, `ListRun` | `exec/ircd.js` | messages to a channel, or to its operators or voiced members, on a tree of servers |
| `LineQueue` | `exec/ircd.js` | lines over a byte stream |
| `UserModes` | `exec/ircd.js` | user mode changes, and how servers follow them |
| `ConfSplit`, `BanMasks` | `exec/ircd.js` | the configuration splitter and the ban mask normaliser |
| `SeenBits`, `SeenCodec` | `exec/imapservice.js` | the store of seen messages |
| `ImapText`, `ImapRoundTrip` | `exec/imapservice.js` | writing and reading strings, literals and nested lists |
| `SeqSets` | `exec/imapservice.js` | the message index and sequence sets |
| `FlowFiles`, `FlowCallout` | `exec/binkit.js` | what becomes of flow files when some of their files were sent |
| `CalloutOrder` | `exec/binkit.js` | which addresses are called, and in what order |
| `WordWrap`, `WrapColours`, `WrapScreen`, `WrapPaint`, `WrapExamples` | `exec/irc.js` | breaking long lines, and the colours their rows start in |
| `IrcCommands` | `exec/irc.js` | sending and reading commands |

`Options` holds the type of a value that may be missing, `Characters` what counts as a space.

## Where the code does not do what it is for

- `wrap_line` moves a hard break up when a too long hard last line spills (`Editor.SpillExample`), and takes its
  error exit on an empty soft line above another line (`Editor.EmptySoftRowExample`; exactly when:
  `Editor.WrapLineFails`).
- `unwrap_line` pulls up the next paragraph, or reads a line that is gone, after it used up the rest of a word that
  was cut (`Editor.CrossingExample`, `Editor.CrashExample`; exactly when: `Editor.UnwrapLineKeepsDocument`,
  `Editor.UnwrapLineCrashes`).
- `unwrap_line` can leave room for the next word of a paragraph where it used up the line below
  (`Filling.RoomLeftExample`; exactly when: `Filling.NoRoomUnless`), and it forgets that a line ends inside a word
  (`Filling.MarksAreLost`).
- `make_strings` loses intensity, blinking or background where the colour changes to light gray
  (`ColourRoundTrip.LossyExample`), and a Ctrl-A in the text is read as a colour code (`ColourRoundTrip.SaveAndLoad`).
- `make_lines` shows the last character of a line that it breaks again on the next row (`PlainLines.TwiceExample`; exactly
  when all is kept: `PlainLines.LinesKeepText`), and does not end on a word character followed by blanks up to the edge
  of the screen and another word (`PlainLines.NeverEndsExample`; exactly when: `PlainLines.EndsUnlessGap`).
- A row without a hard break, which should become part of a longer line, comes back as a row of its own if the reader,
  going back from the break, hits upon a colour code (`SoftRows.SoftRowExample`; exactly when: `SoftRows.BuffersComeBack`).
- A short read on the read that fires a pending change of key loses the place in the stream
  (`HotlineSession.ShortReadExample`; exactly when: `HotlineSession.Session.ReadsockBytes`), and garbles the bytes behind
  it (`HotlineSession.GarbledExample`; exactly when the next one is right: `HotlineSession.LateByte`).
- A line queue whose socket only reports success or failure drops what the socket did not take before it failed
  (`LineQueue.FailedSendExample`; exactly when: `LineQueue.Queue.Send`).
- The article list announces messages for which it holds no record (`ArticleList.NoSubjectExample`; exactly when:
  `ArticleList.CountIsRight`).
- A message to a channel's operators or voiced members goes over a link several times, and every server on the way
  multiplies it again (`ListRun.OperatorExample`; exactly how often: `Relay.ListMessageCopies`, `ListRun.ListedCopies`).
- A quoted IMAP string with a double quote or backslash is not read back (`ImapRoundTrip.EscapeExample`; exactly when:
  `ImapRoundTrip.RoundTrip`).
- `callout_done` truncates through a file object it never opened, which the host refuses (`src/sbbs3/js_file.c:2125`), so
  a '#' entry never truncates its file (`FlowCallout.TruncateExample`); and entries below an empty line of a flow file are
  lost (`FlowFiles.LostExample`; exactly when: `FlowFiles.NothingLost`).
- The first character of a long line without a space gets a row of its own, which can split a colour code
  (`WrapExamples.UnbrokenExample`; exactly when: `WordWrap.LoneCharacter`, `WordWrap.CodesStayWhole`).
- A row of a long line is kept on the screen with the colour codes of the row below it (`WrapExamples.KeptExample`;
  exactly when: `WrapColours.KeptAsPrinted`), and starts in the colour of text that was scanned but comes behind
  (`WrapExamples.ColourExample`; exactly when: `WrapPaint.ColoursAhead`).
- A word that begins with a colon loses it on the way to the IRC server (`IrcCommands.SmileyExample`; exactly when:
  `IrcCommands.CommandArrives`); and a tag or prefix that is all of a line loses its last character
  (`IrcCommands.LoneMark`).

## Model

| member | source | states |
|---|---|---|
| `Reflow.WrapKeepsDocument` | exec/fseditor.js:363-423 | Wrapping keeps every character, attribute and hard break in its place if and only if no over-long row pushes words past a hard last row. |
| `Reflow.WrapBoundsWidth` | exec/fseditor.js:363-423 | Every row down to the one wrapping stops on has at most columns-1 characters before its trailing blanks, and no row is lost. |
| `Reflow.WrapFailsIff` | exec/fseditor.js:363-423 | The error exit is taken if and only if the loop comes to a soft row, not the last, that is empty even with what was carried into it. |
| `Reflow.WrapSucceeds` | exec/fseditor.js:363-423 | A buffer without an empty soft row above another row never takes it. |
| `Reflow.UnwrapKeepsDocument` | exec/fseditor.js:254-361 | Unwrapping, with the branch for rows cut inside a word, keeps the document if and only if no round of the loop reaches across a hard break. |
| `Reflow.UnwrapCrashesIff` | exec/fseditor.js:254-361 | A row that is gone is read if and only if in some round the rest of a cut word uses up the last row. |
| `Reflow.UnwrapWithoutCutWords` | exec/fseditor.js:254-361 | Without rows cut inside a word the document is always kept and no missing row is read. |
| `Reflow.UnwrapBoundsWidth` | exec/fseditor.js:254-361 | Every row the loop filled has at most columns-1 characters before its trailing blanks. |
| `Editor.Buffer.WrapLine` | exec/fseditor.js:363-423 | The loop over the mutable line objects ends, makes the buffer what the specification says, keeps text and attributes of equal length and lines distinct, and returns the specified count or error; the line it is called on is cut as `Filling.WrapFirstRow` says, and the lines above are untouched. |
| `Editor.Buffer.UnwrapLine` | exec/fseditor.js:254-361 | The same for filling rows from below: new contents, returned count, and whether a deleted line was read; the line it is called on is filled as `Filling.UnwrapFirstRow` says. |
| `Editor.WrapLineKeepsDocument` | exec/fseditor.js:363-423 | Called on any line, wrapping keeps the whole buffer's document if and only if the rows from there on do not spill past a hard last row. |
| `Editor.UnwrapLineKeepsDocument` | exec/fseditor.js:254-361 | Called on any line, unwrapping keeps the whole buffer's document if and only if no round reaches across a hard break. |
| `Editor.WrapLineFails` | exec/fseditor.js:363-423 | Called on any line, wrapping takes its error exit if and only if from there on it comes to such an empty soft row. |
| `Editor.UnwrapLineCrashes` | exec/fseditor.js:254-361 | Called on any line, unwrapping reads a line that is gone if and only if from there on a round uses up the last row. |
| `Editor.SpillExample` | exec/fseditor.js:363-423 | A one-line buffer whose document wrapping changes. |
| `Editor.EmptySoftRowExample` | exec/fseditor.js:363-423 | A buffer on which wrapping takes its error exit. |
| `Editor.CrossingExample` | exec/fseditor.js:254-361 | A buffer whose document unwrapping changes. |
| `Editor.CrashExample` | exec/fseditor.js:254-361 | A buffer on which unwrapping reads a line that is gone. |
| `Characters.Blanks` | exec/fseditor.js:306-306 | Which characters of eight bits the regular expressions take for white space. |
| `Filling.CutPointMeaning` | exec/fseditor.js:370-391 | A row is cut behind the blanks of the last gap that begins ahead of the last column and has a word behind it; without such a gap, where the row is full. |
| `Filling.WordBreakMeaning` | exec/fseditor.js:306-306 | As many whole words as fit, with the blanks behind them: no later place up to the limit is the end of a word. |
| `Filling.ChunkBreakMeaning` | exec/fseditor.js:279-279 | What stands ahead of the first blank, as far as it fits, with the blanks behind it. |
| `Filling.WrapFirstRow` | exec/fseditor.js:363-423 | The row that wrapping is called on is left alone if and only if it fits and ends in a blank, is the last or is hard; else it is cut at that place, loses its hard break to what is cut off, and is marked if there was no gap. The count returned is how much it lost, or -1. |
| `Filling.NewMarks` | exec/fseditor.js:386-392 | In a buffer without marks wrapping marks only rows that it cut and that have no gap. |
| `Filling.UnwrapFirstRow` | exec/fseditor.js:254-361 | The row that unwrapping is called on gets the rest of its word if it was cut inside one, then as many whole words as fit, and nothing else; the count returned is how much it has grown, or -1. |
| `Filling.FilledRowsFull` | exec/fseditor.js:254-361 | Each row the loop filled has no room for the next word of its paragraph, or ends where a row ended before. |
| `Filling.NoRoomUnless` | exec/fseditor.js:254-361 | None has such room if and only if no round of the loop uses up the row below and leaves it. |
| `Filling.MarksAreLost` | exec/fseditor.js:279-352 | No row that was filled is marked as cut inside a word afterwards, also when it still ends inside one. |
| `Filling.FillExample` | exec/fseditor.js:254-361 | Two rows of a paragraph that become one. |
| `Filling.RoomLeftExample` | exec/fseditor.js:254-361 | Three rows of a paragraph that become two, with room for the second in the first. |
| `ColourCodec.CodesApply` | exec/fseditor.js:997-1067 | The codes written between two attributes turn the first into the second if and only if the change is not one of the lossy ones to light gray. |
| `CodedLines.ReaderTable` | exec/fseditor.js:838-907 | What each code does to the attribute that is in force, letter by letter, in either case: eight set the foreground, eight the background, three high intensity, blinking and normal, and no other character does anything. |
| `CodedLines.CodedLine` | exec/fseditor.js:815-977 | Text, a code, more text and a line end, ahead of any text: one row with both texts, the first in the attribute in force and the second in that which the code makes of it, and the rest is read with the latter. |
| `CodedLines.CodedTextLoads` | exec/fseditor.js:815-977 | So a text with a code in it is loaded as one row, gray up to the code and in its colour from there on. |
| `CodedLines.TabLine` | exec/fseditor.js:938-947 | A tab is read as blanks in the attribute in force, one at least, up to the next multiple of the tab width. |
| `CodedLines.WrittenCodes` | exec/fseditor.js:1001-1064 | The codes that are written for a change of attribute, letter by letter and in their order. |
| `CodedLines.DyedLine` | exec/fseditor.js:997-1088 | A hard row of one colour is written as its codes, its text without the blanks at its end, and a line end, ahead of what is written for the rows below. |
| `ColourRoundTrip.SaveAndLoad` | exec/fseditor.js:815-1091 | Of any texts, control characters included: saving with embedded colours and loading gives the same texts, attributes and hard breaks, with no line to be broken, if and only if no text has a control character and every row is hard, fits, has no trailing blank and no lossy change of attribute. |
| `LongLines.SaveAndLoadLines` | exec/fseditor.js:815-1091 | The same for the whole loop, lines that are broken included: a buffer of hard rows comes back if and only if it meets that condition. |
| `LongLines.SoftRowsNeedABreak` | exec/fseditor.js:815-1091 | A buffer with a soft row comes back only if a line is broken. |
| `SoftRows.BuffersComeBack` | exec/fseditor.js:815-1091 | Exactly which do: a buffer of printable texts comes back, lines that are broken included, if and only if every hard row survives and every soft row fills the screen with no word beyond the last column, is followed by a word, keeps its attributes, and has behind it so many colour codes, and at its end so many blanks, that going back leads to the beginning of a code. |
| `SoftRows.SoftRowExample` | exec/fseditor.js:948-968 | Such a buffer. |
| `SoftRows.CtrlARowExample` | exec/fseditor.js:836-968 | A soft row that ends in a Ctrl-A and comes back. |
| `PlainLines.EndsUnlessGap` | exec/fseditor.js:948-968 | On a text without colour codes and tabs the loop ends if and only if nowhere a word character is followed by blanks, at least up to the edge of the screen counted from it, and another word character. |
| `PlainLines.EndsUnlessGapRow` | exec/fseditor.js:948-968 | On a text with colour codes, but no tabs, it ends if and only if no row that is read begins with such a gap. |
| `PlainLines.UnbrokenUnlessWide` | exec/fseditor.js:948-968 | No line of a text without colour codes and tabs is broken if and only if no word character has as many characters as the screen has columns ahead of it in its line. |
| `PlainLines.LinesKeepText` | exec/fseditor.js:815-977 | The rows read from such a text are its characters but for line ends, in order and each once, if and only if that is so; else there are more. |
| `PlainLines.NeverEndsExample` | exec/fseditor.js:948-968 | A text on which the loop does not end. |
| `PlainLines.TwiceExample` | exec/fseditor.js:948-968 | A text of which a character comes twice. |
| `ColourRoundTrip.PlainBuffersSurvive` | exec/fseditor.js:815-1091 | Short hard rows in which no light gray character blinks, is bright or has a background meet that condition. |
| `ColourRoundTrip.LossyExample` | exec/fseditor.js:997-1067 | Bright white behind red is read back as plain gray. |
| `LongLines.BrokenRow` | exec/fseditor.js:948-968 | Where a line is broken: behind the last character of the row that is no blank, which is read again, or one character back if all of it is blank, and only then the row is marked. |
| `MessageText.WriteCodes` | exec/fseditor.js:1001-1064 | The chain of tests and appended codes writes the specified codes. |
| `MessageText.MakeStrings` | exec/fseditor.js:988-1091 | The nested loops over lines and characters, with trailing blanks cut at each hard break, write the specified text, and force the last line hard. |
| `MessageText.MakeLine` | exec/fseditor.js:827-973 | The inner loop reads the specified row: its text and attributes, with tabs and codes, and the place and attribute from which the next row is read, also where the line has to be broken. |
| `MessageText.MakeLines` | exec/fseditor.js:815-977 | If the outer loop ends, it has rebuilt exactly the specified rows. |
| `MessageText.SaveThenLoad` | exec/fseditor.js:815-1091 | The two methods run after each other, on any buffer for which the second ends, give a buffer of hard rows back if and only if it survives. |
| `Ofb.DecryptIsIdeal` | exec/hotline.js:393-407 | A context that stands at a stream position under a constant key decrypts what follows as the position-indexed ideal does. |
| `Ofb.RequestInForce` | exec/hotline.js:433-491 | A request for new keys counts for every block that starts at its position or behind it, and for no other. |
| `Rekey.TailsGiveRegister` | exec/hotline.js:409-417 | At a block boundary the exclusive or of the saved tails is the feedback register of the ideal stream. |
| `Rekey.DecryptedFollows` | exec/hotline.js:393-407 | Decrypting any number of bytes before the next key change keeps tails, byte count and context in step with the ideal stream. |
| `Rekey.RekeyedFollows` | exec/hotline.js:419-431 | A change of key at a block boundary keeps the session in step with the ideal stream under the new schedule. |
| `Rekey.RekeyedInsideBlock` | exec/hotline.js:419-431 | Away from a block boundary a change of key does not. |
| `Rekey.RequestFollows` | exec/hotline.js:485-495 | Noting a request for new keys is a change of the ideal schedule from the next boundary on. |
| `HotlineSession.Session.DoDecrypt` | exec/hotline.js:393-407 | Appends to both tails, decrypts, and drops whole blocks: the new fields and the output are those specified. |
| `HotlineSession.Session.DeriveOldKey` | exec/hotline.js:409-417 | The loop gives the exclusive or of the two tails. |
| `HotlineSession.Session.ReadsockBytes` | exec/hotline.js:433-451 | A read of any size returns the next bytes and keeps the session in step, changing keys exactly when the read completes the block, if and only if a read that fires a pending change finds the rest of the block. |
| `HotlineSession.ShortReadExample` | exec/hotline.js:433-451 | A change of key is asked for with one byte left in the stream; after the next read the session is not in step. |
| `HotlineSession.LateByte` | exec/hotline.js:419-451 | The byte behind such a read is decrypted with the first byte of a block of the new key, and is right if and only if that is the byte of the block at hand that the ideal takes. |
| `HotlineSession.GarbledExample` | exec/hotline.js:433-451 | A cipher under which it is wrong, whatever the stream. |
| `HotlineSession.Session.ReadMsg` | exec/hotline.js:458-497 | Reading a message takes just its bytes, or what is left of the stream, decrypted as the ideal has it. If the first byte is not zero, one request is added to the schedule, at the end of its header and for as many rounds as that byte says, and otherwise none; if all of it was there the session is still in step. |
| `HotlineSession.ReadSession` | exec/hotline.js:433-497 | Over a whole session, wherever the stream ends, the plaintext is the ideal decryption under the schedule the stream itself holds; it depends on the stream and the message lengths, not on how reads are cut. |
| `HotlineSession.KeysOfFirstMessage` | exec/hotline.js:393-497 | If the first message of a stream has any number as its flags, the first three blocks are decrypted with the first key, and all bytes from there to the next request with the key that many steps on; the feedback register runs through. |
| `HotlineSession.TwoStepsExample` | exec/hotline.js:419-497 | With 2 as its flags, by which the first byte decrypts to 2, that is the key made of the key made of the first one. |
| `ArticleList.LengthFields` | exec/hotline.js:1394-1394 | The length bytes of a record are where trimming looks for them. |
| `ArticleList.RecordFields` | exec/hotline.js:1394-1394 | A record, field by field: which bytes stand where. |
| `ArticleList.Trim` | exec/hotline.js:1400-1405 | The loop on raw bytes drops just whole records from the front, as many as specified, and lowers the count by their number. |
| `ArticleList.LongestKept` | exec/hotline.js:1400-1405 | A run of latest records fits 65535 bytes with the overhead if and only if at least that many are dropped, so what is kept is the longest that fits. |
| `ArticleList.GetArticleList` | exec/hotline.js:1370-1405 | The list is that run of the listable messages' records, and the count is that of the visible messages less the dropped records. |
| `ArticleList.CountIsRight` | exec/hotline.js:1380-1405 | The announced count is the number of records if and only if every visible message has a record. |
| `ArticleList.NoSubjectExample` | exec/hotline.js:1380-1405 | One visible message without a subject is counted and gets no record. |
| `Network.LinkSplits` | exec/ircd.js:1478-1488 | A link of a server tree splits the servers in two: a server is reached over it from one end exactly if it is not from the other. |
| `Relay.BcastToChannel` | exec/ircd.js:1469-1476 | The loop sends to the specified local members. |
| `Relay.BcastToChannelServers` | exec/ircd.js:1478-1488 | The loop with its map of served servers sends on the specified links. |
| `Relay.LinksServed` | exec/ircd.js:1478-1488 | A link gets exactly one copy if a member is reached over it and the message did not come from there, and none otherwise. |
| `Relay.LocalsServed` | exec/ircd.js:1469-1476 | Each local member but the origin gets exactly one copy. |
| `Relay.ListMessageCopies` | exec/ircd.js:1460-1467 | A message to operators or voiced members goes over a link once for each of them behind it and once more as a message to all does; so it is not duplicated if and only if none is behind it. |
| `RelayRun.StartInv` | exec/ircd.js:1669-1673 | The state after the origin's server relayed satisfies the invariant of runs. |
| `RelayRun.ArriveInv` | exec/ircd.js:1669-1673 | Any packet that arrives anywhere, in any order, keeps it: what is delivered and what is under way add up to one copy for each member. |
| `RelayRun.EveryRun` | exec/ircd.js:1669-1673 | So it holds after every sequence of arrivals. |
| `RelayRun.ExactlyOnce` | exec/ircd.js:1669-1673 | Once no packet is under way every member but the sender has exactly one copy and nobody else has any; before that nobody has two. |
| `RelayRun.RunsEnd` | exec/ircd.js:1669-1673 | No run has more arrivals than there are other servers. |
| `ListRun.BcastToList` | exec/ircd.js:1460-1467 | The loop sends the specified copies to listed local members and on the links of the others. |
| `ListRun.RunBalanced` | exec/ircd.js:1674-1682 | Through every run the copies a listed member has, and those that will come of the packets under way, make up the same number. |
| `ListRun.ListedCopies` | exec/ircd.js:1674-1682 | Once no packet is under way, each listed member but the sender has as many copies as the product, along its way, of the copies each server puts on the next link; another member has none. |
| `ListRun.NobodyUnlisted` | exec/ircd.js:1460-1467 | At no time does anybody else get one. |
| `ListRun.ListRunsEnd` | exec/ircd.js:1674-1682 | Every run ends. |
| `ListRun.CopiesDouble` | exec/ircd.js:1674-1682 | Each link on the way at least doubles the copies: a listed member d links away gets at least two to the power d. |
| `ListRun.OperatorExample` | exec/ircd.js:1674-1682 | An operator on the next server gets two copies. |
| `LineQueue.CutConcat` | exec/ircd.js:1064-1080 | Cutting lines from a stream gives the same whether it comes in one piece or two. |
| `LineQueue.CutWire` | exec/ircd.js:1064-1080 | The lines that were joined are the lines cut if and only if none holds a line feed. |
| `LineQueue.Queue.Send` | exec/ircd.js:1082-1115 | Bytes taken, bytes kept and queued lines add up to all lines added, if and only if it is not the case that a socket that does not count failed after taking less than all. |
| `LineQueue.Queue.Recv` | exec/ircd.js:1064-1080 | Appends just the complete lines of residue and new bytes to the queue and keeps the rest. |
| `LineQueue.Queue.Del` | exec/ircd.js:1125-1127 | Takes the first line off the queue, or none if it is empty. |
| `LineQueue.FailedSendExample` | exec/ircd.js:1082-1115 | The end of a line, which is neither taken nor kept. |
| `LineQueue.LinesArriveInOrder` | exec/ircd.js:1064-1127 | For any partial sends and any chunks received the receiver has a prefix of the lines added, in order, with no line feed in the residue, and all of them once all bytes have come. |
| `UserModes.Request.TweakMode` | exec/ircd.js:2876-2884 | A flag is put on one list and taken off the other. |
| `UserModes.Client.ReadModes` | exec/ircd.js:2892-2949 | The request holds a flag with a sign if and only if the last occurrence of the flag that the client may ask for has that sign. |
| `UserModes.Client.SetUserMode` | exec/ircd.js:2892-2989 | New mode, message to the client, message to other servers, result and complaint about unknown letters, from the last accepted signs; the new mode is the one `UserModes.WhoMayChange` says. |
| `UserModes.WhoMayChange` | exec/ircd.js:2892-2949 | A flag is set afterwards if and only if it was and stays, or its last mention sets it, where i, w, s, k and g are anybody's, b, r, f, y, d and n an operator's, c an operator's whose operator line allows it, A an administrator's or anybody's behind a hub; o is gained behind a hub only, and may always be given up; no other flag ever changes. |
| `UserModes.PassedOnWhich` | exec/ircd.js:2950-2989 | Other servers are told nothing if no flag changed, and else just which of o, i, h and A did. |
| `UserModes.ReportExample` | exec/ircd.js:2950-2980 | The order in which flags are reported. |
| `UserModes.OneSign` | exec/ircd.js:2876-2884 | No flag is asked for with both signs. |
| `UserModes.ReportIsTheChange` | exec/ircd.js:2950-2989 | Replaying the report on the old mode gives the new mode, and the report names exactly the flags that changed. |
| `UserModes.ReportReplays` | exec/ircd.js:2967-2980 | On any mode, replaying a report makes just the change it reports. |
| `UserModes.ReportAsks` | exec/ircd.js:2892-2949 | Read as a request by another server's copy, a report asks for just those of its changes that the copy may make. |
| `UserModes.CopyFollows` | exec/load/ircd_server.js:398-404 | A copy that agreed on the broadcast flags agrees again after the report if and only if it may make every change in it; it then passes the same report on. |
| `UserModes.ModesReachEveryServer` | exec/load/ircd_server.js:398-404 | Along any path of servers that heard of the client from hubs, every copy agrees with the client on the broadcast flags. |
| `ConfSplit.FancySplit` | exec/ircd.js:766-801 | The loop returns the fields of the specified scan; a field never reaches back over the colon it began behind. |
| `ConfSplit.RoundTrip` | exec/ircd.js:766-801 | Fields written with or without brackets and joined by colons are returned if and only if no bracketed one holds "]:", no bare one holds a colon, begins with '[' or ends with ']', and the last is not bare and empty. |
| `BanMasks.CreateBanMask` | exec/ircd.js:526-582 | The character loop, the filling in of parts and the repeated replacement of double stars make the specified mask. |
| `BanMasks.CollapseStars` | exec/ircd.js:578-580 | Replacing pairs of stars until there is none makes each run of stars one star. |
| `BanMasks.OneStar` | exec/ircd.js:578-580 | Two stars next to each other make the same mask as one. |
| `BanMasks.NormalForm` | exec/ircd.js:526-582 | A mask is left alone if and only if it is normal: its parts with their separators, not empty, of allowed characters, bounded and without a double star; and whatever is made is left alone. |
| `BanMasks.ThreeParts` | exec/ircd.js:526-582 | nick!user@host becomes its three parts, trimmed. |
| `BanMasks.UserAndHost` | exec/ircd.js:541-548 | user@host gets a star for the nick. |
| `BanMasks.HostOrNick` | exec/ircd.js:554-566 | One part alone is a host if it has a dot in it, else a nick. |
| `BanMasks.KlineParts` | exec/ircd.js:526-582 | The same for the two parts of a k-line. |
| `BanMasks.AllowedTable` | exec/ircd.js:533-536 | Which characters belong to a part. |
| `BanMasks.PlainMask` | exec/ircd.js:574-577 | Of nick, user and host the first 30, 10 and 80 characters are kept. |
| `BanMasks.NoMask` | exec/ircd.js:552-553 | Zero is returned if and only if there is no allowed character and, unless for a k-line, no '@' ahead of every '!'. |
| `SeenCodec.Folder.Binify` | exec/imapservice.js:1362-1419 | The bit strings are exactly the maximal runs of two or more set flags at most 32 apart, each of at most 4(k-1)+1 bytes for k numbers; what is left in the object are exactly the flags that stand alone; no bit string at all is reported as none. |
| `SeenCodec.LeftOver` | exec/imapservice.js:1362-1419 | What is left over are just the numbers with no other number within 32 of them. |
| `SeenCodec.PackingLossless` | exec/imapservice.js:1362-1419 | In such a packing every number is in the left-overs or in a bit string, and none is in both. |
| `SeenCodec.PackingUnique` | exec/imapservice.js:1362-1419 | A set has only one packing. |
| `SeenCodec.Folder.Load` | exec/imapservice.js:2278-2296 | The loops over bit strings, bytes and bits set just the flags the strings hold. |
| `SeenCodec.StoreAndLoad` | exec/imapservice.js:1362-1419 | Storing and loading gives the flags that were set. |
| `SeenBits.HoldsBit` | exec/imapservice.js:1370-1405 | A number is in a bit string if the byte it falls into, shifted down by the rest, is odd. |
| `ImapText.Reader.ReadArgs` | exec/imapservice.js:678-760 | The recursive loop over the shared line reads the specified arguments, leaves the specified rest of line and stream, and ends since every round and every call uses up input. |
| `ImapText.Reader.ParseAtom` | exec/imapservice.js:686-703 | Takes the text up to a space, which it drops, or a closing parenthesis, which it leaves. |
| `ImapText.Reader.ParseQuotedString` | exec/imapservice.js:717-733 | Takes the text up to the next double quote. |
| `ImapText.Reader.ParseString` | exec/imapservice.js:705-715 | Takes a literal's characters and the line behind them from the stream. |
| `ImapText.DecimalMeaning` | exec/imapservice.js:41-44 | The length written for a literal is the length read. |
| `ImapText.WrittenAs` | exec/imapservice.js:41-67 | Which strings are written bare, which in quotes, and which as a literal. |
| `ImapText.EscapedParts` | exec/imapservice.js:46-57 | In quotes just quotes and backslashes get a backslash. |
| `ImapRoundTrip.ReadToken` | exec/imapservice.js:46-67 | A string written as atom, quoted string or literal is read back, with nothing lost behind it, if it needs no escape inside quotes; else what is read is not that string. |
| `ImapRoundTrip.RoundTrip` | exec/imapservice.js:678-760 | For all nested lists of any strings, literals included, reading what was written gives the same tree and stops at the byte behind the command, if and only if no leaf is a quoted string with a double quote or backslash. |
| `ImapRoundTrip.EscapeExample` | exec/imapservice.js:46-57 | What is read for the shortest strings that do not come back. |
| `SeqSets.ReadIndex` | exec/imapservice.js:1290-1323 | The index lists the visible messages in order, each entry says where its number stands and whether it was seen, and flags of messages that are gone are forgotten. |
| `SeqSets.ListedWhich` | exec/imapservice.js:1303-1321 | The messages that are there are listed in order, in the mail base just those to the user. |
| `SeqSets.EntryMeans` | exec/imapservice.js:1303-1321 | There is an entry for just the numbers listed; it is about the last message with its number, and says where that is, whom it is to, and whether it was read: as the message says in the mail base, and elsewhere as the flags say. |
| `SeqSets.InverseIfDistinct` | exec/imapservice.js:1299-1321 | Numbers and positions are each other's inverse if and only if no number is listed twice. |
| `SeqSets.ParseSeqSet` | exec/imapservice.js:583-629 | For any text the result is strictly increasing and holds exactly the indexed messages in one of the ranges. |
| `SeqSets.NumberRead` | exec/imapservice.js:583-629 | A bound is read as a number if it is blanks, perhaps a sign, and digits, whatever follows. |
| `SeqSets.NoNumber` | exec/imapservice.js:583-629 | Without a digit there the range stands for nothing. |
| `SeqSets.SetSelects` | exec/imapservice.js:583-629 | For a set written as RFC 3501 has it, '*' and reversed ranges included, those are exactly the messages whose UID or sequence number a range covers. |
| `FlowFiles.RereadFindsUnsent` | exec/binkit.js:553-586 | Reading a rewritten flow file finds exactly the names that were not sent, whatever the file looks like. |
| `FlowFiles.RereadInOrder` | exec/binkit.js:553-586 | Without empty lines, in order and with repetitions. |
| `FlowFiles.CalloutsCompose` | exec/binkit.js:529-596 | Two callouts one after the other leave a flow file as one that sent both lots. |
| `FlowFiles.NothingLost` | exec/binkit.js:241-266 | The unsent names of all lines are asked for again if and only if each is listed ahead of the first empty line. |
| `FlowFiles.LostExample` | exec/binkit.js:241-266 | A flow file that is removed with an unsent entry in it. |
| `FlowFiles.ListedNames` | exec/binkit.js:241-266 | A name is listed if and only if some line ahead of the first empty one bears it, behind a mark or alone, and was not dealt with before. |
| `FlowCallout.Callout.ReadFlow` | exec/binkit.js:233-267 | Lists the names of a flow file and notes the last action asked for each file that is there. |
| `FlowCallout.Callout.TxCallback` | exec/binkit.js:347-360 | Crosses a sent file off every list of a file that is there, and removes the flow files left with nothing. |
| `FlowCallout.Callout.CalloutDone` | exec/binkit.js:529-596 | Sent files to be deleted are gone, flow files with an empty list are gone, the others are rewritten, nothing else changed. |
| `FlowCallout.Run` | exec/binkit.js:233-596 | A whole callout, for any flow files and any list of sent paths, ends in the state given by the files, the actions and the set of sent paths alone; each file has the fate of `FlowCallout.FileFates`, and no file is new. |
| `FlowCallout.LastMarkDecides` | exec/binkit.js:241-266 | A file is to be deleted if and only if, of all lines of all flow files in the order in which they are read, each up to its first empty line, the last that names it behind a '#', '^' or '-' begins with '^' or '-'. |
| `FlowCallout.FileFates` | exec/binkit.js:347-596 | A file is gone if it was sent and that is so; a flow file is gone, too, if it names nothing that was not sent, and else each of its lines is as it was, if it was dealt with before or its name is still to be sent, and otherwise its name behind a '~'; any other file is unchanged. |
| `FlowCallout.TruncateExample` | exec/binkit.js:535-543 | A sent file that was to be truncated is as it was. |
| `CalloutOrder.OrderIsTotal` | exec/binkit.js:715-737 | The order of flow files is strict and total on different names. |
| `CalloutOrder.FlavoursInOrder` | exec/binkit.js:715-722 | Immediate before crash, before direct, before out, before flow, before hold, in either case. |
| `CalloutOrder.KindsInOrder` | exec/binkit.js:724-729 | Of one flavour, netmail before flow files. |
| `CalloutOrder.OthersFirst` | exec/binkit.js:715-729 | Any other flavour or kind before those. |
| `CalloutOrder.NamesInOrder` | exec/binkit.js:731-735 | Of one flavour and kind, by the first character in which the names differ. |
| `CalloutOrder.OneSortedListing` | exec/binkit.js:742-742 | So a directory has just one listing sorted by it, however it is sorted. |
| `CalloutOrder.FindReady` | exec/binkit.js:744-791 | The inner loop finds the first file that may be called for, or that there is none. |
| `CalloutOrder.ReadyMeans` | exec/binkit.js:744-791 | A file may be called for if and only if it is in its place, of a calling flavour, its address was not called and is not held, and its flow can be locked. |
| `CalloutOrder.Mailer.RunOneOutboundDir` | exec/binkit.js:701-811 | Every call is for the first file that was ready in its round; the loop ends, with no file ready unless it was stopped; the record of called addresses grows by just those called. |
| `CalloutOrder.CallsAtMostOnce` | exec/binkit.js:701-811 | No address is called twice or again, and only files in their place and of a calling flavour, never hold, are called for. |
| `CalloutOrder.CallsInOrder` | exec/binkit.js:701-811 | While locks and holds do not change, calls go strictly down the sorted listing. |
| `CalloutOrder.EveryoneCalled` | exec/binkit.js:701-811 | Then exactly the addresses with a file that was ready at the start are called. |
| `CalloutOrder.RunOutbound` | exec/binkit.js:701-811 | Over all outbound directories no address is called twice. |
| `WrapScreen.Screen.PrintLine` | exec/irc.js:1188-1223 | The loop that goes back to the last space ends; each row is printed behind the codes the scan had come by when the row above was broken, and kept on the screen behind those of the row below. |
| `WrapScreen.LatestRows` | exec/irc.js:1203-1222 | The rows that are kept scroll the oldest ones off: as many as there were remain, the latest. |
| `WrapColours.KeptAsPrinted` | exec/irc.js:1203-1212 | The screen keeps the rows as they were printed if and only if there is no colour code ahead of the place at which the scan broke the last row. |
| `WrapPaint.RowStartsAhead` | exec/irc.js:1191-1212 | Every row starts in the colour the line has at the place the scan had come to when it broke the row above. |
| `WrapPaint.ColoursAhead` | exec/irc.js:1191-1212 | A character shows in its colour in the line if and only if the codes between it and that place choose nothing new, but for what a code of its row overrides. |
| `WrapPaint.NoCodesAhead` | exec/irc.js:1191-1212 | So it does where the scan came by no code between the break and that place. |
| `WrapExamples.UnbrokenExample` | exec/irc.js:1188-1223 | Ninety characters that begin with a colour code, whose letter shows. |
| `WrapExamples.KeptExample` | exec/irc.js:1203-1208 | A line whose rows are not kept as they were printed. |
| `WrapExamples.ColourExample` | exec/irc.js:1191-1212 | A character that shows in the colour of a code behind it. |
| `WordWrap.RowsGiveLine` | exec/irc.js:1188-1223 | The rows one after the other are the line. |
| `WordWrap.RowsFit` | exec/irc.js:1188-1223 | Every row shows at most 79 characters; every row but the last, and but for a lone first character, ends at a space or is full and without one. |
| `WordWrap.RowsAreFull` | exec/irc.js:1188-1223 | A line of up to 78 characters is one row. Of a longer one no row is broken early: what follows did not fit behind it, and has no space to break at ahead of the last column; but for a lone first character. |
| `WordWrap.LoneCharacter` | exec/irc.js:1188-1223 | The first character, a space included, gets a row of its own if and only if the first row's text has no space behind it. |
| `WordWrap.CodesStayWhole` | exec/irc.js:1188-1223 | The rows show just the text the line shows, unless the line begins with a colour code and has no space to break at. |
| `IrcCommands.SendCmd` | exec/irc.js:191-226 | The text is the command and its words, with the colon ahead of a last parameter of several words; none for an unknown command or too few words. |
| `IrcCommands.RefusedIff` | exec/irc.js:191-221 | A command is refused if and only if it is not in the table or has fewer words than it needs. |
| `IrcCommands.GetCommand` | exec/irc.js:554-595 | Tag, prefix, command and parameters as specified; none for an empty line. |
| `IrcCommands.CommandArrives` | exec/irc.js:191-226 | Of any command of the table and any words: the receiver gets the command, the first parameters and the remaining words as one, if and only if no word begins with a colon and the last parameter is not an empty word. |
| `IrcCommands.BareCommandArrives` | exec/irc.js:191-226 | So does a command that is sent without words. |
| `IrcCommands.RelayedLine` | exec/irc.js:568-595 | A tag and a prefix put before a line are read off it and leave the rest as it is. |
| `IrcCommands.LoneMark` | exec/irc.js:559-566 | A tag or prefix that is all of a line loses its last character. |
| `IrcCommands.SmileyExample` | exec/irc.js:191-201 | A message that loses a character. |

## Left out

- Drawing, menus, prompts and key handling; sockets, files, message bases and ini files but for what the models say; base64; locks and busy files.
- `Line.firstchar`, `Line.selected` and what `rewrap` redraws: they do not change the document.
- Editor.Buffer: a line's text holds no line ends, and an attribute is a record of its four fields instead of a byte.
- MessageText.MakeLines: requires a text on which the loop ends, since it has no result on another; without an attribute string, and with every line feed a hard break. `make_strings` without colours is not modelled.
- PlainLines.EndsUnlessGapRow: on texts with tabs, where going back can lead ahead of the row, nothing is stated about when the loop ends but that it does where no line is broken.
- PlainLines.LinesKeepText: carriage returns are taken to stand at line ends only.
- SoftRows.BuffersComeBack: requires texts without control characters; buffers of hard rows with any texts are covered by `LongLines.SaveAndLoadLines`, and of soft rows that hold a Ctrl-A only `SoftRows.CtrlARowExample` is shown.
- The block cipher and the keyed hash of `hotline.js` are parameters; a receive that returns null, and sessions without encryption, are not modelled.
- HotlineSession.Session.ReadMsg: how many bytes its parameters take is given, since the model does not decode them.
- ArticleList.Trim: requires the overhead alone to fit, because otherwise the loop has no end; integers are encoded at their fixed width and are not read back.
- RelayRun.ExactlyOnce: requires the servers to agree on the membership and to form a tree; permission checks of `do_msg` are taken to agree too. Users and links are named by numbers. The receiving side is the one of `exec/load/ircd_server.js:682-695`.
- LineQueue.Queue: `Queue_Prepend` and the cap of one receive at 65536 bytes are not modelled; a chunk may have any size.
- UserModes.Client: mode bits are a set of letters, since every letter has a bit of its own; the operator line's permissions are two flags; how a client becomes an operator is not modelled.
- BanMasks: matching masks against users (`wildmatch`) is not part of this model.
- SeenCodec.Folder: keys are the numbers the object's properties stand for, and their order is found by a selection loop in place of the host's sort; when the flags are stored is not modelled.
- ImapText.Reader.ParseString: does not model the host's limit of 10240 characters for a received line, short reads or leading zeros; a '{' that does not begin a literal at the end of the line gives no result, since what the host then receives is not determined by the script.
- SeqSets.ParseSeqSet: the host's sort is an insertion sort; that a message base gives different numbers to different messages is an assumption of `SeqSets.SetSelects` only.
- `SeqSets.ParseSeqSet` takes '*' in a UID set to be the base's last message number, as the code does, also where RFC 3501 would have the highest number in the mailbox.
- FlowCallout.Callout: lines of more than 2048 characters, bundles, request files and outboxes are not modelled; a file that exists can be opened, and nobody else changes files during a callout.
- FlowCallout.Callout.CalloutDone: the truncation of a sent file is modelled as what it is in the host, nothing.
- CalloutOrder.Mailer: the names of addresses, lock files and holds are given by functions, which may answer differently in every round; `run_one_outbox_dir` does not consult the record of calls and is left out.
- WrapScreen.Screen.PrintLine: bold and mIRC colours are already replaced. What one colour code chooses is a parameter of `WrapPaint.ColoursAhead`.
- WrapPaint.ColoursAhead: requires that no code is cut in two, since a line whose first code is cut shows other text.
- ListRun.ListedCopies: requires what `RelayRun.ExactlyOnce` does.
- IrcCommands.SendCmd: the command is given in upper case.
- Join, quit and server handlers of the IRC daemon, nick checks, and the remaining IMAP commands would add easy members or depend on code not modelled here.
