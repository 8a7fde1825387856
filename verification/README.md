# DDRDesk host: a verified model

DDRDesk streams a desktop to a phone. The host reads the FLV output of a screen
recorder from a FIFO, cuts it into H.264 access units in Annex-B form, passes
them through a queue of four to the client's session, and sends each as a
length-prefixed frame over TLS. In the other direction it turns frames from the
client into key and pointer events. Around that are a limiter for wrong ids, a
STUN query, and the choice of display mode and encoder size.

This project models that code in Dafny and proves what it guarantees. Where a
guarantee does not hold, it proves exactly when it does and gives a run or an
input that breaks it.

## Layout

| file | content |
|---|---|
| `Bytes.dfy`, `Wrappers.dfy` | bytes, big-endian integers, Option |
| `AnnexB.dfy` | start codes, and a client's reader for them (H.264, annex B) |
| `FlvUnits.dfy`, `FlvTags.dfy`, `Flv.dfy` | the demuxer: its two length-prefixed formats, the fold over tags, and the class |
| `ByteStream.dfy`, `Framing.dfy`, `FrameReader.dfy` | streams, the wire format, and the reading side of the session loop |
| `MediaPath.dfy` | encoder to client, nothing dropped |
| `CaptureProtocol.dfy`, `Shutdown.dfy`, `Delivery.dfy` | recorder, reader thread, queue, session and `stop`, in any interleaving; what the client sees of it |
| `LoopSpec.dfy`, `CaptureThread.dfy`, `CaptureTurns.dfy` | what the loop of the reader thread should do, the loop and `stop` as methods, and the runs of the state machine they are |
| `RateLimit.dfy` | the limiter |
| `Keyboard.dfy`, `Reports.dfy`, `Typing.dfy`, `HeldKeys.dfy` | key events in reports, and typing read back by a reference desktop, with no key or any keys held before |
| `Editor.dfy`, `KeyNames.dfy`, `WordKeys.dfy` | a second desktop, with a caret, and keys by name |
| `Pointer.dfy`, `Injector.dfy` | the pointer, and the class that emits the events |
| `Stun.dfy`, `Display.dfy` | the STUN scan; sizes, modes, scales, saving and restoring |
| `Numbers.dfy` | the constants of the code, by what they come to |

State that the original updates in place is a class here (`FlvH264`,
`ByteReader`, `ByteWriter`, `Channel`, `Capture`, `RateLimiter`, `Injector`),
and each of its methods is proved against functions on values. The functions
are then related to definitions that do not follow the code: an encoder, a
client's reader, a list of tags, a desktop, windows of time.

## Main results

- **Encoder to client** (`MediaPath.ClientShowsTheStream`). For every FLV stream
  an encoder can write, behind any 13 bytes of header, wherever the stream is
  cut in its last tag and wherever the connection breaks, the client shows
  exactly the first pictures of the stream: non-empty NAL units in order, key
  pictures behind the latest parameter sets, key flag, time stamp in
  microseconds. They are those that lie within the bytes that arrived and come
  before one that is too large for a frame. Over an unbroken connection it shows the whole stream exactly
  if the header has the signature and every picture fits into a frame, or there
  is no picture (`MediaPath.WholeStreamIff`).
- **Live sessions** (`Delivery.ClientSeesSelection`). The same in every state of
  every run of recorder, reader thread, queue and session: the client shows, in
  order, the first of the pictures that were kept. Key pictures are always kept,
  and any other is dropped only while the queue holds four. The loop of the
  reader thread, as a method, has just the log and the end that the stream, the
  schedule of the other threads and the queue determine
  (`CaptureThread.ReadLoop`, `LoopSpec.LoopIsDetermined`), and leaves a state of
  such a run; so does `stop` (`CaptureThread.StopIsARun`).
- **`stop`** (`Shutdown.StopReturnsIff`). Once `stop` waits for the reader thread,
  every run is over within five steps. `stop` has returned then exactly if the
  reader is past opening the FIFO and has no key picture for a full queue. The
  session that waits still owns the receiver, so otherwise it waits forever.
  Both ways of hanging are reached from a fresh session
  (`Shutdown.EarlyStopBlocks`, `Shutdown.FullQueueBlocks`).
- **Frame alignment** (`FrameReader.AlignedIffNothingTaken`). The session loop
  drops an unfinished `read_frame` whenever the other branch of its `select!`
  wins. A run stays on frame boundaries exactly if no dropped read had taken a
  byte; `FrameReader.MisalignedRun` is a run that loses a good ping and ends the
  session.
- **Rate** (`RateLimit.RateBound`). One address gets at most
  8 * ceil(T / 30 s) + 7 detailed answers in any closed interval of length T, so
  15 in 30 seconds, as long as none of its windows holds 2^32 calls at a call in
  that interval. For larger windows the bound fails: it holds of all runs whose
  largest window is w exactly if w is below 2^32 (`RateLimit.PromiseKeptIff`),
  and otherwise with what that window allows in place of 8.
  `RateLimit.RateBoundReached` reaches it for every multiple of 30 seconds up to
  the thirty-billionth. Pruning is invisible and addresses do not influence each
  other (`RateLimit.AnswersAreOwn`).
- **Typing** (`Typing.TextRoundTrip`). With no key held, a reference desktop reads
  the emitted key events back as the text, for every Unicode text, and no key
  stays held. The desktop reads reports: it sees nothing before the
  synchronisation event that closes one, and no key that goes down and up within
  one. For any keys held before, `HeldKeys` says exactly when a character still
  comes out. On a second desktop, with a caret, `WordKeys` says what each word
  that names a key does.

## Where a guarantee is conditional

- `write_frame` does not check the size; the reader's limit is on type and
  payload together. A frame is read back exactly if 1 + payload is at most
  8 MiB. `PROTOCOL.md` line 22 puts the limit on the payload alone; the model
  follows the code. A picture that is too large ends the client's reading
  (`MediaPath.LargePictureIsLost`).
- The limiter counts the calls of a window in 32 bits, and an optimised build
  wraps around. "Denied if and only if eight earlier calls lie in the window"
  holds of a call exactly if its window holds at most eight calls, or a number
  of calls that is above eight modulo 2^32 (`RateLimit.DeniedIff`).
  `RateLimit.CountWraps` is a window whose 2^32nd call is allowed again, and
  `RateLimit.OverrunBreaksBound` is, for every larger size, a run with a window of
  that size and more than 15 allowed calls in 30 seconds. Calls that all come at
  one instant keep to 15 exactly while there are fewer than 2^32 + 7
  (`RateLimit.FloodKeepsBoundIff`).
- The limiter's table gives an IPv4 address the budget of the IPv6 address of the
  same bits. The listener binds an IPv4 address (src/net.rs:61), so the program
  as it is never sees an IPv6 peer.
- `move_rel` adds in 32 bits. A move goes where it should exactly if the sum
  does not overflow (`Pointer.MoveIsRightIff`); `Pointer.OverflowingMove` is a move
  to the right that ends at the left edge.
- Beside held keys a plain character is typed correctly exactly if its key is
  up, no command modifier is held, and Shift is not held against it
  (`HeldKeys.StrokeTypedIff`); Enter, Tab and Backspace exactly if their key is
  up and no command modifier is held (`HeldKeys.ControlTypedIff`); a composed
  character exactly if U, Enter and the keys of its digits are up, where NUL
  does not need its digit (`HeldKeys.ComposeTypedIff`).
- A name of one character presses the key of that character without Shift. So it
  types the character exactly if its key is up, no command modifier is held, and
  Shift is held just when the character needs it, which a space never does
  (`KeyNames.OneCharNameTypesIff`). Any name that begins with a character of the
  layout is known, so a function key presses F (`KeyNames.NameKnownIff`).
- A session reads the display once for its search and again for the copy it
  saves, and ignores a failure of the second reading. A restore goes by the copy
  that was read first, or else by the file of an earlier process. It brings back
  the user's display exactly if no session or restore had set another one before
  the copy was read; when no copy was read, exactly if the file holds that
  display, or there is no file and no other display was set
  (`Display.RestoreBringsBack`). `Display.UnsavedChangeIsLost` and
  `Display.OldFileIsRestored` are runs that lose it. The copy stays, so a restore
  also undoes what the user set between two later sessions.

## Assumptions

- A FIFO delivers the bytes written to it in order; its buffer has no bound.
  The recorder writes arbitrary bytes, may exit at any time, and can be killed.
- A step of the reader that demuxes one access unit is atomic. Bytes that a
  pending read has buffered are visible to nobody else.
- Instants are nanoseconds of a monotonic clock.
- The reference desktops are part of this project. Both read events in reports
  and are deaf to a key that is already down. One collects text: a US layout, and
  code points composed from hexadecimal digits between Ctrl+Shift+U and Enter.
  The other has lines, a caret and a menu, but no selection.
- The sides of a fitted size may be computed with any error below one pixel, and
  without an error when nothing is scaled; 32-bit floats on 32-bit sizes do
  better. Steps and scores are reals, or any real number the machine comes to.

## Model

| member | source | states |
|---|---|---|
| AnnexB.SplitRecoversIff | src/flv.rs:161-163 | a client that splits the emitted stream at start codes gets back the list of NAL units exactly when none holds 00 00 00 or 00 00 01 and none but the last ends in zero |
| AnnexB.SplitRecoversNals | src/flv.rs:161-163 | NAL units that meet section 7.4.1 of H.264 are recovered from the emitted stream |
| AnnexB.StreamDeterminesNals | src/flv.rs:161-163 | two lists of conforming NAL units with the same stream are equal |
| FlvUnits.ReadUnitsInverts | src/flv.rs:149-165 | reading a length-prefixed encoding, of width 1 to 4 and with a residue shorter than a length field, gives the encoded list, empty members included |
| FlvUnits.AcceptedIffLengthPrefixed | src/flv.rs:149-165 | a picture body is accepted exactly when it is such an encoding |
| FlvUnits.GrowthBound | src/flv.rs:145-166 | with width L the output is at most 5/(L+1) times the accepted input; for L = 4 it never exceeds it |
| FlvUnits.GrowthReached | src/flv.rs:145-166 | one-byte NAL units reach the growth bound, for any number of them |
| FlvUnits.ConfigRoundTrip | src/flv.rs:104-142 | reading a configuration record gives back its SPS and PPS lists, for all lists the count and length fields can hold and whatever follows |
| FlvUnits.ConfigAcceptedIff | src/flv.rs:104-142 | a record is accepted with given parameter sets exactly when it encodes them, or encodes the SPS list and ends there |
| FlvTags.CutTagInverts | src/flv.rs:44-59 | cutting the first tag off written bytes gives the tag and the rest, the time stamp with its high byte last included |
| FlvTags.CutTagDecomposes | src/flv.rs:44-59 | a tag that is cut off takes exactly 11 + data + 4 bytes, and they are its encoding |
| FlvTags.DemuxIsFold | src/flv.rs:34-97 | demuxing the bytes of a tag list is the fold over the tags; a short header afterwards is the end, a short body an error, and a malformed tag stops it |
| FlvTags.EveryStreamIsTags | src/flv.rs:44-59 | every byte string is the encoding of a tag list and an incomplete tag, so the fold describes every run |
| FlvTags.NextAuExtends | src/flv.rs:34-42 | an access unit or an error found in the data is found again when more data follows, with the same rest and state |
| FlvTags.WholeIff | src/flv.rs:44-59 | a tag is taken exactly if its eleven bytes of header, the bytes its length field counts, and four more are there |
| FlvTags.MalformedPictureEnds | src/flv.rs:85 | a picture body is refused exactly if it is no length-prefixed list with a short residue, and ends the run as malformed |
| FlvTags.MalformedRecordEnds | src/flv.rs:104-142 | a record is refused exactly if it is shorter than seven bytes or encodes no parameter sets, and ends the run; the sets stay, and a width it gives is kept |
| Flv.AvccToAnnexb | src/flv.rs:145-166 | appends start code and NAL unit for every non-empty unit of the body; fails on a truncated unit after the complete ones, and on a width outside 1 to 4 without output |
| Flv.FlvH264.constructor | src/flv.rs:19-32 | no parameter sets, length fields of four bytes |
| Flv.FlvH264.TakeSetsFrom | src/flv.rs:108-120 | the loop over a parameter-set list appends exactly the sets the record holds and stops behind them, or reports truncation |
| Flv.FlvH264.ParseAvcc | src/flv.rs:99-142 | a complete record replaces the parameter sets; a truncated one changes the length width only; a record under seven bytes changes nothing |
| Flv.FlvH264.ReadTag | src/flv.rs:44-97 | consumes one tag and has its effect on the state; a short header is the end, a short body an error, and the length width stays within 1 to 4 |
| Flv.FlvH264.HandleTag | src/flv.rs:61-96 | audio, script, non-AVC and short tags change nothing; configuration and picture tags have their effect |
| Flv.FlvH264.NextUnit | src/flv.rs:34-42 | returns the next access unit of the stream, or its end, or an error, and leaves the stream behind it; terminates on every input |
| Flv.SkipFlvHeader | src/flv.rs:168-175 | succeeds exactly on 13 bytes that start with the signature, and then stands behind them |
| Framing.FrameRoundTripIff | src/proto.rs:126-145 | a written frame is read back as itself exactly when 1 + payload is at most the frame limit, for payloads of any size |
| Framing.DecodedWasWritten | src/proto.rs:126-136 | a frame that is read fits the limit, and its encoding is what was consumed |
| Framing.DecodeAllInverts | src/proto.rs:126-145 | a list of fitting frames, written one after the other, is read back as that list |
| Framing.PrefixDecodes | src/proto.rs:126-145 | of any prefix of such a stream exactly the frames that lie within it are read, and then the end of the data is met, never a bad length |
| Framing.BrokenStream | src/proto.rs:126-145 | of any prefix of a stream of frames of any size below 4 GiB exactly the frames are read that lie within it and come before one that is too large |
| Framing.ReadFrame | src/proto.rs:126-136 | returns the first frame and stands behind it; an error on a zero or excessive length and on missing bytes |
| Framing.WriteFrame | src/proto.rs:138-145 | appends the encoding of the frame, its length cut to 32 bits, and succeeds exactly if the stream takes all of it and flushes; otherwise the stream holds the beginning that it took |
| Framing.VideoPayload | src/proto.rs:147-153 | builds a payload that the parser reads back as the flags, time stamp and data |
| Framing.VideoRoundTrip | src/proto.rs:147-163 | a payload is parsed back exactly when the time stamp fits 64 bits |
| Framing.ParsedVideoWasWritten | src/proto.rs:156-163 | whatever the parser accepts is the encoding of what it returns |
| FrameReader.CleanRunDelivers | src/net.rs:193-276 | while no abandoned read has taken a byte, the loop has delivered the first frames sent and stands right behind them, and it closes only after the last or because a frame told it to |
| FrameReader.AlignedIffNothingTaken | src/net.rs:193-220 | a run of the loop stays on frame boundaries exactly when no abandoned read had taken a byte |
| FrameReader.MisalignedRun | src/net.rs:213-220 | a read abandoned after the length field makes the loop refuse a good ping and end |
| MediaPath.ItemEffect | src/flv.rs:61-96 | a configuration or picture tag as an encoder writes it has the effect the encoder means |
| MediaPath.FoldGivesExpected | src/flv.rs:34-97 | the access units of an encoder's stream are its pictures in start-code form: empty NAL units left out, key pictures behind the latest parameter sets, nothing for an empty picture |
| MediaPath.ClientSeesPictures | src/net.rs:198-200 | the frames made of pictures, once read, are shown as these pictures |
| MediaPath.ClientShowsTheStream | src/net.rs:193-212 | from FLV bytes to the client, with any header, the stream cut in its last tag and the connection broken anywhere: exactly those first pictures whose frames lie within the bytes that arrived and come before one that is too large; none if the signature is missing |
| MediaPath.OnePictureShownIff | src/proto.rs:126-145 | a stream of one key picture of one NAL unit is shown exactly if that unit and 14 bytes fit into a frame |
| MediaPath.LargePictureIsLost | src/proto.rs:126-145 | a key picture whose one NAL unit is as large as a frame may be is never shown |
| MediaPath.WholeStreamIff | src/capture.rs:224-231 | over an unbroken connection the client shows every expected picture exactly if there is none, or the signature is there and every picture fits into a frame |
| CaptureProtocol.RunKeepsInv | src/capture.rs:217-264 | in every state of every run the queue holds at most four, what it took is shown, in hand or queued in that order, key pictures are kept, others dropped only when it is full, and the reader stands behind exactly what it tried to send |
| CaptureProtocol.ReachesDemux | src/capture.rs:229-231 | what the reader has demuxed so far is a beginning of what the data holds |
| CaptureProtocol.ReachesExtends | src/capture.rs:229-231 | bytes that arrive later do not change what was demuxed before |
| CaptureProtocol.SendKeepsQueueInv | src/capture.rs:240-245 | a blocking send of a key picture and a non-blocking send of any other keep the account of the queue |
| Shutdown.ReaderStepNearsEnd | src/capture.rs:229-262 | after the flag, the kill and the close, every step of the reader lowers its rank and leaves the verdict on blocking unchanged |
| Shutdown.StopReturnsIff | src/capture.rs:103-115 | from the join on every run ends within five steps, and `stop` has returned exactly when the reader was not opening the FIFO and had no key picture for a full queue with a live receiver; otherwise it returns in no run |
| Shutdown.SessionBlocksIff | src/net.rs:179-282 | in a session the receiver is alive at the join, so opening, or a full queue and a key picture due, decide alone |
| Shutdown.EarlyStopBlocks | src/capture.rs:217-222 | a reachable session whose reader has not opened the FIFO when the last writer closes hangs |
| Shutdown.FullQueueBlocks | src/capture.rs:241-242 | a reachable session that ends with four key pictures queued and a fifth to send hangs |
| CaptureThread.ReadLoop | src/capture.rs:217-264 | refuses a bad header; behind a good one, under every schedule, takes the turns and has the end that `LoopSpec.LoopRuns` fixes: it stops at the first flag it sees, ends with the stream (with an error exactly for a fault, a cut tag or a malformed one), or waits with a key picture before a queue that stays full; what was taken and is queued is what was kept, and in a session the state it leaves is reachable |
| LoopSpec.LoopIsDetermined | src/capture.rs:229-262 | the stream, the schedule and the queue determine the log and the end |
| LoopSpec.TurnsFollow | src/capture.rs:238-245 | turns follow the stream in order without a gap, the queue stays within four, and while the receiver lives key pictures are kept and others dropped only at a full queue |
| CaptureTurns.ReadsNext | src/capture.rs:229-231 | a turn that does not see the flag and finds an access unit is two steps of the state machine from the given state, Checking and Reading |
| CaptureTurns.Sends | src/capture.rs:240-245 | a send is one step of the state machine from the given state, for a key picture only with room in the queue |
| CaptureThread.Capture.Stop | src/capture.rs:103-115 | takes the child, the keeper and the reader down in order while recorder and reader move as they like; returns exactly when the reader does not block in the state it is joined in; a call that finds nothing left to take returns and only sets the flag again |
| CaptureThread.StopIsARun | src/capture.rs:103-115 | that state, from a session, is a reachable state of the whole program, so the verdicts on joining apply |
| CaptureThread.Capture.JoinReader | src/capture.rs:111-113 | the thread alone either finishes or blocks, as its state at the join decides |
| Delivery.ClientSeesSelection | src/net.rs:193-212 | in every state the client shows, of the pictures of the encoder's stream that were kept and written, in order, all before the first frame that is too large; key pictures are kept, others dropped only at a full queue; without the signature nothing is sent |
| Numbers.NinthIsDenied | src/net.rs:45-49 | of up to nine calls within 30,000,000,000 ns exactly the ninth is denied |
| Numbers.LaterIsAllowed | src/net.rs:45-49 | a call more than 30,000,000,000 ns after the first of a window is allowed |
| Numbers.PrunedAfterMinute | src/net.rs:43 | after a call no entry is 60,000,000,000 ns old |
| Numbers.KeptForMinute | src/net.rs:43 | another key's entry is kept exactly until it is that old |
| Numbers.FifthIsDropped | src/net.rs:179 | a picture that is no key picture is dropped before a queue of four and queued before a shorter one |
| Numbers.HeaderIs | src/flv.rs:168-175 | a header is good exactly if there are 13 bytes and the first are 46 4C 56 |
| Numbers.StartCodeIs | src/flv.rs:161-163 | a NAL unit is emitted behind 00 00 00 01 |
| Numbers.FrameIs | src/proto.rs:138-145 | a frame is four bytes of length, the highest first, that count type and payload, then the type and the payload |
| Numbers.FitsIs | src/proto.rs:8 | the limit is 8388608 bytes of type and payload |
| Numbers.PictureIs | src/net.rs:198-200 | a picture's frame has type 6, a flag byte of one or zero, eight bytes of time stamp, and the data |
| Bytes.FirstDigit | src/proto.rs:129 | the first byte of a number weighs most |
| RateLimit.AnswersAreOwn | src/net.rs:43-49 | each answer is the one of an unpruned limiter that sees the calls of that address only |
| RateLimit.EntriesAreRecent | src/net.rs:43 | after a call every entry left opened less than 60 seconds before |
| RateLimit.EntryCountsWindow | src/net.rs:44-48 | for every history, an entry holds the instant that opened the current window and the number of calls since, modulo 2^32 |
| RateLimit.DeniedIff | src/net.rs:44-49 | a call is denied exactly when its window's count modulo 2^32 is above eight; that is the same as eight earlier calls in the window exactly when the window holds at most eight calls or a number above eight modulo 2^32, so in every window of fewer than 2^32 calls, all within 30 seconds |
| RateLimit.CountWraps | src/net.rs:48-49 | of 2^32 calls at one instant, all in one window, the last is allowed although eight earlier ones lie in the window, and the one before is denied |
| RateLimit.RateBound | src/net.rs:42-50 | in any closed interval of length T a key is allowed at most 8 * ceil(T / 30 s) + 7 calls if none of its windows holds 2^32 at a call in that interval; with no condition, the same with what the largest of these windows allows in place of 8 |
| RateLimit.PromiseKeptIff | src/net.rs:42-50 | all runs whose largest window holds w calls keep that bound in every interval exactly if w is below 2^32 |
| RateLimit.OverrunBreaksBound | src/net.rs:42-50 | for every w of 2^32 or more, a run with a window of w calls and more than fifteen allowed in 30 seconds |
| RateLimit.FloodKeepsBoundIff | src/net.rs:48-49 | calls at one instant keep to fifteen allowed in 30 seconds exactly while there are fewer than 2^32 + 7 |
| RateLimit.RateBoundReached | src/net.rs:42-50 | the bound is reached on every multiple of 30 seconds up to 30 seconds times their number of nanoseconds |
| RateLimit.SharedBudget | src/net.rs:38-41 | two addresses have one key exactly when they are equal or are an IPv4 and an IPv6 address of the same bits; behind the IPv4 listener only the first can occur |
| RateLimit.RateLimiter.Allow | src/net.rs:37-50 | the table follows the history of calls, and the answer is true exactly when the count of the key's window modulo 2^32 is at most eight, so with fewer than eight earlier calls in it as long as that window holds fewer than 2^32 |
| Keyboard.StrokeRoundTrip | src/input.rs:215-296 | a US layout reads every stroke as the character it was made for |
| Keyboard.StrokesAreDistinct | src/input.rs:215-264 | no two characters share a key and a Shift state |
| Typing.HexReadBack | src/input.rs:165 | the hexadecimal digits of a number read back as the number |
| Typing.ComposeTypes | src/input.rs:164-183 | the composition sequence for a character outside the layout comes out as that character |
| Typing.TextRoundTrip | src/input.rs:142-200 | with no key held any text comes out as sent, carriage return as line feed and DEL as backspace, and no key stays held |
| Typing.TextNeat | src/input.rs:142-200 | whatever the text, every report is closed and no key moves twice in one, so all events are seen |
| HeldKeys.StrokeTypedIff | src/input.rs:160-163 | with keys held before, a plain character comes out right exactly when its key is up, no command modifier is held and Shift is not held against it |
| HeldKeys.ControlTypedIff | src/input.rs:151-159 | a control character comes out exactly when its key is up and no command modifier is held |
| HeldKeys.ComposeTypedIff | src/input.rs:164-183 | any other character comes out exactly when U, Enter and the keys of its hexadecimal digits are up, NUL without its digit |
| Typing.TextReleases | src/input.rs:142-200 | whatever was held before, a text releases exactly the keys it touches and presses none for good |
| Typing.TextAnnounced | src/input.rs:142-200 | every key a text uses is announced |
| Keyboard.AnnouncedIs | src/input.rs:298-370 | of the keys the model knows all but the right Ctrl and Caps Lock are announced |
| KeyNames.NamedKeyAnnounced | src/input.rs:107-136 | every key that a name stands for is announced |
| KeyNames.NamesIgnoreCase | src/input.rs:109 | spellings of a name that differ in ASCII case only emit the same events |
| KeyNames.NameKnownIff | src/input.rs:109-136 | a name is known exactly when it begins with a character of the layout |
| KeyNames.HeldUntilReleased | src/input.rs:107-140 | on the desktop a key pressed by name is held through any reports that do not touch it, and a release by any spelling releases it and no other |
| KeyNames.OneCharNameTypesIff | src/input.rs:128-131 | with any keys held, a tap by the name of one character types it exactly when its key is up, no command modifier is held, and Shift is held just as its stroke needs it, or it is a space |
| WordKeys.SpelledTypes | src/input.rs:107-140 | a key that types a character types it when tapped by any spelling of a word for it |
| WordKeys.WordsSay | src/input.rs:110-114 | return, enter, tab, backspace and space, in any spelling, type a line feed, a line feed, a tab, a backspace and a space |
| WordKeys.LineWords | src/input.rs:110-114 | on the page, with no key held, return and enter break the line, backspace erases before the caret, tab and space insert themselves |
| WordKeys.ArrowWords | src/input.rs:115-118 | up, down, left and right move the caret that way |
| WordKeys.JumpWords | src/input.rs:120-123 | home and end go to the ends of the line, pageup and pagedown a page up and down |
| WordKeys.EraseWords | src/input.rs:113-119 | delete and del erase behind the caret, escape and esc close the menu |
| WordKeys.ModifierWords | src/input.rs:124-127 | a press of ctrl or control, shift, alt, and meta, cmd or win, in any spelling, holds just the left key of that modifier in addition, and a release just that no longer |
| WordKeys.OtherNameIsFirst | src/input.rs:128-131 | any other name emits what the name of its first character does |
| WordKeys.NameTapOnPage | src/input.rs:107-140 | with any keys held a tap by name acts once on the page, or not at all if its key is down or a command modifier is held |
| Editor.CaretKeepsLines | src/input.rs:115-123 | the keys that move the caret change no line of the page |
| Editor.StepIsUndone | src/input.rs:117-118 | left and right undo each other, across lines too |
| Injector.Injector.Tap | src/input.rs:186-200 | emits press and release in one closed report each, with Shift if asked, so that the device's events stay in closed reports |
| Injector.Injector.TypeChar | src/input.rs:150-184 | emits the events of the character: a control key, a stroke, or a composition |
| Injector.Injector.Text | src/input.rs:142-148 | emits the events of the text, which the reference desktop, reading reports, reads back as the text behind whatever it has shown |
| Injector.Injector.KeyByName | src/input.rs:107-140 | on any desktop a press by a known name leaves exactly its key held in addition, a release exactly that key no longer held, and an unknown name emits nothing |
| Injector.Injector.Move | src/input.rs:57-73 | moves the tracked position as specified and reports the non-zero axes; a move by nothing does nothing |
| Pointer.MoveIsRightIff | src/input.rs:61-62 | from the screen, a coordinate goes to the clamped sum exactly when the sum does not overflow |
| Pointer.MoveRelGoes | src/input.rs:57-62 | a move that cannot overflow takes each coordinate by its own amount, or to the edge it would pass |
| Pointer.OverflowingMove | src/input.rs:61-62 | on any screen wider than one pixel, the largest move to the right from position 1 ends at the left edge |
| Pointer.MovesAreOneShift | src/input.rs:57-62 | any sequence of moves without overflow is, on each axis, one shift and one clamp to a range inside the screen, whatever the start |
| Stun.AddressInIff | src/stun.rs:43-58 | an attribute carries an address exactly if it is of type 1 or 32, at least eight bytes long and of family 1; the address is bytes 4 to 7, of type 32 with exactly those bits flipped that are ones in 0x2112A442 |
| Stun.ScanFindsFirst | src/stun.rs:34-64 | on any attribute list the first IPv4 address of either kind is found, or none |
| Stun.ResponseGivesAddress | src/stun.rs:34-60 | a response with an attribute that RFC 5389 lays out for an address, plain or with the cookie's bits flipped, gives that address, behind any attributes without one |
| Stun.XoredExample | src/stun.rs:51-56 | E1 12 A6 43 in such an attribute is 192.0.2.1 |
| Stun.ParseXorMapped | src/stun.rs:29-65 | returns the scanned address with the fallback port; in bounds and terminating on every input, with the cursor a multiple of four |
| Display.ExactIsComputed | src/display.rs:340-348 | exact arithmetic is one of the computations that the following rows speak of |
| Display.FitEvenIsUsable | src/display.rs:340-348 | for every size, computed with any error below a pixel, the fitted size is even, lies between 640x360 and 1280x800, and is what the recorder is started with |
| Display.FitEvenAgain | src/display.rs:340-348 | fitting a usable size again does not change it |
| Display.EncodeSizeIsUsable | src/display.rs:229-232 | so for every desktop the encoder's size is usable, and stays the same when a desktop of that size, at least 400 high, is streamed again |
| Display.FittingDesktop | src/display.rs:229-232 | a desktop within 1280x800 is encoded at its own size, but at least 640x400, made even |
| Display.LargeDesktop | src/display.rs:229-232 | a larger one comes within two pixels of 1280 or of 800, and meets one of them in exact arithmetic |
| Display.EncodedAspect | src/display.rs:229-232 | a desktop of at least 640x400 is encoded at its own aspect ratio, up to two pixels a side and the error, except that a side below 640 or 360 is raised to that |
| Display.RecorderSizeIs | src/capture.rs:154 | the recorder's size is the size given, at least two, with its lowest bits cleared |
| Display.FittedAspect | src/display.rs:340-348 | before the lower limits apply, fitting keeps the aspect ratio up to two pixels a side and the error of the computation |
| Display.FittedFillsLimit | src/display.rs:340-348 | a desktop that does not fit fills the limit in one direction up to two pixels, and exactly if there is no error |
| Display.BestMode | src/display.rs:281-297 | whatever scores the machine computes, the search finds the earliest mode and scale of least score, and none only without modes |
| Display.BestForTarget | src/display.rs:281-297 | in exact arithmetic the search finds the earliest mode and scale of least score, and reports it; no other is nearer in logical width plus height by more than a hundredth for each hertz it is slower; at equal distance the faster wins; and if one of the same rate has just the logical size wanted, so has the choice |
| Display.ScalesTried | src/display.rs:283 | the eight scales that are tried |
| Display.SnapIsNear | src/display.rs:217-224 | a clamped scale request is met to within an eighth, and exactly when it is a step |
| Display.FirstSaveStays | src/display.rs:266-268 | the display as it was when it was first read for the copy stays saved, through any later events |
| Display.StoredCopySurvives | src/display.rs:141-142 | a first copy that was written to the file is what a later process restores, whatever happened in between, until that process has read a copy of its own |
| Display.RestoreBringsBack | src/display.rs:155-180 | from the start of a process, after any changes, a successful restore brings back the copy read first, or else the file of an earlier process, or else changes nothing; that is the user's display exactly if no session or restore had set another one before the copy was read, or, without a copy, if the file holds it, or there is no file and nothing else was set |
| Display.OldFileIsRestored | src/display.rs:155-161 | a process that copied and changed nothing restores the file of an earlier one, whatever the user has set since |
| Display.UnsavedChangeIsLost | src/display.rs:256-301 | a session that reads the display for its search, cannot read it for the copy and sets it makes the next session save, and the restore bring back, the changed display |

## Left out

- CaptureThread.ReadLoop: the schedule moves the rest of the program at one point of a turn; receives and a flag in between are steps of `CaptureProtocol`, whose runs these turns are proved to be.
- Framing.ReadFrame: does not model that a read can be dropped halfway; `FrameReader` does.
- The size that the search for a mode aims at, from the client's viewport: a parameter of `Display.BestForTarget`.
- Display.BestForTarget: over the reals; with scores rounded to 32-bit floats, `Display.BestMode` says what is found.
- TLS, certificates, mDNS, UPnP, sockets and their options: foreign calls without logic of their own.
- Starting the recorder and `kscreen-doctor`, making the FIFO, log output: represented by their effects on the modelled state.
- Parsing `kscreen-doctor` output and JSON messages: text formats of other programs.
- `pointer_scale_for`, the rounding in `apply_input`, `wheel` and `button`: single expressions or event lists without state.
- The session handshake and messages other than video in the session loop: the loop is modelled where it meets the queue, the stream and `stop`; any other frame it writes is one arbitrary non-video frame.
- What the client makes of the partial frame that a failed write leaves: the session writes nothing after it, and `Framing.BrokenStream` says what a reader makes of it.
- Failures of the virtual keyboard and mouse: events are always accepted.
- Message type, magic cookie and transaction id of a STUN response, and its port: the code does not look at them, or drops what it found.
- Overlapping sessions that both save the display: the check and the save take the lock separately, so nothing is claimed for them.
- Decodability after a dropped picture: the code goes on with the next picture, so it is no property of the code.
