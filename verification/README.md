# A verified model of the A/UX VNC daemon

The daemon lets an RFB client (RFC 6143) see the screen of a Macintosh under A/UX and type on its
keyboard. This project models the parts of it that compute something, in the form the C has them
(objects with fields, arrays changed in place, loops over cursors), and proves what they are for:

* **Messages.** Whatever pieces the socket delivers, the daemon makes the handler calls that the
  octet stream calls for (`Messages`, `MessageReader`), and these are the ones the client meant
  exactly if it stayed within what the daemon can serve (`Wire`). The handlers are the real ones: every
  update request is answered and every key event injected as it is dispatched.
* **The screen.** A client that has once been sent a whole frame has the daemon's frame after every
  later update, on every run, even if the screen is drawn on between two reads of the same word.
  If the screen holds still from the beginning of the last scan, the client shows it, pixel by pixel
  (`Luts`, `RowCopy`, `FrameBuffer`, `Client`, `Updates`, `UpdateSender`).
* **The colours.** The CRC that tells the daemon whether to send the colour table is the bitwise
  one; it cannot miss a change within 32 neighbouring bits, and can miss one in 33 (`CrcTable`, `Crc32`,
  `RegisterAlgebra`, `CrcBursts`); a buffer followed by its own CRC leaves a fixed residue, and no other
  four octets do (`CrcResidue`). Colours arrive before the pixels that need them. Exactly when the client shows the driver's present colours is in
  `Updates` and `UpdateSender`, and two ways for it not to, for good, are in `StaleColours`.
* **The keyboard.** The tables that invert a KCHR layout hold the first match of everything (`Kchr`,
  `KchrPack`). The key codes made from them (`Keyboard`) leave nothing pressed that the client has
  released (`KeyLedger`), and, read by the toolbox through the same layout, they type the text that
  the client typed (`Typing`).
* **All of it.** From the octets that a client writes, in any chunks, to the text on the Macintosh and
  the picture on the client's screen (`Remote`).

`Bytes` and `Folds` hold octets, big-endian integers and the general facts about folds over sequences.
`Driver` stands for /dev/fb0 and the mapped screen memory: every access has its own point in time,
and what two accesses find need not agree.

## How the C is rendered

* `MessageReader`, `FrameBuffer`, `UpdateSender`, `KchrState` and `Keyboard` are classes. Together they
  are the session struct (app/session.h:15-34) with the structs inside it; a `MessageReader` has an
  `UpdateSender` and a `Keyboard`, and calls them where the C calls their handlers. Buffers are arrays; write
  pointers and cursors are offsets. What is sent, injected or dispatched is a trace in a field.
* Layouts in memory are those of the m68k: big-endian, four-octet longs, two-octet alignment.
* An error (`session_err`, `longjmp`) is a final state: `failed` in `MessageReader`, a false result in
  `FrameBuffer` and `UpdateSender`.
* What depth the screen is in when an update request comes in is up to the machine. The parser in
  `Messages` is told by `supported`, and `Driver` counts the calls of FB_MODE from the first request on.
* `UpdateSender` keeps a ghost history: the updates so far, the times at which they began and the time
  at which the last scan did. `image` is any picture, fixed from the start, to compare the screen with.
* The quick path for whole messages reads the type before it looks at the length (app/session.c:226);
  the model looks at the length first, which comes to the same.
* `xend` is not set by the row copies when nothing changes (app/frame_buffer.c:198); it is arbitrary
  in the model too.
* A row copy reads a word to compare it and, at depth 8, again to store it (app/frame_buffer.c:201-202);
  at depth 1 it reads every octet twice (app/frame_buffer.c:229-230). Each of these reads is an access
  of its own.
* The KCHR resource is an array of octets. The C reads it through signed chars, so a table number of
  0x80 or more is excluded (`Shaped`).
* `keysym_to_macroman` is an arbitrary function from keysyms to octets.
* `Typing` describes the other side, which is not in the repository: the toolbox translates key codes by
  modifier value, key table and dead keys as a KCHR resource lays them down. Caps lock counts as held
  while it is down.

Where comments and code disagree, the model follows the code:

* The colour table is said to be fetched 16 colours at a time (kernel/src/fb.h:12); a chunk has 64
  octets, which are eight colours (app/frame_buffer.c:97-104).
* A changed colour table is said to force a full update (app/session.c:501-510), but `clut_changed` has
  been cleared by then (app/session.c:485). `UpdateSender.SendHeader` has the branch; `Updates.Partial`
  shows that it is never taken.
* An `fb_rect` is said to have x2 > x1 and y2 > y1 (app/frame_buffer.h:9-11); when nothing has changed
  it is a single pixel.

## Model

| member | source | states |
|---|---|---|
| Messages.FeedPart | app/session.c:281-294 | Octets that do not complete a message are kept, in order, and nothing is dispatched. |
| Messages.FeedWhole | app/session.c:296-312 | However much of a message had been kept, its last octet makes the parser dispatch it, once, with the fields the handler reads. |
| Messages.FeedEncodingPart | app/session.c:316-324 | Inside SetEncodings fewer than four octets are kept until the encoding is complete. |
| Messages.FeedEncoding | app/session.c:328-344 | Each group of four octets is one encoding; the parser expects the next, and after the last one it is idle. |
| Messages.FeedFailed | app/session.c:276-277 | After an error no input has any effect. |
| Messages.StepConserves | app/session.c:255-313 | One octet raises what handler calls account for plus what the parser keeps by exactly one; kept octets stay below the size of their message; no unservable pixel format and no update in an unsupported depth is survived. |
| Messages.FeedConserves | app/session.c:209-344 | On any input that does not end in an error every octet belongs to exactly one handler call or is still kept. |
| Messages.HandleSound | app/session.c:296-312 | A handler call that the session survives leaves nothing of its message behind. |
| Messages.PixelFormatSurvived | app/session.c:446-454 | Between messages, a SetPixelFormat is survived if and only if octet 7 of it, the true-colour flag, is 0 and octet 5, the depth, is 8. |
| Messages.SurvivedPixels | app/session.c:446-454 | The client that asked for a format that is survived takes one octet of palette index per pixel, as the daemon sends them, if and only if octet 4, its bits per pixel, is 8: the handler does not look at that octet. |
| Messages.WidePixelsSurvive | app/session.c:446-454 | Such a request that the session survives although its client takes four octets per pixel. |
| Messages.IllegalTypes | app/session.c:269-278 | Between messages, a first octet ends the session at once if and only if it is none of 0, 2, 3, 4, 5 and 6. |
| MessageReader.NoStaleOctets | app/session.c:265-324 | What the union holds at or beyond the write pointer does not influence the parser. |
| MessageReader.ChunkByChunk | app/session.c:200-207 | Feeding chunk after chunk is feeding the octets of all of them one by one. |
| MessageReader.KeepFragment | app/session.c:280-294 | Octets that have come, appended to those kept in the union, are the parser's new state as long as the message is not whole. |
| MessageReader.FeedFragment | app/session.c:296-312 | Once it is whole, the octets in the union are what the parser dispatches. |
| MessageReader.FeedEncodingFragment | app/session.c:316-344 | The same for an encoding; how many are left is what the count field in the union says. |
| MessageReader.MessageReader.constructor | app/session.c:63-66 | A new session's parser is idle, has dispatched nothing, sent nothing and injected nothing. |
| MessageReader.MessageReader.EvtPointer | app/session.c:456-470 | The handler sees the button mask and the position that the six octets at `evt` encode, wherever they lie. |
| MessageReader.MessageReader.EvtUpdateRequest | app/session.c:550-559 | The handler sees the request as it came and the request gets its answer; the session ends exactly if the depth is not supported; of the buffer at most the `incremental` octet changes. |
| MessageReader.MessageReader.EvtKey | app/session.c:430-444 | The handler sees the key and whether it went down, and its codes are injected. |
| MessageReader.MessageReader.EvtCutText | app/session.c:346-350 | The handler sees the length, and the text is not skipped. |
| MessageReader.MessageReader.EvtSetPixelFormat | app/session.c:446-454 | The handler fails the session exactly for the formats that `Messages.PixelFormatSurvived` names by their octets: true-colour, or of a depth other than 8. |
| MessageReader.MessageReader.EvtEncodingFragment | app/session.c:328-344 | Counting down in the union and rewinding the pointer take the parser to the next encoding, or to rest after the last. |
| MessageReader.MessageReader.Memcpy | app/session.c:284-290 | Copies stay inside the union and append to what is there. |
| MessageReader.MessageReader.TakeFragment | app/session.c:255-291 | Half a pass appends at least one octet to what was kept and no more than the message lacks, and stops short of a whole message only when the chunk is used up. |
| MessageReader.MessageReader.DispatchFixed | app/session.c:296-312 | A complete message in the union leads to its own handler call; the write pointer is reset or the session fails. |
| MessageReader.MessageReader.ReadFragment | app/session.c:255-313 | Every pass consumes at least one octet and does to the parser what those octets call for; between passes the pointer is at the start or strictly inside the message. |
| MessageReader.MessageReader.HandleWholeMessages | app/session.c:223-241 | Handling messages in place has the same effect as taking them octet by octet, and the rest of the chunk is intact although handlers write into it. |
| MessageReader.MessageReader.HandleMessageFragments | app/session.c:209-314 | From any reachable state a chunk has the effect of its octets one by one, by either path. |
| MessageReader.MessageReader.ReadAndHandleMessages | app/session.c:200-207 | A whole session depends only on the stream, not on how it was cut into chunks of 1 to 256 octets; all its update requests are answered, but for one that ends it, and all its keys injected. |
| Wire.FeedCodes | app/session.c:328-344 | The codes of a SetEncodings message are dispatched one by one, in order, and leave the parser idle. |
| Wire.FeedMessage | app/vnc_types.h:57-121 | A message written as RFC 6143, sections 7.5.1 to 7.5.6, lays it down leads to exactly its handler calls, whatever is in its padding. |
| Wire.FeedMessages | app/session.c:209-344 | So does a list of messages, with 0 to 65535 encodings each, if the depth is supported at each update request among them, and the parser is idle afterwards. |
| Wire.RoundTripExactly | app/session.c:209-344 | The daemon recovers a list of messages if and only if all pixel formats in it are servable, all cut texts empty, and the screen is in a supported depth at every update request. |
| Wire.MessageCost | app/vnc_types.h:57-132 | A message is as long as its handler calls account for, 4 + 4n octets for n encodings, plus any cut text. |
| Wire.MessagesCost | app/session.c:346-350 | On whole lists, exactly the octets of cut texts are accounted for by no handler call. |
| Wire.EventsDetermineMessages | app/session.c:296-312 | Served lists of messages with the same handler calls are the same up to padding. |
| CrcTable.TableIsBitwise | kernel/src/crc32.h:14-58 | Each of the 256 literal entries is what eight steps of the reflected division by 0xedb88320 make of its index. |
| Crc32.BitStepsLinear | kernel/src/crc32.h:60-61 | Any number of division steps distributes over exclusive or. |
| CrcBursts.CrcByBits | kernel/src/crc32.h:64-77 | The CRC of a buffer is that of the stream of its bits, shifted in one at a time, least significant bits first. |
| Crc32.Updc32IsByteStep | kernel/src/crc32.h:60-61 | One lookup in the table is eight division steps of the register with the octet added. |
| Crc32.TableDrivenIsBitwise | kernel/src/crc32.h:64-77 | From any register and on any input the table-driven form and the bitwise form agree. |
| Crc32.Crc32Buf | kernel/src/crc32.h:64-77 | The loop computes the CRC of section 8 of RFC 1952 of its buffer, complemented at both ends (`CrcResidue` has what fixes its values). |
| RegisterAlgebra.TraceBack | kernel/src/crc32.h:60-77 | For any linear and invertible register with room for n symbols: n symbols are determined by the register before and after them. |
| RegisterAlgebra.Remembers | kernel/src/crc32.h:60-77 | A difference between two registers outlives any common input. |
| RegisterAlgebra.WindowSeen | kernel/src/crc32.h:60-77 | Inputs that differ only in a window of at most n symbols end in different registers. |
| CrcBursts.BurstDetected | kernel/src/crc32.h:64-77 | Buffers of the same length that agree outside one stretch of at most 32 bits, wherever it begins, have the same CRC if and only if they are equal. |
| CrcBursts.FourOctetsAreNear | kernel/src/crc32.h:64-77 | Any four consecutive octets are such a stretch. |
| CrcBursts.LongerBurstsCanHide | kernel/src/crc32.h:64-77 | 32 is the limit: two buffers that differ within 33 bits and have the same CRC. |
| CrcResidue.Residue | kernel/src/crc32.h:64-77 | Any buffer followed by its CRC, least significant octet first, has the CRC 0x2144df1c. |
| CrcResidue.ResidueExactly | kernel/src/crc32.h:64-77 | And no other four octets after it give that CRC. |
| CrcResidue.NothingRead | kernel/src/crc32.h:64-77 | The CRC of no octets is 0. |
| CrcResidue.CheckValue | kernel/src/crc32.h:64-77 | The CRC of the digits 1 to 9 in ASCII is 0xcbf43926. |
| Driver.Driver.GetClut | kernel/src/fb.c:604 | The kernel's buffer holds the video driver's colour table of the moment. |
| Driver.Driver.ClutHash | kernel/src/fb.c:602-608 | The hash is the CRC of all 2048 octets of the table of the moment. |
| Driver.Driver.ClutChunk | kernel/src/fb.c:563-578 | Chunk n is octets 64n to 64n + 63 of the table of the moment. |
| Driver.Driver.GetMode | kernel/src/fb.c:539-561 | The depth and the pitch are those of the moment. |
| Luts.Lut1BitExpands | app/luts.c:3-20 | Every entry has the four bits of its index as octets, most significant first. |
| Luts.Lut2BitExpands | app/luts.c:22-279 | Every entry has the four two-bit fields of its index as octets. |
| Luts.Lut4BitExpands | app/luts.c:281-538 | Every entry has the two four-bit fields of its index as octets. |
| Luts.Digits1Bit | lutgen/lutgen.go:14-23 | Prepending "01" or "00" bit by bit spells the bits as octets. |
| Luts.Generate1Bit | lutgen/lutgen.go:12-28 | The literal printed for i reads, as a hexadecimal number, as the entry of the shipped table. |
| Luts.Generate2Bit | lutgen/lutgen.go:31-42 | The same for the table of two-bit pixels. |
| Luts.Generate4Bit | lutgen/lutgen.go:45-56 | The same for the table of four-bit pixels. |
| RowCopy.RowsSpelled | app/frame_buffer.c:217-314 | The words that the tables give are the pixels of the row, most significant field first, at depths 1, 2, 4 and 8. |
| RowCopy.PixelsMakeOctets | app/frame_buffer.c:193-314 | The eight, four, two or one pixels of a source octet, read as digits to the base 2, 4, 16 or 256, are that octet. |
| RowCopy.RefreshWord | app/frame_buffer.c:201-202 | The word is compared with one read and stored from another; the two need not agree. |
| RowCopy.ScanWord8 | app/frame_buffer.c:200-209 | One step at depth 8 keeps what is known of the scan: only whole words between xstart and xend differ from before; on a screen that held still the pixels are right and both ends did change. |
| RowCopy.ScanWord | app/frame_buffer.c:232-239 | The same for an expanded word. |
| RowCopy.ScanShort | app/frame_buffer.c:300-307 | The same for an expanded pair of octets. |
| RowCopy.CopyRow8 | app/frame_buffer.c:193-215 | After a row at depth 8: no octet outside the reported columns has changed, whatever the screen did; if it held still, all whole words show its pixels and the report is tight. |
| RowCopy.CopyRow1 | app/frame_buffer.c:217-255 | The same at depth 1, with columns in whole source octets. |
| RowCopy.CopyRow2 | app/frame_buffer.c:257-285 | The same at depth 2. |
| RowCopy.CopyRow4 | app/frame_buffer.c:287-314 | The same at depth 4, in pairs of octets. |
| FrameBuffer.InsideByColumns | app/frame_buffer.h:9-17 | A position in the frame lies in a rectangle if and only if its row and its column do. |
| FrameBuffer.FoundMore | app/frame_buffer.c:153-167 | Widening the rectangle by a changed row keeps all changes inside it. |
| FrameBuffer.ProppedMore | app/frame_buffer.c:153-167 | And keeps a changed word at each of its four sides. |
| FrameBuffer.Tightest | app/frame_buffer.c:174-179 | A rectangle of whole words with a changed word at each side is within every such rectangle that holds all changes. |
| FrameBuffer.DirtyIsSmallest | app/frame_buffer.c:119-186 | On a screen that held still a change is reported if and only if there was one, and the dirty rectangle is the smallest one of whole words that holds all changes. |
| FrameBuffer.DisplayedPixel | app/frame_buffer.c:136-171 | A frame that displays the screen has at r * w + x the pixel x of the source row at base + r * pitch, in all whole source octets (depths 1 and 4) or whole words (2 and 8) of a row. |
| FrameBuffer.FrameBuffer.constructor | app/frame_buffer.c:49-72 | A new frame buffer has room for the screen and no hash yet. |
| FrameBuffer.FrameBuffer.FetchClut | app/frame_buffer.c:97-104 | The table is put together from 32 chunks, each as the driver had it at its own time. |
| FrameBuffer.FrameBuffer.FillVncClut | app/frame_buffer.c:106-111 | Colour i is the red, green and blue of entry i of the fetched table. |
| FrameBuffer.FrameBuffer.UpdateClut | app/frame_buffer.c:78-112 | The hash is that of the driver's table; the colours are fetched anew, and marked to be sent, exactly if it differs from the last one or they still wait to be sent. |
| FrameBuffer.FrameBuffer.CopyRow | app/frame_buffer.c:139-151 | Each indexed depth has its row copy; any other depth is an error that leaves the frame alone. |
| FrameBuffer.FrameBuffer.CopyScreen | app/frame_buffer.c:134-186 | After the scan the dirty rectangle is on the screen, made of whole words, and holds every octet of the frame that changed; with nothing changed it is the pixel at the origin. If the screen held still, every copied pixel is right, and the rectangle has a changed word at each side. |
| FrameBuffer.FrameBuffer.Update | app/frame_buffer.c:114-187 | Colours first, then the scan, with the depth and the pitch of the moment; the scan begins after the colours have been looked at. |
| FrameBuffer.FrameBuffer.ResetDirtyCursor | app/frame_buffer.c:322-327 | The cursor is at the beginning of the first row of the dirty rectangle. |
| FrameBuffer.FrameBuffer.AdvanceDirtyCursor | app/frame_buffer.c:329-332 | From the beginning of one row of the dirty rectangle the cursor goes to the beginning of the next. |
| Client.ReceiveAllAppend | app/vnc_types.h:76-101 | A client (sections 7.6.1, 7.6.2 and 7.7.1 of RFC 6143) that has read one stretch of the stream goes on with the next as if they were one. |
| Client.ReceiveColourMap | app/session.c:472-487 | A client that reads the daemon's SetColourMapEntries message has all 256 colours and is at the start of the next message. |
| Client.ReceiveUpdate | app/session.c:489-499 | A client that reads the daemon's update header and body paints the body into that rectangle and is at the start of the next message. |
| Client.PaintBody | app/session.c:542-546 | Painting the rows of a rectangle from a new frame into the old one gives the new frame, if they differ nowhere else. |
| Client.WholeBody | app/session.c:534-535 | The frame as it lies in memory is its rows, one after the other. |
| Updates.TurnMirrored | app/session.c:550-559 | Any answer can be read to its end; a client that had the frame before, or is sent all of it, has the frame after; its colours are the daemon's whenever the hash has changed. |
| Updates.HalfOrAll | app/session.c:501-525 | An incremental answer is the dirty rectangle if that is at most half the screen high or wide, and the whole screen otherwise. |
| Updates.TurnPrefix | app/session.c:555-558 | Whenever a client has read some messages of an answer but not all of it, it still has the old picture; its colours are the old ones, or already the new ones if they are sent. |
| Updates.SessionPrefix | app/session.c:555-558 | So at every message boundary of a session it has the picture after some number of updates, with the colours of that time or, if new ones are due, the next. |
| Updates.ClientMirrors | app/session.c:489-559 | On every run, once a whole frame has been sent, the client has the daemon's frame after each later update. |
| Updates.ClientHasColours | app/session.c:473-487 | On every run the client's colours are the daemon's from the first time they are sent, and untouched before. |
| Updates.SinceRecoloured | app/frame_buffer.c:83-95 | From one change of the hash to the next the daemon's colours and hash stay as they are. |
| Updates.ClientColours | app/frame_buffer.c:78-112 | On every run in which colours were sent, the client shows the driver's present colours if and only if every entry was, when it was fetched for the last time, what it is now; the tables of both times have the same hash. |
| Updates.ClientShowsSmallChanges | app/frame_buffer.c:83-95 | So it does if the table held still during the update that fetched it last and has since changed within 32 neighbouring bits only. |
| Updates.FirstTableIsSent | app/frame_buffer.c:53-54 | As the remembered hash starts out as 0, the first table is sent unless its hash is 0. |
| StaleColours.FlickerStays | app/frame_buffer.c:83-104 | A driver whose table changes between the hash and the fetch, and changes back, leaves the client with the wrong colours for as long as it then stays. |
| StaleColours.TablesCollide | app/frame_buffer.c:83-95 | Two tables with different colours and the same hash. |
| StaleColours.CollisionStays | app/frame_buffer.c:83-95 | A driver that goes from one of them to the other leaves the client with the first for as long as it has the second, although the table holds still during every update. |
| UpdateSender.UpdateSender.SendColourMap | app/session.c:472-487 | If the colours wait to be sent, the message for all 256 of them is sent, and they no longer do. |
| UpdateSender.UpdateSender.SendHeader | app/session.c:489-528 | The header names the dirty rectangle or the whole screen; `incremental` says which afterwards. |
| UpdateSender.UpdateSender.SendBody | app/session.c:530-548 | The body is the rows of the rectangle in the header, width times height octets, all read inside the frame. |
| UpdateSender.UpdateSender.SendDirty | app/session.c:542-546 | The cursor passes over exactly the rows of the dirty rectangle. |
| UpdateSender.UpdateSender.SendAnswer | app/session.c:555-558 | The three parts, colours first (`ColoursFirst`), are the answer that `Updates` reasons about. |
| UpdateSender.UpdateSender.UpdateAndAnswer | app/session.c:550-559 | The answer to a request is complete and is about the update that came before it, whose scan began after this request and its look at the colours; an unsupported depth sends nothing. |
| UpdateSender.UpdateSender.EvtUpdateRequest | app/session.c:550-559 | The update is the next of the session: it begins with the frame, the hash and the colours that the last one left, at the present time, and sees the driver's one table as time goes by. |
| UpdateSender.UpdateSender.ServeUpdates | app/session.c:550-559 | A run of requests is answered up to the first in an unsupported depth. A client that reads it all, and was sent a whole frame at some time, has the daemon's frame, and shows the picture if the screen has since the last scan began. |
| UpdateSender.UpdateSender.ClientMirrors | app/session.c:489-559 | The same of any session that is ready for the next request. |
| UpdateSender.UpdateSender.ColoursFirst | app/session.c:555-558 | Of what was sent, a client that has read any part that ends between messages, and a whole frame among it, has the frame of some update with the colours of that update or already of the next; never a picture without its colours. |
| UpdateSender.UpdateSender.ClientColours | app/frame_buffer.c:78-112 | A client that reads all that was sent shows the driver's present colours if and only if every entry was what it is now when it was fetched for the last time; so it does if the table held still while it was fetched and has since changed within 32 neighbouring bits only. |
| Kchr.LeastModifiersAreLeast | app/kchr.c:23-37 | The table of tables has the least modifier value that selects a table, among those seen. |
| Kchr.ModifiersLeadToTable | app/kchr.c:14-38 | For a layout with at most 32 tables: 0xff if and only if no modifier value below 0x80 selects the table, otherwise the least that does. |
| Kchr.FirstKeyIsFirst | app/kchr.c:91-102 | At every point of the scan an entry is valid exactly if its character has been seen, and names the key where it was seen first. |
| Kchr.EntryIsFirst | app/kchr.c:73-103 | `entries[c]` is valid if and only if c is in some key table, and then names the first table and key code that hold it. |
| Kchr.FirstDeadIsFirst | app/kchr.c:136-164 | At every point of the scan a dead-key entry comes from the first pair that produces its character. |
| Kchr.DeadIsFirst | app/kchr.c:105-165 | `deads[c]` is valid if and only if some pair produces c, and then has the table, key code and completing character of the first one in resource order. |
| Kchr.ModifiersInResource | app/kchr.c:16-38 | By the octets of the resource: a modifier value m at octet 2 + m that leads to a table bounds the one that is used for it, which also leads there. |
| Kchr.KeysInResource | app/kchr.c:75-103 | A character in the tables of 128 octets from octet 260 on has an entry, not behind that place, and the entry's own place holds it. |
| Kchr.DeadsInResource | app/kchr.c:105-165 | A character substituted by some pair of the variable-length records behind the tables has an entry made from a record and a pair, not behind that one, that substitute it. |
| Kchr.InverseIsWhole | app/kchr.h:37-43 | The tables have their sizes and name no key table beyond 32. |
| Kchr.BuildTableTable | app/kchr.c:16-38 | The table is complete unless some modifier value asks for table 32 or beyond; then it covers the values before that one. |
| Kchr.BuildCharTable | app/kchr.c:75-103 | The scan over the packed key tables fills the entries with first matches. |
| Kchr.BuildDeadTable | app/kchr.c:107-165 | The nested cursor loops fill the dead-key entries with first matches and end where the last variable-length record ends. |
| Kchr.KchrState.KchrLoad | app/kchr.c:167-185 | From any resource of 3072 octets that packs a layout, the state is the inverse of that layout. |
| KchrPack.PackedReadsBack | app/kchr.c:81-136 | Every layout has a packed form that the parser takes for that layout, whatever version it carries and whatever follows. |
| KchrPack.PackedOnce | app/kchr.c:105-165 | No resource packs two layouts. |
| Keyboard.KeyList.Append | app/keyboard_mess.h:7-12 | Appending keeps the codes in order and inside the buffer of six. |
| Keyboard.KeysymSpecialToKeypresses | app/keyboard_mess.c:37-109 | Keypad keysyms have the key codes written out in the contract, the modifier keysyms those of the modifier they are named after (`Typing.ModifierKeysyms`), all others none. |
| Keyboard.VkeyToKeypresses | app/keyboard_mess.c:111-142 | The codes are those of the five modifiers that are set, in fixed order, and then the key; never more than six. |
| Keyboard.Keyboard.DoKeyDown | app/keyboard_mess.c:173-180 | The codes go down in order. |
| Keyboard.Keyboard.DoKeyUp | app/keyboard_mess.c:182-191 | The codes come up in the opposite order, with the top bit set. |
| Keyboard.UpsReversed | app/keyboard_mess.c:182-191 | The i-th code to go down is the i-th from the end to come up, with 0x80 added. |
| Keyboard.Keyboard.EvtKeyAraw | app/session.c:352-409 | An event injects its stroke: special keys directly, a dead key in full before the key that completes it, a carriage return down and up at once. |
| KeyLedger.NetUps | app/keyboard_mess.c:182-191 | Ups undo downs, code by code. |
| KeyLedger.NetStroke | app/session.c:370-408 | Press and release of a keysym move each code by the same amount in opposite directions: by the codes that stay down, none for a carriage return, the second chord only with a dead key. |
| KeyLedger.Ledger | app/session.c:352-409 | After any events in any order, each code is down as often as the sum over keysyms of presses less releases, times the keysym's own codes. |
| KeyLedger.DownsMeetUps | app/session.c:352-409 | If presses and releases are even for every keysym, in any interleaving, downs and ups are for every code. |
| KeyLedger.ReleaseFirst | app/session.c:352-409 | That alone does not leave a key up: shift released before it is pressed is down in the end. |
| KeyLedger.StrokeLeaves | app/session.c:370-408 | An event leaves a key down only if it is a press and the keysym holds that key; a release moves every key that its keysym holds. |
| KeyLedger.StillDown | app/session.c:352-409 | After any events, each key that is down is held by a keysym whose last event was a press. |
| KeyLedger.NothingStuck | app/session.c:352-409 | If the last event of every keysym was a release, no key is down. |
| KeyLedger.CarriageReturn | app/session.c:392-407 | A press alone leaves key 0x24 up if it is the keysym's one chord, and then the release injects nothing; with any other key the press leaves it down, and the release touches it. |
| KeyLedger.ServeKeys | app/session.c:352-409 | Handling a list of events injects their strokes one after the other. |
| Typing.ModifiersDown | app/keyboard_mess.c:118-137 | The modifier codes for a value hold exactly the modifiers of that value, besides those held already. |
| Typing.ModifiersUp | app/keyboard_mess.c:182-191 | Released in the opposite order they let go of exactly those. |
| Typing.PressTypes | app/session.c:392-394 | Pressing a direct character types it, whatever modifiers the client holds, if and only if the layout has it on that key for all the modifiers together. |
| Typing.ShiftHeldMistypes | app/kchr.c:203-210 | A small letter pressed while the client holds shift comes out as the capital one. |
| Typing.DeadRoute | app/kchr.c:212-228 | The two chords for a character with a dead key are silent, then complete that dead key to the character. |
| Typing.TypesBack | app/session.c:370-408 | With a well-formed layout, pressing and releasing any key that has a character types it, directly or by a dead key, if the layout has it anywhere, and nothing otherwise; nothing stays held or waiting. |
| Typing.UnknownKeysym | app/session.c:370-408 | A keysym without a character presses and releases the first key that types nothing by itself; the text stays as it is, and a dead key is left waiting if and only if that key is one. |
| Typing.TypesHeld | app/session.c:370-408 | The same while the client holds modifiers, direct or by a dead key, if with them each chord is still struck in its own table. Each chord lets go of its own modifiers, even of those that the client holds. |
| Typing.OwnModifiers | app/keyboard_mess.c:111-142 | Modifiers that a chord has itself are no hindrance to it. |
| Typing.TypesText | app/session.c:352-409 | So whole texts come out as they were typed, with modifiers pressed and released between the keys. |
| Typing.HeldIsDown | app/keyboard_mess.c:173-191 | The toolbox takes a modifier for held exactly if its key is down. |
| Typing.ModifierKeysyms | app/keyboard_mess.c:40-67 | Pressing Shift_L or _R, Control, Caps_Lock, Meta, Super or Hyper, Alt makes the toolbox hold shift, control, caps lock, command, option and nothing else besides; releasing it lets go of that alone. |
| Typing.NothingHeldAtEnd | app/session.c:352-409 | When the last event of every keysym was a release, it takes none for held. |
| Remote.Serve | app/session.c:200-409 | Whatever chunks its messages come in, a client is served all of them, if they can be served. |
| Remote.TextArrives | app/session.c:200-409 | Of the keys among these messages the text comes out on the Macintosh, and nothing is held if the client has let go of all keys. |
| Remote.ScreenArrives | app/session.c:200-559 | If one of them asked for the whole frame, a client that reads all that was sent has the daemon's frame, and shows what has been on the screen since the last scan began. |

## Left out

- The handshake (app/session.c:139-198), `accept`, `main`, timers, logging, install scripts: no state worth following.
- Sockets and ioctls that fail, and the setjmp/longjmp mechanics: errors are final states here.
- Partial sends: everything that is sent is sent.
- A screen whose size changes in mid-session, and sizes of 0 or of 65536 and more.
- Malformed KCHR resources: the model asks for a layout that the resource packs, with at most 32 key tables.
- `keysym_to_macroman` and the keysym tables (app/macroman.c): a table written by hand, here any function.
- The ASCII keyboard mode (app/session.c:411-428) and `kb_mode`: they send a single code per press. The keyboard is in the ARAW mode throughout.
- Forwarding of the mouse (app/session.c:456-470) after the message has been parsed.
- `keysym_is_modifier` and `raw_keypress` (app/keyboard_mess.c:21-35, app/keyboard_mess.c:144-148): not used in the ARAW path.
- Most of kernel/src/fb.c: slot manager, driver calls, mapping and callbacks are calls into code that is not part of this model. Its colour table and KCHR ioctls appear as `Driver` and as the resource handed to `KchrLoad`.
- Typing.TypesBack: asks, as all of `Typing` does, for a layout whose tables can all be reached with the five modifiers that the daemon can press, whose dead keys are silent, distinct and completed by direct characters, and which has no characters on modifier keys. Keysyms whose character is 0 have `UnknownKeysym`.
- Typing.TypesText: has no keypad keysyms in its texts, and each key is released before the next one is pressed.
- KeyLedger.Ledger: asks, as all of `KeyLedger` does, for one layout throughout, with key codes below 0x80.
- FrameBuffer.DisplayedPixel: says nothing about columns beyond the last whole word or source octet of a row; these are never copied.
