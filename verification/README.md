# cloudssh, verified

A Dafny model of the stateful code in cloudssh: the C++ wrapper classes over libssh2 in `src/libssh2`
and the transfer loops and the X11 list in `example`. libssh2, sockets and files are not modelled as
code. They answer from a script of replies (a byte count, EAGAIN, an error) that is fixed in advance and
arbitrary, so that a statement about all scripts is a statement about everything they can do. A script
that has run out answers with an error.

| file | what it models |
|---|---|
| `Wire.dfy` | the outside world of the loops: writers, readers, files |
| `Uploads.dfy` | the sliding upload and the two chunk-and-drain uploads, against one machine without a buffer |
| `PlainWrites.dfy` | the write loops without an offset, and the upload that goes on after a write error |
| `Relay.dfy` | the two-way relay through one buffer |
| `Download.dfy` | the download that stops at the announced size |
| `Text.dfy`, `Netconf.dfy` | `strstr` and C strings; the reader of NETCONF messages (RFC 6242, section 4.3) |
| `NameList.dfy` | the search in the list of authentication methods (RFC 4252, section 5.1) |
| `Echo.dfy` | the poll-driven echo test with its half-close |
| `X11.dfy` | the linked list of X11 connections, which grows while it is walked |
| `Ownership.dfy` | who owns which handle, and the order of release, without counts |
| `Results.dfy` | what each call of the wrapper classes achieves |
| `Handles.dfy` | the same with use counts and a cascade of destructors, and the constructor of `SSH` |
| `Handshakes.dfy` | what a second handshake of a session does |

A loop of the source is a method with a loop. Where it makes calls to the outside, the calls are recorded
(`History`, `Trace`), and the method is proved to make exactly the calls that a small specification allows
(`Conforms`, `Follows`, `Enabled` and `Step`); the lemmas are about every record the specification allows.

## What turned out false

The code is modelled as it is written. Where it does not do what it is for, there is a concrete run that
shows it, and the exact condition under which it does.

- `remove_node` in `x11.c` never advances in its loop, and frees the node after the one it has unlinked.
  The walk over the list is right with it exactly when all lost connections come before all others in the
  list (`X11.CleanExactlyWhenLostComeFirst`, `X11.WrongEnds`). `X11.Connections.RemoveNode` and
  `X11.Connections.Sweep` are about a corrected version, in which the loop advances and the element itself
  is freed.
- `netconf_write` and the socket-to-channel loop of `tcpip-forward.c` start again at the front of the
  buffer after a partial write, and report success. They are right exactly when the first write takes the
  whole buffer (`PlainWrites.RightExactlyWhenFirstTakesAll`, `PlainWrites.SuccessWithWrongBytes`), and put
  the same bytes on the wire as a loop with an offset exactly when that write takes everything, or fails, or
  nothing is taken after it (`PlainWrites.SameAsWithOffsetExactlyWhen`).
- `scp_write.c` goes on after a failed write. What arrives is a prefix of the file, whatever the file holds,
  exactly when no chunk that was cut short is followed by a delivery
  (`PlainWrites.PrefixExactlyWhenNoGap`, `PlainWrites.ErrorLeavesGap`).
- `is_pubkey_auth_supported` looks for "pubkey", but RFC 4252 calls the method "publickey"
  (`NameList.PubkeyCheckRightExactlyWhen`, `NameList.PubkeyCheckMissesPublickey`). The password check has an
  exact condition too (`NameList.PasswordCheckRightExactlyWhen`).
- `netconf_read_until` drops what it has read past the mark. Two calls on one channel get two messages,
  whatever the server sends after them, exactly when the reads of the first call, cut to the room in its
  buffer, add up to the first message and its mark at some point, and the second message is within reach of
  the second call (`Netconf.BothAreReadExactlyWhen`, `Netconf.BothMessagesInOneRead`).
- `Session::handshake` gives up its old socket before libssh2 is called with the new one. A socket is closed
  while libssh2 uses it exactly when a session is given another socket while it holds the only pointer to
  the one before (`Handshakes.RunIsCarefulExactlyWhen`, `Handshakes.SecondHandshakeShows`).
- The relay of `direct_tcpip.c` shuts down at the first disconnect, and drops what the other side still has
  to send. One side gets everything exactly when the reads have brought all of it by then and the relay has
  not ended in a failed write to it (`Relay.AllPassedOnExactlyWhen`, `Relay.DisconnectDropsTheRest`).
- The sliding upload ends at a count of zero, where the chunked uploads try again. For all sizes together it
  is never behind them exactly when nothing is taken after the first count of zero, up to the first error
  (`Uploads.NeverBehindExactlyWhen`, `Uploads.ZeroStopsOnlySliding`).
- The echo test fails against a correct `cat` exactly when the poll that reports the close hides bytes that
  have arrived (`Echo.FailsExactlyWhen`, `Echo.UnreportedBytesAreMissed`).

## Model

| member | source | states |
|---|---|---|
| X11.Connections.Append | example/x11.c:149-168 | the callback adds one new node at the tail; the list stays without a cycle and in order |
| X11.Connections.AppendAll | example/x11.c:106-175 | several callbacks append a node for each connection, in the order of their arrival |
| X11.Connections.SendReceive | example/x11.c:181-237 | as the walk sees it: -1 exactly when the connection is lost, and meanwhile the list may have grown at the tail |
| X11.Connections.RemoveNode | example/x11.c:45-65 | corrected removal: takes exactly the given element out of the list, frees that element and nothing else |
| X11.Connections.VisitNode | example/x11.c:428-429 | the visit of a node: the list may grow, the next node is read after that, and all but the removal is done |
| X11.Connections.VisitAndRemove | example/x11.c:427-436 | one round of the walk: the next element of all that have ever been in the list, also if it was appended during the visit |
| X11.Connections.Sweep | example/x11.c:419-437 | the walk ends, and has come to the end of the list and of everything appended meanwhile |
| X11.WalkedToTheEnd | example/x11.c:426-437 | at the end every initial and appended node was visited once and in order, exactly those reported lost were closed and freed, and the others are linked |
| X11.ProgressInVisit | example/x11.c:428-436 | a visit keeps this for the part of the list walked so far, whatever arrives during the visit |
| X11.SuppliedInVisit | example/x11.c:149-168 | the nodes ever in the list are the initial ones and one for each connection that arrived, without repetition |
| X11.CountVisit | example/x11.c:426-436 | visits made and visits to come add up to a number fixed before the walk: the initial nodes plus those that arrive |
| X11.ChosenPartition | example/x11.c:430-434 | no node is both kept and closed, and none is neither |
| X11.ChosenInOrder | example/x11.c:426-437 | the survivors are linked in their original order |
| X11.Connections.RemoveNodeAsWritten | example/x11.c:45-65 | as written: right for the head; unlinks the second node and frees the one after it, or none; for a later node it changes nothing and never ends |
| X11.Connections.VisitAsWritten | example/x11.c:427-436 | one round with it, in each of the three cases |
| X11.Connections.RoundAsWritten | example/x11.c:426-437 | one round either leads on as predicted, or ends the walk in the predicted way |
| X11.Connections.SweepAsWritten | example/x11.c:419-437 | the whole walk with it ends as the list of replies predicts: cleanly, with a leak, at a freed node, or never |
| X11.CleanExactlyWhenLostComeFirst | example/x11.c:45-65 | it ends cleanly if and only if no lost connection comes after one that is not lost |
| X11.NoVisitsLost | example/x11.c:57-64 | once a node is kept, it ends cleanly if and only if nothing else is lost |
| X11.WrongEnds | example/x11.c:57-64 | three short runs that leak, dangle and loop |
| Uploads.SlidingUpload | example/sftp_write_sliding.c:235-266 | a prefix of the file is delivered; every offer is the window of the file that the machine without a buffer would offer; the outcome and `total` are the machine's; a normal end means that the whole file was delivered |
| Uploads.Slides | example/sftp_write_sliding.c:236-266 | its loop: at every head delivered bytes and buffer make up the part of the file read so far |
| Uploads.Chunks | example/sftp_write_nonblock.c:235-257 | the outer loop of the chunked uploads: at every head the whole chunks before it have been delivered |
| Uploads.TopUp | example/sftp_write_sliding.c:237-247 | refilling continues the file behind the bytes that were left over |
| Uploads.DropFront | example/sftp_write_sliding.c:257-264 | what remains in the buffer is exactly the part not taken, at the front |
| Uploads.SendAndShift | example/sftp_write_sliding.c:249-264 | one write of the whole buffer, and what was not taken moves to the front |
| Uploads.WriteUntilTaken | example/sftp_write_sliding.c:250-253 | repeats the identical offer until the reply is not EAGAIN; delivers the next bytes of the file |
| Uploads.DrainChunk | example/sftp_write_nonblock.c:245-256 | offers what is left of the chunk until nothing is, or a write fails |
| Uploads.ChunkUpload | example/scp_write_nonblock.c:217-247 | both chunked uploads, whatever their condition for going on: an exact prefix of the file is delivered, all of it on a normal end, by the offers of the machine |
| Uploads.HistoryIsRun | example/sftp_write_nonblock.c:235-257 | any record of allowed offers is a run of the machine |
| Uploads.HistoryIsOutcome | example/sftp_write_nonblock.c:235-257 | the record fixes the outcome: it has stopped early exactly if bytes are missing |
| Uploads.SameChunk | example/sftp_write_nonblock.c:235-256 | a chunk ends where it ends however it is taken, and the next begins there |
| Uploads.CompleteIffAllTaken | example/sftp_write_sliding.c:238-245 | completion is reported exactly when every byte was taken |
| Uploads.SlidingDeliversExactly | example/sftp_write_sliding.c:236-266 | how much arrives, for all replies: the sum of the counts, each cut to the buffer size, up to the first error or zero count |
| Uploads.SlidingFinishesExactlyWhen | example/sftp_write_sliding.c:236-266 | the upload finishes if and only if that sum reaches the size of the file |
| Uploads.SpendMeans | example/sftp_write_nonblock.c:245-256 | a chunk is drained if and only if the counts up to the first error add up to its length |
| Uploads.ChunkedFinishesExactlyWhen | example/scp_write_nonblock.c:217-247 | the chunked uploads finish if and only if the replies drain one chunk after the other |
| Uploads.NeverBehindExactlyWhen | example/sftp_write_sliding.c:266 | under the same replies and with at least as large a buffer, the sliding upload has delivered at least what the chunked one has, for all sizes, if and only if nothing is taken after the first zero count |
| Uploads.FinishesIfTheOtherDoes | example/sftp_write_nonblock.c:235-257 | then it also finishes whenever the other does |
| Uploads.ZeroStopsOnlySliding | example/sftp_write_sliding.c:266 | two replies after which it is behind, with any buffers |
| Uploads.OffersContinue | example/sftp_write_sliding.c:250-264 | each offer begins with exactly the part of the last one that was not taken; after EAGAIN it is the same bytes |
| PlainWrites.WriteWithoutOffset | example/subsystem_netconf.c:53-68 | puts on the wire the first `r` bytes of the buffer for each reply `r`, and reports success as the loop does |
| PlainWrites.RightExactlyWhenFirstTakesAll | example/tcpip-forward.c:266-274 | it is right for all buffers of a length if and only if the first write takes the whole buffer |
| PlainWrites.RightForDistinctExactlyWhen | example/tcpip-forward.c:266-274 | for one buffer without repetitions it is right if and only if the first write takes the whole buffer |
| PlainWrites.WriteWithOffset | example/direct_tcpip.c:277-288 | the loop with an offset, over the same replies |
| PlainWrites.OnwardMeans | example/direct_tcpip.c:277-288 | it delivers a prefix of the buffer, as long as the counts up to the first error add up to, and succeeds if and only if that is all of it |
| PlainWrites.SameBytesExactlyWhen | example/tcpip-forward.c:266-274 | for one buffer, for instance one without repetitions, both loops deliver the same bytes if and only if the first write takes everything, or fails, or nothing is taken after it |
| PlainWrites.SameAsWithOffsetExactlyWhen | example/tcpip-forward.c:266-274 | the same for all buffers of a length together |
| PlainWrites.RestartShows | example/subsystem_netconf.c:58-65 | after a partial write the next byte on the wire, if there is one, is the first of the buffer again; so the bytes are wrong unless that happens to be the right one |
| PlainWrites.SuccessExactlyWhen | example/subsystem_netconf.c:58-67 | success is reported if and only if no error comes before a count of zero or before the counts add up to the length |
| PlainWrites.WrongSuccessExactlyWhen | example/subsystem_netconf.c:58-67 | success can come with wrong bytes, for some buffer of a length, if and only if it is reported and the first write did not take everything |
| PlainWrites.SuccessWithWrongBytes | example/subsystem_netconf.c:58-67 | success is reported with a wrong byte on the wire, for one input |
| PlainWrites.WriteChunk | example/scp_write.c:179-191 | delivers a prefix of the chunk and gives the rest up at the first error |
| PlainWrites.DrainsStraight | example/scp_write.c:179-191 | how much of a chunk is taken: what the counts add up to before the first reply that is not one, or all of it |
| PlainWrites.DrainUses | example/scp_write.c:179-191 | the replies used for a chunk: as many counts as it takes, or all counts and the reply that is none |
| PlainWrites.UploadPastErrors | example/scp_write.c:171-193 | the remote file is one prefix of each chunk, one after the other |
| PlainWrites.AllTakenExactlyWhen | example/scp_write.c:171-193 | every chunk is taken in full if and only if the replies are good for one chunk after the other, with EAGAIN as an error |
| PlainWrites.WholeFileArrivesExactlyWhen | example/scp_write.c:171-193 | the whole file arrives if and only if the chunked upload with retries would have delivered it under the same replies with EAGAIN turned into an error |
| PlainWrites.NoGapGivesPrefix | example/scp_write.c:171-193 | if no chunk cut short is followed by a delivery, the remote file is a prefix of the local one |
| PlainWrites.PrefixExactlyWhenNoGap | example/scp_write.c:171-193 | the remote file is a prefix of the local one for every file of a size if and only if no chunk cut short is followed by a delivery |
| PlainWrites.GapShows | example/scp_write.c:182-185 | for every gap there is a file that shows it |
| PlainWrites.ErrorLeavesGap | example/scp_write.c:182-185 | three replies that leave a gap, for chunks of any size from two bytes on |
| Relay.Forward | example/direct_tcpip.c:257-313 | the relay makes exactly the calls that are due, each determined by the call before it and its reply, until one of the replies shuts it down; what has come in on each side is what that side had to send, up to what is still to come |
| Relay.PassUp | example/direct_tcpip.c:277-288 | offers the rest of the buffer to the channel until all is taken; it succeeds if and only if the counts up to the first error, past any EAGAIN, add up to the length, and delivers as much as they do |
| Relay.PassDown | example/direct_tcpip.c:298-306 | the same to the socket, where the counts end at the first reply that is not a nonzero count |
| Relay.PassAllDown | example/direct_tcpip.c:290-312 | reads the channel and passes on what it brings until it would block |
| Relay.EndsAtFirstFailure | example/direct_tcpip.c:262-311 | the relay ends at the first failure, and at nothing else: no run ends in an EAGAIN from the channel |
| Relay.ReasonOfCall | example/direct_tcpip.c:257-313 | the reason of every call: the socket is polled at first and whenever the channel would block, read when the poll says so; the channel is read when the poll says no, when all has been passed on, and until it would block; its end is asked for after everything it brought has been sent |
| Relay.Conservation | example/direct_tcpip.c:257-313 | in every state, what has come in on one side is what the other side has taken, followed by what is pending |
| Relay.PendingIsDue | example/direct_tcpip.c:277-306 | what is offered in a call is what is pending, and where nothing is offered nothing is |
| Relay.PassesOnAPrefix | example/direct_tcpip.c:257-313 | what each side has got is a prefix of what the other side had to send |
| Relay.OneBufferSuffices | example/direct_tcpip.c:268-306 | bytes are pending in one direction at most, and no more than the buffer holds |
| Relay.RefilledOnlyWhenDrained | example/direct_tcpip.c:268-291 | a read never overwrites bytes that are still to be written |
| Relay.ShutdownLosesOnlyTheFailedWrite | example/direct_tcpip.c:263-311 | a regular disconnect leaves nothing pending; after a failed write only that direction has lost bytes, and from the end only |
| Relay.AllPassedOnExactlyWhen | example/direct_tcpip.c:263-311 | at shutdown one side has got all that the other had to send if and only if the counts of the reads add up to all of it and the call that failed is not a write of that direction |
| Relay.DisconnectDropsTheRest | example/direct_tcpip.c:271-275 | a `recv` of 0 is such an end, after which nothing is read from the channel any more |
| Download.FetchFile | example/scp_nonblock.c:230-259 | writes out exactly the first `got` bytes of the channel, never asks for a byte past the announced size, and `got == total` is that size, or what the channel sends, or what the replies are good for up to the first error or zero, whichever is least |
| Download.ReadSome | example/scp_nonblock.c:235-247 | one read and its bookkeeping are one step of the machine |
| Download.FetchesExactly | example/scp_nonblock.c:230-259 | the same of the machine, from any point on |
| Download.LastReadBringsNothing | example/scp_nonblock.c:234-258 | whatever was fetched came before the last reply that was used: the loop is always left after a read that brings nothing |
| Download.FetchesAllExactlyWhen | example/scp_nonblock.c:230-259 | the whole file is fetched if and only if the server sends it and the replies are good for it |
| Text.FindMeans | example/subsystem_netconf.c:94-96 | `strstr` finds the first occurrence, and nothing only if there is none |
| Text.CStringMeans | example/subsystem_netconf.c:77-96 | a buffer read as a C string is its longest prefix without NUL |
| Netconf.ReadUntil | example/subsystem_netconf.c:70-110 | returns the length of the message, and leaves the message and nothing else in the buffer as a C string; -1 exactly when the reading machine finds no end |
| Netconf.ReadToMark | example/subsystem_netconf.c:79-98 | the loop takes the steps of the reading machine, and the buffer holds what was received, followed by zeros |
| Netconf.ResultIsSearch | example/subsystem_netconf.c:79-98 | whatever the replies are, the result is that of one search over what was received in the end, failure included |
| Netconf.SearchBuffer | example/subsystem_netconf.c:94-96 | the search sees the received bytes only, not the zeros behind them |
| Netconf.DropMark | example/subsystem_netconf.c:105-109 | cutting off the mark leaves exactly the text before it |
| Netconf.FoundForGood | example/subsystem_netconf.c:94-98 | an end that has been found does not move when more is received |
| Netconf.FragmentationDoesNotMatter | example/subsystem_netconf.c:79-109 | any two ways of cutting the same stream into reads, and any two buffer sizes, give the same message if both succeed |
| Netconf.ReceiveIsOneSearch | example/subsystem_netconf.c:79-98 | for all replies: repeated searches over a growing buffer give what one search would give over all that the buffer size and the replies up to the first error allow |
| Netconf.SearchMeans | example/subsystem_netconf.c:94-96 | a message end is the first tag and the first mark from there on, with no NUL before the end of either |
| Netconf.SucceedsExactlyWhen | example/subsystem_netconf.c:79-109 | for all replies: it succeeds with an end if and only if that is a message end within the first `buflen` bytes and within what the replies bring before an error |
| Netconf.MarkFollowsTag | example/subsystem_netconf.c:94-96 | although the search starts at the tag, for a tag without ']' the mark comes after it |
| Netconf.FramedMessageIsRead | example/subsystem_netconf.c:89-109 | round trip: a message with a tag and without "]]>", sent with the mark of RFC 6242, is read back exactly, whatever follows it, if message and mark are within reach, and otherwise the call fails |
| Netconf.TheMark | example/subsystem_netconf.c:96 | the mark is the six characters of RFC 6242 |
| Netconf.LiteralMessageIsRead | example/subsystem_netconf.c:89-109 | the round trip on literal text followed by "]]>]]>" |
| Netconf.BothAreReadExactlyWhen | example/subsystem_netconf.c:268-285 | two calls on one channel get the first and the second message, for everything the server may send after them, if and only if the counts of the first call, up to an error and cut to the room left, hit the end of the first mark, and the second message is within reach of the second call |
| Netconf.TakesNothingPastItsMark | example/subsystem_netconf.c:79-98 | with more to come, a call takes exactly its message and mark if and only if its counts hit that end |
| Netconf.SecondMessageIsReadExactlyWhen | example/subsystem_netconf.c:268-285 | if the first call stops inside the second message, or nothing follows that one, the second call gets it if and only if the first call took nothing of it |
| Netconf.BothMessagesInOneRead | example/subsystem_netconf.c:268-285 | a read that brings both messages, and leaves nothing for the second call |
| Netconf.TakesTheMark | example/subsystem_netconf.c:94-106 | a call that succeeds has taken the whole mark |
| NameList.SearchIsPerName | src/libssh2/Session.hpp:67-75 | searching the joined list is true if and only if some single name contains the pattern, for lists of any length |
| NameList.SplitAtComma | src/libssh2/Session.hpp:67-75 | no match of a pattern without commas spans two names |
| NameList.WhatMethodsContain | src/libssh2/Session.hpp:67-75 | no method name of RFC 4252 contains "pubkey", and only "password" contains "password" |
| NameList.RightExactlyWhen | src/libssh2/Session.hpp:67-75 | when a search for a pattern tells whether a method is offered, for any list, pattern and method |
| NameList.PasswordCheckRightExactlyWhen | src/libssh2/Session.hpp:67-70 | on every list: the check is right if and only if "password" is offered or no name contains it |
| NameList.PubkeyCheckRightExactlyWhen | src/libssh2/Session.hpp:72-75 | on every list: right if and only if some extension name contains "pubkey" where "publickey" is offered, and none where it is not |
| NameList.PubkeyCheckMissesPublickey | src/libssh2/Session.hpp:72-75 | the list that offers "publickey" alone is one on which it is wrong |
| NameList.KeyboardInteractiveIsHarmless | src/libssh2/Session.hpp:67-75 | the method of RFC 4256 contains neither pattern |
| NameList.ChecksOnRfcLists | src/libssh2/Session.hpp:67-75 | on lists of those names and of extensions that contain neither pattern, the password check is right; the public key check is right exactly where the method is not offered |
| Echo.EchoTest | example/ssh2_echo.c:251-352 | keeps the totals equal to the bytes sent and read; against `cat` it leaves the loop only with all bytes sent; it prints FAIL if and only if the last poll hid bytes that had arrived, and so never if no poll does; it exits with an error if and only if a read, a write or the sending of EOF reports one other than EAGAIN, and leaves the loop if and only if a poll reports the close and nothing else |
| Echo.EchoLoop | example/ssh2_echo.c:251-327 | the calls of the loop are the ones that are due, and it is left as they prescribe |
| Echo.ReadTurn | example/ssh2_echo.c:258-275 | the echo read into the buffer leaves nothing but 'A' in it |
| Echo.WriteTurn | example/ssh2_echo.c:277-321 | offers the next bytes, or EOF when all have been taken |
| Echo.WhenItEnds | example/ssh2_echo.c:262-326 | the two ends of the loop, on the last call and its reply |
| Echo.PollsWhenServed | example/ssh2_echo.c:251-327 | before the next poll a readable channel has been read, and then a writable one written to or sent EOF |
| Echo.OffersAllThatFits | example/ssh2_echo.c:280-284 | a write offers all that is left or fills the buffer; EOF comes when nothing is left; writability is asked for until EOF has been accepted |
| Echo.TheLetterIsA | example/ssh2_echo.c:239-240 | the letter that is sent |
| Echo.SendsOnlyAs | example/ssh2_echo.c:280-320 | in every state only 'A' has been sent, no more than `totsize` bytes, and EOF only after all of them |
| Echo.NothingAfterEof | example/ssh2_echo.c:306-319 | nothing is written after EOF |
| Echo.EchoConservation | example/ssh2_echo.c:258-303 | in every state, what was sent is what was read, followed by what can be read, what is on the way back and what is on the way to `cat` |
| Echo.CloseComesLast | example/ssh2_echo.c:305-327 | because the loop sends nothing after EOF, the close arrives only when all of the echo has |
| Echo.FailsExactlyWhen | example/ssh2_echo.c:323-352 | when the loop is left everything was sent and has come back; it has been read and the totals agree if and only if the last poll hid nothing |
| Echo.EchoIsOnlyAs | example/ssh2_echo.c:259 | what a read brings back is 'A' again |
| Echo.UnreportedBytesAreMissed | example/ssh2_echo.c:323-352 | a run against `cat` that ends with different totals |
| Ownership.EveryRunIsGood | src/libssh2/Session.hpp:13-24 | over every run of creating, copying and dropping: events in an order libssh2 allows, no pointer to a destroyed object, no garbage |
| Ownership.StepKeeps | src/libssh2/Session.hpp:33-47 | each single call keeps this |
| Ownership.DetachKeeps | src/libssh2/Session.hpp:13-24 | destroying a pointer, with the whole cascade, removes pointers and objects and nothing else, and keeps the order |
| Ownership.DestroyKeeps | src/libssh2/Channel.hpp:39-41 | a destructor releases the handle while nothing needs it, and after its members are gone nothing dangles |
| Ownership.RebindKeeps | src/libssh2/Session.hpp:45 | the assignment of the socket pointer: no order is violated, nothing dangles or leaks, at most the old socket goes, and the new one exists when libssh2 is called |
| Ownership.ReleasedAfterItsUsers | src/libssh2/Session.hpp:22-24 | when a session is freed all its channels and listeners have been; when a socket is closed or the library left, the sessions that need it have been freed |
| Ownership.AcquiredOnceReleasedOnce | src/libssh2/Libssh2.hpp:13-32 | every handle is acquired once at most and released once at most; `libssh2_init` and `libssh2_exit` in particular, however often `create` is called |
| Ownership.StepLoses | src/libssh2/Socket.hpp:28-35 | a call loses a descriptor if and only if it opens a socket that does not connect |
| Results.CreateResult | src/libssh2/Libssh2.hpp:13-32 | the first call initialises the library and sets the static pointer, unless that fails and nothing changes; the others share it |
| Results.NewSocketResult | src/libssh2/Socket.hpp:28-49 | the variable holds a new socket if it opens and connects; a socket that only opens is lost |
| Results.NewSessionResult | src/libssh2/Session.hpp:17-19 | a session is acquired, holds the library, and is held by the variable |
| Results.NewChannelResult | src/libssh2/Channel.hpp:18-28 | a channel of this session, or nothing |
| Results.NewListenerResult | src/libssh2/Listener.hpp:20-30 | a listener of this session, which keeps the session, its socket and the library, or nothing |
| Results.CopyResult | src/libssh2/Session.hpp:29-31 | the copy points to the same object, and nothing else changes |
| Results.HandshakeResult | src/libssh2/Session.hpp:44-47 | the session holds the new socket; the old one is closed between the assignment and the call of libssh2 if and only if no other pointer to it is left |
| Results.DropOfShared | src/libssh2/Channel.hpp:39-41 | dropping one of several pointers to an object takes the pointer only |
| Results.DropOfTheLastChannel | src/libssh2/Session.hpp:13-24 | when a channel is all that a program holds, the drop releases the channel, its session, the socket and the library, in this order |
| Results.EndResult | src/libssh2/Libssh2.hpp:35 | the static pointer goes at the end, and the library stays while a session needs it |
| Results.CanBeCalledExactlyWhen | src/libssh2/Session.hpp:33-47 | in every state a program can reach, the calls can be made with a new variable and arguments of the right types, and only then |
| Ownership.ExistsExactlyWhileKept | src/libssh2/Channel.hpp:14-41 | an object exists exactly as long as a variable holds it, directly or through other objects |
| Ownership.AllGoneAtTheEnd | src/libssh2/Libssh2.hpp:20-32 | when the variables and the static pointer are gone, everything has been released |
| Ownership.ChannelKeepsAll | src/libssh2/Channel.hpp:14-22 | holding a channel keeps its session, the session's socket and the library |
| Ownership.OtherVariablesStay | src/libssh2/Session.hpp:44-47 | a call leaves every other variable alone, whatever it destroys |
| Ownership.VariablesDecide | src/libssh2/SSH.hpp:14-40 | with the same variables as before, the same objects exist as before |
| Handles.Process.Unpoint | src/libssh2/Listener.hpp:34-36 | counting destroys exactly what has no owner left |
| Handles.Process.Discount | src/libssh2/Session.hpp:22-24 | every use count stays the number of pointers to the object |
| Handles.Process.DestroyObject | src/libssh2/Channel.hpp:39-41 | the handle is released first, then the members: session, socket, library |
| Handles.Process.Create | src/libssh2/Libssh2.hpp:29-32 | the first call initialises the library, later ones share it; after a failure nothing has changed |
| Handles.Process.NewSocket | src/libssh2/Socket.hpp:21-49 | a new socket, or none; the descriptor of a failed connect is never closed |
| Handles.Process.NewSession | src/libssh2/Session.hpp:144-146 | a new session that holds the library |
| Handles.Process.Handshake | src/libssh2/Session.hpp:44-47 | the socket is taken, the old one is closed if this was the last pointer, then libssh2 is called |
| Handles.Process.Repoint | src/libssh2/Session.hpp:44-46 | the assignment of the socket pointer with its counts |
| Handles.Process.NewChannel | src/libssh2/Channel.hpp:18-28 | a channel that holds its session, or none and nothing changed |
| Handles.Process.NewListener | src/libssh2/Listener.hpp:20-30 | a listener that holds its session, or none and nothing changed |
| Handles.Process.EndProgram | src/libssh2/Libssh2.hpp:35 | the static pointer goes at the end of the program |
| Handles.Process.SshConstructor | src/libssh2/SSH.hpp:14-40 | succeeds exactly when every step does; then the channel is the one new variable and keeps session, socket and library; otherwise what existed before exists, and nothing new but the library; one descriptor is lost exactly if the socket opened and did not connect |
| Handles.SshRuns | src/libssh2/SSH.hpp:14-40 | from every reachable state each step can be made, and the result is this |
| Handles.ConnectRuns | src/libssh2/SSH.hpp:20-22 | the library and the socket, or neither variable |
| Handles.OpenSessionRuns | src/libssh2/SSH.hpp:20-36 | the same for the part up to the channel: a session bound to a socket, or nothing |
| Handles.ChannelRuns | src/libssh2/SSH.hpp:38-40 | the channel survives the end of the scope that made it, with everything it needs |
| Handles.SshLoses | src/libssh2/SSH.hpp:14-40 | of all its steps only a failing connect loses a descriptor |
| Handles.FinishRuns | src/libssh2/SSH.hpp:38-40 | with the shell the channel is all that is new, and without it nothing is |
| Handshakes.HandshakeCareful | src/libssh2/Session.hpp:44-47 | a handshake closes a socket that libssh2 uses exactly when it brings another one and the session has the only pointer to the old one |
| Handshakes.StepCareful | src/libssh2/Session.hpp:44-47 | no other call ever does |
| Handshakes.RunIsCarefulExactlyWhen | src/libssh2/Session.hpp:44-47 | over every run: no used socket is closed if and only if no handshake is of that kind |
| Handshakes.SecondHandshakeShows | src/libssh2/Session.hpp:44-47 | seven calls that do it |

## Left out

- libssh2 itself, sockets, `select`, `waitsocket`, terminals, argument parsing, printing and timing.
- Fairness and real time. Scripts are finite; a reply that makes a loop spin (EAGAIN, a count of zero) uses
  up the script, so every loop ends. Echo runs are observed for a finite number of turns, and may then still
  be running.
- `src/ssh.cpp`, `src/ssh.old.cpp` and the other example clients: straight-line code, or weaker copies of
  these loops.
- The upload half of `example/sftp_RW_nonblock.c`, `tvdiff` and the authentication flags.
- The methods of the wrappers that pass a call on to libssh2, and `Socket::connect` called by the program itself.
- Integer widths: totals, lengths and counts are unbounded.
- Read errors of local files: `fread` comes up short only at the end of a file.
- X11: connections that the callback fails to make, and the bytes that `x11_send_receive` moves. Nodes are
  never reused after they are freed.
- X11.Connections.RemoveNodeAsWritten: the endless loop is cut off after a number of rounds that the caller
  chooses; the contract says that it has not ended, for every number.
- Netconf.SearchBuffer: the search is confined to the buffer, where `strstr` would read on past a full
  buffer without NUL.
- The channel-to-socket half of `example/tcpip-forward.c`, which is that of `example/direct_tcpip.c`.
- A null handle from `libssh2_session_init` and a null authentication list, which the wrappers do not check.
- The objects of `src/libssh2` are values with members in one map of pointers, not Dafny objects; the class
  is the process that holds the pointers and the counts. Calls to `create` after the end of the program are
  left out.
