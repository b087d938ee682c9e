# Chat server: model and proofs

A Dafny model of a small C chat server. Clients register, log in, create, join and leave groups over a byte protocol; each group is given a multicast address from a pool of one hundred; a select loop accepts clients and hands what they send to a handler that calls the user and group managers and packs a reply.

The model keeps the form of the C code. Fixed-size buffers are arrays written in place, the managers and their entries are classes whose methods change fields, and the loops are loops. Each such method is proved against a value: a registry of groups (`GroupRegistry.Registry`), a chat server (`Chat.State`), a wire message (`Wire.Message`), a network state (`ServerNet.Net`). What a run of the server amounts to is then proved about those values, for every run.

| file | content |
|---|---|
| CStrings.dfy | NUL-terminated strings; `strlen`, `strncpy`, `strcpy`, `strcat` as loops over buffers |
| Decimal.dfy | the hand-written decimal conversion and the address pool built with it |
| Containers.dfy | the bounded queue and the fixed-size vector of the unseen library, from their headers |
| Listing.dfy | the text of a group listing: its length, and how it reads back |
| GroupRegistry.dfy | the group manager as a value; conservation of addresses over every run |
| CallHistory.dfy | the group manager's state and results in terms of the calls it has had, deletes included |
| Groups.dfy | the group and group-manager objects |
| Users.dfy | the user and user-manager objects |
| Wire.dfy | message layouts as values: every byte by its place, round trips, framing, the listing reply as written |
| Protocol.dfy | packers and unpackers over structs and byte buffers, and the two dispatches |
| Chat.dfy | the chat server as a value, one request at a time |
| History.dfy | membership, credentials, activity, addresses and every outcome in terms of the requests made and the replies given |
| Handler.dfy | the request handler on bytes, and its refinement of module Chat over whole runs |
| Transcript.dfy | what every client is sent, byte for byte, in terms of the requests the server has had |
| ServerNet.dfy | the select loop, against a script of what the system answers: who is open, watched and served |
| Service.dfy | the loop and the handler together: what is delivered is what the clients sent |
| Closing.dfy | a closing connection: the latest packet is handled a second time, and exactly when that costs something |

## Where the code and its intent differ

The code is modelled as it stands, and each difference is a proved statement.

- A create refused as a duplicate keeps the address it took (grp_mng.c:115, 134-137). `GroupRegistry.RunConserves` counts the loss exactly, one address for each such refusal; `GroupRegistry.RepeatedCreatesDrain` shows the whole pool can go this way, and `History.ExhaustedForever` that nothing a client can send brings it back.
- The listing reply is packed without the length of its names, and the unpacker takes the names' first byte for it (protocol.c:281-287, 298-299). `Wire.ListingAsWritten` says what arrives and when it is the whole text, `Handler.OneNameCut` gives a listing the server can send that does not arrive whole; `Wire.ListingAsDocumented` says what the layout in the comments would carry.
- The handler is called even when `recv` returned nothing, with what the buffer still holds (server_net.c:325-344). `Closing.CloseIsHarmless` says exactly what one such call changes, `Closing.ClosesUnnoticedExactly` what all of them do over a run, and `Closing.CloseCostsAnAddress` shows a run in which a close costs an address.
- Before `select`, only as many bytes as a pointer has are copied from the master set (server_net.c:227): the bits of descriptors 0 to 63 with eight-byte pointers. `ServerNet.WatchedIsMaster` says exactly when that is a full copy, `ServerNet.AllWatchedExactly` when it is one in a run, `ServerNet.UnwatchedClientAccepted` gives a run in which it is not, and `ServerNet.HighClientsStarve` what happens to a client beyond it, whatever the uninitialised set holds.
- The handler never records a group with the user, so the two sides of membership disagree as soon as a registered user joins (`History.TwoSidedExactly`, `History.TwoSidedFails`).
- The listing buffer holds 1000 bytes, but a hundred groups may be live (srv_mng.c:177, grp_mng.c:312). `Listing.ThirtyTwoNamesFit` and `Handler.ThirtyTwoCreatesExactly` give the exact bound, `Handler.ThirtyThreeCreatesOverrun` a run beyond it; the model stops where the text would leave the buffer, and says so in its result.

## Modelling decisions

- A byte is an integer from 0 to 255 and a C string a sequence of non-zero bytes. A name, password or group name held by an entity is such a value; buffers and struct fields are arrays. Names are at most 29 bytes long wherever the C code copies them into 30-byte storage. `char` is signed in the original; the lengths that matter are below 30, where this makes no difference, and a tag of 128 or more has no case either way.
- Hash maps keyed by strings are finite maps, and sets where the value repeats the key. Iteration over a map visits the keys in an unspecified order. Allocation succeeds.
- `GroupDestroy` hands out a pointer into the struct it frees (group.c:63-65); the model copies the address.
- What `select`, `accept` and `recv` return is a script of rounds. `select` reports only open descriptors it was asked to watch, and at least one, or fails or times out; `accept` returns a descriptor that is not open and that an `fd_set` has room for, or fails; `recv` returns up to 100 bytes, nothing, or an error. A set left by `select` holds exactly the reported descriptors; a system that writes back only the words up to the highest descriptor asked for may leave uninitialised bits beyond them, which the model clears.
- The select loop logs each handler call with the bytes and the `recv` result it passes, and `Handler.SrvMng.HandleAll` handles such bytes in order. In the original the loop calls the handler directly; the loop's own state does not depend on what the handler does.
- The handler's switch is written as unpacking, acting and replying, each by tag; in the original the three follow one another inside each case.
- `CreateServer` ends without returning the server it built (server_net.c:103-136), though its value is used (srv_mng.c:243); the model starts from the server it built. `myItoA` takes `strlen` of a buffer that nothing has been written to (grp_mng.c:360, called at 65) and does not use the result; the model zeroes the buffer and leaves the call out.
- The two request layouts with two strings have the same routines but for field names (protocol.c:117-152 and 303-339), so they are one struct here. Structs declared on the stack are zeroed like those from `calloc`; every field that is packed is assigned first.

## Model

| member | source | states |
|---|---|---|
| CStrings.Strncpy | protocol.c:133 | exactly the bytes of the destination that change, text then NUL padding, and that no others do |
| CStrings.Strcat | grp_mng.c:337 | the destination's text becomes its old text followed by the source, terminated |
| CStrings.PaddedField | protocol.c:147 | text copied by strncpy into a zeroed, wider field is that text, terminated |
| Decimal.DigitsDenote | grp_mng.c:358-372 | for every number the digits written are digits, have no leading zero, and evaluate back to the number |
| Decimal.DigitsInjective | grp_mng.c:358-372 | different numbers have different decimal texts |
| Decimal.IntegerLength | grp_mng.c:345-356 | the loop counts exactly the digits of the decimal text |
| Decimal.WriteDigits | grp_mng.c:364-368 | the inner loop fills the places from the right and uses the number up, so the outer loop cannot run again |
| Decimal.MyItoA | grp_mng.c:358-372 | the buffer holds the decimal text and a NUL, the rest is untouched, and the outer loop's body runs exactly once for a positive number |
| Decimal.PoolDistinct | grp_mng.c:58-73 | a pool built by the same loop for any size never lists an address twice |
| Decimal.PoolAddress | grp_mng.c:58-73 | every address of the pool is the prefix and the decimal text of a number in range, and short enough for its field |
| Containers.Queue.Insert | genqueue.h:36-47 | first in, first out; overflow exactly when full, leaving the queue as it was |
| Containers.Queue.Remove | genqueue.h:49-60 | the oldest item, or not-found exactly when empty |
| Containers.Vector.Append | vector.h:47-58 | appends, or overflows exactly when the fixed capacity is reached |
| Listing.TextLength | grp_mng.c:335-341 | the length of a listing's text is the sum over the names of length plus two, whatever the order |
| Listing.ThirtyTwoNamesFit | protocol.h:3-7 | listings of up to k names of field length always fit the reply's text field if and only if k is at most 32 |
| Listing.SplitText | grp_mng.c:335-341 | a listing reads back as its names, in order, if and only if no name contains a comma and a space in a row |
| Listing.TextInjective | clnt_main.c:46-61 | names without spaces, as the client reads them, are told apart by their listings |
| GroupRegistry.RunConserves | grp_mng.c:93-185 | over every run of manager calls from any pool of distinct addresses: free, live and leaked addresses partition the pool, none is in use twice, and as many are leaked as creates were refused as duplicates |
| GroupRegistry.IssueConserves | grp_mng.c:115-142 | a create, in any of its three outcomes, keeps the partition |
| GroupRegistry.ReturnConserves | grp_mng.c:165-179 | a delete keeps the partition |
| GroupRegistry.MembershipConserves | grp_mng.c:187-301 | membership changes move no address and no group |
| GroupRegistry.ReturnHasRoom | grp_mng.c:179-182 | while a group is live the queue has room, so the insertion in a delete cannot overflow |
| GroupRegistry.LiveAddresses | grp_mng.c:58-179 | in every reachable state each live group has an address of its own, not waiting in the queue, of the form prefix and number from 1 to 100; live groups and free addresses number 100 less the duplicate creates |
| GroupRegistry.RepeatedCreatesDrain | grp_mng.c:115-137 | creating an existing group n times loses the next n addresses of the queue, as far as there are any, and changes nothing else |
| GroupRegistry.CreateThenDelete | grp_mng.c:93-185 | a create and a delete of the same name restore the groups and move the address to the back of the queue |
| CallHistory.LiveByCalls | grp_mng.c:93-185 | over every sequence of calls a group is live if and only if some successful create of it has no later delete |
| CallHistory.AddressByCalls | grp_mng.c:115-142 | a live group's address is the one that was at the front of the queue when it was created |
| CallHistory.QueueByCalls | grp_mng.c:93-185 | first in, first out: the queue is the pool followed by the addresses of deleted groups in the order of the deletes, less as many from the front as creates took |
| CallHistory.MemberByCalls | grp_mng.c:187-301 | a user is in a group if and only if some successful join has no later removal of that user and no later delete of the group |
| CallHistory.ResultByCalls | grp_mng.c:93-301 | what every call of every kind returns, decided by the calls before it |
| Groups.Group.AddUser | group.c:69-99 | the new member set, the duplicate case, and the address handed out only on success |
| Groups.Group.RemoveUser | group.c:101-125 | the new member set and the not-found case |
| Groups.GrpMng.constructor | grp_mng.c:37-77 | the manager starts with no group and the full pool in order |
| Groups.GrpMng.FillPool | grp_mng.c:58-73 | the loop with its string building leaves exactly the pool in the queue, every insertion succeeding |
| Groups.GrpMng.AddNewGroup | grp_mng.c:93-147 | result, whole new state and address out-parameter in each of the three outcomes |
| Groups.GrpMng.DeleteGroup | grp_mng.c:149-185 | result and whole new state; the error branch of line 181 is never taken |
| Groups.GrpMng.AddUserToGroup | grp_mng.c:187-237 | result, whole new state, and the group's own address on success only |
| Groups.GrpMng.RemoveUserFromGroup | grp_mng.c:239-284 | result and whole new state |
| Groups.GrpMng.RemoveUserFromAllGroups | grp_mng.c:286-301 | the user is taken out of every group, in whatever order they are visited, and nothing else changes |
| Groups.GrpMng.CollectNames | grp_mng.c:312-333 | a fixed vector of 100 collects every one of up to 100 names exactly once |
| Groups.GrpMng.AppendNames | grp_mng.c:335-341 | the text gains the names in order, or the method stops, exactly when the whole would not end inside the buffer |
| Groups.GrpMng.GetAllGroupNames | grp_mng.c:303-341 | the text gains every live group's name exactly once, each followed by a comma and a space, if and only if all of that ends inside the buffer |
| Users.UsrMng.RegisterNewUser | usr_mng.c:56-99 | a new inactive account, or no change for a name already taken |
| Users.UsrMng.LogInUser | usr_mng.c:101-140 | the account becomes active exactly when the password is the stored one; the two refusals change nothing |
| Users.UsrMng.LogOutUser | usr_mng.c:142-170 | the account becomes inactive, or not-found and no change |
| Users.UsrMng.AddGroupToUser | usr_mng.c:172-217 | the account's groups, in each of the three outcomes |
| Users.UsrMng.RemoveGroupFromUser | usr_mng.c:219-264 | the account's groups, in each of the three outcomes |
| Users.UsrMng.RemoveAllGroupsFromUser | usr_mng.c:266-296 | the account's groups become empty and no other account changes |
| Wire.RoundTrip | protocol.c:19-266 | every well-formed message but a listing, packed and read under the layout of its own first byte, is the same message, whatever follows it in the buffer |
| Wire.RoundTripAs | srv_mng.c:170 | the same for a message packed under another tag of its layout, as join replies are |
| Wire.LayoutsByTag | protocol.c:19-66 | which layout each of the fourteen tags has |
| Wire.PairBytes | protocol.c:117-138 | tag, total length, then the user name and the second string in that order, each behind its own length |
| Wire.SingleBytes | protocol.c:155-171 | tag, total length, and the user name behind its length |
| Wire.AddressBytes | protocol.c:217-245 | tag, total length, 1, the code, then the address and the port, each behind its own length |
| Wire.NamesBytes | protocol.c:268-289 | tag, total length, 1, the code, and the names at once |
| Wire.RequestsByPlace | protocol.c:140-180 | the user name is taken from byte 3, the second string from behind it, and a buffer can be read if and only if the lengths in it stay within the buffer and the fields |
| Wire.RepliesByPlace | protocol.c:199-301 | the same for the replies: the code from byte 3, the address from byte 5 and the port behind it, the names from byte 4 with byte 4 as their length |
| Wire.DocumentedBytes | protocol.c:270-293 | the bytes of the layout in the comments |
| Wire.ListingAsWritten | protocol.c:268-301 | received into a zeroed buffer, a listing's text arrives cut to the code of its own first byte, so it is whole if and only if it is no longer than that |
| Wire.ListingAsDocumented | protocol.c:270-293 | the documented layout would carry a text whole if and only if it has at most 255 bytes, with a true total-length byte if and only if at most 250 |
| Wire.LengthByte | protocol.c:129-131 | byte 1 is the true length if and only if the packet has at most 255 bytes, which every message but a listing has |
| Wire.EncodeInjective | protocol.c:117-325 | two well-formed messages with the same bytes are the same |
| Wire.PrefixFree | protocol.c:129-137 | no packed message of at most 255 bytes begins another |
| Wire.PacketsOfStream | protocol.c:129-325 | cutting a stream of packed messages by their length bytes finds exactly those messages |
| Wire.StreamInjective | protocol.c:129-325 | a stream of packed messages can be taken apart in one way only |
| Protocol.PairStruct.Pack | protocol.c:117-138 | the returned size, the exact bytes written, and the rest of the buffer unchanged |
| Protocol.PairStruct.Unpack | protocol.c:140-152 | a zeroed struct comes to hold exactly the decoded message, its strings terminated |
| Protocol.SingleStruct.Pack | protocol.c:155-171 | the returned size, the exact bytes written, and the rest of the buffer unchanged |
| Protocol.SingleStruct.Unpack | protocol.c:173-180 | a zeroed struct comes to hold exactly the decoded message |
| Protocol.StatusStruct.Pack | protocol.c:183-197 | the bytes written, or -1 and no change when the struct's own tag is not a plain reply's |
| Protocol.StatusStruct.Unpack | protocol.c:199-204 | the struct holds the decoded message |
| Protocol.AddressStruct.Pack | protocol.c:217-245 | the returned size and the exact bytes, whatever the struct's own tag |
| Protocol.AddressStruct.Unpack | protocol.c:247-266 | a zeroed struct comes to hold exactly the decoded message |
| Protocol.NamesStruct.Pack | protocol.c:268-289 | the bytes written, without a length for the names, or -1 and no change under another tag |
| Protocol.NamesStruct.Unpack | protocol.c:290-301 | a zeroed struct comes to hold what the mistaken length lets through |
| Protocol.ProtocolPack | protocol.c:19-66 | for each of the fourteen tags the struct's own encoding and size, and -1 with the buffer unchanged otherwise |
| Protocol.ProtocolUnpack | protocol.c:68-115 | for each of the fourteen tags the decoded message in a zeroed struct, and -1 with no change otherwise |
| Chat.RunIsSound | srv_mng.c:24-222 | in every reachable state the hundred addresses are accounted for and no account carries groups |
| History.MembershipByHistory | srv_mng.c:101-220 | a user is in a group if and only if some successful join has no later leave and no later successful logout |
| History.RegisteredByHistory | usr_mng.c:56-99 | a name is registered if and only if some request registered it |
| History.PasswordByHistory | usr_mng.c:56-99 | the stored password is the one of the earliest registration |
| History.LogInByHistory | usr_mng.c:101-140 | a login is accepted if and only if its password is that of the user's earliest registration |
| History.RegisterTold | srv_mng.c:56-76 | a registration succeeds if and only if no earlier request registers the name |
| History.LogInTold | srv_mng.c:78-100 | a login is told success with the password of the first registration, and failure otherwise |
| History.LogOutTold | srv_mng.c:101-122 | a logout succeeds if and only if an earlier request registers the name |
| History.LeaveTold | srv_mng.c:200-220 | a leave succeeds if and only if a join of that user to that group still stands |
| History.JoinTold | srv_mng.c:152-174 | a join succeeds if and only if the group has been created and no join of that user to it still stands; it is then told the address the creation was told |
| History.CreateTold | srv_mng.c:124-151 | a create succeeds if and only if fewer than a hundred creates came before it, refused or not, and none of them created the group; it is then told the address numbered by its place among them |
| History.LiveByRequests | grp_mng.c:93-147 | a group exists if and only if one of the first hundred create requests names it |
| History.FreeByHistory | grp_mng.c:115-147 | the free addresses are the pool less its first ones, one for each create request, as far as there are any |
| History.ActiveByHistory | srv_mng.c:78-122 | a user is active if and only if the latest successful login or logout was a login |
| History.TwoSidedExactly | srv_mng.c:101-168 | accounts list the groups that list them if and only if no name that some request registered has a successful join standing, with no later leave and no later successful logout |
| History.TwoSidedFails | srv_mng.c:152-168 | a register, a create and a join are enough for the two sides to disagree |
| History.GroupByHistory | grp_mng.c:93-147 | a group is live at an address if and only if a creation of it was told that address |
| History.JoinTellsCreatedAddress | grp_mng.c:187-237 | a successful join tells the address its group's creation told |
| History.CreatedAddressesDiffer | srv_mng.c:134-151 | over a whole run no two successful creations are told the same address |
| History.CreatedAddressForm | grp_mng.c:58-73 | each such address is the prefix and a number from 1 to 100 |
| History.LeakedByHistory | srv_mng.c:134-151 | over every run of requests, exactly one address is lost for each create refused while an address was free |
| History.CapacityByHistory | srv_mng.c:134-151 | live groups and free addresses number a hundred less one for each create so refused |
| History.ExhaustedForever | srv_mng.c:56-221 | once no address is free, no request frees one or adds a group |
| History.ReplayIsIdempotent | srv_mng.c:56-221 | handling a packet twice changes no account, group, address or membership, and nothing at all unless it is a create that finds the queue not empty, which costs the front address |
| History.ReplayUnnoticed | srv_mng.c:56-221 | a replay of any packet but a create, anywhere in a run, leaves the whole rest of the run as it was |
| History.LogOutFrame | srv_mng.c:101-122 | a logout takes the user out of every group and changes no other membership, no group, no address and no other account; for an unregistered name it changes nothing |
| Handler.RequestArrives | srv_mng.c:53-63 | every request a client can pack is the request the handler sees, whatever is left in the buffer behind it |
| Handler.RequestBytes | protocol.c:117-171 | every byte of every request a client packs |
| Handler.RequestRead | srv_mng.c:53-221 | what every buffer is taken for, by its tag and the places of its strings; any tag but the seven requests is ignored |
| Handler.ReplyArrives | srv_mng.c:74-76 | every reply but a listing decodes to exactly what the server decided |
| Handler.AnswerBytes | srv_mng.c:56-221 | every byte of every answer but a listing: the request's tag plus one, code 1 for success and 0 for failure, the address and port "2021" if one is told, the texts "ip" and "port" if not |
| Handler.ListingBytes | srv_mng.c:176-198 | every byte of a listing: tag 14, the size, 1, code 1, and the names of all live groups in some order |
| Handler.ListingFitsExactly | srv_mng.c:176-185 | a listing fits its buffer if and only if its text has at most 999 bytes |
| Handler.ListingArrivesCut | srv_mng.c:176-198 | the client sees some order of all the live names, cut to the code of the first byte; whole if and only if the listing's length is no more than that code |
| Handler.ListingsArriveWholeExactly | srv_mng.c:176-198 | in any state, every listing the server can send arrives whole, whatever the order of the names, if and only if no group is live or the listing is no longer than the code of any live name's first byte |
| Handler.ListingOfOne | srv_mng.c:176-198 | after one create, the client sees the listing whole if and only if the name is empty or, with its separator, no longer than the code of its first byte |
| Handler.OneNameCut | srv_mng.c:176-198 | a listing the server can come to send and the client does not see whole |
| Handler.RunArrives | srv_mng.c:53-56 | a run sent as packed requests is handled as exactly those requests |
| Handler.AnswersArrive | srv_mng.c:56-221 | every answer of a whole run but the listings decodes to what the run decided at that point |
| Handler.ThirtyTwoCreates | srv_mng.c:176-185 | in any run of packets with at most 32 creates every listing fits its buffer |
| Handler.ThirtyThreeCreatesOverrun | srv_mng.c:176-185 | a run the server takes, 33 creates of distinct 29-byte names and a listing request, leaves the buffer |
| Handler.ThirtyTwoCreatesExactly | srv_mng.c:176-185 | runs of up to k creates of field-length names never leave the listing buffer if and only if k is at most 32 |
| Handler.SendStatus | srv_mng.c:74-76 | the bytes sent are the encoding of the plain reply |
| Handler.SendAddress | srv_mng.c:138-173 | the bytes sent are the encoding of the address reply, also for join replies packed under the create tag |
| Handler.SendNames | srv_mng.c:184-196 | the bytes sent are the encoding of the listing reply |
| Handler.SrvMng.constructor | srv_mng.c:224-249 | a new server is the chat server before its first request |
| Handler.SrvMng.OnLogOut | srv_mng.c:108-117 | the three manager calls together are one logout of the chat server |
| Handler.SrvMng.OnSeeAll | srv_mng.c:176-198 | the reply lists every live group exactly once, in some order, if and only if the listing fits its buffer |
| Handler.SrvMng.Act | srv_mng.c:56-221 | for each tag the managers take the chat server's step and the outcome is what the client is to be told |
| Handler.SrvMng.GotMessage | srv_mng.c:24-222 | a packet takes the managers to the state, and sends the bytes, that the chat server's step prescribes, unless it asks for a listing that leaves its buffer; a packet that is no request changes nothing and sends nothing |
| Handler.SrvMng.HandleAll | srv_mng.c:24-222 | over every run of packets the state is the chat server's after the same requests, and each answer the one it gives at that point; a run in which a listing leaves its buffer is followed exactly up to the first such listing |
| Transcript.AllDue | srv_mng.c:24-222 | over every run, every reply is byte for byte the one due by the requests before it: who has registered first and with what password, which groups the first hundred creates name, which joins still stand |
| Transcript.FirstAskTold | srv_mng.c:124-151 | a create that succeeds is the first of the first hundred creates to name the group, and is told the address of its place |
| ServerNet.SelectOperation | server_net.c:220-241 | -1 for an error or a timeout, otherwise the number and set of ready descriptors, each open, and beyond the copied part also in the previous working set |
| ServerNet.HighestBelow | server_net.c:366-372 | the downward search ends, at the true maximum of the set |
| ServerNet.ServeClient | server_net.c:321-375 | one client's receive, handler call and close, with the counters agreeing with the set afterwards |
| ServerNet.ScanReady | server_net.c:284-377 | the countdown scan, bounded by a maximum that may grow on the way, does what a plain scan of every descriptor does; the listener stays, the maximum and the client count are exact |
| ServerNet.RunServer | server_net.c:261-388 | over every run the loop ends in the state prescribed, with exact counters, and closes exactly the descriptors still open |
| ServerNet.CloseAll | server_net.c:380-386 | exactly the open descriptors are closed |
| ServerNet.PassKeepsGood | server_net.c:277-378 | every pass keeps the listener open, all descriptors in range, the buffer equal to what the handler was given last, and every call without new data a repeat of the call before it |
| ServerNet.ScanServes | server_net.c:284-377 | a scan serves exactly the ready clients up to where it stops, each once, in rising order; all of them if it does not stop |
| ServerNet.ScanHandsOver | server_net.c:325-344 | each handler call of a scan is given what recv returned for that client, at the front of the buffer, and the result of recv |
| ServerNet.ScanStops | server_net.c:284-377 | a scan stops at the first ready descriptor from which nothing comes, an accept or a recv, and nowhere else |
| ServerNet.ScanOpens | server_net.c:293-374 | after a scan a descriptor is open if and only if it was open or was accepted on the way, and no recv on it came back without data |
| ServerNet.PassOpens | server_net.c:277-378 | the same for a whole pass, which ends the loop if and only if select fails, or an accept does and would not just block |
| ServerNet.OpenExactly | server_net.c:261-388 | after every run, open are exactly the listening socket and the descriptors that some accept returned and from which only data has come since; the loop has ended if and only if some round ended it |
| ServerNet.RunKeepsRest | server_net.c:325-344 | over every run, each handler call finds behind what was received the bytes the buffer held before |
| ServerNet.WatchedBit | server_net.c:227 | the bits of descriptors below 64 are copied from the master set, the others keep what the working set held |
| ServerNet.WatchedIsMaster | server_net.c:227 | the copy before select is a full one if and only if the two sets agree beyond descriptor 63 |
| ServerNet.WatchedFromZero | server_net.c:227 | from a zeroed working set every open descriptor is watched if and only if all are below 64 |
| ServerNet.AllWatchedExactly | server_net.c:220-378 | after every run from a zeroed working set, the next select watches every open descriptor if and only if all of them are below 64 |
| ServerNet.NeverAllWatchedAgain | server_net.c:220-378 | once a client on descriptor 64 or above is open, it stays open and unwatched over the rest of every run |
| ServerNet.UnwatchedClientAccepted | server_net.c:227 | a run of the loop that accepts such a client |
| ServerNet.HighClientsStarve | server_net.c:220-378 | over every run, whatever the uninitialised working set holds, a client on descriptor 64 or above whose bit was not in it stays open and is never served |
| ServerNet.HighClientsStarveFromZero | server_net.c:220-378 | in particular, from a zeroed working set nothing from descriptor 64 up is ever served |
| Service.RunServing | server_net.c:261-388 | over every run in which each receive begins with a packed request, the handler can take every call, and each call with data asks exactly the request received |
| Service.Activate | srv_mng.c:280-283 | from its start the server ends where the chat server does after the same requests, with the same answers, each the bytes the earlier requests make due, as far as no listing leaves its buffer |
| Closing.CloseIsHarmless | server_net.c:325-358 | in any run of the loop, a handler call without data changes nothing if and only if it is not costly: it does not repeat a create while an address is free, nor, as the first call of all, register or create; past the first call it never changes an account, group, address or membership |
| Closing.FirstCall | server_net.c:268-344 | the first call of all changes nothing if and only if what the buffer holds neither registers nor creates |
| Closing.ClosesUnnoticed | server_net.c:261-388 | over a whole run, however many connections close, the server ends exactly where the received packets alone would have taken it, as long as no call without data is costly |
| Closing.ClosesUnnoticedExactly | server_net.c:261-388 | at every point of the run the server is where the received packets alone would have taken it, if and only if no call without data is costly |
| Closing.CloseCostsAnAddress | server_net.c:325-358 | a client that creates a group and closes its connection costs an address that the create alone leaves free |

## Left out

- The client programs, the multicast sender and listener, and the process control around them: input, output and processes only.
- NULL arguments and failed allocations: branches that return an error code and change nothing.
- The client list of the select loop, its clean-up routine and the unused counters `m_numclients` and `m_numOfUsers`: nothing that is modelled reads them. The four notification callbacks are NULL in this server.
- Hash functions and the insides of the container library: its source is not in the repository.
- Buffers from which a length would carry the unpackers out of the buffer or a string out of its field: `Handler.Acceptable` excludes them, because the C code has no defined behaviour there or leaves a field without a terminator. A receive buffer before its first byte arrives is subject to the same condition.
- What follows the first packet of a receive, and a packet spread over several: the handler takes the packet at the front of the buffer and the loop keeps no partial ones, so only the first packet of a receive is handled and the rest is dropped, as in the original.
- Handler.SrvMng.GotMessage: promises nothing once a listing leaves its 1000-byte buffer, where the behaviour of the C code is undefined; it says exactly when that happens.
- ServerNet.ScanReady: the bits a system may leave beyond the highest descriptor asked for are cleared, so a descriptor accepted mid-scan is never taken for ready.
- Handler.SrvMng.HandleAll: takes the delivered packets as a sequence, not the select loop's own buffer, so the interleaving of the loop's bookkeeping with the handler is not modelled.
- Protocol.ProtocolUnpack: says what a zeroed struct comes to hold, and nothing of one that was in use before; every struct the server unpacks into comes from `calloc`.
- Decimal.MyItoA: negative numbers, which the original would spell with characters below the digits; it is called with 1 to 100 only.
- The listing request's own string: the handler does not unpack it.
