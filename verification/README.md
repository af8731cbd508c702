# PicoCommon: a verified model of its protocol servers and text machines

PicoCommon is a set of C and C++ modules for the Raspberry Pi Pico W. This project models the
parts that keep state or rewrite buffers in place, and proves what they guarantee.

* **DHCP server.** Eight addresses are leased to clients identified by a MAC address. A lease keeps
  its expiry in 16 bits and tests it with a signed 32-bit difference against a millisecond counter
  that wraps. Time in the model is an unbounded natural number of which the code sees only the value
  modulo 2^32, with one reading for each turn of the DISCOVER loop. `LeaseClock` has the arithmetic,
  `LeaseTable` the reaction to one message, `LeaseRuns`, `LeaseOffers`, `LeaseClients` and
  `LeaseCapacity` the guarantees over whole runs (leases, offers, addresses per client, clients served),
  `DhcpOptions` and `DhcpMessage` the octets, `DhcpServer` the imperative server, `DhcpOctets`
  what it reads and sends octet by octet, `DhcpWire` the guarantees stated about datagrams, and
  `DhcpDatagrams` the datagrams that bring each run about. Formats follow RFC 2131 section 2 and
  RFC 2132 sections 2, 3 and 9.
* **DNS server.** Every standard query is answered with the server's own address, in the 300-octet
  array that holds the query. `DnsName` has the walk over a name, `DnsMessage` a decoder for
  messages with compression pointers (RFC 1035 sections 3.1 and 4.1), `DnsServer` the server, and
  `DnsPackets` which datagrams it answers and with which octets.
* **HTTP request cutter and URL routers.** `HttpServer` cuts the request by writing NULs in its
  buffer; `UrlCollection` is the registry ordered by pointer address; `UrlRouting` says where a
  request goes.
* **Serial console.** `SerialConsole` assembles lines character by character and runs them;
  `ConsoleLines` says which lines and commands those are.
* **Newline expander.** `HtmlHelper` sizes and then writes a text with `<br>` for each newline.

`Bytes` and `CStrings` are shared vocabulary. Each class method is proved against a specification
function, and the lemmas state what that function means. Whatever the C code leaves in an
uninitialised buffer is a parameter (`stack`), so every statement holds for all its contents.

Some properties one might expect have limits. Each limit has a failing input and an exact condition.

| expected | holds exactly when | failing input |
|---|---|---|
| a lapsed lease tests as expired | the time since its rounded end is in the first half of a clock wrap (`ExpiryExactly`) | `StaleLeaseReadsLive`, for every grant |
| a leased address is exclusive | the client's MAC is not all zero (`ExclusiveIff`; on the wire `HasItAloneIff`) | `ZeroMacIsNotExclusive`, `ZeroMacShares` |
| an offer taken up is honoured | each rival given the slot in between was cleared out of it since (`OfferIsHonouredIff`); within a lease time: there was none (`OfferIsHonouredInTime`) | `BothOfferedTheSame` |
| no client holds two addresses | no client that holds one asks for another that is free (`OneAddressIff`) | `TwoAddresses` |
| the option search agrees with RFC 2132 for every code | no PAD stands at an item boundary (`AgreesIffPadFree`). The "only if" rests on code 0, PAD itself, which the server never searches for: for a code from 1 to 254 it suffices that no PAD comes before its first option (`AgreesBeforePad`), but PADs may do no harm (`PairOfPadsHidesNone`) | `PadHidesAnOption` |
| a DNS reply depends on received octets alone | the message has a complete first question (`AnswersWhatWasReceivedIff`) | `BareHeaderIsAnswered` |
| routing does not depend on addresses | the path is registered with one generator, or all URLs that begin the request have one function (`OrderFreeIff`) | `SameTextTwice`, `TwoPrefixes` |
| both routers serve the same requests | not: the path's first registration has a function, and the first URL that begins the request has none (`RoutersDifferIff`) | `NullFunctionHides` |
| the newline expansion can be undone | the text has no `<br>` of its own (`LosslessIff`) | `OwnBrIsLost` |

Two source comments differ from the code, which the model follows: bit 7 of the DNS flags is labelled
"authenticated" at `ap_website/dnsserver/dnsserver.c:206` but is RA, and
`http_server/url_collection.cpp:51` announces a prefix test where the code compares for equality.

## Model

| member | source | states |
|---|---|---|
| `Bytes.ReceivedOctets` | ap_website/dhcpserver/dhcpserver.c:197 | Octet by octet, the buffer after a datagram of any length has come: the datagram as far as it reaches, then what was there |
| `LeaseClock.ExpiryExactly` | ap_website/dhcpserver/dhcpserver.c:229-230 | For every grant time and every later time, over any number of clock wraps, exactly when the test says "expired" |
| `LeaseClock.ExpiryInMilliseconds` | ap_website/dhcpserver/dhcpserver.c:229-271 | The same in numbers: 86,400,000 ms rounded up to 65,536 ms, and clock wraps of 2^32 ms |
| `LeaseClock.ExpiryWindow` | ap_website/dhcpserver/dhcpserver.c:229-230 | Up to 2^31 ms past the rounded deadline: expired if and only if more than the lease, rounded up by 0 to 65,535 ms, has elapsed |
| `LeaseClock.NeverCutShort` | ap_website/dhcpserver/dhcpserver.c:271 | However late the test is made, "expired" means the whole lease has passed |
| `LeaseClock.StaleLeaseReadsLive` | ap_website/dhcpserver/dhcpserver.c:230 | For every grant, the exact millisecond at which a lapsed lease reads as live again |
| `LeaseTable.OfferIsRight` | ap_website/dhcpserver/dhcpserver.c:216-241 | A slot is offered if and only if it is the first that holds the client, or none does and it is the first not taken by somebody else |
| `LeaseTable.SilentIffAllTaken` | ap_website/dhcpserver/dhcpserver.c:237-240 | No offer if and only if all eight slots hold other clients whose leases test as live |
| `LeaseTable.DiscoverLeaves` | ap_website/dhcpserver/dhcpserver.c:217-236 | Slot by slot, what a DISCOVER leaves: only the first usable slot before the client's own is cleared |
| `LeaseTable.DiscoverTouches` | ap_website/dhcpserver/dhcpserver.c:230-234 | At most one slot changes, by clearing the MAC of an expired lease that is not the client's; the offered slot ends up the client's or free |
| `LeaseRuns.StepProtects` | ap_website/dhcpserver/dhcpserver.c:214-278 | No message of any kind ends the protection of an acknowledged lease before its time |
| `LeaseRuns.LeaseIsExclusive` | ap_website/dhcpserver/dhcpserver.c:214-278 | In every run, from every table, two acknowledgements of one slot to different clients lie more than a lease time apart |
| `LeaseRuns.ExclusiveIff` | ap_website/dhcpserver/dhcpserver.c:261-271 | That holds for a client if and only if its MAC is not all zero |
| `LeaseRuns.ZeroMacIsNotExclusive` | ap_website/dhcpserver/dhcpserver.c:263-265 | A run in which the all-zero client loses its address at once |
| `LeaseRuns.RenewalsNeverFail` | ap_website/dhcpserver/dhcpserver.c:256-271 | A client that asks again within each lease time is acknowledged every time, whatever others send |
| `LeaseRuns.OnlySlotLeft` | ap_website/dhcpserver/dhcpserver.c:216-240 | With seven slots taken, a newcomer gets the eighth if and only if it tests as expired |
| `LeaseRuns.LeaseComesFromLastAck` | ap_website/dhcpserver/dhcpserver.c:229-271 | In every run from the initial table, a taken slot's lease is its last acknowledgement's: that client, the expiry of that time |
| `LeaseRuns.TakenByHistory` | ap_website/dhcpserver/dhcpserver.c:218-230 | Of a slot that holds another client, the wrapping clock says "live" if and only if its last acknowledgement has not lapsed by real time; who holds it is still read from the table |
| `LeaseRuns.SilentByHistory` | ap_website/dhcpserver/dhcpserver.c:237-240 | A DISCOVER in a run goes unanswered if and only if all eight slots hold others in the table whose last acknowledgements have not lapsed by real time |
| `LeaseRuns.TermHolds` | ap_website/dhcpserver/dhcpserver.c:215-271 | An acknowledged slot keeps exactly that lease until its rounded term ends, unless acknowledged anew |
| `LeaseRuns.SilentIffAllInTerm` | ap_website/dhcpserver/dhcpserver.c:215-271 | By acknowledgements and real time alone: a DISCOVER goes unanswered if and only if every slot was last given to another nonzero client whose rounded term has not ended, each term having ended at most 2^31 ms ago |
| `LeaseRuns.LapsedLeaseIsReused` | ap_website/dhcpserver/dhcpserver.c:229-241 | In a run, with seven slots granted to others, a newcomer gets the eighth if and only if its last acknowledgement has lapsed by real time |
| `LeaseOffers.OfferStands` | ap_website/dhcpserver/dhcpserver.c:215-272 | After an offer the slot holds the client or is free until it is given to a rival |
| `LeaseOffers.OfferIsRedeemable` | ap_website/dhcpserver/dhcpserver.c:252-273 | So the client's later REQUEST is acknowledged, however long it waits and whoever asked and was refused |
| `LeaseOffers.OfferIsHonouredIff` | ap_website/dhcpserver/dhcpserver.c:215-273 | After any wait, the client's REQUEST is acknowledged if and only if every rival that was given the slot in between has since been cleared out of it by a DISCOVER |
| `LeaseOffers.OfferIsHonouredInTime` | ap_website/dhcpserver/dhcpserver.c:215-273 | Within a lease time, if and only if the slot was given to no rival in between |
| `LeaseOffers.OfferIsNoReservation` | ap_website/dhcpserver/dhcpserver.c:216-271 | From any table, a newly offered slot goes to the first other client that asks, and then the offer is void |
| `LeaseOffers.BothOfferedTheSame` | ap_website/dhcpserver/dhcpserver.c:216-271 | For any two clients: a run in which the second takes what the first was offered |
| `LeaseClients.DiscoverKeepsHolders` | ap_website/dhcpserver/dhcpserver.c:218-222 | A DISCOVER makes nobody a holder, and offers a holder a slot it holds |
| `LeaseClients.OneAddressIff` | ap_website/dhcpserver/dhcpserver.c:261-266 | Over any run that starts so: no client ever holds two addresses if and only if no holder asks for another slot that is free |
| `LeaseClients.HeldIsLastOffered` | ap_website/dhcpserver/dhcpserver.c:215-278 | If clients request only what they were last offered, no slot but that one ever holds them |
| `LeaseClients.DisciplinedTakesNoSecond` | ap_website/dhcpserver/dhcpserver.c:261-266 | A client that asks only for what it was last offered never asks so |
| `LeaseClients.OneAddressEach` | ap_website/dhcpserver/dhcpserver.c:215-278 | So no table that such clients reach holds a nonzero client twice |
| `LeaseClients.SecondAddressWaits` | ap_website/dhcpserver/dhcpserver.c:215-278 | And a client is given another address only when its lease of the one before has run out |
| `LeaseClients.TwoAddresses` | ap_website/dhcpserver/dhcpserver.c:261-271 | Without that discipline any client can hold any two slots |
| `LeaseCapacity.RoomForEight` | ap_website/dhcpserver/dhcpserver.c:216-241 | In every run from the initial table: where no client holds two slots and at most eight clients ever asked, the discovering one among them, it is offered an address, however long ago the others asked |
| `LeaseCapacity.EightAreServed` | ap_website/dhcpserver/dhcpserver.c:215-278 | So if clients request only what they were last offered, no DISCOVER by one of eight clients goes unanswered |
| `LeaseCapacity.NinthClientWaits` | ap_website/dhcpserver/dhcpserver.c:215-278 | Any nine clients that come one after the other within a lease time: eight are each given an address of their own and the ninth gets no answer |
| `DhcpOptions.FindInList` | ap_website/dhcpserver/dhcpserver.c:146-154 | In any encoded list the search finds the first option with the code, at its offset, or nothing, whatever its data octets are |
| `DhcpOptions.FindAbsentIff` | ap_website/dhcpserver/dhcpserver.c:146-154 | It finds nothing if and only if no option has the code |
| `DhcpOptions.HoldsIffEncoded` | ap_website/dhcpserver/dhcpserver.c:156-162 | An area holds a list item by item if and only if it begins with the list's encoding and END |
| `DhcpOptions.DecodeInvertsEncode` | ap_website/dhcpserver/dhcpserver.c:156-162 | Reading by RFC 2132 undoes writing, whatever follows END |
| `DhcpOptions.EncodeInvertsDecode` | ap_website/dhcpserver/dhcpserver.c:146-154 | And an area without PAD that RFC 2132 can read is the encoding of what is read |
| `DhcpOptions.AgreesBeforePad` | ap_website/dhcpserver/dhcpserver.c:146-154 | For each code, the search finds what RFC 2132 reads unless a PAD stands before the code's first option |
| `DhcpOptions.AgreesIffPadFree` | ap_website/dhcpserver/dhcpserver.c:146-154 | On an area RFC 2132 can read, it does so for every code, 0 included, if and only if no PAD stands at an item boundary |
| `DhcpOptions.PadHidesAnOption` | ap_website/dhcpserver/dhcpserver.c:147-152 | With a PAD in front it does not |
| `DhcpOptions.PairOfPadsHidesNone` | ap_website/dhcpserver/dhcpserver.c:147-152 | With two it finds every option: for codes from 1 to 254 PAD-freedom is not necessary |
| `DhcpOptions.OptFind` | ap_website/dhcpserver/dhcpserver.c:146-154 | The loop returns the index the scan specification gives, for every buffer |
| `DhcpOptions.OptWriteN` | ap_website/dhcpserver/dhcpserver.c:156-162 | The option's encoding is written at the pointer and nothing else changes |
| `DhcpOptions.OptWriteU8` | ap_website/dhcpserver/dhcpserver.c:164-170 | The same for a single octet |
| `DhcpOptions.OptWriteU32` | ap_website/dhcpserver/dhcpserver.c:172-181 | The same for a 32-bit value, most significant octet first |
| `DhcpMessage.WellFormedIsRead` | ap_website/dhcpserver/dhcpserver.c:208-260 | In well-formed options: read as DISCOVER, or as REQUEST for a slot, if and only if the first type option and the first requested address say so |
| `DhcpMessage.SameAddress` | ap_website/dhcpserver/dhcpserver.c:252-260 | The two tests on the requested address recognise exactly the addresses leased |
| `DhcpMessage.ReplyDecodes` | ap_website/dhcpserver/dhcpserver.c:202-291 | The 274-octet reply decodes to the request's fixed fields but opcode 2 and `yiaddr`, and to exactly the options 53, 54, 1, 3, 6 and 51 with their values |
| `DhcpMessage.ReplyIsSearchable` | ap_website/dhcpserver/dhcpserver.c:284-289 | Searching the reply gives each option's value and no other; the mask, 1, stands before the router, 3 |
| `DhcpMessage.ReplyInOctets` | ap_website/dhcpserver/dhcpserver.c:202-291 | The whole reply, every octet that is not the request's in numbers |
| `DhcpMessage.ReplyValues` | ap_website/dhcpserver/dhcpserver.c:284-288 | The values by code: 53 the type, 54 the server, 1 the mask, 3 the router, 6 the DNS server, 51 the octets of 86,400 seconds |
| `DhcpServer.Server.constructor` | ap_website/dhcpserver/dhcpserver.c:297-300 | All leases are free |
| `DhcpServer.Server.ChooseSlot` | ap_website/dhcpserver/dhcpserver.c:216-240 | The DISCOVER loop refines the specification of offer and table |
| `DhcpServer.Server.GrantSlot` | ap_website/dhcpserver/dhcpserver.c:261-271 | The REQUEST branch refines the specification of grant and table |
| `DhcpServer.Server.ReadMessage` | ap_website/dhcpserver/dhcpserver.c:205-260 | Read from the partly overwritten buffer, the message is the one that was received |
| `DhcpServer.Server.WriteReply` | ap_website/dhcpserver/dhcpserver.c:242-289 | The octets written over the request are the specified reply |
| `DhcpServer.Server.Process` | ap_website/dhcpserver/dhcpserver.c:183-295 | One datagram takes the leases one step and sends the specified answer, for every earlier content of the buffer; `DhcpOctets` says what that is in the datagram's own octets |
| `DhcpOctets.ShortIsIgnored` | ap_website/dhcpserver/dhcpserver.c:192-195 | A datagram of fewer than 243 octets is not answered and changes nothing |
| `DhcpOctets.ShortestDiscover` | ap_website/dhcpserver/dhcpserver.c:192-215 | Of 243 octets or more, three of options suffice for a DISCOVER |
| `DhcpOctets.OptionsAreRead` | ap_website/dhcpserver/dhcpserver.c:205-260 | For a datagram of any length that carries well-formed options: type 1 is a DISCOVER, type 3 a REQUEST for the slot of a requested address on the network with host octet 16 to 23, all else is ignored; the client is its octets 28 to 33 |
| `DhcpOctets.AnswerInOctets` | ap_website/dhcpserver/dhcpserver.c:197-291 | Every answer to every datagram, octet by octet from the datagram itself, whatever the buffer held |
| `DhcpOctets.DiscoverIsAnswered` | ap_website/dhcpserver/dhcpserver.c:183-291 | A DISCOVER datagram is answered by the offer of host octet 16 + c if and only if slot c is the right one, and by nothing if and only if all slots are taken |
| `DhcpOctets.RequestIsAnswered` | ap_website/dhcpserver/dhcpserver.c:183-291 | A REQUEST datagram is acknowledged, and the lease written, if and only if the address is a leased one whose slot is free or the client's |
| `DhcpWire.AddressIsExclusive` | ap_website/dhcpserver/dhcpserver.c:183-295 | Over runs of raw datagrams: acknowledgements of one address to two hardware addresses lie more than 86,400,000 ms apart |
| `DhcpWire.RenewedAddressIsKept` | ap_website/dhcpserver/dhcpserver.c:183-295 | A client that keeps sending REQUESTs for its address in time has every one acknowledged, whatever other datagrams arrive |
| `DhcpWire.OfferedAddressIsGranted` | ap_website/dhcpserver/dhcpserver.c:183-295 | An address read in an offer and asked for after any wait is acknowledged if and only if each time an answer in between gave it away, a later DISCOVER had it cleared |
| `DhcpWire.OfferedAddressInTime` | ap_website/dhcpserver/dhcpserver.c:183-295 | Asked for within 86,400,000 ms: if and only if no answer in between gave it away |
| `DhcpWire.WellFormedAsks` | ap_website/dhcpserver/dhcpserver.c:208-260 | A well-formed REQUEST that carries a leased address is one that asks for it |
| `DhcpWire.AnswerKeepsTransaction` | ap_website/dhcpserver/dhcpserver.c:183-295 | Every answer carries octets 4 to 7, 10 and 11, and 28 to 43 of the datagram it answers as transaction id, flags and hardware address |
| `DhcpWire.OneAddressAtATime` | ap_website/dhcpserver/dhcpserver.c:183-295 | Where clients ask only for what answers last offered them, two different addresses are acknowledged to one client more than 86,400,000 ms apart |
| `DhcpDatagrams.EventOnWire` | ap_website/dhcpserver/dhcpserver.c:205-260 | For every table event there is a datagram that the server reads as that event, whatever its buffer held before |
| `DhcpDatagrams.EveryRunIsOnTheWire` | ap_website/dhcpserver/dhcpserver.c:183-295 | Every run of the lease table is brought about by datagrams |
| `DhcpDatagrams.ZeroMacShares` | ap_website/dhcpserver/dhcpserver.c:261-271 | For every server: two datagrams by which the all-zero client and any other are acknowledged one address at one time |
| `DhcpDatagrams.HasItAloneIff` | ap_website/dhcpserver/dhcpserver.c:183-295 | For every server, acknowledged addresses are exclusive on the wire if and only if the client's MAC is not all zero |
| `DnsName.WalkInvertsEncoding` | ap_website/dnsserver/dnsserver.c:154-170 | Over any complete name the walk meets exactly its labels and stops past the root, or refuses if and only if a label exceeds 63 |
| `DnsName.EncodingInvertsWalk` | ap_website/dnsserver/dnsserver.c:154-170 | A walk that stops at a root octet walked over the encoding of the labels it met |
| `DnsName.WalkStaysClose` | ap_website/dnsserver/dnsserver.c:154-170 | The walk stops at a root inside the message or at most 63 octets past it |
| `DnsServer.PassesIffLegal` | ap_website/dnsserver/dnsserver.c:154-177 | A complete name passes both checks if and only if RFC 1035 section 2.3.4 allows it |
| `DnsServer.StandardQueryIsAnswered` | ap_website/dnsserver/dnsserver.c:119-214 | Every standard query with a complete legal question gets a reply that decodes to that question and one address record, whatever follows the question |
| `DnsServer.RepliesAreNotAnswered` | ap_website/dnsserver/dnsserver.c:131-135 | No reply, fed back to any such server, is answered |
| `DnsServer.ReplyFits` | ap_website/dnsserver/dnsserver.c:173-201 | For every array content and length, a reply ends at offset 287 or before |
| `DnsServer.CompleteIffWalkEnds` | ap_website/dnsserver/dnsserver.c:154-180 | Where the checks pass, the walk leaves room for type and class if and only if the message has a complete question |
| `DnsServer.AnswersWhatWasReceivedIff` | ap_website/dnsserver/dnsserver.c:149-183 | The reply depends on received octets alone if and only if the first question is complete |
| `DnsServer.BareHeaderIsAnswered` | ap_website/dnsserver/dnsserver.c:111-184 | Every bare header of a one-question query is answered with stale octets as its question |
| `DnsServer.StandardIff` | ap_website/dnsserver/dnsserver.c:131-147 | The header decodes as a standard query with a question if and only if octet 2 is below 8 and octets 4 and 5 are not both zero, whatever AA, TC, RD and octet 3 are |
| `DnsServer.Server.ChecksHeader` | ap_website/dnsserver/dnsserver.c:111-147 | The header tests pass if and only if octet 2 is below 8 and octets 4 and 5 are not both zero: the decoded header is a standard query with a question |
| `DnsServer.Server.WalkQuestion` | ap_website/dnsserver/dnsserver.c:151-171 | The loop stops where the walk over the received octets stops, having met its labels |
| `DnsServer.Server.WriteAnswer` | ap_website/dnsserver/dnsserver.c:182-210 | Record and header written in place make the specified reply |
| `DnsServer.Server.Process` | ap_website/dnsserver/dnsserver.c:103-218 | One datagram is answered as specified, for every earlier content of the array; `DnsPackets` says what that is in the datagram's own octets |
| `DnsPackets.PassesIff` | ap_website/dnsserver/dnsserver.c:149-177 | Both checks on the question pass if and only if labels of 1 to 63 octets stand at offset 12, ended by a root within 255 octets or cut short by the message's end with at most 255 |
| `DnsPackets.AnsweredIff` | ap_website/dnsserver/dnsserver.c:103-184 | Exactly which datagrams are answered, in terms of their first 300 octets alone |
| `DnsPackets.WholeNameIsAnsweredIff` | ap_website/dnsserver/dnsserver.c:131-177 | A query of any length whose first name is complete is answered if and only if the name's labels and size are lawful |
| `DnsPackets.QuestionIsAnswered` | ap_website/dnsserver/dnsserver.c:103-214 | The reply to every query with a lawful name, type and class, octet by octet from the datagram, and what it decodes to, whatever the array held |
| `HttpServer.KeyIsPath` | http_server/http_server.c:83-96 | In every order of '?' and space, the key looked up is the text up to the first of them |
| `HttpServer.QueryIsGiven` | http_server/http_server.c:85-93 | For `path?query` and a space, the handler is given exactly the query |
| `HttpServer.QueryToTheEnd` | http_server/http_server.c:85-93 | For `path?query` without a space, likewise |
| `HttpServer.NoMarkNoParameters` | http_server/http_server.c:85 | Without a '?' the handler is given no parameters, and the target is the whole text |
| `HttpServer.LateMarkGivesParameters` | http_server/http_server.c:85-93 | A '?' after the first space still makes everything behind it the parameters |
| `HttpServer.EveryTextIsFormed` | http_server/http_server.c:85-93 | Every text has one of those four forms |
| `HttpServer.FormIsCut` | http_server/http_server.c:85-93 | And its form tells what the handler is given |
| `HttpServer.GetReachesItsPage` | http_server/http_server.c:79-102 | A GET whose path is registered is served by its own page |
| `HttpServer.Server.CutInPlace` | http_server/http_server.c:85-96 | After the NULs are written, the buffer holds the specified target and parameters |
| `HttpServer.Server.GetGenerate` | http_server/http_server.c:52-77 | Exactly the request's page is called; the fallback handler is asked exactly about requests that no page serves, and never about others |
| `HttpServer.TextIs` | http_server/http_server.c:82-83 | What is read from a buffer of "GET", one character, a text and NUL is that text |
| `HttpServer.Server.HandleTcpData` | http_server/http_server.c:79-102 | A buffer of "GET", one character, a text and NUL is routed by the text's cut, and a buffer without "GET" is left alone |
| `HttpServer.Server.RegisterGenerator` | http_server/http_server.c:151-154 | Updates the map of URLs at one address |
| `HttpServer.RegisterThenGet` | http_server/http_server.c:79-102 | After a page is registered, a GET for its path calls its generator and nothing else, with nothing if there is no '?' and with the query if there is one, unless another address gives the same text to another |
| `UrlRouting.ExactPageIsServed` | http_server/url_collection.cpp:62-80 | A page registered under the request's path, always with the same generator, is served in every order of the map, whatever URLs begin the request |
| `UrlRouting.RoutersServeTheSame` | http_server/url_collection.cpp:62-81 | Without null handlers both routers serve a request if and only if some registered URL begins it |
| `UrlRouting.RoutersDifferIff` | http_server/url_collection.cpp:62-81 | With null functions, exactly which requests the HTTP router serves and the prefix router does not; the reverse never happens |
| `UrlRouting.NullFunctionHides` | http_server/url_collection.cpp:65-77 | Such a request |
| `UrlRouting.OrderFreeIff` | http_server/url_collection.cpp:15-81 | For every registry: the order of addresses makes no difference if and only if the path is registered with one generator, or all URLs that begin the request have one function |
| `UrlRouting.SameTextTwice` | http_server/url_collection.cpp:17-21 | One text at two addresses with different generators: order decides although the path is registered |
| `UrlRouting.TwoPrefixes` | http_server/url_collection.cpp:26-30 | Of "/temp" and "/tempC" the one at the lower address serves "/tempC/x" |
| `UrlCollection.Registry.RegisterUrl` | http_server/url_collection.cpp:17-21 | Updates the map at one address and keeps its order |
| `UrlCollection.ItemsAreRegistered` | http_server/url_collection.cpp:15-30 | A loop over the map meets exactly the items registered in it |
| `UrlCollection.RegisteredServes` | http_server/url_collection.cpp:17-58 | A text is registered everywhere with one generator if and only if routing finds just that generator for it |
| `UrlCollection.Registry.FindHandler` | http_server/url_collection.cpp:23-34 | The URL at the least address among those that begin the request |
| `UrlCollection.Registry.FindExact` | http_server/url_collection.cpp:36-59 | The URL at the least address among those equal to the request up to its first space; none for an empty request |
| `UrlCollection.PrefixByAddress` | http_server/url_collection.cpp:23-34 | Prefix match finds the function at the least address whose URL begins the request, and none if no URL does |
| `UrlCollection.RouteByAddress` | http_server/url_collection.cpp:62-80 | The function at the least address whose URL is the path decides; where there is none, prefix match does |
| `UrlCollection.Registry.CreateHtmlPage` | http_server/url_collection.cpp:62-81 | Calls exactly the routed handler, by the least address, with the parameters, or none |
| `UrlCollection.Registry.CreateApHtmlPage` | ap_website/url_collection.cpp:34-45 | The same for prefix match alone |
| `ConsoleLines.FeedConcat` | serial_console/serial_console.cpp:66-100 | Feeding a stream in pieces is feeding it at once, wherever it is cut |
| `ConsoleLines.FeedSplits` | serial_console/serial_console.cpp:73-96 | Character by character, the lines are the non-empty ones of the filtered stream split at newlines |
| `ConsoleLines.VisibleIsTyped` | serial_console/serial_console.cpp:73 | The filter passes codes 32 to 126 and 10 and nothing else: of a text typed with any other codes between, it leaves the text |
| `ConsoleLines.EveryStreamIsTyped` | serial_console/serial_console.cpp:73 | Every stream is such a text with other codes between |
| `ConsoleLines.FeedTyped` | serial_console/serial_console.cpp:66-100 | The lines of what was typed are the lines typed |
| `ConsoleLines.NonEmptyKeeps` | serial_console/serial_console.cpp:86 | None of them is lost |
| `ConsoleLines.EmptyIsDropped` | serial_console/serial_console.cpp:86 | But for the empty ones |
| `ConsoleLines.FitsByLines` | serial_console/serial_console.cpp:75-94 | The buffers suffice if and only if lines have at most 1023 characters and first words of complete lines at most 63 |
| `ConsoleLines.WordIsLookedUp` | serial_console/serial_console.cpp:117-153 | Of a word alone, or a word, a space and arguments, the word is looked up, and the whole line is there when its handler is called |
| `ConsoleLines.LastRegistrationRuns` | serial_console/serial_console.cpp:29-34 | A line calls the last handler registered for its first word, or none if there is none |
| `SerialConsole.Console.RegisterCommand` | serial_console/serial_console.cpp:29-34 | Registers unless the name or the function is null; the commands are always those of all registrations made |
| `SerialConsole.Console.FirstIndexOf` | serial_console/serial_console.cpp:102-115 | Found, ended or neither, and the index in each case |
| `SerialConsole.Console.CommandName` | serial_console/serial_console.cpp:119-139 | The name copied out is the line's text before its first space |
| `SerialConsole.Console.RunCommand` | serial_console/serial_console.cpp:117-156 | Calls what is registered for the NUL-terminated line and empties it |
| `SerialConsole.Console.Take` | serial_console/serial_console.cpp:73-96 | One character runs, extends or leaves the line, which stays NUL-terminated at its length |
| `SerialConsole.Console.SerialPoll` | serial_console/serial_console.cpp:66-100 | A poll consumes up to the first timeout or code 255 and runs the lines completed |
| `SerialConsole.Console.PollAll` | serial_console/serial_console.cpp:66-100 | However timeouts chop the stream, the calls made are those for the complete lines of its text, in order, by the registrations made: with `LastRegistrationRuns`, each calls the last handler registered for its first word |
| `SerialConsole.Console.PollTyped` | serial_console/serial_console.cpp:66-100 | Whatever lines of codes 32 to 126 are typed, with timeouts and other codes anywhere between, the calls are those for exactly these lines |
| `HtmlHelper.ExpandSize` | ap_website/html_helper.c:4-11 | The output has no newline and three characters more for each one replaced |
| `HtmlHelper.ExpandLines` | ap_website/html_helper.c:21-33 | Lines joined by newlines come out as the same lines joined by `<br>` |
| `HtmlHelper.RestoreExpand` | ap_website/html_helper.c:21-33 | Turning `<br>` back after the expansion gives what it gives on the text itself: no `<br>` straddles an inserted one |
| `HtmlHelper.LosslessIff` | ap_website/html_helper.c:21-33 | The text comes back if and only if it had no `<br>` of its own |
| `HtmlHelper.OwnBrIsLost` | ap_website/html_helper.c:21-33 | The text `<br>` itself does not |
| `HtmlHelper.SizePass` | ap_website/html_helper.c:4-11 | The first pass computes the size of the expansion |
| `HtmlHelper.WritePass` | ap_website/html_helper.c:20-33 | The second pass writes the expansion at the front and nothing else |
| `HtmlHelper.ReplaceNewlines` | ap_website/html_helper.c:1-39 | Expansion, NUL, and the rest of the buffer untouched; the size returned is the size written |

## Left out

- Sockets, pbufs, lwIP callbacks, Wi-Fi and TCP connection handling: a datagram or a received buffer is a parameter, a reply is a result, and send errors do not occur.
- littlefs (`filesystem/filesystem.c`): calls into a library that is not part of this model.
- Hardware, status printing and temperature (`serial_console/system_status.c`, `system/temperture.c`, the `main` programs): input and output only.
- Debug prints, the 404 page and other `snprintf` formatting: the model says that a 404 is sent, not its text.
- Console handlers that re-enter the console, such as `capture` (`serial_console/default_commands.c:38-51`): a handler is recorded when called and does not touch the console.
- Console lines over 1023 characters and first words over 63: the buffers do not hold them, and `ConsoleLines.Fits` excludes exactly those; the index reset at `serial_console/serial_console.cpp:75-78` cannot happen within that limit.
- DHCP messages whose type or requested-address option is cut off by the buffer's end: `DhcpMessage.Readable` excludes exactly those. The length octet that `opt_find` may read one past the area is modelled as zero, as no value of it changes the result.
- DHCPNAK, RELEASE, DECLINE and INFORM, and DNS answers other than the fixed address record: the servers do not have them.
- `get_handler` is a function of the request and its parameters that answers whether it handled them; its own effects are not modelled.
