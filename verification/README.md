# Verification of the C core

A Dafny model of the parts of the repository where bytes, states and nesting have to come out exactly right, with proofs
about it: the LDAP BER codec, the LDAP client's connection pool and stream reassembler, MD5, the XML walker of the
configuration files, base64, the circular lists, and the session tables and write queues of the servers.
`dafny verify dfyconfig.toml` checks everything.

## How it is built

Buffers, cursors and lists that the C code changes in place are arrays, classes and loops here, with the same branches
and constants; each such method is proved against a function or a predicate that does not follow the code, and the
promises are lemmas and invariants about those.

- `Bytes`, `Ber`: octets with C's signed chars and 32-bit ints, BER lengths, message ids (X.690 sections 8.1.3 and 8.3).
- `BerLists`, `BerListDecoder`: attribute and modification lists, both directions.
- `FilterSpec`, `FilterEncoder`, `FilterDecoder`, `FilterOctets`: search filters from text to BER to tree to text (RFC 4515 section 3,
  RFC 4511 section 4.5.1). A decoder is stated on whatever an encoder can produce; the value it must give back is a
  ghost argument. `FilterOctets` says in plain octets which text is which encoding.
- `Requests`, `RequestDecoder`, `RequestExamples`: whole requests from the client's call to the server's structure, and
  one of each kind octet by octet.
- `LinkedList`: the list macros on real nodes, refining sequences. Other modules use the sequences.
- `RoundRobin`, `LdapPool`: the order of dealing as a pure function, and the pool of connections that follows it.
- `Reassembler`: the read buffer shared in form by LDAP client and server.
- `Md5`, `Md5Stream`, `Md5Answer`: RFC 1321 as a step function and a fold, the unrolled rounds, the streaming
  interface, and a known answer.
- `Base64`: RFC 4648 section 4, and the resumable codec.
- `SessionTable`, `WriteQueue`: slots, counters, timeouts and queued output of the servers.
- `Xml`, `XmlTree`, `XmlConfig`, `XmlEntities`, `XmlExample`: the walker on arbitrary bytes, what it finds in printed
  trees, lookups, entities, and one document spelled out.

What the network, a clock, a callback or the memory behind an input gives is a parameter. Allocation succeeds.

## What the proofs turned up

Each of these is a property that does not hold for every input; the condition under which it holds is proved.

- CREATE_DN (and its copies for a new RDN and a deleted entry) hands INSERT_LENGTH its own scratch variable as the
  length, so a name of 256 octets or more is sent as an empty one with the length octet 0x80
  (`Requests.AliasedIsTlv`, and the round trips).
- INSERT_LENGTH shifts an int by 32 once the length reaches 2^24 (`Ber.InsertLengthShiftsDefined`).
- The filter decoder's loop over AND and OR compares a position with a length that does not count the header, so a last
  operand shorter than the header is dropped (`FilterDecoder.EncodeDecodePrint`, `FilterDecoder.LastChildLost`).
- The length octet of a substring sequence becomes 0x80 when its parts take 128 octets
  (`FilterDecoder.SequenceWellFormed`, with an input in `FilterDecoder.SequenceMalformed`).
- ber_to_attrs cuts names and values at a NUL (`BerListDecoder.StoredExactly`).
- base64_encode reads one octet past the end of its input; the text still decodes, but is the standard's only when that
  octet's leading bits are zero (`Base64.EncodedIsCanonical`).
- With a concurrency limit below 1 the pool lets every connection take one request and never makes it ready again
  (`LdapPool.Pool.Respond`, with a run in `LdapPool.Starve`; the limit in `Pool.Limit` is the one that holds).
- SDF_xml_decode_data and SDF_xml_encode_data compare with the memory behind the text: an entity that begins in the text
  and ends behind it is taken for one of the text (`XmlEntities.DecodeExact`, `XmlEntities.EncodeExact`; the attribute
  values of the configuration reader end at a quote and are safe).
- HTTP_sess_open returns success without a session when accept fails in one of two ways (`Server.SessOpen`).

## Model

| member | source | states |
|---|---|---|
| `Ber.InsertLength` | libs/stacks/ldap/ldap_common.c:531-557 | writes exactly the X.690 definite length of `len` in the fewest octets and leaves the scratch variable 0 unless the length was short; defined below 2^24, where no `int` is shifted by its width |
| `Ber.InsertLengthShiftsDefined` | libs/stacks/ldap/ldap_common.c:542-544 | the counting loop's shifts stay below the width of an int exactly for lengths below 2^24 |
| `Ber.CountOctets` | libs/stacks/ldap/ldap_common.c:542-544 | the counting loop, started from any value not above the answer, ends at the number of base-256 digits |
| `Ber.AddCharIsUnsigned` | libs/stacks/ldap/ldap_common.c:570-573 | the comparison with 0xffffff00 on a sign-extended char adds the octet's unsigned value, modulo 2^32 as an int |
| `Ber.FindLength` | libs/stacks/ldap/ldap_common.c:559-585 | reads back any readable length below 2^31 and stops behind it |
| `Ber.LengthRoundTrip` | libs/stacks/ldap/ldap_common.c:531-585 | the written length reads back as its value, and every other encoding of the value is at least as long |
| `Ber.LengthFewest` | libs/stacks/ldap/ldap_common.c:531-557 | no length that can be read is shorter than the one INSERT_LENGTH writes for its value |
| `Ber.FindTlvLength` | libs/stacks/ldap/ldap_common.c:1338-1368 | on an encoded element FIND_LEN gives the content's length, the size of the length field and the position of the content |
| `Ber.IdSource.TidIncrement` | libs/stacks/ldap/ldap_common.c:46-54 | the next id is the successor in the cycle 1 .. 0x7FFFFFFE |
| `Ber.IdAfterClosed` | libs/stacks/ldap/ldap_common.c:46-54 | after any number of steps the id is in 1 .. 0x7FFFFFFE, in closed form |
| `Ber.IdsDistinctForAPeriod` | libs/stacks/ldap/ldap_common.c:46-54 | two ids fewer than 0x7FFFFFFE steps apart differ |
| `Ber.MinMaxTestsTopBit` | libs/stacks/ldap/ldap_common.c:715-721 | the two doubling loops and the comparison with min and max decide whether the top bit of the id is set, which is when a zero octet is put in front |
| `Ber.BerTidCreate` | libs/stacks/ldap/ldap_common.c:708-735 | an id is written as the minimal INTEGER, in at most six octets |
| `Ber.ReadMessageId` | libs/stacks/ldap/ldap_common.c:1402-1409 | the shifting loop gives the big-endian value of the octets; with the four an id takes at most, no shift reaches the width of an int |
| `Ber.IdRoundTrip` | libs/stacks/ldap/ldap_common.c:708-735 | the content of the INTEGER has at most four octets, reads back as the id, and begins with a zero octet only when the next has its top bit set |
| `Ber.LengthExamples` | libs/stacks/ldap/ldap_common.c:531-557 | lengths from 0 to 0x123456 in octets |
| `Ber.IdExamples` | libs/stacks/ldap/ldap_common.c:708-735 | ids in octets, with the zero octet in front of 128 and the greatest id |
| `Ber.IntExamples` | libs/stacks/ldap/ldap_common.c:570-573 | a char of 128 is -128, and ints and unsigned ints wrap at 32 bits |
| `BerLists.GenAttr` | libs/stacks/ldap/ldap_common.c:3990-4052 | one round writes exactly the attribute's encoding for every value of `r` an earlier round can leave, and leaves such a value again |
| `BerLists.GenAttrList` | libs/stacks/ldap/ldap_common.c:3974-4057 | the whole list: the output is the concatenation of the attributes' encodings, every length exact although `r` is never reset |
| `BerLists.GenMod` | libs/stacks/ldap/ldap_common.c:4074-4161 | one modification: outer, inner and value lengths exact although two counting loops go on from `r` |
| `BerLists.GenModList` | libs/stacks/ldap/ldap_common.c:4059-4168 | the whole modification list |
| `BerListDecoder.ReadValues` | libs/stacks/ldap/ldap_common.c:1011-1024 | the countdown loop over values ends exactly at the end of the set with the values in order |
| `BerListDecoder.ReadAttrs` | libs/stacks/ldap/ldap_common.c:1683-1745 | the countdown loop over attributes ends exactly at the end of the list with the same names and values in order |
| `BerListDecoder.BerToAttrs` | libs/stacks/ldap/ldap_common.c:973-1046 | decodes the wrapped list to the attributes cut at their first NUL |
| `BerListDecoder.StoredExactly` | libs/stacks/ldap/ldap_common.c:998-999 | what ber_to_attrs keeps is the list itself exactly when no name or value contains a NUL |
| `BerListDecoder.AttrListRoundTrip` | libs/stacks/ldap/ldap_common.c:3974-4057 | generating, wrapping and decoding gives the list back exactly when it is NUL-free |
| `BerListDecoder.ReadMods` | libs/stacks/ldap/ldap_common.c:1587-1665 | the MODIFY branch gives back operations, names and values in order and ends exactly at the end |
| `FilterEncoder.CheckOperation` | libs/stacks/ldap/ldap_common.c:2171-2205 | matches exactly the expressions in which an equals sign follows the first occurrence of the operator's character, and then writes the tagged name and value |
| `FilterEncoder.MatchesIs` | libs/stacks/ldap/ldap_common.c:2171-2205 | with the first occurrence of the character at k, the expression matches exactly when octet k + 1 is '=' |
| `FilterEncoder.PutOneStar` | libs/stacks/ldap/ldap_common.c:2322-2405 | a one-star substring is written as initial, final, or initial and final parts with exact lengths |
| `FilterEncoder.PutObjectClass` | libs/stacks/ldap/ldap_common.c:2286-2303 | text without an equals sign is written as a match of objectClass |
| `FilterEncoder.CreateBerFilter` | libs/stacks/ldap/ldap_common.c:2251-2431 | a simple filter's text is written as its encoding |
| `FilterEncoder.FindClose` | libs/stacks/ldap/ldap_common.c:2451-2459 | the parenthesis-counting scan stops behind the matching close |
| `FilterEncoder.CloseSkipsBody` | libs/stacks/ldap/ldap_common.c:2451-2459 | counting passes over any printed filter whole, however deeply nested |
| `FilterEncoder.ProcessChildren` | libs/stacks/ldap/ldap_common.c:2447-2466 | the loop over operands consumes the text exactly and writes the operands' encodings in order |
| `FilterEncoder.ProcessFilter` | libs/stacks/ldap/ldap_common.c:2434-2478 | for every filter tree the text between the outer parentheses is written as the tree's encoding |
| `FilterDecoder.StringToFilter` | libs/stacks/ldap/ldap_common.c:4335-4568 | decodes the encoding of any tree to the tree with the operands it drops removed |
| `FilterDecoder.DecodeList` | libs/stacks/ldap/ldap_common.c:4343-4392 | the loop over operands, whose bound counts the header as content, keeps all operands, or all but the last |
| `FilterDecoder.DecodeSubstring` | libs/stacks/ldap/ldap_common.c:4431-4556 | a substring's parts come back in order |
| `FilterDecoder.SequenceWellFormed` | libs/stacks/ldap/ldap_common.c:2358-2405 | the substring sequence's single length octet is a definite length exactly when the parts take fewer than 128 octets |
| `FilterDecoder.SequenceMalformed` | libs/stacks/ldap/ldap_common.c:2358-2405 | a substring filter of an attribute and two parts of 62 letters fits every buffer and gets that length octet |
| `FilterDecoder.FilterToString` | libs/stacks/ldap/ldap_common.c:4176-4305 | prints any tree with parentheses around every filter |
| `FilterDecoder.EncodeDecodePrint` | libs/stacks/ldap/ldap_common.c:2434-2478 | text to BER to tree to text: the tree and the text come back exactly when the last operand of every AND and OR is at least as long as that list's own header |
| `FilterDecoder.SmallBodiesRoundTrip` | libs/stacks/ldap/ldap_common.c:4335-4568 | with encoded bodies under 256 octets and no empty list nothing is lost |
| `FilterDecoder.LastChildLost` | libs/stacks/ldap/ldap_common.c:4348-4367 | a concrete AND of four presence tests whose last operand is dropped |
| `FilterOctets.NamesAre` | libs/stacks/ldap/ldap_common.c:2434-2478 | the octets a name may not hold, and the three it may not begin with |
| `FilterOctets.ValuesAre` | libs/stacks/ldap/ldap_common.c:2434-2478 | the octets a value may not hold, and the four it may not hold in front of '=' |
| `FilterOctets.ComparisonOctets` | libs/stacks/ldap/ldap_common.c:2274-2277 | for every name and value: '=' is written with 0xa3, '>=' with 0xa5, '<=' with 0xa6 and '~=' with 0xa8, then the two octet strings |
| `FilterOctets.PresenceOctets` | libs/stacks/ldap/ldap_common.c:2282-2289 | 'name=*' is written as 0x87 and the name |
| `FilterOctets.BareOctets` | libs/stacks/ldap/ldap_common.c:2292-2305 | a bare name is written as an equality with the eleven letters of objectClass |
| `FilterOctets.SubstringOctets` | libs/stacks/ldap/ldap_common.c:2322-2405 | one star is written with 0xa4, the part in front of it with 0x80 and the part behind it with 0x82 |
| `FilterOctets.CompoundOctets` | libs/stacks/ldap/ldap_common.c:2434-2478 | '&', '|' and '!' are written with 0xa0, 0xa1 and 0xa2 around the encodings of what they hold |
| `FilterOctets.ComparisonTexts` | libs/stacks/ldap/ldap_common.c:4265-4305 | 0xa3, 0xa5, 0xa6 and 0xa8 are printed with '=', '>=', '<=' and '~=' |
| `FilterOctets.PresenceText` | libs/stacks/ldap/ldap_common.c:4176-4305 | 0x87 is printed as 'name=*' |
| `FilterOctets.SubstringText` | libs/stacks/ldap/ldap_common.c:4176-4305 | 0xa4 is printed with its star behind the part 0x80 and in front of the part 0x82 |
| `FilterOctets.CompoundTexts` | libs/stacks/ldap/ldap_common.c:4176-4305 | AND, OR and NOT are printed with '&', '|' and '!' around their operands in parentheses |
| `Requests.InsertLengthAliased` | libs/stacks/ldap/ldap_common.c:612-620 | INSERT_LENGTH with its length aliased to its scratch variable: a length of 256 or more is written as 0x80 and becomes 0 |
| `Requests.AliasedIsTlv` | libs/stacks/ldap/ldap_common.c:612-620 | a name is sent as an octet string exactly when it is shorter than 256 octets |
| `Requests.OperationOctets` | libs/stacks/ldap/ldap_common.c:2481-3516 | the six operations with their application tags and their fields in order as octets |
| `Requests.NameOctets` | libs/stacks/ldap/ldap_common.c:612-620 | a name with one length octet, with two, or, from 256 on, as nothing |
| `Requests.SearchFields` | libs/stacks/ldap/ldap_common.c:2541-2622 | the fixed fields of a search stand behind the base object: scope, aliases, two limits of zero and the types flag |
| `Requests.Assemble` | libs/stacks/ldap/ldap_common.c:2871-2912 | the shared tail of the generators: envelope, message id and operation, every length the number of octets behind it, in a buffer filled exactly |
| `Requests.GenAdd` | libs/stacks/ldap/ldap_common.c:2844-2912 | the bytes of an add request |
| `Requests.GenModify` | libs/stacks/ldap/ldap_common.c:2988-3057 | the bytes of a modify request |
| `Requests.GenModDn` | libs/stacks/ldap/ldap_common.c:3133-3231 | the bytes of a rename without a new superior |
| `Requests.GenDelete` | libs/stacks/ldap/ldap_common.c:3306-3362 | the bytes of a delete request |
| `Requests.GenExtended` | libs/stacks/ldap/ldap_common.c:3438-3516 | the bytes of an extended request |
| `Requests.GenNames` | libs/stacks/ldap/ldap_common.c:3954-3972 | the attribute names of a search, one length octet each |
| `Requests.GenFilter` | libs/stacks/ldap/ldap_common.c:2510-2532 | an empty or star expression asks for any object, any other text of a filter, a bare name among them, is encoded with its outer parentheses removed |
| `Requests.GenSearch` | libs/stacks/ldap/ldap_common.c:2481-2638 | the bytes of a search request, with the scope in the first field behind the base object and the aliases in the second |
| `Requests.SentExactly` | libs/stacks/ldap/ldap_common.c:612-620 | the server can see the request that was meant exactly when every name is under 256 octets and every filter list decodes whole |
| `RequestDecoder.DecodeRequest` | libs/stacks/ldap/ldap_common.c:1370-1803 | on a generated message: the id and every field of what was sent |
| `RequestDecoder.DecodeSearch` | libs/stacks/ldap/ldap_common.c:1443-1570 | the search branch, with the scope from the third octet behind the base object and the aliases from the sixth |
| `RequestDecoder.DecodeModify` | libs/stacks/ldap/ldap_common.c:1572-1667 | the modify branch |
| `RequestDecoder.DecodeAdd` | libs/stacks/ldap/ldap_common.c:1668-1748 | the add branch |
| `RequestDecoder.DecodeModDn` | libs/stacks/ldap/ldap_common.c:1749-1792 | the rename branch |
| `RequestDecoder.DecodeExtended` | libs/stacks/ldap/ldap_common.c:1414-1442 | the extended branch |
| `RequestDecoder.ReadNames` | libs/stacks/ldap/ldap_common.c:1540-1558 | the countdown loop over attribute names |
| `RequestDecoder.AddRoundTrip` | libs/stacks/ldap/ldap_common.c:2844-2912 | client to server: the same add request arrives exactly when its name is under 256 octets |
| `RequestDecoder.ModifyRoundTrip` | libs/stacks/ldap/ldap_common.c:2988-3057 | the same for modify |
| `RequestDecoder.DeleteRoundTrip` | libs/stacks/ldap/ldap_common.c:3306-3362 | the same for delete |
| `RequestDecoder.ModDnRoundTrip` | libs/stacks/ldap/ldap_common.c:3133-3231 | the same for rename, for both names |
| `RequestDecoder.ExtendedRoundTrip` | libs/stacks/ldap/ldap_common.c:3438-3516 | an extended request always arrives unchanged |
| `RequestDecoder.SearchRoundTrip` | libs/stacks/ldap/ldap_common.c:2481-2638 | a search arrives unchanged exactly when its name is under 256 octets and every filter list decodes whole |
| `RequestExamples.DeleteExample` | libs/stacks/ldap/ldap_common.c:3306-3362 | a delete request octet by octet |
| `RequestExamples.RenameExample` | libs/stacks/ldap/ldap_common.c:3133-3231 | a rename octet by octet |
| `RequestExamples.AddExample` | libs/stacks/ldap/ldap_common.c:2844-2912 | an add request octet by octet |
| `RequestExamples.ModifyExample` | libs/stacks/ldap/ldap_common.c:2988-3057 | a modify request octet by octet |
| `RequestExamples.SearchExample` | libs/stacks/ldap/ldap_common.c:2481-2638 | a search of the whole subtree for sn >= x octet by octet |
| `RequestExamples.ExtendedExample` | libs/stacks/ldap/ldap_common.c:3438-3516 | an extended request octet by octet |
| `LinkedList.List.Prepend` | include/linkedlist.h:29-43 | the ring stands for [x] + s |
| `LinkedList.List.Append` | include/linkedlist.h:44-57 | the ring stands for s + [x] |
| `LinkedList.List.Remove` | include/linkedlist.h:58-79 | x is deleted and unlinked; removing an unlinked node changes nothing |
| `LinkedList.List.Shuffle` | include/linkedlist.h:80-106 | x moves to the end |
| `LinkedList.Inversion` | include/linkedlist.h:29-106 | prev and next are inverse on every node of a ring |
| `LinkedList.RingUnique` | include/linkedlist.h:29-106 | the links determine the sequence |
| `LdapPool.RemovedAt` | include/linkedlist.h:58-79 | a connection taken out of a queue leaves the others in their order |
| `LdapPool.Client.Store` | libs/stacks/ldap/ldap_client.c:675-691 | a message joins the bytes queued: sent bytes followed by the unsent rest of the buffer are all bytes queued |
| `LdapPool.Client.Drain` | libs/stacks/ldap/ldap_client.c:584-609 | whatever the socket accepts is the next bytes in order, and the buffer reports sent exactly when nothing is left |
| `LdapPool.Pool.constructor` | libs/stacks/ldap/ldap_client.c:18-51 | an empty pool keeps the invariant |
| `LdapPool.Pool.Open` | libs/stacks/ldap/ldap_client.c:261-375 | the new connection takes the least free slot and joins the wait queue; every failure leaves the pool as it was |
| `LdapPool.Pool.Close` | libs/stacks/ldap/ldap_client.c:378-438 | exactly that connection leaves its slot and its queue, the others keep their order, also when closing its socket fails, which the code returned says |
| `LdapPool.Pool.Read` | libs/stacks/ldap/ldap_client.c:463-500 | a connecting connection becomes ready and moves to the end of the ready queue; the others waiting keep their order |
| `LdapPool.Pool.Write` | libs/stacks/ldap/ldap_client.c:542-610 | open becomes connecting; otherwise the buffer is drained and a message sent is counted |
| `LdapPool.Pool.DealNext` | libs/stacks/ldap/ldap_client.c:667-716 | one message goes from the head of its queue to the connection at the head of the ready queue, which then waits exactly when it has reached the limit and goes to the end otherwise |
| `LdapPool.Pool.Flush` | libs/stacks/ldap/ldap_client.c:667-717 | ends with no message or no ready connection; deals exactly in the order of RoundRobin.Deal, each message once, in order, into its connection's buffer |
| `LdapPool.Pool.SendMessage` | libs/stacks/ldap/ldap_client.c:660-718 | queueing and flushing together |
| `LdapPool.Pool.Respond` | libs/stacks/ldap/ldap_client.c:904-919 | a response is counted against its connection, which becomes ready again exactly when it waited and the limit is positive |
| `LdapPool.Pool.Safety` | libs/stacks/ldap/ldap_client.c:694-717 | in every reachable state a live connection is in exactly one queue, in the ready queue exactly when ready, below the limit there and at it when waiting, and its bytes are conserved |
| `LdapPool.Pool.LoadBound` | libs/stacks/ldap/ldap_client.c:694-709 | outstanding requests never exceed the connections times the limit |
| `LdapPool.FairShare` | libs/stacks/ldap/ldap_client.c:694-706 | no connection is dealt two messages more than one that stays ready |
| `LdapPool.OccupiedUpdate` | libs/stacks/ldap/ldap_client.c:322-371 | the count of occupied slots changes by one with each open or close |
| `LdapPool.LoadBoth` | libs/stacks/ldap/ldap_client.c:694-709 | a connection's outstanding requests are its share of the sum over both queues |
| `LdapPool.ShareNext` | libs/stacks/ldap/ldap_client.c:667-717 | a message dealt to a connection joins its share, and no other message does |
| `LdapPool.HandedNow` | libs/stacks/ldap/ldap_client.c:660-665 | a run hands over exactly the messages of its sends, in order |
| `LdapPool.ShareAppend` | libs/stacks/ldap/ldap_client.c:667-717 | what a connection is dealt over two flushes is what it is dealt in the first and then what it is dealt in the second |
| `LdapPool.SendStep` | libs/stacks/ldap/ldap_client.c:660-718 | a flush in the middle of a run: messages dealt so far and then the send queue stay the messages handed over, in order, and every live connection's bytes stay those of its share |
| `LdapPool.CallStep` | libs/stacks/ldap/ldap_client.c:261-610 | no other call touches the send queue or what a connection was queued, and with a limit below one a waiting connection waits on |
| `LdapPool.Step` | libs/stacks/ldap/ldap_client.c:261-718 | every event keeps the invariant and the order of the messages |
| `LdapPool.Run` | libs/stacks/ldap/ldap_client.c:261-718 | every run from an empty pool: the messages dealt and then the send queue are the messages handed over, in order; each live connection was queued exactly the bytes of the messages dealt to it, in order; without closes, outstanding equals dealt less answered |
| `LdapPool.Starve` | libs/stacks/ldap/ldap_client.c:694-717 | a run with a limit below one whose only connection is dealt one message, is answered, and waits |
| `RoundRobin.DealLength` | libs/stacks/ldap/ldap_client.c:667-717 | as many messages are dealt as there are messages and room |
| `RoundRobin.DealCounts` | libs/stacks/ldap/ldap_client.c:694-706 | nobody is dealt more than its room, and it leaves the queue exactly when its room is used up |
| `RoundRobin.Leavers` | libs/stacks/ldap/ldap_client.c:695-700 | a connection leaves the ready queue exactly when it has been dealt as many messages as it had room for |
| `RoundRobin.DealPrefix` | libs/stacks/ldap/ldap_client.c:711-716 | stopping early deals a prefix of the same order |
| `RoundRobin.Fair` | libs/stacks/ldap/ldap_client.c:694-706 | among any queue and any number of messages: never two ahead of one that stays |
| `Reassembler.FramesAre` | libs/stacks/ldap/ldap_client.c:823-860 | which octets are a message: a tag, one to four octets of length with the high-order octet first, and as much content |
| `Reassembler.Reader.Read` | libs/stacks/ldap/ldap_client.c:503-538 | received bytes join the buffer; it is full exactly when one octet is left |
| `Reassembler.Reader.Measure` | libs/stacks/ldap/ldap_client.c:823-860 | the header of the waiting message gives its whole length, once, also when the call comes back later |
| `Reassembler.Reader.Grow` | libs/stacks/ldap/ldap_client.c:861-871 | the buffer grows to the message and one octet more, keeping its bytes |
| `Reassembler.Reader.Shift` | libs/stacks/ldap/ldap_client.c:887-899 | the rest moves to the front |
| `Reassembler.Reader.DecodeOne` | libs/stacks/ldap/ldap_client.c:818-903 | one whole message is delivered, or the buffer has room and no whole message |
| `Reassembler.Reader.Decode` | libs/stacks/ldap/ldap_client.c:810-904 | messages are delivered in order, once each, until a final one or none whole is left; a read that follows finds room |
| `Reassembler.Reader.DecodeAll` | libs/stacks/ldap/ldap_client.c:810-904 | repeated decodes end with no whole message in the buffer and room to read |
| `Reassembler.Reader.Feed` | libs/stacks/ldap/ldap_server.c:525-562 | however the bytes are cut, reads alternating with decodes never find the buffer full and leave no whole message waiting |
| `Reassembler.Receive` | libs/stacks/ldap/ldap_server.c:525-709 | whatever pieces the bytes of the messages arrive in and whatever the decoder answers, exactly the messages are delivered, in order, and the buffer is empty |
| `Reassembler.Reader.Complete` | libs/stacks/ldap/ldap_server.c:625-709 | when all bytes have arrived and no whole message is left, exactly the messages sent were delivered |
| `Reassembler.NextMessage` | libs/stacks/ldap/ldap_client.c:823-860 | five buffered octets determine the length of the next message, and its bytes are the message |
| `Reassembler.HeaderAgrees` | libs/stacks/ldap/ldap_client.c:834-859 | the length is computed from octets that have arrived |
| `Md5.Round1` | libs/codecs/md5/md5.c:206-223 | the sixteen unrolled operations of round 1 are steps 0 to 15 of RFC 1321 |
| `Md5.Round2` | libs/codecs/md5/md5.c:232-249 | round 2 are steps 16 to 31 |
| `Md5.Round3` | libs/codecs/md5/md5.c:258-275 | round 3 are steps 32 to 47 |
| `Md5.Round4` | libs/codecs/md5/md5.c:284-301 | round 4 are steps 48 to 63 |
| `Md5.ChosenByX` | libs/codecs/md5/md5.c:202-202 | bit by bit, F is y where x has the bit and z elsewhere |
| `Md5.ChosenByZ` | libs/codecs/md5/md5.c:228-228 | bit by bit, G is x where z has the bit and y elsewhere |
| `Md5.Parity` | libs/codecs/md5/md5.c:254-254 | bit by bit, H is set where an odd number of x, y and z are |
| `Md5.Inverted` | libs/codecs/md5/md5.c:280-280 | bit by bit, I is y against x where z has the bit and not y elsewhere |
| `Md5.Table1` | libs/codecs/md5/md5.c:65-80 | the masked constants are the table of RFC 1321, entries 1 to 16 |
| `Md5.Table2` | libs/codecs/md5/md5.c:81-96 | entries 17 to 32 |
| `Md5.Table3` | libs/codecs/md5/md5.c:97-112 | entries 33 to 48 |
| `Md5.Table4` | libs/codecs/md5/md5.c:113-128 | entries 49 to 64 |
| `Md5.Process` | libs/codecs/md5/md5.c:131-309 | md5_process is the compression of one block of section 3.4 |
| `Md5.FoldAppend` | libs/codecs/md5/md5.c:350-352 | folding blocks of a concatenation is folding one part and then the other |
| `Md5Stream.Md5State.constructor` | libs/codecs/md5/md5.c:312-320 | md5_init |
| `Md5Stream.CountNext` | libs/codecs/md5/md5.c:333-336 | the low and high counter with the carry test hold the length in bits modulo 2^64 |
| `Md5Stream.CountOffset` | libs/codecs/md5/md5.c:327-327 | the offset in the block is the length modulo 64 |
| `Md5Stream.Md5State.Append` | libs/codecs/md5/md5.c:322-358 | the registers are the fold over the whole blocks of everything appended, the buffer holds the tail, the counters the length |
| `Md5Stream.Md5State.PadOut` | libs/codecs/md5/md5.c:375-376 | pads with 0x80 and as few zero octets as reach 56 modulo 64 |
| `Md5Stream.Md5State.Finish` | libs/codecs/md5/md5.c:360-381 | the digest of the message as RFC 1321 defines it on the padded message |
| `Md5.PaddedWhole` | libs/codecs/md5/md5.c:375-378 | a padded message is a whole number of blocks |
| `Md5Stream.CountIsLength` | libs/codecs/md5/md5.c:372-374 | the saved counters are the length in bits, low-order octet first |
| `Md5Stream.HashPieces` | libs/codecs/md5/md5.c:322-381 | the digest does not depend on how the message was cut into appends |
| `Md5Answer.AlphabetDigest` | libs/codecs/md5/md5.c:131-381 | the digest of the alphabet is the one RFC 1321 appendix A.5 gives |
| `Base64.CharacterInverse` | libs/codecs/base64/base64.c:58-63 | the two directions of the alphabet are inverse and the pad is outside it |
| `Base64.CharacterIs` | libs/codecs/base64/base64.c:27-40 | the alphabet as octets: capitals, small letters, digits, '+' and '/' |
| `Base64.NoCharacter` | libs/codecs/base64/base64.c:58-63 | every other octet, '=' among them, is refused |
| `Base64.PadIs` | libs/codecs/base64/base64.c:48-56 | one octet ends in two octets 61, two octets in one, whatever lies past the end |
| `Base64.Vectors` | libs/codecs/base64/base64.c:113-132 | test vectors of RFC 4648 section 10 that end in each way |
| `Base64.Encode` | libs/codecs/base64/base64.c:113-132 | what is written and the encoding of what is left are the whole encoding; it stops only when done or out of room, and position plus remaining capacity is constant |
| `Base64.EncodeQuad` | libs/codecs/base64/base64.c:48-56 | one group of four characters, reading one octet past a short end |
| `Base64.EncodedIsCanonical` | libs/codecs/base64/base64.c:48-56 | the encoding is the one of RFC 4648 section 4 exactly when the octet read past the end has zero in the bits that show |
| `Base64.EncodingResumes` | libs/codecs/base64/base64.c:113-132 | stopping and going on writes what one call would have written |
| `Base64.DecodeQuad` | libs/codecs/base64/base64.c:65-110 | four characters decoded or refused |
| `Base64.GroupAccepted` | libs/codecs/base64/base64.c:65-110 | a group decodes exactly when it is four characters of the alphabet, or two or three and padding, and then to that many octets |
| `Base64.TextRefused` | libs/codecs/base64/base64.c:135-174 | padding in the middle and one to three characters at the end are refused |
| `Base64.Decode` | libs/codecs/base64/base64.c:135-174 | a well-formed text is never refused; nothing is left exactly when the text is well formed and its message fits |
| `Base64.DecodingResumes` | libs/codecs/base64/base64.c:135-174 | stopping and going on gives the same message |
| `Base64.EncodeDecode` | libs/codecs/base64/base64.c:48-110 | decoding undoes encoding for every byte string and whatever lies past its end |
| `Base64.RoundTrip` | libs/codecs/base64/base64.c:113-174 | both calls together, with a buffer of exactly the decoded length |
| `SessionTable.Server.constructor` | libs/stacks/http/http.c:49-87 | an empty table keeps the invariant |
| `SessionTable.Server.SessOpen` | libs/stacks/http/http.c:529-611 | takes the least free slot; every failure leaves the table as it was, and a silently dropped accept returns success without a session |
| `SessionTable.Server.SessClose` | libs/stacks/http/http.c:613-661 | frees exactly that slot, also when closing the socket fails, and the last session is again the greatest in use |
| `SessionTable.Server.SvrClose` | libs/stacks/http/http.c:489-527 | every slot is free afterwards |
| `SessionTable.Server.VerifyConnection` | libs/stacks/http/http.c:977-1018 | returns OK exactly when no open session has passed an enabled timeout, and otherwise closes exactly the first that has |
| `SessionTable.OverdueFields` | libs/stacks/http/http.c:980-1010 | when a session is overdue, in its fields: a pending read or write, or nothing queued, no header and nothing read for too long |
| `SessionTable.UsedUpdate` | libs/stacks/ldap/ldap_server.c:359-363 | the number of slots in use changes with the slot written |
| `SessionTable.CountersAgree` | libs/stacks/ldap/ldap_server.c:366-426 | the session count is zero exactly when there is no last session, and never exceeds it by more than one |
| `WriteQueue.Session.Write` | libs/stacks/http/http.c:695-749 | whatever the socket accepts is the next bytes of the first buffer; a finished buffer leaves the list |
| `WriteQueue.Session.Append` | libs/stacks/http/http.c:700-705 | a buffer joins the bytes queued |
| `WriteQueue.Sending` | libs/stacks/http/http.c:707-725 | what one send takes off the front of the queue |
| `WriteQueue.Run` | libs/stacks/http/http.c:695-749 | after every run the bytes sent are a prefix of the bytes queued, and all of them when the list is empty |
| `Xml.Separators` | libs/sdf/sdfxml.c:20-20 | a blank, a line break, a tab and a carriage return separate, and nothing else |
| `Xml.FindOpening` | libs/sdf/sdfxml.c:123-148 | the first '<' that does not begin a comment, an unclosed comment, or none |
| `Xml.ReadTag` | libs/sdf/sdfxml.c:152-231 | the fields of the tag at a '<' |
| `Xml.FindStart` | libs/sdf/sdfxml.c:106-235 | on any bytes: the next tag strictly behind the position, or the position unchanged |
| `Xml.FindEnd` | libs/sdf/sdfxml.c:238-271 | succeeds exactly when a stack machine on the tags behind empties its stack at a closing tag of that name, and returns that tag |
| `Xml.MatchAbove` | libs/sdf/sdfxml.c:238-271 | recursion and explicit stack agree at every depth |
| `Xml.FindElement` | libs/sdf/sdfxml.c:294-313 | on any bytes: the element found, with the position strictly advanced and inside the buffer |
| `Xml.ContentMatched` | libs/sdf/sdfxml.c:238-271 | tags that the grammar of nested content accepts leave the matcher's stack as it was |
| `Xml.MatchedContent` | libs/sdf/sdfxml.c:238-271 | the tags up to the closing tag the matcher finds are accepted by the grammar |
| `Xml.MatchIsNesting` | libs/sdf/sdfxml.c:238-271 | the matcher returns a closing tag exactly when the tags before it are nested content by the grammar and it closes the name |
| `Xml.LocatedNested` | libs/sdf/sdfxml.c:294-313 | behind the tag of an element found that is not self-closing there is nested content by the grammar and then its own closing tag, where the data ends |
| `XmlTree.EmptyFound` | libs/sdf/sdfxml.c:106-235 | a printed self-closing element is read with its name and attributes, whatever white space separates them |
| `XmlTree.OpenFound` | libs/sdf/sdfxml.c:106-235 | a printed start tag is read with its name, attributes and text content, whatever white space separates them |
| `XmlTree.CloseFound` | libs/sdf/sdfxml.c:106-235 | a printed closing tag is read, with white space in front of its end or without |
| `XmlTree.CommentSkipped` | libs/sdf/sdfxml.c:128-147 | a printed comment is passed over whole |
| `XmlTree.MatchItems` | libs/sdf/sdfxml.c:238-271 | printed content of any depth matches its closing tag |
| `XmlTree.ElementLocated` | libs/sdf/sdfxml.c:294-313 | a printed element is located whole with its data range from its first child to its own close |
| `XmlTree.RootLocated` | libs/sdf/sdfxml.c:294-313 | the root of a printed document is found behind prolog, comments and blank text |
| `XmlTree.NoTagEnd` | libs/sdf/sdfxml.c:106-235 | a tag that never ends is an error |
| `XmlTree.NoCommentEnd` | libs/sdf/sdfxml.c:128-147 | so is a comment that never ends |
| `XmlTree.WrongClose` | libs/sdf/sdfxml.c:238-271 | content closed under another name does not match |
| `XmlTree.Siblings` | libs/sdf/sdfxml.c:294-313 | repeated calls over printed content yield exactly its elements in order and then the end |
| `XmlTree.DocumentWalk` | libs/sdf/sdfxml.c:294-313 | both together: the root, and over its data exactly its children |
| `XmlConfig.FindAttribute` | libs/sdf/sdfxml.c:382-435 | the next attribute, strictly advancing |
| `XmlConfig.AttributesYielded` | libs/sdf/sdfxml.c:382-435 | repeated calls over printed attributes, with any white space between them and around '=', yield exactly their names and values in order and then the end |
| `XmlConfig.AttributesRefused` | libs/sdf/sdfxml.c:382-435 | no name, no '=', no quote, no second quote or something right behind it is an error; an empty field is the end |
| `XmlConfig.LookupAttribute` | libs/sdf/sdfconfig.c:147-184 | the loop finds the first attribute of the name, or none |
| `XmlConfig.ConfigFindAttr` | libs/sdf/sdfconfig.c:147-184 | succeeds exactly when the attribute is there and the buffer is longer than its text, and then the decoded value and its terminator fit |
| `XmlConfig.ConfigFindElement` | libs/sdf/sdfconfig.c:106-144 | the first element with the name from the position on, with its end code for a mandatory one |
| `XmlConfig.NamedSibling` | libs/sdf/sdfconfig.c:106-144 | among printed siblings it is the first remaining one of the name, and the search can go on behind it |
| `XmlEntities.EntitiesDecoded` | libs/sdf/sdfxml.c:23-50 | the five entities and their characters |
| `XmlEntities.SpecialsEncoded` | libs/sdf/sdfxml.c:53-104 | the five characters and their entities, an '&' unless an entity begins there |
| `XmlEntities.DecodeData` | libs/sdf/sdfxml.c:23-50 | what the loop reads from memory, which may be past the text's end, and a terminator, in no more room than the text and one |
| `XmlEntities.DecodeExact` | libs/sdf/sdfxml.c:23-50 | that is the decoded text exactly when no entity begun in the text crosses its end, other than a last '&' that stands for itself anyway |
| `XmlEntities.EncodeData` | libs/sdf/sdfxml.c:53-104 | what the loop reads from memory, encoded, and a terminator |
| `XmlEntities.EncodeExact` | libs/sdf/sdfxml.c:53-104 | that is the encoded text exactly when no entity begun in the text crosses its end |
| `XmlEntities.CutDecoded` | libs/sdf/sdfxml.c:23-104 | a text that ends in the middle of an entity whose last character follows it is decoded and encoded as if it held the entity |
| `XmlEntities.Delimited` | libs/sdf/sdfxml.c:23-104 | with a character behind the text that belongs to no entity, as the quote behind an attribute's value, both loops are exact |
| `XmlEntities.DecodeEncode` | libs/sdf/sdfxml.c:23-104 | decoding an encoded text equals decoding the text |
| `XmlEntities.EncodeEncode` | libs/sdf/sdfxml.c:53-104 | encoding twice is encoding once |
| `XmlEntities.RoundTrip` | libs/sdf/sdfxml.c:23-104 | decoding undoes encoding exactly on texts that hold no entity already |
| `XmlEntities.EntityWithin` | libs/sdf/sdfxml.c:25-34 | reading past the end finds no entity when the character behind is in none |
| `XmlExample.RootFound` | libs/sdf/sdfxml.c:294-313 | in one document spelled out, with line breaks between attributes: the root's name, attribute field and data |
| `XmlExample.AttributesFound` | libs/sdf/sdfconfig.c:147-184 | its attributes looked up by name, with white space around '=' and an entity decoded |
| `XmlExample.ChildFound` | libs/sdf/sdfconfig.c:106-144 | its child of the root's own name, the child's text, and then no other |

## Left out

- LDAP controls: the generators are modelled with none, and the octet the decoder looks at behind the operation is the
  end of the message.
- Filters with two or more stars and extensible matches: the texts `any_substring` and `matching_rule` take.
- Results, responses and search entries (`_gen_ldap_result`, `ldap_decode_response`): the same headers and countdowns as
  the requests, with nothing new to prove.
- The words for a search's scope and size or time limits other than zero: the scope octet is a parameter.
- Bind, unbind and the authentication exchange: the pool sees only whether they succeeded.
- RequestDecoder.DecodeRequest: malformed BER, on which the decoder returns errors or reads on; it is stated on generated
  messages.
- FilterDecoder.StringToFilter: octets that no encoder writes.
- BerListDecoder.BerToAttrs: an empty buffer, a missing tag, or lengths that do not add up.
- BerListDecoder.ReadMods: the same for modifications.
- BerListDecoder.ReadAttrs: the same for the attributes of an add request.
- FilterEncoder.ProcessFilter: text that no filter tree prints as, and text beyond the code's 128-octet and 1024-octet
  buffers.
- The `free_flag` variants of the list generators, which unlink nodes as they go, and freeing in general.
- Lists inside decoded values (attributes, operands, messages in a queue) are sequences: sharing and the links
  themselves are shown in `LinkedList` only.
- LdapPool.Client.Store: the write buffer is a sequence, since it is reallocated; lengths above the range of an int are
  not modelled.
- Messages sent to a named connection, which skip the limit, and the keep-alive reset that moves a connection without
  changing its state.
- Option setters that change limits or counters of a running pool or server, statistics of response times.
- Ber.InsertLength: lengths of 2^24 and more, where the C shift has no defined value.
- `Md5Stream.Md5State.Append`: `nbytes << 3` is taken modulo 2^32, which C promises only for an unsigned operand; a length
  that makes `offset + nbytes` overflow is not modelled.
- Md5.Process: one way of loading the block, by octets, stands for the three that depend on the machine's byte order
  and alignment.
- Reassembler.Reader.Measure: the scan for the first tag stops at once, since a well-formed stream begins with it;
  lengths with more than three octets and messages under five octets are not modelled.
- SessionTable.Server.VerifyConnection: LDAP_sess_examine is the same loop over the sessions in one state, with
  another idle test.
- `SDF_xml_find_element_by_name`, `SDF_config_find_element_attr`: further loops over the same scans.
- HTTP message decoding and header text, logging, sockets, timers, Kafka, Cassandra and Spark code.
