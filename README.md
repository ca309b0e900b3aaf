# mDNS to unicast DNS relay: a Dafny model

The repository bridges multicast DNS (RFC 6762) and ordinary unicast DNS.
It contains three programs:

- `proxy.py` is the relay. It listens on the mDNS group 224.0.0.251:5353.
  For every standard query it hears, it looks up the A questions with the
  system's unicast resolver. It then announces every address found in one
  authoritative response to the group.
- `mdns-lookup.py` is a small lookup tool. It sends one mDNS query per host
  name and waits for an authoritative answer owned by that name.
- `util.py` holds the helpers the other two share. This model covers two of
  them: the SRV record (RFC 2782) definition that the DNS library uses to
  encode and decode SRV data, and an append-only helper buffer. Its socket
  factory `get_mdns_socket` and the `TimeoutException` class are I/O and are
  left out.

This project models that logic with the sockets removed. It proves the
properties the code promises.

| file | module | models |
|---|---|---|
| `wrappers.dfy` | `Wrappers` | the `Option` type |
| `names.dfy` | `Names` | uncompressed domain names on the wire (section 3.1 of RFC 1035), used in place of the DNS library's name encoder and decoder |
| `dns.dfy` | `Dns` | parsed messages, the record-type and class constants, and the library's two-way code tables with the registrations both programs make at start-up |
| `util.dfy` | `Util` | the SRV constructor, `pack` and `parse`; the class `ToWireHelper` |
| `proxy.dfy` | `Proxy` | the body of the relay's receive loop (`Relay`) and the loop around it (`Serve`) |
| `mdns_lookup.dfy` | `MdnsLookup` | query construction, the answer scan, the receive loop and the loop over host names |

Each operation is modelled in the form the source uses:

- The relay's loops and the lookup tool's loops are methods with loop invariants.
- The helper buffer is a class whose methods update fields. Its invariant `Valid()` keeps `length` equal to the size of `data`, and ties `data` to a ghost history of the writes: `data` is their concatenation, which is what `Size` relies on.
- The SRV constructor, `parse` and the name codec are functions. `pack`
  writes into the caller's buffer, so it is a method that returns the
  extended buffer.

### What the relay does not do

- `proxy.py` has no result cache, no handling of the unicast-response (QU) bit and no unicast reply. Every response goes to the group (`proxy.py:87`).
- Messages that carry answers are not skipped. Only the opcode is tested (`proxy.py:55`). The relay's own responses are dropped only because they have no questions (`Proxy.OwnReplyIgnored`).
- A resolver exception other than the four caught ones (`proxy.py:73`) leaves the receive loop. The model states this as a precondition (`Proxy.Handled`).
- Answer owner names are `str(question.name)` unchanged (`proxy.py:72`). No trailing root dot is stripped. They are modelled as the question's name text.

## Model

| member | source | states |
|---|---|---|
| Util.NewSrv | util.py:49-58 | the constructor fails exactly for an empty target (its last character cannot be read); otherwise it keeps the three numbers and the target is the original with one trailing dot removed, if it had one |
| Util.NewSrvDefaults | util.py:49 | omitted numbers default to priority 10, weight 10, port 0 |
| Util.NewSrvStripsOneDot | util.py:52-53 | a target without a trailing dot is kept unchanged, and the same target with one dot appended normalises to it |
| Util.Be16 | util.py:61 | a 16-bit value written as two big-endian octets reads back as that value |
| Util.Encode | util.py:60-62 | packing succeeds exactly when all three numbers fit in 16 bits and the target can be encoded; octets 0-5 hold priority, weight and port in big-endian order, and the rest is the encoded target |
| Util.Pack | util.py:60-62 | the bytes appended to the caller's buffer: the whole encoding on success; nothing when a number does not fit; the six number octets alone when the target then fails to encode |
| Util.Parse | util.py:44-47 | reading at an offset yields priority, weight and port from the next six octets, big-endian, and an end offset beyond those six octets and inside the data; `Util.ParseEncode` gives the exact end and the target |
| Util.ParseEncode | util.py:44-47 | for every record with 16-bit numbers and a non-root, encodable target, parsing the packed octets wherever they stand in a message gives back the same record and ends just past them |
| Util.ReadNumbers | util.py:45 | the six number octets read back as priority, weight and port |
| Util.ValidTargetHasNoTrailingDot | util.py:52-53 | an encodable, non-root target has no trailing dot, so the constructor leaves it unchanged when parsing |
| Util.RootTargetDoesNotRoundTrip | util.py:44-53 | a record whose target is the root packs to the numbers plus one zero octet, but parsing those octets fails, because the constructor rejects the empty decoded name |
| Util.ConcatLength | util.py:79-84 | the total length of the writes equals the length of their concatenation |
| Util.ToWireHelper.constructor | util.py:70-72 | a new helper holds no data, has length 0 and has no writes |
| Util.ToWireHelper.Get | util.py:74-77 | for n >= 0, the first min(n, length) characters; for negative n, the result of a Python slice, which leaves off the last -n characters; the helper's state is unchanged |
| Util.ToWireHelper.Size | util.py:79-80 | returns the length, which equals the length of the data and the total length of everything written |
| Util.ToWireHelper.Write | util.py:82-84 | appends the string to the data, raises the length by its size, records the write, and keeps length equal to the data's size |
| Names.EncodeName | util.py:62 | a name can be encoded exactly when each of its labels has 1 to 63 one-octet characters; the root name (empty text) encodes as a single zero octet |
| Names.DecodeName | util.py:46 | a name read at an offset ends strictly after it and inside the data |
| Names.EncodeLabels | util.py:62 | the stand-in uncompressed encoding of a label sequence is never empty; `Names.DecodeEncodeLabels` and `Names.EncodeDecodeLabels` make it the exact inverse of `Names.DecodeLabels` |
| Names.DecodeLabels | util.py:46 | the stand-in decoder: on success the labels returned each have 1 to 63 octets, and the end offset is strictly after the start and inside the data |
| Names.DecodeEncodeName | util.py:46 | every encodable name decodes back to itself at any offset where its encoding stands, ending just past it |
| Names.DecodeEncodeLabels | util.py:46 | decoding the encoding of any valid label sequence gives back the same labels and the offset past them |
| Names.EncodeDecodeLabels | util.py:62 | whatever octets a successful decode consumed are exactly the encoding of the labels it returned |
| Names.JoinSplit | util.py:62 | joining the dot-separated parts of a text with dots gives the text back |
| Names.SplitJoin | util.py:46 | splitting dotless parts that were joined with dots gives back the parts |
| Names.NameOfLabels | util.py:46 | the name text made from a name's labels is that name |
| Names.LabelTextsOctets | util.py:46 | turning labels into octets and back is the identity |
| Dns.Extend | proxy.py:21-22 | registering a code sets both directions of the table and leaves every other code and mnemonic as it was |
| Dns.ExtendConsistent | proxy.py:21-22 | registering a new code with a mnemonic, or one already paired with it, keeps each direction of the table the inverse of the other |
| Dns.MdnsClasses | mdns-lookup.py:24-25 | after the registration, class 0x8001 maps to "IN mDNS" and "IN mDNS" maps to 0x8001 |
| Dns.SrvTypes | mdns-lookup.py:28-29 | after the registration, type 33 maps to "SRV" and "SRV" maps to 33 |
| Proxy.QuestionLookups | proxy.py:66-74 | a question adds nothing unless it is of type A and resolves; then it adds one entry (name, type A, address) per returned address, in resolver order |
| Proxy.CollectLookups | proxy.py:59-74 | the loop over the questions collects exactly `Proxy.Lookups` of them: the entries of each question in turn, skipping the caught failures |
| Proxy.NoTypeAGivesNothing | proxy.py:68 | questions none of which is of type A give no entries, whatever the resolver would answer |
| Proxy.Reply | proxy.py:78-84 | the response has id 0, flags 0x8400 and no questions; its answer count is the number of entries; answer k keeps entry k's name, type and address, with class 0x8001 and TTL 120 |
| Proxy.BuildReply | proxy.py:78-84 | the add_answer loop builds exactly that response |
| Proxy.Outcome | proxy.py:55-87 | the decision for one message: nothing when the opcode is not QUERY; a send exactly when the opcode is QUERY and there is at least one entry; then the response is the reply for all entries and goes to the group |
| Proxy.Relay | proxy.py:52-87 | what is sent for one received message, whatever its sender: nothing unless the opcode is QUERY and there is at least one entry; otherwise the response goes to the group |
| Proxy.Serve | proxy.py:49-87 | the receive loop is proved equal to `Proxy.Sent` of the datagrams received: in order, what the relay sends for each of them |
| Proxy.LookupsAppend | proxy.py:62 | the entries of two runs of questions are the entries of each, in order |
| Proxy.FailureIsLocal | proxy.py:66-74 | a question of another type, or one whose lookup fails in one of the four caught ways, contributes nothing, and the questions before and after it keep their entries |
| Proxy.OnlyTypeAReachesResolver | proxy.py:68-70 | two resolvers that agree on the A questions give the same entries, so no other question reaches the resolver |
| Proxy.LookupsComeFromTypeAQuestions | proxy.py:68-72 | every entry is of type A and carries an address the resolver returned for an A question of that name |
| Proxy.LookupsNonEmpty | proxy.py:76 | there are entries exactly when some A question resolved to at least one address |
| Proxy.OutcomeSendsIff | proxy.py:55-87 | a response is sent exactly when the opcode is QUERY and some A question resolved; it then goes to 224.0.0.251:5353 and holds the reply for all entries |
| Proxy.OwnReplyIgnored | proxy.py:55-76 | the relay's own response passes the opcode test but has no questions, so it is never answered |
| Proxy.SentToGroup | proxy.py:87 | at most one datagram goes out per datagram received, and every one goes to the group |
| MdnsLookup.Upper | mdns-lookup.py:58 | upper-casing keeps the length, maps each lower-case ASCII letter to its capital and keeps every other character |
| MdnsLookup.QueryType | mdns-lookup.py:49-69 | the type code is found exactly when the upper-cased option names a registered type, and it is that type's code |
| MdnsLookup.SrvOptionNamesSrv | mdns-lookup.py:28-29 | once SRV is registered, "srv" in any case names type 33 |
| MdnsLookup.QueryFor | mdns-lookup.py:69 | the query has id 0, flags 0 and no answers, and its one question is for the host name in class IN |
| MdnsLookup.FindAnswer | mdns-lookup.py:90-95 | the scan returns the first answer whose owner name equals the host name exactly, or reports that none does |
| MdnsLookup.Check | mdns-lookup.py:87-95 | a packet gives an answer exactly when it has AA set, a positive answer count and an answer owned by the host name; the answer reported is the first such one |
| MdnsLookup.AwaitResponse | mdns-lookup.py:83-98 | the receive loop stops at the first packet that answers, and reports its first matching answer; every earlier packet did not answer; when the time runs out, no packet answered |
| MdnsLookup.ReportedUnique | mdns-lookup.py:83-95 | the reported answer (the first matching answer of the first packet that answers) is unique and owned by the host name |
| MdnsLookup.LookupOne | mdns-lookup.py:64-98 | one round of the host-name loop: the query sent, and an answer exactly when some received packet answers it; that answer is the first match in the first packet that answers |
| MdnsLookup.LookupAll | mdns-lookup.py:53-98 | no host names is a usage error; an unknown type sends nothing; otherwise one query goes out per host name, in argument order, and name i gets an answer exactly when a packet received for it answers, namely the first match in the first such packet |
| MdnsLookup.OwnQueryNotAccepted | mdns-lookup.py:87 | the tool's own query, heard back on the group, is never accepted |
| MdnsLookup.RelayReplyAccepted | mdns-lookup.py:87-92 | a relay response whose owner names reach the tool as the same text answers it exactly when one of its entries is for that host name |

## Left out

- Sockets, group membership, `recvfrom` and `sendto`: a received datagram is a parsed `Message` with its sender, and a send is a returned (message, destination) pair.
- The 5-second SIGALRM timeout of the lookup tool: the packets received before it fires are a finite list per host name (`arrivals`), and running out of them is the timeout.
- The DNS libraries' own message parsing and packing (dnspython `from_wire`, dnslib `DNSRecord.parse`/`pack`): messages are already-parsed datatypes. Malformed datagrams, which raise in `from_wire`, are not represented. In the lookup tool a packet that `DNSRecord.parse` cannot parse ends the program, since only `TimeoutException` is caught (`mdns-lookup.py:86`, `mdns-lookup.py:99`); that includes an SRV answer whose target is the root, which `Util.RootTargetDoesNotRoundTrip` shows `SRV.parse` rejects. The model's packet lists hold only messages that parsed.
- Names.DecodeName: the library's `decode_name` is not part of this model. The stand-in decoder reads only the uncompressed form that the stand-in encoder writes: a length octet above 63 (a compression pointer from 192 up, reserved from 64 to 191, section 4.1.4 of RFC 1035) is a decode failure.
- Names.EncodeName: the library's `encode_name` is not part of this model. As a choice of the stand-in encoder, a name with an empty label or a label over 63 characters is reported as unencodable (None).
- Util.Parse: the `length` argument of `parse` is not used, as in the source, so it is not a parameter.
- Util.Pack: the priority, weight and port are plain integers until packing. A value outside 16 bits makes `buffer.pack("!HHH", …)` fail; the model has it write nothing then, and does not model the exception raised. A target the stand-in encoder rejects leaves the six number octets written.
- Util.ToWireHelper: the data is text (`seq<char>`), as in the source's string concatenation. Length is counted in characters.
- Proxy.Relay: resolver exceptions other than the four caught ones end the relay, so `Relay` and `Serve` require that none occurs (`Proxy.Handled`).
- Proxy.Relay: `dns.resolver.query` is a function parameter `resolve` from (name, type) to found addresses, one of the caught failures, or an uncaught error. `Serve` uses one such function for the relay's whole life, so a name gets the same answer in every datagram and every repeated question; the model therefore cannot show that the code, having no cache, looks the name up afresh each time.
- MdnsLookup.RelayReplyAccepted: the relay's response is handed to the tool's test unpacked, so the lemma takes each owner name to arrive as the same text. Neither program guarantees that: the relay writes `str(question.name)` (`proxy.py:72`), which for an absolute name ends in a dot, while the tool compares `str(response.rname)` of the name the DNS library decoded (`mdns-lookup.py:91`); the stand-in encoder in `Names` has no wire form for a name that ends in a dot. The pack and parse step between the two programs is not part of this lemma.
- `str()` on names: question and answer names are compared and copied as text, with no trailing-dot normalisation.
- Printing, option parsing and `SRV.__str__`: these are presentation only.
- The result cache, QU-bit handling and unicast replies: the code does not have them.
