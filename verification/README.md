# Models of the vendored Go libraries

This project models the libraries of the repository that carry real logic, and proves what they are
for. Bytes are integers below 256, Go's panics and errors are outcomes, I/O is a script of what the
other side does, and clocks, dialing and cryptography are parameters.

Each component has specification functions or a state machine, methods and classes in the form of the
source that are proved against them, and theorems about all inputs, all runs or all schedules.

| files | component |
|---|---|
| `Base`, `Utf8` | bytes, options, UTF-8 |
| `BerPrimitives`, `BerTree`, `BerForms` | asn1-ber.v1: identifiers, lengths, integers and the packet tree |
| `LdapFilter`, `LdapRoundTrip`, `LdapNormalForm`, `LdapText` | ldap.v2: the filter compiler and decompiler |
| `ClusterSync`, `ClusterServers` | mgo.v2: topology synchronisation and the sorted server sets |
| `MacaroonVerify`, `MacaroonTheorems`, `MacaroonIntegrity` | macaroon.v1: minting and verification |
| `MacaroonPackets`, `MacaroonBinary`, `MacaroonObject` | macaroon.v1: packets and the binary form |
| `BufioReader`, `BufioWriter` | bufio.v1: the buffered reader and writer |
| `Resp`, `RespRoundTrip` | redis.v2: the protocol on the buffered reader |
| `DocQueue`, `IterLimit` | mgo.v2: the document queue and the iterator's limit |
| `RouteTree`, `RouteOrder`, `RouteText` | macaron.v1: the route tree |
| `GridFs` | mgo.v2: chunked files |
| `YamlDecode`, `YamlReader` | yaml.v1: the reader in UTF-8 mode |
| `ConnPool` | redis.v2: the connection pool |
| `MailFold`, `HeaderFold` | gomail.v2: line folding |

`dafny verify dfyconfig.toml` checks all of it.

Where the code departs from its evident intent, the theorem says exactly when it does what is intended,
and a lemma gives the input for which it does not:

- tags from 128 on whose highest bit is at a multiple of seven are lost (`BerPrimitives.TagLost`);
- a substrings filter of nothing but stars prints as an equality (`LdapNormalForm.StarsOnlyDoNotSurvive`),
  a rule called dn as the dn flag (`LdapNormalForm.RuleCalledDnDoesNotSurvive`),
  and a filter with the dn flag no longer decompiles once it has been over the wire
  (`LdapNormalForm.FilterOverTheWire`);
- macaroons with two third-party caveats do not survive their binary form
  (`MacaroonBinary.TwoThirdPartyCaveatsAreRefused`), a first-party id of 64 octets may mimic one
  (`MacaroonIntegrity.MimickedThirdParty`), and a refused caveat spoils the data
  (`MacaroonObject.RefusedCaveatSpoilsTheData`; exactly when, `MacaroonObject.RefusedCaveat`);
- a filter with a group left open makes CompileFilter panic (`LdapRoundTrip.OneParenthesisMore`; exactly
  when, `LdapRoundTrip.OutOfRangeExactly`);
- a status line cut short by a broken connection is taken for the whole reply
  (`RespRoundTrip.BrokenLineIsTaken`);
- a limit set before a larger or zero batch size lets the iterator panic (`IterLimit.UnsoundPanics`);
- header names of 74 characters or more get a second space (`HeaderFold.HeaderUnfolds`), and a comma at the
  end of a line makes it too long (`HeaderFold.CommaOverruns`; exactly when, `HeaderFold.HeaderStaysWithin`);
- one idle connection at most expires in a call of the pool's Get (`ConnPool.TwoExpired`; exactly when that is
  enough, `ConnPool.SweepIsCleanExactly`), and a goroutine woken before Close puts a connection into the
  closed pool (`ConnPool.LateConnection`; exactly when, `ConnPool.ClosedStaysEmptyExactly`).

## Model

| member | source | states |
|---|---|---|
| LdapNormalForm.FilterRoundTrip | gogs/src/gopkg.in/ldap.v2/filter.go:70-423 | For every filter tree of any nesting whose names hold no operator character, CompileFilter on its text, and on what DecompileFilter prints for its packet, consumes the whole text and returns that packet. |
| LdapNormalForm.AcceptedText | gogs/src/gopkg.in/ldap.v2/filter.go:70-423 | For every text the compiler accepts: the packet is the packet of such a filter, DecompileFilter prints it, and compiling the print returns the same packet if and only if no item in it is a substrings match without parts or a rule called dn without the flag. |
| LdapNormalForm.StarsOnlyDoNotSurvive | gogs/src/gopkg.in/ldap.v2/filter.go:383-417 | The concrete input for which it fails: "(a=**)" compiles to a substrings packet without parts, which is printed as "(a=)", an equality. |
| LdapNormalForm.RuleCalledDnDoesNotSurvive | gogs/src/gopkg.in/ldap.v2/filter.go:253-342 | The other: "(a:dn)" compiles to a match by a rule called dn, which is printed as "(a:dn:=)", a match with the dn flag and no rule. |
| LdapNormalForm.CollapseSurvives | gogs/src/gopkg.in/ldap.v2/filter.go:84-187 | Decompiling any accepted packet gives the text of a filter that does survive, so a second decompile and compile changes nothing more. |
| LdapNormalForm.DecompileFilterPacket | gogs/src/gopkg.in/ldap.v2/filter.go:84-187 | DecompileFilter on the packet of any filter prints the text of its collapsed form, never an error. |
| LdapNormalForm.RecogniseItem | gogs/src/gopkg.in/ldap.v2/filter.go:236-423 | Whatever packet the character loop and the switch build from names read in order is the packet of a grammatical item. |
| LdapNormalForm.ClosedIsRead | gogs/src/gopkg.in/ldap.v2/filter.go:246-345 | When the character loop stops at a parenthesis after an operator, the attribute and rule it collected are ones a printer could have written. |
| LdapNormalForm.FilterPacketIsGood | gogs/src/gopkg.in/ldap.v2/filter.go:205-423 | Every filter packet lies in the exact domain of the BER round trip. |
| LdapNormalForm.FilterOverTheWire | gogs/src/gopkg.in/ldap.v2/filter.go:84-187 | A filter packet encoded and read back is accepted whole with nothing left over; it prints the same text if and only if no extensible match carries the dn flag, and with the flag decompiling what was read is an error. |
| LdapNormalForm.DecompileNormal | gogs/src/gopkg.in/ldap.v2/filter.go:152-183 | What DecompileFilter makes of a packet that came off the wire, where the Go value of dnAttributes is gone. |
| LdapRoundTrip.UnescapeEscape | gogs/src/gopkg.in/ldap.v2/filter.go:426-456 | Unescaping EscapeFilter(s) gives s for every byte string s (section 3 of RFC 4515). |
| LdapText.UnescapeWritten | gogs/src/gopkg.in/ldap.v2/filter.go:426-456 | Every spelling of a value is read as the value: stretches of well-formed text, ASCII or not, as themselves, and a backslash with two hexadecimal digits in either case as the octet they spell (section 4 of RFC 4515). |
| LdapText.UnescapeDigits | gogs/src/gopkg.in/ldap.v2/filter.go:436-448 | A backslash and two digits, whatever follows. |
| LdapText.UnescapeOthers | gogs/src/gopkg.in/ldap.v2/filter.go:436-446 | Anything else after a backslash is an error, but for a single octet at the end, which panics. |
| LdapText.UnescapeChars | gogs/src/gopkg.in/ldap.v2/filter.go:449-455 | Text without a backslash is itself. |
| LdapText.CompileSpelled | gogs/src/gopkg.in/ldap.v2/filter.go:70-82 | CompileFilter on a comparison with "=", ">=", "<=" or "~=" gives choice 3, 5, 6 or 8 with the attribute and the value spelled, for every spelling of the value. |
| LdapText.PacketIs | gogs/src/gopkg.in/ldap.v2/filter.go:205-423 | The packet of every kind of filter, with the tags of section 4.5.1 of RFC 4511 for the filter and its parts. |
| LdapText.FirstOctet | gogs/src/gopkg.in/ldap.v2/filter.go:205-423 | The first octet sent of every kind of filter, from 0xA0 for "and" to 0xA9 for an extensible match. |
| LdapText.PrintIs | gogs/src/gopkg.in/ldap.v2/filter.go:84-187 | The text of every kind of filter in literal characters. |
| LdapRoundTrip.CompilePrinted | gogs/src/gopkg.in/ldap.v2/filter.go:70-82 | CompileFilter on a printed filter consumes it whole and yields its packet. |
| LdapRoundTrip.CompileBody | gogs/src/gopkg.in/ldap.v2/filter.go:205-423 | The same at any position: the text between the parentheses of a printed filter compiles to its packet whatever follows, and reports exactly its length. |
| LdapRoundTrip.OutOfRangeExactly | gogs/src/gopkg.in/ldap.v2/filter.go:70-82 | CompileFilter panics on the slice in its own error message if and only if an accepted filter ends the text, last in everything it is part of, while the parenthesis around it is still open. |
| LdapRoundTrip.RunsPastExactly | gogs/src/gopkg.in/ldap.v2/filter.go:189-237 | The same for compileFilter at any place: exactly then the position it returns is past the end of the text. |
| LdapRoundTrip.OneParenthesisMore | gogs/src/gopkg.in/ldap.v2/filter.go:70-82 | The inputs: any printed filter after one more opening parenthesis. |
| LdapRoundTrip.CompileIsLocal | gogs/src/gopkg.in/ldap.v2/filter.go:189-237 | What compileFilter makes of a text does not depend on what follows the part it takes. |
| LdapRoundTrip.FirstFilterEnds | gogs/src/gopkg.in/ldap.v2/filter.go:70-82 | So the first filter of any text ends where its one accepted prefix ends. |
| LdapRoundTrip.ScanToClose | gogs/src/gopkg.in/ldap.v2/filter.go:253-342 | On a printed condition the character loop ends at the closing parenthesis with the condition collected and nothing else changed. |
| LdapRoundTrip.AddAllParts | gogs/src/gopkg.in/ldap.v2/filter.go:385-410 | The part loop turns the split of a printed substrings condition into exactly the initial, any and final parts it was printed from. |
| LdapFilter.EscapeFilter | gogs/src/gopkg.in/ldap.v2/ldap.go:259-286 | The two passes, counting and then filling a buffer by two indices, return the escaped form of every byte string and never outgrow the buffer. |
| LdapText.EscapeIs | gogs/src/gopkg.in/ldap.v2/ldap.go:259-286 | EscapeFilter writes NUL, parentheses, star, backslash and octets from 128 on as a backslash and two lower-case digits, and every other octet as itself. |
| LdapFilter.EscapePrefix | gogs/src/gopkg.in/ldap.v2/ldap.go:259-286 | Every prefix escapes to something no longer than the whole, so the second pass stays within its buffer. |
| LdapFilter.UnescapeString | gogs/src/gopkg.in/ldap.v2/filter.go:426-456 | The loop over runes computes the unescaped bytes, an error for a bad escape, or the panic when the two digits are missing. |
| LdapFilter.BuildSubstrings | gogs/src/gopkg.in/ldap.v2/filter.go:385-410 | The loop over the parts between stars appends exactly the children the specification lists. |
| LdapFilter.BuildPacket | gogs/src/gopkg.in/ldap.v2/filter.go:343-422 | The switch after the loop builds the specified packet, or the specified error or panic, for every value of the loop variables. |
| LdapFilter.CompileItemAt | gogs/src/gopkg.in/ldap.v2/filter.go:238-423 | The character loop with its nested states, run from any position, computes the specified packet, new position, error or panic. |
| LdapFilter.CompileFilterAt | gogs/src/gopkg.in/ldap.v2/filter.go:205-237 | compileFilter for every text and position, including runes that do not decode, running off the end, and the recovered panic of a nil child. |
| LdapFilter.CompileFilterSetAt | gogs/src/gopkg.in/ldap.v2/filter.go:189-203 | compileFilterSet consumes children while there is an opening parenthesis and one octet more, as specified. |
| LdapFilter.CompileFilter | gogs/src/gopkg.in/ldap.v2/filter.go:70-82 | CompileFilter is the specified function on every byte string: accepted packet, error, or text left over. |
| LdapFilter.PrintParts | gogs/src/gopkg.in/ldap.v2/filter.go:121-132 | The loop over the parts of a substrings packet prints the specified text or stops with the error. |
| LdapFilter.PrintExtensible | gogs/src/gopkg.in/ldap.v2/filter.go:152-183 | The extensible branch reads the children into variables and prints what was found, failing where a Go type assertion fails. |
| LdapFilter.DecompileFilter | gogs/src/gopkg.in/ldap.v2/filter.go:84-187 | The recursion with its accumulated string computes the specified text or error for every packet, well formed or not. |
| LdapText.UnprintableExactly | gogs/src/gopkg.in/ldap.v2/filter.go:84-187 | DecompileFilter is an error exactly for a "not" without a child, a comparison or substrings match with fewer than two, a dnAttributes child that is no boolean, and "and", "or" and "not" around these; an unknown tag prints as "()". |
| BerTree.PacketRoundTrip | gogs/src/gopkg.in/asn1-ber.v1/ber.go:275-411 | readPacket on Bytes(t) followed by anything returns the same identifiers, data and children and reports exactly len(Bytes(t)) bytes, for every tree built by AppendChild whose primitives have no children, with no empty end marker as a child and with tags that round trip (section 8.1.3 of X.690). |
| BerTree.PacketRoundTripExactly | gogs/src/gopkg.in/asn1-ber.v1/ber.go:275-411 | The exact domain: a tree of encodable sizes reads back as itself if and only if it is such a tree. |
| BerForms.FormsAreRead | gogs/src/gopkg.in/asn1-ber.v1/ber.go:274-396 | For every such tree and every choice of a length form at each node, one octet, one to eight octets with any number of zeros first, or the indefinite form for constructed nodes: the reader returns the tree and reports exactly the octets, whatever follows (sections 8.1.3 and 8.1.5 of X.690). |
| BerForms.DeclaredLengthIsTaken | gogs/src/gopkg.in/asn1-ber.v1/ber.go:289-343 | Whatever is accepted takes exactly the length it declares, children included. |
| BerForms.ValuesAre | gogs/src/gopkg.in/asn1-ber.v1/ber.go:345-393 | The Go value of every universal primitive packet in terms of its content: BOOLEAN, INTEGER and ENUMERATED up to eight octets, past which they are false or zero, strings, and none for the others. |
| BerForms.IntegerIsRead | gogs/src/gopkg.in/asn1-ber.v1/ber.go:210-225 | An integer is read from any of its two's complement forms of up to eight octets, the shortest or not. |
| BerTree.ReadBackIsGood | gogs/src/gopkg.in/asn1-ber.v1/ber.go:275-411 | The converse half: a tree that reads back as itself satisfies each of those conditions, at every depth. |
| BerTree.ReadIsWellBuilt | gogs/src/gopkg.in/asn1-ber.v1/ber.go:275-396 | Every accepted input, definite or indefinite, with minimal lengths or not and whatever its tags, yields a tree that satisfies all of those conditions but the one on tags. |
| BerTree.ReencodeKeepsTree | gogs/src/gopkg.in/asn1-ber.v1/ber.go:275-406 | Decode, encode, decode equals decode for an accepted input if and only if all its tags round trip (section 8.1.5 of X.690). |
| BerTree.HeaderRoundTrip | gogs/src/gopkg.in/asn1-ber.v1/header.go:9-30 | The header of an encoded packet reads back, with its byte count, exactly when its tag round trips. |
| BerTree.ReadPacket | gogs/src/gopkg.in/asn1-ber.v1/ber.go:275-396 | The reader over a stateful source computes the specified tree, byte count or error and leaves the source at the specified place. |
| BerTree.ReadContent | gogs/src/gopkg.in/asn1-ber.v1/ber.go:289-326 | The content loop with its contentRead counter, for definite and indefinite lengths, computes the specified children and errors. |
| BerTree.ReadHeader | gogs/src/gopkg.in/asn1-ber.v1/header.go:9-30 | readHeader adds the two byte counts and passes on either error. |
| BerPrimitives.IdentifierRoundTrip | gogs/src/gopkg.in/asn1-ber.v1/identifier.go:10-103 | readIdentifier(encodeIdentifier(id)) is id with all octets consumed if and only if the tag is below 31 or its highest set bit is not at a multiple of seven (section 8.1.2.4 of X.690 asks for all tags). |
| BerPrimitives.TagLost | gogs/src/gopkg.in/asn1-ber.v1/identifier.go:83-100 | The smallest tag that is lost: 128 is written with one group too few, because of the ceiling at line 91, and is refused. |
| BerForms.LowTag | gogs/src/gopkg.in/asn1-ber.v1/identifier.go:24-31 | The one identifier octet of a tag below 31: class, kind and tag. |
| BerForms.HighTag | gogs/src/gopkg.in/asn1-ber.v1/identifier.go:33-66 | Up to nine groups of seven bits after the lead octet are the tag they spell. |
| BerPrimitives.LowGroupsComplete | gogs/src/gopkg.in/asn1-ber.v1/identifier.go:91-100 | n seven-bit groups carry a tag exactly when its highest bit is among them. |
| BerPrimitives.ReadIdentifier | gogs/src/gopkg.in/asn1-ber.v1/identifier.go:10-67 | The loop shifting octets into the tag computes the specified identifier, byte count or error on every input. |
| BerPrimitives.WriteIdentifier | gogs/src/gopkg.in/asn1-ber.v1/identifier.go:69-103 | The loop over groups writes the specified octets for every 64-bit tag. |
| BerPrimitives.FindHighBit | gogs/src/gopkg.in/asn1-ber.v1/identifier.go:83-89 | The search from bit 63 down finds the highest set bit. |
| BerPrimitives.LengthRoundTrip | gogs/src/gopkg.in/asn1-ber.v1/length.go:9-71 | readLength(encodeLength(n)) is n with all octets consumed, for every length an int holds and whatever follows (section 8.1.3 of X.690). |
| BerForms.LengthForms | gogs/src/gopkg.in/asn1-ber.v1/length.go:9-61 | A length below 128 in one octet, and any length in one to eight octets after their number, however many zeros they start with. |
| BerForms.WrittenLength | gogs/src/gopkg.in/asn1-ber.v1/length.go:63-71 | encodeLength uses one octet below 128 and otherwise as few as hold the length. |
| BerPrimitives.ReadLength | gogs/src/gopkg.in/asn1-ber.v1/length.go:9-61 | The loop computes the specified length, indefinite marker or error on every input, including lengths that overflow. |
| BerPrimitives.WriteLength | gogs/src/gopkg.in/asn1-ber.v1/length.go:63-71 | encodeLength writes the short or the long form as specified. |
| BerPrimitives.EncodeUnsignedInteger | gogs/src/gopkg.in/asn1-ber.v1/content_int.go:3-14 | The array is filled from the most significant octet with exactly the base 256 digits. |
| BerPrimitives.Uint64Length | gogs/src/gopkg.in/asn1-ber.v1/content_int.go:16-26 | The shifting loop returns the number of those digits. |
| BerPrimitives.IntegerRoundTrip | gogs/src/gopkg.in/asn1-ber.v1/ber.go:210-254 | parseInt64(encodeInteger(i)) is i for every int64. |
| BerPrimitives.IntegerMinimal | gogs/src/gopkg.in/asn1-ber.v1/ber.go:227-254 | No shorter non-empty octet string has the same value (section 8.3.2 of X.690). |
| BerPrimitives.IntegerFits | gogs/src/gopkg.in/asn1-ber.v1/ber.go:227-254 | At most eight octets are written, so what is written is always accepted. |
| BerPrimitives.SignExtended | gogs/src/gopkg.in/asn1-ber.v1/ber.go:217-224 | Shifting an n-octet word to the top of 64 bits and back is sign extension. |
| BerPrimitives.ParseInt64 | gogs/src/gopkg.in/asn1-ber.v1/ber.go:210-225 | The shifting loops compute the signed value of up to eight octets and an error for more. |
| BerPrimitives.Int64Length | gogs/src/gopkg.in/asn1-ber.v1/ber.go:240-254 | The two loops, one for each sign, return the length of the shortest two's complement form. |
| BerPrimitives.EncodeInteger | gogs/src/gopkg.in/asn1-ber.v1/ber.go:227-238 | The loop writes exactly that form. |
| Utf8.ReencodeSequence | juju/src/gopkg.in/yaml.v1/readerc.go:150-376 | Decoding a well-formed sequence of section 4 of RFC 3629 and encoding the result by section 3 gives the same octets, and the value is in the range of its width and no surrogate. |
| Utf8.DecodeEncoded | gogs/src/gopkg.in/ldap.v2/filter.go:430-433 | Every character that is not a surrogate is read back from its encoding, whatever follows. |
| ClusterSync.SyncOutcome | juju/src/gopkg.in/mgo.v2/cluster.go:477-559 | In every schedule of the goroutines, with resolution and ismaster results fixed per address: each reachable address is synced exactly once and no other is; exactly the servers that answered and are direct, or masters, or listed by a synced master are added, each once; the others are removed; and the servers at the end are the ones the network alone determines. |
| ClusterSync.ScheduleDoesNotMatter | juju/src/gopkg.in/mgo.v2/cluster.go:477-559 | Confluence: any two complete schedules of one iteration sync and add the same addresses the same number of times and leave the same cluster, whatever the map iteration order at the end. |
| ClusterSync.NoEndlessRun | juju/src/gopkg.in/mgo.v2/cluster.go:477-543 | There is no endless schedule: the iteration terminates. |
| ClusterSync.StepDecreases | juju/src/gopkg.in/mgo.v2/cluster.go:477-543 | Every step of every goroutine decreases (addresses not seen, answering addresses not spawned from, weight of the goroutines). |
| ClusterSync.StepKeepsInv | juju/src/gopkg.in/mgo.v2/cluster.go:490-543 | Every locked region of every goroutine keeps the invariant on seen, notYetAdded, addIfFound, the goroutines alive and the cluster. |
| ClusterSync.RunKeepsInv | juju/src/gopkg.in/mgo.v2/cluster.go:490-543 | Every run from the start of an iteration keeps it. |
| ClusterSync.CountStages | juju/src/gopkg.in/mgo.v2/cluster.go:490-543 | How many goroutines stand at each stage for an address after a step. |
| ClusterSync.SettleAt | juju/src/gopkg.in/mgo.v2/cluster.go:549-559 | The two loops over notYetAdded after the wait add or drop each pending address the same way in any order. |
| ClusterSync.ChainIsSeen | juju/src/gopkg.in/mgo.v2/cluster.go:490-512 | When all goroutines have ended, every address on a chain of host lists from a known name has been seen. |
| ClusterSync.AddedIsRight | juju/src/gopkg.in/mgo.v2/cluster.go:515-534 | At the end an address that answered was added directly if a master lists it or is one, and otherwise kept back. |
| ClusterServers.ServerList.SearchIndex | juju/src/gopkg.in/mgo.v2/server.go:349-355 | Binary search on the sorted slice finds the first address not below the one sought, and finds an address if and only if it is present. |
| ClusterServers.ServerList.Search | juju/src/gopkg.in/mgo.v2/server.go:361-366 | A server is returned exactly when one with the address is in the set. |
| ClusterServers.ServerList.Add | juju/src/gopkg.in/mgo.v2/server.go:368-371 | Add keeps the slice sorted, and duplicate-free when the address was not in it, and adds exactly the one server. |
| ClusterServers.ServerList.Remove | juju/src/gopkg.in/mgo.v2/server.go:373-382 | Remove takes out exactly the server with the address, if there is one, and returns it. |
| ClusterServers.SortServers | juju/src/gopkg.in/mgo.v2/server.go:345-347 | Sorting gives the same servers in ascending order of resolved address. |
| ClusterServers.AddedIsUnique | juju/src/gopkg.in/mgo.v2/server.go:361-372 | A sorted slice with one new address added to a duplicate-free one is duplicate-free. |
| ClusterServers.Cluster.AddServer | juju/src/gopkg.in/mgo.v2/cluster.go:256-291 | Servers and masters stay sorted and duplicate-free, a server is in masters if and only if it is in servers as a master, and together they change as the synchronisation's abstract cluster does; a second server object for a held address panics and changes nothing. |
| ClusterServers.Cluster.RemoveServer | juju/src/gopkg.in/mgo.v2/cluster.go:119-129 | The address leaves both sets and the invariant between them is kept. |
| MacaroonTheorems.AcceptsExactly | juju/src/gopkg.in/macaroon.v1/macaroon.go:219-288 | For any macaroon, key and discharges, with the cryptography uninterpreted: Verify succeeds if and only if a tree of discharges that uses each of them exactly once proves the macaroon under its root key. |
| MacaroonTheorems.AcceptedChain | juju/src/gopkg.in/macaroon.v1/macaroon.go:203-208 | Success on any input implies that the signature chain recomputed from the root key is the signature, or that the signature is its own binding of that chain. |
| MacaroonTheorems.ShortVidIsRefused | juju/src/gopkg.in/macaroon.v1/macaroon.go:242-253 | A macaroon with a third-party caveat whose verification id is too short to hold a key, as the empty one of a packet that was read, is never accepted. |
| MacaroonTheorems.MintedMacaroonVerifies | juju/src/gopkg.in/macaroon.v1/macaroon.go:54-208 | A macaroon minted by New and the two kinds of caveat, presented with the discharges of its third parties, bound to it, nested to any depth and in any order, verifies if and only if check accepts every first-party caveat reached. |
| MacaroonTheorems.VerifyAnswers | juju/src/gopkg.in/macaroon.v1/macaroon.go:242-288 | A caveat loop that succeeds has followed such a tree, and its counters have risen by exactly the uses of the tree. |
| MacaroonTheorems.AnswersVerify | juju/src/gopkg.in/macaroon.v1/macaroon.go:242-288 | Conversely, a tree that uses no discharge twice makes the loop succeed with exactly those counters. |
| MacaroonTheorems.PlanAccepted | juju/src/gopkg.in/macaroon.v1/macaroon.go:242-288 | Whatever tree answers the caveats of a minted macaroon is the one its minting planned. |
| MacaroonTheorems.SealedKey | juju/src/gopkg.in/macaroon.v1/macaroon.go:186-197 | A third-party caveat is the nonce and the box, 72 octets, and gives up exactly the key it was minted with, which rests on decrypt undoing encrypt. |
| MacaroonTheorems.DecryptsExactly | juju/src/gopkg.in/macaroon.v1/crypto.go:74-91 | A verification id is decrypted if and only if it has a nonce of 24 octets, a box of at least 16, and the box opens to 32 octets. |
| MacaroonIntegrity.CaveatsAreSealed | juju/src/gopkg.in/macaroon.v1/macaroon.go:242-288 | Two macaroons with the same id and signature that verify under one root key, with any discharges, have the same caveat ids and verification ids in the same order, when the hash does not collide on the calls made for them, comes back neither to the key nor to its own binding, and no first-party id has 64 octets. |
| MacaroonIntegrity.MimickedThirdParty | juju/src/gopkg.in/macaroon.v1/macaroon.go:157-165 | The input for which 64 octets are left out: a first-party caveat whose id is the two hashes of a third-party one has the same signature. |
| MacaroonIntegrity.SignatureAfter | juju/src/gopkg.in/macaroon.v1/macaroon.go:148-165 | The signature after a caveat, as calls of the hash: one of the id for a first party, and one of two hashes for a third party. |
| MacaroonIntegrity.SignatureBound | juju/src/gopkg.in/macaroon.v1/macaroon.go:199-208 | Binding, as calls of the hash under a key of 32 zeros; the root signature itself is left as it is. |
| MacaroonIntegrity.DischargeServesOne | juju/src/gopkg.in/macaroon.v1/macaroon.go:199-208 | A discharge that is proven under two root signatures is proven under one: they are equal, when the hash does not collide on the calls for binding them. |
| MacaroonIntegrity.LocationsAreHints | juju/src/gopkg.in/macaroon.v1/macaroon.go:87-91 | Locations are not signed. |
| MacaroonVerify.Verify | juju/src/gopkg.in/macaroon.v1/macaroon.go:242-288 | The recursion that mutates one array of counters computes the specified outcome and counters, with a caveat a third party's as soon as it has a verification packet, and terminates by (unused discharges, remaining caveats). |
| MacaroonVerify.VerifyRequest | juju/src/gopkg.in/macaroon.v1/macaroon.go:219-240 | Verify with its final check that every discharge was used exactly once. |
| MacaroonVerify.FindDischarge | juju/src/gopkg.in/macaroon.v1/macaroon.go:250-262 | The search stops at the first discharge with the id. |
| MacaroonPackets.PacketRoundTrip | juju/src/gopkg.in/macaroon.v1/packet.go:64-123 | parsePacket after rawAppendPacket gives back the packet, its field name and its payload, with anything before and after it, for every size up to 0xffff; beyond that nothing is appended. |
| MacaroonPackets.PacketIs | juju/src/gopkg.in/macaroon.v1/packet.go:107-138 | The octets of a packet: four lower-case hexadecimal digits of its whole length, the field, a space, the payload, a newline. |
| MacaroonPackets.ParsedIsAPacket | juju/src/gopkg.in/macaroon.v1/packet.go:64-89 | Conversely every packet parsePacket accepts is the one its name and payload would be written as. |
| MacaroonPackets.PacketPanicsExactly | juju/src/gopkg.in/macaroon.v1/packet.go:64-91 | parsePacket panics if and only if six octets are left and the length they start with is below four. |
| MacaroonPackets.PacketParses | juju/src/gopkg.in/macaroon.v1/packet.go:64-89 | A packet standing anywhere in the data is parsed where it stands. |
| MacaroonPackets.SizeRoundTrip | juju/src/gopkg.in/macaroon.v1/packet.go:131-156 | Four bytes read as a size if and only if they are its lower-case hexadecimal form. |
| MacaroonBinary.MacaroonRoundTrip | juju/src/gopkg.in/macaroon.v1/marshal.go:118-197 | UnmarshalBinary(MarshalBinary(m)) restores data, packets, caveats and signature, with any data following, if and only if every caveat has an id and no caveat but the last has a verification id or a location; lines 152-156 do not reset the caveat being read. |
| MacaroonBinary.MarshalledIs | juju/src/gopkg.in/macaroon.v1/marshal.go:98-116 | The packets of a macaroon in order and their field names. |
| MacaroonBinary.CaveatsRestored | juju/src/gopkg.in/macaroon.v1/marshal.go:132-170 | The same for the caveats alone, from any position. |
| MacaroonBinary.TwoThirdPartyCaveatsAreRefused | juju/src/gopkg.in/macaroon.v1/marshal.go:158-166 | A family of macaroons that are not restored: two third-party caveats at the start are refused as a repeated field. |
| MacaroonBinary.RunIsSticky | juju/src/gopkg.in/macaroon.v1/marshal.go:151-168 | Once read, a verification id or location becomes part of every later caveat. |
| MacaroonBinary.ItemsRead | juju/src/gopkg.in/macaroon.v1/marshal.go:118-171 | Reading data made of any caveat packets gives the fields it was written from, except for what the loop makes of the caveats. |
| MacaroonBinary.AcceptedIsCanonical | juju/src/gopkg.in/macaroon.v1/marshal.go:118-197 | Whatever data is accepted begins with exactly the written form of the macaroon read. |
| MacaroonBinary.AcceptedReadsAgain | juju/src/gopkg.in/macaroon.v1/marshal.go:118-197 | Whatever was accepted is accepted again in its written form with the same fields, before any other data. |
| MacaroonBinary.SliceRoundTrip | juju/src/gopkg.in/macaroon.v1/marshal.go:209-242 | Concatenated macaroons split back into exactly themselves if and only if each of them is restored. |
| MacaroonBinary.AcceptedSliceIsCanonical | juju/src/gopkg.in/macaroon.v1/marshal.go:226-242 | Any accepted slice is the concatenation of its macaroons' written forms, with no byte left over. |
| MacaroonObject.Macaroon.AppendPacket | juju/src/gopkg.in/macaroon.v1/packet.go:97-104 | The packet goes to the end of the data, or nothing changes when it is too big. |
| MacaroonObject.Macaroon.New | juju/src/gopkg.in/macaroon.v1/macaroon.go:54-75 | The object represents the minted macaroon, or an error is returned exactly when the location or the identifier is too big. |
| MacaroonObject.Macaroon.AppendCaveat | juju/src/gopkg.in/macaroon.v1/macaroon.go:123-146 | The packets of the non-empty parts are appended and one caveat of references is added; on an error the parts before the one that was too big stay in the data. |
| MacaroonObject.Macaroon.AddCaveat | juju/src/gopkg.in/macaroon.v1/macaroon.go:148-155 | The object represents the macaroon with the caveat added and its signature chained over what the new references read. |
| MacaroonObject.Macaroon.Bind | juju/src/gopkg.in/macaroon.v1/macaroon.go:170-172 | The object represents the bound macaroon. |
| MacaroonObject.Macaroon.MarshalBinary | juju/src/gopkg.in/macaroon.v1/marshal.go:98-101 | The written form is the data and a signature packet. |
| MacaroonObject.Macaroon.UnmarshalBinaryNoCopy | juju/src/gopkg.in/macaroon.v1/marshal.go:118-171 | The loop computes the specified fields, error or panic on every input, adding the caveats to those the object already had. |
| MacaroonObject.LayoutReads | juju/src/gopkg.in/macaroon.v1/packet.go:38-47 | The references an object holds read back the location, id and caveats it was built from, and tell third-party caveats from the others. |
| MacaroonObject.LayoutGrows | juju/src/gopkg.in/macaroon.v1/macaroon.go:123-146 | Adding a caveat extends the layout by its packets and references and changes nothing before them. |
| MacaroonObject.RefusedCaveatSpoilsTheData | juju/src/gopkg.in/macaroon.v1/macaroon.go:127-141 | An input: after a refused caveat with the identifier "x" and a location of 70000 bytes no macaroon reads back. |
| MacaroonObject.RefusedCaveat | juju/src/gopkg.in/macaroon.v1/macaroon.go:127-141 | For every macaroon within the size limits and every caveat that AddCaveat refuses: the data reads back as the macaroon if and only if it did before and nothing of the caveat was written, or the macaroon had no caveats and the refused one no identifier. |
| MacaroonObject.MarshalBinarySlice | juju/src/gopkg.in/macaroon.v1/marshal.go:209-223 | The loop writes the concatenation. |
| MacaroonObject.UnmarshalBinarySlice | juju/src/gopkg.in/macaroon.v1/marshal.go:226-242 | The loop yields one object for each macaroon of the specified split, or the error or panic. |
| BufioReader.Reader.Fill | gogs/src/gopkg.in/bufio.v1/bufio.go:83-111 | Sliding and refilling leave the plain stream ahead of the reader unchanged, and make progress or record an error, also after a hundred empty reads. |
| BufioReader.Reader.ReadSlice | gogs/src/gopkg.in/bufio.v1/bufio.go:273-307 | For any chunking: the prefix through the first delimiter when that fits the buffer; everything before the error with the error; or a full buffer. |
| BufioReader.Reader.ReadBytes | gogs/src/gopkg.in/bufio.v1/bufio.go:397-436 | Exactly the prefix of the stream through the first delimiter, or everything before the error with the error; neither the chunks nor the buffer size matter. |
| BufioReader.Reader.ReadN | gogs/src/gopkg.in/bufio.v1/bufio.go:318-337 | Exactly n bytes when they fit the buffer and are there, everything with the error, or a full buffer; a negative count panics. |
| BufioReader.Reader.ReadLine | gogs/src/gopkg.in/bufio.v1/bufio.go:355-388 | A whole line without its terminator, a prefix of it that never ends in the carriage return of a straddling "\r\n", or what is left; the rewind never passes the start of the buffer. |
| BufioReader.Reader.Read | gogs/src/gopkg.in/bufio.v1/bufio.go:153-189 | Delivers the next bytes of the stream, from the buffer or directly from the source, or its rest with the error, and loses nothing; into no room at all it delivers nothing and hands out the pending error. |
| BufioReader.ReadsConserve | gogs/src/gopkg.in/bufio.v1/bufio.go:83-111 | Bytes returned followed by all that is still ahead are always the stream that was ahead, for each of these reads. |
| BufioReader.AheadIsHeldAndUnread | gogs/src/gopkg.in/bufio.v1/bufio.go:83-111 | What is still ahead is the buffered window followed by what the source has not delivered. |
| BufioReader.FragmentsMakeTheLine | gogs/src/gopkg.in/bufio.v1/bufio.go:355-388 | Whatever fragments successive ReadLine calls return, they concatenate to the line without its terminator, even when "\r\n" straddles the buffer, and the stream goes on right after it. |
| BufioReader.PrefixStep | gogs/src/gopkg.in/bufio.v1/bufio.go:357-372 | A returned prefix leaves exactly the rest of the same line ahead. |
| BufioReader.SliceTurn | gogs/src/gopkg.in/bufio.v1/bufio.go:402-419 | One slice of ReadBytes either completes the result or takes one full buffer without a delimiter. |
| BufioReader.EmptyReadsBefore | gogs/src/gopkg.in/bufio.v1/bufio.go:96-110 | Empty reads that come before data or an error do not change the stream, as long as there are fewer than a hundred. |
| BufioReader.FlowIsTheBytes | gogs/src/gopkg.in/bufio.v1/bufio.go:83-111 | However a source cuts its bytes, as long as one of every hundred reads delivers something, the stream is these bytes and then the error. |
| BufioReader.HundredEmptyReads | gogs/src/gopkg.in/bufio.v1/bufio.go:83-111 | A hundred empty reads in a row are io.ErrNoProgress. |
| BufioWriter.Writer.Write | gogs/src/gopkg.in/bufio.v1/bufio.go:586-608 | Sink contents and buffer grow by exactly the accepted prefix p[:nn], for short, failing and partial sink writes; without an error all of p is accepted, and after an error nothing is; a new error is that of the last sink write, which failed or was short, and no sink write before it failed. |
| BufioWriter.Writer.WriteString | gogs/src/gopkg.in/bufio.v1/bufio.go:656-672 | The same, without the direct write. |
| BufioWriter.Writer.Flush | gogs/src/gopkg.in/bufio.v1/bufio.go:553-574 | Nothing is lost: sink contents and buffer together stay the same, on success all of it is in the sink, an error is sticky, and a new one is that of a sink write that failed or was short. |
| Resp.ParseReq | gogs/src/gopkg.in/redis.v2/parser.go:72-108 | For any chunking of a stream with any final error: the specified arguments, error or panic, where the end of the stream is reported as the error of the source, with the reader left exactly after them; a line is called too long only if one does not fit the buffer. |
| Resp.ParseReply | gogs/src/gopkg.in/redis.v2/parser.go:112-157 | The same for a reply of any kind, with parseSlice for lists. |
| Resp.ParseSlice | gogs/src/gopkg.in/redis.v2/parser.go:159-172 | The same for the elements of a list; nil replies are elements, any other error ends the list. |
| Resp.ReadN | gogs/src/gopkg.in/redis.v2/parser.go:46-68 | Exactly n bytes although they do not fit the buffer, read straight into place, or the error of the source when there are fewer. |
| Resp.SteadyStreams | gogs/src/gopkg.in/redis.v2/parser.go:35-68 | Any bytes, in whatever chunks, that end in EOF or in the error of a broken connection are such streams. |
| Resp.ReadLine | gogs/src/gopkg.in/redis.v2/parser.go:35-44 | The next line, or "reader too small" only if it does not fit the buffer. |
| Resp.DecimalRoundTrip | gogs/src/gopkg.in/redis.v2/parser.go:19-31 | A decimal number of either sign reads back exactly when it is in the range asked for. |
| RespRoundTrip.AppendArgs | gogs/src/gopkg.in/redis.v2/parser.go:19-31 | The loops append exactly the encoding of the arguments. |
| RespRoundTrip.RequestRoundTrip | gogs/src/gopkg.in/redis.v2/parser.go:72-108 | parseReq(appendArgs(args)) is args with nothing of what follows consumed, if and only if every argument is shorter than two to the 31. |
| RespRoundTrip.ArgReads | gogs/src/gopkg.in/redis.v2/parser.go:88-105 | One argument: read back, or refused as not a number, exactly by that bound. |
| RespRoundTrip.RequestFits | gogs/src/gopkg.in/redis.v2/parser.go:72-108 | The lines of a request fit every buffer exactly when the number of arguments does. |
| RespRoundTrip.RequestIsRead | gogs/src/gopkg.in/redis.v2/parser.go:72-108 | End to end on the buffered reader: under any chunking, with payloads larger than the buffer and whatever error ends the stream later, the arguments come back and the reader is left at the following bytes. |
| RespRoundTrip.ReplyRoundTrip | gogs/src/gopkg.in/redis.v2/parser.go:112-172 | Every well-formed reply, with lists nested to any depth, is read as the value or error it stands for with nothing more consumed, and its lines fit a buffer if and only if its own first lines do. |
| RespRoundTrip.ReplyIsRead | gogs/src/gopkg.in/redis.v2/parser.go:112-172 | End to end for replies, under any chunking and whatever error ends the stream later. |
| RespRoundTrip.BrokenPayloadIsReported | gogs/src/gopkg.in/redis.v2/parser.go:46-68 | A connection that breaks anywhere in the payload of a reply or in the line break after it: the error of the source is passed on. |
| RespRoundTrip.BrokenLineIsTaken | gogs/src/gopkg.in/redis.v2/parser.go:35-44 | One that breaks in a status line is not noticed: what there is of the line is taken for the whole reply. |
| RespRoundTrip.ErrorEndsTheList | gogs/src/gopkg.in/redis.v2/parser.go:162-168 | An error reply inside a list ends it there. |
| RespRoundTrip.HeadDecides | gogs/src/gopkg.in/redis.v2/parser.go:118-156 | The first line of a reply is one line and tells the kinds apart. |
| RespRoundTrip.RequestIs | gogs/src/gopkg.in/redis.v2/parser.go:19-31 | The octets of a request in literal characters. |
| RespRoundTrip.ReplyIs | gogs/src/gopkg.in/redis.v2/parser.go:112-157 | The octets of every kind of reply. |
| RespRoundTrip.NoReply | gogs/src/gopkg.in/redis.v2/parser.go:112-157 | What is no reply: an empty line panics, a line with another first octet is an error that quotes it, what is no number is an error, and a negative number of elements panics. |
| RespRoundTrip.NoRequest | gogs/src/gopkg.in/redis.v2/parser.go:72-108 | The same for requests and their arguments; a line that does not start with a star is the only argument. |
| RespRoundTrip.LineEnds | gogs/src/gopkg.in/redis.v2/parser.go:35-44 | A line ends in a newline, with or without a carriage return before it. |
| IterLimit.PanicExactly | juju/src/gopkg.in/mgo.v2/session.go:3404-3409 | "data remains after limit exhausted" is reachable, for some replies a server may send, if and only if there is a limit and the initial op.limit is zero or larger than it; for every prefetch. |
| IterLimit.StepKeepsInv | juju/src/gopkg.in/mgo.v2/session.go:3380-3427 | Every step keeps queued plus still-arriving plus requested documents within the remaining limit, at most one request outstanding, and docsToReceive equal to what is under way. |
| IterLimit.RunKeepsInv | juju/src/gopkg.in/mgo.v2/session.go:3380-3427 | So does every run, for any interleaving of replies, pops, errors and Close. |
| IterLimit.RequestsAreRight | juju/src/gopkg.in/mgo.v2/session.go:3586-3611 | With a limit each getMore asks for at least one document and for no more than there is room for. |
| IterLimit.RequestsAreFull | juju/src/gopkg.in/mgo.v2/session.go:3586-3611 | And asks for no fewer: the batch size, or all the room that the limit leaves. |
| IterLimit.AskedInAdvance | juju/src/gopkg.in/mgo.v2/session.go:3418-3423 | After a reply the next one is asked for exactly when a document taken leaves one fewer than the prefetch share of that reply. |
| IterLimit.EarlyIsRounded | juju/src/gopkg.in/mgo.v2/session.go:4177-4177 | That share is rounded towards zero. |
| IterLimit.AtMostTheLimit | juju/src/gopkg.in/mgo.v2/session.go:3380-3427 | In every run Next returns a prefix of the documents received, in order, and never more of them than the limit. |
| IterLimit.DeliveredInOrder | juju/src/gopkg.in/mgo.v2/session.go:3400-3427 | Documents returned followed by those queued are always the documents received. |
| IterLimit.EndsOnlyAtTheEnd | juju/src/gopkg.in/mgo.v2/session.go:3380-3463 | In any run without errors, when nothing is queued, arriving or asked for, everything received has been returned, and Next asks for more if and only if the last reply said that there is more and fewer documents than the limit were returned. |
| IterLimit.UnsoundPanics | juju/src/gopkg.in/mgo.v2/session.go:3404-3409 | The run that reaches the panic when op.limit is zero or past the limit. |
| IterLimit.QueryLimitIsSound | juju/src/gopkg.in/mgo.v2/session.go:2623-2641 | For every int32 n, Limit sets a limit of \|n\| documents and asks for as many in the first batch, and closes the cursor after it for one document or a negative n; the accounting is sound for these values. |
| IterLimit.Iter.ReplyFunc | juju/src/gopkg.in/mgo.v2/session.go:4153-4190 | The callback takes the specified step for an error, for no documents and for each document of a reply. |
| IterLimit.Iter.StartGetMore | juju/src/gopkg.in/mgo.v2/session.go:3586-3590 | getMore up to its unlock. |
| IterLimit.Iter.FinishGetMore | juju/src/gopkg.in/mgo.v2/session.go:3591-3611 | The rest of getMore takes the specified step, whether or not the request can be sent. |
| IterLimit.Iter.TakeDoc | juju/src/gopkg.in/mgo.v2/session.go:3400-3427 | The bookkeeping for a document found takes the specified step or panics as specified. |
| IterLimit.Iter.constructor | juju/src/gopkg.in/mgo.v2/session.go:3157-3195 | A new iterator is in the initial state. |
| DocQueue.Queue.Push | juju/src/gopkg.in/mgo.v2/queue.go:38-49 | The element is added behind the contents, whatever the wrap-around and whether or not the ring grows. |
| DocQueue.Queue.Pop | juju/src/gopkg.in/mgo.v2/queue.go:51-64 | The first element is returned and leaves, or nil from an empty queue. |
| DocQueue.Queue.Expand | juju/src/gopkg.in/mgo.v2/queue.go:66-91 | The contents survive the move to a larger array in their order. |
| RouteOrder.TreeAgreesWithRoutes | gogs/src/gopkg.in/macaron.v1/tree.go:191-371 | For any sequence of added static, ":name" and "*" routes and any URL: Match succeeds if and only if some route matches declaratively, and returns the handle and the parameters of the least matching route in segment-by-segment order, static before holder before match-all and then by first insertion. |
| RouteText.MatchTakesTheFirst | gogs/src/gopkg.in/macaron.v1/tree.go:248-371 | For any pattern texts added in any order and any URL text, each with or without a slash before and after: Match succeeds if and only if some pattern fits the URL segment by segment, and returns the handle of the first addition and the parameters of the pattern that comes first. |
| RouteText.SpellingDoesNotMatter | gogs/src/gopkg.in/macaron.v1/tree.go:248-261 | A list of non-empty segments without slashes, joined by slashes, with or without one before and one after, is taken apart into exactly these segments, as a pattern and as a URL. |
| RouteText.UrlSegmentsAre | gogs/src/gopkg.in/macaron.v1/tree.go:357-363 | A URL comes apart at every slash, empty segments included. |
| RouteText.PatternSegmentsAre | gogs/src/gopkg.in/macaron.v1/tree.go:248-256 | So does a pattern, whether it starts with a slash or not. |
| RouteText.AddedNext | gogs/src/gopkg.in/macaron.v1/tree.go:258-261 | The tree of some patterns and one more is what Add makes of the tree of the former. |
| RouteText.MatchesIsFitting | gogs/src/gopkg.in/macaron.v1/tree.go:263-355 | A route matches if and only if every segment is equal, a name after a colon, or a star, and the URL has as many segments, or more behind a final star. |
| RouteText.PrecedesComesFirst | gogs/src/gopkg.in/macaron.v1/tree.go:225-246 | The order of the tree: where two routes part, the one that goes on is first, then a text before a name before a star, then the one whose prefix was added first. |
| RouteText.HolderParam | gogs/src/gopkg.in/macaron.v1/tree.go:323-327 | A name is bound to the URL segment at its first place in the route. |
| RouteText.StarParam | gogs/src/gopkg.in/macaron.v1/tree.go:328-352 | A star is bound under its level, the number of names and stars before it, and a final one also under "*", to its segment or to all the rest of the URL. |
| RouteText.OnlyParams | gogs/src/gopkg.in/macaron.v1/tree.go:263-355 | There are no other parameters. |
| RouteOrder.MatchIsRight | gogs/src/gopkg.in/macaron.v1/tree.go:263-363 | The same at every node of the tree, for the routes that pass through it. |
| RouteOrder.AddHolds | gogs/src/gopkg.in/macaron.v1/tree.go:191-256 | Adding a route keeps leaves and subtrees unique and sorted by type and then first insertion, and each leaf with its first handle, at every node. |
| RouteOrder.BuiltHolds | gogs/src/gopkg.in/macaron.v1/tree.go:191-261 | So every tree built by additions. |
| RouteOrder.LeafMatch | gogs/src/gopkg.in/macaron.v1/tree.go:263-300 | For a single segment the first leaf that fits is the best route. |
| RouteOrder.BranchMatch | gogs/src/gopkg.in/macaron.v1/tree.go:302-334 | The first subtree with a match below it holds the best route, by backtracking over those without. |
| RouteOrder.RestMatch | gogs/src/gopkg.in/macaron.v1/tree.go:336-353 | When no subtree matches, only a final "*" can, and it is the last leaf. |
| RouteOrder.TailsHave | gogs/src/gopkg.in/macaron.v1/tree.go:225-246 | Routes through a node are exactly the tails of the longer ones, with the same handles. |
| RouteTree.AddLeafTo | gogs/src/gopkg.in/macaron.v1/tree.go:191-223 | The loops find an equal leaf or the place before the first of a later type, as specified. |
| RouteTree.AddSubtree | gogs/src/gopkg.in/macaron.v1/tree.go:225-246 | The same for subtrees, and the rest of the pattern is added below. |
| RouteTree.AddNextSegment | gogs/src/gopkg.in/macaron.v1/tree.go:248-256 | The pattern is taken segment by segment, a leading slash being dropped at each level. |
| RouteTree.Add | gogs/src/gopkg.in/macaron.v1/tree.go:258-261 | A trailing slash is dropped first. |
| RouteTree.MatchLeaf | gogs/src/gopkg.in/macaron.v1/tree.go:263-300 | The loop over the leaves computes the specified match and fills the parameters. |
| RouteTree.MatchSubtree | gogs/src/gopkg.in/macaron.v1/tree.go:302-355 | The loop over the subtrees with backtracking, and the final "*", as specified; parameters of a branch that fails are not left behind. |
| RouteTree.MatchNextSegment | gogs/src/gopkg.in/macaron.v1/tree.go:357-363 | The URL is taken segment by segment. |
| RouteTree.Match | gogs/src/gopkg.in/macaron.v1/tree.go:365-371 | One leading and one trailing slash are dropped. |
| RouteTree.JoinUrlSegments | gogs/src/gopkg.in/macaron.v1/tree.go:336-353 | What a final "*" receives is the rest of the URL as it stood. |
| GridFs.FileWriter.Write | juju/src/gopkg.in/mgo.v2/gridfs.go:562-607 | What was written is extended by exactly the data, cut into chunks of the chunk size whatever the sizes of the calls; an error is reported only when a chunk handed over so far is refused, and from then on nothing is taken. |
| GridFs.FileWriter.InsertChunk | juju/src/gopkg.in/mgo.v2/gridfs.go:609-645 | Every chunk handed over is under way or stored under its number, in whatever order the inserts finish, until a refused one ends; only accepted ones are stored, and behind one chunk less than a megabyte is under way. |
| GridFs.FileWriter.Close | juju/src/gopkg.in/mgo.v2/gridfs.go:501-536 | Succeeds if and only if none of the chunks of all that was written is refused, and neither is the document of the file; then the collection holds exactly those chunks, nothing is under way and the document has the length; otherwise no chunk and no document is left. |
| GridFs.ChunkCount | juju/src/gopkg.in/mgo.v2/gridfs.go:562-607 | The chunks handed over and the last one number as many as the data fills. |
| GridFs.StoredIsTheFile | juju/src/gopkg.in/mgo.v2/gridfs.go:562-607 | Those chunks concatenate to the data, all but the last have exactly the chunk size, the last is not empty, and there are no others. |
| GridFs.ChunkInFlat | juju/src/gopkg.in/mgo.v2/gridfs.go:587-603 | The n-th chunk cut is the n-th piece of the data. |
| GridFs.FileReader.Read | juju/src/gopkg.in/mgo.v2/gridfs.go:699-719 | Returns exactly data[offset..min(offset+len(b), Length)], and EOF exactly at the end. |
| GridFs.FileReader.Seek | juju/src/gopkg.in/mgo.v2/gridfs.go:652-690 | Moves to any offset within the file, by refetching or within the buffered chunk, and refuses past the end; before the start, which is not checked, it slices out of range within one chunk of a file that is not empty and otherwise finds no chunk. |
| GridFs.FileReader.GetChunk | juju/src/gopkg.in/mgo.v2/gridfs.go:721-755 | Returns what a query for the chunk brings, its data or an error, from the read-ahead cache or the collection: the cache never changes the result. |
| YamlDecode.ChecksAreTheGrammar | juju/src/gopkg.in/yaml.v1/readerc.go:169-243 | The library's checks on width, trailing octets, overlong forms and ranges accept a sequence if and only if it is well formed under section 4 of RFC 3629. |
| YamlDecode.DecodedIsRight | juju/src/gopkg.in/yaml.v1/readerc.go:150-354 | A character is decoded if and only if an allowed one stands there whatever follows, and encoding it again gives the octets consumed. |
| YamlDecode.EveryCharacter | juju/src/gopkg.in/yaml.v1/readerc.go:332-350 | Every character is decoded to itself but the control characters, which are refused: those below 32 but for tab, newline and carriage return, 127 to 159 but for 133, and U+FFFE and U+FFFF. |
| YamlDecode.Decode | juju/src/gopkg.in/yaml.v1/readerc.go:150-243 | The switches and the loop over trailing octets compute the specified character, request for more, or problem. |
| YamlDecode.AllowedConcat | juju/src/gopkg.in/yaml.v1/readerc.go:141-379 | Allowed text stays allowed exactly when what follows it is. |
| YamlReader.Parser.UpdateBuffer | juju/src/gopkg.in/yaml.v1/readerc.go:91-391 | Bytes added to the buffer are exactly the bytes consumed, with a NUL in exactly the call that comes to the end of the text, never a second one; unread stays the number of characters held; the text is refused only if some character is not allowed; at least the requested characters are there unless the text has ended; and only a lookahead of more than 256 characters can index past the buffer. |
| YamlReader.Parser.FillBuffer | juju/src/gopkg.in/yaml.v1/readerc.go:124-391 | The same for the refilling loop, with a NUL exactly when it comes to the end short of the requested characters. |
| YamlReader.Parser.DecodeAvailable | juju/src/gopkg.in/yaml.v1/readerc.go:141-379 | The inner loop consumes whole characters only, leaves at most three bytes of an incomplete one, reports a problem only if no continuation of the input is allowed text, and runs past the buffer only when the raw bytes would not all fit. |
| YamlReader.Parser.UpdateRawBuffer | juju/src/gopkg.in/yaml.v1/readerc.go:56-85 | Refilling, for pieces of any size, leaves the text ahead unchanged. |
| YamlReader.Parser.DetermineEncoding | juju/src/gopkg.in/yaml.v1/readerc.go:25-53 | A UTF-8 byte order mark is passed over and a UTF-16 one recognised, however the input arrives. |
| YamlReader.MarksAreTheCharacter | juju/src/gopkg.in/yaml.v1/readerc.go:23-50 | The marks are U+FEFF, in UTF-8 or as a word of two octets in either order. |
| YamlReader.PiecesDecide | juju/src/gopkg.in/yaml.v1/readerc.go:91-391 | After any number of successful updates the whole text is allowed if and only if what is still ahead is, so reading to the end accepts exactly the allowed texts. |
| YamlReader.Parser.Put | juju/src/gopkg.in/yaml.v1/readerc.go:356-376 | The character goes into the buffer by the table of section 3 of RFC 3629. |
| ConnPool.RunKeepsShape | gogs/src/gopkg.in/redis.v2/pool.go:124-274 | In every run of Get, Put, Remove and Close there are never more connections than PoolSize, and none are idle once the pool is closed. |
| ConnPool.ClosedStaysEmptyExactly | gogs/src/gopkg.in/redis.v2/pool.go:148-178 | A closed pool stays empty in every run if and only if Close found no signalled goroutine still to run, or PoolSize is zero: Get does not look at closed again after its wait. |
| ConnPool.ClosedPoolHolds | gogs/src/gopkg.in/redis.v2/pool.go:148-178 | What a closed pool holds after any run is exactly the number of such goroutines whose dial succeeded, up to PoolSize. |
| ConnPool.LateConnection | gogs/src/gopkg.in/redis.v2/pool.go:148-178 | The schedule for which a closed pool is filled: Get, a second Get that waits, Remove, Close, and the second Get goes on. |
| ConnPool.StrandsExactly | gogs/src/gopkg.in/redis.v2/pool.go:148-217 | No goroutine sleeps while there is room that no signalled one is on its way to, until exactly one of two steps: a signalled goroutine fails to dial while it was the only one for the room, or the pool is closed with fewer signalled goroutines than PoolSize. |
| ConnPool.RunRests | gogs/src/gopkg.in/redis.v2/pool.go:148-217 | In every run without such a step nobody oversleeps. |
| ConnPool.ClosedSleepersStay | gogs/src/gopkg.in/redis.v2/pool.go:254-274 | Who sleeps in a closed pool sleeps for ever. |
| ConnPool.SweepIsCleanExactly | gogs/src/gopkg.in/redis.v2/pool.go:132-146 | After a Get every expired idle connection is gone if and only if there is no idle timeout or at most one had expired. |
| ConnPool.SweptDropsOne | gogs/src/gopkg.in/redis.v2/pool.go:132-146 | Each Get takes exactly one of the expired ones, if there are any. |
| ConnPool.HandsOutStaleExactly | gogs/src/gopkg.in/redis.v2/pool.go:132-163 | The connection handed out has itself expired if and only if the first two idle ones had. |
| ConnPool.TwoExpired | gogs/src/gopkg.in/redis.v2/pool.go:132-146 | The input: of two expired connections one is left and handed out. |
| ConnPool.Pool.Get | gogs/src/gopkg.in/redis.v2/pool.go:124-179 | The first expired idle connection leaves the list; then the first idle one is moved to the end and handed out, or a new one added, or Get waits when all PoolSize are in use; the list stays idle connections followed by those in use with idleNum the length of the former, and both panics are unreachable. |
| ConnPool.Pool.TakeOrWait | gogs/src/gopkg.in/redis.v2/pool.go:148-178 | The part from the wait on, also in a pool that has been closed meanwhile. |
| ConnPool.Pool.Expire | gogs/src/gopkg.in/redis.v2/pool.go:132-146 | Exactly the first idle connection unused for too long is dropped, if there is one, and no other: removing it from the list ends the walk. |
| ConnPool.Pool.Put | gogs/src/gopkg.in/redis.v2/pool.go:181-204 | The connection becomes the first idle one and is marked used now, or is removed when it has unread data, and a sleeping goroutine is signalled; a closed pool reports its error. |
| ConnPool.Pool.Remove | gogs/src/gopkg.in/redis.v2/pool.go:206-217 | The connection leaves the list, a sleeping goroutine is signalled, and the error is that of closing the connection; a closed pool does nothing. |
| ConnPool.Pool.Wake | gogs/src/gopkg.in/redis.v2/pool.go:148-178 | A signalled goroutine takes a connection, opens one, or sleeps again, in an open or a closed pool. |
| ConnPool.Pool.Close | gogs/src/gopkg.in/redis.v2/pool.go:254-274 | Every connection is dropped and idleNum is zero; an error means that one of them failed to close. |
| ConnPool.Pool.Drop | gogs/src/gopkg.in/redis.v2/pool.go:219-226 | remove keeps idleNum the number of idle connections. |
| MailFold.Base64LineWriter.Write | gogs/src/gopkg.in/gomail.v2/writeto.go:289-303 | For any split into calls the output is the folded form of all that was written. |
| MailFold.LinesAreRight | gogs/src/gopkg.in/gomail.v2/writeto.go:275-303 | Every line but the last has exactly 76 characters, the last no more, and together they are the input (section 6.8 of RFC 2045). |
| MailFold.FoldedGivesBack | gogs/src/gopkg.in/gomail.v2/writeto.go:289-303 | For any data, deleting every CRLF from the output gives the input back if and only if no line of it holds a CRLF of its own. |
| MailFold.Base64GivesBack | gogs/src/gopkg.in/gomail.v2/writeto.go:289-303 | So it does for base64 text, which has no carriage return. |
| MailFold.BreakingGoesOn | gogs/src/gopkg.in/gomail.v2/writeto.go:289-303 | Continuing from the current line length is the same as folding the concatenated input at once. |
| HeaderFold.HeaderUnfolds | gogs/src/gopkg.in/gomail.v2/writeto.go:165-239 | Unfolding the written field by section 2.2.3 of RFC 5322 gives the name, ": " and the values joined by ", " if and only if the name is shorter than 74 characters or there is no value; a longer name gets a second space. |
| HeaderFold.IntendedIs | gogs/src/gopkg.in/gomail.v2/writeto.go:165-190 | What the field is intended to read, in literal characters: the name, a colon, and the values with a comma and a space between them. |
| HeaderFold.FieldText | gogs/src/gopkg.in/gomail.v2/writeto.go:165-205 | The same for names and values that contain line breaks of their own, leaving out only the inserted ones. |
| HeaderFold.BreakWithinLimit | gogs/src/gopkg.in/gomail.v2/writeto.go:207-239 | A line only goes past the limit when there is no space within it. |
| HeaderFold.BreakIs | gogs/src/gopkg.in/gomail.v2/writeto.go:207-239 | A line is broken behind its first newline if that is within the limit, otherwise at the last space within it, otherwise at the first space or newline from the 76th character on, and otherwise not at all. |
| HeaderFold.CharsLeftIs | gogs/src/gopkg.in/gomail.v2/writeto.go:198-202 | The room after a value is 75 less what follows its last newline, or what the value leaves of the line. |
| HeaderFold.HeaderStaysWithin | gogs/src/gopkg.in/gomail.v2/writeto.go:165-239 | Every line of the whole written field is within 76 characters if and only if each value, when its turn comes, has no word of more than 75 characters and a first word that fits the room on its line, and neither the name nor a comma has used that up; the room is counted from the last break of the values before. |
| HeaderFold.NarrowIs | gogs/src/gopkg.in/gomail.v2/writeto.go:173-176 | Within 76 characters is: every line up to a line break has at most 76. |
| HeaderFold.OneValueStaysWithin | gogs/src/gopkg.in/gomail.v2/writeto.go:165-239 | For one value: if and only if the name has at most 74 characters, there is a space in every 76 characters of the value, and the value or its first word fits behind the name unless the line is broken right there. |
| HeaderFold.FoldValueNarrow | gogs/src/gopkg.in/gomail.v2/writeto.go:192-239 | A value is folded into lines within the limit exactly when it fits the room it is given. |
| HeaderFold.RoomAfterIs | gogs/src/gopkg.in/gomail.v2/writeto.go:192-239 | The room that is left after a value, counted from the last space at which it is broken, is what the folding ends with. |
| HeaderFold.LastLineFits | gogs/src/gopkg.in/gomail.v2/writeto.go:207-239 | That break is at a space, and what follows it fits a line. |
| HeaderFold.CommaOverruns | gogs/src/gopkg.in/gomail.v2/writeto.go:177-190 | The inputs for which it does not: a first value that leaves room for one more character or none, whatever the second is. |
| HeaderFold.UnfoldGivesText | gogs/src/gopkg.in/gomail.v2/writeto.go:165-239 | Inserted breaks are always followed by a space, so unfolding removes exactly them. |
| HeaderFold.MessageWriter.WriteHeader | gogs/src/gopkg.in/gomail.v2/writeto.go:165-205 | The loops over the values terminate and write exactly the specified pieces. |
| HeaderFold.MessageWriter.WriteLine | gogs/src/gopkg.in/gomail.v2/writeto.go:207-239 | One line of a value is written up to the specified break, and the rest returned. |
| HeaderFold.MessageWriter.WriteLines | gogs/src/gopkg.in/gomail.v2/writeto.go:192-196 | The inner loop folds a value that is too long. |

## Left out

- LdapFilter: packets are values instead of pointers, so sharing between packets is not captured; descriptions and debug printing are not modelled.
- BerTree: negative and over-long content lengths are error outcomes; class and type are enumerations; of the Go values only booleans, integers and strings are kept.
- ClusterSync: each locked region is one step and all hosts of a server are spawned in one step; socket errors are fixed per address for one iteration; timeouts, pings and the sync loop around the iteration are left out.
- ClusterServers.SortServers: sort.Sort is an insertion sort here; only that it sorts and permutes matters.
- MacaroonVerify: HMAC, key derivation and secretbox are parameters of which only decrypt(k, encrypt(k, x)) = x and the lengths are known.
- MacaroonPackets: positions are unbounded, so data of two gigabytes and more, where int32 wraps, is not covered.
- MacaroonObject: the JSON form of macaroons.
- BufioReader: UnreadByte, UnreadRune, ReadRune and Peek; that returned slices alias the buffer; sources that return more than they were asked for, negative counts, or the package's own ErrBufferFull.
- BufioWriter: ReadFrom, and sinks that for ever take nothing without an error, for which Write does not return.
- bufio.v1/buffer.go: its contents are a plain byte string under every operation; it would add only easy members.
- Resp: streams that deliver more after an error, and streams whose error is the package's own ErrBufferFull; allocation failure for enormous announced lengths; the other multi-bulk parsers, which only convert values.
- IterLimit: replies arrive in order on one connection; int32 overflow of document counts; timeouts of tailable cursors; what Next does with the bytes of a document.
- RouteTree: nodes are values, so Add returns the new tree instead of splicing slices in place; regular expressions, "*.*" and optional segments, and parentheses in segments, on which getRawPattern may not return.
- GridFs.FileReader.Seek: what later calls make of a reader whose offset is before the start of the file.
- GridFs: failing fetches of chunks; checksums, Abort, index creation and a failing removal of chunks (gridfs.go:519-549); several goroutines writing one file.
- YamlReader: UTF-16 input, where line 376 advances by the input width; the offsets in error messages.
- ConnPool: Filter; dialing and rate limiting, of which only success or failure is known.
- MailFold: quoted-printable bodies, multipart structure and header encoding.
- HeaderFold.HeaderStaysWithin: values with line breaks of their own, whose lines the writer does not measure alike.
- Sockets, TLS, logging, statistics and the remaining libraries of the repository are not part of this model.
