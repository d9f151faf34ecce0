# Verified model of swarm-discovery

swarm-discovery finds the members of a local swarm with mDNS. Every node alternates between a query
phase and a response phase; random delays and counting each other's responses keep the traffic
independent of the swarm's size. This project models the four parts that make this work and proves
what they promise. `dafny verify dfyconfig.toml` checks everything.

| part | modules |
|---|---|
| senders: one automaton, what it sends, its timers, and any number of them on a broadcast medium | `Sender`, `Transmissions`, `StaleTimeouts`, `Delays`, `Handicap`, `Swarm`, `Bandwidth`, `Suppression`, `EmptyEntries`, `Cadence` |
| packets: what is written, what any packet means, and that both fit together | `Dns`, `Peers`, `Response`, `Receiver`, `Codec`, `Reading` |
| the updater: known peers, callbacks, expiry, size updates | `Updater`, `Expiry`, `SizeAgreement` |
| the local announcement: commands, their routing, the cached response | `Announcement`, `Discovery` |
| all of it together | `EndToEnd` |
| vocabulary | `Wrappers`, `Ordering`, `Text` |

Code that changes state step by step is modelled by classes and methods with the loops of the source
(`Sender.Actor`, `Discovery.Discoverer`, `Discovery.Guardian`, `Updater.Actor`, `Response.MakeResponse`,
`Receiver.HandleMsg`). Each is proved to compute a function, and the promises are proved of these functions,
over whole runs. A run is a sequence of events from the initial state; every theorem about runs covers all
of them.

What is taken as given: names are sequences of labels that compare without regard to ASCII case; a peer
identifier is one label of at most 57 octets, so that "PEER-PORT" fits the 63 octets of section 2.3.4 of RFC 1035
(`spawn` checks only the bare identifier); `cutoff = ceil(tau * phi)` is at least 1, as it is a divisor. Random
draws, the clock, the success of aborts, the delivery of messages and the acceptance of an interface by the
sockets are inputs over which all statements quantify.

## Findings

* The bound on traffic covers responses that carry an address. A node whose addresses have all been removed by
  port or by address still has an entry and still sends packets, which count for nothing at their receivers. With E
  nodes that have an entry and A of these that announce an address, a complete round has at most
  min(A, cutoff) + (E - A) packets (`Suppression.ExactSuppression`), and some firing order reaches that number
  (`EmptyEntries.MostPackets`). So every firing order stays within cutoff packets if and only if E <= cutoff or
  every entry has an address, and every firing order has exactly min(A, cutoff) packets if and only if every entry has
  an address (`EmptyEntries.LimitedIff`). In runs without such entries the bound on traffic covers all response
  packets (`EmptyEntries.AddressedBandwidth`); with them there is none: for every n there is a run in which n nodes
  join with an address, lose it and send n packets in one round (`EmptyEntries.EmptyAnnouncersAreNotLimited`).
* Attributes survive the round trip exactly if no key contains '='; validation does not reject such keys
  (`Codec.RoundTrip`). The key "=" without a value comes back as the empty key with the empty value
  (`Codec.EqualsInKeyIsLost`).
* `update_response` returns no response for interface commands, so the cache is right only because the guardian
  does not forward them (`Discovery.CacheAgreesIff`).
* One collection by the updater is not always enough, because the grace period shrinks with the map
  (`Expiry.OneCollectionIsNotEnough`). It is enough if and only if no age lies between the grace period of the peers
  that it keeps and that of the whole map, so always in maps of at most cutoff peers
  (`Expiry.OneCollectionIsEnoughIff`). Repeating it reaches a greatest fixed point.

Where the documentation differs from the code, the model follows the code: the query interval uses S, not S + 1;
responses are suppressed from cutoff on, not above it; a peer expires after 3 tau n / min(cutoff, n), not 3 S / phi;
SRV targets are `PEER-PORT.local.`; a key and value of together exactly 254 octets are accepted.

## Model

| member | source | states |
|---|---|---|
| Sender.Actor.constructor | src/sender.rs:35-50 | a sender starts with size 1, no handicap and the response for its configured entry |
| Sender.Actor.Run | src/sender.rs:52-152 | the two-phase loop reaches, for every inbox and all random draws, the state and the effects that the automaton reaches message by message |
| Sender.Actor.QueryPhase | src/sender.rs:65-94 | the query phase ends at the first query or current timeout with the right mode, and otherwise has consumed the whole inbox |
| Sender.Actor.ResponsePhase | src/sender.rs:118-149 | the response phase ends when cutoff responses have been counted or at its own timeout, which sends the cached response if there is one |
| Sender.StepKeepsInvariant | src/sender.rs:65-151 | every message keeps: cache agrees with the entry, addresses strictly sorted and attributes valid, handicap a multiple of 100ms up to 1s, even counts in query phases and odd ones in response phases, fewer than cutoff responses counted |
| Sender.RunKeepsInvariant | src/sender.rs:40-152 | all of this holds in every state that a sender can reach |
| Transmissions.StepSends | src/sender.rs:65-151 | a wake-up sends a query over everything or the cached response on the way of the phase, nothing else sends; exactly responses are forwarded; exactly queries and the last needed response abort the timer; every change of phase arms one |
| Transmissions.StepMoves | src/sender.rs:65-151 | queries over IPv4 and IPv6 open response phases of their own mode; a response phase counts every peer of a response and ends at its wake-up or at cutoff; a response that has been sent is remembered until the next query |
| Transmissions.LaterQueriesDoNothing | src/sender.rs:144-145 | in a response phase a query changes nothing |
| Transmissions.ArmedDelay | src/sender.rs:57-59 | in every step, the timer armed is that of tau plus the drawn part of tau * S / 10, or of the handicap plus the drawn part of 100ms * S / cutoff, short of less than 1ms |
| Transmissions.FirstDelay | src/sender.rs:48-63 | the first timer is that of a swarm of one, and starting sends nothing |
| Transmissions.SentInRun | src/sender.rs:52-152 | in every run the packet sent at a message is: a query for the service at the wake-up of a query phase, the cached response at that of a response phase, on the way of the message that opened the phase, and none otherwise |
| Transmissions.SizeInRun | src/sender.rs:84-86 | in every run the swarm size is that of the last update, or 1 |
| StaleTimeouts.PhaseSteps | src/sender.rs:65-151 | a message either ends the phase, raising the count by one and arming a timer, or touches neither; a stale timeout changes nothing |
| StaleTimeouts.EveryPhaseHasOneWakeUp | src/sender.rs:42-151 | in every run with mailbox, timers in flight and aborts of any outcome, exactly one timer or message carries the current count and all others carry smaller ones |
| StaleTimeouts.WakeUpEndsPhase | src/sender.rs:79-82 | once the current timer has fired, working off the mailbox ends the phase, so no phase lasts forever |
| StaleTimeouts.AbortsDoNotMatter | src/sender.rs:69-83 | every run with some abort outcomes is matched by a run with any other abort outcomes that is delivered the same messages in the same order, sends and forwards the same and ends in the same state |
| Delays.TruncationLoss | src/sender.rs:57-59 | dividing before multiplying loses less than a millisecond against the ideal fraction of the interval |
| Delays.QueryDelayIsIdeal | src/sender.rs:57-59 | the query delay is tau plus the drawn fraction of tau * S / 10, short of less than 1ms |
| Delays.ResponseDelayIsIdeal | src/sender.rs:109-112 | the response delay is the handicap plus the drawn fraction of 100ms * S / cutoff, short of less than 1ms |
| Delays.QueryDelayBounds | src/sender.rs:57-59 | a query delay is between tau and tau + tau * M / 10 for all sizes up to M |
| Delays.ResponseDelayBounds | src/sender.rs:109-112 | a response delay is between the handicap and the handicap plus 100ms * M / cutoff for all sizes up to M |
| Delays.ExtraDelayIsValid | src/sender.rs:100-104 | the handicap stays a whole number of response delays of at most one second |
| Handicap.HandicapInRun | src/sender.rs:99-104 | in every run, after a message that makes the node send its response and as long as no other does, the handicap of the k-th round is 100ms * max(0, min(10, S / cutoff) - (k - 1)) |
| Handicap.NoHandicapBefore | src/sender.rs:99-104 | a node that has not responded yet has no handicap |
| Swarm.QueryIsHeard | src/sender.rs:79-82 | what the wake-up of a query phase sends is read as a query by every node, over IPv4 or IPv6 |
| Swarm.ResponseIsHeard | src/sender.rs:131-137 | what the wake-up of a response phase sends is the cached response, as its receivers decode it |
| Swarm.AfterQuery | src/sender.rs:67-94 | a query puts every node of the swarm into its response phase with count zero and disturbs none that is in it already |
| Swarm.AfterRespond | src/sender.rs:118-149 | a response ends the response phase of its sender and of the nodes it reaches that have counted enough; all their new query timers run for at least tau |
| Bandwidth.QuerySpacing | src/sender.rs:54-94 | in every run, with any joins, leaves, losses and delays of responses, any two queries anywhere in the swarm are at least tau apart |
| Bandwidth.OnlyMissedAreUncounted | src/sender.rs:118-130 | a node in its response phase has counted all address-carrying responses since the last query except those that have not been delivered to it |
| Bandwidth.MissedInRun | src/sender.rs:118-130 | this holds in every state of every run, with responses lost, late, repeated or from strangers |
| Bandwidth.ResponseCap | src/sender.rs:118-149 | if to each responder, when it responds, at most d of the address-carrying responses since the last query have not been delivered, at most cutoff + d of them are sent between two queries |
| Bandwidth.AtomicMissesNothing | src/sender.rs:123-130 | under atomic broadcast every address-carrying response since the last query has been delivered to every node in its response phase |
| Bandwidth.Bandwidth | README.md:3 | every window of length t has at most t / tau + 1 queries and (t / tau + 2) * (cutoff + d) address-carrying responses, for every swarm size |
| Bandwidth.AtomicBandwidth | README.md:3 | the same with d = 0 under atomic broadcast |
| Suppression.RunKeepsSound | src/sender.rs:52-152 | every node of every reachable swarm satisfies the sender's invariant |
| Suppression.HeardCounts | src/receiver.rs:165-178 | a response of a reachable node counts as one exactly if the node announces an address, and as zero otherwise |
| Suppression.HeardAsResponse | src/receiver.rs:47-71 | no response of a reachable node is taken for a query, and it says the same whenever it is read |
| Suppression.ExactSuppression | src/sender.rs:96-151 | a complete atomic round sends exactly min(announcing nodes, cutoff) address-carrying responses in every firing order, and at most one packet more for each entry without addresses; with fewer than cutoff announcing nodes, every node with an entry sends a packet |
| Suppression.RoundsCanFinish | src/sender.rs:96-151 | from every state of a round some firing order completes it |
| EmptyEntries.MostPackets | src/sender.rs:96-151 | in every round some firing order sends min(announcing nodes, cutoff) packets and one more for each entry without addresses |
| EmptyEntries.LimitedIff | src/sender.rs:118-149 | every completion of a round sends at most cutoff packets if and only if at most cutoff nodes have an entry or every entry has an address; every completion sends exactly min(announcing nodes, cutoff) if and only if every entry has an address |
| EmptyEntries.RunCarries | src/receiver.rs:165-178 | if no node ever has an entry without addresses, every response that is sent carries an address |
| EmptyEntries.AddressedBandwidth | README.md:3 | in such runs the bound on address-carrying responses in a window is a bound on all response packets |
| EmptyEntries.AtomicAddressedBandwidth | README.md:3 | the same under atomic broadcast, where nothing is missed |
| EmptyEntries.EmptyAnnouncersAreNotLimited | src/sender.rs:243-254 | for every n, n nodes that join with an address and lose it by removal of its port send n packets in one round |
| Cadence.SteadyCadence | README.md:4 | with prompt timers and sizes up to M, at most tau + tau * M / 10 + 100ms * M / cutoff + 1s pass without a query while any node is present |
| Response.GroupByPort | src/sender.rs:175-178 | the port map has exactly the ports of the addresses, each with its addresses in order |
| Response.AddressRecordsOf | src/sender.rs:188-205 | one A or AAAA record per address, in order |
| Response.TxtParts | src/sender.rs:208-221 | one string per attribute with non-empty key in key order |
| Response.EncodedTxt | src/sender.rs:214-219 | each string is the key, or the key, '=' and the value |
| Response.MakeResponse | src/sender.rs:165-231 | builds the response packet of the entry, and none without an entry |
| Response.ResponseRecords | src/sender.rs:165-231 | the packet asks nothing and consists of exactly one SRV record per port to PEER-PORT.local, one A or AAAA record per address and, if there are attributes, one TXT record |
| Response.TargetLabelFits | src/sender.rs:181-182 | "PEER-PORT" is a valid label for every identifier of at most 57 octets and every port |
| Receiver.AskedFor | src/receiver.rs:47-71 | a packet is a query exactly if the class of some question is IN, its type PTR and its name that of the service |
| Receiver.ReadTxt | src/receiver.rs:108-125 | the strings of a TXT record are added to one peer's attributes, keys already present winning, invalid and empty strings skipped |
| Receiver.ReadAnswers | src/receiver.rs:75-130 | the port map holds exactly the SRV records of the service by folded target, the attribute map the parsed TXT strings of every peer |
| Receiver.AddAddress | src/receiver.rs:158-163 | an address record adds its address to exactly the peers with an SRV record for its name |
| Receiver.ReadAdditionals | src/receiver.rs:132-164 | the address map holds exactly the join of SRV and address records |
| Receiver.Collect | src/receiver.rs:165-177 | every peer gets the strictly sorted vector of its addresses and its attributes |
| Receiver.HandleMsg | src/receiver.rs:47-179 | the passes over a packet yield exactly its declarative meaning |
| Peers.SortDedupAddrs | src/receiver.rs:167-168 | sorting and deduplicating yields the strictly sorted enumeration of the elements |
| Peers.AddrOrderMeans | src/receiver.rs:167 | IPv4 comes before IPv6, then the address decides, then the port |
| Text.StrLeMeans | src/updater.rs:33 | identifiers and keys are ordered lexicographically |
| Codec.JoinMeaning | src/receiver.rs:73-178 | any packet decodes to exactly the peers for which some IN SRV record named PEER.service leads to some IN address record under local, each with the strictly sorted vector of all such addresses, never an empty one; stated on the fields of the records |
| Reading.QueryMeaning | src/receiver.rs:47-71 | a packet with a question for the service is a query whatever else it carries, with the mode of its IP version; any other is a response |
| Reading.OwnQueryIsRecognised | src/sender.rs:156-164 | a node's query is a query to every node that looks for the same service and an empty response to all others |
| Reading.SingleQuestion | src/receiver.rs:47-71 | a single question is a query exactly if it is of class IN and type PTR and for the service |
| Reading.ForeignRecordsAreIgnored | src/receiver.rs:76-86 | packets that differ only in records of other services, classes, types or domains say the same about all peers, addresses and attributes |
| Reading.ForeignRecordInserted | src/receiver.rs:76-150 | such a record can be inserted or removed anywhere |
| Reading.ForeignResponse | src/receiver.rs:83-86 | a response made for another service is an empty response |
| Reading.AttributesMean | src/receiver.rs:108-125 | a peer has exactly the attributes whose keys occur in non-empty UTF-8 strings of its TXT records, each with the value of the first occurrence in the packet |
| Text.ValidUtf8Means | src/receiver.rs:110-112 | the strings accepted are exactly the UTF-8 forms of sequences of scalar values (section 3 of RFC 3629) |
| Dns.SameNameMeans | src/receiver.rs:62 | names are the same exactly if their labels are equal up to the case of ASCII letters |
| Codec.OrderAndDuplicatesIrrelevant | src/receiver.rs:73-178 | reordering or repeating records changes neither peers nor addresses |
| Codec.FirstOccurrenceWins | src/receiver.rs:116-123 | the attributes are those keys that occur, each with the value of its first occurrence (section 6.4 of RFC 6763) |
| Codec.DecodeAttribute | src/receiver.rs:116-119 | splitting at the first '=' recovers key and value of an encoded attribute whose key has no '=' |
| Codec.TxtRoundTrip | src/receiver.rs:108-125 | encoding and decoding validated attributes is the identity if and only if no key contains '=' |
| Codec.WrittenStringsFit | src/sender.rs:207-221 | every encoded string of validated attributes is valid UTF-8 of 1 to 255 octets |
| Codec.TargetInjective | src/sender.rs:181-182 | "PEER-PORT" determines PORT and, up to case, PEER, although PEER may contain dashes and digits |
| Codec.CombinedAnnounces | src/sender.rs:180-206 | concatenated responses announce exactly what their authors announce if no two identifiers differ in case only |
| Codec.CombinedDecodes | src/receiver.rs:73-178 | concatenated responses of distinct peers decode to exactly those with an address, each with its own addresses and attributes |
| Codec.PacketDecodes | src/sender.rs:165-231 | a single response decodes to its author alone, or to nothing if it has no address |
| Codec.NoCrossTalk | src/sender.rs:180-187 | concatenated responses of peers whose identifiers are distinct without regard to case decode to the union of their separate decodings |
| Codec.RoundTrip | src/sender.rs:165-231 | a response is read back as exactly the announcing peer if and only if no attribute key contains '='; without addresses as nothing |
| Codec.EqualsInKeyIsLost | src/receiver.rs:116-119 | the valid attribute with key "=" and no value is read back as the empty key with the empty value |
| Announcement.AfterIsWellFormed | src/sender.rs:233-292 | after validated commands the addresses are strictly sorted and the attributes valid |
| Announcement.HistoryOfAddress | src/sender.rs:243-266 | an address is announced exactly if some command added it and no later one removed it |
| Announcement.HistoryOfAttribute | src/sender.rs:267-282 | an attribute has a value exactly if some command set it and no later one overrode or removed it |
| Announcement.History | src/sender.rs:233-292 | the entry after any commands is exactly what the history says about presence, addresses and attributes |
| Discovery.Discoverer.WithAddrs | src/lib.rs:266-275 | registering addresses has the effect of adding them and keeps the vector strictly sorted |
| Discovery.Discoverer.WithTxtAttributes | src/lib.rs:296-309 | either all attributes are valid, each key has the value of its last occurrence and addresses and other keys are as before, or the error of the first invalid one is returned |
| Discovery.SetAllIsHistory | src/lib.rs:300-308 | setting attributes in the builder has the effect of the commands that set them one by one |
| Discovery.Retain | src/sender.rs:243-254 | filtering a strictly sorted vector yields the strictly sorted vector of the kept elements |
| Discovery.Discoverer.PushAll | src/sender.rs:260-264 | adding addresses one at a time with sorting and deduplication yields the sorted union |
| Discovery.Discoverer.Execute | src/sender.rs:238-291 | every command changes the entry as the set-level meaning says |
| Discovery.Discoverer.UpdateResponse | src/sender.rs:233-292 | the entry after the command and the new cached response, for every command |
| Discovery.CacheAgreesIff | src/sender.rs:283-290 | after a command the cached response agrees with the entry if and only if the command is not about interfaces or nothing is announced |
| Discovery.SetTxtAttribute | src/lib.rs:456-464 | a command is sent exactly if the key is not empty and the pair has at most 254 octets, and it is then valid; otherwise the error says which |
| Discovery.Guardian.Handle | src/guardian.rs:98-131 | everything but interface commands is forwarded; interface receivers follow the commands for IPv4 interfaces |
| Discovery.Guardian.Run | src/guardian.rs:81-133 | what reaches the sender is the inbox without interface commands, in order |
| Discovery.RoutingLosesNothing | src/guardian.rs:98-131 | replaying the routed commands leads to the same entry as replaying all of them |
| Updater.Actor.OnPeers | src/updater.rs:37-46 | peers are reported, recorded and, if new, announced to subscribers, one after the other |
| Updater.Actor.OnGc | src/updater.rs:47-79 | exactly the peers that are recent enough for the size of the map before the collection stay, the others are reported as expired and removed one after the other, then the size is announced; an empty map is left alone |
| Updater.Actor.Receive | src/updater.rs:35-84 | the reaction to every message |
| Updater.PeersAreMerged | src/updater.rs:38-40 | after new peers the map is the old one overridden by them |
| Updater.ExactlyTheRecentStay | src/updater.rs:53-63 | of n peers a collection keeps exactly those last seen less than 3 tau ago or, if n exceeds cutoff, less than 3 tau * n / cutoff ago, unchanged |
| Updater.NewPeersAreReported | src/updater.rs:37-46 | new peers are reported one by one in the order of their identifiers, and for each unknown one the subscribers get the size that the map then has |
| Updater.CollectionIsReported | src/updater.rs:48-79 | every peer that is removed is reported exactly once, without addresses and attributes and with the time it was last seen; then the subscribers get the size; an empty map is left alone |
| Updater.MirrorKeptIff | src/updater.rs:37-46 | a message keeps the mirror if and only if every peer in it has an address |
| Expiry.YoungIsWithinGrace | src/updater.rs:53-63 | a peer seen less than 3 tau ago is within every grace period |
| Expiry.GraceIsMonotone | src/updater.rs:53-58 | the grace period does not shrink when the map grows |
| Expiry.FreshPeersStay | src/updater.rs:59-75 | a peer whose last response is less than 3 tau old at every collection is never expired |
| Expiry.RegularPeersStay | src/updater.rs:53-75 | in every run, a peer heard at least once in every 3 n / min(cutoff, n) cycles of tau is never expired while the map has at least n entries |
| Expiry.OneTokenInFlight | src/updater.rs:15-22 | in every run exactly one collection is scheduled or requested, even if requests fail to be delivered and are retried |
| Expiry.SilentPeersGo | src/updater.rs:30-75 | in every prompt run with at most M peers, a peer silent since s is gone by s + grace(M) + the collection interval |
| Expiry.SelfJustifiedStays | src/updater.rs:52-75 | repeated collection never removes a member of a set of peers whose size justifies them all |
| Expiry.CollectionReachesGreatest | src/updater.rs:52-75 | repeated collection reaches the greatest such set within as many rounds as there are peers and stays there |
| Expiry.CollectionsAreRounds | src/updater.rs:52-75 | these rounds are what the updater's collections do |
| Expiry.OneRoundIsEnoughIff | src/updater.rs:52-75 | all rounds after the first change nothing if and only if no age lies between the grace period of the peers that the first one keeps and that of the whole map |
| Expiry.OneCollectionIsEnoughIff | src/updater.rs:52-75 | a second collection at the same moment removes nobody if and only if no age lies in that gap, hence always if the map had at most cutoff peers |
| Expiry.OneCollectionIsNotEnough | src/updater.rs:52-75 | two peers of which a first collection removes one and a second collection the other |
| SizeAgreement.HandleAnnounces | src/updater.rs:35-84 | the last size announced by a message is the size of the map; without an announcement the size is unchanged |
| SizeAgreement.SizesAgree | src/updater.rs:35-83 | in every run with ordered mailboxes, whenever no size update is in flight the sender's swarm size is the size of the updater's map, or 1 if no peer was ever recorded |
| EndToEnd.EntryFollowsCommands | src/sender.rs:87-143 | at any time a sender's entry is what all its commands so far make of it |
| EndToEnd.DecodedPeersAreAddressed | src/receiver.rs:165-178 | no packet makes the updater record a peer without addresses |
| EndToEnd.CallbacksMirrorPeers | src/updater.rs:37-75 | whatever packets the peers come from: at any time replaying the callbacks yields the updater's map, and expiry is reported only for a peer known at that moment |
| EndToEnd.WrittenStringsAlwaysFit | src/sender.rs:207-221 | after any validated commands every TXT string has 1 to 255 octets |
| EndToEnd.NextResponseIsSent | src/sender.rs:131-137 | at its timeout a node sends the response of its current entry the way the query came, and nothing without an entry |
| EndToEnd.PeersAreForwarded | src/sender.rs:76-78 | a response is handed to the updater in either phase |
| EndToEnd.EndToEndAgreement | src/sender.rs:233-292 | after any commands that leave node A with an address, A's next response makes any updater record for A exactly A's addresses, and exactly A's attributes if and only if no key contains '='; other records are untouched |

## Left out

- Sockets, interface management, `send_msg` and IPv4/IPv6 selection for sending: calls of the operating system; a broadcast medium takes their place.
- Actor spawning, supervision, interface receiver tasks, task abort on drop and the end of all senders: runtime plumbing; mailboxes and the routing decision are kept.
- Wire encoding, parsing and escaping of names and messages (hickory): a packet is its lists of questions, answers and additionals; unparsable packets and the packet size limit do not occur.
- How the DNS library writes an identifier with upper-case or non-ASCII letters, or one with dots, as labels: an identifier of the model is the one label that is written.
- The time stamps of the peers of one packet: `handle_msg` reads the clock once per peer, the model once per packet.
- The unused time stamp of the local entry, TTL, priority and weight of records and the header flags of packets: nothing reads them.
- Probability statements (mean timeouts, share of duplicates): the random draw is any value below one million.
- `f32` rounding of cutoff and grace period: exact arithmetic.
- Overflow of `u32` and `Duration`: numbers are unbounded.
- Rejection of TXT strings that start with '=' (section 6.4 of RFC 6763): the decoder does not implement it.
- Logging, examples, serde derives and error display.
- Expiry.SilentPeersGo: speaks of exact rationals, where the code rounds the grace period to `f32` seconds.
- Bandwidth.AtomicBandwidth: assumes that every broadcast is processed everywhere at once; losses and delays of responses are covered by Bandwidth.Bandwidth, those of queries are not modelled.
- EmptyEntries.EmptyAnnouncersAreNotLimited: n is bounded by 10^57, the number of decimal identifiers that fit a label.
