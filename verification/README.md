# awg-proxy-go: a verified model

awg-proxy-go obfuscates WireGuard traffic the AmneziaWG way and keeps the NAT rules that this needs
on a RouterOS router. This project models the parts of it that carry state, protocol or arithmetic,
and proves what they keep. `dafny verify dfyconfig.toml` checks everything.

| file | what it models |
|---|---|
| Bits, Decimal, Text, Wrappers, Sequences | bytes, bit operators on integers, decimal text, JavaScript string operations, optional values, concatenation |
| Codec, Sentences, Dialer | the binary RouterOS API: length code, words, sentences, key/value words, the connection with drop-and-retry |
| NatRules, RuleLemmas, Reconciler | NAT rules and tables, the fallible API of one table, the divert and masquerade reconcilers |
| ApiCalls | what a call of the connection is to such a table |
| Isolation, Convergence | several reconcilers on one router, interleaved at single API calls; a task whose own calls succeed among them |
| DivertHook | the poller hooks that keep the right rule in the IPv4 and the IPv6 table |
| Traffic | what the rules do to packets, and that the hooks divert the WireGuard traffic and nothing else |
| Supervisor, Restarts | web saves, the reload channel and the supervisor; which rules of earlier configurations its restarts leave behind |
| Packet, Transform, Identify | message fields, obfuscation and its inverse, finding the client of an initiation |
| SessionModel, SessionTable, Proxies | the session table as values and as heap objects, the packet loops of both modes |
| Addresses, PeerAddress, PeerConfig | subnets, address suggestion and conflicts, the client configuration and its parser, endpoints |
| Limiter | the login limiter |

How things are represented:

- Code that changes state is a class or a method proved against a function of the old state; the laws
  are lemmas about those functions. `Reconcilers.Reconciler` holds what `NatReconciler` and
  `MasqueradeReconciler` have in common (`list`, the duplicate loop, add, set, remove); the chain test
  that only the former makes is its flag `rebuild`. `Request` and `Receive` hold the send and receive
  loop that `login` and `call` have in common.
- A remote rule table is a sequence of rules with fresh ids. Each call on it consumes one fault of an
  arbitrary script: the request is lost, it is executed and the reply is lost, it succeeds, or the
  connection's retry executes it twice. These are the calls that the connection can make, no more and no
  fewer (`ApiCalls.CallIsFault`, `ApiCalls.EveryFaultHappens`). A script without faults in the calls that an
  operation makes is a run of it without failures.
- A router on the API executes whole sentences only and answers with `!re*` then `!done`, with `!trap`
  then `!done`, or with `!fatal`. Any part of a request may arrive and any part of a reply may come back.
  What happens is recorded in a trace: whether a connection comes about and, for each request, whether its
  writes succeed, whether it arrives whole, the answer, and how many bytes of that come back.
- A rule takes the packets of its chain that agree with all its matchers, and a dst-nat rule sends them to a
  new address and port; that is how RouterOS applies rules, reduced to the fields that the program sets.
- Hash, MAC, Diffie-Hellman and AEAD are arbitrary function values; where a proof needs it, their laws are
  hypotheses: commutativity (section 6.1 of RFC 7748) and open-after-seal (section 2.8 of RFC 8439).
  Random prefixes and the order of map iteration are arbitrary values; times are arbitrary integers, of the
  login limiter in nanoseconds.
- An address carries its printed form, which is not empty for a valid one, and an IPv6 address its zone.
- Preconditions: `Obfuscate` needs four bytes. Nobody checks that, so the packet loops state when they
  panic: on a shorter datagram from the router if there is an upstream, and on a shorter reply from the
  WireGuard server if some session is routed under index 0. S1 and S2 are not negative. The index fields of
  a short packet are read behind its end but inside the receive buffer, which is larger than any UDP payload.

Where the code does not do what its text or a first reading promises, the model follows the code and
states exactly what holds:

- `kvWords` is documented as sorted (client.go:157-158) but follows the iteration order of the map. Fields
  `a` and `b` may come out as `b`, `a` (`Sentences.KvWordsUnsorted`). The words are sure to be sorted if and
  only if they are all the same word (`Sentences.AlwaysSortedIff`), which for keys without `=` means at most
  one field (`Sentences.SortedOnlyIfSingle`). The reader gets the map back, in every order, if and only if no
  key contains `=` (`Sentences.KvRoundTrip`), and the same map in every order if and only if no two words
  give one key different values (`Sentences.OrderIndependentIff`).
- Not every index in the session table belongs to a registered session. A client that starts a new
  handshake leaves its old index behind when it expires (`SessionModel.ReinitLeaksIndex`); over all
  histories, exactly the indices of `SessionModel.LeaksIff` are left behind, and none by clients that never
  change their index (`SteadyClientsDoNotLeak`). A client known by traffic alone takes index 0 from its
  owner when it expires (`TrafficOnlyStealsIndexZero`; exact condition in `UnroutedIff`).
- The client hook leaves a stale rule behind if the upstream changes its address family, the removal
  from the other table fails, and the family changes back before a retry
  (`DivertHooks.FlipBackLeavesStaleRule`; exact condition in `DivertHooks.TickIsGoodIffClean`).
- A successful `Ensure` need not leave exactly one own rule: errors when removing duplicates are ignored, and
  the connection may execute an add twice (`Reconcilers.LostRemovalGoesUnnoticed`,
  `Reconcilers.DoubledAddGoesUnnoticed`). It does if and only if no removal of a duplicate was lost on the way
  and no add was executed twice (`Reconcilers.SuccessSettlesIff`).
- The supervisor promises to remove the rules of an interface that is not configured any more
  (cmd/awgproxy/main.go:66-68). It compares interfaces only, takes a configuration without password for one
  that never owned rules (cmd/awgproxy/main.go:139-141), never retries, and forgets the previous configuration
  when the program is restarted (cmd/awgproxy/main.go:70). So rules are orphaned by another router address, by
  a blank password, by a failed removal, and by a change of the interface while the program is down
  (`Restarts.AddressChangeOrphans`, `Restarts.InterimConfigOrphans`, `Restarts.LeavingOrphansIff`,
  `Restarts.ProgramRestartOrphans`), and in no other way (`Restarts.NoOrphansIff`), as long as one address is
  one router.
- Five failures in a row need not lock a login, however close together they come
  (`Limiters.FiveInARowWithoutLock`; README.md:144 of the program says they do). A failure locks exactly if it
  falls into the current counting window and that window has counted four failures before
  (`Limiters.LocksIff`). Up to nine failures are possible in five minutes.
- Not every obfuscated packet is recognised as what it is: a handshake message whose random prefix begins with
  the transport header is taken for transport data (`Transforms.HandshakeTakenForTransport`). The failures are
  exactly the collisions of `Transforms.Collision` (`Transforms.RoundTripIffNoCollision`).

## Model

| member | source | states |
|---|---|---|
| Codec.LengthRoundTrip | internal/router/binapi/codec.go:22-77 | A length decodes to itself, and the bytes behind it stay, if and only if it is below 2^32 |
| Codec.ShortestForm | internal/router/binapi/codec.go:22-77 | Whatever bytes the decoder accepts for a length, the encoder needs no more of them |
| Codec.DecodeLengthExtends | internal/router/binapi/codec.go:42-77 | The length code is prefix-free: what was decoded stays decoded when more bytes follow |
| Codec.SentenceRoundTrip | internal/router/binapi/conn.go:79-120 | A sentence decodes to itself with any bytes behind it if and only if its words are non-empty and shorter than 2^32 |
| Codec.StreamRoundTrip | internal/router/binapi/conn.go:79-120 | A stream of sentences decodes to the same sentences and leaves the following bytes untouched |
| Codec.UniquelyDecodable | internal/router/binapi/codec.go:22-102 | Of two streams with the same bytes, with any numbers of sentences, the shorter list begins the longer one and what follows is the rest of it |
| Codec.StreamsAreDistinct | internal/router/binapi/codec.go:22-102 | No two lists of sentences have the same bytes |
| Codec.CutSentence | internal/router/binapi/conn.go:89-120 | A cut sentence is an error, at every cut, never other data |
| Codec.MasksAreRanges | internal/router/binapi/codec.go:42-77 | The mask tests on the first byte are range tests, and the masks cut off exactly the tag bits |
| Codec.Tagged3 | internal/router/binapi/codec.go:22-39 | The or-mask and the shifts of the three-byte form give tag and base-256 digits |
| Codec.Join4 | internal/router/binapi/codec.go:42-77 | Shifting and or-ing the bytes of a length is their big-endian value |
| Codec.WriteLength | internal/router/binapi/codec.go:22-39 | The bytes written with masks and shifts are the encoding; a failed write leaves some prefix of it on the wire |
| Codec.ReadLength | internal/router/binapi/codec.go:42-77 | Reading with masks and shifts consumes exactly the encoding and gives its value, or the decoder's error |
| Codec.WriteWord | internal/router/binapi/codec.go:80-86 | A written word is its encoding; a failed write leaves some prefix of it |
| Codec.ReadWord | internal/router/binapi/codec.go:89-102 | Reading a word consumes exactly its encoding or gives the decoder's error |
| Sentences.KvRoundTrip | internal/router/binapi/client.go:157-168 | In every order of the words, the map comes back if and only if no key has an equals sign; values may have one or be empty |
| Sentences.KeysHaveNoEquals | internal/router/binapi/conn.go:98-119 | No words whatsoever parse to a key with an equals sign |
| Sentences.AlwaysSortedIff | internal/router/binapi/client.go:157-168 | The documented order holds, whatever the iteration order, if and only if all words of the map are the same |
| Sentences.SortedOnlyIfSingle | internal/router/binapi/client.go:157-168 | For keys without an equals sign: if and only if there is at most one field |
| Sentences.KvWordsUnsorted | internal/router/binapi/client.go:157-168 | A map of two fields and an iteration order that give unsorted words |
| Sentences.OrderIndependentIff | internal/router/binapi/client.go:157-168 | All orders are read as the same map if and only if no two words give one key different values |
| Sentences.CommandArrives | internal/router/binapi/client.go:121-138 | The router reads add and set commands with exactly their fields, in any order, and nothing of what follows |
| Sentences.KvWords | internal/router/binapi/client.go:159-168 | The loop over a map yields each of its pairs once, in some order |
| Sentences.Send | internal/router/binapi/conn.go:79-86 | Success puts the whole sentence on the wire, failure some prefix of it |
| Sentences.Recv | internal/router/binapi/conn.go:89-120 | The receive loop returns exactly the meaning of the decoded sentence and leaves the following bytes unread |
| Sentences.IndexByte | internal/router/binapi/conn.go:151-158 | The scan finds the first occurrence, -1 if there is none |
| Dialers.CollectExtends | internal/router/binapi/client.go:92-112 | A finished reply is the same whatever bytes follow it, and those stay unread |
| Dialers.CollectAnswer | internal/router/binapi/client.go:92-112 | A complete answer yields all its rows in order and leaves nothing unread; a trap or fatal answer is an error |
| Dialers.CollectCut | internal/router/binapi/client.go:92-112 | An answer cut anywhere yields rows if and only if it is complete and nothing of it is missing |
| Dialers.ArrivedWhole | internal/router/binapi/conn.go:79-86 | Any part of a request that the router can execute is that whole request |
| Dialers.Receive | internal/router/binapi/client.go:92-112 | The receive loop is that function of the unread bytes |
| Dialers.Request | internal/router/binapi/conn.go:132-148 | A request is executed at most once; rows come back if and only if nothing went wrong on the way, and are the complete answer to this very request |
| Dialers.Dial | internal/router/binapi/conn.go:42-63 | A connection is returned if and only if it came about and the login on it went well, then with nothing unread; otherwise the one made is closed again; login executes no command |
| Dialers.Verify | internal/router/binapi/client.go:146-155 | Succeeds if and only if connection and login go well, and leaves no connection open either way |
| Dialers.Dialer.Drop | internal/router/binapi/client.go:42-55 | The connection is closed and forgotten |
| Dialers.Dialer.Ensure | internal/router/binapi/client.go:29-39 | A live connection is reused, otherwise a new one is dialled; dialling executes no command and leaves no other connection open |
| Dialers.Dialer.Attempt | internal/router/binapi/client.go:76-113 | One attempt executes its command at most once, and returns rows, the answer to it, if and only if nothing went wrong from dialling to the reply |
| Dialers.Dialer.Call | internal/router/binapi/client.go:60-74 | Rows come back if and only if all goes well in a first attempt or, that having failed, in a second one on a new connection; so a failed call has made both. The router executed this command at most twice and nothing else, the rows answer the last execution, no reply is left unread between calls, and of all connections ever made none but the current one is open |
| Dialers.TwoAttempts | internal/router/binapi/client.go:60-74 | A first attempt and its repetition together are such a call |
| ApiCalls.CallIsFault | internal/router/binapi/client.go:60-74 | Every call is one of the four faults of a rule table, by its number of executions and its success, and each execution is of this command with exactly these fields |
| ApiCalls.EveryFaultHappens | internal/router/binapi/client.go:60-74 | Every fault is the record of some possible call, for every command |
| ApiCalls.FaultRunsCommand | internal/router/binapi/client.go:115-144 | What a table goes through under a fault is its command, executed that many times |
| NatRules.Validate | internal/router/nat.go:125-151 | A rule is accepted exactly if its chain, ports, addresses and address families are in order |
| NatRules.MarkersAreDistinct | internal/router/nat.go:14-20 | Markers coincide only for the same kind of rule and the same interface |
| NatRules.FieldsDetermineRule | internal/router/nat.go:157-183 | Valid rules have the same fields if and only if they divert the same traffic to the same place, IPv6 zones aside |
| NatRules.DiffConverges | internal/router/nat.go:245-266 | Setting the difference makes a rule agree on every wanted field and keeps the others; it is empty only if they agreed |
| Reconcilers.DiffFields | internal/router/nat.go:245-266 | The loop over the wanted fields collects exactly those whose value differs |
| Reconcilers.Select | internal/router/nat.go:229-242 | Listing filters exactly the rules with the own marker, in table order |
| Reconcilers.ConvergedSettles | internal/router/nat.go:58-106 | From any table, with any own rules, exactly one own rule remains, agreeing with every wanted field; all other rules are as before |
| Reconcilers.ConvergedIsStable | internal/router/nat.go:58-106 | A second Ensure changes nothing |
| Reconcilers.SettledIsStable | internal/router/nat.go:96-100 | A table that already has the one wanted rule stays as it is |
| Reconcilers.Reconciler.List | internal/router/nat.go:229-242 | A successful listing is the own rules of the table |
| Reconcilers.Reconciler.RemoveDuplicates | internal/router/nat.go:70-73 | Each duplicate is gone unless the request that removes it was lost; no other rule is touched |
| Reconcilers.DuplicatesLeft | internal/router/nat.go:70-73 | The first rule stays, with as many duplicates as removals were lost |
| Reconcilers.Reconciler.Rebuild | internal/router/nat.go:83-95 | The outcome of removing and adding for every script of faults |
| Reconcilers.RebuildIsSafe | internal/router/nat.go:83-95 | Whatever fails, only old rules and the wanted one are there; on success one agrees, and a doubled add makes one more |
| Reconcilers.Reconciler.Adjust | internal/router/nat.go:96-105 | The outcome of setting the differing fields for every script of faults; if nothing differs no changing call is made |
| Reconcilers.AdjustIsSafe | internal/router/nat.go:96-105 | Whatever fails, only the first own rule changes, to its fields overridden by the wanted ones; on success it agrees |
| Reconcilers.Reconciler.Converge | internal/router/nat.go:58-106 | The table and the reported success for every script of faults; a settled table sees no changing call |
| Reconcilers.OutcomeIsSafe | internal/router/nat.go:58-106 | Whatever fails, foreign rules stay and own rules are explained; on success an own rule agrees, and the number of own rules is known exactly |
| Reconcilers.SuccessSettlesIff | internal/router/nat.go:70-81 | A successful Ensure leaves the wanted rule alone if and only if no removal of a duplicate was lost and no add executed twice |
| Reconcilers.OutcomeIsConverged | internal/router/nat.go:58-106 | If the calls that it makes are healthy, Ensure succeeds and ends where the convergence rows say, whatever the later faults |
| Reconcilers.SettledOutcome | internal/router/nat.go:96-100 | A settled table stays as it is, whatever fails |
| Reconcilers.LostRemovalGoesUnnoticed | internal/router/nat.go:70-73 | With one lost removal Ensure reports success and a duplicate stays, for every table with two own rules |
| Reconcilers.DoubledAddGoesUnnoticed | internal/router/nat.go:75-80 | With a doubled add Ensure reports success and leaves two own rules, for every table without one |
| Reconcilers.Reconciler.Remove | internal/router/nat.go:109-123 | For every script of faults, how many of the first own rules go and whether success is reported, then with none left; no other rule goes |
| Reconcilers.SetLeavesNothing | internal/router/nat.go:83-95 | Setting the fields of one rule on another leaves exactly the former if and only if the family stays and the rule does not move from output to dstnat |
| Reconcilers.NoLeakage | internal/router/nat.go:153-183 | One disturbed Ensure keeps every own rule at exactly the fields of some valid rule |
| Reconcilers.RunsStayClean | internal/router/nat.go:83-123 | So does every run of Ensure and Remove, with any valid wants and any failures |
| Reconcilers.NatReconciler.Ensure | internal/router/nat.go:58-106 | Rejects invalid rules without a call; for valid ones all of the above under any faults; no field leaks |
| Reconcilers.MasqueradeReconciler.Ensure | internal/router/nat.go:284-322 | The same for the masquerade rule of a network |
| Isolation.StepChange | internal/router/nat.go:58-123 | Every single API call, failed, lost or doubled, is one change that its own marker permits |
| Isolation.ChangeEffect | internal/router/nat.go:58-123 | A permitted change acts on the own rules as on a table of its own and leaves the others alone |
| Isolation.KnownDiff | internal/router/nat.go:245-266 | The difference to an own rule never contains the marker |
| Isolation.StepKeepsInv | internal/router/nat.go:58-123 | A step of one reconciler keeps what every reconciler knows about the rules it listed |
| Isolation.RunsAreIsolated | internal/router/nat.go:58-123 | In every interleaving each marker's rules end as in a run of its reconciler alone, and unmarked rules never change |
| Convergence.HealthyStepIsStep | internal/router/nat.go:58-123 | The steps whose calls succeed are steps of that system |
| Convergence.TaskProgresses | internal/router/nat.go:58-123 | A task whose own calls succeed stands, at every point of every interleaved run, exactly as far as its program point says |
| Convergence.EnsureConvergesAmongOthers | internal/router/nat.go:58-106 | Such an Ensure ends with exactly its rule, whatever happens to the calls of the other reconcilers |
| Convergence.RemoveClearsAmongOthers | internal/router/nat.go:109-123 | Such a Remove ends with no own rule |
| DivertHooks.DirtyIsStale | cmd/awgproxy/main.go:235-284 | After any run with any failing calls, the table believed clean holds an own rule if and only if a failed removal was flipped back over |
| DivertHooks.TickIsGoodIffClean | cmd/awgproxy/main.go:235-284 | A tick without failures, after any run, leaves exactly the right rules if and only if the history is not of that kind |
| DivertHooks.TickFromAnyState | cmd/awgproxy/main.go:235-284 | From any state at all, such a tick does so if and only if the table it believes clean is clean |
| DivertHooks.DirtyOnlyWhileFailing | cmd/awgproxy/main.go:254-261 | If failed removals are retried before the family changes back, only a tick whose own removal failed is dirty |
| DivertHooks.RetriedRunsAreGood | cmd/awgproxy/main.go:235-284 | From any tables, every successful tick leaves one rule for the upstream in its family's table and none elsewhere, or none at all without upstream or address |
| DivertHooks.FlipBackLeavesStaleRule | cmd/awgproxy/main.go:254-261 | Change, failed removal, change back: the stale rule stays, for all settings and upstreams |
| DivertHooks.Reconcilers46.Remove | internal/router/nat.go:109-123 | Removal seen on the fields of the own rules of one table, for every script of faults; foreign rules unchanged |
| DivertHooks.Reconcilers46.Ensure | internal/router/nat.go:58-106 | Ensure seen on the fields of the own rules of one table, for every script of faults; foreign rules unchanged |
| DivertHooks.ClientDivertHook.OnTick | cmd/awgproxy/main.go:235-284 | The hook on both tables, with any failures, is the step that the run properties are about; the failures that the step shows are exactly those that its own calls met, and none if those calls are healthy |
| DivertHooks.ClientDivertHook.Activate | cmd/awgproxy/main.go:262-283 | The active table ends as it should if the calls made on it are healthy, and otherwise with explained rules |
| DivertHooks.ServerTickIsGoodIffTidy | cmd/awgproxy/main.go:326-342 | From any state, a server tick without failures leaves the right rules in both tables if and only if a table taken for cleaned is empty |
| DivertHooks.CleanedIff | cmd/awgproxy/main.go:335-341 | Over all runs without IPv6 address the IPv6 table is taken for cleaned if and only if some removal succeeded, and then it is and stays empty |
| DivertHooks.ServerRunsAreGood | cmd/awgproxy/main.go:326-342 | After any run with any failures, from any tables, a tick without failures leaves the right rules |
| DivertHooks.ServerDivertHook.OnTick | cmd/awgproxy/main.go:294-343 | The server's hook on both tables, with any failures, is the step of those rows, shown exactly the failures that its own calls met; rules left by failures are explained, foreign rules unchanged |
| Traffic.OutputRule | internal/router/nat.go:157-183 | Which packets an output rule diverts and where to, whatever other fields were left on it |
| Traffic.DstnatRule | internal/router/nat.go:157-183 | Which packets a dstnat rule diverts and where to |
| Traffic.ExactlyTheTunnelIsDiverted | cmd/awgproxy/main.go:235-284 | After any run with any failures and a history that is not dirty, a client tick without failures diverts exactly the UDP packets from the WireGuard port to the upstream's address and port, to the container's address of their family and its port, and nothing without upstream or address |
| Traffic.ServerStaysClean | cmd/awgproxy/main.go:326-342 | Whatever fails, the server's rules keep exactly the fields of valid rules |
| Traffic.ExactlyThePublicPortIsDiverted | cmd/awgproxy/main.go:294-343 | After any run with any failures, a server tick without failures diverts exactly the UDP packets that come in for the public port, to the container's address of their family, if there is one, and its port |
| Traffic.ExactlyTheNetworkIsMasqueraded | internal/router/nat.go:284-322 | A table where Ensure settled masquerades exactly the wanted network |
| Supervisors.InvHolds | cmd/awgproxy/main.go:69-113 | In every interleaving of saves and supervisor, an unseen save is announced, and a stack lives only while the supervisor waits for it |
| Supervisors.LiveIffUp | cmd/awgproxy/main.go:94-112 | Over every run a stack is live, and then one, if and only if one was started and none ended since |
| Supervisors.RunningIsLive | cmd/awgproxy/main.go:94-112 | In the select, exactly one stack is live if and only if none ended since the last start |
| Supervisors.MovesTell | cmd/awgproxy/main.go:45-51 | The file holds one more version for each save, and the context is cancelled exactly after a shutdown |
| Supervisors.NoLostReload | cmd/awgproxy/main.go:45-51 | At most one stack is live, and at rest the supervisor is at the version of the last save |
| Supervisors.QuietMovesDescend | cmd/awgproxy/main.go:69-113 | Once saves stop, every move lowers a measure, on the way down as well |
| Supervisors.QuietRunsAreShort | cmd/awgproxy/main.go:69-113 | So the number of moves that remain is bounded by it |
| Supervisors.LatestConfigIsReached | cmd/awgproxy/main.go:427-434 | From any reachable state, where nothing more can move the last saved configuration is in use, with one live stack in the select if none ended by itself |
| Supervisors.ShutdownEnds | cmd/awgproxy/main.go:96-112 | After a shutdown, where nothing more can move the supervisor has returned and no stack is live |
| Restarts.Supervise | cmd/awgproxy/main.go:69-113 | A process with its variable for the previous configuration, started on what earlier processes left, leaves exactly the sites that the next rows are about |
| Restarts.LeftIff | cmd/awgproxy/main.go:135-145 | A site may hold rules if and only if its last start is the current one or was left without a completed removal |
| Restarts.NoOrphansIff | cmd/awgproxy/main.go:135-145 | No rules are orphaned if and only if every site was left, the last time, by the same process, for another interface, with a password and with a removal that succeeded |
| Restarts.OneRouterLeavesNoOrphans | cmd/awgproxy/main.go:135-145 | On one router, with passwords, without failures and with the interface kept while the program is down, no sequence of configurations orphans rules |
| Restarts.LeavingOrphans | cmd/awgproxy/main.go:135-145 | Whatever came before and comes later elsewhere, leaving a site without a completed removal orphans its rules |
| Restarts.LeavingOrphansIff | cmd/awgproxy/main.go:135-145 | One change of site, for all configurations: exactly when it orphans the first one's rules |
| Restarts.AddressChangeOrphans | cmd/awgproxy/main.go:136-138 | A new router address with the same interface orphans the rules on the old router for good: after any history and for every continuation that does not return there |
| Restarts.ProgramRestartOrphans | cmd/awgproxy/main.go:69-71 | So does another site in the configuration of a restarted program |
| Restarts.InterimConfigOrphans | cmd/awgproxy/main.go:139-141 | So does a configuration without password in between |
| Packets.Le32RoundTrip | internal/wg/message.go:31-54 | A little-endian field reads back as written |
| Packets.Le32Unique | internal/wg/message.go:31-54 | A field determines its bytes |
| Packets.SetType | internal/wg/message.go:39-41 | Writes the four type bytes in place and no others |
| Transforms.ClassifyPicksFirst | internal/awg/transform.go:47-64 | The first type, in the order transport, cookie, initiation, response, whose header stands behind its prefix; junk if none does |
| Transforms.RoundTripIffNoCollision | internal/awg/transform.go:47-107 | Deobfuscating an obfuscated message gives its type and the message with only MAC1 re-keyed if and only if there is no classifier collision |
| Transforms.HandshakeTakenForTransport | internal/awg/transform.go:47-107 | A handshake message whose random prefix begins with H4 is classified as transport data and not recovered, for all parameters with a prefix of four bytes or more |
| Transforms.OtherTypesBecomeTransport | internal/awg/transform.go:19-107 | A packet of no WireGuard type comes out as transport data, otherwise unchanged |
| Transforms.DeobfuscatedIsGenuine | internal/awg/transform.go:71-86 | A deobfuscated packet has its type and offset, keeps every byte outside type and MAC1, and a long enough handshake message carries a valid MAC1 for the recipient |
| Transforms.RestampForgets | internal/awg/mac.go:23-30 | Stamping again depends on nothing that the previous stamp wrote |
| Transforms.StampOfValid | internal/awg/mac.go:23-30 | Stamping a genuine message for its recipient changes nothing |
| Transforms.GenuineArrivesIdentical | internal/awg/transform.go:71-107 | A genuine message arrives byte-identical if and only if there is no collision, whatever key it was stamped for on the way |
| Transforms.Stamp | internal/awg/transform.go:78-84 | Recomputes MAC1 in place inside a larger buffer, all other bytes kept |
| Transforms.Deobfuscate | internal/awg/transform.go:71-86 | The in-place work on the received slice is the value-level function; bytes before and behind the message stay |
| Transforms.Obfuscate | internal/awg/transform.go:92-107 | The new buffer holds prefix and stamped message; the plain packet is not touched |
| Identification.IdentifiesTheClient | internal/awg/identify.go:59-91 | Every initiation built by a client (section 5.4.2 of the WireGuard whitepaper) is attributed to that client's key |
| Identification.ResponseParts | internal/wg/message.go:43-72 | In a response (section 5.4.3) the indices and MAC1 are found where its builder put the sender, the receiver and the MAC for the client's key |
| Identification.OtherParts | internal/wg/message.go:43-72 | So are the index and the MAC1 of an initiation (section 5.4.2) and the receiver of transport messages and cookie replies (sections 5.4.6 and 5.4.7) |
| Identification.IdentificationSurvivesTransport | internal/awg/identify.go:59-91 | The answer is the same after obfuscation and deobfuscation without collision |
| SessionModel.RoutingRefinesHistory | internal/proxy/sessions.go:35-108 | In every history a reply index routes to the latest initiation with it, unless a later gc removed an expired session whose current index it was |
| SessionModel.KeyRefinesHistory | internal/proxy/sessions.go:63-70 | The key of a session object is the last one set on that very object |
| SessionModel.ReplyKeys | internal/proxy/sessions.go:78-96 | In every history a routed response goes out for the client's key if it was ever identified, else for exactly the candidates, or one zero key if there are none; any other reply for one zero key |
| SessionModel.SeenRefinesHistory | internal/proxy/sessions.go:46-96 | In every history a session was last seen at its last initiation, traffic or reply |
| SessionModel.GcKeepsIff | internal/proxy/sessions.go:98-108 | A gc keeps a client if and only if it was seen, or replied to, within the last ttl |
| SessionModel.RefreshedClientIsKept | internal/proxy/sessions.go:78-121 | A client that was seen or replied to within ttl before each gc keeps its session |
| SessionModel.IdentifiedClientGetsReplies | internal/proxy/sessions.go:78-96 | An identified client gets its replies for its own key through traffic, key changes of others, initiations with other indices, and every gc that finds no expired session with its index |
| SessionModel.UnroutedIff | internal/proxy/sessions.go:98-108 | In every history an index is without route if and only if after each initiation with it a gc removed an expired session that had it |
| SessionModel.LeaksIff | internal/proxy/sessions.go:98-108 | In every history an index is routed to an unregistered session if and only if a gc dropped the session while it had another index and nothing took the index since |
| SessionModel.SteadyClientsDoNotLeak | internal/proxy/sessions.go:46-53 | Clients that never initiate with another index leave no such index |
| SessionModel.ReinitLeaksIndex | internal/proxy/sessions.go:46-53 | A second initiation leaves the first index routed after the session has expired |
| SessionModel.TrafficOnlyStealsIndexZero | internal/proxy/sessions.go:56-61 | The expiry of a client known by traffic only removes index 0 of a live one |
| SessionModel.AttentiveClientIsKept | internal/proxy/sessions.go:98-121 | A client active at least once per ttl before each gc is never dropped |
| SessionModel.IdleClientIsDropped | internal/proxy/sessions.go:98-121 | An idle client is gone after any gc later than ttl after its last activity |
| SessionModel.TickIn | internal/proxy/sessions.go:110-121 | The ticker fires once in every interval of length ttl |
| SessionModel.IdleClientIsGoneIn2Ttl | internal/proxy/sessions.go:110-121 | So an idle client is gone within two ttl of its last activity |
| SessionTable.Table.GetLocked | internal/proxy/sessions.go:35-43 | Finds the shared object of an address or creates and registers a new one |
| SessionTable.Table.ClientInit | internal/proxy/sessions.go:46-53 | Updates the shared object in place; the heap is the model's state after one more event |
| SessionTable.Table.ClientTraffic | internal/proxy/sessions.go:56-61 | The same for client traffic |
| SessionTable.Table.SetPub | internal/proxy/sessions.go:64-70 | The same for a found key |
| SessionTable.Table.ResponseTargets | internal/proxy/sessions.go:78-96 | The same for a reply, with the address and keys the model gives |
| SessionTable.Table.Gc | internal/proxy/sessions.go:98-108 | Deleting while iterating in any order removes exactly the expired addresses and exactly their current indices |
| Proxies.ServerProxy.FromClient | internal/proxy/server.go:68-101 | Junk leaves no trace; all else is forwarded as deobfuscated for the server's key, and from then on replies to the index of an initiation go to its sender, for its key if that can be identified |
| Proxies.ServerProxy.Note | internal/proxy/server.go:84-96 | The table calls made for each message type, and what the table knows after them |
| Proxies.ServerProxy.FromServer | internal/proxy/server.go:104-134 | A reply goes to the owner of its receiver index, exactly one copy per key up to the first failed send; if none fails, some copy of a response carries the MAC1 for the client's key, be it identified or only among the candidates; a routed reply below four bytes panics |
| Proxies.ServerProxy.Copies | internal/proxy/server.go:126-132 | Exactly the copies for the keys in order, each an obfuscation for its key, up to and including the first that cannot be sent |
| Proxies.EveryKeyHasACopy | internal/proxy/server.go:123-132 | If no send fails, every key has a copy whose message carries H2 behind the prefix and a MAC1 valid for that key |
| Proxies.ReplyIndex | internal/wg/message.go:50-58 | The index read from the buffer is the receiver index of a complete reply |
| Proxies.ClientProxy.FromRouter | internal/proxy/client.go:80-113 | Remembers the router's address; sends an obfuscation for the upstream's key to the upstream; nothing without one; panics exactly on a datagram below four bytes with one |
| Proxies.ClientProxy.FromUpstream | internal/proxy/client.go:116-144 | Deobfuscates for the router's own key and sends to the last router address, nothing without one |
| Proxies.InitiationIsTransparent | internal/proxy/server.go:68-101 | A genuine initiation that passes both proxies without collision arrives byte-identical and names its client |
| Proxies.EveryBurstCopyArrivesGenuine | internal/proxy/server.go:123-132 | Each copy of a response, whichever key it was made for, deobfuscates at the client to the genuine response if and only if there is no collision |
| Addresses.QuadOf | internal/api/web/peers.js:56-78 | Four digit groups with dots match and have the positional value |
| Addresses.QuadOnlyOf | internal/api/web/peers.js:56-78 | Nothing else matches |
| Addresses.DottedThenQuad | internal/api/web/peers.js:72-74 | Printing with shifts and masks and reading back is the identity on 32-bit addresses |
| Addresses.CidrOf | internal/api/web/peers.js:57-61 | A quad with a slash and digits matches, with the values of both |
| Addresses.CidrOnlyOf | internal/api/web/peers.js:57-61 | Nothing else matches |
| Addresses.MaskIsHighOnes | internal/api/web/peers.js:62-62 | The shifted mask is the high `prefix` ones |
| Addresses.SubnetIsAlignedBlock | internal/api/web/peers.js:58-64 | Mask arithmetic yields the aligned block of 2^(32 - prefix) addresses around the interface's low 32 bits |
| PeerAddresses.TokensOfLists | internal/api/web/peers.js:269-278 | The tokens of two lists joined by a comma are those of both, in order |
| PeerAddresses.BlanksAndCaseIgnored | internal/api/web/peers.js:269-278 | Blanks around an address and upper case do not change its token |
| PeerAddresses.HostMaskIgnored | internal/api/web/peers.js:269-278 | An address alone and with the mask of a single host, /32 or for IPv6 /128, have the same token |
| PeerAddresses.AddressConflict | internal/api/web/peers.js:282-293 | Nothing is found exactly if no other peer shares a token; otherwise the first such peer and a token of both |
| PeerAddresses.SuggestPeerAddress | internal/api/web/peers.js:56-78 | The loops compute the suggestion that the next rows are about |
| PeerAddresses.SuggestedHostIsLeastFree | internal/api/web/peers.js:71-77 | The host is the least one that neither interface nor peer has; none only if there is none |
| PeerAddresses.SuggestionIsLeastFree | internal/api/web/peers.js:71-77 | The text is that of an address if and only if that address is the least free host |
| PeerAddresses.SuggestsIff | internal/api/web/peers.js:56-78 | For an address with a prefix length, something is suggested if and only if that is 8 to 30 and a host of the block is unused |
| PeerAddresses.OnlyNetworksSuggest | internal/api/web/peers.js:56-61 | For any other text nothing is suggested |
| PeerAddresses.SuggestionNeverConflicts | internal/api/web/peers.js:282-293 | A suggestion shares no token with any peer, whoever is excluded |
| PeerAddresses.EveryFreeHostIsGivenOut | internal/api/web/peers.js:56-78 | From any peers exactly as many suggestions in a row succeed as hosts are free |
| PeerAddresses.SuggestionsDiffer | internal/api/web/peers.js:56-78 | No host is suggested twice along the way |
| PeerAddresses.HostsWithoutPeers | internal/api/web/peers.js:62-71 | Without peers 2^(32 - prefix) - 3 hosts are free if the interface owns a host address, else one more |
| PeerAddresses.AllHostsFromNoPeers | internal/api/web/peers.js:56-78 | So exactly that many suggestions in a row succeed from no peers |
| PeerConfigs.RenderClientConfig | internal/api/peerconfig.go:67-94 | Line by line writing gives the two sections with exactly the fields of the settings |
| PeerConfigs.ParseAwgConfig | internal/api/web/peers.js:464-482 | The loop with its section variable is the fold over the lines |
| PeerConfigs.ConfigRoundTrip | internal/api/peerconfig.go:67-94 | Parsing the rendered text gives exactly its keys and values in both sections if and only if every given value is trimmed and on one line |
| PeerConfigs.ParsedIsClean | internal/api/web/peers.js:464-482 | No text whatsoever parses to a value that is untrimmed or spans lines |
| PeerConfigs.FieldMapHas | internal/api/peerconfig.go:67-94 | No field of a section overwrites another |
| PeerConfigs.ConfigSaysSettings | internal/api/peerconfig.go:67-94 | The importing client reads exactly the settings, each under its own key, the numbers by value, optional ones exactly if set and no others, if and only if every given value is trimmed and on one line |
| PeerConfigs.NoiseIsSkipped | internal/api/web/peers.js:464-482 | Blank lines and comments change nothing |
| PeerConfigs.SectionIsRead | internal/api/web/peers.js:464-482 | A bracketed name in any case, with white space anywhere around it, opens its section |
| PeerConfigs.KeyIsRead | internal/api/web/peers.js:464-482 | A key and value with white space around them go into the open section; a value may hold equals signs |
| PeerConfigs.BracketedMatches | internal/api/web/peers.js:487-488 | The bracket form matches in one way only: host without line breaks, port of digits |
| PeerConfigs.BracketedEndpoint | internal/api/web/peers.js:485-493 | A bracketed host and its port are recovered |
| PeerConfigs.PlainEndpoint | internal/api/web/peers.js:485-493 | Host and port without brackets are recovered if and only if the host is not itself in brackets before digits |
| PeerConfigs.EndpointArrives | internal/api/web/peers.js:485-493 | The endpoint set on the server splits into its host and port at the importing client |
| Limiters.CounterTracks | internal/api/auth.go:97-112 | After any permitted failures the counter covers the last ones exactly, and earlier recent ones are at most four or locked out |
| Limiters.AtMostNineFailures | internal/api/auth.go:83-112 | Along every run of permitted attempts any half-open five minutes hold at most nine failures |
| Limiters.NineFailuresHappen | internal/api/auth.go:83-112 | Nine are possible |
| Limiters.WindowsExist | internal/api/auth.go:97-112 | The times of any failures alone divide them into counting windows |
| Limiters.WindowsTell | internal/api/auth.go:97-112 | The counter is what the last of these windows says |
| Limiters.LocksIff | internal/api/auth.go:97-112 | After any permitted history a failure locks, for exactly five minutes, if and only if it falls into the current window and that has counted four |
| Limiters.AfterLockAtItsEnd | internal/api/auth.go:97-112 | In the window that a lock opens, only failures at the very moment the lock ends are counted |
| Limiters.FiveInARowWithoutLock | internal/api/auth.go:97-112 | Five permitted failures, as close together as one likes, that lock nothing |
| Limiters.FiveFailuresLock | internal/api/auth.go:97-112 | The first five failures of an unknown key, if within one window, lock until exactly five minutes after the fifth |
| Limiters.SpreadFailuresDoNotLock | internal/api/auth.go:97-112 | The first five failures of an unknown key, if they span more than one window, lock nothing |
| Limiters.FreshWindowKeepsLocks | internal/api/auth.go:102-105 | Starting a fresh window never discards an active lock, even when failures come without a check |
| Limiters.Limiter.Allowed | internal/api/auth.go:83-94 | A try is permitted exactly as the failures of its key say, with the exact wait otherwise |
| Limiters.Limiter.Fail | internal/api/auth.go:97-112 | Records one failure of this key on its own object; other keys keep their counters |
| Limiters.Limiter.Reset | internal/api/auth.go:115-119 | Forgets this key and no other |

## Left out

- TLS and sockets, deadlines, HTTP handlers, cookies, the pages themselves, QR codes and translations: no state worth a proof; what they deliver is an arbitrary input here.
- BLAKE2s, HMAC, X25519, ChaCha20-Poly1305, key clamping and key generation: arbitrary functions under the hypotheses named above.
- Configuration defaults, JSON and the validation of sections (internal/config/config.go): easy case analysis. For reloads a save is one atomic new version of the file.
- Logging and its rate limits, `lastLog`, `warned6`, `lastErr`: they affect no behaviour.
- DNS resolution, gateway detection, the poller's snapshot, interface and peer requests: thin wrappers. `makeMasqueradeHook` is one such wrapper around `MasqueradeReconciler.Ensure`.
- `JunkPackets`: random packets that the receiver drops or not as their first bytes fall.
- The goroutines that call `cleanupDivert` and `cleanupMasquerade`: the removal before a start counts as done, or as failed for good, before the next start. A removal that is still running when its interface is configured again is not modelled; `RunsAreIsolated` covers its interleaving with other markers. So are not the options that switch rules off within one configuration.
- Restarts.NoOrphansIff: an address stands for its router; two API ports of one address that lead to different routers are not modelled.
- Two reconcilers with the same marker at the same time: the code does not support it.
- Dialers.Dialer.Call: requires non-empty words shorter than 2^32, as every caller sends; an empty word would end the sentence early. Concurrent callers are serialised by its mutex and are not modelled.
- Codec.ReadLength: the 32-bit overflow of Go's `int` on 32-bit machines is not modelled.
- DivertHooks.RetriedRunsAreGood: ports and addresses of the upstream are valid, and container_addr parses, without which the hook is not installed.
- Supervisors.LatestConfigIsReached: does not claim that the Go scheduler eventually runs every goroutine; it bounds the moves and says where they end.
- PeerAddresses.SuggestPeerAddress: numbers are exact, so digit groups too long for a JavaScript number are not modelled.
- PeerConfigs.ParseAwgConfig: a line with the key `__proto__`, which a JavaScript object treats specially, is not modelled; lower-casing covers ASCII letters.
- Limiters.Limiter.Allowed: the clock is an argument; `AtMostNineFailures` assumes, as the login handler does for one client at a time, that each failure follows its own permitted check.
