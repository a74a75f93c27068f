# deezns, verified

deezns is a DNS policy daemon. Programs reach it through three front-ends: glibc's nscd
protocol, DNS itself, and an NSS module that asks over a policy socket. All three share one
policy engine: ordered rules over the host name, the caller and a set of blocklists.

This project models the daemon's logic and proves what it is for:

- **One judgement per lookup** (`Stack`). A lookup travels
  glibc -> nscd front-end -> nscd -> NSS module -> dns -> DNS front-end as steps of a state
  machine. Every run ends, and the lookup has then been judged exactly once, at the first enabled
  front-end, unless a source that is not deezns answered before it met one; only a lookup judged
  there and handed on reaches the real resolver. The deployment assumed is the one the
  documentation asks for (`Stack.Wired`); the identification of nscd's sockets
  (`Stack.Identified`) is shown to be necessary as well as sufficient, and is traced back to the
  socket table, as the name is to the bytes of the query. For lookups that pass, the number of
  judgements is given for every deployment.
- **Replies glibc cannot misread** (`NscdReply`, `NscdFrontend`). Whatever the policy says
  and whatever the real nscd does, a host request with a usable name gets a complete reply
  that the daemon's own validator accepts, and what the client decodes from it is determined.
- **A DNS codec that round-trips** (`DnsMessage`, `DnsRecords`, `Framing`). The question
  parser inverts label encoding, every response echoes its question, and a decoder that
  follows compression pointers recovers the answers to the last byte. A whole TCP session gives
  each query its reply, in turn.
- **Nothing denied leaves the machine** (`DnsFrontend`, `Identify`, `Relay`). Over every run
  of the DNS front-end the upstream sees only messages that were received, parsed and cleared.
- **Fast forms that agree with simple ones** (`Identify`, `Blocklist`, `Policy`, `Nix32`).
  The one-pass socket search is the argmax, the suffix index is the subdomain relation, the
  rule loop is first-match, the shift-and-mask loop is positional base 32.

A Rust string is its UTF-8 bytes; `Utf8` models `from_utf8` and `from_utf8_lossy`. Integer
widths, casts and wrap-around are written out. Bit operators are defined on natural numbers in
`Bits`, with the arithmetic they amount to proved. A CEL program is an arbitrary total function of
its context; sockets, clocks, `/proc` and the passwd database are parameters. Code made of loops
is a method proved against a function on values, and the lemmas are about that function.

`dafny verify dfyconfig.toml` checks the whole project.

## Findings

Where the code does not do what its documentation or a standard says, the code is modelled as it
is and the exact condition is proved.

- The 255-octet check runs before the terminating zero is counted, so a name of 256 octets is
  accepted, one more than section 2.3.4 of RFC 1035 allows (`DnsMessage.LongestNameIsAccepted`;
  acceptance exactly: `DnsMessage.AcceptedIff`).
- A label that contains a dot octet is indistinguishable from two labels to the policy: two
  different messages parse to the same question
  (`DnsMessage.DottedLabelCollides`; exactly then: `DnsMessage.NameSplitsIntoLabels`).
- Forwarded replies are matched to the query's id over UDP but not over TCP
  (`DnsFrontend.TcpIdUnchecked`): over TCP the id is certain, whatever the upstream sends, exactly
  for the queries that are not handed on (`DnsFrontend.TcpIdGuaranteedIff`).
- The record count of a local answer is 16 bits wide and wraps in a release build (a debug
  build panics): the answer decodes in full exactly below 65536 records
  (`DnsRecords.AnswerRoundTrip`).
- A local answer longer than 65535 bytes is framed with a length that wraps, and the client reads
  the rest of the TCP stream wrong: a session reads back right exactly when no answer is that long
  (`DnsFrontend.TcpSession`; single replies: `DnsFrontend.TcpReplyFitsIff`).
- A blocklist entry with a trailing dot never matches anything the engine asks about
  (`Policy.DeadEntryIff`).
- Local records are looked up under the name as spelled by the nscd front-end and the policy
  socket, and under the lower-cased name by the DNS front-end, so decisions can differ although
  verdicts agree (`Agreement.LocalRecordsMayDisagree`; exactly when: `Agreement.DecisionsAgreeIff`).
- With the NSS module running in the program itself instead of in nscd, a lookup that also meets
  the DNS front-end is judged twice (`Stack.ModuleInTheProgramIsJudgedTwice`). However nscd is set
  up, a lookup that passes both is judged once exactly when the socket that asks the DNS server is
  identified as nscd's (`Stack.ModuleAndDnsJudgeOnceIff`).

## Model

| member | source | states |
|---|---|---|
| Stack.JudgedOnceAtTheFirst | src/relay.rs:1-22 | in a correctly wired system every lookup ends, judged exactly once, by the first enabled front-end, for the caller that front-end sees and on the policy's verdict; only a lookup answered by a plain source before it met a front-end ends unjudged, and never with the nscd front-end; it ends at a front-end exactly when judged and not handed on, and reaches the real resolver only when handed on |
| Stack.JudgedOnceOnTheWire | src/relay.rs:1-22 | the same from the bytes of the query that asks for the name and from the socket table that shows nscd's connection, in any system deployed as documented |
| Stack.RunSettles | src/relay.rs:6-8 | in every system, however wired, a lookup ends at a front-end exactly when its last judgement did not hand it on, and all judgements before that did |
| Stack.JudgedAtMostOnce | src/relay.rs:1-22 | the same at every moment of every run: at most one judgement, none but the first front-end's; unjudged at the end only after a plain source's answer, or when the DNS front-end is the only one and `dns` is not on the hosts line |
| Stack.JudgedOnceIff | src/relay.rs:73-91 | a lookup that is always handed on is judged exactly once if and only if nscd's sockets are identified as the configured user's wherever they pass a listener behind another front-end |
| Stack.JudgedOnceIffConnectionIsNscds | src/identify.rs:190-230 | with the identification read off a socket table that holds nscd's connection: judged exactly once if and only if no other user's row shows that connection |
| Stack.JudgementsOfAPassingLookup | src/relay.rs:3-19 | how often a lookup that is always handed on is judged, for any relays, hosts line, identification and state of nscd and the daemon |
| Stack.StepKeepsInv | src/relay.rs:10-19 | every step of the stacked protocol keeps the invariant that a lookup past the first front-end carries exactly its passing judgement, and that ending unjudged takes a plain source or a hosts line without `dns` |
| Stack.ModuleAndDnsJudgeOnceIff | README.md:286-293 | NSS module and DNS front-end without the nscd front-end: a passing lookup is judged once if the socket that asks the DNS server is identified as nscd's, and twice otherwise |
| Stack.ModuleInTheProgramIsJudgedTwice | README.md:286-293 | without nscd resolving hosts, module and DNS front-end both judge, exactly unless the program runs as nscd's user |
| Stack.EveryLookupEnds | src/relay.rs:6-8 | every lookup ends within a bound set by the length of the hosts line |
| Stack.NscdHopIsTheFrontEnd | src/nscd.rs:537-582 | the nscd hop goes on exactly when the nscd front-end forwards the request |
| Stack.DnsHopIsTheFrontEnd | src/dns.rs:402-463 | the DNS hop goes on exactly when the DNS front-end sends the query upstream |
| Relay.RelaysIff | src/relay.rs:59-92 | who relays where, and when startup fails because the user does not exist |
| NssModule.HandleConnection | src/daemon.rs:32-119 | one response per request, in order, each the relay pass or the policy's decision, until the lines end or a read fails, and an error exactly then; lines that do not decode are skipped |
| NssModule.FilterAddrs | src/lib.rs:52-108 | a non-empty result is all the addresses of one family, in order |
| NssModule.FilterAddrsIff | src/lib.rs:52-108 | empty exactly when no address is of the wanted family; no wanted address is lost; unspecified prefers IPv4 |
| NssModule.ChainContinuesIff | src/lib.rs:122-151 | the NSS chain goes on to the next source exactly when the daemon relays or hands on |
| NscdFrontend.HostReplyIsAlwaysUsable | src/nscd.rs:521-601 | for every policy and upstream behaviour, a host request with a name gets bytes the validator accepts, with found 0 or 1, never a close |
| NscdFrontend.ExchangeDecodes | src/nscd.rs:496-601 | what glibc decodes after asking for a name: not found, the local records of the family, or nscd's own reply or try-again |
| NscdFrontend.ClosedIff | src/nscd.rs:532-535 | a host request is closed exactly when it has no usable name |
| NscdFrontend.DeniedIsHostNotFound | src/nscd.rs:537-548 | a denial is a complete HOST_NOT_FOUND reply, independent of nscd, and nothing is sent |
| NscdFrontend.NscdSeesOnlyCleared | src/nscd.rs:603-620 | nscd sees requests verbatim, and host requests only when not denied |
| NscdFrontend.OtherRequestsAreVerbatim | src/nscd.rs:496-530 | a whole exchange of any other type, from the bytes the client writes: nscd gets exactly those, the client gets exactly nscd's reply or a close, under every policy and for every caller |
| NscdFrontend.PolicyMattersIff | src/nscd.rs:496-601 | policy and caller can make a difference to a connection exactly when it starts with a host request for a usable name |
| NscdFrontend.LocalRecordsDecode | src/nscd.rs:559-581 | the client decodes exactly the local records of the asked family, or no-data |
| NscdFrontend.FoundIsValid | src/nscd.rs:396-404 | every positive reply the daemon builds is valid and no strict prefix of it is |
| NscdReply.NotFoundIs | src/nscd.rs:267-304 | negative replies carry found 0 and the error where each layout puts it; no strict prefix is valid |
| NscdReply.AiFoundIff | src/nscd.rs:246-276 | a positive GETAI reply is valid exactly when its counts fit an int32, and then no strict prefix is |
| NscdReply.HstFoundComplete | src/nscd.rs:280-320 | a positive host reply is valid and no strict prefix of it is |
| NscdReply.TrailingBytesIff | src/nscd.rs:326-387 | trailing bytes are accepted exactly on host-by-name and negative replies |
| NscdReply.BuildHstReply | src/nscd.rs:280-299 | the loop appends the name and every address in order |
| NscdReply.AiRoundTrip | src/nscd.rs:244-276 | a header-driven decoder recovers the name and every address |
| NscdReply.HstRoundTrip | src/nscd.rs:278-320 | a header-driven decoder recovers the name and the addresses of the asked family |
| NscdProtocol.ParseInvertsEncode | src/nscd.rs:162-198 | parsing inverts encoding exactly for keys of at most 1024 bytes |
| NscdProtocol.EncodeInvertsParse | src/nscd.rs:162-198 | an accepted request is the encoding of its type and key |
| NscdProtocol.ReadRequestIff | src/nscd.rs:208-220 | reading succeeds exactly when the stream starts with a valid request, consumes just that, keeps it verbatim; the parser's length checks never fire |
| NscdProtocol.ReadInvertsEncode | src/nscd.rs:162-220 | an encoded request in front of anything is read back, verbatim, and nothing more is consumed |
| NscdProtocol.GlibcRequestIsUnderstood | src/nscd.rs:162-220 | what glibc writes for a name is read back as a request for that name |
| NscdProtocol.TypeRoundTrip | src/nscd.rs:129-138 | request types and their numbers are inverse to each other |
| NscdProtocol.AsI32 | src/nscd.rs:135-138 | the number of a type maps back to that type |
| NscdProtocol.Hostname | src/nscd.rs:200-205 | a host name is non-empty UTF-8 no longer than the key |
| NscdProtocol.HostnameIff | src/nscd.rs:200-205 | exactly which keys carry a name: UTF-8, not empty, with or without one terminator |
| NscdProtocol.IntRoundTrip | src/nscd.rs:226-228 | int32 values survive being written and read |
| NscdProtocol.BytesRoundTrip | src/nscd.rs:176-176 | any four bytes survive being read and written |
| DnsMessage.ParseQuery | src/dns.rs:98-146 | the parser computes exactly the specified result or error |
| DnsMessage.ParseLabels | src/dns.rs:114-132 | the label loop reads exactly the labels up to the zero octet |
| DnsMessage.ParseInvertsEncoding | src/dns.rs:114-145 | parsing an encoded question followed by anything gives back id, flags, name, type, class and end |
| DnsMessage.AcceptedDecomposes | src/dns.rs:101-146 | every accepted message is header, labels, zero, type, class, rest, ending at most at 272 and inside the message |
| DnsMessage.AcceptedIff | src/dns.rs:100-146 | a message is accepted exactly when some labels encode its one question |
| DnsMessage.ParsedIsAccepted | src/dns.rs:135-151 | a parsed query keeps the message verbatim and its question ends inside it |
| DnsMessage.LongestNameIsAccepted | src/dns.rs:128-131 | a name of 256 octets is accepted and the question then ends at 272 |
| DnsMessage.NameSplitsIntoLabels | src/dns.rs:139-139 | the joined name splits back into the labels exactly when no label holds a dot |
| Bytes.SplitInvertsJoin | src/dns.rs:139-139 | splitting recovers joined labels exactly when no label holds a dot |
| Bytes.JoinInvertsSplit | src/dns.rs:139-139 | joining the labels of any name gives the name back |
| DnsMessage.BuiltQueryParses | src/dns.rs:98-146 | header, encoded labels and tail put together parse to their parts |
| DnsMessage.DottedLabelCollides | src/dns.rs:127-139 | for any header and tail, two different messages that parse to the same id, flags and question |
| DnsMessage.ResponseEchoes | src/dns.rs:153-168 | every response is refused as a query; with QR cleared it parses to the same id and question, opcode and RD kept, RA and rcode set, other flags clear |
| DnsMessage.ResponseFlagsBitwise | src/dns.rs:157-157 | the masks and ors amount to that flags word |
| DnsMessage.ResponseLayout | src/dns.rs:158-167 | where id, flags, counts, question and answers stand; no authority or additional records |
| DnsMessage.Formerr | src/dns.rs:204-211 | the header written in place is the specified one |
| DnsMessage.FormerrIs | src/dns.rs:202-211 | FORMERR echoes the id when there is one, counts nothing, and is not a query |
| DnsRecords.AnswerQuery | src/dns.rs:180-199 | the loop appends one record per matching address and counts modulo 65536 |
| DnsRecords.AnswerRoundTrip | src/dns.rs:178-199 | an independent decoder recovers every matching address in order, owned by the question's name, and consumes the message exactly when there are fewer than 65536 |
| DnsRecords.AnswerDecodes | src/dns.rs:180-199 | in general it reads as many records as the wrapped count says; the exact length of the answer |
| DnsRecords.AnswerEchoes | src/dns.rs:178-199 | an answer is a NOERROR response to its question |
| Framing.FramesRoundTrip | src/dns.rs:344-371 | framed messages are read back, then a clean end, exactly when each fits 16 bits |
| Framing.ServeConnection | src/dns.rs:344-371 | replies, each depending on the message and its turn, are framed in the order of the messages until the stream ends or breaks |
| Framing.ConversationRoundTrip | src/dns.rs:342-371 | a client reads one reply per query, in order, exactly when every reply fits its prefix |
| Framing.ReadFrame | src/dns.rs:521-531 | a frame is read as its message cut to the 16-bit length |
| Framing.LocalAnswerFits | src/dns.rs:180-199 | up to 4078 A or 2330 AAAA records a local answer fits its prefix and round-trips |
| DnsFrontend.UpstreamSeesOnlyCleared | src/dns.rs:374-486 | over every run, what is sent upstream is byte for byte a received one-question query from a relay's socket or not denied |
| DnsFrontend.RelayedIff | src/dns.rs:402-412 | relayed exactly when the best-fitting rows exist and all belong to one relay user |
| DnsFrontend.UpstreamCannotInfluence | src/dns.rs:374-464 | unless handed on, the reply does not depend on the upstream and nothing is sent |
| DnsFrontend.DeniedGetsNxdomain | src/dns.rs:414-426 | a denied query gets NXDOMAIN for its own question |
| DnsFrontend.LocalRecordsAreAnswered | src/dns.rs:438-462 | an allowed name with local records: the reply decodes to exactly the records of the asked type |
| DnsFrontend.HandedOnGetsAnswerOrServfail | src/dns.rs:466-517 | a query handed on gets the upstream's bytes verbatim, or SERVFAIL for its own question |
| DnsFrontend.ForwardUdp | src/dns.rs:488-505 | the loop returns the first datagram that carries the query's id |
| DnsFrontend.FirstAnswerIff | src/dns.rs:498-504 | which datagram that is, exactly |
| DnsFrontend.UdpReplyCarriesId | src/dns.rs:374-505 | over UDP the reply to any message with an id starts with that id |
| DnsFrontend.TcpIdGuaranteedIff | src/dns.rs:507-517 | over TCP the reply carries the id for every upstream exactly when the query is not handed on |
| DnsFrontend.TcpIdUnchecked | src/dns.rs:507-517 | an upstream for which the id is lost |
| DnsFrontend.TcpReplyFitsIff | src/dns.rs:365-369 | over TCP a reply fits its prefix exactly unless it is a local answer longer than 65535 bytes |
| DnsFrontend.TcpReplyFits | src/dns.rs:365-369 | over TCP every reply fits its prefix while the local records are few enough |
| DnsFrontend.TcpSession | src/dns.rs:342-371 | on one connection a client reads back the front-end's reply to each query, whole and in order, then the end, however the upstream and the socket table change meanwhile: exactly when every local answer fits |
| Identify.FindSocket | src/identify.rs:127-152 | the single pass finds the rows of maximal fit and classifies them |
| Identify.OutcomeIff | src/identify.rs:46-58 | none, one, same user or ambiguous, exactly by the number and uids of the maximal rows |
| Identify.NeverMisattributed | src/identify.rs:105-230 | a packet is put down only to a user with a socket that can have sent it; to the only such user if there is one; to nobody exactly when no socket can have sent it or the best-fitting ones differ in user |
| Identify.FitRanks | src/identify.rs:105-124 | a connected row outranks an unconnected one, then a bound one a wildcard |
| Identify.OrderDoesNotMatter | src/identify.rs:127-152 | permuting the table changes nothing |
| Identify.WorseRowIsInert | src/identify.rs:127-152 | inserting a row that does not fit, or fits worse, changes nothing |
| Identify.MappedPeer | src/identify.rs:100-103 | an IPv4 peer and its IPv4-mapped form find the same socket |
| Identify.PeerFormDoesNotMatter | src/identify.rs:100-124 | only the canonical form of the peer's address matters |
| Identify.IdentifiedIff | src/identify.rs:190-230 | a uid is reported exactly when some row fits and all the best rows are that user's |
| Identify.ConnectionIdentifiesOwner | src/identify.rs:14-19 | a connected socket is traced to its owner exactly unless another user's row shows the same connection |
| Net.Mapped | src/identify.rs:100-103 | the mapped form is an IPv6 address that is canonically the IPv4 one |
| Policy.EvaluateFor | src/policy.rs:351-417 | the loops compute the first-match verdict on the canonical name |
| Policy.FirstMatchIsLeast | src/policy.rs:369-416 | the verdict of the least-index true rule, else the default |
| Policy.SkippedRuleIsInert | src/policy.rs:398-406 | deleting a rule that errs or is not true changes nothing |
| Policy.EvaluateRespectsCanonical | src/policy.rs:352-353 | the whole result, reason included, is a function of the canonical name |
| Policy.CanonicalIdempotent | src/policy.rs:213-224 | canonicalising twice is canonicalising once |
| Policy.CanonicalEntry | src/policy.rs:213-224 | a lower-case name without a trailing dot, and the root, are their own canonical form |
| Policy.CanonicalAbsorbs | src/policy.rs:213-224 | case and trailing dots never matter |
| Policy.Canonical | src/policy.rs:216-224 | never empty, and never ends in a dot unless it is the root |
| Policy.DeadEntryIff | src/blocklist.rs:132-168 | an entry can match some canonical name exactly when it is the root or does not end in a dot |
| Blocklist.Contains | src/blocklist.rs:96-119 | blocked exactly when listed, or equal to or below a listed domain |
| Blocklist.Parse | src/blocklist.rs:56-94 | the two sets hold exactly the entries of the lines |
| Blocklist.ConcatenationIsUnion | src/blocklist.rs:56-119 | a list loaded from A then B blocks a name exactly when A's or B's list does |
| Blocklist.OrderDoesNotMatter | src/blocklist.rs:56-94 | order and repetition of lines do not matter |
| Blocklist.StoredEntriesAreWellFormed | src/blocklist.rs:132-181 | every stored entry is lower-case, dotted, at most 253 bytes and in the alphabet |
| Blocklist.UnmarkedLine | src/blocklist.rs:69-165 | what every line without a mark means, by its words: a lone domain, an address and a domain, or nothing |
| Blocklist.BareDomainFormat | src/blocklist.rs:159-165 | a domain between any white space is an exact entry |
| Blocklist.HostsFormat | src/blocklist.rs:149-157 | an address and a domain make an exact entry, with any white space and any further words |
| Blocklist.RemarksAreInert | src/blocklist.rs:67-72 | a blank line, comment or exception anywhere in a file, with any text after the mark, leaves the loaded list as it is |
| Blocklist.AdblockFormat | src/blocklist.rs:133-141 | an anchored domain covers its subdomains, with any run of closing carets and bars and any white space around |
| Blocklist.LoadInvertsWrite | src/blocklist.rs:56-181 | loading a written list gives it back exactly when all its entries are well-formed |
| Agreement.WireNameIsTheName | src/dns.rs:395-400 | the name read off the wire is, in canonical form, the name as spelled, in any case, with any trailing dots |
| Agreement.FrontEndsAgree | src/dns.rs:395-414 | the DNS front-end reaches the verdict the others reach for the name as spelled, in any case, with any trailing dots |
| Agreement.QuestionRoundTrip | src/dns.rs:114-145 | for labels that are UTF-8 text the parsed name is their lower-cased join, and splits back exactly when no label holds a dot |
| Agreement.DecisionsAgreeIff | src/dns.rs:439-440 | spellings of one name get one decision exactly when their local records agree if allowed |
| Agreement.LocalRecordsMayDisagree | src/upstream.rs:9-15 | a spelling for which the front-ends differ |
| Slots.SlotsAreConserved | src/dns.rs:293-340 | in every interleaving free, held and used permits add up to the limit; the loop waits exactly when all are used |
| Slots.RunKeepsPermits | src/nscd.rs:472-494 | no step loses or makes up a permit |
| Nix32.Nix32 | scripts/flake-inputs-via-git:79-89 | the loop renders the little-endian number in positional base 32, indexing in bounds |
| Nix32.Render | scripts/flake-inputs-via-git:79-80 | the length is the ceiling of 8n/5 |
| Nix32.WindowIsDigit | scripts/flake-inputs-via-git:83-88 | the shift/or/mask window is the digit of the whole number |
| Nix32.DecodeInvertsRender | scripts/flake-inputs-via-git:79-89 | a decoder that knows only the alphabet recovers the bytes |
| Nix32.RenderInjective | scripts/flake-inputs-via-git:79-89 | the encoding is injective on strings of equal length |
| Nix32.CompressHash | scripts/flake-inputs-via-git:92-96 | each output byte is the xor of the digest bytes congruent to it |
| Nix32.FoldedReplacing | scripts/flake-inputs-via-git:92-96 | each digest byte reaches exactly one output byte, fully |
| Nix32.ShortDigestIsPadded | scripts/flake-inputs-via-git:92-96 | a short digest is copied and padded with zeros |
| Utf8.LossyFixesExactlyValid | src/dns.rs:127-127 | lossy decoding changes a label exactly when it is not UTF-8 |
| Utf8.LossyIsValid | src/dns.rs:127-127 | its result is always UTF-8 |

## Left out

- NscdFrontend.HostReplyIsAlwaysUsable: a name answered from local records needs counts that fit an int32 (all the records for GETAI, those of the asked family otherwise); NscdReply.AiFoundIff shows that for GETAI nothing larger would be valid.
- NscdProtocol.IntRoundTrip: native-endian integers are modelled little-endian only.
- NscdProtocol.BytesRoundTrip: likewise little-endian only.
- Framing.ServeConnection: a failure to write a reply, which ends the connection early, is not modelled.
- NssModule.HandleConnection: likewise for a failure to write a response on the policy socket.
- DnsFrontend.UpstreamSeesOnlyCleared: a write that fails half-way through counts as the whole message sent.
- Stack.JudgedOnceAtTheFirst: one lookup is one name asked once; the several queries a resolver may send for one lookup (A and AAAA, search domains, retries) are separate lookups to the DNS front-end.
- Sockets, timers and task spawning are replaced by explicit outcomes (bytes, failure, silence) and steps; binding, file permissions and logging have no counterpart.
- Reading `/proc`, finding the process behind an inode, `SO_PEERCRED` and the passwd lookup are inputs.
- CEL compilation and execution, and TOML and JSON, are libraries; `PolicyEngine::from_config`, which loads files and compiles rules, is not modelled.
- The flow label and scope of IPv6 socket addresses, which nothing compares, are dropped.
- Splitting a blocklist file into lines is not modelled; a line that is not UTF-8 is an unreadable one.
- `fixed-output` store path strings, git mirrors, Nix modules, VM tests and the nsncd patch are configuration and process plumbing.
