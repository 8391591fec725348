# Video CDN: server selection, DNS exchange and streaming proxy

This project models three cooperating programs and proves what they promise.

- **Server selection.** `genlsa.py` turns a links file into rounds of link-state announcements, some of them lost. The C name server (`src/dns/`) folds them into a pointer graph, searches it breadth first from every client and fills a routing table; `dijkstra.py` does the same job with a dictionary and a list-based Dijkstra. Modules `Graphs`, `NameLists`, `LinkState`, `Topology`, `Queue`, `Nearest`, `LoadBalance`, `Routing`, `NameServer`, `Dijkstra`, `Numerals`, `BestServer`, `GenLsa`, and `EndToEnd`, which joins them; `Service` carries the result to what the client decodes. `Sequences` and `Options` hold what all modules share.
- **DNS messages** (sections 3.1 and 4.1 of RFC 1035). `dns_record.c` and `dns_common.py` are two codecs for the same messages, and each reads what the other writes. Modules `Wire` (the format, written once), `DnsRecord`, `DnsCommon`, `DnsExchange`, and `Answering`, the name server's loop over datagrams.
- **The proxy.** Responses are put together from whatever `recv` returns, manifests are fetched twice and passed on once, connections unlink themselves in the middle of a sweep, and a smoothed throughput picks the next bitrate. Modules `Scanner`, `Reassembly`, `ProxySession`, `FragmentUri`, `ServerHandler`, `ProxyLink` (the session over responses that arrive in pieces), `ConnList`, `Throughput`, `Bitrate`.

`dafny verify dfyconfig.toml` checks everything.

## How it is modelled

Objects that the programs change in place are classes with the same fields: the graph nodes and their three linked lists, the sentinel queue with its `next` and `prev` pointers and the `visited` flags, the connection list, the receive buffer, the session with its bitrate lists, the list of throughputs, the codec's globals. Their methods are proved against functions on values (`LinkState`, `Nearest`, `Reassembly.Drain`, `Bitrate.Inserted` and so on), and the theorems are about those functions. A neighbour array is a `seq` field: the half-filled array of a sender being renewed is its filled prefix.

A result of `None` stands for an exception in Python, and in C for a null pointer followed or for a read or write outside a buffer.

Numbers are unbounded. The throughput arithmetic is exact, with the program's truncations. Text that `fgets`, `sscanf`, `strtok` or `split` takes apart is taken as already split: a line of the announcement file is a sender, a number and a list, and `None` is a line with fewer than three fields. `recv` is an arbitrary non-empty piece, sends succeed, and each lost announcement is an arbitrary choice. `neighbor_num`, which `src/dns/parse.c:122-127` leaves unset, is 0. An announcement in which the sender names itself is excluded, because `src/dns/parse.c:65-66` would then read the array that is being rebuilt.

## Where the code does less than it seems to

Each of these but the last is stated by members of the table below, with the exact condition where the table says "exactly when".

- The scanner that looks for the blank line misses it behind an even run of carriage returns (`src/parse.c:161-178`).
- A piece that ends inside a header breaks the connection for good: the scan covers `recvlen` bytes, stale ones included (`src/proxy2.c:464`), so the half header is taken for incomplete and never looked at again, or a stale blank line behind it is accepted and `offset` turns negative, or the length is looked for where there is none. The connection stays in order exactly when no piece ends inside a header.
- A response without a body is only handled when further bytes follow it (`src/proxy2.c:462-482`). With one request open no further bytes come, so its request never gets a reply.
- The Python choice takes -1 for an unreachable server, which then wins (`bitrate-project/dns/dijkstra.py:71`); sequence numbers are compared as text, so the newest announcements are kept for up to ten rounds and not for more (`bitrate-project/dns/dijkstra.py:39`). Under a fixed topology the second point does not change the graph.
- The name server stops only when the sum of three return codes is positive (`src/dns/nameserver.c:97-104`): an unreadable file and a table that could not be built cancel out, and it serves without a table. It then tests `retval`, not `retval2` (`src/dns/nameserver.c:140`), so a bad request is answered like a good one, with the empty name, and the error reply is never sent. The C client writes a zero in front of its name buffer when it parses that answer (`src/dns_record.c:25`).
- The error reply's code is shifted to a wrong bit and reads as zero on the wire (`src/dns_record.h:57`); the reply is rejected all the same, with -1, because it has no answer. A wrong address length gives the offset minus one instead of a negative number (`src/dns_record.c:255-256`). The question's type is read one byte early and only printed (`src/dns_record.c:53-60`).
- The saved manifest request is copied over without a terminator (`src/proxy2.c:387`): a request that is shorter than the one saved before keeps the other's end, and that is sent to the server.
- A request counts as a manifest request when `.f4m` stands anywhere in its URI, in any case (`src/parse.c:83`), but it is only rewritten where `.f4m ` stands, with the space (`src/parse.c:105`), and nobody looks at whether it was (`src/proxy2.c:598`). A manifest asked for with a query behind its name is asked for twice, and the full manifest is passed on.
- A rewritten fragment request is sent with the length that it had before (`src/proxy2.c:380-384`), whole exactly when the rate is as long as the text that it replaces.
- The Python client takes 1024 bytes of a reply (`bitrate-project/dns/dns_common.py:238`), which may have up to 1054: a name of more than 495 octets makes its parse raise.
- Throughput estimates are looked up by substring (`src/proxy2.c:658`), so estimates are kept apart exactly when no address contains another.
- Two unit tests contradict the code they test (`src/unit_test/dns_record/test_dns.c:42`, `src/dns/unit_test/parse/test_parse.c:55`); the model follows the code.

## Model
| member | source | states |
|---|---|---|
| `EndToEnd.AnswerFromFiles` | src/dns/nameserver.c:91-169 | links file to answer: if in some round an announcement of one end of every link gets through, and one of some client, each client gets a server at minimum hop distance in the real network, or the first listed one when it can reach none, whatever else was lost; without server lines or without a client that gets through there is no answer |
| `Service.ResolveByTable` | src/dns/nameserver.c:133-178 | under the same conditions the address that the client decodes from the reply is that of such a server, exactly when the reply fits the client's receive |
| `Service.ResolveInTurn` | src/dns/nameserver.c:156-178 | the k-th client of a round-robin server decodes the address of server k modulo their number |
| `EndToEnd.HeardInRounds` | bitrate-project/lsa/genlsa.py:52-61 | over all rounds a node is heard exactly when some round processes it where it is not lost |
| `EndToEnd.AskBoth` | bitrate-project/dns/dijkstra.py:32-76 | both programs run on one announcement file and one server file, announcements of a fixed symmetric network: the C program has no answer without a server line or without a line from some client, whatever else was lost; a client that is neither server nor router and reaches every announced server always gets an answer from Python, one from C exactly when some client's line got through, and then the two lie at one hop distance |
| `EndToEnd.NameServersAgree` | src/dns/load_balance.c:45-51 | for two files that heard the same senders, the route that the C search gives such a client and the choice of the Python search lie at one hop distance; whether a table is built to hold the route is `AskBoth` |
| `EndToEnd.SameGraph` | bitrate-project/dns/dijkstra.py:42-57 | the Python dictionary and the C neighbour lists hold the same relation, although sequence numbers are compared differently |
| `EndToEnd.StoredGraphIsReal` | src/dns/parse.c:43-69 | the stored relation is the links file's exactly when every link was heard at one end |
| `EndToEnd.LoadedGraphServesWell` | src/dns/load_balance.c:28-54 | on such a graph every client of the links file is eligible and its route keeps the promise in the real network |
| `EndToEnd.ClientsFromHistory` | src/dns/parse.c:49-51 | the client list is non-empty exactly when somebody who is neither server nor router has sent something |
| `EndToEnd.Generate` | bitrate-project/lsa/genlsa.py:57-61 | prints one part for each round; part i carries the number i and holds, in order, the announcements of exactly the processed nodes that are heard in round i; an unknown sink raises exactly when there is a round |
| `EndToEnd.SameDistance` | src/dns/load_balance.c:66-94 | two choices that are each nearest, in graphs with the same edges, lie at one distance |
| `Nearest.BfsIsClosest` | src/dns/load_balance.c:66-94 | the search answers NULL exactly when no other server is reachable, and otherwise a server no other server is nearer than |
| `Nearest.SearchIsClosest` | src/dns/load_balance.c:78-92 | from any layered queue the rest of the search finds a nearest server, and finds none only when there is none |
| `Nearest.ClosestAreEquallyFar` | src/dns/load_balance.c:66-94 | nearest servers of one client are equally far |
| `Nearest.ScanStops` | src/dns/load_balance.c:80-85 | the scan of a node stops exactly at the last unseen server of its list |
| `Nearest.ScanQueues` | src/dns/load_balance.c:86-91 | the unseen nodes it passes are queued, later ones first |
| `Nearest.AdjacentServer` | src/dns/load_balance.c:80-84 | a node linked to servers is sent to the one that stands last in its list |
| `LoadBalance.Bfs` | src/dns/load_balance.c:66-94 | the pointer search with `visited` flags and sentinel queue computes that search and ends |
| `LoadBalance.ResetVisited` | src/dns/load_balance.c:67-72 | no node stays marked, whatever an earlier search left |
| `LoadBalance.ScanNode` | src/dns/load_balance.c:80-91 | the neighbours are tried from last to first, the first unmarked server ends the scan, every other unmarked node is marked and queued once |
| `LoadBalance.Visit` | src/dns/load_balance.c:78-92 | one turn keeps the search's answer and uses up its budget |
| `LoadBalance.RouteNode` | src/dns/load_balance.c:33-51 | exactly the eligible nodes get a server, the search's or else the first listed |
| `LoadBalance.AddEntry` | src/dns/load_balance.c:30-54 | advancing past an accepted client never runs off the list, and the write index grows by at most one |
| `LoadBalance.BuildRoutingTable` | src/dns/load_balance.c:20-56 | returns 1 exactly when a list is empty; else the first slots of a table of `total_num` slots are the entries of the eligible nodes in list order |
| `Queue.SentinelQueue.PushBack` | src/dns/load_balance.c:102-107 | relinking four pointers appends to the queued sequence |
| `Queue.SentinelQueue.PopFront` | src/dns/load_balance.c:116-121 | takes the front of the queued sequence |
| `Queue.SentinelQueue.IsEmpty` | src/dns/load_balance.c:130-133 | true exactly for the empty sequence |
| `Routing.RouteIsClosest` | src/dns/load_balance.c:45-51 | an eligible node's route is a nearest server, or the first listed one exactly when none can be reached |
| `Routing.LookupFindsRoute` | src/dns/nameserver.c:163-169 | the first match for an eligible listed node is its route, whatever the unused slots hold |
| `Routing.NoMatch` | src/dns/nameserver.c:163-169 | a client gets no server exactly when no slot carries its address |
| `Routing.EntryIsRoute` | src/dns/load_balance.c:45-51 | every entry belongs to an eligible listed node and carries its route |
| `NameServer.Start` | src/dns/nameserver.c:97-104 | the graph, servers and clients loaded are those the files describe; when there is a table, and when the program goes on |
| `NameServer.Lookup` | src/dns/nameserver.c:163-169 | the server of the first matching slot |
| `NameServer.AnswerByTable` | src/dns/nameserver.c:163-169 | an eligible client is answered with its route |
| `NameServer.RoundRobin` | src/dns/nameserver.c:156-161 | the k-th reply is server k modulo their number |
| `NameServer.RoundRobinIsFair` | src/dns/nameserver.c:156-161 | in any m replies each server is used floor(m/n) times, and once more exactly when its place is below m modulo n |
| `LinkState.HistoryRefinement` | src/dns/parse.c:43-69 | after any history, m is stored at n exactly when an accepted announcement of either names the other and n has had none accepted since |
| `LinkState.FixedTopology` | src/dns/parse.c:52-69 | with true announcements, an edge is stored exactly when it is real and one end has been heard, so the relation is symmetric |
| `LinkState.RememberedIsReal` | src/dns/parse.c:52-69 | what a truthful history keeps is what is real and heard |
| `LinkState.ApplyEffect` | src/dns/parse.c:52-68 | what one announcement does to any pair of nodes |
| `LinkState.LinkStoresList` | src/dns/parse.c:60-68 | the sender's stored list is the announced one, in its order, whatever reverse links are added on the way |
| `LinkState.LinkAppendsSender` | src/dns/parse.c:175-190 | the lists of the others keep their order, and the sender comes last where it was missing |
| `LinkState.WellFormedMeans` | src/dns/parse.c:43-46 | the announcements read are those up to the first malformed line |
| `LinkState.ClientsAre` | src/dns/parse.c:49-51 | the clients are the senders that are neither servers nor routers |
| `LinkState.RouterNames` | src/dns/parse.c:49 | a router is a name that begins with an r |
| `LinkState.NewestIsStored` | src/dns/parse.c:52-53 | the number held is the largest heard from that sender |
| `LinkState.AcceptedIsNewer` | src/dns/parse.c:52 | the comparison accepts exactly the announcements newer than all before them |
| `LinkState.ListedNodes` | src/dns/parse.c:48-64 | the listed nodes are those of the server file, the senders, and those named by accepted announcements |
| `LinkState.ReplayKeepsClosed` | src/dns/parse.c:61-66 | every stored neighbour is a listed node |
| `Topology.NodeList.Exists` | src/dns/parse.c:158-168 | finds a node of that name exactly when there is one |
| `Topology.NodeList.AddNodeByIp` | src/dns/parse.c:115-130 | names stay unique, the counter is the length, the last node stays last |
| `Topology.NodeList.Reverse` | src/dns/parse.c:94-103 | turning the pointers in place reverses the list |
| `Topology.AddReverseNeighbor` | src/dns/parse.c:175-190 | unless it is present, the neighbour comes last in a copy of the array |
| `Topology.Network.AddNetworkNode` | src/dns/parse.c:48 | the node list gains one name and the rest of the graph is unchanged |
| `Topology.Network.LinkNeighbour` | src/dns/parse.c:60-68 | one announced neighbour is listed, linked back and stored |
| `Topology.Network.ParseLsaLine` | src/dns/parse.c:48-69 | the pointer graph after one line is the value graph after one announcement |
| `Topology.Network.ParseLsaFile` | src/dns/parse.c:34-73 | the pointer graph after the file is the replay of the announcements before the first malformed line, which alone makes the result -1; a list ending in a server still does |
| `Topology.Network.ParseServerFile` | src/dns/parse.c:81-105 | the server list, and a node list that ends in a server |
| `NameLists.ServersInFileOrder` | src/dns/parse.c:87-103 | push, skip repetitions and reverse give the distinct lines in order of first appearance |
| `Dijkstra.Dijkstra` | bitrate-project/dns/dijkstra.py:6-30 | terminates with a dictionary defined on exactly the reachable nodes, holding their hop distances |
| `Dijkstra.Select` | bitrate-project/dns/dijkstra.py:15-20 | while work is left a vertex of least distance is found, so removing it never fails |
| `Dijkstra.Relax` | bitrate-project/dns/dijkstra.py:24-29 | keeps the work list free of repetitions and visited nodes, with distances within one of each other |
| `BestServer.GetBestServer` | bitrate-project/dns/dijkstra.py:32-76 | the whole run; its choice is the first named server of least dictionary value, an unreachable one counting -1, so that of several equally near servers the first is returned; it is a nearest server exactly when every server can be reached |
| `BestServer.BestIsClosest` | bitrate-project/dns/dijkstra.py:69-73 | the same of the selection loop, for any correct dictionary |
| `BestServer.UnreachableIsChosen` | bitrate-project/dns/dijkstra.py:69-73 | the choice is a server that cannot be reached exactly when there is one |
| `BestServer.UnreachableServerWins` | bitrate-project/dns/dijkstra.py:71 | on the announcements of a client, a router and a server in a line, an unheard-of server beats the one two hops away |
| `BestServer.CurrentStatus` | bitrate-project/dns/dijkstra.py:33-40 | every sender has one entry, the first of its announcements that none exceeds as text |
| `BestServer.KeepsNewestExactlyWhen` | bitrate-project/dns/dijkstra.py:39 | with rounds 0 to n-1 the dictionary keeps every sender's newest announcement, under every loss pattern, exactly when n <= 10 |
| `EndToEnd.GeneratedIsFromRounds` | bitrate-project/lsa/genlsa.py:57-61 | on a simple file the generator's output is such announcements, each sender's numbers growing |
| `EndToEnd.GeneratedKeepsNewest` | bitrate-project/dns/dijkstra.py:36-40 | so of up to ten rounds of the generator the newest announcements are kept |
| `EndToEnd.PrintedIsRead` | src/dns/parse.c:44 | the C program reads the numbers that the generator prints |
| `Numerals.TextOrderExactlyWhen` | bitrate-project/dns/dijkstra.py:39 | two numerals compare as text as they do as numbers exactly when they are equally long or the beginning of the longer one is not less than the shorter one |
| `BestServer.BuildGraph` | bitrate-project/dns/dijkstra.py:42-57 | the dictionary holds a sender's own list, and for a silent node exactly the senders that list it, in whatever order keys come |
| `GenLsa.ReadLinks` | bitrate-project/lsa/genlsa.py:11-27 | builds the dictionary of the file's lines |
| `GenLsa.LinksAreJoined` | bitrate-project/lsa/genlsa.py:14-25 | the dictionary links two nodes exactly when a line does |
| `GenLsa.LinksInFileOrder` | bitrate-project/lsa/genlsa.py:24-25 | a node's links stand in the order of the file's lines |
| `GenLsa.LinksAreSymmetric` | bitrate-project/lsa/genlsa.py:23-25 | links are symmetric and every linked node has an entry |
| `GenLsa.SimpleFileSimpleLinks` | bitrate-project/lsa/genlsa.py:11-27 | the dictionary has no loop or repetition exactly when the file has none |
| `GenLsa.GenerateLsas` | bitrate-project/lsa/genlsa.py:39-54 | the loop ends and prints the surviving announcements of the crawl, in its order |
| `GenLsa.EachReachableNodeOnce` | bitrate-project/lsa/genlsa.py:39-54 | every node reachable from the sink except the sink is processed exactly once, in non-decreasing hop distance |
| `GenLsa.AppendNewInOrder` | bitrate-project/lsa/genlsa.py:48-50 | new neighbours wait behind the others, in the order in which the list names them |
| `GenLsa.AnnounceIsAnnounced` | bitrate-project/lsa/genlsa.py:52-54 | a round prints exactly the surviving announcements of the order, in that order |
| `GenLsa.OnceExactlyWhenSimple` | bitrate-project/lsa/genlsa.py:40-44 | no node twice and the sink never, exactly when the sink's own list has no repetition and no loop |
| `GenLsa.HeardInRound` | bitrate-project/lsa/genlsa.py:52-54 | the senders of a round are the processed nodes that were not lost |
| `DnsRecord.TranslateName` | src/dns_record.c:30-47 | writes the labels of RFC 1035 section 3.1 and nothing else |
| `DnsRecord.EncodeLabel` | src/dns_record.c:30-47 | a label is its length and its characters, what follows a dot comes behind it, and a zero ends the name |
| `DnsRecord.ParseName` | src/dns_record.c:9-27 | the name without its last dot and the length with it |
| `DnsRecord.TextStep` | src/dns_record.c:13-22 | labels of up to 127 characters are read one after the other, each followed by a dot, and only their lengths count against the size |
| `DnsRecord.TextStops` | src/dns_record.c:13-18 | a length from 128 on, or beyond the memory, makes the read run outside it |
| `DnsRecord.NameRoundTrip` | src/dns_record.c:9-47 | reading inverts writing, returning one less than was written, exactly when the name fits the 512-byte buffers; a longer one overruns them |
| `DnsRecord.QuestionRoundTrip` | src/dns_record.c:50-63 | the question ends one byte behind the length returned |
| `DnsRecord.AnswerRoundTrip` | src/dns_record.c:66-95 | with the correction for padding the address found is the one written |
| `DnsRecord.GenerateResource` | src/dns_record.c:111-129 | the padding is overwritten by the address and never seen |
| `DnsRecord.GenResponse` | src/dns_record.c:199-225 | the bytes of the reply and of the error reply |
| `DnsRecord.GenerateRequest` | src/dns_record.c:260-274 | the bytes of the query |
| `DnsRecord.RequestRoundTrip` | src/dns_record.c:182-197 | the server reads the name and identifier of every query, from C or Python, exactly when the name fits its buffer |
| `DnsRecord.ReplyRoundTrip` | src/dns_record.c:199-257 | the proxy gets back exactly the address given to the server, whatever lies behind the reply, exactly when the name fits its buffers |
| `DnsRecord.ErrorReplyIsRejected` | src/dns_record.c:205-209 | every reply generated with a non-zero code is rejected, and its code reads zero |
| `DnsRecord.WrongLengthExactlyWhen` | src/dns_record.c:227-257 | a response parses to no address, yet to no negative number, exactly when everything but its address length is right; the number is one less than where its answer starts |
| `DnsRecord.TypeIsIgnored` | src/dns_record.c:50-63 | a request with any type and class is accepted like any other |
| `DnsRecord.InvalidMeans` | src/dns_record.c:131-179 | which bits and bytes of a header make it invalid, and where the response code stands |
| `Answering.ServeAll` | src/dns/nameserver.c:133-178 | every datagram, rejected or not, is answered without error code to the name left in the name buffer |
| `Answering.RejectedIsAnswered` | src/dns/nameserver.c:136-173 | a rejected request gets the empty name and the server's address, an answer that the C client cannot parse within its buffers |
| `DnsCommon.LabelLengths` | bitrate-project/dns/dns_common.py:69-80 | the label lengths, the last one found by subtraction |
| `DnsCommon.PackName` | bitrate-project/dns/dns_common.py:82-91 | the same encoding as C's, or an exception exactly when a length does not fit its byte |
| `DnsCommon.PackableMeans` | bitrate-project/dns/dns_common.py:83-88 | which is when some label is longer than 255 |
| `DnsCommon.Codec.GenFlags` | bitrate-project/dns/dns_common.py:47-55 | the flags; a reply leaves the module's globals at reply |
| `DnsCommon.Codec.GenQuery` | bitrate-project/dns/dns_common.py:57-94 | the bytes of a query, which after a reply is no query any more |
| `DnsCommon.ReadText` | bitrate-project/dns/dns_common.py:159-170 | the index loop reads what the recursive reading gives |
| `DnsCommon.ParseMessage` | bitrate-project/dns/dns_common.py:134-226 | all fields of the reply in a message, and exactly the messages that raise |
| `DnsExchange.PythonReadsName` | bitrate-project/dns/dns_common.py:159-170 | Python reads back every encoded name |
| `DnsExchange.PythonReadsReply` | bitrate-project/dns/dns_common.py:134-226 | Python decodes the C reply to its name, identifier and address, and to the flags, counts and record fields of an authoritative answer |
| `DnsExchange.PythonReadsPointer` | bitrate-project/dns/dns_common.py:186-188 | it also decodes the form with a pointer for the answer's name |
| `DnsCommon.FieldsMean` | bitrate-project/dns/dns_common.py:140-157 | every flag and count is read from its place |
| `DnsCommon.LifetimeReadExactlyWhen` | bitrate-project/dns/dns_common.py:206 | the lifetime is read right exactly when it is less than 65536 |
| `DnsExchange.Exchange` | bitrate-project/dns/dns_common.py:228-242 | for every hostname, identifier and address, the client learns all of them from the server's reply to its query exactly when 2 name lengths and 34 bytes fit its receive of 1024; otherwise nothing |
| `DnsExchange.CutReply` | bitrate-project/dns/dns_common.py:134-226 | wherever a C reply is cut off, the Python parse raises |
| `Scanner.Scan` | src/parse.c:152-179 | stops where the state machine first ends |
| `Scanner.ScanExactly` | src/parse.c:152-179 | it stops behind the first blank line whose carriage return ends an odd run |
| `Scanner.FirstBlankLineFound` | src/parse.c:161-178 | the first blank line is found exactly when an odd run of carriage returns leads to it |
| `Scanner.HiddenBlankLine` | src/parse.c:161-178 | five bytes with a blank line that is not found |
| `Scanner.WithoutBareCr` | src/parse.c:152-179 | without bare carriage returns every first blank line is found |
| `Scanner.PositionPrefix` | src/parse.c:188 | what follows a header does not change its end |
| `Reassembly.HandledInOrder` | src/proxy2.c:411-483 | for any pieces that cut no header, at any time the handlers have had the first responses, each once and in order, every byte received belongs to one of them or to the open one's header and stored part, and stored plus missing bytes are the announced length |
| `Reassembly.EverythingHandled` | src/proxy2.c:411-483 | when the stream has arrived, all responses are handled exactly when the last one has a body; without one, all but the last |
| `Reassembly.StaysInOrderExactlyWhen` | src/proxy2.c:411-483 | for any sound responses and any pieces that fit the buffer: the connection is defined, with an empty buffer and no half header, exactly when no piece ends inside a header; otherwise it is broken, and has handled a beginning of the stream |
| `Reassembly.BrokenStays` | src/proxy2.c:413-421 | a broken connection stays broken and handles nothing any more |
| `Reassembly.DrainCut` | src/proxy2.c:421-482 | a buffer that ends inside a header is undefined, waits for ever, or makes the next receive write before the buffer |
| `Reassembly.HeaderInBuffer` | src/proxy2.c:464 | stale bytes behind a header change neither its end nor its length |
| `Reassembly.LengthMeans` | src/parse.c:196-202 | the announced length is the decimal number behind the first `Content-Length: `, in any case of letters, up to its line end; with 50 or more digits its copy overruns |
| `Reassembly.SignedLengths` | src/parse.c:202 | spaces and signs in front of the number |
| `ServerHandler.ProxyConn.HandlerServer` | src/proxy2.c:411-483 | over the real buffer and session, a receive computes the value-level loop, each finished response goes to the handler of the session's state, in order; the browser is sent exactly the handled responses, header and body as they are, but for the first one in the state that waits for a manifest; the result is what the last handler returned |
| `ServerHandler.ServerSide.ParseHeader` | src/proxy2.c:463-481 | taking a header out of the buffer |
| `ServerHandler.ServerSide.StoreBody` | src/proxy2.c:424-437 | moving body bytes out of the buffer |
| `ProxyLink.RepliedExactlyWhen` | src/proxy2.c:411-483 | over any run with one open request and any pieces that cut no header, once nothing is under way: every request has its reply exactly when no response to it was without a body; at any time each reply is the very message that the server sent for the request's last exchange; with all replied, each manifest caused exactly one second request, whose response is the reply. All second requests have the `_nolist` form exactly when `.f4m ` stands in every manifest request and each is seven bytes longer than the last; a full manifest is passed on exactly when `.f4m ` does not stand in its saved request |
| `ProxyLink.CrashesExactlyWhen` | src/proxy2.c:372-376 | after any such run, a move that can be made crashes the proxy exactly when it asks for a fragment before any rates are known; no receive does |
| `ProxyLink.BodylessReplyIsLost` | src/proxy2.c:462-482 | such a run: one page, one response with length 0, no reply |
| `ProxyLink.Stuck` | src/proxy2.c:462-482 | after a response without a body nothing can happen any more on the connection |
| `ProxyLink.LinkIsSessionRun` | src/proxy2.c:440-455 | every run over pieces is a run of the session, so what is proved of those holds of it |
| `ProxySession.EveryRequestAnswered` | src/proxy2.c:579-625 | the same accounting for responses once they have reached the handlers, over any run of the session |
| `ProxySession.FullManifestPassedOn` | src/proxy2.c:591-603 | such a run: a manifest request without `.f4m ` goes out twice, and the second full manifest reaches the browser |
| `ProxySession.QueryHidesExtension` | src/parse.c:103-107 | requests with a query behind the manifest's name are of that kind |
| `ProxySession.RunKeeps` | src/proxy2.c:392-460 | every reachable state of the session is idle, waiting, or waiting for the `_nolist` form, with the whole exchange accounted for |
| `ProxySession.NoListMeans` | src/parse.c:103-112 | the second request is `front_nolist.f4m rest` for a saved `front.f4m rest` in which `.f4m ` first stands behind front, and the saved request where it does not stand |
| `ProxySession.NoListExact` | src/parse.c:103-112 | for a request in which `.f4m ` stands, it is the asked one rewritten exactly when the request saved before was not longer; else the rest of that follows |
| `ProxySession.ManifestsRightExactlyWhen` | src/proxy2.c:385-388 | for any requests: the second request for every manifest is its `_nolist` form exactly when `.f4m ` stands in every manifest request and each of them is at least seven bytes longer than the one before it |
| `ProxySession.RewritesExactlyWhen` | src/parse.c:103-112 | the request is changed exactly when `.f4m ` stands in it |
| `ProxySession.FragmentRateIsBest` | src/proxy2.c:372-384 | after any run whose last manifest listed rates, the rate chosen for the next fragment is the best of them; how it is written into the request is `FragmentUri` |
| `ProxySession.DefaultRateIsBest` | src/proxy2.c:373-376 | without rates of its own, a connection takes the best of the default list |
| `ProxySession.DefaultsAreFirst` | src/proxy2.c:593-596 | which is that of the first manifest of any connection that lists some |
| `ProxySession.ThroughputIsLastEstimate` | src/proxy2.c:551 | the rate is chosen for the estimate of the last fragment, or the one the connection started with |
| `FragmentUri.ReplaceUriBitrate` | src/parse.c:120-135 | what stands between the last slash before the first `Seg` and that `Seg` is replaced; a request without `Seg` is left as it is |
| `FragmentUri.RewritingMeans` | src/parse.c:120-135 | `front/old` in front of the first `Seg` becomes `front/rate` |
| `FragmentUri.RateInPlace` | src/parse.c:120-135 | the rewritten request holds the rate, and nothing else, at that place |
| `Numerals.SignedMeans` | src/parse.c:132 | the rate is written as its decimal numeral |
| `FragmentUri.RewritingTwice` | src/parse.c:120-135 | a later rewriting undoes an earlier one |
| `FragmentUri.NothingToRewrite` | src/parse.c:123-125 | a request without `Seg` is left as it is |
| `FragmentUri.SentMeans` | src/proxy2.c:380-384 | a longer text is cut to the old length, a shorter one is followed by its zero and by what stood there before |
| `FragmentUri.SentWholeExactlyWhen` | src/proxy2.c:380-384 | the rewritten request is sent whole exactly when the rate is as long as what it replaces |
| `ProxySession.Connection.HandlerBrowser` | src/proxy2.c:342-409 | the request handler, over the list objects, refines the session's step on values, leaves the default list as it was, and is undefined exactly when no rates are known |
| `ProxySession.Connection.HandleResponse` | src/proxy2.c:579-625 | so do the response handlers: a manifest's list is parsed, and copied if it is the first, and its saved request goes out with `_nolist.f4m ` for the first `.f4m `; any other response is passed on; only a fragment updates its address's estimate; the result is the bytes sent |
| `ConnList.List.Sweep` | src/proxy2.c:199-223 | one pass handles every connection with a ready descriptor, in list order, telling which of its two descriptors are ready, and leaves those whose handler did not fail, although failing ones unlink themselves under the pass |
| `ConnList.HandledOnce` | src/proxy2.c:201-223 | each such connection is handled exactly once and the others never; it stays exactly unless its handler failed |
| `ConnList.ServedInOrder` | src/proxy2.c:201-223 | those handled are handled, and those kept stand, in the order of the list |
| `ConnList.ReadyCovers` | src/proxy2.c:199-208 | with distinct descriptors the count of `select` never runs out early |
| `ConnList.List.Insert` | src/proxy2.c:486-497 | pushes in front and stays doubly linked |
| `ConnList.List.Remove` | src/proxy2.c:499-514 | unlinks any position and stays doubly linked |
| `ConnList.List.Close` | src/proxy2.c:139-153 | both descriptors closed and no longer watched, the node gone but its pointers intact |
| `Throughput.SampleMeans` | src/proxy2.c:542-543 | a sample is eight times the bytes by the milliseconds, rounded down |
| `Throughput.Smooth` | src/proxy2.c:549-550 | an estimate lies between the old one and the sample |
| `Throughput.StepError` | src/proxy2.c:550 | one step covers the fraction alpha of the distance, less than one unit lost |
| `Throughput.RisingConverges` | src/proxy2.c:549-553 | under a constant sample from below: never decreasing, never above, and after k steps closer than (1-alpha)^k times the distance plus 1/alpha |
| `Throughput.FallingArrives` | src/proxy2.c:549-553 | from above the sample itself is reached, in at most as many steps as the distance |
| `Throughput.RestsExactlyWhen` | src/proxy2.c:550 | the estimate stands still exactly at the sample or less than 1/alpha below it |
| `Throughput.IpTable.Find` | src/proxy2.c:655-664 | walking the linked list, the first entry whose address contains the one asked for |
| `Throughput.OccursMeans` | src/proxy2.c:658 | containing is standing in it between two texts |
| `Throughput.IpTable.Add` | src/proxy2.c:666-680 | overwrites that entry in place or links a new one in front |
| `Throughput.IpTable.Estimate` | src/proxy2.c:538-553 | smooths the sample into the address's entry, from 0 at first |
| `Throughput.EstimatesAreSeparate` | src/proxy2.c:655-680 | if no address contains another, after any run each address holds its own samples folded in order |
| `Throughput.SeparateExactlyWhen` | src/proxy2.c:655-680 | over every run of chunks each address holds its own fold exactly when none of the addresses occurs within another |
| `Throughput.SubstringsCollide` | src/proxy2.c:655-680 | a new entry is found for exactly the addresses that occur in its own, and the next chunk of such an address overwrites it |
| `Bitrate.BitrateList.SortedInsert` | src/bitrate.c:72-94 | links the rate in before the first that is not smaller |
| `Bitrate.ParseXml` | src/bitrate.c:32-50 | the list of the rates inserted one after the other |
| `Bitrate.LadderIsSorted` | src/bitrate.c:32-94 | that list is sorted and a permutation of the parsed values |
| `Bitrate.BitrateList.Duplicate` | src/bitrate.c:52-70 | the same rates in nodes of its own |
| `Bitrate.BitrateList.Select` | src/bitrate.c:11-24 | the choice from the pointer list; undefined exactly on the empty list |
| `Bitrate.ChoiceIsBest` | src/bitrate.c:11-24 | on a sorted list the largest b with 3b <= 2 throughput, or else the smallest |
| `Bitrate.FitsMeans` | src/bitrate.c:14-17 | that bound is the throughput divided by 1.5 |
| `Bitrate.ChoiceIsMonotone` | src/bitrate.c:11-24 | more throughput never chooses less |

## Left out

- Sockets, `select`, `accept`, `connect`, `sendto`, files, clocks and logs (`src/mydns.c`, `src/log.c`, `src/dns/log.c`, `src/helper.c`): what they deliver is a parameter. The duration of a fragment is a positive number.
- The lexer and grammar of HTTP requests (`src/lexer.l`, `src/parser.y`), and `check_type`: a request arrives parsed, complete in one receive, with its kind.
- Text details of `sscanf`, `strtok`, `inet_aton`, XML search and the last character that `parse_server_file` cuts from a line: see "How it is modelled".
- Buffer limits other than the receive buffer, the 512 bytes of a name, the 50 bytes for a length and the proxy's header copy: those of file lines and paths.
- Rounding in `float` and `double`: quotients and products are exact.
- Compression pointers given to the C parser, which does not implement section 4.1.4 of RFC 1035; the Python server's own replies (`bitrate-project/dns/dns_common.py:96-131`), which use them.
- Pipelined browser requests.
- ProxySession.FragmentRateIsBest: keeps a fragment request as its text and its rate; what becomes of them on the wire is `FragmentUri`, and the limit of 8192 bytes on the rewritten text is not modelled.
- ConnList.List.Sweep: the handlers are a function that says which connections fail; what they do inside is in `ServerHandler` and `ProxySession`, and the listening socket is handled before the sweep.
- Sequence numbers beyond 32 bits, which `%d` would cut (`src/dns/parse.c:44`): the C program reads the number that the text means.
- Freeing memory, and the memory that the programs never free.
- `src/proxy.c`, network simulation, traffic shaping, Apache setup, scoring and plotting are not modelled.
