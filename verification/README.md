# cppbrick, modelled and proved in Dafny

cppbrick is a C++ library of server building blocks: rate-limited blocking queues, a TCP reactor with a table of
sessions, a pool of connections, codecs and look-ups, and, in vendored headers, a number of Crypto++ algorithms
whose code is written out. This project models the parts of it that carry invariants, and proves what they are for.
Paths and lines below are those of the repository.

* **Queues** (`TimeStamps`, `RateLimiter`, `BoundedQueue`, `KeyedMap`, `ThreadMeet`). The per-second limiter of
  `TVector`/`TQueue` as a system of any number of consumers that read clocks and sleep; its amortised bound over
  whole runs, the exact condition on the arguments under which that bound holds, and what the idle branch does to
  it. The monitors of the queues, of the keyed map and of the meeting point as state machines over all
  interleavings.
* **Server** (`Reactor`, `SessionTable`, `SessionServer`, `ConnPool`). The event loop and the life of every handler
  it makes; the two maps of the session table over any sequence of operations, and composed with the reactor; the
  round-robin cursor and the reconciliation of the connection pool.
* **Codecs and look-ups** (`Base64`, `RsaChunks`, `StringSplit`, `XmlLookup`).
* **Header-only algorithms** (`Modular`, `Octets`, `GfpSignatures`, `KeyAgreement`, `ElGamal`, `Der`, `Hkdf`) over
  the integers modulo a prime, with octet strings and buffers as the headers write them.
* `Basics` holds what several of them share.

Objects whose methods update fields are classes; buffers are arrays; loops are loops. Each such method is proved
against a function or a predicate, and the laws are lemmas about those. A stretch of code that holds a mutex is one
atomic step, in the model the same function for the method and for the state machine; the event loop, which holds
none, is taken apart so that other threads come between its steps. Sockets, `epoll_wait`, clocks, random numbers and
the code of hash functions, block ciphers and lengths in BER are inputs.

## Where the code falls short of what it promises

Each of these is proved with the exact condition, or with a run that shows it.

* The policy of `src/TVector.h:14`, at most `rate_limit` items a second, is kept by no limit that the clock's
  microseconds do not keep anyway (`RateLimiter.PolicyKeptExactlyWhen`). The amortised form, n seconds hold at most
  n * rate_limit + K items for K consumers, holds exactly when K + 2 <= rate_limit or the limit is at least a million
  (`RateLimiter.LimitKeptExactlyWhen`), as long as no pop takes the idle branch. That branch stores milliseconds as
  seconds; with present-day clocks it is then taken for ever (`RateLimiter.IdleForever`), and with such pops no limit
  below a million keeps even the amortised bound (`RateLimiter.AlwaysKeptExactlyWhen`).
* A caller of such a queue that took its item in time, but looks at the wake-up time when another has just closed the
  queue, sleeps all the same, and the longer the longer it had waited for its item (`RateLimiter.AwayUntil`).
* A timed pop of `TMapString` returns 0 without an item exactly when a push has woken it and its key is missing as it
  gets the lock back (`KeyedMap.FalseSuccessExactlyWhen`).
* Inserting a session over a live descriptor leaves its old id in the index for good; the two maps are inverse
  exactly when that never happened (`SessionTable.SessionsAndIds`), and behind the reactor it never does
  (`SessionServer.ServerKeepsTable`). A new session is in the table before its handler is in the reactor
  (`SessionServer.SessionBeforeHandler`), and this is the only way for a session to be without one.
* A session whose last access lies ahead of the clock, as when that has been set back, counts as idle
  (`SessionTable.CheckTakes`).
* Base64 decoding loses the digits `+` and `/`, for lack of `break`, and beyond 256 groups the last group, whose
  index is held in eight bits. `Base64.RoundTrip` says exactly when decoding gives the input back, and that it
  always does as the code is meant.
* ElGamal decryption gives the empty message for a key that is 0 modulo p (`ElGamal.RoundTripExactlyWhen`).
* A BOOLEAN survives DER encoding only if it is 0 or 255 (`Der.RoundTrip`).
* A thread released by `ThreadMeet` can return before as many calls as the last `Reset` asked for, exactly in the runs
  where a `Reset` to a positive maximum overtakes a released call (`ThreadMeet.EarlyReturnExactlyWhen`,
  `ThreadMeet.EarlyReturn`); and a `Reset` to zero strands those that wait (`ThreadMeet.NobodyIsStuck`). As written,
  where `src/ThreadMeet.cpp:23` and `:93` assign a parameter to itself, it is right up to the first `Reset`
  (`ThreadMeet.SameUntilReset`), which then asks for whatever number the memory held (`ThreadMeet.WrittenQuota`).
* The path look-up of `XMLParser` follows the first matching child only; it finds all there is exactly when that
  child has no rivals (`XmlLookup.LookupIsPrefix`).

## Model

| member | source | states |
|---|---|---|
| RateLimiter.StepCounts | src/TVector.h:70-98 | away from the idle branch, a pop adds one to the counter unless it reaches the limit, which takes exactly rate_limit off and moves the wake-up time to the next second; no other step touches either |
| RateLimiter.PopLeaves | src/TVector.h:70-98 | for every limit and state: what a pop leaves of wake-up time and counter, with the microseconds, the two seconds of the idle branch and the 32 bits of the counter written out |
| RateLimiter.AwayUntil | src/TVector.h:54-111 | whatever other consumers do between a pop and the look at the wake-up time: the exact time until which the caller is away, its sleep being measured from the pop in the closed time, from the new wake-up time for the pop that reaches the limit, and else from the call |
| RateLimiter.SleepsToWakeUp | src/TVector.h:94-108 | who pops in the closed time is away up to the wake-up time plus what passed since the pop, however long ago the call was, and who reaches the limit does not sleep |
| RateLimiter.StepKeepsInv | src/TVector.h:54-111 | while the queue is closed, the counter never exceeds the number of consumers that cannot pop before the wake-up time |
| RateLimiter.RunCounts | src/TVector.h:70-98 | conservation over whole runs: the counter is the pops made less rate_limit for every time the limit was reached |
| RateLimiter.CloseTimes | src/TVector.h:85-91 | the limit is reached at most once in every clock second |
| RateLimiter.WindowBound | src/TVector.h:54-111 | from any state a run can reach, n clock seconds hold at most n * rate_limit + K pops |
| RateLimiter.RateBound | src/TQueue.h:52-111 | the same for any stretch of any run of a new queue, with K + 2 <= rate_limit, strictly increasing readings and no early wake-up |
| RateLimiter.Reach | src/TVector.h:74-97 | a pop exactly at the wake-up time is not held against the limit, so that the limit is reached after two pops at least |
| RateLimiter.CrowdedSeconds | src/TVector.h:54-111 | with rate_limit <= K + 1 and below a million, from a closed queue on, a run in which each of any number of consecutive seconds holds exactly rate_limit + 1 pops |
| RateLimiter.PopsFit | src/TVector.h:67-74 | with strictly increasing readings n seconds hold at most a million pops each, whatever the limit |
| RateLimiter.LimitKeptExactlyWhen | src/TVector.h:54-111 | for every limit and number of consumers, and queues made at any time: the amortised bound holds in all runs without idle pops if and only if K + 2 <= rate_limit or rate_limit >= 1000000 |
| RateLimiter.PolicyKeptExactlyWhen | src/TVector.h:14 | the documented policy holds in all runs without idle pops if and only if rate_limit >= 1000000 |
| RateLimiter.PolicyExceeded | src/TVector.h:14 | from any second on, a run in which one second holds rate_limit + K pops: the amortised bound is attained |
| RateLimiter.IdleForever | src/TVector.h:75-82 | once the idle branch has been taken, every later pop takes it and no caller is ever put to sleep |
| RateLimiter.IdleBreaksLimit | src/TQueue.h:75-80 | a queue of any number of consumers left alone for two seconds lets one of them pop at every microsecond of as many seconds as it likes, whatever the limit |
| RateLimiter.AlwaysKeptExactlyWhen | src/TVector.h:75-82 | once idle pops are allowed, the amortised bound holds in all runs if and only if rate_limit >= 1000000, however many consumers there are |
| BoundedQueue.RateLimitedQueue.Push | src/TVector.h:176-190 | refuses exactly when more than max_size items are there and otherwise appends, as the monitor's push |
| BoundedQueue.RateLimitedQueue.TakeFront | src/TVector.h:65-98 | takes the first item and nothing else, as the monitor's pop, and updates the limiter as the rate theorems do; the reading it keeps is the one that the sleep theorems measure from |
| BoundedQueue.RateLimitedQueue.SleepTime | src/TVector.h:100-108 | a caller that sleeps wakes exactly at the wake-up time |
| BoundedQueue.PushAccepts | src/TVector.h:176-190 | a push returns 0, appends and wakes everybody if and only if there is no bound or at most max_size items are there, and else returns -1 and changes nothing |
| BoundedQueue.PopTakes | src/TVector.h:54-131 | a pop that gets the lock takes the first item if there is one, whatever it was woken by; on an empty queue it waits, but for a timed one that has waited |
| BoundedQueue.WaitEnds | src/TVector.h:113-131 | a timed wait that runs out makes its thread look once more and changes nothing else |
| BoundedQueue.HistoryKeepsSound | src/TQueue.h:52-191 | every action of any thread keeps: popped followed by queued items are the accepted ones in order, at most max_size + 1 are queued, and nobody is blocked while an item is there |
| BoundedQueue.QueueIsFifo | src/TQueue.h:52-191 | the same in every interleaving from the empty queue on |
| KeyedMap.Begin | src/TMapString.h:113-114 | the first key of the map is below all others in lexicographic order |
| KeyedMap.BelowExactly | src/TMapString.h:113-114 | the order of keys is that of strings: a proper prefix, or less at the first place where they differ |
| KeyedMap.TMapString.Push | src/TMapString.h:120-129 | an item is stored under a free key, and one that is there is not replaced |
| KeyedMap.TMapString.Take | src/TMapString.h:76-83 | the item under the key, which is then gone, or nothing |
| KeyedMap.TMapString.PopByKey | src/TMapString.h:40-65 | the locked stretch of the keyed pop: takes the item under the key if there is one, waits on an empty map, and else reports -2 |
| KeyedMap.TMapString.PopByKeyTimed | src/TMapString.h:70-93 | one turn of the timed pop: takes the item under the key if there is one, and else waits once and then returns what the wait returned |
| KeyedMap.TMapString.PopFront | src/TMapString.h:101-116 | waits on an empty map, and else takes the item under the smallest key and no other |
| KeyedMap.AttemptConserves | src/TMapString.h:36-118 | a stretch of any pop takes at most one item and changes nothing under other keys |
| KeyedMap.ActKeeps | src/TMapString.h:36-129 | every action keeps: under each key the items accepted are those handed out, in order, and the one still there; a thread blocked in the timed pop misses its key, one blocked in another pop finds the map empty; every code returned is 0 exactly with an item, but for a timed pop that a push has woken without its key |
| KeyedMap.MapIsSound | src/TMapString.h:36-129 | the same in every interleaving from the empty map on |
| KeyedMap.PopTakes | src/TMapString.h:36-118 | every call or resumption of a pop whose key is in the map removes exactly that key and returns 0 with its item, whatever woke it; a pop_front on a map with items does so with the least key; what is returned, or that it waits, in every other case |
| KeyedMap.NotFoundExactlyWhen | src/TMapString.h:53-58 | -2 is reported if and only if a keyed pop finds other items but not its key |
| KeyedMap.WhoWakes | src/TMapString.h:70-129 | a push wakes exactly those who wait, a wait that runs out ends as such, and a push adds its item just if the key is free |
| KeyedMap.FalseSuccessExactlyWhen | src/TMapString.h:85-91 | a pop returns 0 without an item if and only if it is a timed one that resumes after a push, not after its time, and finds its key missing |
| KeyedMap.FalseSuccess | src/TMapString.h:85-91 | a run in which that happens |
| ThreadMeet.MeetingPoint.constructor | src/ThreadMeet.cpp:18-23 | asks for at least one thread; the stored maximum is the same as meant, and as written what the memory held |
| ThreadMeet.MeetingPoint.Meet | src/ThreadMeet.cpp:38-77 | counts one arrival, and tells whether the caller passes, wakes the others or waits |
| ThreadMeet.MeetingPoint.Reset | src/ThreadMeet.cpp:79-86 | as many arrivals are missing as the stored maximum, as in the state machine |
| ThreadMeet.MeetingPoint.SetMaxcount | src/ThreadMeet.cpp:89-96 | changes the stored maximum as meant, and nothing as written |
| ThreadMeet.StepKeeps | src/ThreadMeet.cpp:38-86 | the count is what is missing of the quota, and no thread that waits without limit is released before it is met |
| ThreadMeet.NoEarlyRelease | src/ThreadMeet.cpp:34-77 | in every run, each untimed call is released only after as many calls as the last Reset asked for |
| ThreadMeet.EarlyReturnExactlyWhen | src/ThreadMeet.cpp:34-86 | for all runs: an untimed call can return before as many calls as the last Reset asked for if and only if a Reset to a positive maximum has overtaken a released call |
| ThreadMeet.EarlyReturn | src/ThreadMeet.cpp:79-86 | a run in which an untimed call returns with no arrival since the last Reset |
| ThreadMeet.SameUntilReset | src/ThreadMeet.cpp:18-77 | up to the first Reset the code as written does what is meant, in every run |
| ThreadMeet.WrittenQuota | src/ThreadMeet.cpp:79-96 | from the first Reset on the code as written waits for as many calls as the memory of the object happened to hold |
| ThreadMeet.StuckExactly | src/ThreadMeet.cpp:38-96 | a thread waits while the count is zero exactly in those runs where a Reset to zero finds threads waiting |
| ThreadMeet.NobodyIsStuck | src/ThreadMeet.cpp:38-86 | so never as long as nobody sets the maximum to zero, and as written as long as the memory did not hold zero |
| ThreadMeet.MeetingIsExact | src/ThreadMeet.cpp:18-96 | as meant, with the number asked for and the calls made read off the events alone: a thread waits only while fewer calls have been made since the latest Reset than that asked for, unless a Reset to zero has stranded it |
| ThreadMeet.StepMoves | src/ThreadMeet.cpp:38-77 | who waits and who is released by each call, each end of a timed wait and each return |
| ThreadMeet.NobodyIsLost | src/ThreadMeet.cpp:34-77 | in every run the threads that have called and not returned are those waiting and those released, and none is both |
| SessionTable.UidNumber | src/SessionMgt/SessionMgt.cpp:48-54 | the running number can be read off a generated id whatever the address before it, so ids with different numbers differ as strings |
| SessionTable.SessionMgt.GenUid | src/SessionMgt/SessionMgt.cpp:48-54 | the id carries the next number of the 64-bit counter |
| SessionTable.SessionMgt.InsertSession | src/SessionMgt/SessionMgt.cpp:56-83 | a new record under the descriptor, and the id, address_port_second_number, leading back to it |
| SessionTable.SessionMgt.RemoveSession | src/SessionMgt/SessionMgt.cpp:85-103 | the session and its id are gone, and all others are as they were |
| SessionTable.SessionMgt.GetFd | src/SessionMgt/SessionMgt.cpp:121-134 | finds exactly the ids in the index |
| SessionTable.SessionMgt.UpdateSessionRead | src/SessionMgt/SessionMgt.cpp:153-170 | only a session that is up gets its access time and counter renewed |
| SessionTable.SessionMgt.SetSessionClientId | src/SessionMgt/SessionMgt.cpp:191-212 | changes the client of exactly the session the id leads to |
| SessionTable.SessionMgt.GetSessionClientId | src/SessionMgt/SessionMgt.cpp:214-236 | reads the client of that session, and leaves the output alone if there is none |
| SessionTable.SessionMgt.SetThenGet | src/SessionMgt/SessionMgt.cpp:191-236 | the number that is set is read back by the same id, whenever that leads to a session |
| SessionTable.SessionMgt.CheckSessions | src/SessionMgt/SessionMgt.cpp:242-290 | erasing on the way through the map removes exactly the sessions idle for more than 60 seconds, with their ids |
| SessionTable.CheckTakes | src/SessionMgt/SessionMgt.cpp:242-290 | after a check a session is there, unchanged and with its id, if and only if it was heard of in the last 60000000 microseconds; of the others neither session nor id is left |
| SessionTable.LifeBegins | src/SessionMgt/SessionMgt.cpp:56-83 | an insertion begins a life that nothing else shares: up, heard of now, nothing read or written, no client |
| SessionTable.LivesOn | src/SessionMgt/SessionMgt.cpp:85-290 | whatever happens to other sessions: one that is heard of at least every 60 seconds is never taken by a check, and holds the sums of what was read and written modulo 2^64, the time it was last heard of and the client last set |
| SessionTable.ApplyKeeps | src/SessionMgt/SessionMgt.cpp:56-290 | every operation keeps each session's id leading back to its descriptor; an id becomes stale only by an insertion over a live session, and stays so |
| SessionTable.RunKeepsTable | src/SessionMgt/SessionMgt.cpp:56-290 | over any sequence of operations there are as many new stale ids as insertions over live sessions |
| SessionTable.SessionsAndIds | src/SessionMgt/SessionMgt.cpp:48-103 | for any sequence from the empty table: each session's id finds its descriptor, and the two maps are inverse if and only if no live session was overwritten |
| Reactor.TcpReactor.Svc | src/TcpReactor.cpp:189-278 | a round handles the ready list in order |
| Reactor.TcpReactor.HandleEvent | src/TcpReactor.cpp:200-270 | at most one kind of readiness is served per event; an accept that fails registers nothing, an input that fails closes and unregisters |
| Reactor.DispatchKeepsInv | src/TcpReactor.cpp:189-278 | every event keeps: each handler made is either registered under the one descriptor it was accepted on or has seen its last callback |
| Reactor.EventReaches | src/TcpReactor.cpp:198-276 | every event reaches exactly the handler that was accepted on its descriptor and not closed: output before input before priority, a failing input followed by the close; an accept makes one new handler; nobody else is called |
| Reactor.Lifecycles | src/TcpReactor.cpp:189-278 | over any events, each handler sees one accept, then traffic on the same descriptor, then at most one close, then nothing, and is registered until that close |
| Reactor.RoundIsRun | src/TcpReactor.cpp:189-278 | the rounds of the event loop are runs of that kind |
| SessionServer.StepsAreDispatch | src/TcpReactor.cpp:198-276 | the steps of an event make up what the reactor's model does in one |
| SessionServer.RunsOfReactor | src/TcpReactor.cpp:189-278 | whatever other threads do in between, every run is one of the reactor's up to the event in hand, so that the lives of handlers carry over |
| SessionServer.ElsewhereKeeps | src/SessionMgt/SessionMgt.cpp:136-290 | a call from another thread, the timer's check among them, keeps the maps inverse and adds no session |
| SessionServer.CalledKeeps | src/SessionMgt/SessionMgt.h:19-20 | so does a callback of a handler that follows the contract, which adds the accepted descriptor or removes the closed one |
| SessionServer.AdvanceKeepsInv | src/TcpReactor.cpp:189-260 | the invariant over single steps: each callback, each update of the handler map and each call from another thread, in any order |
| SessionServer.ServerKeepsTable | src/SessionMgt/SessionMgt.cpp:242-290 | in every interleaving, also in the middle of an event, the two maps are inverse, and each session's descriptor has a handler or is the one being accepted; all of them have one if and only if no accepted descriptor with a session is waiting for its handler to be registered |
| SessionServer.SessionBeforeHandler | src/TcpReactor.cpp:228-237 | between handle_accept and the insertion of the handler there is a session without one |
| SessionServer.SessionsAreConnections | src/SessionMgt/SessionMgt.h:16-22 | as long as no check runs, descriptors with a handler and with a session are the same whenever no event is in hand |
| SessionServer.TableOfRun | src/SessionMgt/SessionMgt.h:19-20 | the table of every run is what the operations of its callbacks and of other threads make of it, in order |
| SessionServer.ConnectionLives | src/SessionMgt/SessionMgt.cpp:153-290 | in every interleaving a connection that is not closed and is heard of at least every 60 seconds keeps its session |
| ConnPool.PlacesExact | src/ConnMgt/ConnMgtLB.cpp:57-79 | the places still ahead on the way round are the open ones, in order |
| ConnPool.ChoicesFrom | src/ConnMgt/ConnMgtLB.cpp:42-84 | consecutive calls pick the open connections ahead of the cursor one after the other |
| ConnPool.RoundRobin | src/ConnMgt/ConnMgtLB.cpp:42-84 | with m open connections, any m consecutive calls pick each exactly once, from any cursor |
| ConnPool.ConnMgtLB.GetConn | src/ConnMgt/ConnMgtLB.cpp:42-84 | succeeds exactly when some connection is open, picks the first open one from the cursor on going round, and probes at most size() of them, for any cursor left behind |
| ConnPool.ConnMgtLB.Scan | src/ConnMgt/ConnMgtLB.cpp:57-82 | the loop ends after one time round, with the cursor behind the pick or where it was |
| ConnPool.ReconciledIsWanted | src/ConnMgt/ConnMgtLB.h:73-135 | from a pool without duplicates exactly the wanted addresses with ports remain, once each, survivors first and in order, and doing it again changes nothing |
| ConnPool.KeptMembers | src/ConnMgt/ConnMgtLB.h:77-104 | the survivors are exactly the members whose endpoint is wanted |
| ConnPool.ExtendedMembers | src/ConnMgt/ConnMgtLB.h:107-133 | adding keeps the pool as a prefix, makes no duplicate and covers every server |
| ConnPool.ConnMgtLB.Refresh | src/ConnMgt/ConnMgtLB.h:73-135 | the pool becomes the reconciled one: its addresses with ports are those of the servers, once each; an old connection stays, as the same object and in order, exactly if its address and port are wanted, the others are closed, the rest are new |
| ConnPool.ConnMgtLB.Retire | src/ConnMgt/ConnMgtLB.h:77-104 | erasing on the way through the list keeps exactly the wanted connections and closes exactly the others |
| ConnPool.ConnMgtLB.Examine | src/ConnMgt/ConnMgtLB.h:80-102 | an unwanted connection is closed and erased, and no other changes |
| ConnPool.ConnMgtLB.HasConn | src/ConnMgt/ConnMgtLB.h:109-119 | whether some connection has that address and port |
| Base64.SextetsJoin | src/Base64.cpp:105-108 | the shifts cut three octets into sextets that stand for the same 24 bits |
| Base64.DigitsOfAlphabet | src/Base64.cpp:11 | the digits are the characters of the literal alphabet, in order, and the decoder as meant reads each back |
| Base64.AlphabetExact | src/Base64.cpp:14-29 | the decoder lets through those characters and the equals sign, and no others |
| Base64.GroupDigits | src/Base64.cpp:99-109 | four digits that stand for the 24 bits of the group |
| Base64.LastDigits | src/Base64.cpp:111-142 | the last group, with '=' for exactly the digits that carry no input bit |
| Base64.Encrypt | src/Base64.cpp:84-148 | the text that section 4 of RFC 4648 defines, and a terminating zero |
| Base64.EncodingIsUnique | src/Base64.cpp:84-148 | that definition leaves one text for each input, of 4 * ceil(len / 3) characters |
| Base64.EncodingAccepted | src/Base64.cpp:158-173 | every encoding passes the length and alphabet checks of the decoder |
| Base64.SearchStr | src/Base64.cpp:65-81 | the bool counter: one if there is any '=' and else zero |
| Base64.Shift | src/Base64.cpp:217-224 | the shifts put four digits together into octets that stand for the same 24 bits |
| Base64.Decrypt | src/Base64.cpp:154-262 | -1 for an incomplete group, -2 for a foreign character, never -3, and otherwise a buffer that holds group by group the bits of the digits |
| Base64.FillLast | src/Base64.cpp:227-256 | where the index of the last group is cut, an earlier group is rewritten with the same octets and the last one stays zero |
| Base64.LossySame | src/Base64.cpp:48-58 | the number of a group survives exactly when it has neither '+' nor '/' |
| Base64.GroupReturns | src/Base64.cpp:214-256 | exactly which groups come back |
| Base64.RoundTrip | src/Base64.cpp:84-262 | decoding an encoding gives the input and then only zeros: always as intended, and as written if and only if there is no '+' or '/' in the text and there are at most 256 groups or the last is all zero |
| Base64.DecodedLength | src/Base64.cpp:187-212 | the length of the decoded buffer; behind one octet more than whole groups it holds a zero too many |
| StringSplit.Split | src/StringUtils.h:57-77 | at most maxSegments pieces that join to the input, the delimiter only in the last piece and only if the bound was reached; the result counts them |
| StringSplit.SplitIsUnique | src/StringUtils.h:41-56 | there is only one such split |
| StringSplit.RunsAreMaximal | src/StringUtils.cpp:109-138 | the stretches found are the maximal runs without separators, all of them, from left to right |
| StringSplit.TokensAreRuns | src/StringUtils.cpp:124-130 | the tokens are those runs |
| StringSplit.Tokenize | src/StringUtils.cpp:109-138 | all tokens, or the first num if num is positive; none for an empty separator list |
| StringSplit.TokensOfJoined | src/StringUtils.cpp:109-138 | tokens joined by a separator are found again |
| XmlLookup.FirstAttribute | src/XMLParser.cpp:280-290 | of attributes with one name the first counts |
| XmlLookup.NodeCarries | src/XMLParser.cpp:271-293 | a node has the text of its element, or none, and each attribute name with its first value |
| XmlLookup.XMLParser.CreateNode | src/XMLParser.cpp:271-293 | appends the text and the attributes of an element |
| XmlLookup.XMLParser.GetNode | src/XMLParser.cpp:179-265 | finds what the look-up defines, and returns 0 exactly when that is not empty, else the code of the first thing that is wrong |
| XmlLookup.XMLParser.GetNodes | src/XMLParser.cpp:130-144 | the same for the parts of the path between slashes and backslashes |
| XmlLookup.LookupIsPrefix | src/XMLParser.cpp:213-250 | what is found comes first among all elements the path leads to, and is all of them if and only if no first matching child has a rival below which something is found |
| XmlLookup.SearchLeads | src/XMLParser.cpp:213-250 | the full search gives the nodes of exactly the elements that the names of the path lead to |
| XmlLookup.FoundLeads | src/XMLParser.cpp:179-265 | each node found has the text and attributes of an element that the path leads to; when each of the codes -1 to -4 and 0 is returned |
| RsaChunks.Encrypt | src/Cryptopp.cpp:485-546 | the blocks' ciphertexts one behind the other; nothing at all if one block fails |
| RsaChunks.Decrypt | src/Cryptopp.cpp:551-589 | the plaintexts of all whole blocks; nothing if one fails |
| RsaChunks.RoundTrip | src/Cryptopp.cpp:485-589 | for every text, 256 * ceil(length / 86) characters that decrypt to it, also with an incomplete block behind them |
| RsaChunks.EncryptsExactlyWhen | src/Cryptopp.cpp:485-546 | encryption succeeds if and only if every block of 86 octets, and the rest, does |
| RsaChunks.DecryptsExactlyWhen | src/Cryptopp.cpp:551-589 | decryption succeeds if and only if every whole block of 256 characters does |
| RsaChunks.BlocksInOrder | src/Cryptopp.cpp:485-546 | the ciphertexts stand in the order of the blocks, each made with its own random seed |
| GfpSignatures.CascadeIsPower | 3rdparty/cryptopp/include/cryptopp/gfpcrypt.h:209 | g^u * (g^x)^v is g^k for every k congruent to u + x*v modulo q |
| GfpSignatures.GdsaSign | 3rdparty/cryptopp/include/cryptopp/gfpcrypt.h:190-197 | numbers below q that satisfy k*s = x*r + e modulo q |
| GfpSignatures.GdsaVerify | 3rdparty/cryptopp/include/cryptopp/gfpcrypt.h:199-210 | decides acceptance, with all range checks |
| GfpSignatures.NonceUnique | 3rdparty/cryptopp/include/cryptopp/gfpcrypt.h:194-195 | the signature equation has one solution for the nonce |
| GfpSignatures.GdsaRecoversNonce | 3rdparty/cryptopp/include/cryptopp/gfpcrypt.h:205-209 | the verifier works out g to the nonce without the key |
| GfpSignatures.GdsaAcceptsExactly | 3rdparty/cryptopp/include/cryptopp/gfpcrypt.h:190-210 | accepted are exactly the pairs in range that satisfy the signature equation for some nonce |
| GfpSignatures.GdsaSignThenVerify | 3rdparty/cryptopp/include/cryptopp/gfpcrypt.h:190-210 | a signature is accepted if and only if r and s are not zero, for all keys, nonces and messages |
| GfpSignatures.NrSign | 3rdparty/cryptopp/include/cryptopp/gfpcrypt.h:226-232 | numbers below q with s + x*r = k modulo q |
| GfpSignatures.NrVerify | 3rdparty/cryptopp/include/cryptopp/gfpcrypt.h:234-242 | decides acceptance, with all range checks and also for the negative s that they let through |
| GfpSignatures.NrAcceptsExactly | 3rdparty/cryptopp/include/cryptopp/gfpcrypt.h:226-242 | accepted are exactly the pairs in range that satisfy the signature equation for some nonce |
| GfpSignatures.NrSignThenVerify | 3rdparty/cryptopp/include/cryptopp/gfpcrypt.h:226-242 | a signature is accepted if and only if r is not zero |
| KeyAgreement.CombineIsPower | 3rdparty/cryptopp/include/cryptopp/hmqv.h:206-235 | (X * A^d)^s with all its reductions is g^((x + d*a) * (y + e*b)) |
| KeyAgreement.MqvDomain.GenerateStaticPrivateKey | 3rdparty/cryptopp/include/cryptopp/hmqv.h:79-83 | the buffer holds the exponent in as many octets as q has |
| KeyAgreement.MqvDomain.GenerateStaticPublicKey | 3rdparty/cryptopp/include/cryptopp/hmqv.h:87-94 | the buffer holds g to the exponent the private key stands for |
| KeyAgreement.MqvDomain.GenerateEphemeralPrivateKey | 3rdparty/cryptopp/include/cryptopp/hmqv.h:100-107 | the exponent, and behind it the public key that belongs to it |
| KeyAgreement.MqvDomain.GenerateEphemeralPublicKey | 3rdparty/cryptopp/include/cryptopp/hmqv.h:110-114 | the second part of the private key |
| KeyAgreement.MqvDomain.Agree | 3rdparty/cryptopp/include/cryptopp/hmqv.h:125-243 | succeeds exactly if both elements of the other party are valid, then writes the octets derived for its role, and else nothing |
| KeyAgreement.MqvDomain.Hash | 3rdparty/cryptopp/include/cryptopp/hmqv.h:249-289 | fills any length with the hash, the hash of that and so on |
| KeyAgreement.PublicKeyValue | 3rdparty/cryptopp/include/cryptopp/hmqv.h:87-94 | an encoded public key stands for g to the exponent |
| KeyAgreement.ServerSigma | 3rdparty/cryptopp/include/cryptopp/hmqv.h:206-220 | the server reaches the common element from its own exponents |
| KeyAgreement.ClientSigma | 3rdparty/cryptopp/include/cryptopp/hmqv.h:221-235 | the client reaches the same element from its own |
| KeyAgreement.PartiesAgree | 3rdparty/cryptopp/include/cryptopp/fhmqv.h:126-240 | for both variants, client and server derive the same octets, and these are the ones written out below |
| KeyAgreement.CommonIsAgreed | 3rdparty/cryptopp/include/cryptopp/hmqv.h:189-266 | the stretched hash of the shortest octets for g^((x + d*a) * (y + e*b)) modulo p, with X, Y, A and B behind them for FHMQV; d and e are the stretched hashes, half as long as q, of X and B and of Y and A, and for FHMQV of all four keys |
| KeyAgreement.SameInputSameElement | 3rdparty/cryptopp/include/cryptopp/hmqv.h:263-266 | equal inputs of the last hash come from equal elements |
| KeyAgreement.StretchAt | 3rdparty/cryptopp/include/cryptopp/hmqv.h:271-288 | the blocks of the stretched hash are the digest of the message, the digest of that and so on |
| KeyAgreement.GenerateThenAgree | 3rdparty/cryptopp/include/cryptopp/hmqv.h:79-243 | both parties make their keys, exchange the public ones and agree: each succeeds exactly if the elements of the other pass at level 3, or 1 for a static key not to be validated, and whenever both do, their buffers are equal and hold the octets written out above |
| ElGamal.SymmetricEncrypt | 3rdparty/cryptopp/include/cryptopp/elgamal.h:54-66 | the ciphertext buffer holds the padded block times the key modulo p |
| ElGamal.SymmetricDecrypt | 3rdparty/cryptopp/include/cryptopp/elgamal.h:68-86 | the message and its length, or failure for a wrong length on either side |
| ElGamal.BlockLayout | 3rdparty/cryptopp/include/cryptopp/elgamal.h:60-63 | the block is below the modulus, its last octet is the length and the message stands before it |
| ElGamal.KeyCancels | 3rdparty/cryptopp/include/cryptopp/elgamal.h:77 | the inverse of the key undoes the multiplication |
| ElGamal.DecryptInvertsEncrypt | 3rdparty/cryptopp/include/cryptopp/elgamal.h:54-86 | every message up to the maximum length comes back, for every pad and every key not 0 modulo p |
| ElGamal.ZeroKeyLosesMessage | 3rdparty/cryptopp/include/cryptopp/elgamal.h:65-79 | a key that is 0 modulo p turns every message into the empty one |
| ElGamal.RoundTripExactlyWhen | 3rdparty/cryptopp/include/cryptopp/elgamal.h:46-86 | for every message of at most 255 octets that is three octets shorter than the modulus: the round trip holds if and only if the key is not 0 modulo p or the message is empty |
| ElGamal.RefusesExactlyWhen | 3rdparty/cryptopp/include/cryptopp/elgamal.h:68-86 | decryption fails if and only if the ciphertext has another length than the modulus or the last octet of the block claims a message that has no room |
| Der.ContentUnique | 3rdparty/cryptopp/include/cryptopp/asn.h:453-460 | a number has one string of contents octets that is non-negative and minimal |
| Der.Minimal | 3rdparty/cryptopp/include/cryptopp/asn.h:456-460 | the octets kept are non-negative and minimal as section 8.3.2 of X.690 asks |
| Der.DEREncodeUnsigned | 3rdparty/cryptopp/include/cryptopp/asn.h:441-466 | tag, length and those contents octets, for every word size; the result counts the octets written |
| Der.Word | 3rdparty/cryptopp/include/cryptopp/asn.h:495-506 | skipping leading zeros refuses exactly the numbers that do not fit the word, and the shifts lose no bit |
| Der.BERDecodeUnsigned | 3rdparty/cryptopp/include/cryptopp/asn.h:477-510 | the number the contents stand for if it fits the word and the bounds, and an error in every other case |
| Der.RoundTrip | 3rdparty/cryptopp/include/cryptopp/asn.h:441-510 | decoding undoes encoding for every word and tag but BOOLEAN, under which every number but 0 comes back as 255; numbers out of bounds are refused |
| Der.DecodesExactlyWhen | 3rdparty/cryptopp/include/cryptopp/asn.h:477-510 | decoding succeeds if and only if the octets are that tag, a readable definite length and as many octets of a number that fits word and bounds, with anything behind them |
| Hkdf.DeriveKey | 3rdparty/cryptopp/include/cryptopp/hkdf.h:59-106 | refuses exactly more than 255 digests; otherwise fills the buffer with the output of section 2 of RFC 5869, a missing salt being zeros |
| Hkdf.Expand | 3rdparty/cryptopp/include/cryptopp/hkdf.h:86-102 | the loop yields the first octets of T(1), T(2) and so on, and its one-octet counter never wraps round |
| Hkdf.Round | 3rdparty/cryptopp/include/cryptopp/hkdf.h:88-90 | one turn yields the next T |
| Hkdf.OkmOfBlocks | 3rdparty/cryptopp/include/cryptopp/hkdf.h:86-102 | any number of blocks that covers the length gives the same output |
| Hkdf.OkmPrefix | 3rdparty/cryptopp/include/cryptopp/hkdf.h:86-102 | shorter outputs are prefixes of longer ones |
| Hkdf.Extracts | 3rdparty/cryptopp/include/cryptopp/hkdf.h:59-84 | the key for expansion is the keyed hash of the secret under the salt, or under zeros if there is none |
| Hkdf.OutputIsChained | 3rdparty/cryptopp/include/cryptopp/hkdf.h:59-106 | on the output itself: each block is the keyed hash of the block before, the info and a counter from 1 on |

## Left out

- Clock arithmetic is unbounded; the source's `long` is taken not to overflow, and `usleep` never to return early or
  to cut its argument. Failures of the condition variable calls are not modelled.
- The check of the wake-up time that a pop makes without the lock is one step; torn reads of it are not modelled.
- `TcpReactor::del_fd`, which another thread may call in the middle of a round, and the freeing of handlers.
- SessionServer.AdvanceKeepsInv: closing a descriptor and taking its handler out of the map are one step, since no
  other thread looks at either.
- Reactor.TcpReactor.HandleEvent: the handler's own code is its result only; a `handle_accept` that fails is taken
  not to insert a session.
- The close time that `SessionMgt::remove_session` writes into a record it then erases, and what `check` logs.
- ConnPool.ConnMgtLB.GetConn: the source takes its result by value, so that no caller sees it; the model returns the
  position of the connection.
- Reconnecting by the pool's timer, and the servers' other fields beside address and port.
- Base64.Decrypt: `src/Base64.cpp:189`, which measures a buffer that has no end yet, has no effect on the result and
  is left out; sizes beyond 32 bits are not wrapped round; and the empty input, for which the loops leave the
  buffers, is excluded.
- StringSplit.Tokenize: `strtok` stops at an embedded zero character, which the model treats like any other.
- Parsing of XML text, and `get_node` for a single node, which takes the first of those found.
- KeyAgreement.MqvDomain.Agree: `ValidateElement` is a parameter; its code is not part of this model, nor are the
  bodies of hash functions, HMAC, RSA-OAEP, the lengths of BER and the arithmetic of `Integer`, whose `%` is taken
  to give the non-negative remainder.
- GfpSignatures.NrVerify: what the exponentiation gives for a negative s is a parameter; that code is not part of this
  model.
- The random draw of exponents from [1, GetMaxExponent()]: the exponents are arguments, below q where the agreement
  needs it.
- ElGamal.SymmetricEncrypt: a modulus of fewer than three octets is excluded; the sizes the source computes then
  wrap round.
- Security of any scheme.
- The AES, DES and digest wrappers of `src/Cryptopp.cpp`, which hand one buffer to a library cipher or hash; the
  socket, UDP and thread wrappers, which hand their arguments to system calls; and logging and time formatting, which
  write text for people.
