# libxio core, modelled in Dafny

This project models the logic at the centre of chensoft/libxio, a C++
networking library, and proves properties of it. It covers:

- **DNS wire codec** (`DnsCodec`, dns_codec.dfy): the encoder is an append-only
  byte buffer with its name-compression cache. The decoder is a cursor
  between `beg` and `end`, moved by the fixed-size array unpack.
- **DNS header and question** (`DnsHeader`, dns_header.dfy):
  - the ten fields packed into the 16-bit flag word by clear-and-OR, laid out
    as in section 4.1.1 of RFC 1035 and section 6.1 of RFC 2535;
  - the 12-byte header encode and decode;
  - the question encode and decode.
- **epoll wrapper** (`BsdEpoll`, bsd_epoll.dfy):
  - the interest mask;
  - the raw-event classification;
  - `poll`, which fills the caller's cache and handles the wake-up eventfd.
- **epoll reactor** (`ReactorEpoll`, reactor_epoll.dfy): the callback store,
  the event type, the dispatch of one batch, and the `run` loop over poll
  results.
- **run loop** (`Runloop`, runloop.dfy):
  - the callback map and the per-batch event cache;
  - the invalidation of cached events when a descriptor is deleted while a
    batch is being dispatched;
  - the "no callback" error and the dispatch loop.
- **timer** (`EvTimer`, ev_timer.dfy): the one-shot and repeating
  configuration and the deadline comparator used to keep
  timers in a multiset.
- **JSON decoder**:
  - `Json` (json_spec.dfy) states the recursive-descent parser of `chen::json`
    as functions over the text and a cursor;
  - `JsonDecoder` (json_decoder.dfy) gives the parser as imperative methods that
    advance a cursor field, each proved equal to its function;
  - `JsonProps` (json_props.dfy) proves what the grammar promises: white
    space, full words, the number grammar of section 6 of RFC 8259 in both
    directions, string escapes and their round trip, and the rejection rules;
  - `JsonExamples` (json_examples.dfy) holds concrete documents.
- **IP address values** (`IpAddress`, ip_address.dfy, with text helpers in
  `AddressText`, address_text.dfy):
  - IPv4 as a 32-bit integer with a CIDR prefix, IPv6 as 16 bytes with a
    prefix;
  - the text forms (dotted decimal with shorthand, expanded, suppressed and
    compressed IPv6 per section 2.2 of RFC 4291) and their round trips;
  - the special-address predicates and the comparison operators.
- **endpoint** (`SoEndpoint`, so_endpoint.dfy): an address and a port, and
  the six comparison operators.

The operating system is the class `EpollKernel.Kernel` (epoll_kernel.dfy).
It holds:

- the epoll interest list, as a map from descriptor to event mask;
- a fixed map of descriptors whose `epoll_ctl` fails with a given errno;
- the eventfd counter.

`epoll_ctl` follows the Linux rules: ADD of a known descriptor is EEXIST,
MOD or DEL of an unknown one is ENOENT, and a negative descriptor is EBADF.
A wait result (ready events, timeout, or errno) is a parameter. The kernel
keeps only events for descriptors in the interest list and at most `max`
of them.

The `while (true)` loops of `runloop::run` and `reactor::run` take a finite
sequence of wait results. When the sequence runs out the model returns
`StillRunning`.

Failures that the source throws are `Err` values of a `Result`. The error
says which exception it stands for.

## Model

| member | source | states |
|---|---|---|
| DnsCodec.U16Bytes | include/socket/dns/dns_codec.hpp:78 | A 16-bit value is written as two bytes, high byte first, and the two bytes recombine to the value |
| DnsCodec.U16BytesInjective | include/socket/dns/dns_codec.hpp:78 | Different 16-bit values are written as different byte pairs |
| DnsCodec.TakeBytes | include/socket/dns/dns_codec.hpp:145-156 | Reading n bytes fails exactly when fewer than n remain before `end`, with the "not enough" error; otherwise it yields the n bytes at the cursor and a cursor n further on, never past `end` |
| DnsCodec.TakeU16 | include/socket/dns/dns_codec.hpp:136 | Reading a 16-bit value fails exactly when fewer than 2 bytes remain; otherwise the value is the one whose two bytes stand at the cursor |
| DnsCodec.ArrayRoundTrip | include/socket/dns/dns_codec.hpp:87-91 | Bytes packed into a buffer are read back unchanged from the offset where they were packed, whatever comes before and after them |
| DnsCodec.U16RoundTrip | include/socket/dns/dns_codec.hpp:78 | A packed 16-bit value is read back unchanged from its offset, and the cursor moves by 2 |
| DnsCodec.Encoder.PackArray | include/socket/dns/dns_codec.hpp:87-91 | `pack(std::array)` appends exactly the given bytes, in order, after the existing data; earlier bytes and the compression cache are unchanged |
| DnsCodec.Encoder.PackU16 | include/socket/dns/dns_codec.hpp:78 | `pack(uint16_t)` appends the value's two bytes and leaves the cache unchanged |
| DnsCodec.Decoder.constructor | include/socket/dns/dns_codec.hpp:112 | A new decoder's cursor is at `beg` |
| DnsCodec.Decoder.UnpackArray | include/socket/dns/dns_codec.hpp:145-156 | The array unpack fails exactly when fewer than N bytes remain, and then leaves the cursor where it was; otherwise it returns the N bytes at the cursor and advances it by exactly N; `beg` and `end` never move |
| DnsCodec.Decoder.UnpackU16 | include/socket/dns/dns_codec.hpp:136 | `unpack(uint16_t)` fails exactly when fewer than 2 bytes remain and then keeps the cursor; otherwise it agrees with `TakeU16` |
| DnsHeader.MaskShape | src/dns/dns_header.cpp:88-126 | QR and the AA…CD flags each own the single bit at their position; opcode and rcode own four bits from theirs |
| DnsHeader.MasksDisjoint | src/dns/dns_header.cpp:129-177 | Masks of different fields share no bit |
| DnsHeader.MasksCover | src/dns/dns_header.cpp:78-126 | Together the ten masks cover all sixteen bits of the flag word |
| DnsHeader.Assign | src/dns/dns_header.cpp:129-177 | A setter keeps every bit outside its mask and puts `(value << pos) & mask` under it |
| DnsHeader.AssignKeepsOthers | src/dns/dns_header.cpp:139-172 | Setting one field leaves the getter of every other field returning what it returned before |
| DnsHeader.AssignKeepsMasked | src/dns/dns_header.cpp:129-177 | Setting one field leaves the bits under every other field's mask unchanged |
| DnsHeader.BitRoundTrip | src/dns/dns_header.cpp:88-121 | After a boolean setter, its getter returns the value that was set |
| DnsHeader.FieldReadBack | src/dns/dns_header.cpp:78-86 | After `opcode`/`rcode(v)`, the getter returns `(v << pos) & mask`, still in place and not shifted back; for rcode, at position 0, that is `v` exactly when `v < 16` |
| DnsHeader.OpcodeReadsShifted | src/dns/dns_header.cpp:83-86 | After `opcode(2)` the getter returns 0x1000, not 2 |
| DnsHeader.DecodeHeaderAt | src/dns/dns_header.cpp:201-234 | Header decode succeeds exactly when 12 bytes remain, and then consumes exactly 12 |
| DnsHeader.UnpackThree | src/dns/dns_header.cpp:204-213 | Three consecutive 16-bit unpacks fail or succeed together, with the values and cursor of reading three values in order |
| DnsHeader.DecodeThenEncode | src/dns/dns_header.cpp:180-234 | Encoding a decoded header gives back exactly the 12 bytes it was decoded from |
| DnsHeader.HeaderBytesInjective | src/dns/dns_header.cpp:180-199 | Different headers encode to different bytes |
| DnsHeader.HeaderRoundTrip | src/dns/dns_header.cpp:180-234 | Decoding at the offset where a header was encoded gives back the same six fields and moves the cursor by 12 |
| DnsHeader.Header.SetId | src/dns/dns_header.cpp:47-50 | `id(value)` overwrites the id only |
| DnsHeader.Header.SetFlag | src/dns/dns_header.cpp:52-55 | `flag(value)` overwrites the flag word only |
| DnsHeader.Header.SetQdcount | src/dns/dns_header.cpp:57-60 | `qdcount(value)` overwrites that count only |
| DnsHeader.Header.SetAncount | src/dns/dns_header.cpp:62-65 | `ancount(value)` overwrites that count only |
| DnsHeader.Header.SetNscount | src/dns/dns_header.cpp:67-70 | `nscount(value)` overwrites that count only |
| DnsHeader.Header.SetArcount | src/dns/dns_header.cpp:72-75 | `arcount(value)` overwrites that count only |
| DnsHeader.Header.SetCode | src/dns/dns_header.cpp:129-177 | `qr`/`opcode`/`rcode(value)` change only the bits under the field's mask, as `Assign` says; the matching getter `qr()`/`opcode()`/`rcode()` (lines 78-86 and 123-127) then returns `(value << pos) & mask` |
| DnsHeader.Header.SetBit | src/dns/dns_header.cpp:139-172 | A boolean setter changes only its own bit, and the matching getter (`authoritative()` … `checkingDisabled()`, lines 88-121) then returns the value set |
| DnsHeader.Header.Encode | src/dns/dns_header.cpp:180-199 | `encode` appends id, flag, qdcount, ancount, nscount and arcount in that order (12 bytes) and leaves the cache unchanged |
| DnsHeader.Header.Decode | src/dns/dns_header.cpp:201-234 | `decode` succeeds exactly when 12 bytes remain, and then sets all six fields to the values read and advances the cursor by 12; when it fails, the header is unchanged |
| DnsHeader.DecodeQuestionAt | src/dns/dns_header.cpp:301-319 | Question decode never moves the cursor backwards or past `end` |
| DnsHeader.QuestionRoundTrip | src/dns/dns_header.cpp:289-319 | Where the name codec reads back the name it wrote, decoding at the offset where a question was encoded gives back the same name, type and class |
| DnsHeader.Question.constructor | src/dns/dns_header.cpp:245-249 | The constructor stores the three fields given |
| DnsHeader.Question.SetQname | src/dns/dns_header.cpp:268-276 | `qname(value)` overwrites the name only |
| DnsHeader.Question.SetQtype | src/dns/dns_header.cpp:278-281 | `qtype(value)` overwrites the type only |
| DnsHeader.Question.SetQclass | src/dns/dns_header.cpp:283-286 | `qclass(value)` overwrites the class only |
| DnsHeader.Question.Encode | src/dns/dns_header.cpp:289-299 | `encode` appends the name as the domain codec writes it, then the type, then the class; since the name writer is a pure parameter, the compression cache is unchanged |
| DnsHeader.Question.Decode | src/dns/dns_header.cpp:301-319 | `decode` reads name, type and class in that order and assigns them only when all three succeed; a failure leaves the question unchanged |
| BsdEpoll.ModeBits | src/bsd/bsd_epoll.cpp:47-51 | IN is set exactly when the read opcode bit is, OUT exactly when the write bit is, and nothing else |
| BsdEpoll.Interest | src/bsd/bsd_epoll.cpp:45-54 | The interest mask always has RDHUP and every bit of the caller's flag |
| BsdEpoll.InterestReadWrite | src/bsd/bsd_epoll.cpp:47-53 | IN is in the interest exactly when the read opcode or the flag asks for it, and OUT likewise for write |
| BsdEpoll.InterestOtherBits | src/bsd/bsd_epoll.cpp:53 | Apart from IN, OUT and RDHUP, the interest has exactly the flag's bits |
| BsdEpoll.ClassifyCases | src/bsd/bsd_epoll.cpp:129-140 | `event()` is End exactly when a hang-up bit (RDHUP, ERR, HUP) is set; Read exactly when none is and IN is; Write exactly when neither is and OUT is; it throws exactly when none of these bits is set |
| BsdEpoll.ClassifyHangupFirst | src/bsd/bsd_epoll.cpp:131-132 | A hang-up bit gives End even when IN and OUT are also set |
| EpollKernel.ReportedWatched | src/bsd/bsd_epoll.cpp:76 | `epoll_wait` reports only events that occurred, each for a descriptor in the interest list |
| EpollKernel.DeliverCases | src/bsd/bsd_epoll.cpp:76 | A zero `max` is EINVAL, a failed wait is passed on, and a batch has at most `max` events, all for watched descriptors |
| BsdEpoll.StopAtCases | src/bsd/bsd_epoll.cpp:91-109 | The fill loop stops at the first event that is the wake-up eventfd or has no known kind: every event before the stop point is a user event of a known kind, and the event at it, if any, is the eventfd or unclassifiable |
| BsdEpoll.FilledSlots | src/bsd/bsd_epoll.cpp:89-108 | Filling overwrites slot i when it exists and appends otherwise: slots below the stop point hold the classified events, slots from there to the old size are unchanged |
| BsdEpoll.Filled | src/bsd/bsd_epoll.cpp:104-107 | The filled cache has the larger of the old size and the number of events filled |
| BsdEpoll.FilledKeepsSize | src/bsd/bsd_epoll.cpp:104-107 | A cache at least as long as the batch keeps its length |
| BsdEpoll.Epoll.constructor | src/bsd/bsd_epoll.cpp:20-34 | The wake-up eventfd is registered for read, edge-triggered, and is the only registered descriptor |
| BsdEpoll.Epoll.Set | src/bsd/bsd_epoll.cpp:43-61 | `set` succeeds exactly when the kernel accepts the descriptor, whether by MOD or by the ADD it falls back to after ENOENT; the descriptor's interest is then the computed mask; otherwise the interest list is unchanged and the errno is returned |
| BsdEpoll.Epoll.Del | src/bsd/bsd_epoll.cpp:63-67 | `del` removes the descriptor from the interest list; it fails exactly when the kernel refuses the descriptor with an errno other than ENOENT and EBADF, and reports that errno |
| BsdEpoll.Epoll.Poll | src/bsd/bsd_epoll.cpp:70-112 | `poll` with count 0 returns 0 and leaves the cache alone; EINTR and a timeout return 0; other wait errors throw; a batch fills the cache; the wake-up eventfd is drained and makes it return 0; an event of no known kind throws; every reported slot holds a user descriptor in the interest list |
| BsdEpoll.Epoll.Fill | src/bsd/bsd_epoll.cpp:91-109 | The fill loop stops where `StopAtCases` says, and leaves the cache as `FilledSlots` describes |
| BsdEpoll.PollBounds | src/bsd/bsd_epoll.cpp:70-112 | A successful poll reports at most `count` events, each stored in the cache, none the wake-up eventfd and all for watched descriptors; the cache keeps its size when `count` fits |
| BsdEpoll.Epoll.Stop | src/bsd/bsd_epoll.cpp:121-126 | `stop` adds one to the eventfd counter |
| ReactorEpoll.TypeOf | src/core/reactor.epoll.cpp:151-170 | `type()` is exactly Closed whenever a hang-up bit is present; otherwise it has no Closed bit |
| ReactorEpoll.TypeReadWrite | src/core/reactor.epoll.cpp:158-169 | Without a hang-up, Readable is set exactly for IN, Writable exactly for OUT, no other bit is set, and the type may be 0 |
| ReactorEpoll.TypeAgreesWithEvent | src/core/reactor.epoll.cpp:151-170 | The reactor's `type()` and the epoll wrapper's `event()` agree: Closed is End, 0 is the unknown event, Writable alone is Write, and any type with Readable is Read |
| ReactorEpoll.WakeAtCases | src/core/reactor.epoll.cpp:116-126 | Dispatch stops at the first event of the wake-up descriptor: no earlier event is for it, and the event at the stop point, if any, is |
| ReactorEpoll.TouchedOnlyAddsEmpty | src/core/reactor.epoll.cpp:129-134 | Looking callbacks up with `operator[]` keeps every stored callback, adds an entry for each unknown descriptor, makes the new entries empty, and so never changes what a lookup finds |
| ReactorEpoll.CallsOnlyHandlers | src/core/reactor.epoll.cpp:128-137 | Only non-empty callbacks run, once per event at most; with all callbacks present every event runs one; with all empty none runs |
| ReactorEpoll.BatchStep | src/core/reactor.epoll.cpp:116-138 | One event adds an empty entry for an unknown descriptor and runs the callback, with the event's type, exactly when one is stored |
| ReactorEpoll.Reactor.constructor | src/core/reactor.epoll.cpp:27-44 | The wake-up eventfd is registered for read, edge-triggered, with an empty callback |
| ReactorEpoll.Reactor.Set | src/core/reactor.epoll.cpp:53-76 | `set` succeeds exactly when the kernel accepts the descriptor (MOD, or ADD after ENOENT); the interest is then the computed mask and the callback is replaced; on failure neither changes, and the errno thrown is EBADF for a negative descriptor and otherwise the one the kernel refuses it with |
| ReactorEpoll.Reactor.Del | src/core/reactor.epoll.cpp:78-89 | `del` erases the callback even when removal from epoll fails, removes the descriptor from epoll, and fails exactly when the kernel refuses the descriptor with an errno other than ENOENT and EBADF, and then throws that errno |
| ReactorEpoll.Reactor.Poll | src/core/reactor.epoll.cpp:98-141 | `poll` returns the code, runs the callbacks and leaves the store and counter as `PollResult` says of the wait outcome |
| ReactorEpoll.PollCases | src/core/reactor.epoll.cpp:98-141 | A failed wait is `interrupted` for EINTR and thrown otherwise, touching nothing; an empty batch is `timed_out`; otherwise the callbacks of the events before the wake-up descriptor run in order, and the result is `operation_canceled` with the counter drained when that descriptor was reported, success otherwise |
| ReactorEpoll.DeliveredAt | src/core/reactor.epoll.cpp:102 | The i-th batch `run` polls is what `epoll_wait` makes of the i-th wait outcome under the unchanged interest list |
| ReactorEpoll.RunUpToEnded | src/core/reactor.epoll.cpp:92-96 | Once `run` has returned, further wait outcomes change nothing |
| ReactorEpoll.RunCodes | src/core/reactor.epoll.cpp:92-96 | `run` polls again exactly while the code is success or `interrupted`: it ends on the first `timed_out` or `operation_canceled`, throws on the first failed wait, and is still running only when every poll said to go on |
| ReactorEpoll.Reactor.Run | src/core/reactor.epoll.cpp:92-96 | `run` is the fold of `poll` over the wait outcomes, stopping where `RunCodes` says: its end, codes, callbacks, store and counter are those of that fold; it keeps polling while the code is success or `interrupted` and ends only on `timed_out` or `operation_canceled`, or by a throw |
| ReactorEpoll.Reactor.Stop | src/core/reactor.epoll.cpp:143-148 | `stop` adds one to the wake-up counter |
| Runloop.Resized | src/sys/runloop.cpp:44 | `resize` keeps the slots that fit and gives new slots a blank value |
| Runloop.Loop.Set | src/sys/runloop.cpp:18-22 | `set` registers with the reactor and then stores or replaces the callback; if the reactor throws, nothing changes |
| Runloop.Loop.SetWithoutFlag | src/sys/runloop.cpp:13-16 | `set` without a flag is `set` with flag 0 |
| Runloop.Loop.Del | src/sys/runloop.cpp:24-39 | `del` removes the descriptor from the reactor; when the reactor does not throw, it also erases the callback, and among the first `count` cached events exactly those for that descriptor become `invalid_socket` while every other slot is untouched; when it throws, callbacks and cache are unchanged |
| Runloop.PerformEffect | src/sys/runloop.cpp:62 | What a callback does to the loop fails exactly when epoll throws; slots only ever get cancelled, and only for a descriptor it deleted, which then has no callback and no live slot in the batch; callbacks of live slots and of watched descriptors are kept; `stop` adds one to the counter |
| Runloop.Loop.Perform | src/sys/runloop.cpp:62 | Running a callback's action changes the loop as `PerformOutcome` says: cached events are only ever invalidated, event kinds are kept, and every remaining live event keeps its callback |
| Runloop.ActCase | src/sys/runloop.cpp:52-63 | Running one callback keeps the dispatch invariant when its action succeeds, and leaves a sound batch when the action throws |
| Runloop.DispatchSound | src/sys/runloop.cpp:52-63 | A whole batch runs callbacks in increasing slot order below `count`, each with its slot's polled descriptor and event and never after its descriptor was deleted; a completed batch ran the callback of every live slot whose descriptor was not deleted first; "no callback" names a live, undeleted descriptor of the batch without a callback, and cannot happen when every live slot had one |
| Runloop.Loop.Dispatch | src/sys/runloop.cpp:52-63 | The dispatch loop ends with the result, callback steps and state of `DispatchFrom`, so every live slot's callback runs (property `DispatchSound`); callbacks run in increasing slot order below `count`, each with the descriptor and event polled into its slot, none after its descriptor was deleted; "no callback" cannot be raised when every live event had a callback |
| Runloop.Loop.Round | src/sys/runloop.cpp:48-65 | One round ends as `RoundOutcome` says of the poll outcome: it stops the loop when poll returns 0, and otherwise dispatches the batch and resets `count` to 0 |
| Runloop.RoundPoll | src/sys/runloop.cpp:48-50 | A round stops the loop exactly when its poll returns 0, throws the poll's error exactly when the poll fails, and otherwise polled a positive number of events |
| Runloop.RoundBatch | src/sys/runloop.cpp:48-65 | A round keeps the cache's `n` slots and leaves `count` at 0 when the loop stops or goes on; a completed batch keeps the dispatch order properties; while every watched descriptor has a callback it still has one after the round and "no callback" cannot be raised |
| Runloop.Loop.Run | src/sys/runloop.cpp:42-67 | `run(n)` resizes the cache to `n` slots and then ends as `RunFrom` folds the rounds over the poll outcomes: stopped with `count` 0 when a poll returns 0, or on a throw; every batch keeps the dispatch properties; "no callback" is never raised while every descriptor epoll watches for the user has a callback |
| Runloop.Loop.Rounds | src/sys/runloop.cpp:46-66 | The `while (true)` loop ends with the end, batches and state of `RunFrom` |
| Runloop.RunShape | src/sys/runloop.cpp:46-66 | `run` runs out of poll outcomes exactly when every round completed, and records one poll result per round it began |
| Runloop.RunPolls | src/sys/runloop.cpp:48-50 | Every round `run` completed polled a positive number of events |
| Runloop.RunStop | src/sys/runloop.cpp:48-65 | When `run` returns, its last round is the first whose poll gave 0 (stopped) or failed (that error is thrown), or whose batch threw |
| Runloop.RunBatches | src/sys/runloop.cpp:46-66 | Every batch of `run` keeps the dispatch order properties, the cache keeps `n` slots, `count` is 0 after a stop or a completed round, and "no callback" cannot be raised while every watched descriptor has a callback |
| Runloop.Loop.Stop | src/sys/runloop.cpp:69-72 | `stop` wakes the reactor by adding one to its counter |
| EvTimer.Timer.constructor | include/socket/base/ev_timer.hpp:18 | A default timer does not repeat, has no callback and its alarm at the clock's epoch |
| EvTimer.Timer.WithCallback | include/socket/base/ev_timer.hpp:19 | The timer built from a callback has that callback |
| EvTimer.Timer.Attach | include/socket/base/ev_timer.hpp:38-41 | `attach` replaces the callback |
| EvTimer.Timer.Timeout | include/socket/base/ev_timer.hpp:22-25 | `timeout` makes the timer one-shot with the given period |
| EvTimer.Timer.Future | include/socket/base/ev_timer.hpp:27-30 | `future` makes the timer one-shot at the given time point: it expires exactly from that point on |
| EvTimer.Timer.Interval | include/socket/base/ev_timer.hpp:32-35 | `interval` makes the timer repeating with the given period |
| EvTimer.CompareIrreflexive | include/socket/base/ev_timer.hpp:89-95 | No timer goes before itself |
| EvTimer.CompareAsymmetric | include/socket/base/ev_timer.hpp:89-95 | If a goes before b, b does not go before a |
| EvTimer.CompareTransitive | include/socket/base/ev_timer.hpp:89-95 | The comparator is transitive |
| EvTimer.EquivalentIffSameAlarm | include/socket/base/ev_timer.hpp:86-95 | Two timers are equivalent under the comparator exactly when their alarms are equal, so a multiset keeps both |
| EvTimer.EquivalentTransitive | include/socket/base/ev_timer.hpp:86-95 | Equivalence is transitive, so the comparator is a strict weak order |
| EvTimer.FirstExpiresFirst | include/socket/base/ev_timer.hpp:75-95 | When a timer has expired, every timer ordered before or with it has expired too |
| EvTimer.ExpireStays | include/socket/base/ev_timer.hpp:75-78 | An expired timer stays expired as time goes on |
| IpAddress.OctetsRoundTrip | include/socket/ip/ip_address.hpp:168-171 | The four bytes of an IPv4 address, high first, recombine to the address |
| IpAddress.V4ToIntegerCidr | include/socket/ip/ip_address.hpp:236-245 | Converting a text gives a prefix length of at most 32 |
| IpAddress.V4RoundTrip | include/socket/ip/ip_address.hpp:236-245 | `toInteger(toString(a))` is `a` with the default prefix 32, and with a prefix written after `/` that prefix is read back |
| IpAddress.V4Shorthand | include/socket/ip/ip_address.hpp:113-123 | One to four decimal numbers joined by dots are accepted; the last fills the low bytes, and the prefix defaults to 32 |
| IpAddress.V4LoopbackExample | include/socket/ip/ip_address.hpp:128-136 | 0x7F000001 is written "127.0.0.1" and read back; "127.0.0.1/8" has prefix 8 |
| IpAddress.V4OneNumberExample | include/socket/ip/ip_address.hpp:119 | "127" is 127.0.0.0 |
| IpAddress.V4TwoNumbersExample | include/socket/ip/ip_address.hpp:120 | "127.1" is 127.0.0.1 |
| IpAddress.V4ThreeNumbersExample | include/socket/ip/ip_address.hpp:121 | "192.168.1" is 192.168.0.1 |
| IpAddress.AddressV4.constructor | include/socket/ip/ip_address.hpp:248-249 | The default address is 0 with prefix 0 |
| IpAddress.AddressV4.FromInteger | include/socket/ip/ip_address.hpp:128-136 | An address built from an integer without a prefix has prefix 32 |
| IpAddress.AddressV4.FromIntegerCidr | include/socket/ip/ip_address.hpp:137 | An address built from an integer and a prefix holds both |
| IpAddress.AddressV4.Assign | include/socket/ip/ip_address.hpp:149 | Assigning a text sets address and prefix from it (32 by default); an invalid text is an error and changes nothing |
| IpAddress.AddressV4.AssignCidr | include/socket/ip/ip_address.hpp:150 | Assigning a text and a prefix sets both; an invalid text is an error and changes nothing |
| IpAddress.AddressV4.AssignInteger | include/socket/ip/ip_address.hpp:153 | Assigning an integer sets it with prefix 32 |
| IpAddress.AddressV4.AssignIntegerCidr | include/socket/ip/ip_address.hpp:154 | Assigning an integer and a prefix sets both |
| IpAddress.AddressV4.Str | include/socket/ip/ip_address.hpp:162-166 | `str()` is the dotted form, which converts back to the same address |
| IpAddress.AddressV4.Bytes | include/socket/ip/ip_address.hpp:168-171 | `bytes()` is four bytes that recombine to the address |
| IpAddress.AddressV4.Notation | include/socket/ip/ip_address.hpp:173-177 | `notation()` is the address, `/` and the prefix, which converts back to the same address and prefix |
| IpAddress.ParseV4 | include/socket/ip/ip_address.hpp:124 | Constructing from a text succeeds exactly when the text converts, with its address and prefix; otherwise it is the conversion's error |
| IpAddress.V4Trichotomy | include/socket/ip/ip_address.hpp:228-234 | Of `<`, `==` and `>`, exactly one holds between two IPv4 addresses |
| IpAddress.V4LessTransitive | include/socket/ip/ip_address.hpp:228-234 | IPv4 `<` is transitive |
| IpAddress.V4LessEqIff | include/socket/ip/ip_address.hpp:228-234 | `<=` is `<` or `==`, and the prefix is consulted only when the addresses are equal |
| IpAddress.GroupsRoundTrip | include/socket/ip/ip_address.hpp:418-427 | Sixteen bytes and eight 16-bit groups convert into each other without loss |
| IpAddress.ExpandedRoundTrip | include/socket/ip/ip_address.hpp:324-328 | The expanded form (eight groups of four hex digits) converts back to the same bytes with prefix 128 |
| IpAddress.SuppressedRoundTrip | include/socket/ip/ip_address.hpp:330-334 | The suppressed form (leading zeros dropped) converts back to the same bytes |
| IpAddress.LongestZerosSpec | include/socket/ip/ip_address.hpp:336-341 | The run compression removes is all zero groups, no run is longer, and it is the leftmost of the longest runs |
| IpAddress.CompressedSides | include/socket/ip/ip_address.hpp:336-341 | Writing the groups before and after a zero run of two or more around `::` parses back to the eight groups |
| IpAddress.CompressedGroups | include/socket/ip/ip_address.hpp:336-341 | The compressed form parses back to the address's groups |
| IpAddress.CompressedRoundTrip | include/socket/ip/ip_address.hpp:308-341 | The compressed form, which `str()` is, converts back to the same bytes; with `/prefix` the prefix is read back |
| IpAddress.V6ToBytes | include/socket/ip/ip_address.hpp:426-427 | Converting a text gives sixteen bytes and a prefix of at most 128 |
| IpAddress.ParseGroups | include/socket/ip/ip_address.hpp:260-272 | An accepted address body always has exactly eight groups |
| IpAddress.QuadRoundTrip | include/socket/ip/ip_address.hpp:268 | "::a.b.c.d" converts to the IPv4-compatible address of a.b.c.d |
| IpAddress.SpecialKindsDisjoint | include/socket/ip/ip_address.hpp:384-394 | Mapped addresses are not compatible ones; multicast is no unicast kind; link-local and site-local exclude each other; the unspecified address counts as IPv4-compatible and is not the loopback |
| IpAddress.ZeroGroups | include/socket/ip/ip_address.hpp:384 | The unspecified address is the one whose eight groups are all zero |
| IpAddress.UnspecifiedCompressed | include/socket/ip/ip_address.hpp:336-341 | The compressed form is "::" exactly for the unspecified address |
| IpAddress.LoopbackCompressed | include/socket/ip/ip_address.hpp:262-263 | The loopback address is written "::1" |
| IpAddress.WellKnownCompressed | include/socket/ip/ip_address.hpp:396-403 | An address in 64:ff9b::/96 is written starting with "64:ff9b::" |
| IpAddress.AddressV6.constructor | include/socket/ip/ip_address.hpp:437-438 | The default address is all zero with prefix 0 |
| IpAddress.AddressV6.FromBytes | include/socket/ip/ip_address.hpp:276-280 | An address built from bytes without a prefix has prefix 128 |
| IpAddress.AddressV6.FromBytesCidr | include/socket/ip/ip_address.hpp:281 | An address built from bytes and a prefix holds both |
| IpAddress.AddressV6.Assign | include/socket/ip/ip_address.hpp:295 | Assigning a text sets bytes and prefix from it (128 by default); an invalid text is an error and changes nothing |
| IpAddress.AddressV6.AssignCidr | include/socket/ip/ip_address.hpp:296 | Assigning a text and a prefix sets both; an invalid text changes nothing |
| IpAddress.AddressV6.AssignBytes | include/socket/ip/ip_address.hpp:298 | Assigning bytes sets them with prefix 128 |
| IpAddress.AddressV6.AssignBytesCidr | include/socket/ip/ip_address.hpp:299 | Assigning bytes and a prefix sets both |
| IpAddress.AddressV6.Str | include/socket/ip/ip_address.hpp:308-311 | `str()` is the compressed form and converts back to the address |
| IpAddress.AddressV6.Notation | include/socket/ip/ip_address.hpp:318-322 | `notation()` converts back to the address and its prefix |
| IpAddress.AddressV6.Expanded | include/socket/ip/ip_address.hpp:324-328 | `expanded()` converts back to the address |
| IpAddress.AddressV6.Suppressed | include/socket/ip/ip_address.hpp:330-334 | `suppressed()` converts back to the address |
| IpAddress.ParseV6 | include/socket/ip/ip_address.hpp:260-274 | Constructing from a text succeeds exactly when the text converts, with its bytes and prefix; otherwise it is the conversion's error |
| IpAddress.V6Trichotomy | include/socket/ip/ip_address.hpp:405-411 | Of `<`, `==` and `>`, exactly one holds between two IPv6 addresses |
| IpAddress.V6LessTransitive | include/socket/ip/ip_address.hpp:405-411 | IPv6 `<` is transitive |
| IpAddress.V6LessEqIff | include/socket/ip/ip_address.hpp:405-411 | IPv6 `<=` is `<` or `==` |
| SoEndpoint.V4OrderLawful | include/socket/ip/ip_address.hpp:228-234 | The IPv4 operators meet the order laws the endpoint relies on |
| SoEndpoint.Endpoint.constructor | src/so/so_endpoint.cpp:18-20 | An endpoint holds the address and port it was built with |
| SoEndpoint.Endpoint.SetAddr | src/so/so_endpoint.cpp:28-31 | `addr(value)` replaces the address and keeps the port |
| SoEndpoint.Endpoint.SetPort | src/so/so_endpoint.cpp:38-41 | `port(value)` replaces the port and keeps the address |
| SoEndpoint.Lexicographic | src/so/so_endpoint.cpp:54-57 | `<` holds exactly for a smaller address, or an equal address and a smaller port |
| SoEndpoint.Trichotomy | src/so/so_endpoint.cpp:44-62 | Of `<`, `==` and `>`, exactly one holds between two endpoints |
| SoEndpoint.LessTransitive | src/so/so_endpoint.cpp:54-57 | Endpoint `<` is transitive |
| SoEndpoint.DerivedOperators | src/so/so_endpoint.cpp:44-72 | `<=` is `<` or `==`, `>=` is `>` or `==`, `!=` is not `==`, and `>` is `<` swapped |
| Json.Need | include/chen/data/json.hpp:311-328 | `advance(cur, end, true)` yields the character at the cursor, and throws at the end |
| Json.Forward | include/chen/data/json.hpp:299-307 | `forward` moves exactly one character on, possibly onto the end, and throws only when already at the end |
| Json.Filter | include/chen/data/json.hpp:288-296 | `filter` stays within the text, and when a character is required it stops on one |
| Json.NumberAt | include/chen/data/json.hpp:510-623 | A decoded number's text is exactly the characters it passed, at least one |
| Json.AfterItem | include/chen/data/json.hpp:431-451 | After a member or element: a comma leads on to a character that is not the closing bracket, or the closing bracket itself is found |
| JsonProps.SkipSpaceSpans | include/chen/data/json.hpp:288-296 | `filter` passes only white space, and stops at the end or at a character that is not white space |
| JsonProps.SkipSpaceOver | include/chen/data/json.hpp:288-296 | Any white-space run that ends at the end or at another character is what `filter` passes |
| JsonProps.BlankRejected | include/chen/data/json.hpp:279-296 | Empty or white-space-only input is "unexpected end of input" |
| JsonProps.DecodeAccepts | include/chen/data/json.hpp:257-275 | A text is accepted exactly when, after leading white space, a value decodes and only white space follows; the result is that value |
| JsonProps.TrailingRejected | include/chen/data/json.hpp:267-284 | The first non-space character after the value is reported as an unexpected token |
| JsonProps.WordSpelled | include/chen/data/json.hpp:740-769 | `true`, `false` and `null` are accepted exactly when spelled in full |
| JsonProps.DigitsSpan | include/chen/data/json.hpp:551-555 | The digit loop passes only digits and stops where there is none |
| JsonProps.NumberComplete | include/chen/data/json.hpp:510-623 | Every number of the grammar of section 6 of RFC 8259 (no superfluous leading zero, digits after `.`, digits after the exponent mark and sign) is decoded as its own text when the next character does not continue it |
| JsonProps.NumberSound | include/chen/data/json.hpp:510-623 | Every number the decoder accepts is a number of that grammar, its text is the lexeme, and the next character does not continue it |
| JsonProps.IntegerSound | include/chen/data/json.hpp:513-555 | An accepted sign and integer part has digits and no superfluous leading zero, `-0` included |
| JsonProps.FractionSound | include/chen/data/json.hpp:557-580 | An accepted fraction is a `.` and at least one digit, or absent when no `.` follows |
| JsonProps.ExponentSound | include/chen/data/json.hpp:582-623 | An accepted exponent is a mark, an optional sign and at least one digit, or absent when no mark follows |
| JsonProps.UnescapeInverts | include/chen/data/json.hpp:659-691 | Each one-letter escape `\" \\ \b \f \n \r \t` decodes to the character it is written for |
| JsonProps.StringLoopEscaped | include/chen/data/json.hpp:644-734 | The character loop decodes an escaped text up to the closing quote into exactly the original characters and leaves the cursor after the quote |
| JsonProps.StringLiteral | include/chen/data/json.hpp:636-738 | A quote followed by escaped characters and a closing quote decodes to those characters |
| JsonProps.StringRoundTrip | include/chen/data/json.hpp:636-738 | Decoding the quoted, escaped form of any string whose control characters all have a one-letter escape gives back the string and the cursor after the closing quote |
| JsonProps.ControlRejected | include/chen/data/json.hpp:646-650 | A control character (0 to 31) reached before the closing quote is "control character is not escaped" |
| JsonProps.UnknownEscapeRejected | include/chen/data/json.hpp:724-725 | A backslash followed by anything but `" \ / b f n r t u` is an unexpected token at that character |
| JsonProps.UnicodeEscapeKeepsDigit | include/chen/data/json.hpp:693-733 | A `\u` escape takes four hex digits and appends their conversion, but the loop then tests the last hex digit again instead of the character after the escape |
| JsonProps.TrailingCommaRejected | include/chen/data/json.hpp:436-442 | A comma followed, after white space, by the closing bracket is an unexpected token; this holds for `}` and `]` alike |
| JsonProps.MemberRejected | include/chen/data/json.hpp:403-429 | Where a key should start, anything but `"` or `}` is an unexpected token at that character; a key that does not decode fails with its own error; after the key, anything but `:` is an unexpected token there, and the end of the text is the unexpected end |
| JsonProps.MembersLoopOverrides | include/chen/data/json.hpp:399-452 | The member loop with members already stored succeeds exactly when it succeeds from an empty object, fails with the same error otherwise, stops at the same place, and leaves the earlier members overridden by the decoded ones: a key keeps the value of its last occurrence |
| JsonProps.ElementsLoopAppends | include/chen/data/json.hpp:467-500 | The element loop with elements already stored succeeds exactly when it succeeds from an empty array, fails with the same error otherwise, stops at the same place, and leaves the earlier elements followed by the decoded ones in order |
| JsonExamples.LastKeyWins | include/chen/data/json.hpp:429 | In `{"a":1,"a":2}` the repeated key keeps the last value |
| JsonExamples.TrailingCommaInObject | include/chen/data/json.hpp:436-442 | `{"a":1,}` is rejected at `}` |
| JsonExamples.TrailingCommaInArray | include/chen/data/json.hpp:486-492 | `[1,]` is rejected at `]` |
| JsonExamples.UnicodeEscapeAsWritten | include/chen/data/json.hpp:693-733 | The document `"\u0041"` is rejected, because the kept last digit `1` is added again and the closing quote is taken as a character |
| JsonDecoder.Reader.constructor | include/chen/data/json.hpp:257-258 | The cursor starts at the beginning of the text |
| JsonDecoder.Reader.Filter | include/chen/data/json.hpp:288-296 | The white-space loop moves the cursor as `Filter` says, or fails with its error |
| JsonDecoder.Reader.Forward | include/chen/data/json.hpp:299-307 | `forward` moves one character on and returns the new current character, or throws at the end without moving |
| JsonDecoder.Reader.DecodeWord | include/chen/data/json.hpp:748-754 | The spelling loop accepts and passes the word exactly as `WordFrom` does |
| JsonDecoder.Reader.DecodeBool | include/chen/data/json.hpp:740-755 | `decode(bool)` accepts exactly `true` or `false` in full |
| JsonDecoder.Reader.DecodeNull | include/chen/data/json.hpp:757-769 | `decode(nullptr)` accepts exactly `null` in full |
| JsonDecoder.Reader.CollectDigits | include/chen/data/json.hpp:551-555 | The digit loop passes the run of digits and appends exactly them |
| JsonDecoder.Reader.DecodeFraction | include/chen/data/json.hpp:557-580 | The fraction step appends exactly the characters it passes and agrees with `FractionAt` |
| JsonDecoder.Reader.DecodeExponent | include/chen/data/json.hpp:582-623 | The exponent step appends exactly the characters it passes and agrees with `ExponentAt` |
| JsonDecoder.Reader.ExponentDigits | include/chen/data/json.hpp:598-617 | The exponent digit loops append exactly what they pass and agree with `ExponentDigitsAt` |
| JsonDecoder.Reader.IntegerLead | include/chen/data/json.hpp:519-548 | The leading-zero and sign checks agree with `IntegerStart` |
| JsonDecoder.Reader.DecodeNumber | include/chen/data/json.hpp:510-623 | `decode(double)` up to `atof` yields the lexeme and cursor of `NumberAt`, or its error |
| JsonDecoder.Reader.UnicodeDigits | include/chen/data/json.hpp:700-709 | The four-digit loop agrees with `HexFrom` |
| JsonDecoder.Reader.DecodeEscape | include/chen/data/json.hpp:653-726 | The escape switch agrees with `EscapeAt`, including the character it leaves in `ch` |
| JsonDecoder.Reader.DecodeString | include/chen/data/json.hpp:636-738 | `decode(std::string)` yields the string and cursor of `StringAt`, or its error |
| JsonDecoder.Reader.DecodeValue | include/chen/data/json.hpp:331-390 | `decode(json&)` yields the value and cursor of `ValueAt`, or its error |
| JsonDecoder.Reader.DecodeMember | include/chen/data/json.hpp:409-429 | Key, separator and value agree with `MemberAt` |
| JsonDecoder.Reader.AfterItem | include/chen/data/json.hpp:431-451 | The "comma or ending" step agrees with `AfterItem` |
| JsonDecoder.Reader.DecodeObject | include/chen/data/json.hpp:392-458 | `decode(object&)` yields the members and cursor of `ObjectAt`, or its error |
| JsonDecoder.Reader.DecodeArray | include/chen/data/json.hpp:460-508 | `decode(array&)` yields the elements and cursor of `ArrayAt`, or its error |
| JsonDecoder.Decode | include/chen/data/json.hpp:257-275 | The top-level decode returns exactly what `Json.Decode` defines, whose acceptance `DecodeAccepts` characterises |

## Left out

- OS calls (`epoll_create`, `epoll_ctl`, `epoll_wait`, `eventfd_read`/`eventfd_write`, `close`, `fcntl`): replaced by the `EpollKernel.Kernel` model above. A failure to create the epoll or the eventfd in a constructor is not modelled. `eventfd_write` is assumed to succeed.
- The eventfd counter `wake` is not linked to the ready events: a wait result is a free parameter, so the model does not prove that `stop()` makes the next poll report the eventfd. The counter only records the `eventfd_write` and `eventfd_read` calls.
- ReactorEpoll.Reactor.Poll: callbacks are taken not to call `set` or `del` on the reactor while a batch runs. The calls are computed from the store as it was before the batch, plus the empty entries `operator[]` adds. A callback that deletes a later event's descriptor is not modelled. The run loop models that case with its action script.
- DnsHeader.Question.Encode: the name writer is a pure parameter, so the question leaves the compression cache unchanged. The real `domain` writer in dns_codec.cpp may add cache entries, and the model does not capture that.
- Mutexes in the reactor, and `stop()` called from another thread: concurrency is out of scope. `Stop` is a call made between rounds.
- Timeouts in seconds as `double`, and their conversion to milliseconds: the wait result is a parameter, so the timeout has no role.
- `std::atof` and the `isinf`/`isnan` checks of `decode(double)`: floating point. A number keeps its text.
- `chen::utf8::convert`: a function parameter, with a failure giving "invalid unicode char".
- Surrogate pairs: no claim is made about them.
- JsonProps.StringRoundTrip: covers strings whose control characters all have a one-letter escape, so the escaped form needs no `\u`. A round trip through `\u` is not claimed, because the decoder re-reads the last hex digit (see `UnicodeEscapeKeepsDigit`).
- White space is `std::isspace` in the C locale: space, `\t`, `\n`, `\v`, `\f` and `\r`. This is more than section 2 of RFC 8259 allows.
- `char` is signed in the source, and bytes from 128 up are negative there. The model's characters are never negative, so the control-character test is 0 to 31 and the end marker `-1` is `None`.
- dns_codec.cpp is not part of this model. The DNS integer `pack`/`unpack` are taken as big-endian, per section 2.3.2 of RFC 1035, and check-then-advance like the array unpack.
- The DNS domain-name and plain-string codecs (`plain`, `domain`, `compress`, `extract`) live in dns_codec.cpp too. The question takes the name writer and reader as parameters. The reader must never move backwards or past `end`.
- The flag masks and positions live in dns_define.hpp, which is not part of this model. They are taken from section 4.1.1 of RFC 1035 and section 6.1 of RFC 2535.
- `header::random`: a random number.
- The header's field defaults are in dns_header.hpp, which is not part of this model: a new header is taken to have all six fields zero.
- `question::str`: lookup tables that are not shown.
- `codec::isFqdn`/`fqdn`/`isPqdn`, `encoder::change`/`reset`/`move`, `decoder::reset`, and the signed and other-width integer packs: declared without bodies.
- Timer `setup`, `update` and `expire` have no bodies in the header. `Expire` is taken as "the alarm is not after now". `Timeout`/`Future`/`Interval` set only the fields their names describe. No catch-up policy for repeating timers is chosen.
- The runloop's constructor is in runloop.hpp, which is not part of this model: a new loop is taken to have no callbacks, an empty cache, a zero count, and an epoll whose only registered descriptor is its wake-up eventfd.
- `_cycle` is left uninitialised by the default constructor, so it is a constructor parameter.
- The timer getters `native()`, `repeat()`, `cycle()` and `alarm()` are left out: they return `invalid_handle` or a field unchanged, with nothing to state beyond the fields themselves.
- `invalid_socket` is taken as -1.
- ip_address.cpp is not part of this model. The IPv4 and IPv6 conversions are modelled from the forms documented in ip_address.hpp:
  - IPv4 parts are decimal;
  - one to four parts are accepted, the last filling the low bytes;
  - on output, `::` is written only for the leftmost longest run of two or more zero groups, as section 4.2.2 of RFC 5952 recommends;
  - on input, `::` is accepted for one or more zero groups at any position, as section 2.2 of RFC 4291 allows;
  - an IPv4 dotted quad is accepted as the last two groups;
  - IPv6 `<` is byte order, with the prefix breaking ties, as for IPv4.
  - a prefix above 32 for IPv4, or above 128 for IPv6, is rejected.
- IpAddress.QuadRoundTrip: says nothing about mixed forms other than `::a.b.c.d`.
- The special-address predicates follow RFC 4291 and RFC 6052, because their bodies are not shown.
- IPv4 `netmask`, `wildcard`, `network`, `minhost`, `maxhost`, `broadcast`, `hosts`, the classful and special-range predicates, and the mask-string constructors are left out: declarations only, with nothing documented to state.
- IPv6 `mixed`, `toMixed`, `embedded`, `netmask`, `wildcard`, `network`, `minhost` and `maxhost` are left out for the same reason.
- `address::clone`, `create`, `v4()`/`v6()`, `isIPv4`/`isIPv6` and `operator=`: polymorphic plumbing. The two kinds are separate classes.
- The compressed example "2404:6800:4004:817::200e" in ip_address.hpp is given as expanded "…:817:0000:…", which keeps the group `817` unpadded. The model's expanded form pads every group to four digits.
- Endpoint construction from a text (`endpoint(const std::string&, port)`) depends on `ip::address`'s text constructor, which is not shown. The endpoint takes an address value.
- The plain endpoint getters are left out, because they return fields unchanged.
- The kqueue proactor and the thin socket wrappers are left out: I/O without logic to state.
- Runloop.Loop.Dispatch: each callback does exactly one thing to the loop (nothing, one `set`, one `del`, or `stop`). A callback that calls `set` or `del` several times, for example deleting two descriptors whose events still wait in the batch, is not modelled.
- Runloop.Loop.Dispatch: a callback that throws its own exception is not modelled. In the source that exception leaves `run` with `_count` still at the batch size, so a later `del` walks the stale slots; the model's throws are only those of epoll and "no callback".
- Runloop.Loop.Run: the steps of a last batch that throws (for example "no callback" after earlier callbacks of the batch ran) are not reported in `batches`; only completed batches are.
- Runloop.Loop.Run: the `while (true)` loop is run over a finite sequence of poll outcomes. Running out of outcomes is reported as `StillRunning`, not as a loop that never ends.
- ReactorEpoll.Reactor.Run: also runs over a finite sequence of poll outcomes, and stops with `StillRunning` when they run out.
