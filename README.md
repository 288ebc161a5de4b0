# fiber-framework core: buffered output stream, intrusive stack, IPv4 address values

A Dafny model of three pieces of the fiber-framework runtime, with proofs of what
each promises to its callers.

- **Write stream buffer** (`StreamBuffer`, `stream_buffer.dfy`). This models
  `struct ff_write_stream_buffer`: a fixed-capacity byte buffer in front of a byte
  sink (`ff_write_stream_func` plus its context). The sink is the class `Sink`. On
  each call it either refuses (returns -1) or takes some `k` with `0 < k <= len`
  leading bytes. Which of these happens comes from an arbitrary script of replies
  fixed when the sink is made, so every sink that keeps that contract is covered.
  The bytes it takes go to a ghost log, and it counts the calls it refuses.
  - `WriteStreamBuffer` holds `buf` (an `array<byte>`), `capacity` and the cursor
    `startPos`.
  - `Write` is the fill, flush-when-full and direct-write loop of
    `ff_write_stream_buffer_write`.
  - `Flush` is the drain loop of `ff_write_stream_buffer_flush`.
  - Together they prove that, after every successful `write` and `flush`, the
    sink's log followed by the pending bytes equals everything that was
    submitted, in order.
- **Intrusive LIFO stack** (`Stacks`, `stack.dfy`). This models `struct ff_stack`:
  a singly linked chain of `Entry` objects whose `data` is compared by identity
  (Dafny equality on `T`). Ghost fields hold the chain as a sequence of entries
  and the sequence of their data.
  - `RemoveEntry` walks the chain like the C pointer-to-pointer loop. `prev` is
    null while `entry_ptr` points at `stack->top`; otherwise it is the entry whose
    `next` field `entry_ptr` points at.
  - Its result is the pure `RemoveFirst`.
- **IPv4 address values** (`NetAddr`, `net_addr.dfy`, with `Bits`, `Decimal`).
  This models `struct sockaddr_in` as the bytes `memcmp` and `memcpy` see: family
  (host byte order, kept as two opaque bytes), then port and address in network
  byte order, then padding.
  - Broadcast derivation is `addr | ~mask` on the address bytes.
  - Equality is byte equality.
  - Text rendering is `a.b.c.d:port`, and `MAX_STRING_ADDR_LEN` bounds its length.
  - The resolution job takes the system lookup as a parameter. That parameter
    gives, for a host, either the first IPv4 address found or nothing.
  - `Bits` defines bitwise Or/And on naturals one bit at a time.
  - `Decimal` defines decimal digits and reading them back.
- `Common` (`common.dfy`) holds `byte`, `FfResult` (`FF_SUCCESS`/`FF_FAILURE`) and
  `Option`.

A failed flush leaves `start_pos` where it was, because the reset at
`src/ff_write_stream_buffer.c:148` is skipped. The cursor is not moved to where
draining stopped. `Flush` states that after a failure the pending bytes are
unchanged, and that a proper prefix of them may already be in the sink's log.

## Model

| member | source | states |
|---|---|---|
| StreamBuffer.Outcome | src/ff_write_stream_buffer.c:136-143 | a sink reply is -1 or a count in `1..len`; a reply whose limit covers the request takes all of it |
| StreamBuffer.Sink.Write | src/ff_write_stream_buffer.c:78-85 | the sink returns -1 (and logs nothing) or `n` in `1..len`, appending exactly the first `n` bytes offered to its log |
| StreamBuffer.WriteStreamBuffer.constructor | src/ff_write_stream_buffer.c:14-28 | requires `capacity > 0`; the new buffer is valid, zero-filled and empty (`start_pos == 0`) |
| StreamBuffer.WriteStreamBuffer.Fill | src/ff_write_stream_buffer.c:97-105 | copying a chunk that fits the free space appends it to the pending bytes and advances `start_pos` by its length, keeping `start_pos <= capacity` |
| StreamBuffer.WriteStreamBuffer.Flush | src/ff_write_stream_buffer.c:114-153 | on success the sink log grows by exactly the pending bytes, in order, across any number of short writes, and `start_pos` becomes 0. On failure `start_pos` and the pending bytes are unchanged, and the log grew by a proper prefix of them. An empty buffer makes no sink call, and a sink that takes everything is called once |
| StreamBuffer.WriteStreamBuffer.WriteDirect | src/ff_write_stream_buffer.c:72-88 | the direct-write loop runs on an empty buffer and sends a prefix of the data to the sink in order. When it ends normally, fewer than `capacity` bytes remain. A refusal is reported. Data shorter than `capacity` makes no sink call |
| StreamBuffer.WriteStreamBuffer.FlushAndWriteDirect | src/ff_write_stream_buffer.c:62-94 | the full-buffer step: flush, then write directly. On success the buffer is empty, fewer than `capacity` bytes remain, and nothing is lost or reordered. Either sink failure is reported |
| StreamBuffer.WriteStreamBuffer.FlushAndWriteDirectAsWritten | src/ff_write_stream_buffer.c:62-94 | the same step as the code has it. A refused direct write exits with the flush's success and an empty buffer (`start_pos == 0`). Only a failed flush, which leaves the buffer full, yields failure |
| StreamBuffer.WriteStreamBuffer.Write | src/ff_write_stream_buffer.c:36-111 | on success, sink log + pending == old log + old pending + data. On failure the sink log is a proper prefix of that. The result is a failure exactly when the sink refused a call. `0 <= start_pos <= capacity` is kept. Data that fits the free space (or is empty) makes no sink call and is appended to the pending bytes |
| StreamBuffer.WriteStreamBuffer.WriteAsWritten | src/ff_write_stream_buffer.c:36-111 | the write as the code has it. With no refusal it behaves like `Write`. It reports failure only when a flush failed. After a successful flush, a refused direct write yields success; then, for every input, nothing is pending and the sink's log is a proper prefix of everything submitted, so data was dropped |
| StreamBuffer.BypassFailureReportedAsSuccess | src/ff_write_stream_buffer.c:76-83 | a concrete run (capacity 1, sink takes one byte then refuses) in which `write` returns `FF_SUCCESS` while the second byte reached neither the sink nor the buffer |
| Stacks.RemoveFirstAt | src/ff_stack.c:75-88 | removing `d` whose first occurrence is at depth `i` drops exactly that element and keeps the others in order |
| Stacks.RemoveFirstAbsent | src/ff_stack.c:77-94 | removing an absent element leaves the sequence unchanged |
| Stacks.RemoveFirstMultiset | src/ff_stack.c:75-88 | removal takes out exactly one copy of `d` when present, and nothing otherwise |
| Stacks.PrependEntry | src/ff_stack.c:37-40 | a new entry pointing at the old top forms a distinct, linked chain carrying `[d] + contents` |
| Stacks.ChainSkipping | src/ff_stack.c:81 | after `*entry_ptr = entry->next` the chain without that entry is linked again |
| Stacks.Stack.constructor | src/ff_stack.c:16-24 | a new stack is empty |
| Stacks.Stack.Delete | src/ff_stack.c:26-31 | deletion requires an empty stack, so no entry is left behind |
| Stacks.Stack.Push | src/ff_stack.c:33-41 | contents become `[d] + old contents`; the new top is a fresh entry and the only one added |
| Stacks.Stack.IsEmpty | src/ff_stack.c:43-49 | returns 1 exactly when the stack is empty, 0 otherwise |
| Stacks.Stack.Top | src/ff_stack.c:51-56 | requires a non-empty stack; returns the most recently pushed element still present, changing nothing |
| Stacks.Stack.Pop | src/ff_stack.c:58-67 | requires a non-empty stack; contents become the old contents without their head, and exactly the old top entry leaves the structure |
| Stacks.Stack.Unlink | src/ff_stack.c:81-82 | redirecting the link above depth `i` removes exactly that entry and its datum and keeps the structure valid |
| Stacks.Stack.RemoveEntry | src/ff_stack.c:69-95 | contents become `RemoveFirst(old contents, d)`; the result is `FF_SUCCESS` exactly when `d` was present |
| Bits.SetOutsideMask | src/arch/linux/ff_arch_net_addr.c:108 | `a OR ~m` keeps the bits of `a` inside the mask and sets every bit outside it |
| Bits.DeterminedByMask | src/arch/linux/ff_arch_net_addr.c:108 | a value whose bits outside the mask are all set is determined by its bits inside the mask |
| Bits.AllOnesMask | src/arch/linux/ff_arch_net_addr.c:108 | against an all-ones mask, Or gives all ones and And gives the value back |
| NetAddr.HostOnes | src/arch/linux/ff_arch_net_addr.c:108 | one byte of `s_addr OR ~mask` agrees with the address under the mask and is all ones outside it |
| NetAddr.BroadcastAddr | src/arch/linux/ff_arch_net_addr.c:103-110 | the broadcast address keeps the network part of `addr` and has an all-ones host part. Family, port and padding are copied from `addr` |
| NetAddr.BroadcastUnique | src/arch/linux/ff_arch_net_addr.c:103-110 | those two properties determine the broadcast address uniquely |
| NetAddr.BroadcastIdempotent | src/arch/linux/ff_arch_net_addr.c:108 | deriving the broadcast address twice with the same mask gives the same result as once |
| NetAddr.BroadcastFullMask | src/arch/linux/ff_arch_net_addr.c:108 | with mask 255.255.255.255 the address is its own broadcast address |
| NetAddr.BroadcastExample | src/arch/linux/ff_arch_net_addr.c:103-110 | 10.0.0.5 with mask 255.255.255.0 gives 10.0.0.255 |
| NetAddr.IsEqual | src/arch/linux/ff_arch_net_addr.c:112-118 | `is_equal` compares the 16-byte images and returns 0 or 1, and 1 for an address compared with itself |
| NetAddr.ImageInjective | src/arch/linux/ff_arch_net_addr.c:116 | two structures with the same 16-byte image are equal |
| NetAddr.IsEqualIsEquality | src/arch/linux/ff_arch_net_addr.c:112-118 | `is_equal` returns 1 exactly for equal addresses and 0 otherwise, so it is reflexive and symmetric |
| NetAddr.Htons | src/arch/linux/ff_arch_net_addr.c:59 | `htons` puts the port's high byte first: the two bytes, read most significant first, are the port |
| NetAddr.Ntohs | src/arch/linux/ff_arch_net_addr.c:130 | `ntohs` reads the two port bytes most significant first and gives a value below 0x10000 |
| NetAddr.NtohsHtons | src/arch/linux/ff_arch_net_addr.c:59 | `ntohs(htons(p)) == p` for every port `p < 0x10000` |
| NetAddr.HtonsNtohs | src/arch/linux/ff_arch_net_addr.c:130 | `htons(ntohs(b)) == b` for every two-byte port field |
| NetAddr.DottedQuad | src/arch/linux/ff_arch_net_addr.c:14-18 | the dotted-decimal address is made of digits and dots and is at most `MAX_STRING_IP_LEN` = 15 characters |
| NetAddr.ToString | src/arch/linux/ff_arch_net_addr.c:120-136 | the `a.b.c.d:port` text is made of digits, dots and the colon and is at most `MAX_STRING_ADDR_LEN` = 15 + 1 + 5 characters long, so it always fits the buffer |
| NetAddr.ToStringPort | src/arch/linux/ff_arch_net_addr.c:130-132 | the number after the last colon of the text is `ntohs(sin_port)` |
| NetAddr.ResolveJob | src/arch/linux/ff_arch_net_addr.c:38-65 | on a successful lookup the result is `FF_SUCCESS`, the address is the lookup's first result, and the port field is `htons(port)`. On a failed lookup the result is `FF_FAILURE` and the caller's address is untouched |
| NetAddr.Resolve | src/arch/linux/ff_arch_net_addr.c:80-101 | requires `0 <= port < 0x10000`. One lookup decides the outcome. On success the address bytes, family and padding come from the lookup, and `ntohs` of the port field is `port` |
| NetAddr.ResolvedPortRendered | src/arch/linux/ff_arch_net_addr.c:56-59 | the port rendered by `to_string` for a resolved address is the port passed to `resolve` |
| Decimal.Digits | src/arch/linux/ff_arch_net_addr.c:132 | decimal text is non-empty and all digits, with a leading `0` only for zero |
| Decimal.ValueOfDigits | src/arch/linux/ff_arch_net_addr.c:132 | reading the decimal text back gives the number |
| Decimal.DigitsInjective | src/arch/linux/ff_arch_net_addr.c:132 | different numbers render differently |
| Decimal.DigitsLength | src/arch/linux/ff_arch_net_addr.c:20-23 | a number below `10^k` has at most `k` digits (a port has at most `MAX_STRING_PORT_LEN` = 5) |

## Findings

| source | as written | input that shows it | evidently intended | confidence | as-written member | corrected member |
|---|---|---|---|---|---|---|
| src/ff_write_stream_buffer.c:79-83 | `result` holds `FF_SUCCESS` from the flush at line 65. When a direct sink write then returns -1, `goto end` returns that success, although the unwritten rest of the data was neither sent nor buffered | capacity 1; the buffer holds one byte; the sink takes 1 byte, then returns -1; `write` of one more byte | the direct-write failure is reported as `FF_FAILURE`, like a failed flush | high; not executed | StreamBuffer.BypassFailureReportedAsSuccess | StreamBuffer.WriteStreamBuffer.Write |

`StreamBuffer.WriteStreamBuffer.WriteAsWritten` and
`StreamBuffer.WriteStreamBuffer.FlushAndWriteDirectAsWritten` model the code as
written. `StreamBuffer.WriteStreamBuffer.Write` and
`StreamBuffer.WriteStreamBuffer.FlushAndWriteDirect` are the corrected versions.
The corrected `Write` proves that it fails exactly when the sink refused a call.

## Left out

- The concrete sink behind `ff_write_stream_func`. Only its contract is modelled:
  it returns -1, or a count in `1..len` of leading bytes taken.
- `ff_write_stream_buffer_delete`, `ff_arch_net_addr_create`, `ff_arch_net_addr_delete`
  and `ff_arch_net_addr_delete_string`. They only manage memory, which Dafny's heap
  replaces. For the same reason `ff_free` in `ff_stack_pop`, `ff_stack_remove_entry`
  and `ff_stack_delete` is modelled only as the entry leaving the stack's set of
  entries.
- `getaddrinfo`/`freeaddrinfo`. They are a foreign call; the lookup outcome is the
  `lookup` parameter, a function from host to an optional first address.
- `ff_core_threadpool_execute`. Worker-thread offload and suspension of the calling
  fiber are concurrency; `Resolve` calls the job directly.
- `ff_linux_misc_wide_to_multibyte_string` and the wide-character output of
  `swprintf`. They are platform string conversion; hosts and rendered text are
  `string`.
- The internals of `inet_ntop`. Its output is modelled as dotted decimal over the
  four address bytes.
- `ff_log_debug` calls. They are logging only.
- `ff_assert` checks that the caller's inputs satisfy are `requires` clauses:
  capacity, port range, non-empty stack. The checks on the sink's replies are the
  sink's contract. Abort on violation is not modelled.
- The C `int` widths of `len`, `capacity` and `start_pos`. Overflow cannot arise,
  because `start_pos + len` is only formed for chunks that fit the buffer. They are
  unbounded integers here.
- Which bytes a sink actually received is a ghost log, because the C code keeps no
  record of it.
