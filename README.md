# CharDev: a verified model of a buffered character-device driver

The driver `my_module.c` keeps, for every minor number up to MAX_DEVICES
(256), a 4096-byte buffer (`buffers[minor]`, allocated on first use), a read
cursor (`read_index[minor]`) and a write cursor (`write_index[minor]`), in
global arrays. `my_write` appends a whole request or refuses it with
`-ENOMEM`; `my_read` hands out up to `count` unread bytes and advances the
read cursor; `my_ioctl` accepts `MY_RESET` (both cursors to zero) and
`MY_RESTART` (read cursor to zero) and refuses every other command with
`-ENOTTY`. The test suite `tests/ex1_test.py` computes the command numbers
with its own copy of the Linux `_IOC` encoder.

The model has four modules:

- `IoctlCodes` (`ioctl.dfy`): the encoder `_IOC`/`_IO`/`_IOR`/`_IOW` over
  unbounded naturals, as Python computes it. `<<`, `>>`, `|` and `&` are
  written out as arithmetic. It proves the bit layout, decoding by shift
  and mask, injectivity, and the values of the three test commands.
- `Device` (`device.dfy`): one minor's state as a value `Slot` (buffer
  allocated or not, the 4096 bytes, both cursors). It holds the invariant
  `0 <= read_index <= write_index <= 4096` and one function per file
  operation, whose contracts state what the operation does to the stored
  and unread bytes. It also holds the header's `MY_RESET`/`MY_RESTART`,
  built with the same encoder.
- `CharDriver` (`driver.dfy`): the driver itself. A class holds the global
  arrays: a 257 x 4096 `array2` of bytes, a has-buffer flag per minor, and
  the two cursor arrays. `InitModule`, `Write`, `Read` and `Ioctl` update
  them in place. Each is proved to do to its own minor exactly what the
  `Device` function says, and to leave every other minor unchanged.
- `Scenarios` (`scenarios.dfy`): the behaviours the test suite checks,
  proved for every starting state (of one slot, or of the whole driver).

Foreign calls become parameters:

- `register_chrdev` becomes its result, `registered`.
- `kmalloc`'s success becomes `allocOk`.
- `copy_from_user`/`copy_to_user` become `accessible`: how many bytes of the
  caller's memory can be copied before the copy faults. The copy moves
  `min(len, accessible)` bytes, and a shortfall is the non-zero remainder
  that the driver turns into `-ENOMEM`.

## Model

| member | source | states |
|---|---|---|
| `IoctlCodes.Pack` | tests/ex1_test.py:63-66 | the shift-and-or expression of `_IOC` on a numeric tag; its properties are stated by `PackNested`, `PackLayout`, `PackRoundTrip` and `PackInjective` |
| `IoctlCodes.TagValue` | tests/ex1_test.py:60-61 | an integer tag passes through unchanged; a string tag is replaced by its character code, which succeeds exactly when the string has one character |
| `IoctlCodes.Ioc` | tests/ex1_test.py:59-68 | `_IOC` fails exactly when the tag's `ord` would raise; otherwise in-range direction, tag, number and size come back out of the code by shifting and masking |
| `IoctlCodes.SizeOf` | tests/ex1_test.py:26-38 | the `sizeof` table; the three byte types have size 1; each signed type and its unsigned form have the platform's size for that type |
| `IoctlCodes.Io` | tests/ex1_test.py:70-71 | `_IO` fails exactly when the tag does; its code decodes to direction none, size 0, and the tag and number given |
| `IoctlCodes.Ior` | tests/ex1_test.py:73-74 | `_IOR` fails exactly when the tag does; its code decodes to direction read, the type's size, and the tag and number given |
| `IoctlCodes.Iow` | tests/ex1_test.py:76-77 | `_IOW` fails exactly when the tag does; its code decodes to direction write, the type's size, and the tag and number given |
| `IoctlCodes.MyReset` | tests/ex1_test.py:83 | `_IOW('r', 0, 'int')`; its value is stated by `CommandValues` and `CommandsDifferOnlyInNumber` |
| `IoctlCodes.MyRestart` | tests/ex1_test.py:84 | `_IOW('r', 1, 'int')`; its value is stated by `CommandValues` and `CommandsDifferOnlyInNumber` |
| `IoctlCodes.MyInvalidIoctl` | tests/ex1_test.py:85 | `_IOW('r', 128, 'int')`; its value is stated by `CommandValues` and `CommandsDifferOnlyInNumber` |
| `IoctlCodes.PackLayout` | tests/ex1_test.py:50-66 | with in-range fields the `_IOC` expression equals dir·2^30 + size·2^16 + type·2^8 + nr, i.e. number in bits 0-7, type in 8-15, size in 16-29, direction in 30-31, and the code is below 2^32 |
| `IoctlCodes.OrSplit` | tests/ex1_test.py:63-66 | or-ing two numbers that are split at the same bit or-s high and low parts separately (the reason the fields do not interfere) |
| `IoctlCodes.AndLowMask` | tests/ex1_test.py:45-48 | and-ing `(a << k) + b`, with `b < 2^k`, with the mask `(1 << k) - 1` gives exactly the low part `b` |
| `IoctlCodes.ShrSplit` | tests/ex1_test.py:50-53 | shifting `(a << k) + b`, with `b < 2^k`, right by `k` gives exactly the high part `a` |
| `IoctlCodes.PackNested` | tests/ex1_test.py:63-66 | with in-range fields the `_IOC` expression equals the nested splits ((dir << 14 + size) << 8 + type) << 8 + nr: the four or-ed fields never overlap |
| `IoctlCodes.PackRoundTrip` | tests/ex1_test.py:45-66 | shifting by each field's shift and masking with its mask recovers direction, type, number and size from the packed code |
| `IoctlCodes.PackInjective` | tests/ex1_test.py:59-68 | distinct in-range field tuples give distinct codes |
| `IoctlCodes.StringTagIsOrd` | tests/ex1_test.py:59-61 | a one-character string type tag is encoded exactly as its character code, and never fails |
| `IoctlCodes.WrapperFields` | tests/ex1_test.py:70-77 | `_IOW` packs direction 1 and the size of the named type, `_IOR` direction 2, `_IO` direction 0 and size 0; all keep the type tag and number |
| `IoctlCodes.CommandValues` | tests/ex1_test.py:82-85 | with 4-byte `int`, MY_RESET, MY_RESTART and MY_INVALID_IOCTL are 0x40047200, 0x40047201 and 0x40047280 |
| `IoctlCodes.CommandsDifferOnlyInNumber` | tests/ex1_test.py:82-85 | on any platform the three test commands are pairwise distinct and agree in direction (write), type ('r') and size (`sizeof int`), differing only in number 0, 1, 128 |
| `Device.HeaderCommands` | my_module.h:6-8 | the header's MY_RESET and MY_RESTART are 0x40047200 and 0x40047201, so the driver's two `case` labels differ |
| `Device.TestCodesMatchDriver` | tests/ex1_test.py:82-85 | the codes the tests compute (4-byte `int`) are the driver's MY_RESET and MY_RESTART, and the invalid command is neither |
| `Device.Init` | my_module.c:64-70 | a slot reset by `init_module` has no buffer, stores nothing and keeps the invariant |
| `Device.Allocate` | my_module.c:137-139 | the lazy `kmalloc` of read and write: afterwards a buffer exists iff it existed or the allocation succeeded, and neither the stored nor the unread bytes change |
| `Device.Write` | my_module.c:159-179 | a write succeeds (returns count) iff a buffer exists or can be allocated, `write_index + count <= 4096` and the whole request can be copied; on success the bytes land at `buffer[write_index..write_index+count)`, the stored data grows by exactly the request and the read cursor stays; otherwise it returns -EINVAL (no buffer) or -ENOMEM and the stored data and cursors are unchanged; a request that does not fit leaves the whole buffer untouched; the invariant is kept |
| `Device.Read` | my_module.c:131-156 | a read delivers exactly min(count, write_index - read_index) bytes, the unread bytes from the read cursor on, and advances the read cursor by that many (so count 0 or nothing unread gives 0 and changes no cursor); a failed copy returns -ENOMEM and leaves the cursor; stored data never changes; bytes are only copied from an allocated buffer; the invariant is kept |
| `Device.Ioctl` | my_module.c:182-202 | returns 0 iff the command is MY_RESET or MY_RESTART; RESET leaves nothing stored or unread; RESTART keeps the write cursor and contents and makes everything stored unread again; any other command returns -ENOTTY and changes nothing |
| `CharDriver.Driver.constructor` | my_module.c:35-39 | the globals start zero-filled: no buffers, all cursors 0, invariant holds |
| `CharDriver.Driver.InitModule` | my_module.c:50-72 | a failed registration is returned unchanged with no slot touched; otherwise minors 0..255 are reset as by `Device.Init`, minor 256 is untouched, and the invariant holds |
| `CharDriver.Driver.Write` | my_module.c:159-179 | updates the minor's buffer row, flag and write cursor in place exactly as `Device.Write` says, keeps the invariant, and leaves every other minor unchanged |
| `CharDriver.Driver.Deposit` | my_module.c:173 | the copy from the caller: the first `copied` bytes of the request land in the minor's row from the write cursor on, and no other byte of any row changes |
| `CharDriver.Driver.Read` | my_module.c:131-156 | returns the bytes and code `Device.Read` gives, moves that minor's read cursor as it says, keeps the invariant, and leaves every other minor unchanged |
| `CharDriver.Driver.Ioctl` | my_module.c:182-202 | changes that minor's cursors exactly as `Device.Ioctl` says and leaves every other minor unchanged |
| `CharDriver.Driver.CleanupModule` | my_module.c:79-84 | as written, the buffers handed to `kfree` are exactly those of minors without a buffer, so no allocated buffer is freed |
| `CharDriver.Driver.CleanupModuleFixed` | my_module.c:79-84 | with the test corrected, exactly the allocated buffers are freed |
| `Scenarios.WritesThatFitSucceed` | my_module.c:170-178 | a series of requests whose total fits the free space all succeed with their own lengths, and the buffer then holds their concatenation after its old contents |
| `Scenarios.WriteThenRead` | tests/ex1_test.py:174-182 | after RESET a request of at most 4096 bytes is stored whole, a read of at least its length returns it, and the next read returns nothing |
| `Scenarios.ReadWithoutWrite` | tests/ex1_test.py:206-213 | after RESET a read returns 0 bytes |
| `Scenarios.FillByteByByte` | tests/ex1_test.py:183-194 | after RESET exactly 4096 one-byte writes succeed, the next fails with -ENOMEM, and a read of 100000 returns the 4096 bytes |
| `Scenarios.OversizedWriteIsAtomic` | tests/ex1_test.py:195-205 | after RESET and a first write, a second write that overflows fails with -ENOMEM and a read returns only the first request |
| `Scenarios.RestartKeepsContents` | tests/ex1_test.py:237-250 | after RESET, write, read, RESTART and the same write again, one read returns the data twice and the next read returns nothing |
| `Scenarios.RestartThenRewrite` | tests/ex1_test.py:245-250 | from a slot holding data with nothing unread, RESTART and the same write again succeed, one read returns the data twice and the next read returns nothing |
| `Scenarios.InvalidCommandRefused` | tests/ex1_test.py:251-257 | the test's MY_INVALID_IOCTL is refused with -ENOTTY and the slot is unchanged |
| `Scenarios.Session` | tests/ex1_test.py:279-287 | one node's turn (RESET, write, read back, RESTART) echoes exactly its data, leaves the node holding that data unread, and changes no other minor |
| `Scenarios.WritePass` | tests/ex1_test.py:279-288 | the first loop over minors 0, 1, ...: every node echoes its own data and is left holding it unread |
| `Scenarios.ReadPass` | tests/ex1_test.py:290-296 | the second loop: reading each node returns exactly its own data |
| `Scenarios.MultipleNodes` | tests/ex1_test.py:274-299 | from any valid driver state, over minors 0, 1, ... (up to 256), the first pass echoes each node's own data and the second pass reads every node's own data again |
| `Scenarios.CleanupAfterWrite` | my_module.c:79-84 | from any valid driver state, after a write on a minor whose allocation succeeds, the freeing loop as written does not free its buffer; the corrected loop does |

## Findings

| source | as written | input that shows it | evidently intended | confidence | as-written member | corrected member |
|---|---|---|---|---|---|---|
| my_module.c:82-83 | `if(!buffers[i]) kfree(buffers[i]);` frees only NULL pointers | any minor written to (so its buffer was allocated) before the module is unloaded: its buffer is never freed | `if (buffers[i]) kfree(buffers[i]);` | high; not executed | `CharDriver.Driver.CleanupModule` (and `Scenarios.CleanupAfterWrite`) | `CharDriver.Driver.CleanupModuleFixed` |

## Left out

- Registration: `register_chrdev` and `unregister_chrdev` are kernel calls. `InitModule` takes the former's result as a parameter. The latter is not modelled.
- `cleanup_module` beyond its freeing loop: only the choice of which pointers reach `kfree` is modelled, not the freeing itself.
- `my_open` and `my_release` do nothing. So the state persisting across close and reopen (the open-twice test) needs no operation of its own.
- Lazy allocation: `kmalloc` is the parameter `allocOk`, and a buffer's existence is a flag. Each minor's 4096 bytes always exist in the model. A freshly allocated buffer keeps whatever bytes the row held, since the kernel leaves them unspecified.
- User copies: `copy_to_user` and `copy_from_user` are modelled by `accessible`, with the copied bytes a prefix. What a failed `copy_to_user` leaves in the caller's buffer beyond that prefix is not modelled. After a failed `copy_from_user` the model keeps the row's old bytes past the copied prefix, where Linux zero-fills them. Those bytes lie at or past the write cursor, so no read can return them.
- `count` is an unbounded natural. For an N-bit `size_t` (N = 32 or 64), `count + write_index` and `read_index + count` wrap around for counts within 4096 of 2^N; that wrap-around is not modelled.
- The test `count < 0` in `my_write` is on an unsigned `size_t` and never holds, so it is not modelled.
- The minor number is not checked by the driver. The model requires `0 <= minor <= 256`, the entries its arrays have.
- Concurrency: the driver takes no locks. Every operation is modelled as running alone.
- The encoder is modelled for non-negative arguments only, which is all the tests pass. Python's `|` on negative integers is not modelled.
- The header's `_IOW` is taken to have the asm-generic layout (2 direction bits, write = 1, 14 size bits), the one the test's encoder copies. Architectures with 3 direction bits and 13 size bits (powerpc, mips, sparc) are not modelled.
- `Device.Ioctl`: the command is an unbounded natural. `my_ioctl` takes an `unsigned int`, so a code of 2^32 or more is truncated before the driver sees it. The model refuses such a code with -ENOTTY instead. The truncation is not modelled.
- Type tags: a string tag is a Dafny string of Unicode characters. The test file is Python 2, where only byte strings are `str`: their `ord` is below 256, and a unicode tag is not converted at all. The properties of the encoder are stated for tags below 256 only.
- `sizeof`: `struct.calcsize` depends on the platform, so the sizes are a `Platform` parameter. The driver is built with 4-byte `int`.
- The test harness (module loading, `mknod`, `/proc/devices`, unittest) is I/O, and so is `tests/test.py`. The latter's `MY_OP1` is not a command of this driver: its code equals `MY_RESTART`.
