/** The state the driver keeps for one minor number, and what each file
    operation does to it, as values: a slot holds whether its buffer has been
    allocated, the 4096 bytes of that buffer, the read cursor and the write
    cursor. The bytes below the write cursor are the stored data; those from
    the read cursor up to the write cursor are the data not yet read. */
module Device {
  import opened IoctlCodes

  /** Capacity of each minor's buffer (BUFFER_SIZE). */
  const BufferSize: nat := 4096
  /** Largest minor number the driver's arrays have an entry for. */
  const MaxDevices: nat := 256

  /** Linux error numbers; the driver returns their negations. */
  const ENOMEM: int := 12
  const EINVAL: int := 22
  const ENOTTY: int := 25

  /** `sizeof(int)` in the kernel the driver is built for. */
  const KernelIntSize: nat := 4

  /** The header's commands: `_IOW('r', 0, int)` and `_IOW('r', 1, int)`. */
  const ResetCmd: nat := Pack(IocWrite, 'r' as nat, 0, KernelIntSize)
  const RestartCmd: nat := Pack(IocWrite, 'r' as nat, 1, KernelIntSize)

  datatype Slot = Slot(hasBuffer: bool, buffer: seq<bv8>, readIndex: int, writeIndex: int)

  /** The driver's invariant for one minor: the buffer has its full size,
      `0 <= readIndex <= writeIndex <= BufferSize`, and nothing is stored
      before the buffer has been allocated. */
  predicate Valid(s: Slot)
  {
    |s.buffer| == BufferSize &&
    0 <= s.readIndex <= s.writeIndex <= BufferSize &&
    (!s.hasBuffer ==> s.writeIndex == 0)
  }

  /** The bytes stored so far. */
  function Stored(s: Slot): seq<bv8>
    requires Valid(s)
  {
    s.buffer[..s.writeIndex]
  }

  /** The bytes not yet read. */
  function Unread(s: Slot): seq<bv8>
    requires Valid(s)
  {
    s.buffer[s.readIndex..s.writeIndex]
  }

  function Min(a: int, b: int): int
  {
    if a <= b then a else b
  }

  /** The result of an operation: the new slot and the return value. */
  datatype Reply = Reply(slot: Slot, rc: int)
  /** The result of a read also carries the bytes that reached the caller. */
  datatype ReadReply = ReadReply(slot: Slot, rc: int, bytes: seq<bv8>)

  /** The slot after `init_module`: no buffer, both cursors at zero. */
  function Init(s: Slot): (r: Slot)
    requires Valid(s)
    ensures Valid(r) && !r.hasBuffer
    ensures Stored(r) == [] && Unread(r) == []
  {
    s.(hasBuffer := false, readIndex := 0, writeIndex := 0)
  }

  /** The lazy allocation both read and write start with: a missing buffer
      is allocated, which succeeds when `allocOk`. A fresh buffer's contents
      are unspecified; the model keeps whatever the slot held. */
  function Allocate(s: Slot, allocOk: bool): (r: Slot)
    ensures r.hasBuffer == (s.hasBuffer || allocOk)
    // allocating changes neither the stored nor the unread bytes
    ensures Valid(s) ==> Valid(r) && Stored(r) == Stored(s) && Unread(r) == Unread(s)
  {
    s.(hasBuffer := s.hasBuffer || allocOk)
  }

  /** `my_write` of `data` (its length is `count`). `allocOk` is whether a
      needed allocation succeeds; `accessible` is how many bytes of the
      caller's data can be copied in before the copy faults. */
  function Write(s: Slot, data: seq<bv8>, allocOk: bool, accessible: nat): (r: Reply)
    requires Valid(s)
    ensures Valid(r.slot)
    // the whole request is stored, or the call fails and stores nothing
    ensures r.rc == |data| || r.rc == -EINVAL || r.rc == -ENOMEM
    ensures r.rc == |data| <==>
      (s.hasBuffer || allocOk) && s.writeIndex + |data| <= BufferSize && |data| <= accessible
    ensures r.rc == |data| ==>
      r.slot.writeIndex == s.writeIndex + |data| &&
      r.slot.buffer[s.writeIndex..r.slot.writeIndex] == data &&
      Stored(r.slot) == Stored(s) + data
    ensures r.rc != |data| ==> Stored(r.slot) == Stored(s) && r.slot.writeIndex == s.writeIndex
    ensures r.rc == -EINVAL <==> !s.hasBuffer && !allocOk
    // a request that does not fit changes nothing but the allocation
    ensures (s.hasBuffer || allocOk) && s.writeIndex + |data| > BufferSize ==>
      r.rc == -ENOMEM && r.slot == Allocate(s, allocOk)
    ensures r.slot.readIndex == s.readIndex && r.slot.hasBuffer == (s.hasBuffer || allocOk)
  {
    var a := Allocate(s, allocOk);
    if !a.hasBuffer then Reply(a, -EINVAL)
    else if |data| + s.writeIndex > BufferSize then Reply(a, -ENOMEM)
    else
      var w := s.writeIndex;
      var copied := Min(|data|, accessible);
      var buffer := s.buffer[..w] + data[..copied] + s.buffer[w + copied..];
      assert buffer[..w] == s.buffer[..w];
      if |data| - copied != 0 then Reply(a.(buffer := buffer), -ENOMEM)
      else
        assert buffer[w..w + |data|] == data;
        assert buffer[..w + |data|] == s.buffer[..w] + data;
        Reply(a.(buffer := buffer, writeIndex := w + |data|), |data|)
  }

  /** `my_read` of up to `count` bytes. `allocOk` is whether a needed
      allocation succeeds; `accessible` is how many bytes can be copied out
      to the caller before the copy faults. */
  function Read(s: Slot, count: nat, allocOk: bool, accessible: nat): (r: ReadReply)
    requires Valid(s)
    ensures Valid(r.slot)
    ensures r.slot.buffer == s.buffer && r.slot.writeIndex == s.writeIndex
    ensures r.slot.hasBuffer == (s.hasBuffer || allocOk)
    // the length delivered is min(count, unread), taken from the read cursor on
    ensures var n := Min(count, s.writeIndex - s.readIndex);
      (r.rc >= 0 <==> n <= accessible) &&
      (r.rc >= 0 ==> r.rc == n && r.bytes == Unread(s)[..n] && r.slot.readIndex == s.readIndex + n) &&
      (r.rc < 0 ==> r.rc == -ENOMEM && r.bytes == Unread(s)[..accessible] && r.slot.readIndex == s.readIndex)
    // bytes are only ever copied out of an allocated buffer
    ensures |r.bytes| > 0 ==> s.hasBuffer
  {
    var a := Allocate(s, allocOk);
    if count == 0 || s.readIndex > s.writeIndex then ReadReply(a, 0, [])
    else
      var len := if s.readIndex + count < s.writeIndex then count else s.writeIndex - s.readIndex;
      var copied := Min(len, accessible);
      var bytes := s.buffer[s.readIndex..s.readIndex + copied];
      if len - copied != 0 then ReadReply(a, -ENOMEM, bytes)
      else ReadReply(a.(readIndex := s.readIndex + len), len, bytes)
  }

  /** `my_ioctl`: RESET empties the buffer, RESTART rewinds the reader,
      every other command is refused with ENOTTY. */
  function Ioctl(s: Slot, cmd: nat): (r: Reply)
    requires Valid(s)
    ensures Valid(r.slot)
    ensures r.slot.buffer == s.buffer && r.slot.hasBuffer == s.hasBuffer
    ensures r.rc == 0 <==> cmd == ResetCmd || cmd == RestartCmd
    ensures r.rc != 0 ==> r.rc == -ENOTTY && r.slot == s
    ensures cmd == ResetCmd ==> Stored(r.slot) == [] && Unread(r.slot) == []
    ensures cmd == RestartCmd ==>
      r.slot.writeIndex == s.writeIndex && Stored(r.slot) == Stored(s) && Unread(r.slot) == Stored(s)
  {
    HeaderCommands();
    if cmd == ResetCmd then Reply(s.(readIndex := 0, writeIndex := 0), 0)
    else if cmd == RestartCmd then Reply(s.(readIndex := 0), 0)
    else Reply(s, -ENOTTY)
  }

  /** The header's two commands, as numbers; in particular they differ, so
      the driver's `switch` has two distinct cases. */
  lemma HeaderCommands()
    ensures ResetCmd == 0x4004_7200 && RestartCmd == 0x4004_7201
  {
    PackLayout(IocWrite, 'r' as nat, 0, KernelIntSize);
    PackLayout(IocWrite, 'r' as nat, 1, KernelIntSize);
  }

  /** The codes the tests compute on a platform with 4-byte `int` are the
      driver's own; the test's invalid command is neither of them. */
  lemma TestCodesMatchDriver(p: Platform)
    requires p.intSize == KernelIntSize
    ensures MyReset(p) == Some(ResetCmd) && MyRestart(p) == Some(RestartCmd)
    ensures MyInvalidIoctl(p).Some?
    ensures MyInvalidIoctl(p).value != ResetCmd && MyInvalidIoctl(p).value != RestartCmd
  {
    HeaderCommands();
    CommandValues(p);
  }
}
