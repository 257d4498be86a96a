/** The character-device driver: global per-minor arrays updated in place by
    `init_module`, `my_write`, `my_read` and `my_ioctl`. Each method is proved
    against the function of module Device that says what the operation does
    to one minor's slot, and leaves every other minor as it was. */
module CharDriver {
  import Device

  /** The arrays have MAX_DEVICES + 1 entries, minors 0 to 256. */
  const Slots: nat := Device.MaxDevices + 1

  class Driver {
    /** The major number `register_chrdev` handed out. */
    var major: int
    /** `buffers[minor]`: one BUFFER_SIZE-byte row per minor. */
    const buffers: array2<bv8>
    /** Whether `buffers[minor]` is non-NULL. */
    const hasBuffer: array<bool>
    const readIndex: array<int>
    const writeIndex: array<int>

    /** The arrays have their sizes, and every minor's slot keeps the
        invariant `0 <= read_index <= write_index <= BUFFER_SIZE`. */
    ghost predicate Valid()
      reads hasBuffer, readIndex, writeIndex
    {
      buffers.Length0 == Slots && buffers.Length1 == Device.BufferSize &&
      hasBuffer.Length == Slots && readIndex.Length == Slots && writeIndex.Length == Slots &&
      readIndex != writeIndex &&
      forall m :: 0 <= m < Slots ==>
        0 <= readIndex[m] <= writeIndex[m] <= Device.BufferSize &&
        (!hasBuffer[m] ==> writeIndex[m] == 0)
    }

    /** The bytes of one minor's buffer. */
    ghost function Row(m: int): seq<bv8>
      requires 0 <= m < buffers.Length0 && buffers.Length1 == Device.BufferSize
      reads buffers
    {
      seq(Device.BufferSize, i requires 0 <= i < Device.BufferSize reads buffers => buffers[m, i])
    }

    /** One minor's state, as a value. */
    ghost function SlotAt(m: int): (s: Device.Slot)
      requires 0 <= m < Slots
      requires buffers.Length0 == Slots && buffers.Length1 == Device.BufferSize
      requires hasBuffer.Length == Slots && readIndex.Length == Slots && writeIndex.Length == Slots
      reads buffers, hasBuffer, readIndex, writeIndex
    {
      Device.Slot(hasBuffer[m], Row(m), readIndex[m], writeIndex[m])
    }

    lemma SlotValid(m: int)
      requires Valid() && 0 <= m < Slots
      ensures Device.Valid(SlotAt(m))
    {
    }

    /** The module's globals as the loader leaves them: zero-filled. */
    constructor ()
      ensures Valid() && major == 0
      ensures fresh(buffers) && fresh(hasBuffer) && fresh(readIndex) && fresh(writeIndex)
      ensures forall m :: 0 <= m < Slots ==>
        !hasBuffer[m] && readIndex[m] == 0 && writeIndex[m] == 0
    {
      major := 0;
      buffers := new bv8[Slots, Device.BufferSize];
      hasBuffer := new bool[Slots](_ => false);
      readIndex := new int[Slots](_ => 0);
      writeIndex := new int[Slots](_ => 0);
    }

    /** `init_module`, given what `register_chrdev` returned: on failure
        that error is returned; otherwise minors 0 to MAX_DEVICES - 1 lose
        their buffer and have both cursors zeroed. */
    method InitModule(registered: int) returns (rc: int)
      requires Valid()
      modifies this`major, hasBuffer, readIndex, writeIndex
      ensures Valid() && major == registered
      ensures registered < 0 ==>
        rc == registered && forall m :: 0 <= m < Slots ==> SlotAt(m) == old(SlotAt(m))
      ensures registered >= 0 ==> rc == 0
      ensures registered >= 0 ==>
        forall m :: 0 <= m < Device.MaxDevices ==> SlotAt(m) == Device.Init(old(SlotAt(m)))
      ensures SlotAt(Device.MaxDevices) == old(SlotAt(Device.MaxDevices))
    {
      major := registered;
      if major < 0 {
        return major;
      }
      var i := 0;
      while i < Device.MaxDevices
        invariant 0 <= i <= Device.MaxDevices && major == registered
        invariant forall m :: 0 <= m < i ==> !hasBuffer[m] && readIndex[m] == 0 && writeIndex[m] == 0
        invariant forall m :: i <= m < Slots ==>
          hasBuffer[m] == old(hasBuffer[m]) && readIndex[m] == old(readIndex[m]) &&
          writeIndex[m] == old(writeIndex[m])
      {
        hasBuffer[i] := false;
        readIndex[i] := 0;
        writeIndex[i] := 0;
        i := i + 1;
      }
      rc := 0;
    }

    /** `my_write` on `minor`. */
    method Write(minor: int, data: seq<bv8>, allocOk: bool, accessible: nat) returns (rc: int)
      requires Valid() && 0 <= minor < Slots
      modifies buffers, hasBuffer, writeIndex
      ensures Valid()
      ensures Device.Valid(old(SlotAt(minor))) &&
        var r := Device.Write(old(SlotAt(minor)), data, allocOk, accessible);
        SlotAt(minor) == r.slot && rc == r.rc
      ensures forall m :: 0 <= m < Slots && m != minor ==> SlotAt(m) == old(SlotAt(m))
    {
      ghost var s := SlotAt(minor);
      SlotValid(minor);
      if !hasBuffer[minor] {
        hasBuffer[minor] := allocOk;
      }
      if !hasBuffer[minor] {
        return -Device.EINVAL;
      }
      var w := writeIndex[minor];
      if |data| + w > Device.BufferSize {
        return -Device.ENOMEM;
      }
      var copied := Device.Min(|data|, accessible);
      Deposit(minor, w, data, copied);
      if |data| - copied != 0 {
        return -Device.ENOMEM;
      }
      writeIndex[minor] := w + |data|;
      rc := |data|;
    }

    /** The copy from the caller: `copied` bytes of `data` land in
        `minor`'s row from position `w` on; no other byte changes. */
    method Deposit(minor: int, w: int, data: seq<bv8>, copied: int)
      requires buffers.Length0 == Slots && buffers.Length1 == Device.BufferSize
      requires 0 <= minor < Slots && 0 <= w && 0 <= copied <= |data| && w + copied <= Device.BufferSize
      modifies buffers
      ensures Row(minor) == old(Row(minor))[..w] + data[..copied] + old(Row(minor))[w + copied..]
      ensures forall m :: 0 <= m < Slots && m != minor ==> Row(m) == old(Row(m))
    {
      forall i | 0 <= i < copied {
        buffers[minor, w + i] := data[i];
      }
      assert forall m :: 0 <= m < Slots && m != minor ==> Row(m) == old(Row(m));
    }

    /** `my_read` of up to `count` bytes on `minor`; `bytes` are the bytes
        copied to the caller. */
    method Read(minor: int, count: nat, allocOk: bool, accessible: nat) returns (rc: int, bytes: seq<bv8>)
      requires Valid() && 0 <= minor < Slots
      modifies hasBuffer, readIndex
      ensures Valid()
      ensures Device.Valid(old(SlotAt(minor))) &&
        var r := Device.Read(old(SlotAt(minor)), count, allocOk, accessible);
        SlotAt(minor) == r.slot && rc == r.rc && bytes == r.bytes
      ensures forall m :: 0 <= m < Slots && m != minor ==> SlotAt(m) == old(SlotAt(m))
    {
      ghost var s := SlotAt(minor);
      SlotValid(minor);
      if !hasBuffer[minor] {
        hasBuffer[minor] := allocOk;
      }
      if count == 0 || readIndex[minor] > writeIndex[minor] {
        return 0, [];
      }
      var len;
      if readIndex[minor] + count < writeIndex[minor] {
        len := count;
      } else {
        len := writeIndex[minor] - readIndex[minor];
      }
      var r := readIndex[minor];
      var copied := Device.Min(len, accessible);
      bytes := seq(copied, i requires 0 <= i < copied reads buffers => buffers[minor, r + i]);
      assert bytes == s.buffer[r..r + copied];
      if len - copied != 0 {
        return -Device.ENOMEM, bytes;
      }
      readIndex[minor] := r + len;
      rc := len;
    }

    /** `my_ioctl` with command `cmd` on `minor`. */
    method Ioctl(minor: int, cmd: nat) returns (rc: int)
      requires Valid() && 0 <= minor < Slots
      modifies readIndex, writeIndex
      ensures Valid()
      ensures Device.Valid(old(SlotAt(minor))) &&
        var r := Device.Ioctl(old(SlotAt(minor)), cmd);
        SlotAt(minor) == r.slot && rc == r.rc
      ensures forall m :: 0 <= m < Slots && m != minor ==> SlotAt(m) == old(SlotAt(m))
    {
      SlotValid(minor);
      Device.HeaderCommands();
      if cmd == Device.ResetCmd {
        readIndex[minor] := 0;
        writeIndex[minor] := 0;
      } else if cmd == Device.RestartCmd {
        readIndex[minor] := 0;
      } else {
        return -Device.ENOTTY;
      }
      rc := 0;
    }

    /** The minors among 0 to MAX_DEVICES - 1 whose buffer exists. */
    ghost function Allocated(): set<int>
      requires hasBuffer.Length == Slots
      reads hasBuffer
    {
      set m | 0 <= m < Device.MaxDevices && hasBuffer[m]
    }

    /** `cleanup_module`'s freeing loop as written: it calls `kfree` on
        `buffers[i]` only when that pointer is NULL. `freed` is the set of
        minors whose pointer reaches `kfree`; none of them holds a buffer,
        so every allocated buffer is leaked. */
    method CleanupModule() returns (freed: set<int>)
      requires Valid()
      ensures freed == set m | 0 <= m < Device.MaxDevices && !hasBuffer[m]
      ensures freed * Allocated() == {}
    {
      freed := {};
      var i := 0;
      while i < Device.MaxDevices
        invariant 0 <= i <= Device.MaxDevices
        invariant freed == set m | 0 <= m < i && !hasBuffer[m]
      {
        if !hasBuffer[i] {
          freed := freed + {i};
        }
        i := i + 1;
      }
    }

    /** The freeing loop with the test the right way round: exactly the
        allocated buffers are freed. */
    method CleanupModuleFixed() returns (freed: set<int>)
      requires Valid()
      ensures freed == Allocated()
    {
      freed := {};
      var i := 0;
      while i < Device.MaxDevices
        invariant 0 <= i <= Device.MaxDevices
        invariant freed == set m | 0 <= m < i && hasBuffer[m]
      {
        if hasBuffer[i] {
          freed := freed + {i};
        }
        i := i + 1;
      }
    }
  }
}
