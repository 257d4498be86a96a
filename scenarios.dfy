/** The behaviours the driver's test suite checks, proved of the model for
    every slot the driver can be in (and, for isolation, of the driver as a
    whole). Allocation and user copies succeed throughout, as the test suite
    assumes. */
module Scenarios {
  import opened IoctlCodes
  import opened Device
  import CharDriver

  /** The slot after RESET. */
  function Reset(s: Slot): (r: Slot)
    requires Valid(s)
    ensures Valid(r) && Stored(r) == [] && r.readIndex == 0
  {
    Ioctl(s, ResetCmd).slot
  }

  /** A write whose copy from the caller succeeds. */
  function Put(s: Slot, data: seq<bv8>): Reply
    requires Valid(s)
  {
    Write(s, data, true, |data|)
  }

  /** A read of up to `count` bytes whose copy to the caller succeeds. */
  function Get(s: Slot, count: nat): ReadReply
    requires Valid(s)
  {
    Read(s, count, true, count)
  }

  /** Writing a request and reading it back: after RESET, any request that
      fits is stored whole, one read of at least its length returns it,
      and the next read returns nothing. */
  lemma WriteThenRead(s: Slot, data: seq<bv8>, count: nat)
    requires Valid(s) && |data| <= BufferSize && |data| <= count
    ensures var w := Put(Reset(s), data);
      var r1 := Get(w.slot, count);
      var r2 := Get(r1.slot, count);
      w.rc == |data| && r1.rc == |data| && r1.bytes == data && r2.rc == 0 && r2.bytes == []
  {
    var w := Put(Reset(s), data);
    assert Unread(w.slot) == data;
  }

  /** Reading after RESET with nothing written returns nothing. */
  lemma ReadWithoutWrite(s: Slot, count: nat)
    requires Valid(s)
    ensures Get(Reset(s), count).rc == 0 && Get(Reset(s), count).bytes == []
  {
  }

  /** The concatenation of a list of requests. */
  function Flatten(chunks: seq<seq<bv8>>): seq<bv8>
  {
    if chunks == [] then [] else chunks[0] + Flatten(chunks[1..])
  }

  /** A series of writes, one request after another, with the return value
      of each. */
  function WriteAll(s: Slot, chunks: seq<seq<bv8>>): (r: (Slot, seq<int>))
    requires Valid(s)
    ensures Valid(r.0) && |r.1| == |chunks|
    decreases |chunks|
  {
    if chunks == [] then (s, [])
    else
      var w := Put(s, chunks[0]);
      var rest := WriteAll(w.slot, chunks[1..]);
      (rest.0, [w.rc] + rest.1)
  }

  /** Requests that together fit the free space all succeed, and the buffer
      then holds their concatenation after what it held before. */
  lemma {:induction false} WritesThatFitSucceed(s: Slot, chunks: seq<seq<bv8>>)
    requires Valid(s) && s.writeIndex + |Flatten(chunks)| <= BufferSize
    ensures var r := WriteAll(s, chunks);
      (forall i :: 0 <= i < |chunks| ==> r.1[i] == |chunks[i]|) &&
      Stored(r.0) == Stored(s) + Flatten(chunks) && r.0.readIndex == s.readIndex
    decreases |chunks|
  {
    if chunks != [] {
      var w := Put(s, chunks[0]);
      assert |Flatten(chunks)| == |chunks[0]| + |Flatten(chunks[1..])|;
      assert w.rc == |chunks[0]| && Stored(w.slot) == Stored(s) + chunks[0];
      WritesThatFitSucceed(w.slot, chunks[1..]);
      var r := WriteAll(s, chunks);
      assert r.1 == [w.rc] + WriteAll(w.slot, chunks[1..]).1;
      assert Stored(s) + chunks[0] + Flatten(chunks[1..]) == Stored(s) + Flatten(chunks);
    }
  }

  /** `n` one-byte requests of `b` concatenate to `n` copies of `b`. */
  lemma {:induction false} FlattenSingletons(b: bv8, n: nat)
    ensures Flatten(seq(n, _ => [b])) == seq(n, _ => b)
    decreases n
  {
    if n > 0 {
      var chunks := seq(n, _ => [b]);
      assert chunks[1..] == seq(n - 1, _ => [b]);
      FlattenSingletons(b, n - 1);
      assert [b] + seq(n - 1, _ => b) == seq(n, _ => b);
    }
  }

  /** After RESET exactly BUFFER_SIZE one-byte writes succeed, the next one
      fails with ENOMEM, and a large read returns the BUFFER_SIZE bytes. */
  lemma FillByteByByte(s: Slot, b: bv8)
    requires Valid(s)
    ensures var r := WriteAll(Reset(s), seq(BufferSize, _ => [b]));
      var extra := Put(r.0, [b]);
      var read := Get(extra.slot, 100000);
      (forall i :: 0 <= i < BufferSize ==> r.1[i] == 1) &&
      extra.rc == -ENOMEM &&
      read.rc == BufferSize && read.bytes == seq(BufferSize, _ => b)
  {
    var chunks := seq(BufferSize, _ => [b]);
    FlattenSingletons(b, BufferSize);
    WritesThatFitSucceed(Reset(s), chunks);
  }

  /** A request larger than the free space is refused whole: after RESET
      and a first write, a second write that does not fit fails with ENOMEM
      and a read returns only the first request's bytes. */
  lemma OversizedWriteIsAtomic(s: Slot, first: seq<bv8>, second: seq<bv8>, count: nat)
    requires Valid(s) && |first| <= BufferSize && |first| + |second| > BufferSize
    requires |first| <= count
    ensures var w1 := Put(Reset(s), first);
      var w2 := Put(w1.slot, second);
      var r := Get(w2.slot, count);
      w1.rc == |first| && w2.rc == -ENOMEM && r.rc == |first| && r.bytes == first
  {
    var w1 := Put(Reset(s), first);
    assert Unread(w1.slot) == first;
  }

  /** RESTART rewinds only the reader: after RESET, write and read back
      `data`, RESTART, write `data` again, and one read returns it twice;
      the next read returns nothing. */
  lemma RestartKeepsContents(s: Slot, data: seq<bv8>)
    requires Valid(s) && 2 * |data| <= BufferSize
    ensures var w1 := Put(Reset(s), data);
      var r1 := Get(w1.slot, BufferSize);
      var r2 := Get(r1.slot, BufferSize);
      var w2 := Put(Ioctl(r2.slot, RestartCmd).slot, data);
      var r3 := Get(w2.slot, BufferSize);
      var r4 := Get(r3.slot, BufferSize);
      r1.bytes == data && r2.bytes == [] && w2.rc == |data| &&
      r3.rc == 2 * |data| && r3.bytes == data + data && r4.rc == 0 && r4.bytes == []
  {
    var w1 := Put(Reset(s), data);
    assert Unread(w1.slot) == data;
    var r2 := Get(Get(w1.slot, BufferSize).slot, BufferSize);
    RestartThenRewrite(r2.slot, data);
  }

  /** The second half: a slot holding `data` with nothing unread, after
      RESTART and the same write again, yields `data` twice in one read and
      nothing in the next. */
  lemma RestartThenRewrite(t: Slot, data: seq<bv8>)
    requires Valid(t) && Stored(t) == data && Unread(t) == [] && 2 * |data| <= BufferSize
    ensures var w2 := Put(Ioctl(t, RestartCmd).slot, data);
      var r3 := Get(w2.slot, BufferSize);
      var r4 := Get(r3.slot, BufferSize);
      w2.rc == |data| && r3.rc == 2 * |data| && r3.bytes == data + data &&
      r4.rc == 0 && r4.bytes == []
  {
    var w2 := Put(Ioctl(t, RestartCmd).slot, data);
    assert Unread(w2.slot) == Stored(w2.slot) == data + data;
  }

  /** The test's invalid command is refused with ENOTTY and changes
      nothing. */
  lemma InvalidCommandRefused(s: Slot, p: Platform)
    requires Valid(s) && p.intSize == KernelIntSize
    ensures MyInvalidIoctl(p).Some?
    ensures Ioctl(s, MyInvalidIoctl(p).value) == Reply(s, -ENOTTY)
  {
    TestCodesMatchDriver(p);
  }

  /** One device node's turn in the first pass of the multiple-nodes test:
      RESET, write `data`, read it back, RESTART. The node then holds
      `data` unread again, and no other node is touched. */
  method Session(d: CharDriver.Driver, minor: int, data: seq<bv8>) returns (echoed: seq<bv8>)
    requires d.Valid() && 0 <= minor < CharDriver.Slots && |data| <= BufferSize
    modifies d.buffers, d.hasBuffer, d.readIndex, d.writeIndex
    ensures d.Valid() && Valid(d.SlotAt(minor))
    ensures echoed == data && Unread(d.SlotAt(minor)) == data
    ensures forall m :: 0 <= m < CharDriver.Slots && m != minor ==> d.SlotAt(m) == old(d.SlotAt(m))
  {
    var rc := d.Ioctl(minor, ResetCmd);
    rc := d.Write(minor, data, true, |data|);
    assert Unread(d.SlotAt(minor)) == data;
    rc, echoed := d.Read(minor, BufferSize, true, BufferSize);
    rc := d.Ioctl(minor, RestartCmd);
  }

  /** The first pass of the multiple-nodes test over minors 0, 1, ...:
      each node echoes its own data and is left holding it unread. */
  method WritePass(d: CharDriver.Driver, data: seq<seq<bv8>>) returns (first: seq<seq<bv8>>)
    requires d.Valid() && |data| <= MaxDevices
    requires forall j :: 0 <= j < |data| ==> |data[j]| <= BufferSize
    modifies d.buffers, d.hasBuffer, d.readIndex, d.writeIndex
    ensures d.Valid() && first == data
    ensures forall j :: 0 <= j < |data| ==> Valid(d.SlotAt(j)) && Unread(d.SlotAt(j)) == data[j]
  {
    first := [];
    var i := 0;
    while i < |data|
      invariant 0 <= i <= |data| && d.Valid() && first == data[..i]
      invariant forall j :: 0 <= j < i ==> Valid(d.SlotAt(j)) && Unread(d.SlotAt(j)) == data[j]
    {
      var echoed := Session(d, i, data[i]);
      first := first + [echoed];
      i := i + 1;
    }
  }

  /** The second pass: reading every node again returns its own data. */
  method ReadPass(d: CharDriver.Driver, data: seq<seq<bv8>>) returns (second: seq<seq<bv8>>)
    requires d.Valid() && |data| <= MaxDevices
    requires forall j :: 0 <= j < |data| ==> Valid(d.SlotAt(j)) && Unread(d.SlotAt(j)) == data[j]
    modifies d.hasBuffer, d.readIndex
    ensures second == data
  {
    second := [];
    var i := 0;
    while i < |data|
      invariant 0 <= i <= |data| && d.Valid() && second == data[..i]
      invariant forall j :: i <= j < |data| ==> Valid(d.SlotAt(j)) && Unread(d.SlotAt(j)) == data[j]
    {
      var rc, bytes := d.Read(i, BufferSize, true, BufferSize);
      second := second + [bytes];
      i := i + 1;
    }
  }

  /** The multiple-nodes test: minors 0, 1, ... each get their own data in
      a first pass (which reads it straight back), and a second pass reads
      every node again; both passes return exactly each node's own data,
      whatever the driver held before. */
  method MultipleNodes(d: CharDriver.Driver, data: seq<seq<bv8>>) returns (first: seq<seq<bv8>>, second: seq<seq<bv8>>)
    requires d.Valid() && |data| <= MaxDevices
    requires forall j :: 0 <= j < |data| ==> |data[j]| <= BufferSize
    modifies d.buffers, d.hasBuffer, d.readIndex, d.writeIndex
    ensures first == data && second == data
  {
    first := WritePass(d, data);
    second := ReadPass(d, data);
  }

  /** Unloading after a write on a minor whose buffer allocation succeeds
      (from any state of the driver): the freeing loop as written leaves that
      minor's buffer alone, the corrected loop frees it. */
  method CleanupAfterWrite(d: CharDriver.Driver, minor: int, data: seq<bv8>) returns (asWritten: set<int>, fixed: set<int>)
    requires d.Valid() && 0 <= minor < MaxDevices && |data| <= BufferSize
    modifies d.buffers, d.hasBuffer, d.writeIndex
    ensures minor !in asWritten && minor in fixed
  {
    var rc := d.Write(minor, data, true, |data|);
    asWritten := d.CleanupModule();
    fixed := d.CleanupModuleFixed();
  }
}
