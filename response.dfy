/**
 * The SDA-command response buffers of bench/response.c: four 256-byte output
 * buffers handed out by a ring buffer whose data array is the per-buffer
 * ready flags (sdam_rb is initialised over sdamsg_readies). Nothing in the
 * file releases a buffer.
 */
module Response {
  import opened Options
  import opened RingBuffer

  /** USB_SEND_BUFFER_SIZE. */
  const UsbSendBufferSize: nat := 256
  /** SDACMD_OUTPUT_BUFFERS_NUM. */
  const SdaCmdOutputBuffersNum: nat := 4

  lemma Pow2Four()
    ensures IsPow2(4)
  {
    assert IsPow2(2);
  }

  /** sdamsg_readies, sdamsg_buffers and sdam_rb. */
  class SdaMessages {
    var readies: array<bv8>
    var buffers: array2<char>
    var rb: RingBuf<bv8>

    ghost predicate Valid()
      reads this, rb
    {
      rb.Valid() && rb.data == readies && rb.wrap == SdaCmdOutputBuffersNum - 1 &&
      buffers.Length0 == SdaCmdOutputBuffersNum && buffers.Length1 == UsbSendBufferSize
    }

    /** The static state: zeroed flags and buffers, and an empty ring over the flags. */
    constructor ()
      ensures Valid() && fresh(readies) && fresh(buffers) && fresh(rb)
      ensures rb.head == 0 && rb.tail == 0 && rb.Count() == 0 && readies[..] == [0, 0, 0, 0]
    {
      var flags := new bv8[SdaCmdOutputBuffersNum](_ => 0);
      buffers := new char[SdaCmdOutputBuffersNum, UsbSendBufferSize]((_, _) => '\0');
      Pow2Four();
      readies := flags;
      rb := new RingBuf<bv8>.Over(flags);
    }

    /**
     * sda_start(idx): acquire a buffer index from sdam_rb, clear its ready
     * flag and return that buffer (its row, here); NULL when all three
     * acquirable slots are taken. The index output keeps its value prevIdx
     * on failure.
     */
    method Start(prevIdx: int) returns (buf: Option<int>, idx: int)
      requires Valid()
      modifies rb`head, readies
      ensures Valid() && rb.tail == old(rb.tail)
      ensures buf.None? <==> old(rb.Count()) == SdaCmdOutputBuffersNum - 1
      ensures buf.Some? ==> buf.value == idx && idx == old(rb.head) && 0 <= idx < SdaCmdOutputBuffersNum
      ensures buf.Some? ==> rb.head == (idx + 1) % SdaCmdOutputBuffersNum
      ensures buf.Some? ==> readies[..] == old(readies[..])[idx := 0]
      ensures buf.Some? ==> rb.Count() == old(rb.Count()) + 1 && rb.Slots() == old(rb.Slots()) + [idx]
      ensures buf.None? ==> idx == prevIdx && rb.head == old(rb.head) && readies[..] == old(readies[..])
    {
      var ok;
      ok, idx := rb.Acquire(prevIdx);
      if ok {
        readies[idx] := 0;
        buf := Some(idx);
      } else {
        buf := None;
      }
    }

    /**
     * sda_finish(end, idx), with end at column pos of buffer row: write a
     * newline and a NUL there, set the ready flag of idx and return 1. The
     * ring is not touched.
     */
    method Finish(row: int, pos: int, idx: int) returns (r: int)
      requires Valid()
      requires 0 <= row < SdaCmdOutputBuffersNum && 0 <= pos && pos + 1 < UsbSendBufferSize
      requires 0 <= idx < SdaCmdOutputBuffersNum
      modifies buffers, readies
      ensures Valid() && r == 1
      ensures buffers[row, pos] == '\n' && buffers[row, pos + 1] == '\0'
      ensures forall i, j :: 0 <= i < buffers.Length0 && 0 <= j < buffers.Length1 && !(i == row && (j == pos || j == pos + 1)) ==>
                buffers[i, j] == old(buffers[i, j])
      ensures readies[..] == old(readies[..])[idx := 1]
    {
      buffers[row, pos] := '\n';
      buffers[row, pos + 1] := '\0';
      readies[idx] := 1;
      r := 1;
    }
  }

  /** bench/response_tb.c: the first buffer is handed out, and finishing an
      empty message in it marks it ready. */
  method ResponseTb() returns (s: SdaMessages, idx: int)
    ensures s.Valid() && idx == 0
    ensures s.readies[..] == [1, 0, 0, 0]
    ensures s.buffers[idx, 0] == '\n' && s.buffers[idx, 1] == '\0'
  {
    s := new SdaMessages();
    var buf;
    buf, idx := s.Start(0);
    assert buf.Some?;
    var r := s.Finish(buf.value, 0, idx);
    assert r == 1;
  }

  /** With no release anywhere, three calls of sda_start succeed and every
      later one returns NULL. */
  method Exhaust() returns (s: SdaMessages)
    ensures s.Valid() && s.rb.Count() == SdaCmdOutputBuffersNum - 1
    ensures s.readies[..] == [0, 0, 0, 0]
  {
    s := new SdaMessages();
    var buf, idx := s.Start(0);
    assert buf == Some(0);
    buf, idx := s.Start(idx);
    assert buf == Some(1);
    buf, idx := s.Start(idx);
    assert buf == Some(2);
    buf, idx := s.Start(idx);
    assert buf.None? && idx == 2;
    buf, idx := s.Start(idx);
    assert buf.None?;
  }
}
