/** The loops of components/uart_maintainence/src/uart_ota.c and ota_flasher.py, each proved to take
    the steps of `Ota`. */
module OtaDevices {
  import opened Basics
  import opened Bytes
  import opened Crc32
  import opened Ota

  class Device {
    const expected: nat
    const buffer: array<byte>
    var flash: seq<byte>
    var totalReceived: nat
    var retries: nat
    var rebooted: bool

    ghost predicate Valid()
      reads this
    {
      && buffer.Length == BLOCK + 4 && totalReceived == |flash| <= expected
      && (!rebooted && totalReceived < expected ==> retries < MAX_RETRIES)
    }

    ghost function View(): (r: Receiver)
      requires Valid()
      reads this
      ensures ValidReceiver(r)
    {
      if rebooted then Rebooted(flash) else if totalReceived < expected then Receiving(expected, flash, retries)
      else Complete(flash)
    }

    /** Up to the acknowledgement of the announced size; a size of 0 is refused by a reboot. */
    constructor (announced: nat)
      ensures Valid() && View() == if announced == 0 then Rebooted([]) else Receiving(announced, [], 0)
      ensures fresh(buffer)
    {
      expected := announced;
      buffer := new byte[BLOCK + 4];
      flash, totalReceived, retries, rebooted := [], 0, 0, announced == 0;
    }

    /** The inner loop over uart_read_bytes. */
    method ReadUart(script: seq<Read>, need: nat) returns (got: nat, ok: bool, broken: bool)
      requires need <= buffer.Length
      modifies buffer
      ensures got <= need
      ensures ReadBlock(script, [], need, true, 0) == if broken then Broken else Block(buffer[..got], ok)
    {
      got, ok, broken := 0, true, false;
      var idle, next := 0, 0;
      assert script[0..] == script && buffer[..0] == [];
      while got < need
        invariant got <= need && next <= |script|
        invariant ReadBlock(script, [], need, true, 0) == ReadBlock(script[next..], buffer[..got], need, ok, idle)
        decreases |script| - next
      {
        if next == |script| {
          ok := false;
          return;
        }
        assert script[next..][1..] == script[next + 1..];
        match script[next] {
          case DriverError =>
            broken := true;
            return;
          case Data(bs) =>
            next := next + 1;
            if bs == [] {
              ok := false;
              idle := idle + 1;
              if idle >= MAX_RETRIES {
                return;
              }
            } else {
              var len := if |bs| < need - got then |bs| else need - got;
              Fill(bs, got, len);
              got := got + len;
            }
        }
      }
    }

    method Fill(bs: seq<byte>, at: nat, len: nat)
      requires at + len <= buffer.Length && len <= |bs|
      modifies buffer
      ensures buffer[..at + len] == old(buffer[..at]) + bs[..len]
    {
      var k := 0;
      while k < len
        invariant 0 <= k <= len && buffer[..at + k] == old(buffer[..at]) + bs[..k]
      {
        buffer[at + k] := bs[k];
        k := k + 1;
      }
    }

    /** NACK, and a reboot at the third in a row. */
    method Refuse() returns (reply: Option<Reply>)
      requires Valid() && !rebooted && totalReceived < expected
      modifies this`retries, this`rebooted
      ensures Valid() && Response(View(), reply) == Refused(old(View()))
    {
      reply := Some(Nack);
      retries := retries + 1;
      if retries >= MAX_RETRIES {
        rebooted := true;
      }
    }

    /** One turn of the receiver's outer loop. */
    method ReceiveBlock(script: seq<Read>, writeOk: bool) returns (reply: Option<Reply>)
      requires Valid() && !rebooted && totalReceived < expected
      modifies buffer, this
      ensures Valid() && Response(View(), reply) == Receive(old(View()), script, writeOk)
    {
      var remaining := expected - totalReceived;
      var payload := if remaining < BLOCK then remaining else BLOCK;
      var need := payload + 4;
      var got, ok, broken := ReadUart(script, need);
      if broken {
        rebooted := true;
        return None;
      }
      if !ok || got != need {
        reply := Refuse();
        return;
      }
      reply := Judge(need, writeOk);
    }

    /** The checksum of a full block, and its way into flash. */
    method Judge(need: nat, writeOk: bool) returns (reply: Option<Reply>)
      requires Valid() && !rebooted && totalReceived < expected && need == BlockSize(expected, totalReceived) + 4
      modifies this`flash, this`totalReceived, this`retries, this`rebooted
      ensures Valid() && Response(View(), reply) == Judged(old(View()), buffer[..need], writeOk)
    {
      ghost var bs := buffer[..need];
      assert bs[..need - 4] == buffer[..need - 4] && bs[need - 4..] == buffer[need - 4..need];
      var calculated := Crc32Le(Zeros(32), buffer, need - 4);
      var received := WordOf(buffer[need - 4..need]);
      assert FrameOk(bs) <==> calculated == received;
      hide FrameOk, Crc, WordOf;
      if calculated != received {
        reply := Refuse();
        return;
      }
      retries := 0;
      if !writeOk {
        rebooted := true;
        return None;
      }
      flash := flash + buffer[..need - 4];
      totalReceived := totalReceived + (need - 4);
      reply := Some(Ack);
    }
  }

  class Flasher {
    const file: seq<byte>
    var bytesSent: nat
    var retryCount: nat
    var aborted: bool

    ghost predicate Valid()
      reads this
    {
      bytesSent <= |file| && (!aborted && bytesSent < |file| ==> retryCount < 3)
    }

    ghost function View(): (s: Sender)
      requires Valid()
      reads this
      ensures ValidSender(s, file)
    {
      if aborted then Aborted else if bytesSent < |file| then Sending(bytesSent, retryCount) else AwaitingEot
    }

    constructor (image: seq<byte>)
      ensures Valid() && file == image && View() == if image == [] then AwaitingEot else Sending(0, 0)
    {
      file := image;
      bytesSent, retryCount, aborted := 0, 0, false;
    }

    /** The frame written to the port in this attempt. */
    method WriteFrame() returns (payload: seq<byte>)
      requires Valid() && View().Sending?
      ensures payload == FrameFor(View(), file)
    {
      var n := if |file| - bytesSent < BLOCK then |file| - bytesSent else BLOCK;
      var chunk := file[bytesSent..bytesSent + n];
      var a := new byte[n](i requires 0 <= i < n => chunk[i]);
      assert a[..n] == chunk;
      var crc := Crc32Le(Zeros(32), a, n);
      payload := chunk + LittleEndian(crc);
    }

    /** What the loop does with the byte it reads back, or with none. */
    method HandleResponse(response: Option<Reply>)
      requires Valid() && View().Sending?
      modifies this
      ensures Valid() && View() == OnReply(old(View()), file, response)
    {
      if response == Some(Ack) {
        bytesSent := bytesSent + if |file| - bytesSent < BLOCK then |file| - bytesSent else BLOCK;
        retryCount := 0;
      } else if response == Some(Nack) {
        retryCount := retryCount + 1;
        if retryCount >= 3 {
          aborted := true;
        }
      }
    }
  }

  /** Both programs against each other over a given line. */
  method Update(file: seq<byte>, tries: seq<Attempt>) returns (flash: seq<byte>, installed: bool)
    requires file != [] && Channel(file, |file|, tries)
    ensures flash <= file && (installed ==> flash == file)
  {
    hide Channel, Round;
    var sender := new Flasher(file);
    var device := new Device(|file|);
    var i := 0;
    assert tries[..0] == [];
    while i < |tries| && !sender.aborted && sender.bytesSent < |file| && !device.rebooted
      invariant i <= |tries| && sender.Valid() && device.Valid() && sender.file == file && device.expected == |file|
      invariant fresh(device) && fresh(device.buffer) && fresh(sender)
      invariant World(sender.View(), device.View()) == Run(file, |file|, tries[..i])
    {
      ChannelPrefix(file, |file|, tries, i);
      TransferSafe(file, tries[..i]);
      Exchange(sender, device, tries[i]);
      assert tries[..i + 1][..i] == tries[..i];
      i := i + 1;
    }
    ChannelPrefix(file, |file|, tries, i);
    TransferSafe(file, tries[..i]);
    flash := device.flash;
    installed := !device.rebooted && device.totalReceived == |file|;
  }

  /** One frame and its answer. */
  method Exchange(sender: Flasher, device: Device, a: Attempt)
    requires sender.Valid() && device.Valid() && sender.View().Sending? && device.View().Receiving?
    modifies sender, device, device.buffer
    ensures sender.Valid() && device.Valid()
    ensures World(sender.View(), device.View()) == Round(old(World(sender.View(), device.View())), sender.file, a)
  {
    var frame := sender.WriteFrame();
    var reply := device.ReceiveBlock(a.script, a.writeOk);
    sender.HandleResponse(reply);
  }
}
