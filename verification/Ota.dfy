/** The firmware update over UART: the receiver of components/uart_maintainence/src/uart_ota.c and
    the sender of ota_flasher.py, as two state machines joined by a data channel that may drop and
    alter bytes and a reply channel that is reliable and timely. */
module Ota {
  import opened Basics
  import opened Bytes
  import opened Crc32
  import Seqs

  const BLOCK: nat := 2048
  const MAX_RETRIES: nat := 3

  // ----- Receiver -----

  /** The result of one uart_read_bytes call; `Data([])` is a timeout. */
  datatype Read = Data(bs: seq<byte>) | DriverError

  datatype Reply = Ack | Nack

  /** The size announced by the sender, and the application bytes written so far. */
  datatype Receiver =
    | Receiving(expected: nat, flash: seq<byte>, retries: nat)
    | Complete(flash: seq<byte>)
    | Rebooted(flash: seq<byte>)

  datatype Block = Block(bs: seq<byte>, ok: bool) | Broken

  /** The inner loop: reads until `need` bytes are in or three reads have timed out. One timeout
      already spoils the block. When the script ends nothing more arrives. */
  function ReadBlock(script: seq<Read>, got: seq<byte>, need: nat, ok: bool, idle: nat): Block
    decreases script
  {
    if |got| >= need then Block(got, ok)
    else if script == [] then Block(got, false)
    else match script[0]
      case DriverError => Broken
      case Data(bs) =>
        if bs == [] then
          if idle + 1 >= MAX_RETRIES then Block(got, false) else ReadBlock(script[1..], got, need, false, idle + 1)
        else ReadBlock(script[1..], got + bs[..Min(|bs|, need - |got|)], need, ok, idle)
  }

  datatype Response = Response(r: Receiver, reply: Option<Reply>)

  function BlockSize(size: nat, done: nat): nat
    requires done < size
  {
    Min(BLOCK, size - done)
  }

  predicate ValidReceiver(r: Receiver)
  {
    r.Receiving? ==> |r.flash| < r.expected && r.retries < MAX_RETRIES
  }

  function Refused(r: Receiver): Response
    requires r.Receiving?
  {
    Response(if r.retries + 1 >= MAX_RETRIES then Rebooted(r.flash) else r.(retries := r.retries + 1), Some(Nack))
  }

  /** One turn of the outer loop. */
  function Receive(r: Receiver, script: seq<Read>, writeOk: bool): (s: Response)
    requires ValidReceiver(r)
    ensures ValidReceiver(s.r)
  {
    if !r.Receiving? then Response(r, None)
    else
      var need := BlockSize(r.expected, |r.flash|) + 4;
      match ReadBlock(script, [], need, true, 0)
      case Broken => Response(Rebooted(r.flash), None)
      case Block(bs, ok) =>
        if !ok || |bs| != need then Refused(r) else Judged(r, bs, writeOk)
  }

  /** What becomes of a block of the right length. */
  function Judged(r: Receiver, bs: seq<byte>, writeOk: bool): (s: Response)
    requires ValidReceiver(r) && r.Receiving? && |bs| == BlockSize(r.expected, |r.flash|) + 4
    ensures ValidReceiver(s.r)
  {
    if !FrameOk(bs) then Refused(r)
    else if !writeOk then Response(Rebooted(r.flash), None)
    else
      var flash := r.flash + bs[..|bs| - 4];
      Response(if |flash| < r.expected then Receiving(r.expected, flash, 0) else Complete(flash), Some(Ack))
  }

  // ----- Sender -----

  datatype Sender = Sending(sent: nat, retry: nat) | AwaitingEot | Aborted

  predicate ValidSender(s: Sender, file: seq<byte>)
  {
    s.Sending? ==> s.sent < |file| && s.retry < 3
  }

  /** The frame on the wire: up to 2048 bytes and their checksum. */
  function FrameFor(s: Sender, file: seq<byte>): (f: seq<byte>)
    requires s.Sending? && ValidSender(s, file)
    ensures |f| == BlockSize(|file|, s.sent) + 4
  {
    Frame(file[s.sent..s.sent + BlockSize(|file|, s.sent)])
  }

  /** A reply that never comes makes the sender repeat the frame without counting a retry. */
  function OnReply(s: Sender, file: seq<byte>, reply: Option<Reply>): (s': Sender)
    requires ValidSender(s, file)
    ensures ValidSender(s', file)
  {
    if !s.Sending? then s
    else match reply
      case None => s
      case Some(Nack) => if s.retry + 1 >= 3 then Aborted else s.(retry := s.retry + 1)
      case Some(Ack) =>
        var sent := s.sent + BlockSize(|file|, s.sent);
        if sent < |file| then Sending(sent, 0) else AwaitingEot
  }

  // ----- The channel -----

  function Arrived(script: seq<Read>): seq<byte>
  {
    if script == [] then []
    else (if script[0].Data? then script[0].bs else []) + Arrived(script[1..])
  }

  /** What the data channel may make of a frame: it can lose bytes, and it can alter them, but an
      altered frame of full length fails its checksum. How the bytes fall into reads, and where the
      pauses are, is arbitrary. */
  ghost predicate Delivers(frame: seq<byte>, script: seq<Read>)
  {
    var bs := Arrived(script);
    && |bs| <= |frame|
    && (|bs| == |frame| >= 4 && bs != frame ==> !FrameOk(bs))
  }

  /** Damage confined to 32 consecutive bits is always within that assumption. */
  lemma BurstIsDelivery(payload: seq<byte>, damaged: seq<byte>, k: nat, n: nat)
    requires |damaged| == |Frame(payload)| && n <= 32
    requires DifferOnlyWithin(BitStream(Frame(payload)), BitStream(damaged), k, n)
    ensures Delivers(Frame(payload), [Data(damaged)])
  {
    var script := [Data(damaged)];
    assert script[1..] == [] && damaged + [] == damaged;
    if damaged != Frame(payload) {
      DamagedFrameRejected(payload, damaged, k, n);
    }
  }

  /** With no more bytes than needed, a good block is everything that arrived. */
  lemma {:induction false} ReadBlockIsAll(script: seq<Read>, got: seq<byte>, need: nat, ok: bool, idle: nat)
    requires |got| + |Arrived(script)| <= need
    ensures match ReadBlock(script, got, need, ok, idle) {
              case Broken => true
              case Block(bs, good) => (good ==> ok && |bs| == need) && (|bs| == need ==> bs == got + Arrived(script))
            }
    decreases script
  {
    if |got| >= need {
      Seqs.Empty(got);
    } else if script != [] && script[0].Data? {
      var bs := script[0].bs;
      if bs == [] {
        Seqs.Empty(Arrived(script[1..]));
        if idle + 1 < MAX_RETRIES {
          ReadBlockIsAll(script[1..], got, need, false, idle + 1);
        }
      } else {
        assert bs[..Min(|bs|, need - |got|)] == bs;
        ReadBlockIsAll(script[1..], got + bs, need, ok, idle);
        Seqs.Assoc(got, bs, Arrived(script[1..]));
      }
    }
  }

  // ----- Whole updates -----

  datatype World = World(s: Sender, r: Receiver)

  /** What the environment does in one attempt. */
  datatype Attempt = Attempt(script: seq<Read>, writeOk: bool)

  /** One round: frame, verdict, reply. A receiver that is no longer listening answers nothing. */
  function Round(w: World, file: seq<byte>, a: Attempt): (w': World)
    requires ValidSender(w.s, file) && ValidReceiver(w.r)
    ensures ValidSender(w'.s, file) && ValidReceiver(w'.r)
  {
    if !w.s.Sending? then w
    else
      var x := Receive(w.r, a.script, a.writeOk);
      World(OnReply(w.s, file, x.reply), x.r)
  }

  /** After the size handshake: `announced` is what the receiver understood. */
  function Start(file: seq<byte>, announced: nat): World
  {
    World(if file == [] then AwaitingEot else Sending(0, 0),
          if announced == 0 then Rebooted([]) else Receiving(announced, [], 0))
  }

  function Run(file: seq<byte>, announced: nat, tries: seq<Attempt>): (w: World)
    ensures ValidSender(w.s, file) && ValidReceiver(w.r)
  {
    if tries == [] then Start(file, announced)
    else Round(Run(file, announced, tries[..|tries| - 1]), file, tries[|tries| - 1])
  }

  /** Every frame was treated as the channel may treat it. */
  ghost predicate Channel(file: seq<byte>, announced: nat, tries: seq<Attempt>)
  {
    forall i :: 0 <= i < |tries| ==>
      var w := Run(file, announced, tries[..i]);
      w.s.Sending? ==> Delivers(FrameFor(w.s, file), tries[i].script)
  }

  /** The two sides in step. */
  ghost predicate InStep(w: World, file: seq<byte>)
  {
    match w.r
    case Receiving(expected, flash, retries) =>
      expected == |file| && |flash| < |file| && w.s == Sending(|flash|, retries) && flash == file[..|flash|]
    case Complete(flash) => w.s.AwaitingEot? && flash == file
    case Rebooted(flash) => |flash| < |file| && flash == file[..|flash|] && !w.s.AwaitingEot?
  }

  /** What one intact, damaged or shortened frame does to two sides in step. */
  lemma RoundInStep(w: World, file: seq<byte>, a: Attempt)
    requires ValidSender(w.s, file) && ValidReceiver(w.r) && InStep(w, file)
    requires w.s.Sending? ==> Delivers(FrameFor(w.s, file), a.script)
    ensures InStep(Round(w, file, a), file)
  {
    hide FrameOk, Frame, ReadBlock, Delivers;
    if w.s.Sending? && w.r.Receiving? {
      AcceptedIsFrame(w, file, a);
    }
  }

  /** A block that passes the receiver's test is the frame that was sent. */
  lemma AcceptedIsFrame(w: World, file: seq<byte>, a: Attempt)
    requires ValidSender(w.s, file) && ValidReceiver(w.r) && InStep(w, file) && w.s.Sending? && w.r.Receiving?
    requires Delivers(FrameFor(w.s, file), a.script)
    ensures var n := BlockSize(|file|, w.s.sent);
            match ReadBlock(a.script, [], n + 4, true, 0) {
              case Broken => true
              case Block(bs, ok) =>
                ok && |bs| == n + 4 && FrameOk(bs) ==>
                  bs[..n] == file[w.s.sent..w.s.sent + n] && w.r.flash + bs[..n] == file[..w.s.sent + n]
            }
  {
    hide FrameOk, Frame, ReadBlock, Delivers;
    var n := BlockSize(|file|, w.s.sent);
    PassedIsFrame(FrameFor(w.s, file), a.script);
    FramePayload(file[w.s.sent..w.s.sent + n]);
    PrefixGrows(file, w.s.sent, n);
  }

  lemma PassedIsFrame(frame: seq<byte>, script: seq<Read>)
    requires |frame| >= 4 && Delivers(frame, script)
    ensures match ReadBlock(script, [], |frame|, true, 0) {
              case Broken => true
              case Block(bs, ok) => ok && |bs| == |frame| && FrameOk(bs) ==> bs == frame
            }
  {
    hide FrameOk, ReadBlock, Arrived;
    ReadBlockIsAll(script, [], |frame|, true, 0);
    Seqs.Empty(Arrived(script));
  }

  lemma {:induction false} AlwaysInStep(file: seq<byte>, tries: seq<Attempt>)
    requires file != [] && Channel(file, |file|, tries)
    ensures InStep(Run(file, |file|, tries), file)
  {
    if tries != [] {
      var n := |tries| - 1;
      ChannelPrefix(file, |file|, tries, n);
      AlwaysInStep(file, tries[..n]);
      RoundInStep(Run(file, |file|, tries[..n]), file, tries[n]);
    }
  }

  lemma ChannelPrefix(file: seq<byte>, announced: nat, tries: seq<Attempt>, n: nat)
    requires Channel(file, announced, tries) && n <= |tries|
    ensures Channel(file, announced, tries[..n])
  {
    forall i | 0 <= i < n
      ensures var w := Run(file, announced, tries[..n][..i]);
              w.s.Sending? ==> Delivers(FrameFor(w.s, file), tries[..n][i].script)
    {
      assert tries[..n][..i] == tries[..i];
    }
  }

  /** Safety over every update whose size was understood: at all times the flash holds a prefix of
      the file; while both sides work they agree on position and retry count; the receiver declares
      success only with the whole file written; and it never gives up on NACKs without the sender
      doing so in the same round. */
  lemma TransferSafe(file: seq<byte>, tries: seq<Attempt>)
    requires file != [] && Channel(file, |file|, tries)
    ensures var w := Run(file, |file|, tries);
            && w.r.flash <= file
            && (w.r.Receiving? ==> w.s.Sending? && w.s.sent == |w.r.flash| && w.s.retry == w.r.retries)
            && (w.r.Complete? ==> w.r.flash == file)
            && (w.s.AwaitingEot? <==> w.r.Complete?)
            && (w.s.Aborted? ==> w.r.Rebooted?)
  {
    AlwaysInStep(file, tries);
    if Run(file, |file|, tries).r.Complete? {
      assert file <= file;
    }
  }

  // ----- Verdicts, from the line alone -----

  /** Every read brings something. */
  predicate Steady(script: seq<Read>) { forall i :: 0 <= i < |script| ==> script[i].Data? && script[i].bs != [] }

  predicate NoDriverError(script: seq<Read>) { forall i :: 0 <= i < |script| ==> script[i].Data? }

  /** Some reads, none of them empty, bring `need` bytes before anything else happens. */
  ghost predicate Clean(script: seq<Read>, need: nat)
  {
    exists n :: CleanAfter(script, need, n)
  }

  ghost predicate CleanAfter(script: seq<Read>, need: nat, n: nat)
  {
    n <= |script| && Steady(script[..n]) && |Arrived(script[..n])| == need
  }

  /** The whole frame, unaltered and without a pause. */
  ghost predicate Intact(frame: seq<byte>, script: seq<Read>)
  {
    Clean(script, |frame|) && Arrived(script) == frame
  }

  /** The same, read by read. */
  predicate Brings(script: seq<Read>, left: nat)
    decreases script
  {
    left == 0 ||
    (script != [] && script[0].Data? && 0 < |script[0].bs| <= left && Brings(script[1..], left - |script[0].bs|))
  }

  lemma {:induction false} CleanBrings(script: seq<Read>, left: nat, n: nat)
    requires CleanAfter(script, left, n)
    ensures Brings(script, left)
    decreases script
  {
    if left > 0 {
      var bs := script[..n][0].bs;
      assert script[..n][0] == script[0] && script[..n][1..] == script[1..][..n - 1];
      CleanBrings(script[1..], left - |bs|, n - 1);
    }
  }

  lemma {:induction false} BringsClean(script: seq<Read>, left: nat) returns (n: nat)
    requires Brings(script, left)
    ensures CleanAfter(script, left, n)
    decreases script
  {
    if left == 0 {
      n := 0;
      assert script[..0] == [];
    } else {
      var k := BringsClean(script[1..], left - |script[0].bs|);
      n := k + 1;
      assert script[..n] == [script[0]] + script[1..][..k];
      assert script[..n][1..] == script[1..][..k];
    }
  }

  /** Without a driver error the reading loop gets a good block if and only if no earlier pause spoilt it
      and reads that all bring something bring the rest. */
  lemma {:induction false} GoodBlockIff(script: seq<Read>, got: seq<byte>, need: nat, ok: bool, idle: nat)
    requires NoDriverError(script) && |got| + |Arrived(script)| <= need
    ensures var r := ReadBlock(script, got, need, ok, idle);
            r.Block? && (r.ok && |r.bs| == need <==> ok && Brings(script, need - |got|))
    decreases script
  {
    if |got| < need && script != [] {
      var bs := script[0].bs;
      if bs == [] {
        if idle + 1 < MAX_RETRIES {
          GoodBlockIff(script[1..], got, need, false, idle + 1);
        }
      } else {
        assert bs[..Min(|bs|, need - |got|)] == bs;
        GoodBlockIff(script[1..], got + bs, need, ok, idle);
      }
    }
  }

  /** The verdict on a block, said by the line: without a driver error a block is refused if and only if
      it did not come clean or its checksum fails; a block that passes is acknowledged if flash takes it. */
  lemma VerdictIff(r: Receiver, a: Attempt)
    requires ValidReceiver(r) && r.Receiving? && NoDriverError(a.script)
    requires |Arrived(a.script)| <= BlockSize(r.expected, |r.flash|) + 4
    ensures var need, bs, reply := BlockSize(r.expected, |r.flash|) + 4, Arrived(a.script), Receive(r, a.script, a.writeOk).reply;
            var good := Clean(a.script, need) && |bs| == need && FrameOk(bs);
            reply == if !good then Some(Nack) else if a.writeOk then Some(Ack) else None
  {
    var need := BlockSize(r.expected, |r.flash|) + 4;
    GoodBlockIff(a.script, [], need, true, 0);
    ReadBlockIsAll(a.script, [], need, true, 0);
    Seqs.Empty(Arrived(a.script));
    hide FrameOk, ReadBlock, Arrived;
    if Brings(a.script, need) {
      var n := BringsClean(a.script, need);
    }
    if Clean(a.script, need) {
      var n :| CleanAfter(a.script, need, n);
      CleanBrings(a.script, need, n);
    }
  }

  /** The same for a frame under way between two sides in step. */
  lemma FrameVerdict(w: World, file: seq<byte>, a: Attempt)
    requires ValidSender(w.s, file) && ValidReceiver(w.r) && InStep(w, file) && w.r.Receiving?
    requires NoDriverError(a.script) && Delivers(FrameFor(w.s, file), a.script)
    ensures Receive(w.r, a.script, a.writeOk).reply ==
              if !Intact(FrameFor(w.s, file), a.script) then Some(Nack) else if a.writeOk then Some(Ack) else None
  {
    var frame := FrameFor(w.s, file);
    VerdictIff(w.r, a);
    FrameAccepted(file[w.s.sent..w.s.sent + BlockSize(|file|, w.s.sent)]);
    hide FrameOk, Receive, Clean, Frame, Arrived;
  }

  /** A frame that is shortened, altered or interrupted by a pause costs both sides a retry, and the third
      in a row ends the update on both. */
  lemma ThirdNackAborts(w: World, file: seq<byte>, a: Attempt)
    requires ValidSender(w.s, file) && ValidReceiver(w.r) && InStep(w, file) && w.r.Receiving?
    requires NoDriverError(a.script) && Delivers(FrameFor(w.s, file), a.script) && !Intact(FrameFor(w.s, file), a.script)
    ensures var w' := Round(w, file, a);
            if w.r.retries == 2 then w' == World(Aborted, Rebooted(w.r.flash))
            else w' == World(Sending(|w.r.flash|, w.r.retries + 1), w.r.(retries := w.r.retries + 1))
  {
    hide Intact, Delivers, Receive, Frame;
    FrameVerdict(w, file, a);
    NackCounts(w.r, a);
  }

  lemma NackCounts(r: Receiver, a: Attempt)
    requires ValidReceiver(r) && r.Receiving? && Receive(r, a.script, a.writeOk).reply == Some(Nack)
    ensures Receive(r, a.script, a.writeOk) == Refused(r)
  {
    hide FrameOk, ReadBlock;
  }

  /** The receiver gives up only on the third refusal, a driver error or a failed write. */
  lemma RebootsOnlyFor(r: Receiver, a: Attempt)
    requires ValidReceiver(r) && r.Receiving? && Receive(r, a.script, a.writeOk).r.Rebooted?
    requires |Arrived(a.script)| <= BlockSize(r.expected, |r.flash|) + 4
    ensures !NoDriverError(a.script) || !a.writeOk || (r.retries == 2 && Receive(r, a.script, a.writeOk).reply == Some(Nack))
  {
    if NoDriverError(a.script) {
      VerdictIff(r, a);
    }
    hide FrameOk, ReadBlock, Clean, Arrived;
  }

  lemma ReadWhole(frame: seq<byte>)
    requires frame != []
    ensures ReadBlock([Data(frame)], [], |frame|, true, 0) == Block(frame, true)
    ensures Arrived([Data(frame)]) == frame
  {
    assert [Data(frame)][1..] == [] && frame + [] == frame;
    assert [] + frame[..Min(|frame|, |frame|)] == frame;
  }

  /** Reads that bring enough without a pause are collected in order. */
  lemma {:induction false} ReadClean(script: seq<Read>, got: seq<byte>, need: nat)
    requires |got| <= need && Brings(script, need - |got|)
    ensures var bs := got + Arrived(script); |bs| >= need && ReadBlock(script, got, need, true, 0) == Block(bs[..need], true)
    decreases script
  {
    if |got| < need {
      var bs, rest := script[0].bs, script[1..];
      assert bs[..Min(|bs|, need - |got|)] == bs;
      Seqs.Assoc(got, bs, Arrived(rest));
      ReadClean(rest, got + bs, need);
    }
  }

  /** A frame that arrives whole, in however many reads, is accepted and moves both sides on by one
      block. */
  lemma IntactFrameAccepted(w: World, file: seq<byte>, a: Attempt)
    requires ValidSender(w.s, file) && ValidReceiver(w.r) && InStep(w, file) && w.r.Receiving?
    requires Intact(FrameFor(w.s, file), a.script) && a.writeOk
    ensures var sent := w.s.sent + BlockSize(|file|, w.s.sent);
            Round(w, file, a) == if sent < |file| then World(Sending(sent, 0), Receiving(|file|, file[..sent], 0))
                                 else World(AwaitingEot, Complete(file))
  {
    hide Arrived, ReadBlock, Judged, Frame, Brings, CleanAfter;
    var frame := FrameFor(w.s, file);
    var n :| CleanAfter(a.script, |frame|, n);
    CleanBrings(a.script, |frame|, n);
    ReadClean(a.script, [], |frame|);
    Seqs.Empty(frame);
    FrameJudged(w, file);
  }

  lemma FrameJudged(w: World, file: seq<byte>)
    requires ValidSender(w.s, file) && ValidReceiver(w.r) && InStep(w, file) && w.r.Receiving?
    ensures var sent := w.s.sent + BlockSize(|file|, w.s.sent);
            Judged(w.r, FrameFor(w.s, file), true) ==
              Response(if sent < |file| then Receiving(|file|, file[..sent], 0) else Complete(file), Some(Ack))
  {
    hide FrameOk, Frame;
    var n := BlockSize(|file|, w.s.sent);
    var payload := file[w.s.sent..w.s.sent + n];
    FrameAccepted(payload);
    FramePayload(payload);
    PrefixGrows(file, w.s.sent, n);
  }

  lemma PrefixGrows(file: seq<byte>, sent: nat, n: nat)
    requires sent + n <= |file|
    ensures file[..sent] + file[sent..sent + n] == file[..sent + n] && (sent + n == |file| ==> file[..sent + n] == file)
  {
  }

  /** What the flash holds at the end has the announced length, whatever happens on the line. */
  lemma {:induction false} CompleteHasAnnouncedSize(file: seq<byte>, announced: nat, tries: seq<Attempt>)
    ensures var r := Run(file, announced, tries).r;
            && (r.Receiving? ==> r.expected == announced)
            && (r.Complete? ==> |r.flash| == announced)
  {
    if tries != [] {
      var n := |tries| - 1;
      CompleteHasAnnouncedSize(file, announced, tries[..n]);
    }
  }

  /** The size itself travels unprotected. A completed update installed the file if and only if the
      receiver understood its size. */
  lemma InstalledIffSizeUnderstood(file: seq<byte>, announced: nat, tries: seq<Attempt>)
    requires file != [] && Channel(file, announced, tries) && Run(file, announced, tries).r.Complete?
    ensures Run(file, announced, tries).r.flash == file <==> announced == |file|
  {
    CompleteHasAnnouncedSize(file, announced, tries);
    if announced == |file| {
      TransferSafe(file, tries);
    }
  }

  /** A receiver that understood the size of one block is content with it. */
  lemma OneBlockSuffices(payload: seq<byte>)
    requires |payload| == BLOCK
    ensures Receive(Receiving(BLOCK, [], 0), [Data(Frame(payload))], true) == Response(Complete(payload), Some(Ack))
  {
    FrameAccepted(payload);
    FramePayload(payload);
    ReadWhole(Frame(payload));
    hide FrameOk, Frame, ReadBlock;
    Seqs.Empty(payload);
  }

  /** So a size misunderstood as one block installs only the start of a longer file. */
  lemma TruncatedUpdateExample(file: seq<byte>)
    requires |file| > BLOCK
    ensures exists tries :: Channel(file, BLOCK, tries) && Run(file, BLOCK, tries).r == Complete(file[..BLOCK])
  {
    hide FrameOk, Frame, ReadBlock, Receive, Channel, Run, Delivers;
    assert file[0..0 + BlockSize(|file|, 0)] == file[..BLOCK];
    var a := Attempt([Data(FrameFor(Sending(0, 0), file))], true);
    OneBlockSuffices(file[..BLOCK]);
    FrameDelivered(FrameFor(Sending(0, 0), file));
    OneAttempt(file, BLOCK, a);
    assert Channel(file, BLOCK, [a]);
  }

  lemma FrameDelivered(frame: seq<byte>)
    requires frame != []
    ensures Delivers(frame, [Data(frame)])
  {
    ReadWhole(frame);
    hide FrameOk, ReadBlock, Arrived;
  }

  /** A run of one attempt. */
  lemma OneAttempt(file: seq<byte>, announced: nat, a: Attempt)
    requires file != []
    ensures Run(file, announced, [a]) == Round(Start(file, announced), file, a)
    ensures Delivers(FrameFor(Sending(0, 0), file), a.script) ==> Channel(file, announced, [a])
  {
    hide Round, Delivers, Frame;
    assert [a][..0] == [];
    assert Run(file, announced, [a][..0]) == Start(file, announced);
  }

  // ----- Completion -----

  function BlocksLeft(n: nat): nat { (n + BLOCK - 1) / BLOCK }

  /** Rounds that can still be needed: three per block, less the retries already used. */
  function RoundsLeft(w: World, file: seq<byte>): int
    requires ValidSender(w.s, file)
  {
    if w.s.Sending? then 3 * BlocksLeft(|file| - w.s.sent) - w.s.retry else 0
  }

  /** Attempt `i` was made and its frame did not come through. */
  ghost predicate Damaged(file: seq<byte>, tries: seq<Attempt>, i: nat)
    requires i < |tries|
  {
    var s := Run(file, |file|, tries[..i]).s;
    s.Sending? && !Intact(FrameFor(s, file), tries[i].script)
  }

  /** Driver and flash work. */
  ghost predicate Working(tries: seq<Attempt>)
  {
    forall i :: 0 <= i < |tries| ==> NoDriverError(tries[i].script) && tries[i].writeOk
  }

  /** Never are the frames of three attempts in a row damaged. */
  ghost predicate Patient(file: seq<byte>, tries: seq<Attempt>)
  {
    forall i :: 2 <= i < |tries| ==> !(Damaged(file, tries, i - 2) && Damaged(file, tries, i - 1) && Damaged(file, tries, i))
  }

  lemma DamagedInPrefix(file: seq<byte>, tries: seq<Attempt>, n: nat)
    requires n <= |tries|
    ensures forall i :: 0 <= i < n ==> Damaged(file, tries[..n], i) == Damaged(file, tries, i)
  {
    hide Intact, Frame;
    forall i | 0 <= i < n
      ensures Damaged(file, tries[..n], i) == Damaged(file, tries, i)
    {
      assert tries[..n][..i] == tries[..i];
    }
  }

  /** What an attempt makes of two sides in step, by whether its frame was damaged. */
  ghost predicate Stepped(w: World, w': World, file: seq<byte>, damaged: bool)
  {
    match w.r
    case Receiving(_, flash, retries) =>
      if damaged then
        (if retries == 2 then w'.r.Rebooted? else w' == World(Sending(|flash|, retries + 1), w.r.(retries := retries + 1)))
      else
        var sent := |flash| + Min(BLOCK, |file| - |flash|);
        if sent < |file| then w' == World(Sending(sent, 0), Receiving(|file|, file[..sent], 0)) else w' == World(AwaitingEot, Complete(file))
    case _ => w'.r == w.r
  }

  lemma AttemptSteps(w: World, file: seq<byte>, a: Attempt)
    requires ValidSender(w.s, file) && ValidReceiver(w.r) && InStep(w, file) && NoDriverError(a.script) && a.writeOk
    requires w.s.Sending? ==> Delivers(FrameFor(w.s, file), a.script)
    ensures Stepped(w, Round(w, file, a), file, w.s.Sending? && !Intact(FrameFor(w.s, file), a.script))
  {
    if w.r.Receiving? {
      hide Intact, Delivers, FrameFor, Round;
      if Intact(FrameFor(w.s, file), a.script) {
        IntactFrameAccepted(w, file, a);
      } else {
        ThirdNackAborts(w, file, a);
      }
    } else {
      ReceiverRests(w, file, a);
      hide Round;
    }
  }

  lemma ReceiverRests(w: World, file: seq<byte>, a: Attempt)
    requires ValidSender(w.s, file) && ValidReceiver(w.r) && !w.r.Receiving?
    ensures Round(w, file, a).r == w.r
  {
  }

  /** The last attempt of a run. */
  lemma RunSteps(file: seq<byte>, tries: seq<Attempt>)
    requires file != [] && tries != [] && Channel(file, |file|, tries) && Working(tries)
    ensures var n := |tries| - 1;
            Stepped(Run(file, |file|, tries[..n]), Run(file, |file|, tries), file, Damaged(file, tries, n))
    ensures InStep(Run(file, |file|, tries[..|tries| - 1]), file)
  {
    hide Intact, Delivers, Frame, Round, InStep, Stepped;
    var n := |tries| - 1;
    ChannelPrefix(file, |file|, tries, n);
    AlwaysInStep(file, tries[..n]);
    AttemptSteps(Run(file, |file|, tries[..n]), file, tries[n]);
  }

  /** The last `k` attempts were damaged. */
  ghost predicate LastDamaged(file: seq<byte>, tries: seq<Attempt>, k: nat)
  {
    k <= |tries| && forall i :: |tries| - k <= i < |tries| ==> Damaged(file, tries, i)
  }

  /** A retry count is the number of damaged frames just before. */
  lemma {:induction false} RetriesWereDamaged(file: seq<byte>, tries: seq<Attempt>)
    requires file != [] && Channel(file, |file|, tries) && Working(tries)
    ensures var r := Run(file, |file|, tries).r; r.Receiving? ==> LastDamaged(file, tries, r.retries)
  {
    hide Run, Damaged, Channel, InStep, LastDamaged;
    RunStarts(file);
    NoneDamaged(file, tries);
    if tries != [] {
      var n := |tries| - 1;
      var w := Run(file, |file|, tries[..n]);
      ChannelPrefix(file, |file|, tries, n);
      RetriesWereDamaged(file, tries[..n]);
      RunSteps(file, tries);
      if w.r.Receiving? && Damaged(file, tries, n) {
        LastDamagedNext(file, tries, w.r.retries);
      }
    }
  }

  lemma RunStarts(file: seq<byte>)
    requires file != []
    ensures Run(file, |file|, []) == World(Sending(0, 0), Receiving(|file|, [], 0))
  {
  }

  lemma LastDamagedNext(file: seq<byte>, tries: seq<Attempt>, k: nat)
    requires tries != []
    requires Damaged(file, tries, |tries| - 1) && LastDamaged(file, tries[..|tries| - 1], k)
    ensures LastDamaged(file, tries, k + 1)
  {
    hide Damaged;
    DamagedInPrefix(file, tries, |tries| - 1);
  }

  lemma NoneDamaged(file: seq<byte>, tries: seq<Attempt>)
    ensures LastDamaged(file, tries, 0)
  {
  }

  /** A step from two sides in step uses up a round. */
  lemma StepUsesRound(w: World, w': World, file: seq<byte>, damaged: bool)
    requires ValidSender(w.s, file) && ValidSender(w'.s, file) && InStep(w, file) && w.r.Receiving?
    requires Stepped(w, w', file, damaged) && (damaged ==> w.r.retries < 2)
    ensures !w'.r.Rebooted? && (w'.r.Receiving? ==> RoundsLeft(w', file) < RoundsLeft(w, file))
  {
    OneBlockFewer(|file| - w.s.sent);
    hide BlocksLeft;
  }

  lemma {:induction false} RoundsRunOut(file: seq<byte>, tries: seq<Attempt>)
    requires file != [] && Channel(file, |file|, tries) && Working(tries) && Patient(file, tries)
    ensures var w := Run(file, |file|, tries);
            !w.r.Rebooted? && (w.r.Receiving? ==> RoundsLeft(w, file) <= 3 * BlocksLeft(|file|) - |tries|)
  {
    hide Run, Damaged, Channel, InStep, BlocksLeft, LastDamaged;
    RunStarts(file);
    if tries != [] {
      var n := |tries| - 1;
      var w, w' := Run(file, |file|, tries[..n]), Run(file, |file|, tries);
      ChannelPrefix(file, |file|, tries, n);
      PatientPrefix(file, tries);
      RoundsRunOut(file, tries[..n]);
      RetriesWereDamaged(file, tries[..n]);
      RunSteps(file, tries);
      hide RoundsLeft, Patient;
      if w.r.Receiving? {
        StepUsesRound(w, w', file, Damaged(file, tries, n));
      }
    }
  }

  /** Patience for the attempts before the last, and what it says of the last. */
  lemma PatientPrefix(file: seq<byte>, tries: seq<Attempt>)
    requires tries != [] && Patient(file, tries)
    ensures Patient(file, tries[..|tries| - 1])
    ensures LastDamaged(file, tries[..|tries| - 1], 2) ==> !Damaged(file, tries, |tries| - 1)
  {
    hide Damaged;
    var n := |tries| - 1;
    DamagedInPrefix(file, tries, n);
    if LastDamaged(file, tries[..n], 2) {
      assert Damaged(file, tries[..n], n - 2) && Damaged(file, tries[..n], n - 1);
    }
  }

  lemma OneBlockFewer(n: nat)
    requires n > 0
    ensures BlocksLeft(n - Min(BLOCK, n)) == BlocksLeft(n) - 1
  {
    if n <= BLOCK {
      assert BlocksLeft(n) == 1 && BlocksLeft(0) == 0;
    } else {
      assert (n - BLOCK + BLOCK - 1) / BLOCK == (n + BLOCK - 1) / BLOCK - 1;
    }
  }

  /** A line that damages two frames in a row, but never three, still gets the whole file across, within
      three rounds per block. */
  lemma UpdateCompletes(file: seq<byte>, tries: seq<Attempt>)
    requires file != [] && Channel(file, |file|, tries) && Working(tries) && Patient(file, tries)
    requires |tries| >= 3 * BlocksLeft(|file|)
    ensures Run(file, |file|, tries) == World(AwaitingEot, Complete(file))
  {
    hide Run, Patient, Channel, InStep, RoundsLeft;
    RoundsRunOut(file, tries);
    AlwaysInStep(file, tries);
    OnlyComplete(Run(file, |file|, tries), file);
  }

  lemma OnlyComplete(w: World, file: seq<byte>)
    requires ValidSender(w.s, file) && InStep(w, file) && !w.r.Rebooted?
    requires w.r.Receiving? ==> RoundsLeft(w, file) <= 0
    ensures w == World(AwaitingEot, Complete(file))
  {
    if w.r.Receiving? {
      SomethingLeft(|file| - w.s.sent);
    }
  }

  lemma SomethingLeft(n: nat)
    requires n > 0
    ensures BlocksLeft(n) >= 1
  {
  }
}
