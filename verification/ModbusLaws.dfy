/** Requests and responses byte by byte, and how reads and attempts of the parser alternate. */
module ModbusLaws {
  import opened Common
  import opened ModbusCrc
  import opened Modbus
  import opened TaskSerial

  // Requests

  function Number(hi: nat, lo: nat): nat {
    256 * hi + lo
  }

  /** What a device makes of a frame: its address, the function, the first register and the number of registers. */
  function Understood(frame: seq<Byte>): (nat, nat, nat, nat)
    requires |frame| == 8
  {
    (frame[0], frame[1], Number(frame[2], frame[3]), Number(frame[4], frame[5]))
  }

  /** A device sees a good checksum, low byte first, and the point's function, register and quantity. */
  lemma RequestUnderstood(p: Point)
    ensures |RequestFrame(p)| == 8
    ensures Understood(RequestFrame(p)) == (1, p.func, Number(p.regHi, p.regLo), Number(p.lenHi, p.lenLo))
    ensures Number(RequestFrame(p)[7], RequestFrame(p)[6]) == Crc(RequestFrame(p)[..6])
  {
    assert RequestFrame(p)[..6] == RequestBody(p);
  }

  /** Frames are equal only for points with the same request. */
  lemma RequestsDiffer(p: Point, q: Point)
    ensures RequestFrame(p) == RequestFrame(q) <==> p.(name := q.name) == q
  {
    if RequestFrame(p) == RequestFrame(q) {
      assert RequestFrame(p)[..6] == RequestBody(p) && RequestFrame(q)[..6] == RequestBody(q);
      assert RequestBody(p)[1] == RequestBody(q)[1] && RequestBody(p)[2] == RequestBody(q)[2];
      assert RequestBody(p)[3] == RequestBody(q)[3] && RequestBody(p)[4] == RequestBody(q)[4];
      assert RequestBody(p)[5] == RequestBody(q)[5];
    }
  }

  // Responses

  function ReadFrame(address: Byte, func: Byte, data: seq<Byte>, lo: Byte, hi: Byte): seq<Byte>
    requires |data| < 256
  {
    [address, func, |data|] + data + [lo, hi]
  }

  lemma DataRead(address: Byte, func: Byte, data: seq<Byte>, lo: Byte, hi: Byte)
    requires 0 < |data| < 256 && (func == 3 || func == 4)
    ensures var f := ReadFrame(address, func, data, lo, hi);
            ParseResult(f) == |data| && IsReadResponse(f) && Payload(f) == data && AnswerTo(f) == Answer(|data|, data)
  {
    var f := ReadFrame(address, func, data, lo, hi);
    assert f[..3] == [address, func, |data|] && f[3..|f| - 2] == data;
    assert f[1] == func && f[2] == |data|;
  }

  lemma FrameOf(b: seq<Byte>) returns (data: seq<Byte>)
    requires |b| >= 5 && b[2] == |b| - 5
    ensures data == b[3..|b| - 2] && b == ReadFrame(b[0], b[1], data, b[|b| - 2], b[|b| - 1])
  {
    data := b[3..|b| - 2];
  }

  ghost predicate IsReadFrame(b: seq<Byte>, data: seq<Byte>) {
    0 < |data| < 256 && exists a: Byte, f: Byte, lo: Byte, hi: Byte :: (f == 3 || f == 4) && b == ReadFrame(a, f, data, lo, hi)
  }

  /** The parser gives these data bytes exactly for a frame around them, whatever the address and the checksum are. */
  lemma AnsweredWith(b: seq<Byte>, data: seq<Byte>)
    requires data != []
    ensures ParseResult(b) != -1 && AnswerTo(b) == Answer(|data|, data) <==> IsReadFrame(b, data)
  {
    if IsReadFrame(b, data) {
      var a: Byte, f: Byte, lo: Byte, hi: Byte :| (f == 3 || f == 4) && b == ReadFrame(a, f, data, lo, hi);
      DataRead(a, f, data, lo, hi);
    } else if ParseResult(b) != -1 && AnswerTo(b) == Answer(|data|, data) {
      var d := FrameOf(b);
    }
  }

  /** No data: an exception to 0x03 of any length from five, and a read response that announces none. */
  lemma AnsweredWithout(b: seq<Byte>)
    ensures ParseResult(b) != -1 && AnswerTo(b) == Answer(0, [])
            <==> |b| >= 5 && (b[1] == 0x83 || ((b[1] == 3 || b[1] == 4) && b[2] == 0))
  {}

  // Reads and attempts

  function Reads(run: seq<Step>): nat {
    if run == [] then 0 else (if run[0].Read? then 1 else 0) + Reads(run[1..])
  }

  function Attempts(run: seq<Step>): nat {
    if run == [] then 0 else (if run[0].Parse? then 1 else 0) + Attempts(run[1..])
  }

  /** The receiver waits for an attempt of the parser before it reads again, and one read gives up to 512 bytes. */
  lemma {:induction false} ReadsFollowAttempts(l: Link, run: seq<Step>)
    requires Executable(l, run)
    ensures Reads(run) <= Attempts(run) + if l.receiver.Waiting? && !l.isRecvRun then 1 else 0
    ensures |Pending(l.receiver)| <= 512 ==> |Pending(Execute(l, run).receiver)| <= 512
    decreases |run|
  {
    if run == [] {
    } else {
      ReadsFollowAttempts(Apply(l, run[0]), run[1..]);
    }
  }

  /** Up to 512 bytes that are an answer together are answered by one read and one attempt. */
  lemma OneReadAnswers(f: seq<Byte>)
    requires |f| <= 512 && ParseResult(f) != -1
    ensures var run := [Read(|f|), Append, Parse];
            Executable(AfterSend(f, Waiting), run) && Execute(AfterSend(f, Waiting), run).answer == Some(AnswerTo(f))
  {
    var l := AfterSend(f, Waiting);
    var l1 := Apply(l, Read(|f|));
    var l2 := Apply(l1, Append);
    assert f[..|f|] == f && [] + f == f;
    assert [Read(|f|), Append, Parse][1..] == [Append, Parse] && [Append, Parse][1..] == [Parse] && [Parse][1..] == [];
    assert Execute(l2, [Parse]) == Apply(l2, Parse);
    assert Execute(l1, [Append, Parse]) == Apply(l2, Parse);
  }
}
