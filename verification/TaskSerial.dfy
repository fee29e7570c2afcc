/** The serial poll task: one thread appends what the port returns to a buffer, the other retries the parser on it. */
module TaskSerial {
  import opened Common
  import opened ModbusCrc
  import opened Modbus

  const RECVBUF: int := 512

  /** What a request leaves behind: the parse result and the data bytes. */
  datatype Answer = Answer(idata: int, buf: seq<Byte>)

  function AnswerTo(b: seq<Byte>): Answer
    requires ParseResult(b) != -1
  {
    Answer(ParseResult(b), if ParseResult(b) > 0 then Payload(b) else [])
  }

  // Two threads, one request

  /** Where the receiver stands: before a read, with bytes it has not appended yet, or before it sets the flag. */
  datatype Receiver = Waiting | Holding(bytes: seq<Byte>) | Appended

  /** wire: bytes the port has not returned yet; attempts: the results of the parser calls so far. */
  datatype Link = Link(
    wire: seq<Byte>, receiver: Receiver, buffer: seq<Byte>, isRecvRun: bool,
    attempts: seq<int>, answer: Option<Answer>)

  datatype Step = Read(count: int) | Append | Signal | Parse

  /** The polling thread has sent the request and released the receiver, wherever that stands. */
  function AfterSend(response: seq<Byte>, receiver: Receiver): Link {
    Link(response, receiver, [], false, [], None)
  }

  predicate Enabled(l: Link, s: Step) {
    match s
    case Read(k) => !l.isRecvRun && l.receiver.Waiting? && -1 <= k <= RECVBUF && k <= |l.wire|
    case Append => l.receiver.Holding?
    case Signal => l.receiver.Appended?
    case Parse => l.answer.None?
  }

  function Apply(l: Link, s: Step): Link
    requires Enabled(l, s)
  {
    match s
    case Read(k) =>
      if k == -1 then l.(receiver := Holding([])) else l.(receiver := Holding(l.wire[..k]), wire := l.wire[k..])
    case Append => l.(buffer := l.buffer + l.receiver.bytes, receiver := Appended)
    case Signal => l.(receiver := Waiting, isRecvRun := true)
    case Parse =>
      if l.buffer == [] then l.(isRecvRun := false)
      else
        var r := ParseResult(l.buffer);
        var l' := l.(attempts := l.attempts + [r]);
        if r == -1 then l'.(isRecvRun := false) else l'.(answer := Some(AnswerTo(l.buffer)), buffer := [])
  }

  predicate Executable(l: Link, run: seq<Step>)
    decreases |run|
  {
    run == [] || (Enabled(l, run[0]) && Executable(Apply(l, run[0]), run[1..]))
  }

  function Execute(l: Link, run: seq<Step>): Link
    requires Executable(l, run)
    decreases |run|
  {
    if run == [] then l else Execute(Apply(l, run[0]), run[1..])
  }

  function Pending(r: Receiver): seq<Byte> {
    if r.Holding? then r.bytes else []
  }

  predicate Waits(attempts: seq<int>) {
    forall i | 0 <= i < |attempts| :: attempts[i] == -1
  }

  /** No byte of the response is lost, duplicated or reordered until it is delivered whole. */
  ghost predicate Reassembling(l: Link, f: seq<Byte>) {
    && IsResponse(f)
    && (l.answer.None? ==> l.buffer + Pending(l.receiver) + l.wire == f && Waits(l.attempts))
    && (l.answer.Some? ==>
          && l.answer.value == AnswerTo(f) && l.buffer == [] && Pending(l.receiver) == [] && l.wire == []
          && l.attempts != [] && l.attempts[|l.attempts| - 1] == ParseResult(f) && Waits(l.attempts[..|l.attempts| - 1]))
  }

  lemma StepReassembling(l: Link, s: Step, f: seq<Byte>)
    requires Reassembling(l, f) && Enabled(l, s)
    ensures Reassembling(Apply(l, s), f)
  {
    match s
    case Read(k) =>
      if k > 0 { assert l.wire[..k] + l.wire[k..] == l.wire; }
      if l.answer.None? && k >= 0 { Glue(l.buffer, l.wire[..k], l.wire[k..]); }
    case Append =>
    case Signal =>
    case Parse =>
      if l.buffer != [] { ParseReassembling(l, f); }
  }

  lemma ParseReassembling(l: Link, f: seq<Byte>)
    requires Reassembling(l, f) && l.answer.None? && l.buffer != []
    ensures Reassembling(Apply(l, Parse), f)
  {
    var r, rest := ParseResult(l.buffer), Pending(l.receiver) + l.wire;
    Glue(l.buffer, Pending(l.receiver), l.wire);
    assert f[..|l.buffer|] == l.buffer;
    if rest == [] { assert l.buffer == f; }
    assert (l.attempts + [r])[..|l.attempts|] == l.attempts;
  }

  lemma {:induction false} RunReassembling(l: Link, run: seq<Step>, f: seq<Byte>)
    requires Reassembling(l, f) && Executable(l, run)
    ensures Reassembling(Execute(l, run), f)
    decreases |run|
  {
    if run == [] {
    } else {
      StepReassembling(l, run[0], f);
      RunReassembling(Apply(l, run[0]), run[1..], f);
    }
  }

  lemma SentReassembling(f: seq<Byte>, r: Receiver)
    requires IsResponse(f) && Pending(r) == []
    ensures Reassembling(AfterSend(f, r), f)
  {
    assert [] + [] + f == f;
  }

  /** However the response is fragmented and the threads interleave, each attempt waits or delivers exactly its data. */
  lemma EveryInterleavingReassembles(f: seq<Byte>, r: Receiver, run: seq<Step>)
    requires IsResponse(f) && Pending(r) == [] && Executable(AfterSend(f, r), run)
    ensures var l := Execute(AfterSend(f, r), run);
            if l.answer.None? then l.buffer + Pending(l.receiver) + l.wire == f && Waits(l.attempts)
            else
              && l.answer.value == AnswerTo(f) && l.buffer == [] && Pending(l.receiver) == [] && l.wire == []
              && l.attempts != [] && Waits(l.attempts[..|l.attempts| - 1])
              && l.attempts[|l.attempts| - 1] == l.answer.value.idata
  {
    SentReassembling(f, r);
    RunReassembling(AfterSend(f, r), run, f);
  }

  // Getting to an answer

  /** No byte of what came in gets lost while there is no answer. */
  ghost predicate Holds(l: Link, f: seq<Byte>) {
    l.answer.None? ==> l.buffer + Pending(l.receiver) + l.wire == f
  }

  lemma StepHolds(l: Link, s: Step, f: seq<Byte>)
    requires Holds(l, f) && Enabled(l, s)
    ensures Holds(Apply(l, s), f)
  {
    if s.Read? && s.count >= 0 && l.answer.None? { Glue(l.buffer, l.wire[..s.count], l.wire[s.count..]); }
  }

  lemma {:induction false} RunHolds(l: Link, run: seq<Step>, f: seq<Byte>)
    requires Holds(l, f) && Executable(l, run)
    ensures Holds(Execute(l, run), f)
    decreases |run|
  {
    if run == [] {
    } else {
      StepHolds(l, run[0], f);
      RunHolds(Apply(l, run[0]), run[1..], f);
    }
  }

  lemma SentHolds(f: seq<Byte>, r: Receiver)
    requires Pending(r) == []
    ensures Holds(AfterSend(f, r), f)
  {
    assert [] + [] + f == f;
  }

  /** A step that brings an unanswered request closer to its answer. */
  function NextStep(l: Link): Step {
    if l.receiver.Holding? then Append
    else if l.receiver.Appended? then Signal
    else if l.wire == [] || l.isRecvRun then Parse
    else Read(if |l.wire| <= RECVBUF then |l.wire| else RECVBUF)
  }

  function Distance(l: Link): nat {
    5 * |l.wire| + (if l.receiver.Holding? then 4 else if l.receiver.Appended? then 3 else 0)
    + if l.isRecvRun then 1 else 0
  }

  lemma NextStepCloser(l: Link, f: seq<Byte>)
    requires Holds(l, f) && l.answer.None? && ParseResult(f) != -1
    ensures Enabled(l, NextStep(l)) && Holds(Apply(l, NextStep(l)), f)
    ensures Apply(l, NextStep(l)).answer.Some? || Distance(Apply(l, NextStep(l))) < Distance(l)
  {
    StepHolds(l, NextStep(l), f);
    if l.receiver.Waiting? && l.wire == [] { assert l.buffer == f; }
  }

  /** The steps lead to an answer. */
  ghost predicate Answers(l: Link, more: seq<Step>) {
    Executable(l, more) && Execute(l, more).answer.Some?
  }

  lemma AnswersCons(l: Link, s: Step, more: seq<Step>)
    requires Enabled(l, s) && Answers(Apply(l, s), more)
    ensures Answers(l, [s] + more)
  {
    assert ([s] + more)[1..] == more;
  }

  lemma {:induction false} AnswerReachableFrom(l: Link, f: seq<Byte>) returns (more: seq<Step>)
    requires Holds(l, f) && ParseResult(f) != -1
    ensures Answers(l, more)
    decreases l.answer.None?, Distance(l)
  {
    if l.answer.Some? {
      more := [];
    } else {
      NextStepCloser(l, f);
      var rest := AnswerReachableFrom(Apply(l, NextStep(l)), f);
      AnswersCons(l, NextStep(l), rest);
      more := [NextStep(l)] + rest;
    }
  }

  /** Some steps of the two threads lead to an answer, or it is there. */
  ghost predicate Answerable(l: Link) {
    exists more :: Answers(l, more)
  }

  /** Whatever the threads did so far, the answer can still be reached. */
  lemma AnswerReachable(f: seq<Byte>, r: Receiver, run: seq<Step>)
    requires ParseResult(f) != -1 && Pending(r) == [] && Executable(AfterSend(f, r), run)
    ensures Answerable(Execute(AfterSend(f, r), run))
  {
    SentHolds(f, r);
    RunHolds(AfterSend(f, r), run, f);
    var more := AnswerReachableFrom(Execute(AfterSend(f, r), run), f);
  }

  // Waiting for ever

  /** Neither what is in the buffer nor what is appended next is an answer, or can become one. */
  predicate Dead(l: Link) {
    ParseResult(l.buffer) == -1 && !MayAnswer(l.buffer + Pending(l.receiver))
  }

  lemma DeadStep(l: Link, s: Step)
    requires l.answer.None? && Dead(l) && Enabled(l, s)
    ensures Apply(l, s).answer.None? && Dead(Apply(l, s)) && l.buffer <= Apply(l, s).buffer
  {
    match s
    case Read(k) =>
      assert l.buffer + [] == l.buffer;
      NoAnswer(l.buffer, Pending(Apply(l, s).receiver));
    case Append =>
      NoAnswer(l.buffer + l.receiver.bytes, []);
      assert l.buffer + l.receiver.bytes + [] == l.buffer + l.receiver.bytes;
    case Signal =>
    case Parse =>
  }

  /** Then no steps of the two threads end the wait. */
  lemma {:induction false} NeverAnswered(l: Link, run: seq<Step>)
    requires l.answer.None? && Dead(l) && Executable(l, run)
    ensures Execute(l, run).answer.None? && l.buffer <= Execute(l, run).buffer
    decreases |run|
  {
    if run == [] {
    } else {
      DeadStep(l, run[0]);
      NeverAnswered(Apply(l, run[0]), run[1..]);
    }
  }

  lemma BeyondIsDead(l: Link)
    requires !MayAnswer(l.buffer)
    ensures Dead(l)
  {
    NoAnswer(l.buffer, []);
    assert l.buffer + [] == l.buffer;
    NoAnswer(l.buffer, Pending(l.receiver));
  }

  lemma CompletionAnswers(l: Link) returns (run: seq<Step>)
    requires l.answer.None? && l.receiver.Waiting? && MayAnswer(l.buffer)
    ensures Answers(l.(wire := Completion(l.buffer)), run)
  {
    var more := Completion(l.buffer);
    var l0 := l.(wire := more);
    run := [Parse];
    if l.buffer == [] || ParseResult(l.buffer) == -1 {
      var l1 := Apply(l0, Parse);
      var l2 := Apply(l1, Read(|more|));
      assert more[..|more|] == more;
      var l3 := Apply(l2, Append);
      assert Answers(Apply(l3, Parse), []);
      AnswersCons(l3, Parse, []);
      AnswersCons(l2, Append, [Parse] + []);
      AnswersCons(l1, Read(|more|), [Append] + ([Parse] + []));
      AnswersCons(l0, Parse, [Read(|more|)] + ([Append] + ([Parse] + [])));
      run := [Parse] + ([Read(|more|)] + ([Append] + ([Parse] + [])));
    } else {
      ParseAnswers(l0);
    }
  }

  lemma ParseAnswers(l: Link)
    requires l.answer.None? && ParseResult(l.buffer) != -1
    ensures Answers(l, [Parse])
  {
    assert Answers(Apply(l, Parse), []);
    AnswersCons(l, Parse, []);
    assert [Parse] + [] == [Parse];
  }

  /** The receiver gets to its next read, and what it held is in the buffer. */
  function Settled(l: Link): Link {
    if l.receiver.Waiting? then l
    else l.(receiver := Waiting, buffer := l.buffer + Pending(l.receiver), isRecvRun := true)
  }

  lemma SettledAnswers(l: Link, more: seq<Step>) returns (run: seq<Step>)
    requires Answers(Settled(l), more)
    ensures Answers(l, run)
  {
    run := more;
    if !l.receiver.Waiting? {
      var l1 := if l.receiver.Holding? then Apply(l, Append) else l;
      assert l.buffer + [] == l.buffer;
      assert Apply(l1, Signal) == Settled(l);
      AnswersCons(l1, Signal, more);
      run := [Signal] + more;
      if l.receiver.Holding? {
        AnswersCons(l, Append, run);
        run := [Append] + run;
      }
    }
  }

  /** The wait can end, for some bytes still to come and some steps, exactly if the bytes taken from the port allow it. */
  lemma WaitMayEnd(l: Link)
    requires l.answer.None?
    ensures (exists wire :: Answerable(l.(wire := wire))) <==> !Dead(l)
  {
    if Dead(l) {
      forall wire ensures !Answerable(l.(wire := wire)) {
        forall run | Executable(l.(wire := wire), run) ensures !Answers(l.(wire := wire), run) {
          NeverAnswered(l.(wire := wire), run);
        }
      }
    } else if ParseResult(l.buffer) != -1 {
      ParseAnswers(l.(wire := l.wire));
      assert Answerable(l.(wire := l.wire));
    } else {
      assert l.buffer + [] == l.buffer;
      var wire := Completion(Settled(l).buffer);
      var more := CompletionAnswers(Settled(l));
      assert Settled(l).(wire := wire) == Settled(l.(wire := wire));
      var run := SettledAnswers(l.(wire := wire), more);
      assert Answerable(l.(wire := wire));
    }
  }

  /** All bytes have arrived and are no answer. */
  ghost predicate Exhausted(l: Link) {
    l.answer.None? && l.wire == [] && Pending(l.receiver) == [] && ParseResult(l.buffer) == -1
  }

  lemma {:induction false} ExhaustedRun(l: Link, run: seq<Step>)
    requires Exhausted(l) && Executable(l, run)
    ensures Exhausted(Execute(l, run))
    decreases |run|
  {
    if run == [] {
    } else {
      assert l.buffer + [] == l.buffer;
      ExhaustedRun(Apply(l, run[0]), run[1..]);
    }
  }

  /** The receiver takes all that one read gives before the parser looks. */
  function Gulp(f: seq<Byte>): seq<Step> {
    [Read(if |f| <= RECVBUF then |f| else RECVBUF)] + [Append]
  }

  lemma Gulped(f: seq<Byte>)
    requires ParseResult(f) == -1
    ensures Executable(AfterSend(f, Waiting), Gulp(f))
    ensures !Answerable(Execute(AfterSend(f, Waiting), Gulp(f)))
  {
    var k := if |f| <= RECVBUF then |f| else RECVBUF;
    var l := AfterSend(f, Waiting);
    var l1 := Apply(l, Read(k));
    var l2 := Apply(l1, Append);
    assert Gulp(f)[1..] == [Append] && [Append][1..] == [];
    assert Execute(l1, [Append]) == l2;
    assert l2.buffer == f[..k];
    if k == |f| {
      assert f[..k] == f && f[k..] == [];
      forall run | Executable(l2, run) ensures !Answers(l2, run) { ExhaustedRun(l2, run); }
    } else {
      assert f[..k][1] == f[1] && f[..k][2] == f[2];
      BeyondIsDead(l2);
      forall run | Executable(l2, run) ensures !Answers(l2, run) { NeverAnswered(l2, run); }
    }
  }

  /** Steps that take the receiver back to its next read and the flag to false, on an empty buffer. */
  function Prelude(r: Receiver): seq<Step>
    requires Pending(r) == []
  {
    if r.Waiting? then [] else if r.Appended? then [Signal, Parse] else [Append, Signal, Parse]
  }

  lemma PreludeRun(f: seq<Byte>, r: Receiver)
    requires Pending(r) == []
    ensures Executable(AfterSend(f, r), Prelude(r)) && Execute(AfterSend(f, r), Prelude(r)) == AfterSend(f, Waiting)
  {
    assert [Append, Signal, Parse][1..] == [Signal, Parse] && [Signal, Parse][1..] == [Parse] && [Parse][1..] == [];
    var l := AfterSend(f, Appended);
    assert Apply(Apply(l, Signal), Parse) == AfterSend(f, Waiting);
    assert Execute(Apply(l, Signal), [Parse]) == AfterSend(f, Waiting);
    assert Execute(l, [Signal, Parse]) == AfterSend(f, Waiting);
    assert r.Holding? ==> Apply(AfterSend(f, r), Append) == l;
  }

  lemma {:induction false} RunAppend(l: Link, a: seq<Step>, b: seq<Step>)
    requires Executable(l, a) && Executable(Execute(l, a), b)
    ensures Executable(l, a + b) && Execute(l, a + b) == Execute(Execute(l, a), b)
    decreases |a|
  {
    if a == [] {
      assert a + b == b;
    } else {
      assert (a + b)[1..] == a[1..] + b;
      RunAppend(Apply(l, a[0]), a[1..], b);
    }
  }

  /** After any steps of the two threads the answer can still be reached, exactly if all bytes together are an answer. */
  lemma AlwaysAnswerable(f: seq<Byte>, r: Receiver)
    requires Pending(r) == []
    ensures (forall run | Executable(AfterSend(f, r), run) :: Answerable(Execute(AfterSend(f, r), run)))
            <==> ParseResult(f) != -1
  {
    if ParseResult(f) != -1 {
      forall run | Executable(AfterSend(f, r), run) ensures Answerable(Execute(AfterSend(f, r), run)) {
        AnswerReachable(f, r, run);
      }
    } else {
      PreludeRun(f, r);
      Gulped(f);
      RunAppend(AfterSend(f, r), Prelude(r), Gulp(f));
      var run := Prelude(r) + Gulp(f);
      assert Executable(AfterSend(f, r), run) && !Answerable(Execute(AfterSend(f, r), run));
    }
  }

  /** A read response with a byte too many: the response may be answered, but after some steps it no longer can. */
  lemma ByteTooMany(f: seq<Byte>, x: Byte)
    requires IsReadResponse(f)
    ensures Answerable(AfterSend(f + [x], Waiting))
    ensures exists run :: Executable(AfterSend(f + [x], Waiting), run)
                       && !Answerable(Execute(AfterSend(f + [x], Waiting), run))
  {
    RecognisedWhenComplete(f, f + [x]);
    RecognisedWhenComplete(f, f);
    assert (f + [x])[..|f|] == f;
    AnsweredIffRecognised(f + [x], Waiting);
    Gulped(f + [x]);
  }

  ghost predicate Unrecognised(f: seq<Byte>) {
    forall k | 0 <= k <= |f| :: ParseResult(f[..k]) == -1
  }

  lemma {:induction false} UnrecognisedRun(l: Link, run: seq<Step>, f: seq<Byte>)
    requires l.answer.None? && Holds(l, f) && Unrecognised(f) && Executable(l, run)
    ensures Execute(l, run).answer.None?
    decreases |run|
  {
    if run == [] {
    } else {
      Glue(l.buffer, Pending(l.receiver), l.wire);
      assert f[..|l.buffer|] == l.buffer;
      StepHolds(l, run[0], f);
      UnrecognisedRun(Apply(l, run[0]), run[1..], f);
    }
  }

  lemma RecognisedPrefix(f: seq<Byte>) returns (k: nat)
    requires !Unrecognised(f)
    ensures k <= |f| && IsResponse(f[..k])
  {
    k := 0;
    while ParseResult(f[..k]) == -1
      invariant k <= |f| && forall j | 0 <= j < k :: ParseResult(f[..j]) == -1
      decreases |f| - k
    {
      k := k + 1;
    }
    forall j | 0 <= j < k ensures ParseResult(f[..k][..j]) == -1 { assert f[..k][..j] == f[..j]; }
  }

  lemma PrefixAnswers(f: seq<Byte>, k: nat) returns (run: seq<Step>)
    requires k <= |f| && IsResponse(f[..k])
    ensures Answers(AfterSend(f, Waiting), run)
  {
    ResponseShapes(f[..k]);
    var l := AfterSend(f, Waiting);
    var l1 := Apply(l, Read(k));
    var l2 := Apply(l1, Append);
    assert [] + f[..k] == f[..k];
    ParseAnswers(l2);
    AnswersCons(l1, Append, [Parse]);
    AnswersCons(l, Read(k), [Append] + [Parse]);
    run := [Read(k)] + ([Append] + [Parse]);
  }

  /** Bytes that come in after a request are answered, for some steps, exactly if a prefix of them is a response. */
  lemma AnsweredIffRecognised(f: seq<Byte>, r: Receiver)
    requires Pending(r) == []
    ensures Answerable(AfterSend(f, r)) <==> !Unrecognised(f)
  {
    var l := AfterSend(f, r);
    if Unrecognised(f) {
      SentHolds(f, r);
      forall run | Executable(l, run) ensures !Answers(l, run) { UnrecognisedRun(l, run, f); }
    } else {
      var k := RecognisedPrefix(f);
      var run := PrefixAnswers(f, k);
      PreludeRun(f, r);
      RunAppend(l, Prelude(r), run);
      assert Answers(l, Prelude(r) + run);
    }
  }

  /** An exception response to function 0x04: no run of the two threads answers the request. */
  lemma ExceptionNeverAnswered(run: seq<Step>)
    requires Executable(AfterSend([0x01, 0x84, 0x02, 0xC2, 0xC1], Waiting), run)
    ensures Execute(AfterSend([0x01, 0x84, 0x02, 0xC2, 0xC1], Waiting), run).answer.None?
  {
    var f: seq<Byte> := [0x01, 0x84, 0x02, 0xC2, 0xC1];
    assert forall k | 0 <= k <= |f| :: |f[..k]| == 5 ==> f[..k][1] == f[1];
    SentHolds(f, Waiting);
    UnrecognisedRun(AfterSend(f, Waiting), run, f);
  }

  // A whole pass over the points

  datatype Record = Record(title: string, answer: Answer)

  /** For each request the bytes that come back and the steps of the two threads up to the next one. */
  ghost predicate Scheduled(r: Receiver, responses: seq<seq<Byte>>, schedules: seq<seq<Step>>)
    decreases |responses|
  {
    && |schedules| == |responses| && Pending(r) == []
    && (responses != [] ==>
          && IsResponse(responses[0]) && Answers(AfterSend(responses[0], r), schedules[0])
          && Scheduled(Execute(AfterSend(responses[0], r), schedules[0]).receiver, responses[1..], schedules[1..]))
  }

  /** Whatever the responses are, there are such steps. */
  lemma {:induction false} ScheduleExists(r: Receiver, responses: seq<seq<Byte>>) returns (schedules: seq<seq<Step>>)
    requires Pending(r) == [] && forall i | 0 <= i < |responses| :: IsResponse(responses[i])
    ensures Scheduled(r, responses, schedules)
    decreases |responses|
  {
    schedules := [];
    if responses == [] {
    } else {
      var f := responses[0];
      SentReassembling(f, r);
      SentHolds(f, r);
      var first := AnswerReachableFrom(AfterSend(f, r), f);
      RunReassembling(AfterSend(f, r), first, f);
      var rest := ScheduleExists(Execute(AfterSend(f, r), first).receiver, responses[1..]);
      schedules := [first] + rest;
      assert schedules[1..] == rest;
    }
  }

  /** The frame sent for a point, and the titled record of the response to it. */
  ghost predicate Polled(frame: seq<Byte>, record: Record, point: Point, name: string, response: seq<Byte>) {
    && frame == RequestFrame(point) && Crc(frame) == 0
    && IsResponse(response) && record == Record(name, AnswerTo(response))
  }

  ghost predicate AllPolled(sent: seq<seq<Byte>>, records: seq<Record>, points: seq<Point>, titles: seq<Point>,
                            responses: seq<seq<Byte>>)
  {
    && |sent| == |records| <= |points| == |responses| && |points| <= |titles|
    && forall i | 0 <= i < |sent| :: Polled(sent[i], records[i], points[i], titles[i].name, responses[i])
  }

  lemma OneMorePolled(sent: seq<seq<Byte>>, records: seq<Record>, points: seq<Point>, titles: seq<Point>,
                      responses: seq<seq<Byte>>, frame: seq<Byte>, record: Record)
    requires AllPolled(sent, records, points, titles, responses) && |sent| < |points|
    requires Polled(frame, record, points[|sent|], titles[|sent|].name, responses[|sent|])
    ensures AllPolled(sent + [frame], records + [record], points, titles, responses)
  {}

  class Task {
    var vPoint: seq<Point>
    var pointCount: nat
    var wire: seq<Byte>
    var receiver: Receiver
    var totalRecvBuf: seq<Byte>
    var isRecvRun: bool
    ghost var attempts: seq<int>
    var answer: Option<Answer>
    const pit: Protocol

    ghost function View(): Link
      reads this
    {
      Link(wire, receiver, totalRecvBuf, isRecvRun, attempts, answer)
    }

    constructor (points: seq<Point>, pit: Protocol)
      ensures vPoint == points && pointCount == 0 && this.pit == pit
      ensures View() == Link([], Waiting, [], true, [], None)
    {
      vPoint, pointCount := points, 0;
      wire, receiver, totalRecvBuf, isRecvRun, attempts, answer := [], Waiting, [], true, [], None;
      this.pit := pit;
    }

    // The receiver thread

    method Receive(count: int)
      requires Enabled(View(), Read(count))
      modifies this`wire, this`receiver
      ensures View() == Apply(old(View()), Read(count))
    {
      if count == -1 {
        receiver := Holding([]);
      } else {
        receiver, wire := Holding(wire[..count]), wire[count..];
      }
    }

    /** Under recv_mutex, byte by byte. */
    method AppendReceived()
      requires Enabled(View(), Append)
      modifies this`totalRecvBuf, this`receiver
      ensures View() == Apply(old(View()), Append)
    {
      var bytes := receiver.bytes;
      for i := 0 to |bytes|
        invariant receiver == old(receiver) && totalRecvBuf == old(totalRecvBuf) + bytes[..i]
      {
        totalRecvBuf := totalRecvBuf + [bytes[i]];
        assert bytes[..i + 1] == bytes[..i] + [bytes[i]];
      }
      assert bytes[..|bytes|] == bytes;
      receiver := Appended;
    }

    /** Outside recv_mutex. */
    method SignalReceived()
      requires Enabled(View(), Signal)
      modifies this`isRecvRun, this`receiver
      ensures View() == Apply(old(View()), Signal)
    {
      isRecvRun, receiver := true, Waiting;
    }

    // The polling thread

    /** parsePacketProc: one attempt on what has arrived; the copy of the buffer is what the parser edits. */
    method ParsePacketProc() returns (isRecvAll: bool)
      requires Enabled(View(), Parse)
      modifies this`totalRecvBuf, this`isRecvRun, this`attempts, this`answer
      ensures View() == Apply(old(View()), Parse) && isRecvAll == answer.Some?
    {
      isRecvAll := false;
      var len := |totalRecvBuf|;
      if len == 0 {
        isRecvRun := false;
        return;
      }
      var received := totalRecvBuf;
      var recvBuf := new Byte[len](i requires 0 <= i < len => received[i]);
      assert recvBuf[..len] == totalRecvBuf;
      var r := pit.ParsePacket(recvBuf, len);
      attempts := attempts + [r];
      if r == 0 {
        answer := Some(Answer(0, []));
        isRecvAll := true;
        totalRecvBuf := [];
      } else if r == -1 {
        isRecvRun := false;
      } else {
        answer := Some(Answer(r, recvBuf[..r]));
        isRecvAll := true;
        totalRecvBuf := [];
      }
    }

    /** Both threads after a request, in any interleaving: every step is done by the section of its thread. */
    method AwaitAnswer(schedule: seq<Step>)
      requires Executable(View(), schedule)
      modifies this`wire, this`receiver, this`totalRecvBuf, this`isRecvRun, this`attempts, this`answer
      ensures View() == Execute(old(View()), schedule)
    {
      ghost var last, left := Execute(View(), schedule), schedule;
      for i := 0 to |schedule|
        invariant left == schedule[i..] && Executable(View(), left) && Execute(View(), left) == last
      {
        left := left[1..];
        match schedule[i]
        case Read(k) => Receive(k);
        case Append => AppendReceived();
        case Signal => SignalReceived();
        case Parse => var isRecvAll := ParsePacketProc();
      }
    }

    /** sendPacketProc: the frame written to the port and the titled record, or the end of the pass. */
    method SendPacketProc(response: seq<Byte>, schedule: seq<Step>)
      returns (sendRes: bool, frame: seq<Byte>, record: Record)
      requires pit.nextPkg < |pit.points| ==> IsResponse(response) && Answers(AfterSend(response, receiver), schedule)
      requires pointCount == pit.nextPkg && |pit.points| <= |vPoint|
      requires totalRecvBuf == [] && wire == [] && Pending(receiver) == []
      modifies this, pit`nextPkg
      ensures vPoint == old(vPoint) && totalRecvBuf == [] && wire == [] && Pending(receiver) == []
      ensures sendRes <==> old(pit.nextPkg) < |pit.points|
      ensures sendRes ==> View() == Execute(AfterSend(response, old(receiver)), schedule)
      ensures sendRes ==> pit.nextPkg == old(pit.nextPkg) + 1 == pointCount
      ensures sendRes ==> frame == RequestFrame(pit.points[old(pit.nextPkg)])
      ensures sendRes ==> record == Record(vPoint[old(pit.nextPkg)].name, AnswerTo(response))
      ensures !sendRes ==> pit.nextPkg == 0 && pointCount == old(pointCount)
    {
      var sendBuf := new Byte[8](_ => 0);
      record := Record("", Answer(-1, []));
      var sendLen := pit.AssemblePacket(sendBuf);
      frame := sendBuf[..];
      sendRes := sendLen != -1;
      if sendRes {
        wire, attempts, answer := response, [], None;
        var title := vPoint[pointCount].name;
        pointCount := pointCount + 1;
        isRecvRun := false;
        SentReassembling(response, receiver);
        RunReassembling(View(), schedule, response);
        AwaitAnswer(schedule);
        record := Record(title, answer.value);
      }
    }

    /** One pass of serialTaskRun over one device whose every request is answered, for any interleaving. */
    method SerialTaskRun(responses: seq<seq<Byte>>, schedules: seq<seq<Step>>)
      returns (sent: seq<seq<Byte>>, records: seq<Record>)
      requires pit.nextPkg == 0 && |pit.points| <= |vPoint| && totalRecvBuf == [] && wire == []
      requires |responses| == |pit.points| && Scheduled(receiver, responses, schedules)
      modifies this, pit`nextPkg
      ensures vPoint == old(vPoint) && totalRecvBuf == [] && wire == [] && Pending(receiver) == []
      ensures pit.nextPkg == 0 && pointCount == |pit.points|
      ensures |sent| == |pit.points| && AllPolled(sent, records, pit.points, vPoint, responses)
    {
      sent, records := [], [];
      pointCount := 0;
      var more := true;
      ghost var still, steps := responses, schedules;
      while more
        invariant vPoint == old(vPoint) && totalRecvBuf == [] && wire == [] && Pending(receiver) == []
        invariant pointCount == |sent| && AllPolled(sent, records, pit.points, vPoint, responses)
        invariant still == responses[pointCount..] && steps == schedules[pointCount..]
        invariant Scheduled(receiver, still, steps)
        invariant if more then pit.nextPkg == pointCount else pit.nextPkg == 0 && pointCount == |pit.points|
        decreases more, |pit.points| - pointCount
      {
        var res, frame, record := SendNext(responses, schedules);
        more := res;
        if res {
          OneMorePolled(sent, records, pit.points, vPoint, responses, frame, record);
          sent, records := sent + [frame], records + [record];
          still, steps := still[1..], steps[1..];
        }
      }
    }

    /** One round of the pass. */
    method SendNext(responses: seq<seq<Byte>>, schedules: seq<seq<Step>>)
      returns (res: bool, frame: seq<Byte>, record: Record)
      requires pointCount == pit.nextPkg <= |responses| == |schedules| == |pit.points| <= |vPoint|
      requires totalRecvBuf == [] && wire == [] && Scheduled(receiver, responses[pointCount..], schedules[pointCount..])
      modifies this, pit`nextPkg
      ensures vPoint == old(vPoint) && totalRecvBuf == [] && wire == []
      ensures res <==> old(pointCount) < |pit.points|
      ensures res ==> var n := old(pointCount); Polled(frame, record, pit.points[n], vPoint[n].name, responses[n])
      ensures res ==> pit.nextPkg == pointCount == old(pointCount) + 1
      ensures res ==> Scheduled(receiver, responses[old(pointCount)..][1..], schedules[old(pointCount)..][1..])
      ensures !res ==> pit.nextPkg == 0 && pointCount == old(pointCount) && Pending(receiver) == []
    {
      var waiting := pointCount < |responses|;
      ghost var still, steps := responses[pointCount..], schedules[pointCount..];
      var response := if waiting then responses[pointCount] else [];
      var schedule := if waiting then schedules[pointCount] else [];
      assert waiting ==> still[0] == response && steps[0] == schedule;
      if waiting { RequestResidue(pit.points[pointCount]); }
      res, frame, record := SendPacketProc(response, schedule);
    }
  }
}
