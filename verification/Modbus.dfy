/** Modbus RTU master: building requests and parsing responses (MODBUS Application Protocol V1.1b3, 6.3 and 6.4). */
module Modbus {
  import opened ModbusCrc

  /** A point and the one package of it that is requested. */
  datatype Point = Point(name: string, func: Byte, regHi: Byte, regLo: Byte, lenHi: Byte, lenLo: Byte)

  // Responses

  /** ParsePacket: -1 asks for more bytes, 0 is an answer without data, otherwise the number of data bytes. */
  function ParseResult(b: seq<Byte>): int {
    if |b| < 5 then -1
    else if b[1] == 0x83 then 0
    else if b[1] != 0x03 && b[1] != 0x04 then -1
    else if b[2] == 0 then 0
    else if b[2] != |b| - 5 then -1
    else b[2]
  }

  /** A read response with data: address, function, byte count n > 0, n data bytes and the checksum. */
  predicate IsReadResponse(f: seq<Byte>) {
    |f| >= 5 && (f[1] == 0x03 || f[1] == 0x04) && f[2] > 0 && f[2] == |f| - 5
  }

  function Payload(f: seq<Byte>): seq<Byte>
    requires IsReadResponse(f)
  {
    f[3..|f| - 2]
  }

  // Requests

  function RequestBody(p: Point): seq<Byte> {
    [0x01, p.func, p.regHi, p.regLo, p.lenHi, p.lenLo]
  }

  function RequestFrame(p: Point): seq<Byte> {
    var crc := Crc(RequestBody(p));
    RequestBody(p) + [crc % 256, crc / 256]
  }

  lemma RequestResidue(p: Point)
    ensures |RequestFrame(p)| == 8 && Crc(RequestFrame(p)) == 0
  {
    ResidueZero(RequestBody(p));
  }

  class Protocol {
    var points: seq<Point>
    var nextPkg: nat

    constructor (points: seq<Point>)
      ensures this.points == points && nextPkg == 0
    {
      this.points, nextPkg := points, 0;
    }

    /** Writes the next request and moves on, or rewinds once all points have been requested. */
    method AssemblePacket(request: array<Byte>) returns (len: int)
      requires request.Length == 8
      modifies this`nextPkg, request
      ensures old(nextPkg) < |points| ==>
                len == 7 && nextPkg == old(nextPkg) + 1 && request[..] == RequestFrame(points[old(nextPkg)])
      ensures old(nextPkg) >= |points| ==>
                len == -1 && nextPkg == 0 && request[..] == old(request[..])
    {
      len := -1;
      if nextPkg < |points| {
        var p := points[nextPkg];
        request[0] := 0x01;
        request[1] := p.func;
        request[2] := p.regHi;
        request[3] := p.regLo;
        request[4] := p.lenHi;
        request[5] := p.lenLo;
        assert request[..6] == RequestBody(p);
        var crc := CRC16(request, 6);
        request[6] := crc % 256;
        request[7] := crc / 256;
        assert request[..] == RequestFrame(p);
        len := 7;
        nextPkg := nextPkg + 1;
      } else {
        nextPkg := 0;
      }
    }

    /** Parses a received buffer and moves its data to the front. */
    method ParsePacket(request: array<Byte>, length: nat) returns (r: int)
      requires length <= request.Length
      modifies request
      ensures r == ParseResult(old(request[..length]))
      ensures r > 0 ==> IsReadResponse(old(request[..length])) && request[..r] == Payload(old(request[..length]))
      ensures r <= 0 ==> request[..] == old(request[..])
    {
      if length < 5 { return -1; }
      var fun, pkglen := request[1], request[2];
      if fun == 0x83 { return 0; }
      if fun != 0x03 && fun != 0x04 { return -1; }
      if pkglen <= 0 { return 0; }
      if pkglen != length - 5 { return -1; }
      r := ParseFunc(request, length);
    }

    /** The overlapping copy towards the front, element by element. */
    method ParseFunc(request: array<Byte>, length: nat) returns (r: int)
      requires 5 <= length <= request.Length
      modifies request
      ensures var f := old(request[..length]);
              if f[1] < 0x80 && f[2] == length - 5 then
                r == f[2] && ((f[1] == 0x03 || f[1] == 0x04) ==> request[..r] == f[3..length - 2])
              else r == 0 && request[..] == old(request[..])
    {
      var functionCode, dataLength := request[1], request[2];
      if functionCode >= 0x80 { return 0; }
      if dataLength + 5 != length { return 0; }
      if functionCode == 0x03 || functionCode == 0x04 {
        var i := 0;
        while i < dataLength
          invariant 0 <= i <= dataLength
          invariant forall j | 0 <= j < i :: request[j] == old(request[3 + j])
          invariant forall j | i <= j < request.Length :: request[j] == old(request[j])
        {
          request[i] := request[3 + i];
          i := i + 1;
        }
      }
      r := dataLength;
    }
  }

  // What the parser accepts

  /** A response is recognised exactly when it is complete: not on a proper prefix, and not with bytes behind it. */
  lemma RecognisedWhenComplete(f: seq<Byte>, b: seq<Byte>)
    requires IsReadResponse(f) && (b <= f || f <= b)
    ensures ParseResult(b) != -1 <==> b == f
    ensures ParseResult(f) == |Payload(f)|
  {
    if |b| >= 5 && |b| < |f| { assert b[1] == f[1] && b[2] == f[2]; }
    if |b| > |f| { assert b[1] == f[1] && b[2] == f[2]; }
    if |b| == |f| { assert b == f; }
  }

  /** What the parser answers to, and to no proper prefix of it. */
  ghost predicate IsResponse(f: seq<Byte>) {
    ParseResult(f) != -1 && forall k | 0 <= k < |f| :: ParseResult(f[..k]) == -1
  }

  /** These are the read responses with data, and five bytes of an exception to 0x03 or of a response without data. */
  lemma ResponseShapes(f: seq<Byte>)
    ensures IsResponse(f) <==>
            IsReadResponse(f) || (|f| == 5 && (f[1] == 0x83 || ((f[1] == 0x03 || f[1] == 0x04) && f[2] == 0)))
  {
    if IsReadResponse(f) {
      forall k | 0 <= k < |f| ensures ParseResult(f[..k]) == -1 { RecognisedWhenComplete(f, f[..k]); }
    } else if |f| > 5 && ParseResult(f) != -1 {
      assert ParseResult(f[..5]) != -1;
    }
  }

  /** Whether the parser may still answer when more bytes come. */
  predicate MayAnswer(b: seq<Byte>) {
    |b| < 2 || b[1] == 0x83 || ((b[1] == 0x03 || b[1] == 0x04) && (|b| < 3 || b[2] == 0 || |b| - 5 <= b[2]))
  }

  /** Bytes that make the parser answer. */
  function Completion(b: seq<Byte>): (more: seq<Byte>)
    requires MayAnswer(b)
    ensures ParseResult(b + more) != -1 && |more| <= 258
  {
    var more: seq<Byte> := if |b| < 2 then [0x83, 0x83, 0, 0, 0] else if |b| < 3 then [0, 0, 0]
                           else if b[1] == 0x83 || b[2] == 0 || |b| - 5 > b[2] then [0, 0] else Zeros(b[2] - (|b| - 5));
    assert |b| >= 2 ==> (b + more)[1] == b[1];
    assert |b| >= 3 ==> (b + more)[2] == b[2];
    more
  }

  /** Some continuation of the bytes makes the parser answer exactly under this condition on the first three. */
  lemma AnswerStillPossible(b: seq<Byte>)
    ensures (exists more: seq<Byte> :: ParseResult(b + more) != -1) <==> MayAnswer(b)
  {
    if MayAnswer(b) {
      assert ParseResult(b + Completion(b)) != -1;
    } else {
      forall more: seq<Byte> ensures ParseResult(b + more) == -1 { NoAnswer(b, more); }
    }
  }

  lemma NoAnswer(b: seq<Byte>, more: seq<Byte>)
    requires !MayAnswer(b)
    ensures !MayAnswer(b + more) && ParseResult(b + more) == -1
  {
    assert (b + more)[1] == b[1];
    if |b| >= 3 { assert (b + more)[2] == b[2]; }
  }
}
