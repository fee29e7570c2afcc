/**
 * The byte stream under the HTTP codecs: writing all of a text, and reading it line by line.
 *
 * A write may take only a part and a read may give less than was asked for; a read that gives nothing is the end. Lines
 * are collected in a fixed buffer first and in a growing one when that is full.
 */
module HttpStream {
  import opened Common

  const RECV_BUFSIZ: nat := 4096

  /** A line with its '\n', or what is left when there is none. */
  function Line(s: string): (r: string)
    ensures |r| <= |s| && s[..|r|] == r && (s != "" ==> r != "")
    ensures '\n' !in r || (r[|r| - 1] == '\n' && '\n' !in r[..|r| - 1])
    ensures '\n' !in r ==> r == s
  {
    var i := IndexOf(s, '\n');
    if i < |s| then
      assert s[..i + 1][..i] == s[..i];
      s[..i + 1]
    else
      assert s[..i] == s;
      s
  }

  lemma LineAppend(a: string, b: string)
    requires '\n' !in a
    ensures Line(a + ['\n'] + b) == a + ['\n']
  {
    IndexOfAppend(a, ['\n'] + b, '\n');
    assert a + ['\n'] + b == a + (['\n'] + b);
  }

  lemma ByteRead(text: string, data: string, rest: string)
    requires |data| == 1
    ensures text + [data[0]] + rest == text + (data + rest)
  {}

  /** A connection that fails only by ending. Reads and writes may take less than they are offered. */
  class Wire {
    var pending: string
    var sent: string

    constructor (pending: string)
      ensures this.pending == pending && sent == ""
    {
      this.pending := pending;
      sent := "";
    }

    method Read(size: nat) returns (data: string)
      modifies this`pending
      ensures data + pending == old(pending) && |data| <= size
      ensures data == "" <==> size == 0 || old(pending) == ""
    {
      var n: nat :| n <= size && n <= |pending| && (n == 0 <==> size == 0 || pending == "");
      data := pending[..n];
      pending := pending[n..];
    }

    method Write(data: string) returns (n: nat)
      requires data != ""
      modifies this`sent
      ensures 0 < n <= |data| && sent == old(sent) + data[..n]
    {
      n :| 0 < n <= |data|;
      sent := sent + data[..n];
    }

    /** write_data */
    method WriteAll(data: string)
      modifies this`sent
      ensures sent == old(sent) + data
    {
      var offset := 0;
      while offset < |data|
        invariant offset <= |data| && sent == old(sent) + data[..offset]
      {
        var n := Write(data[offset..]);
        assert data[..offset] + data[offset..][..n] == data[..offset + n];
        offset := offset + n;
      }
      assert data[..offset] == data;
    }
  }

  class LineReader {
    const fixed: array<char>
    var used: nat
    var growable: string

    ghost predicate Valid()
      reads this, fixed
    {
      && used < fixed.Length
      && (growable != "" ==> used == fixed.Length - 1)
      && (used > 0 ==> fixed[used] == '\0')
    }

    /** What ptr() and size() show. */
    ghost function Contents(): string
      reads this, fixed
      requires Valid()
    {
      if growable == "" then fixed[..used] else growable
    }

    constructor (size: nat)
      requires size > 1
      ensures Valid() && fresh(fixed) && fixed.Length == size && Contents() == ""
    {
      fixed := new char[size];
      used, growable := 0, "";
    }

    method Text() returns (text: string)
      requires Valid()
      ensures text == Contents()
    {
      text := if growable == "" then fixed[..used] else growable;
    }

    method Append(c: char)
      requires Valid() && fixed.Length > 1
      modifies this`used, this`growable, fixed
      ensures Valid() && Contents() == old(Contents()) + [c]
    {
      if used < fixed.Length - 1 {
        fixed[used] := c;
        used := used + 1;
        fixed[used] := '\0';
      } else {
        if growable == "" {
          assert fixed[used] == '\0';
          growable := fixed[..used];
        }
        growable := growable + [c];
      }
    }

    /** False at the end of the stream; otherwise the next line is in the buffer. */
    method GetLine(wire: Wire) returns (ok: bool)
      requires Valid() && fixed.Length > 1
      modifies this`used, this`growable, fixed, wire`pending
      ensures Valid()
      ensures ok == (old(wire.pending) != "")
      ensures ok ==> Contents() == Line(old(wire.pending))
      ensures wire.pending == old(wire.pending)[|Line(old(wire.pending))|..]
    {
      ghost var all := wire.pending;
      used, growable := 0, "";
      var i := 0;
      while true
        invariant Valid() && i == |Contents()| && '\n' !in Contents()
        invariant Contents() + wire.pending == all
        decreases |wire.pending|
      {
        ghost var before, text := wire.pending, Contents();
        var data := wire.Read(1);
        if data == "" {
          assert text == all;
          if i == 0 { return false; }
          break;
        }
        var byte := data[0];
        Append(byte);
        ByteRead(text, data, wire.pending);
        if byte == '\n' {
          LineAppend(text, wire.pending);
          return true;
        }
        i := i + 1;
      }
      return true;
    }
  }
}
