/**
 The linked-list buffer between the packet loop and the reader of a channel (ssh/buffer.go).
 Writers append elements at the tail; a reader drains elements from the head.
 */
module SshBuffer {
  import opened Bits
  import opened ByteSeqs

  class Element {
    var buf: seq<byte>
    var next: Element?

    constructor (buf: seq<byte>)
      ensures this.buf == buf && next == null
    {
      this.buf := buf;
      next := null;
    }
  }

  /** What a call of Read comes back with.  Blocked stands for waiting on the condition variable. */
  datatype Outcome = Done | EOF | Blocked

  class Buffer {
    var head: Element
    var tail: Element
    var closed: bool

    /** The elements from head to tail, and what each of them holds. */
    ghost var nodes: seq<Element>
    ghost var bufs: seq<seq<byte>>

    ghost predicate Valid()
      reads this, nodes
    {
      && |nodes| == |bufs| > 0 && head == nodes[0] && tail == nodes[|nodes| - 1]
      && (forall i, j :: 0 <= i < j < |nodes| ==> nodes[i] != nodes[j])
      && (forall i :: 0 <= i < |nodes| ==> nodes[i].buf == bufs[i])
      && (forall i :: 0 <= i < |nodes| - 1 ==> nodes[i].next == nodes[i + 1])
    }

    /** The bytes that have been written and not yet read. */
    ghost function Contents(): seq<byte>
      reads this
    {
      Concat(bufs)
    }

    constructor ()
      ensures Valid() && Contents() == [] && !closed && fresh(nodes)
    {
      var e := new Element([]);
      head, tail, closed, nodes, bufs := e, e, false, [e], [[]];
    }

    method Write(buf: seq<byte>)
      requires Valid()
      modifies this, tail
      ensures Valid() && Contents() == old(Contents()) + buf && closed == old(closed)
      ensures nodes[..|nodes| - 1] == old(nodes) && fresh(nodes[|nodes| - 1])
    {
      var e := new Element(buf);
      ConcatAppend(bufs, buf);
      tail.next := e;
      tail := e;
      nodes, bufs := nodes + [e], bufs + [buf];
    }

    method Eof()
      requires Valid()
      modifies this`closed
      ensures Valid() && closed && Contents() == old(Contents())
    {
      closed := true;
    }

    /**
     Copies into buf the longest available prefix that fits, across elements.  EOF only when the
     buffer is closed and drained; an empty buf reads nothing and reports no error.
     */
    method Read(buf: array<byte>) returns (n: nat, outcome: Outcome)
      requires Valid()
      modifies this, nodes, buf
      ensures Valid() && closed == old(closed)
      ensures n == if buf.Length <= |old(Contents())| then buf.Length else |old(Contents())|
      ensures buf[..n] == old(Contents())[..n] && buf[n..] == old(buf[..])[n..]
      ensures Contents() == old(Contents())[n..]
      ensures outcome == EOF <==> buf.Length > 0 && old(Contents()) == [] && closed
      ensures outcome == Blocked <==> buf.Length > 0 && old(Contents()) == [] && !closed
      ensures forall e :: e in nodes ==> e in old(nodes)
    {
      n, outcome := 0, Done;
      ghost var all := Contents();
      while n < buf.Length
        invariant Valid() && closed == old(closed) && outcome == Done
        invariant n <= buf.Length && n <= |all|
        invariant buf[..n] == all[..n] && buf[n..] == old(buf[..])[n..]
        invariant Contents() == all[n..]
        invariant forall e :: e in nodes ==> e in old(nodes)
        decreases buf.Length - n, |nodes|
      {
        assert head in nodes;
        if |head.buf| > 0 {
          ghost var was := buf[..];
          var r := Take(buf, n);
          assert all[..n] + all[n..][..r] == all[..n + r] && all[n..][r..] == all[n + r..];
          assert was[n + r..] == was[n..][r..] == old(buf[..])[n + r..];
          n := n + r;
          continue;
        }
        if head != tail {
          Advance();
          continue;
        }
        assert bufs[1..] == [] && Contents() == bufs[0] + Concat([]);
        if n > 0 {
          break;
        }
        outcome := if closed then EOF else Blocked;
        break;
      }
    }

    /** One copy out of the head element. */
    method Take(buf: array<byte>, n: nat) returns (r: nat)
      requires Valid() && |head.buf| > 0 && n < buf.Length
      modifies this`bufs, head, buf
      ensures Valid() && 0 < r <= buf.Length - n && r <= |old(Contents())|
      ensures buf[..n + r] == old(buf[..n]) + old(Contents())[..r] && buf[n + r..] == old(buf[..])[n + r..]
      ensures Contents() == old(Contents())[r..]
    {
      r := Copy(buf, n, head.buf);
      assert buf[..n + r] == buf[..n] + buf[n..n + r];
      DropHead(r);
    }

    method DropHead(r: nat)
      requires Valid() && r <= |head.buf|
      modifies this`bufs, head
      ensures Valid() && Contents() == old(Contents())[r..]
    {
      head.buf := head.buf[r..];
      bufs := [bufs[0][r..]] + bufs[1..];
    }

    method Advance()
      requires Valid() && |head.buf| == 0 && head != tail
      modifies this
      ensures Valid() && Contents() == old(Contents()) && closed == old(closed) && nodes == old(nodes)[1..]
    {
      assert |nodes| > 1 && head.next == nodes[1];
      head := head.next;
      nodes, bufs := nodes[1..], bufs[1..];
    }
  }
}
