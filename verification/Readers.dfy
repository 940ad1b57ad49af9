/** The contract of io.Reader: data that arrive in pieces of any size, and io.ReadFull on top of it. */
module Readers {
  import opened Bits
  import opened ByteSeqs

  datatype Status = Ok | EOF | UnexpectedEOF

  /** How an underlying reader answers one call: at most so many bytes, and EOF already with the last of them. */
  datatype Choice = Choice(max: nat, eager: bool)

  /** What a call is answered with, as the schedule has it. */
  function Answer(schedule: seq<Choice>, len: nat, data: seq<byte>): (n: nat)
    ensures n <= len && n <= |data|
  {
    var max := if schedule == [] then len else schedule[0].max;
    var n := if max < len then max else len;
    if |data| < n then |data| else n
  }

  function Report(schedule: seq<Choice>, len: nat, data: seq<byte>): Status {
    var eager := if schedule == [] then data == [] else schedule[0].eager;
    if Answer(schedule, len, data) == |data| && eager then EOF else Ok
  }

  /** The end is reported only by a call that finds nothing left. */
  predicate Patient(schedule: seq<Choice>) {
    forall i :: 0 <= i < |schedule| ==> !schedule[i].eager
  }

  lemma PatientReports(schedule: seq<Choice>, len: nat, data: seq<byte>)
    ensures Patient(schedule) && data != [] ==> Report(schedule, len, data) == Ok
  {
  }

  /**
   Any reader of fixed data: the schedule decides how much each call delivers, zero included, and
   when the end is reported.  When the schedule is used up, calls deliver all they can.
   */
  class Source {
    var data: seq<byte>
    var schedule: seq<Choice>

    /** How much the last call asked for, and how it was answered. */
    ghost var asked: nat
    ghost var gave: nat
    ghost var told: Status

    constructor (data: seq<byte>, schedule: seq<Choice>)
      ensures this.data == data && this.schedule == schedule
    {
      this.data, this.schedule := data, schedule;
    }

    /** The last call got all that it asked for, and the end with it. */
    ghost predicate EndedFull()
      reads this
    {
      told == EOF && gave == asked
    }

    method Read(buf: array<byte>, off: nat, len: nat) returns (n: nat, status: Status)
      requires off + len <= buf.Length
      modifies this, buf
      ensures n == Answer(old(schedule), len, old(data)) && status == Report(old(schedule), len, old(data))
      ensures n <= len && n <= |old(data)| && data == old(data)[n..] && buf[off..off + n] == old(data)[..n]
      ensures buf[..off] == old(buf[..off]) && buf[off + len..] == old(buf[off + len..])
      ensures status != UnexpectedEOF && (status == EOF ==> data == []) && asked == len && gave == n && told == status
      ensures Patient(old(schedule)) ==> Patient(schedule)
      ensures |schedule| <= |old(schedule)| && (len > 0 && n == 0 && status == Ok ==> |schedule| < |old(schedule)|)
    {
      var c := if schedule == [] then Choice(len, data == []) else schedule[0];
      schedule := if schedule == [] then [] else schedule[1..];
      n := if c.max < len then c.max else len;
      n := if |data| < n then |data| else n;
      Place(buf, off, data[..n]);
      assert buf[off + len..] == buf[off + n..][len - n..];
      assert old(buf[off + len..]) == old(buf[off + n..])[len - n..];
      data := data[n..];
      status := if data == [] && c.eager then EOF else Ok;
      asked, gave, told := len, n, status;
    }
  }

  /** io.ReadFull: fills the part of the buffer, or comes back short when the data end. */
  method ReadFull(r: Source, buf: array<byte>, off: nat, len: nat) returns (n: nat, ok: bool)
    requires off + len <= buf.Length
    modifies r, buf
    ensures n == (if len <= |old(r.data)| then len else |old(r.data)|) && ok == (n == len)
    ensures r.data == old(r.data)[n..] && buf[off..off + n] == old(r.data)[..n]
    ensures buf[..off] == old(buf[..off]) && buf[off + len..] == old(buf[off + len..])
    ensures |r.schedule| <= |old(r.schedule)| && (!ok ==> r.gave < r.asked)
    ensures Patient(old(r.schedule)) ==> Patient(r.schedule)
  {
    hide Answer, Report, Patient;
    n := 0;
    ghost var all := r.data;
    while n < len
      invariant 0 <= n <= len && n <= |all| && r.data == all[n..]
      invariant buf[off..off + n] == all[..n]
      invariant buf[..off] == old(buf[..off]) && buf[off + len..] == old(buf[off + len..])
      invariant |r.schedule| <= |old(r.schedule)| && (Patient(old(r.schedule)) ==> Patient(r.schedule))
      decreases len - n, |r.schedule|
    {
      ghost var was := buf[..];
      var m, status := r.Read(buf, off + n, len - n);
      Grown(was, buf[..], all, off, n, m);
      n := n + m;
      if status == EOF {
        break;
      }
    }
    ok := n == len;
  }

  /** ReadFull into a buffer of its own. */
  method ReadBytes(r: Source, len: nat) returns (s: seq<byte>, ok: bool)
    modifies r
    ensures ok == (len <= |old(r.data)|)
    ensures ok ==> s == old(r.data)[..len] && r.data == old(r.data)[len..]
  {
    var buf := new byte[len];
    var n;
    n, ok := ReadFull(r, buf, 0, len);
    s := buf[..];
    assert buf[0..len] == buf[..];
  }

  /** n bytes were in place, and m more come behind them. */
  lemma Grown(was: seq<byte>, now: seq<byte>, all: seq<byte>, off: nat, n: nat, m: nat)
    requires |was| == |now| && off + n + m <= |now| && n + m <= |all|
    requires now[..off + n] == was[..off + n] && was[off..off + n] == all[..n]
             && now[off + n..off + n + m] == all[n..][..m]
    ensures now[off..off + n + m] == all[..n + m]
  {
    assert now[off..off + n] == now[..off + n][off..] && was[off..off + n] == was[..off + n][off..];
    assert now[off..off + n + m] == now[off..off + n] + now[off + n..off + n + m];
    assert all[..n + m] == all[..n] + all[n..][..m];
  }
}
