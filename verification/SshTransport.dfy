/**
 The mutable objects below the handshake steps: the two connection states of a transport, the
 handshake transport's writing side, and the loop that stretches a key exchange into key material.
 */
module SshTransport {
  import opened Bits
  import opened ByteSeqs
  import opened SshHandshake
  import opened Wrappers

  /** One direction of a connection. */
  class ConnectionState {
    var cipher: Cipher
    var seqNum: nat
    var pending: Option<Cipher>

    constructor ()
      ensures View() == Conn(Plain, 0, None)
    {
      cipher, seqNum, pending := Plain, 0, None;
    }

    ghost function View(): Conn
      reads this
    {
      Conn(cipher, seqNum, pending)
    }

    /**
     The packet goes out under the cipher of the moment; NEWKEYS then switches it.  panics says that there
     was no key material to switch to, and then nothing but the sequence number has changed.
     */
    method WritePacket(b: Body) returns (p: Packet, panics: bool)
      modifies this
      ensures p == Packet(b, old(cipher), old(seqNum)) && panics == ConnWrite(old(View()), b).None?
      ensures !panics ==> ConnWrite(old(View()), b) == Some((View(), p))
      ensures panics ==> View() == old(View()).(seqNum := NextSeq(old(seqNum)))
    {
      p := Packet(b, cipher, seqNum);
      panics := false;
      seqNum := NextSeq(seqNum);
      if b.NewKeys? {
        if pending.None? {
          panics := true;
          return;
        }
        cipher := pending.value;
        pending := None;
      }
    }

    /** ok is false for a NEWKEYS that nobody prepared. */
    method ReadPacket(b: Body) returns (ok: bool)
      modifies this
      ensures ok == ConnRead(old(View()), b).Some?
      ensures ok ==> ConnRead(old(View()), b) == Some(View())
    {
      seqNum := NextSeq(seqNum);
      if b.NewKeys? {
        if pending.None? {
          return false;
        }
        cipher := pending.value;
        pending := None;
      }
      return true;
    }
  }

  class Transport {
    const client: bool
    const reader: ConnectionState
    const writer: ConnectionState
    var sessionID: Option<nat>

    constructor (client: bool)
      ensures this.client == client && sessionID == None && reader != writer
      ensures reader.View() == Conn(Plain, 0, None) == writer.View()
    {
      this.client := client;
      reader := new ConnectionState();
      writer := new ConnectionState();
      sessionID := None;
    }

    /**
     The ciphers for both directions wait for the next NEWKEYS; the first H names the session for good.
     A slot that is still full blocks, the reader's before the writer's.
     */
    method PrepareKeyChange(algs: Algorithms, result: KexResult) returns (blocked: bool)
      requires reader != writer
      modifies this, reader, writer
      ensures blocked <==> old(reader.pending).Some? || old(writer.pending).Some?
      ensures sessionID == Some(if old(sessionID).Some? then old(sessionID).value else result.h)
      ensures reader.View() == if old(reader.pending).Some? then old(reader.View())
                               else old(reader.View()).(pending :=
                                   Some(Keyed(!client, algs.r, result, sessionID.value)))
      ensures writer.View() == if blocked then old(writer.View())
                               else old(writer.View()).(pending := Some(Keyed(client, algs.w, result, sessionID.value)))
    {
      if sessionID.None? {
        sessionID := Some(result.h);
      }
      if reader.pending.Some? {
        return true;
      }
      reader.pending := Some(Keyed(!client, algs.r, result, sessionID.value));
      if writer.pending.Some? {
        return true;
      }
      writer.pending := Some(Keyed(client, algs.w, result, sessionID.value));
      return false;
    }
  }

  /** The writing side of a handshake transport; sent collects what reaches the connection. */
  class HandshakeWriter {
    const cfg: Config
    const threshold: nat
    const conn: ConnectionState
    var sentInit: Option<KexInit>
    var writtenSinceKex: nat
    var writeError: bool
    var closed: bool
    var sent: seq<Packet>

    constructor (cfg: Config, threshold: nat, conn: ConnectionState)
      ensures this.cfg == cfg && this.threshold == threshold && this.conn == conn
      ensures sentInit == None && writtenSinceKex == 0 && !writeError && !closed && sent == []
    {
      this.cfg, this.threshold, this.conn := cfg, threshold, conn;
      sentInit, writtenSinceKex, writeError, closed, sent := None, 0, false, false, [];
    }

    /** The object is the writing side of this end of the step system. */
    ghost predicate Mirrors(e: End)
      reads this, conn
    {
      && e.cfg == cfg && e.writer == conn.View() && e.sentInit == sentInit && e.writtenSinceKex == writtenSinceKex
      && e.dead == writeError && e.closed == closed && (closed ==> writeError)
    }

    /**
     At most one KEXINIT is outstanding: a second request gives the first one again.  None says that
     there is no connection any more.
     */
    method SendKexInitLocked(cookie: nat) returns (init: Option<KexInit>)
      modifies this, conn
      ensures sentInit == init && writeError == old(writeError) && closed == old(closed)
      ensures writtenSinceKex == old(writtenSinceKex)
      ensures old(sentInit).Some? || closed
              ==> init == old(sentInit) && sent == old(sent) && conn.View() == old(conn.View())
      ensures old(sentInit).None? && !closed ==>
        && init == Some(BuildInit(cfg, cookie)) && |sent| == |old(sent)| + 1
        && ConnWrite(old(conn.View()), Init(init.value)) == Some((conn.View(), sent[|old(sent)|]))
        && sent[..|old(sent)|] == old(sent)
    {
      if sentInit.Some? || closed {
        return sentInit;
      }
      init := Some(BuildInit(cfg, cookie));
      var p, _ := conn.WritePacket(Init(init.value));
      sent := sent + [p];
      sentInit := init;
    }

    /**
     One attempt of writePacket: it starts a rekeying when the threshold is passed, and waits as long
     as one is under way.  written says whether the packet itself went out.
     */
    method TryWrite(data: seq<int>, refused: bool, cookie: nat, ghost e: End)
        returns (written: bool, waits: bool, ghost f: End)
      requires Mirrors(e)
      modifies this, conn
      ensures Mirrors(f) && f == Attempt(e, data, refused, cookie, threshold)
      ensures waits <==> sentInit.Some? && !writeError
      ensures written <==> !waits && !writeError && !refused
      ensures sentInit == if old(sentInit).None? && old(writtenSinceKex) > threshold && !closed
              then Some(BuildInit(cfg, cookie)) else old(sentInit)
      ensures writtenSinceKex == old(writtenSinceKex) + (if waits || writeError then 0 else |data|)
      ensures written
              ==> |sent| == |old(sent)| + 1 && sent[..|old(sent)|] == old(sent) && sent[|old(sent)|].body == Upper(data)
      ensures !written ==> (sent == old(sent) || (old(sentInit).None? && |sent| == |old(sent)| + 1 &&
                                                  sent[..|old(sent)|] == old(sent) && sent[|old(sent)|].body.Init?))
    {
      f := Attempt(e, data, refused, cookie, threshold);
      if writtenSinceKex > threshold {
        var _ := SendKexInitLocked(cookie);
      }
      waits := sentInit.Some? && !writeError;
      if waits || writeError {
        return false, waits, f;
      }
      writtenSinceKex := writtenSinceKex + |data|;
      if refused {
        return false, false, f;
      }
      var p, _ := conn.WritePacket(Upper(data));
      sent := sent + [p];
      return true, false, f;
    }
  }

  /** The steps of one end that an attempt to write stands for: maybe a request for rekeying, then maybe the write. */
  function Attempt(e: End, data: seq<int>, refused: bool, cookie: nat, threshold: nat): End {
    var r := if e.writtenSinceKex > threshold then RequestStep(e, cookie) else Disabled;
    var d := if r.Next? then r.e else e;
    var w := WriteStep(d, data, refused);
    if w.Next? then w.e else d
  }

  /** Bytes are written only while the count is within the threshold, so it is passed by one packet at most. */
  lemma AttemptBounded(e: End, data: seq<int>, refused: bool, cookie: nat, threshold: nat)
    ensures var f := Attempt(e, data, refused, cookie, threshold);
            && (f.writtenSinceKex != e.writtenSinceKex ==>
                  e.writtenSinceKex <= threshold && f.writtenSinceKex == e.writtenSinceKex + |data|)
            && (e.writtenSinceKex > threshold && !e.closed ==> f.sentInit.Some?)
            && (e.writtenSinceKex <= threshold && e.sentInit.None? && !e.dead && !e.closed ==>
                  f.sentInit.None? && f.writtenSinceKex == e.writtenSinceKex + |data|)
  {
  }

  // --------------------------------------------------------------------------
  // Key material (section 7.2 of RFC 4253)
  // --------------------------------------------------------------------------

  datatype Exchange = Exchange(k: seq<byte>, h: seq<byte>, session: seq<byte>, hash: seq<byte> -> seq<byte>)

  /** The first n digests: K1 from the tag and the session, every further one from all before it. */
  ghost function Digests(x: Exchange, tag: seq<byte>, n: nat): seq<byte> {
    if n == 0 then []
    else if n == 1 then x.hash(x.k + x.h + tag + x.session)
    else Digests(x, tag, n - 1) + x.hash(x.k + x.h + Digests(x, tag, n - 1))
  }

  lemma {:induction false} DigestsPrefix(x: Exchange, tag: seq<byte>, m: nat, n: nat)
    requires m <= n
    ensures Digests(x, tag, m) <= Digests(x, tag, n)
  {
    if m < n {
      DigestsPrefix(x, tag, m, n - 1);
    }
  }

  /** Whatever number of digests is enough, the material is the same. */
  lemma MaterialUnique(x: Exchange, tag: seq<byte>, m: nat, n: nat, len: nat)
    requires len <= |Digests(x, tag, m)| && len <= |Digests(x, tag, n)|
    ensures Digests(x, tag, m)[..len] == Digests(x, tag, n)[..len]
  {
    DigestsPrefix(x, tag, if m <= n then m else n, if m <= n then n else m);
  }

  /** Fills a buffer with the beginning of the digest stream, however long the buffer is. */
  method GenerateKeyMaterial(buf: array<byte>, tag: seq<byte>, x: Exchange) returns (ghost n: nat)
    requires forall s :: |x.hash(s)| > 0
    modifies buf
    ensures |Digests(x, tag, n)| >= buf.Length && buf[..] == Digests(x, tag, n)[..buf.Length]
  {
    var digestsSoFar: seq<byte> := [];
    var done := 0;
    n := 0;
    while done < buf.Length
      invariant 0 <= done <= buf.Length && done <= |Digests(x, tag, n)|
      invariant buf[..done] == Digests(x, tag, n)[..done]
      invariant done < buf.Length ==> digestsSoFar == Digests(x, tag, n) && done == |digestsSoFar|
      invariant n > 0 ==> |Digests(x, tag, n)| > 0
      invariant n == 0 ==> done == 0
    {
      var digest := if |digestsSoFar| == 0 then x.hash(x.k + x.h + tag + x.session)
          else x.hash(x.k + x.h + digestsSoFar);
      NextDigest(x, tag, n, digestsSoFar, digest);
      var c := Copy(buf, done, digest);
      assert buf[..done + c] == digestsSoFar + digest[..c];
      n := n + 1;
      done := done + c;
      if done < buf.Length {
        digestsSoFar := digestsSoFar + digest;
      }
    }
  }

  lemma NextDigest(x: Exchange, tag: seq<byte>, n: nat, soFar: seq<byte>, digest: seq<byte>)
    requires soFar == Digests(x, tag, n) && (n > 0 ==> |soFar| > 0)
    requires digest == if |soFar| == 0 then x.hash(x.k + x.h + tag + x.session) else x.hash(x.k + x.h + soFar)
    ensures Digests(x, tag, n + 1) == soFar + digest
  {
  }
}
