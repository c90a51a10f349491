/** `transmission_phase`: the request loop of the NBD server, with its registers and its one buffer. */
module Transmission {
  import opened Bytes
  import opened Masks
  import opened Wire
  import opened Transport
  import opened Exports
  import FilePlugin
  import opened Calls
  import opened Phase

  const MSG_MORE := 0x8000

  /** How a turn of the READ loop ends: a chunk sent, a retry, no retry left, or a send that fell short. */
  datatype Turn = Sent | Retried | Stuck | Cut

  /** How a turn of the WRITE loop ends: a chunk stored, a pwrite that failed, or a payload that did not arrive. */
  datatype WriteTurnEnd = Stored | Refused | Starved

  /** Where the registers of a chunk loop stand: the send flag, the next block, the blocks to go and the chunk. */
  datatype Spot = Spot(flag: nat, offset: nat, remains: nat, chunk: nat)

  /** The transport takes some chunk in full. */
  ghost predicate TakesChunk(sock: Socket, buflen: nat) {
    exists k: nat, size: nat :: 0 < size <= buflen && sock.limit(k, size) >= size
  }

  /** Reads that stay among `n` blocks from `from` on. */
  ghost predicate ReadWindow(calls: seq<Call>, from: nat, n: nat) {
    forall k :: 0 <= k < |calls| ==>
      calls[k].ReadCall? && from <= calls[k].offset && calls[k].offset + calls[k].count <= from + n
  }

  /** `data` is what the disk holds from block `offset` on, if it holds that much. */
  ghost predicate DataAt(disk: seq<byte>, bs: nat, offset: nat, data: seq<byte>) {
    Span(offset, bs) + |data| <= |disk| ==> data == disk[Span(offset, bs)..Span(offset, bs) + |data|]
  }

  /** One turn of the READ loop: only a chunk that was sent moves it on. */
  ghost predicate Turned(a: Spot, b: Spot, turn: Turn, takes: bool) {
    && b.chunk == NextChunk(a.remains, a.chunk)
    && if turn.Sent? then
         && b.offset == a.offset + b.chunk && b.remains == a.remains - b.chunk
         && b.flag == (if a.remains <= b.chunk then 0 else a.flag) && (b.chunk > 0 ==> takes)
       else
         && b.offset == a.offset && b.remains == a.remains
         && (turn.Cut? || turn.Stuck? ==> b.flag == if a.remains <= b.chunk then 0 else a.flag)
         && (turn.Retried? ==> b.flag == 1)
  }

  lemma TurnedMeans(a: Spot, b: Spot, turn: Turn, takes: bool)
    requires Turned(a, b, turn, takes) && a.flag != 0 && (a.chunk > 0 || a.remains == 0)
    ensures b.chunk == NextChunk(a.remains, a.chunk)
    ensures turn.Sent? ==> b.flag == 0 || b.remains < a.remains
    ensures !turn.Sent? ==> b.remains == a.remains
    ensures turn.Cut? ==> (b.flag == 0 <==> b.remains <= b.chunk)
  {
  }

  /**
   * Some turns, whatever the transport did: the loop stays in its window, and ends only with less than a chunk to
   * go.
   */
  ghost predicate Moved(a: Spot, b: Spot, calls: seq<Call>, takes: bool) {
    && (calls == [] ==> b == a) && (calls != [] ==> a.flag != 0 && (b.flag == 0 ==> b.remains <= b.chunk))
    && b.chunk <= a.chunk && b.offset + b.remains == a.offset + a.remains && b.remains <= a.remains
    && (b.remains == a.remains || takes) && ReadWindow(calls, a.offset, a.remains)
  }

  lemma MovedNot(a: Spot, takes: bool)
    ensures Moved(a, a, [], takes)
  {
  }

  lemma MovedMore(a: Spot, b: Spot, c: Spot, turn: Turn, calls: seq<Call>, takes: bool, code: int)
    requires Moved(a, b, calls, takes) && b.flag != 0 && Turned(b, c, turn, takes)
    ensures Moved(a, c, calls + [ReadCall(b.offset, c.chunk, code)], takes)
  {
  }

  lemma MovedMeans(a: Spot, b: Spot, calls: seq<Call>, takes: bool)
    requires Moved(a, b, calls, takes)
    ensures calls != [] ==> a.flag != 0 && (b.flag == 0 ==> b.remains <= b.chunk)
    ensures calls == [] ==> b == a
  {
  }

  /** One turn of the WRITE loop: only a payload that arrived moves it on. */
  ghost predicate Wrote(a: Spot, b: Spot, turn: WriteTurnEnd) {
    && b.chunk == NextChunk(a.remains, a.chunk)
    && if turn.Starved? then b.flag == 0 && b.offset == a.offset && b.remains == a.remains
       else
         && b.offset == a.offset + b.chunk && b.remains == a.remains - b.chunk
         && b.flag == if turn.Refused? || a.remains <= b.chunk then 0 else a.flag
  }

  lemma WroteMeans(a: Spot, b: Spot, turn: WriteTurnEnd)
    requires Wrote(a, b, turn) && a.flag != 0 && (a.chunk > 0 || a.remains == 0)
    ensures b.chunk == NextChunk(a.remains, a.chunk) && (b.flag == 0 || b.remains < a.remains)
  {
  }

  ghost predicate AllWrites(calls: seq<Call>) {
    forall k :: 0 <= k < |calls| ==> calls[k].WriteCall?
  }

  /** Some turns of the WRITE loop: its first call comes exactly if its first chunk of payload does. */
  ghost predicate Drew(bs: nat, a: Spot, arrived: nat, b: Spot, left: nat, calls: seq<Call>) {
    && left <= arrived && AllWrites(calls)
    && (calls != [] ==> a.flag != 0 && Span(NextChunk(a.remains, a.chunk), bs) <= arrived)
    && (calls == [] && b.flag != 0 ==> b == a && left == arrived)
    && (calls == [] && b.flag == 0 ==> a.flag == 0 || Span(NextChunk(a.remains, a.chunk), bs) > arrived)
  }

  lemma DrewNothing(bs: nat, a: Spot, arrived: nat)
    ensures Drew(bs, a, arrived, a, arrived, [])
  {
  }

  lemma DrewMeans(bs: nat, a: Spot, arrived: nat, b: Spot, left: nat, calls: seq<Call>)
    requires Drew(bs, a, arrived, b, left, calls) && b.flag == 0
    ensures left <= arrived && AllWrites(calls)
    ensures calls != [] <==> a.flag != 0 && Span(NextChunk(a.remains, a.chunk), bs) <= arrived
  {
  }

  lemma DrewMore(bs: nat, a: Spot, arrived: nat, b: Spot, left: nat, c: Spot, rest: nat, calls: seq<Call>,
                 turn: WriteTurnEnd, code: int)
    requires Drew(bs, a, arrived, b, left, calls) && b.flag != 0 && Wrote(b, c, turn) && rest <= left
    requires turn.Starved? <==> left < Span(c.chunk, bs)
    ensures Drew(bs, a, arrived, c, rest, if turn.Starved? then calls else calls + [WriteCall(b.offset, c.chunk, code)])
  {
  }

  class Server {
    const sock: Socket
    const exp: Export
    const buflen: nat        // CONFIG_NBD_BUFFER_LEN
    const retries: nat       // CONFIG_MAX_RETRIES
    const buffer: array<byte>
    const header: array<byte>

    // The registers of transmission_phase. They outlive a request.
    var retry: nat
    var sendflag: nat
    var blkremains: nat
    var byteread: nat
    var bufblksz: nat
    var offset: nat

    ghost function Repr(): set<object> {
      {this, sock, exp, buffer, header} + exp.Repr()
    }

    ghost function Settings(): (c: Conf)
      reads exp
    {
      Conf(exp.blocksize, exp.exportsize, Has(exp.eflags, NBD_FLAG_READ_ONLY), buflen, retries,
           exp.Grain(), exp.hasFlush, exp.plugin.File?)
    }

    ghost predicate Apart() {
      && sock !in exp.Repr() && exp !in exp.Repr() && this !in exp.Repr()
      && buffer !in exp.Repr() && header !in exp.Repr() && buffer != header
      && buffer.Length == buflen && header.Length == 28
    }

    /** What the registers keep to whatever the transport does. */
    ghost predicate Regs()
      reads this, exp
    {
      byteread == Span(bufblksz, exp.blocksize) <= buflen && (sendflag != 0 ==> bufblksz > 0 || blkremains == 0)
    }

    ghost predicate Valid()
      reads this, sock, exp, exp.Repr()
    {
      Apart() && sock.Valid() && sock.endCode == 0 && exp.Valid() && Settings().Valid() && Regs()
    }

    /** As long as every send was complete, a request starts with the send flag down and all retries left. */
    ghost predicate Ready()
      reads this, sock
    {
      !sock.short ==> sendflag == 0 && retry == retries
    }

    constructor (sock: Socket, exp: Export, buflen: nat, retries: nat)
      requires sock.Valid() && sock.endCode == 0 && exp.Valid() && exp.blocksize <= buflen
      requires sock !in exp.Repr() && exp !in exp.Repr()
      ensures Valid() && Ready() && this.sock == sock && this.exp == exp && this.retries == retries
      ensures this.buflen == buflen
      ensures fresh(this) && fresh(buffer) && fresh(header)
    {
      this.sock, this.exp, this.buflen, this.retries := sock, exp, buflen, retries;
      retry, sendflag, blkremains, byteread, bufblksz, offset := retries, 0, 0, 0, 0, 0;
      buffer, header := new byte[buflen], new byte[28];
    }

    /** The registers for a request whose range was accepted. */
    method SetUp(req: Request)
      requires Valid()
      modifies this`sendflag, this`bufblksz, this`blkremains, this`offset, this`byteread
      ensures Valid() && sendflag == MSG_MORE && bufblksz == Settings().Chunk()
      ensures blkremains == Blocks(Settings(), req) && offset == First(Settings(), req)
    {
      sendflag := MSG_MORE;
      bufblksz := buflen / exp.blocksize;
      blkremains := req.count / exp.blocksize;
      offset := req.offset / exp.blocksize;
      byteread := Span(bufblksz, exp.blocksize);
      DivMod(buflen, exp.blocksize);
      ChunkPositive(Settings());
    }

    /** The start of a turn of either loop: the last chunk may be smaller, and lowers the send flag. */
    method StartTurn()
      requires Valid() && sendflag != 0
      modifies this`bufblksz, this`byteread, this`sendflag
      ensures Valid() && bufblksz == NextChunk(blkremains, old(bufblksz))
      ensures sendflag == if blkremains <= bufblksz then 0 else old(sendflag)
    {
      if blkremains < bufblksz {
        SpanFits(blkremains, bufblksz - blkremains, bufblksz, exp.blocksize);
        bufblksz := blkremains;
        byteread := Span(bufblksz, exp.blocksize);
      }
      if blkremains <= bufblksz {
        sendflag := 0;
      }
    }

    /** The pread of a chunk into the buffer. */
    method FetchChunk() returns (r: int)
      requires Valid()
      modifies buffer, exp`strays, exp`calls, exp.Repr()
      ensures Valid() && exp.Disk() == old(exp.Disk())
      ensures exp.calls == old(exp.calls) + [ReadCall(offset, bufblksz, r)]
      ensures r == 0 ==> DataAt(exp.Disk(), exp.blocksize, offset, buffer[..byteread])
    {
      hide Splice, Export.Valid, Export.PluginValid, Export.Disk, Export.FromPlugin, Export.Now, Export.Faultless, Has;
      r := exp.Pread(buffer, bufblksz, offset);
    }

    /** The send of a chunk that lies in the buffer. */
    method SendChunk() returns (turn: Turn, ghost data: seq<byte>)
      requires Valid() && bufblksz <= blkremains
      modifies this`retry, this`blkremains, this`offset, sock`output, sock`sends, sock`short, sock`last
      ensures Valid() && data == buffer[..byteread] && (turn.Sent? || turn.Cut?)
      ensures turn.Sent? ==>
                && sock.short == old(sock.short) && sock.output == old(sock.output) + data && retry == retries
                && offset == old(offset) + bufblksz && blkremains == old(blkremains) - bufblksz
                && (bufblksz > 0 ==> TakesChunk(sock, buflen))
      ensures turn.Cut? ==>
                && sock.short && !sock.Complete() && sock.LastShort()
                && offset == old(offset) && blkremains == old(blkremains)
    {
      hide Span, TakesChunk, Export.Valid, Export.PluginValid, Export.Disk, Has;
      data := buffer[..byteread];
      var r := sock.Send(buffer[..byteread]);
      if r != byteread {
        return Cut, data;
      }
      ChunkTaken(sock.sends - 1);
      offset := offset + bufblksz;
      blkremains := blkremains - bufblksz;
      retry := retries;
      turn := Sent;
    }

    /** One turn of the READ loop: a pread into the buffer and its send, or one retry less. */
    method ReadChunk() returns (turn: Turn, ghost data: seq<byte>, code: int)
      requires Valid() && sendflag != 0
      modifies this`retry, this`sendflag, this`blkremains, this`byteread, this`bufblksz, this`offset
      modifies sock`output, sock`sends, sock`short, sock`last, buffer, exp`strays, exp`calls, exp.Repr()
      ensures Valid() && exp.Disk() == old(exp.Disk())
      ensures exp.calls == old(exp.calls) + [ReadCall(old(offset), bufblksz, code)]
      ensures Turned(old(At()), At(), turn, TakesChunk(sock, buflen))
      ensures if turn.Cut? then sock.short && !sock.Complete() && sock.LastShort() else sock.short == old(sock.short)
      ensures turn.Sent? ==>
                && code == 0 && retry == retries
                && |data| == Span(bufblksz, exp.blocksize) && sock.output == old(sock.output) + data
                && DataAt(exp.Disk(), exp.blocksize, old(offset), data)
      ensures turn.Retried? || turn.Stuck? ==> code != 0 && sock.output == old(sock.output)
      ensures turn.Retried? ==> old(retry) > 0 && retry == old(retry) - 1
      ensures turn.Stuck? ==> old(retry) == 0
    {
      hide Span, Splice, DataAt, TakesChunk, Socket.Complete, Socket.LastShort, Export.Valid, Export.PluginValid,
           Export.Disk, Export.FromPlugin, Export.Now, Export.Faultless, Has;
      StartTurn();
      code := FetchChunk();
      data := [];
      if code == 0 {
        turn, data := SendChunk();
      } else if retry > 0 {
        retry := retry - 1;
        sendflag := 1;
        turn := Retried;
      } else {
        turn := Stuck;
      }
    }

    /**
     * The chunk loop of READ. It serves a request whose range was accepted when `active`; otherwise it only runs on a
     * send flag left over from a request whose reply could not be sent in full.
     */
    method SendChunks(ghost active: bool, ghost req: Request, ghost disk: seq<byte>)
      returns (ok: bool, ghost calls: seq<Call>, ghost payload: seq<byte>)
      requires Valid() && disk == exp.Disk() && |disk| == exp.exportsize
      requires !sock.short ==>
                 if active then ReadStarts(Settings(), req, disk, blkremains, offset, bufblksz, retry, sendflag)
                 else sendflag == 0
      modifies this`retry, this`sendflag, this`blkremains, this`byteread, this`bufblksz, this`offset
      modifies sock`output, sock`sends, sock`short, sock`last, buffer, exp`strays, exp`calls, exp.Repr()
      ensures Valid() && exp.Disk() == disk && (old(sock.short) ==> sock.short)
      ensures sock.Complete() ==> sock.short == old(sock.short)
      ensures exp.calls == old(exp.calls) + calls && (calls != [] <==> old(sendflag) != 0)
      ensures Moved(old(At()), At(), calls, TakesChunk(sock, buflen))
      ensures !ok ==> calls != [] && calls[|calls| - 1].code != 0
      ensures ok && old(sendflag) != 0 ==>
                (sendflag != 0 <==> blkremains > bufblksz) && (sendflag != 0 ==> sock.LastShort())
      ensures !sock.short ==> sock.output == old(sock.output) + payload
      ensures !sock.short && ok && active ==>
                && sendflag == 0 && retry == retries
                && ReadOk(Settings(), Exchange(req, NBD_SUCCESS, payload, [], calls, disk, disk, true))
      ensures !sock.short && ok && !active ==> sendflag == 0 && retry == old(retry) && payload == [] && calls == []
      ensures !sock.short && !ok ==>
                active && ReadOk(Settings(), Exchange(req, NBD_SUCCESS, payload, [], calls, disk, disk, false))
    {
      hide DataAt, Conf.Valid, Socket.Complete, Socket.Valid, Socket.LastShort, Turned, ReadStarts, Accounted, ReadOk,
           Span, Splice, Over, Regs, Moved, TakesChunk, Export.Valid, Export.PluginValid, Export.Disk, Export.Grain,
           Has;
      ghost var conf, calls0, retry0, spot, takes := Settings(), exp.calls, retry, At(), TakesChunk(sock, buflen);
      calls, payload := [], [];
      MovedNot(spot, takes);
      if !sock.short {
        AccountedStart(conf, active, req, disk, spot, retry);
      }
      while sendflag != 0
        invariant Valid() && exp.Disk() == disk && (old(sock.short) ==> sock.short)
        invariant sock.Complete() ==> sock.short == old(sock.short)
        invariant exp.calls == calls0 + calls && Moved(spot, At(), calls, takes)
        invariant !sock.short ==> sock.output == old(sock.output) + payload
        invariant !sock.short ==> Accounted(conf, active, req, disk, calls, payload, At(), retry, retry0)
        decreases sendflag != 0, blkremains, retry
      {
        ghost var was, left := At(), retry;
        RegsMeaning();
        var turn: Turn;
        ghost var data;
        var code;
        turn, data, code := ReadChunk();
        MovedMore(spot, was, At(), turn, calls, takes, code);
        TurnedMeans(was, At(), turn, takes);
        if !sock.short {
          AccountedMore(conf, active, req, disk, calls, payload, was, At(), left, retry, retry0, turn, takes, data,
                        code);
        }
        calls := calls + [ReadCall(was.offset, bufblksz, code)];
        match turn {
          case Cut =>
            break;
          case Sent =>
            payload := payload + data;
          case Retried =>
          case Stuck =>
            MovedMeans(spot, At(), calls, takes);
            return false, calls, payload;
        }
      }
      ok := true;
      MovedMeans(spot, At(), calls, takes);
      if !sock.short {
        AccountedEnd(conf, active, req, disk, calls, payload, At(), retry, retry0);
      }
    }

    /** Where the registers stand. */
    ghost function At(): Spot
      reads this
    {
      Spot(sendflag, offset, blkremains, bufblksz)
    }

    lemma RegsMeaning()
      requires Valid()
      ensures sendflag != 0 ==> bufblksz > 0 || blkremains == 0
    {
    }

    lemma ChunkTaken(k: nat)
      requires Valid() && sock.limit(k, byteread) >= byteread
      ensures bufblksz > 0 ==> TakesChunk(sock, buflen)
    {
      assert bufblksz > 0 ==> 0 < Span(bufblksz, exp.blocksize) == byteread <= buflen;
    }

    /** NBD_CMD_READ. The phase goes on when `ok`. */
    method ServeRead(req: Request) returns (ok: bool, ghost ex: Exchange)
      requires Valid() && Ready() && req.Fits() && req.kind == NBD_CMD_READ
      modifies this`retry, this`sendflag, this`blkremains, this`byteread, this`bufblksz, this`offset
      modifies sock`output, sock`sends, sock`short, sock`last, buffer, exp`strays, exp`calls, exp.Repr()
      ensures Valid() && (ok ==> Ready()) && exp.Disk() == old(exp.Disk())
      ensures (old(sock.short) ==> sock.short) && (sock.Complete() ==> sock.short == old(sock.short))
      ensures exp.calls == old(exp.calls) + ex.calls
      ensures Over(Settings(), req) ==> (ex.calls != [] <==> old(sendflag) != 0)
      ensures !Over(Settings(), req) ==> ReadWindow(ex.calls, First(Settings(), req), Blocks(Settings(), req))
      ensures !ok ==> ex.calls != [] && ex.calls[|ex.calls| - 1].code != 0
      ensures ok && !Over(Settings(), req) ==>
                && (sendflag != 0 <==> blkremains > bufblksz) && (sendflag != 0 ==> sock.LastShort())
                && bufblksz <= Settings().Chunk() && (blkremains == Blocks(Settings(), req) || TakesChunk(sock, buflen))
      ensures !sock.short ==>
                && ex.req == req && ReadOk(Settings(), ex) && ex.finished == ok
                && ex.before == ex.after == exp.Disk()
                && sock.output == old(sock.output) + Rendered(ex)
    {
      hide Conf.Valid, Socket.Complete, Socket.LastShort, ReadState, Span, Splice, SimpleReply, First, Blocks,
           Delivered, Request.Fits, Export.Valid, Export.Disk, Has;
      exp.Sizes();
      ghost var disk := exp.Disk();
      ghost var calls, payload;
      var error := NBD_SUCCESS;
      if (req.offset + req.count) % 0x1_0000_0000_0000_0000 > exp.exportsize {
        error := NBD_EIO;
      } else {
        SetUp(req);
        ReadStart(Settings(), req, disk);
      }
      var r := sock.Send(SimpleReply(error, req.handle));
      ok, calls, payload := SendChunks(error == NBD_SUCCESS, req, disk);
      ex := Exchange(req, error, payload, [], calls, disk, disk, ok);
    }

    /** The pwrite of a chunk that lies in the buffer. */
    method StoreChunk(ghost data: seq<byte>) returns (turn: WriteTurnEnd, code: int)
      requires Valid() && data == buffer[..byteread] && bufblksz <= blkremains
      modifies this`retry, this`sendflag, this`blkremains, this`offset, exp`strays, exp`calls, exp.Repr()
      ensures Valid() && |exp.Disk()| == |old(exp.Disk())| && !turn.Starved?
      ensures exp.calls == old(exp.calls) + [WriteCall(old(offset), bufblksz, code)]
      ensures retry == retries && blkremains == old(blkremains) - bufblksz && offset == old(offset) + bufblksz
      ensures turn.Stored? ==>
                && code == 0 && sendflag == old(sendflag)
                && (exp.hasPwrite && Span(old(offset), exp.blocksize) + |data| <= |old(exp.Disk())| ==>
                      IsSplice(old(exp.Disk()), exp.Disk(), Span(old(offset), exp.blocksize), data))
      ensures turn.Refused? ==>
                && code != 0 && sendflag == 0 && exp.Grain() > 0
                && (Span(old(offset), exp.blocksize) + |data| <= |old(exp.Disk())| ==>
                      Spared(old(exp.Disk()), exp.Disk(), old(offset), old(offset) + bufblksz, exp.Grain(),
                             exp.blocksize))
    {
      hide Span, Splice, IsSplice, Spared, Export.Valid, Export.PluginValid, Export.Disk, Export.FromPlugin,
           Export.Now, Export.Faultless, Export.Grain, Has;
      exp.Sizes();
      var r := exp.Pwrite(buffer[..byteread], bufblksz, offset);
      code := r;
      turn := Stored;
      if r != 0 {
        sendflag := 0;
        turn := Refused;
      }
      offset := offset + bufblksz;
      blkremains := blkremains - bufblksz;
      retry := retries;
      exp.Sizes();
    }

    /** One turn of the WRITE loop: a chunk of payload into the buffer, and its pwrite. */
    method WriteChunk() returns (turn: WriteTurnEnd, ghost data: seq<byte>, code: int)
      requires Valid() && sendflag != 0
      modifies this`retry, this`sendflag, this`blkremains, this`byteread, this`bufblksz, this`offset
      modifies sock`input, sock`recvs, buffer, exp`strays, exp`calls, exp.Repr()
      ensures Valid() && |exp.Disk()| == |old(exp.Disk())|
      ensures Wrote(old(At()), At(), turn) && old(sock.input) == data + sock.input
      ensures turn.Starved? <==> |old(sock.input)| < Span(bufblksz, exp.blocksize)
      ensures exp.calls == old(exp.calls) + if turn.Starved? then [] else [WriteCall(old(offset), bufblksz, code)]
      ensures !turn.Starved? ==>
                |data| == Span(bufblksz, exp.blocksize) && retry == retries
      ensures turn.Stored? ==>
                && code == 0
                && (exp.hasPwrite && Span(old(offset), exp.blocksize) + |data| <= |old(exp.Disk())| ==>
                      IsSplice(old(exp.Disk()), exp.Disk(), Span(old(offset), exp.blocksize), data))
      ensures turn.Refused? ==>
                && code != 0 && exp.Grain() > 0
                && (Span(old(offset), exp.blocksize) + |data| <= |old(exp.Disk())| ==>
                      Spared(old(exp.Disk()), exp.Disk(), old(offset), old(offset) + bufblksz, exp.Grain(),
                             exp.blocksize))
      ensures turn.Starved? ==>
                && sock.input == [] && |data| < Span(bufblksz, exp.blocksize)
                && exp.Disk() == old(exp.Disk()) && retry == old(retry)
    {
      hide Span, Splice, IsSplice, Spared, Export.Valid, Export.PluginValid, Export.Disk, Export.FromPlugin,
           Export.Now, Export.Faultless, Export.Grain, Has;
      ghost var stream := sock.input;
      exp.Sizes();
      StartTurn();
      var r := sock.RecvBlock(buffer, byteread);
      code := 0;
      if r == byteread {
        data := stream[..byteread];
        assert buffer[..byteread] == data && stream == data + sock.input;
        turn, code := StoreChunk(data);
      } else {
        data := stream;
        sendflag := 0;
        turn := Starved;
      }
    }

    /** What has arrived is enough for the first chunk of `remains` blocks. */
    ghost predicate FirstChunkArrives(remains: nat, chunk: nat, arrived: nat)
      reads exp
    {
      Span(NextChunk(remains, chunk), exp.blocksize) <= arrived
    }

    /** The chunk loop of WRITE; `active` as for READ. */
    method RecvChunks(ghost active: bool, ghost req: Request, ghost d0: seq<byte>, error0: nat)
      returns (error: nat, ghost calls: seq<Call>, ghost drained: seq<byte>)
      requires Valid() && d0 == exp.Disk() && |d0| == exp.exportsize
      requires !sock.short && active ==>
                 && error0 == NBD_SUCCESS && retry == retries && exp.hasPwrite
                 && WriteStarts(Settings(), req, d0, blkremains, offset, bufblksz, sendflag)
      requires !sock.short && !active ==> sendflag == 0
      modifies this`retry, this`sendflag, this`blkremains, this`byteread, this`bufblksz, this`offset
      modifies sock`input, sock`recvs, buffer, exp`strays, exp`calls, exp.Repr()
      ensures Valid() && sendflag == 0 && |sock.input| <= |old(sock.input)|
      ensures exp.calls == old(exp.calls) + calls && AllWrites(calls)
      ensures calls != [] <==>
                old(sendflag) != 0 && FirstChunkArrives(old(blkremains), old(bufblksz), |old(sock.input)|)
      ensures !sock.short ==> retry == old(retry) && old(sock.input) == drained + sock.input
      ensures !sock.short && active ==>
                && WriteOk(Settings(), Exchange(req, error, [], drained, calls, d0, exp.Disk(), true))
                && (error == NBD_EOVERFLOW ==> sock.input == [])
      ensures !sock.short && !active ==> error == error0 && drained == [] && calls == [] && exp.Disk() == d0
    {
      hide Conf.Valid, Received, Wrote, Drew, WriteStarts, WriteOk, IsSplice, Spared, Span, Over, Regs, Export.Grain,
           Export.Valid, Export.PluginValid, Export.Disk, Has;
      ghost var conf, calls0, spot, bs, in0 := Settings(), exp.calls, At(), exp.blocksize, sock.input;
      error, calls, drained := error0, [], [];
      DrewNothing(bs, spot, |in0|);
      if !sock.short {
        ReceivedNothing(conf, active, req, d0, error0, spot, in0);
      }
      while sendflag != 0
        invariant Valid() && |exp.Disk()| == |d0|
        invariant exp.calls == calls0 + calls && Drew(bs, spot, |in0|, At(), |sock.input|, calls)
        invariant !sock.short ==>
          && retry == old(retry) && in0 == drained + sock.input
          && Received(conf, active, req, d0, exp.Disk(), calls, drained, error, error0, At(), sock.input)
        decreases sendflag != 0, blkremains
      {
        ghost var was, disk, left := At(), exp.Disk(), sock.input;
        RegsMeaning();
        var turn: WriteTurnEnd;
        ghost var data;
        var code;
        turn, data, code := WriteChunk();
        WroteMeans(was, At(), turn);
        DrewMore(bs, spot, |in0|, was, |left|, At(), |sock.input|, calls, turn, code);
        if !sock.short {
          ReceivedMore(conf, active, req, d0, disk, exp.Disk(), calls, drained, data, error, error0, was, At(),
                       turn, code, left, sock.input);
        }
        match turn {
          case Stored =>
            calls := calls + [WriteCall(was.offset, bufblksz, code)];
          case Refused =>
            error := NBD_EIO;
            calls := calls + [WriteCall(was.offset, bufblksz, code)];
          case Starved =>
            error := NBD_EOVERFLOW;
        }
        drained := drained + data;
      }
      DrewMeans(bs, spot, |in0|, At(), |sock.input|, calls);
      if !sock.short {
        ReceivedMeans(conf, active, req, d0, exp.Disk(), calls, drained, error, error0, At(), sock.input);
      }
    }

    /** NBD_CMD_WRITE. */
    method ServeWrite(req: Request) returns (ghost ex: Exchange)
      requires Valid() && Ready() && req.Fits() && req.kind == NBD_CMD_WRITE
      modifies this`retry, this`sendflag, this`blkremains, this`byteread, this`bufblksz, this`offset
      modifies sock`input, sock`recvs, sock`output, sock`sends, sock`short, sock`last, buffer, exp`strays
      modifies exp`calls, exp.Repr()
      ensures Valid() && Ready() && |sock.input| <= |old(sock.input)| && sendflag == 0
      ensures (old(sock.short) ==> sock.short) && (sock.Complete() ==> sock.short == old(sock.short))
      ensures exp.calls == old(exp.calls) + ex.calls && AllWrites(ex.calls)
      ensures Settings().readonly || Over(Settings(), req) ==>
                (ex.calls != [] <==>
                 old(sendflag) != 0 && FirstChunkArrives(old(blkremains), old(bufblksz), |old(sock.input)|))
      ensures !sock.short ==>
                && ex.req == req && WriteOk(Settings(), ex) && ex.finished
                && ex.before == old(exp.Disk()) && ex.after == exp.Disk()
                && sock.output == old(sock.output) + Rendered(ex)
                && old(sock.input) == ex.drained + sock.input
                && (ex.error == NBD_EOVERFLOW ==> sock.input == [])
    {
      hide Conf.Valid, Socket.Complete, WriteState, Span, Splice, SimpleReply, First, Blocks, Total, Request.Fits,
           Export.Valid, Export.Disk, Has;
      exp.Sizes();
      exp.Writable();
      ghost var d0 := exp.Disk();
      ghost var calls, drained;
      var error: nat := NBD_SUCCESS;
      if Has(exp.eflags, NBD_FLAG_READ_ONLY) {
        error := NBD_EPERM;
      } else if (req.offset + req.count) % 0x1_0000_0000_0000_0000 > exp.exportsize {
        error := NBD_ENOSPC;
      } else {
        SetUp(req);
        WriteStart(Settings(), req, d0);
      }
      ghost var active := error == NBD_SUCCESS;
      error, calls, drained := RecvChunks(active, req, d0, error);
      ex := Exchange(req, error, [], drained, calls, d0, exp.Disk(), true);
      var r := sock.Send(SimpleReply(error, req.handle));
    }

    /** NBD_CMD_FLUSH. */
    method ServeFlush(req: Request) returns (ghost ex: Exchange)
      requires Valid() && Ready()
      modifies sock`output, sock`sends, sock`short, sock`last, exp`strays, exp`calls, exp.Repr()
      ensures Valid() && Ready() && exp.Disk() == old(exp.Disk())
      ensures (old(sock.short) ==> sock.short) && (sock.Complete() ==> sock.short == old(sock.short))
      ensures exp.calls == old(exp.calls) + ex.calls && |ex.calls| == 1 && ex.calls[0].FlushCall?
      ensures exp.hasFlush && exp.plugin.File? ==>
                && |exp.plugin.file.log| == old(|exp.plugin.file.log|) + 1
                && ex.error == if exp.plugin.file.transfer(old(|exp.plugin.file.log|)) < 0 then NBD_EIO else NBD_SUCCESS
      ensures !sock.short ==>
                && ex.req == req && FlushOk(ex) && ex.before == ex.after == exp.Disk()
                && sock.output == old(sock.output) + Rendered(ex)
    {
      hide SimpleReply, Export.PluginValid, Export.Disk;
      var r := exp.Flush();
      var error := if r == 0 then NBD_SUCCESS else NBD_EIO;
      ex := Exchange(req, error, [], [], [FlushCall(r)], exp.Disk(), exp.Disk(), true);
      r := sock.Send(SimpleReply(error, req.handle));
    }

    /** Everything the server answers with NBD_EINVAL. */
    method ServeOther(req: Request) returns (ghost ex: Exchange)
      requires Valid() && Ready()
      modifies sock`output, sock`sends, sock`short, sock`last
      ensures Valid() && Ready() && exp.Disk() == old(exp.Disk())
      ensures (old(sock.short) ==> sock.short) && (sock.Complete() ==> sock.short == old(sock.short))
      ensures ex.calls == []
      ensures !sock.short ==>
                && ex.req == req && OnlyReply(ex, NBD_EINVAL) && ex.before == ex.after == exp.Disk()
                && sock.output == old(sock.output) + Rendered(ex)
    {
      hide SimpleReply, Export.PluginValid, Export.Disk;
      ex := Exchange(req, NBD_EINVAL, [], [], [], exp.Disk(), exp.Disk(), true);
      var r := sock.Send(SimpleReply(NBD_EINVAL, req.handle));
    }

    /** The switch over the request type; the phase goes on when `ok`. */
    method Serve(req: Request) returns (ok: bool, ghost ex: Exchange)
      requires Valid() && Ready() && req.Fits() && req.kind != NBD_CMD_DISC
      modifies this`retry, this`sendflag, this`blkremains, this`byteread, this`bufblksz, this`offset
      modifies sock`input, sock`recvs, sock`output, sock`sends, sock`short, sock`last, buffer, exp`strays
      modifies exp`calls, exp.Repr()
      ensures Valid() && (ok ==> Ready()) && |sock.input| <= |old(sock.input)|
      ensures (old(sock.short) ==> sock.short) && (sock.Complete() ==> sock.short == old(sock.short))
      ensures exp.calls == old(exp.calls) + ex.calls
      ensures !sock.short ==>
                && ex.req == req && ExchangeOk(Settings(), ex) && ex.finished == ok
                && ex.before == old(exp.Disk()) && ex.after == exp.Disk()
                && sock.output == old(sock.output) + Rendered(ex)
                && old(sock.input) == ex.drained + sock.input
                && (ex.error == NBD_EOVERFLOW ==> sock.input == [])
    {
      hide ReadOk, WriteOk, FlushOk, Request.Fits, SimpleReply, Export.PluginValid, Export.Disk, Has, Rendered;
      ok := true;
      exp.Sizes();
      if req.kind == NBD_CMD_READ {
        ok, ex := ServeRead(req);
        ReadDrainsNothing(Settings(), ex);
      } else if req.kind == NBD_CMD_WRITE {
        ex := ServeWrite(req);
      } else if req.kind == NBD_CMD_FLUSH {
        ex := ServeFlush(req);
        FlushDrainsNothing(ex);
      } else {
        ex := ServeOther(req);
      }
      exp.Sizes();
      assert sock.input == [] + sock.input;
    }

    /** A plugin over a world that never fails has not failed the run. */
    lemma RunIsSound(before: seq<Call>, h: seq<Exchange>)
      requires Valid() && exp.calls == before + CallsOf(h)
      ensures exp.Faultless() ==> SoundRun(Settings().Plugin(), h)
    {
      hide CallsOf, SoundRun, Sound;
      if exp.Faultless() {
        SoundLog(Settings().Plugin(), before, h);
      }
    }

    /**
     * `transmission_phase`. While every send is complete, the phase is a run of allowed exchanges over the export's
     * disk: what was sent is their replies in order, what was received is their requests and payloads in order and then
     * `left`, which says why the phase ended. Only a client that disconnects makes it return 0.
     */
    method TransmissionPhase() returns (r: int, ghost h: seq<Exchange>, ghost end: End, ghost left: seq<byte>)
      requires Valid() && Ready()
      modifies this`retry, this`sendflag, this`blkremains, this`byteread, this`bufblksz, this`offset
      modifies sock`input, sock`recvs, sock`output, sock`sends, sock`short, sock`last, buffer, header
      modifies exp`strays, exp`calls, exp.Repr()
      ensures Valid() && (r == 0 || r == -1) && (r == 0 <==> end.Disconnect?)
      ensures (old(sock.short) ==> sock.short) && (sock.Complete() ==> sock.short == old(sock.short))
      ensures exp.calls == old(exp.calls) + CallsOf(h) && (exp.Faultless() ==> SoundRun(Settings().Plugin(), h))
      ensures !sock.short ==>
                && Ran(Settings(), old(exp.Disk()), old(sock.input), old(sock.output), h, exp.Disk(), sock.output, left)
                && Ended(h, end, left)
    {
      hide Ran, Ended, CallsOf, SoundRun, Export.Valid, Export.PluginValid, Export.Disk, Export.Faultless, Regs;
      r, h, end, left := Requests();
      RunIsSound(old(exp.calls), h);
    }

    /** The request loop. */
    method Requests() returns (r: int, ghost h: seq<Exchange>, ghost end: End, ghost left: seq<byte>)
      requires Valid() && Ready()
      modifies this`retry, this`sendflag, this`blkremains, this`byteread, this`bufblksz, this`offset
      modifies sock`input, sock`recvs, sock`output, sock`sends, sock`short, sock`last, buffer, header
      modifies exp`strays, exp`calls, exp.Repr()
      ensures Valid() && (r == 0 || r == -1) && (r == 0 <==> end.Disconnect?)
      ensures (old(sock.short) ==> sock.short) && (sock.Complete() ==> sock.short == old(sock.short))
      ensures exp.calls == old(exp.calls) + CallsOf(h)
      ensures !sock.short ==>
                && Ran(Settings(), old(exp.Disk()), old(sock.input), old(sock.output), h, exp.Disk(), sock.output, left)
                && Ended(h, end, left)
    {
      hide Conf.Valid, Socket.Complete, Ran, MayGoOn, Ended, ExchangeOk, Request.Fits, Rendered, CallsOf, Export.Valid,
           Export.PluginValid, Export.Disk, Regs;
      ghost var conf, d0, in0, out0, calls0 := Settings(), exp.Disk(), sock.input, sock.output, exp.calls;
      h := [];
      exp.Sizes();
      StartOfRun(conf, d0, in0, out0);
      while true
        invariant Valid() && Ready() && (old(sock.short) ==> sock.short)
        invariant sock.Complete() ==> sock.short == old(sock.short)
        invariant exp.calls == calls0 + CallsOf(h)
        invariant !sock.short ==>
          Ran(conf, d0, in0, out0, h, exp.Disk(), sock.output, sock.input) && MayGoOn(h, sock.input)
        decreases |sock.input|
      {
        left := sock.input;
        r := sock.RecvBlock(header, 28);
        if r < 28 {
          if !sock.short {
            EndsHere(h, EndOfStream, left);
          }
          return -1, h, EndOfStream, left;
        }
        var b := header[..28];
        if MagicOf(b) != NBD_REQUEST_MAGIC {
          if !sock.short {
            EndsHere(h, WrongMagic, left);
          }
          return -1, h, WrongMagic, left;
        }
        var req := DecodeRequest(b);
        DecodedFits(b);
        if req.kind == NBD_CMD_DISC {
          if !sock.short {
            EndsHere(h, Disconnect, left);
          }
          return 0, h, Disconnect, left;
        }
        ghost var disk, sent := exp.Disk(), sock.output;
        var ok;
        ghost var ex;
        ok, ex := Serve(req);
        if !sock.short {
          RanMore(conf, d0, in0, out0, h, disk, sent, left, ex, sock.output, sock.input);
        }
        CallsMore(calls0, h, ex);
        h := h + [ex];
        if !ok {
          left := sock.input;
          if !sock.short {
            FailsHere(h, left);
          }
          return -1, h, ReadFailed, left;
        }
      }
    }
  }

  // ---------- The send flag that stays up ----------

  /**
   * The flag is up after a READ only if the transport left a chunk short; no transport that takes none of them
   * clears it.
   */
  lemma FlagStaysUp(server: Server, sock: Socket, blocks: nat)
    requires server.bufblksz <= 1 < blocks && (server.sendflag != 0 <==> server.blkremains > server.bufblksz)
    requires server.blkremains == blocks || TakesChunk(sock, 1)
    requires forall k: nat :: sock.limit(k, 1) < 1
    ensures server.sendflag != 0 && server.blkremains == blocks
  {
  }

  /** On a plugin that never fails, a READ inside the export does not use up its retries. */
  lemma ReadGoesOn(exp: Export, before: seq<Call>, calls: seq<Call>, n: nat)
    requires exp.Valid() && exp.Faultless() && exp.calls == before + calls && calls != []
    requires exp.blocksize == 1 && n <= exp.exportsize && ReadWindow(calls, 0, n)
    ensures calls[|calls| - 1].code == 0
  {
    var c := calls[|calls| - 1];
    assert exp.calls[|exp.calls| - 1] == c;
    assert Servable(exp.Serves(), c);
  }

  /** A server of a read-only file of two bytes, a byte at a time, whose transport takes headers but no payload. */
  method Cutting() returns (server: Server)
    ensures fresh(server) && fresh(server.exp) && fresh(server.Repr()) && fresh(server.sock)
    ensures server.Valid() && server.Ready() && server.Settings() == Conf(1, 2, true, 1, 0, 1, false, true)
    ensures server.exp.Faultless() && !server.exp.hasPwrite && server.exp.calls == []
    ensures server.sock.input == [7] && forall k: nat :: server.sock.limit(k, 1) < 1
  {
    var file := new FilePlugin.FileDev([0, 0], _ => 1);
    var exp := new Export(File(file), false, false, _ => 0);
    var sock := new Socket([7], _ => 1, 0, (k, size) => if size == 1 then 0 else size);
    server := new Server(sock, exp, 1, 0);
    exp.Writable();
  }

  /** A READ of both its bytes leaves the flag up. */
  method CutRead(server: Server, handle: seq<byte>)
    requires server.Valid() && server.Ready() && server.Settings() == Conf(1, 2, true, 1, 0, 1, false, true)
    requires server.exp.Faultless() && server.exp.calls == [] && |handle| == 8
    requires server.sock.input == [7] && forall k: nat :: server.sock.limit(k, 1) < 1
    modifies server`retry, server`sendflag, server`blkremains, server`byteread, server`bufblksz, server`offset
    modifies server.sock`output, server.sock`sends, server.sock`short, server.sock`last, server.buffer
    modifies server.exp`strays, server.exp`calls, server.exp.Repr()
    ensures server.Valid() && server.Ready() && server.Settings() == old(server.Settings())
    ensures server.sendflag != 0 && server.blkremains == 2 && server.bufblksz <= 1 && server.sock.input == [7]
  {
    hide ReadOk, Rendered, Has, Export.Disk, Export.PluginValid, Export.Faultless;
    Widths();
    var ok, read := server.ServeRead(Request(0, NBD_CMD_READ, handle, 0, 2));
    if !ok {
      ReadGoesOn(server.exp, [], read.calls, 2);
      assert false;
    }
    FlagStaysUp(server, server.sock, 2);
  }

  /**
   * The code does not keep a read-only export from being written: after such a READ, a WRITE is refused and still calls
   * pwrite.
   */
  method StaleFlag() returns (exp: Export)
    ensures fresh(exp) && exp.Valid() && !exp.hasPwrite && Has(exp.eflags, NBD_FLAG_READ_ONLY)
    ensures exists k :: 0 <= k < |exp.calls| && exp.calls[k].WriteCall?
  {
    hide WriteOk, Rendered, Spared, Splice, Has, Export.Disk, Export.PluginValid, Export.Faultless;
    var handle: seq<byte> := [0, 0, 0, 0, 0, 0, 0, 0];
    var server := Cutting();
    CutRead(server, handle);
    exp := server.exp;
    ghost var before := exp.calls;
    Widths();
    var write := server.ServeWrite(Request(0, NBD_CMD_WRITE, handle, 0, 1));
    assert write.calls[0].WriteCall?;
    assert exp.calls[|before|] == write.calls[0];
    exp.Writable();
  }

  lemma ReadDrainsNothing(conf: Conf, ex: Exchange)
    requires conf.Valid()
    ensures ReadOk(conf, ex) ==> ex.drained == [] && ex.error != NBD_EOVERFLOW
  {
  }

  lemma FlushDrainsNothing(ex: Exchange)
    ensures FlushOk(ex) ==> ex.drained == [] && ex.error != NBD_EOVERFLOW && ex.finished
  {
  }

  /** What a WRITE loop has done so far, while every send was complete: with no request accepted, nothing. */
  ghost predicate Received(conf: Conf, active: bool, req: Request, d0: seq<byte>, disk: seq<byte>, calls: seq<Call>,
                           drained: seq<byte>, error: nat, error0: nat, at: Spot, input: seq<byte>)
    requires conf.Valid()
  {
    if !active then at.flag == 0 && error == error0 && drained == [] && calls == [] && disk == d0
    else if at.flag != 0 then
      && error == NBD_SUCCESS && !Over(conf, req) && !conf.readonly
      && WriteState(conf, req, d0, disk, calls, drained, at.remains, at.offset, at.chunk, false)
    else
      && WriteOk(conf, Exchange(req, error, [], drained, calls, d0, disk, true))
      && (error == NBD_EOVERFLOW ==> input == [])
  }

  lemma ReceivedNothing(conf: Conf, active: bool, req: Request, d0: seq<byte>, error: nat, at: Spot, input: seq<byte>)
    requires conf.Valid()
    requires if active then
               error == NBD_SUCCESS && WriteStarts(conf, req, d0, at.remains, at.offset, at.chunk, at.flag)
             else at.flag == 0
    ensures Received(conf, active, req, d0, d0, [], [], error, error, at, input)
  {
  }

  lemma ReceivedMeans(conf: Conf, active: bool, req: Request, d0: seq<byte>, disk: seq<byte>, calls: seq<Call>,
                      drained: seq<byte>, error: nat, error0: nat, at: Spot, input: seq<byte>)
    requires conf.Valid() && at.flag == 0
    requires Received(conf, active, req, d0, disk, calls, drained, error, error0, at, input)
    ensures active ==>
              && WriteOk(conf, Exchange(req, error, [], drained, calls, d0, disk, true))
              && (error == NBD_EOVERFLOW ==> input == [])
    ensures !active ==> error == error0 && drained == [] && calls == [] && disk == d0
  {
  }

  lemma ReceivedMore(conf: Conf, active: bool, req: Request, d0: seq<byte>, disk: seq<byte>, now: seq<byte>,
                     calls: seq<Call>, drained: seq<byte>, data: seq<byte>, error: nat, error0: nat, a: Spot, b: Spot,
                     turn: WriteTurnEnd, code: int, input: seq<byte>, rest: seq<byte>)
    requires conf.Valid() && |d0| == |disk| == |now| == conf.size && a.flag != 0 && Wrote(a, b, turn)
    requires Received(conf, active, req, d0, disk, calls, drained, error, error0, a, input)
    requires !turn.Starved? ==> |data| == Span(b.chunk, conf.bs)
    requires turn.Stored? ==> code == 0
    requires turn.Stored? && !conf.readonly && Span(a.offset, conf.bs) + |data| <= |disk| ==>
               IsSplice(disk, now, Span(a.offset, conf.bs), data)
    requires turn.Refused? ==> code != 0
    requires turn.Refused? && Span(a.offset, conf.bs) + |data| <= |disk| ==>
               Spared(disk, now, a.offset, a.offset + b.chunk, conf.grain, conf.bs)
    requires turn.Starved? ==> rest == [] && |data| < Span(b.chunk, conf.bs) && now == disk
    ensures Received(conf, active, req, d0, now,
                     if turn.Starved? then calls else calls + [WriteCall(a.offset, b.chunk, code)], drained + data,
                     match turn case Stored => error case Refused => NBD_EIO case Starved => NBD_EOVERFLOW,
                     error0, b, rest)
  {
    hide WriteState, WriteOk, IsSplice, Spared, Span, Over;
    if !Wraps(req) {
      WriteInside(conf, req, d0, disk, calls, drained, a.remains, a.offset, a.chunk);
    }
    match turn {
      case Stored =>
        WriteTurn(conf, req, d0, disk, now, calls, drained, data, a.remains, a.offset, a.chunk);
        if b.flag == 0 {
          WriteDone(conf, req, d0, now, calls + [WriteCall(a.offset, b.chunk, code)], drained + data,
                    b.remains, b.offset, b.chunk);
        }
      case Refused =>
        WriteFails(conf, req, d0, disk, now, calls, drained, data, a.remains, a.offset, a.chunk, code);
      case Starved =>
        WriteStarves(conf, req, d0, disk, calls, drained, data, a.remains, a.offset, a.chunk);
    }
  }

  /** What a READ loop has done so far, while every send was complete: with no request accepted, nothing. */
  ghost predicate Accounted(conf: Conf, active: bool, req: Request, disk: seq<byte>, calls: seq<Call>,
                            payload: seq<byte>, at: Spot, retry: nat, retry0: nat)
    requires conf.Valid()
  {
    if active then
      && !Over(conf, req)
      && ReadState(conf, req, disk, calls, payload, at.remains, at.offset, at.chunk, retry, at.flag == 0)
    else
      at.flag == 0 && retry == retry0 && payload == [] && calls == []
  }

  lemma AccountedStart(conf: Conf, active: bool, req: Request, disk: seq<byte>, at: Spot, retry: nat)
    requires conf.Valid()
    requires if active then ReadStarts(conf, req, disk, at.remains, at.offset, at.chunk, retry, at.flag)
             else at.flag == 0
    ensures Accounted(conf, active, req, disk, [], [], at, retry, retry)
  {
  }

  lemma AccountedMore(conf: Conf, active: bool, req: Request, disk: seq<byte>, calls: seq<Call>, payload: seq<byte>,
                      a: Spot, b: Spot, left: nat, retry: nat, retry0: nat, turn: Turn, takes: bool,
                      data: seq<byte>, code: int)
    requires conf.Valid() && |disk| == conf.size && a.flag != 0 && Turned(a, b, turn, takes) && !turn.Cut?
    requires Accounted(conf, active, req, disk, calls, payload, a, left, retry0)
    requires turn.Sent? ==> code == 0 && |data| == Span(b.chunk, conf.bs) && retry == conf.retries
    requires turn.Sent? ==> DataAt(disk, conf.bs, a.offset, data)
    requires turn.Retried? ==> code != 0 && left > 0 && retry == left - 1
    requires turn.Stuck? ==> code != 0 && left == 0
    ensures active
    ensures !turn.Stuck? ==>
              Accounted(conf, active, req, disk, calls + [ReadCall(a.offset, b.chunk, code)],
                        if turn.Sent? then payload + data else payload, b, retry, retry0)
    ensures turn.Stuck? ==>
              ReadOk(conf, Exchange(req, NBD_SUCCESS, payload, [], calls + [ReadCall(a.offset, b.chunk, code)],
                                    disk, disk, false))
  {
    hide ReadState, ReadOk, Span, Over;
    match turn {
      case Sent =>
        if !Wraps(req) {
          ReadInside(conf, req, disk, calls, payload, a.remains, a.offset, a.chunk, left);
        }
        ReadTurn(conf, req, disk, calls, payload, data, a.remains, a.offset, a.chunk, left);
      case Retried =>
        ReadRetry(conf, req, disk, calls, payload, a.remains, a.offset, a.chunk, left, code);
      case Stuck =>
        ReadGivesUp(conf, req, disk, calls, payload, a.remains, a.offset, a.chunk, code);
    }
  }

  lemma AccountedEnd(conf: Conf, active: bool, req: Request, disk: seq<byte>, calls: seq<Call>, payload: seq<byte>,
                     at: Spot, retry: nat, retry0: nat)
    requires conf.Valid() && at.flag == 0 && Accounted(conf, active, req, disk, calls, payload, at, retry, retry0)
    ensures active ==>
              retry == conf.retries && ReadOk(conf, Exchange(req, NBD_SUCCESS, payload, [], calls, disk, disk, true))
    ensures !active ==> retry == retry0 && payload == [] && calls == []
  {
    hide ReadState, ReadOk;
    if active {
      ReadDone(conf, req, disk, calls, payload, at.remains, at.offset, at.chunk, retry);
      ReadRested(conf, req, disk, calls, payload, at.remains, at.offset, at.chunk, retry);
    }
  }

  /** The registers as `SetUp` leaves them for a WRITE. */
  ghost predicate WriteStarts(conf: Conf, req: Request, disk: seq<byte>, remains: nat, offset: nat, chunk: nat,
                              sendflag: nat)
    requires conf.Valid()
  {
    && !Over(conf, req) && !conf.readonly && sendflag != 0
    && WriteState(conf, req, disk, disk, [], [], remains, offset, chunk, false)
  }

  lemma WriteInside(conf: Conf, req: Request, d0: seq<byte>, disk: seq<byte>, calls: seq<Call>, drained: seq<byte>,
                    remains: nat, offset: nat, chunk: nat)
    requires conf.Valid() && !Over(conf, req) && !Wraps(req)
    requires WriteState(conf, req, d0, disk, calls, drained, remains, offset, chunk, false)
    ensures Span(offset, conf.bs) + Span(NextChunk(remains, chunk), conf.bs) <= conf.size
  {
    TurnInside(conf, req, Total(calls), NextChunk(remains, chunk));
  }

  /** The registers as `SetUp` leaves them for a READ. */
  ghost predicate ReadStarts(conf: Conf, req: Request, disk: seq<byte>, remains: nat, offset: nat, chunk: nat,
                             retry: nat, sendflag: nat)
    requires conf.Valid()
  {
    && !Over(conf, req) && sendflag != 0
    && ReadState(conf, req, disk, [], [], remains, offset, chunk, retry, false)
  }

  lemma ReadInside(conf: Conf, req: Request, disk: seq<byte>, calls: seq<Call>, payload: seq<byte>,
                   remains: nat, offset: nat, chunk: nat, retry: nat)
    requires conf.Valid() && !Over(conf, req) && !Wraps(req)
    requires ReadState(conf, req, disk, calls, payload, remains, offset, chunk, retry, false)
    ensures Span(offset, conf.bs) + Span(NextChunk(remains, chunk), conf.bs) <= conf.size
  {
    TurnInside(conf, req, Delivered(calls), NextChunk(remains, chunk));
  }

  lemma ReadRested(conf: Conf, req: Request, disk: seq<byte>, calls: seq<Call>, payload: seq<byte>,
                   remains: nat, offset: nat, chunk: nat, retry: nat)
    requires conf.Valid() && ReadState(conf, req, disk, calls, payload, remains, offset, chunk, retry, true)
    ensures retry == conf.retries
  {
  }
}
