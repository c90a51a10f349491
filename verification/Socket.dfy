/** The transport: a byte stream in each direction, and `tcp_recv_block` over it. */
module Transport {
  import opened Bytes

  class Socket {
    var input: seq<byte>    // what the peer has sent and nobody has received yet
    var output: seq<byte>   // what the peer has been sent

    // The network: how many bytes the k-th recv hands over, what recv returns
    // when no more will come, and how many bytes the k-th send takes of those
    // it is given (none, with an error, when negative).
    const chunk: nat -> nat
    const endCode: int
    const limit: (nat, nat) -> int
    var recvs: nat
    var sends: nat

    ghost var short: bool   // some send was not complete
    ghost var last: nat     // the size of the last send

    /** A transport that takes all of every send. */
    ghost predicate Complete() {
      forall k: nat, size: nat :: limit(k, size) >= size
    }

    /** The last send was not complete. */
    ghost predicate LastShort()
      reads this
    {
      sends > 0 && limit(sends - 1, last) < last
    }

    predicate Valid()
      reads this
    {
      endCode <= 0
    }

    constructor (input: seq<byte>, chunk: nat -> nat, endCode: int, limit: (nat, nat) -> int)
      requires endCode <= 0
      ensures Valid() && this.input == input && output == [] && !short && this.endCode == endCode && this.limit == limit
    {
      this.input, output, this.chunk, this.endCode, this.limit := input, [], chunk, endCode, limit;
      recvs, sends, short, last := 0, 0, false, 0;
    }

    /** recv(2) of at most `left` bytes into `mem` from index `at` on. */
    method Recv(mem: array<byte>, at: nat, left: nat) returns (r: int)
      requires Valid() && at + left <= mem.Length
      modifies this`input, this`recvs, mem
      ensures r <= 0 ==> input == old(input) && mem[..] == old(mem[..])
      ensures r <= 0 ==> if left == 0 then r == 0 else input == [] && r == endCode
      ensures r > 0 ==> r <= left && r <= |old(input)| && input == old(input)[r..]
      ensures r > 0 ==> mem[..] == Splice(old(mem[..]), at, old(input)[..r])
    {
      recvs := recvs + 1;
      if left == 0 {
        return 0;
      }
      if input == [] {
        return endCode;
      }
      r := chunk(recvs - 1);
      var most := if left < |input| then left else |input|;
      r := if r < 1 then 1 else if r > most then most else r;
      Copy(mem, at, input[..r]);
      input := input[r..];
    }

    /**
     * `tcp_recv_block`: however the bytes arrive, the caller gets exactly the
     * next `len` bytes of the stream, or, when fewer will come, the code that
     * ended the stream.
     */
    method RecvBlock(mem: array<byte>, len: nat) returns (r: int)
      requires Valid() && len <= mem.Length
      modifies this`input, this`recvs, mem
      ensures len <= |old(input)| ==> r == len && input == old(input)[len..] && mem[..len] == old(input)[..len]
      ensures len > |old(input)| ==> r == endCode && input == [] && mem[..|old(input)|] == old(input)
      ensures mem[len..] == old(mem[len..])
    {
      hide Splice;
      var left: nat, totalRead: nat := len, 0;
      assert mem[..0] == old(input)[..0] && old(input)[0..] == old(input);
      while true
        invariant left + totalRead == len && totalRead <= |old(input)| && (left == 0 ==> totalRead == 0)
        invariant input == old(input)[totalRead..]
        invariant mem[..totalRead] == old(input)[..totalRead] && mem[len..] == old(mem[len..])
        decreases left
      {
        ghost var before := mem[..];
        var bytesRead := Recv(mem, totalRead, left);
        if bytesRead <= 0 {
          assert mem[len..] == before[len..] && mem[..totalRead] == before[..totalRead];
          return bytesRead;
        }
        Received(before, mem[..], old(input), totalRead, bytesRead, len);
        left := left - bytesRead;
        totalRead := totalRead + bytesRead;
        if left == 0 {
          break;
        }
      }
      r := totalRead;
    }

    /** One more piece of the stream lies in the buffer. */
    static lemma Received(before: seq<byte>, now: seq<byte>, stream: seq<byte>, done: nat, n: nat, len: nat)
      requires done + n <= |stream| && done + n <= len <= |before|
      requires before[..done] == stream[..done] && now == Splice(before, done, stream[done..][..n])
      ensures now[..done + n] == stream[..done + n] && now[len..] == before[len..]
      ensures stream[done..][n..] == stream[done + n..]
    {
      assert stream[..done] + stream[done..][..n] == stream[..done + n];
    }

    /** send(2): all of the bytes, some of them, or none and an error. */
    method Send(data: seq<byte>) returns (r: int)
      modifies this`output, this`sends, this`short, this`last
      ensures -1 <= r <= |data| && sends == old(sends) + 1 && last == |data|
      ensures r == |data| <==> limit(old(sends), |data|) >= |data|
      ensures short == (old(short) || r != |data|)
      ensures Complete() ==> r == |data|
      ensures output == old(output) + data[..if r < 0 then 0 else r]
    {
      r := limit(sends, |data|);
      sends, last := sends + 1, |data|;
      if r >= |data| {
        r := |data|;
        output := output + data;
      } else {
        short := true;
        if r < 0 {
          r := -1;
        } else {
          output := output + data[..r];
        }
      }
    }
  }
}
