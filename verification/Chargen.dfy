/** The character generator service: the line over and over, in whatever pieces the peer takes. */
module Chargen {
  import opened Bytes

  /** The printing characters from '!' to '~', and a newline. */
  function Line(): (line: seq<byte>)
    ensures |line| == 95
  {
    seq(95, k requires 0 <= k < 95 => if k < 94 then 33 + k else 10)
  }

  /** The 94 characters from '!' on and a newline, over and over. */
  ghost predicate IsRepetition(s: seq<byte>) {
    forall k :: 0 <= k < |s| ==> s[k] == if k % 95 < 94 then 33 + k % 95 else 10
  }

  class Generator {
    var ptr: nat
    var len: nat
    var closed: bool
    ghost var sent: seq<byte>

    /** What is pending is the rest of a line, and everything sent so far is a prefix of the repetition. */
    ghost predicate Valid()
      reads this
    {
      ptr + len == 95 && len > 0 && IsRepetition(sent) && |sent| % 95 == ptr
    }

    /** service_chargen_new */
    constructor ()
      ensures Valid() && !closed && sent == []
    {
      ptr, len, closed, sent := 0, |Line()|, false, [];
    }

    /** chargen_on_writable, where `n` is what write(2) returns. */
    method OnWritable(n: int)
      requires Valid() && !closed && n <= len
      modifies this
      ensures Valid() && (closed <==> n <= 0)
      ensures sent == old(sent) + Line()[old(ptr)..old(ptr) + if n > 0 then n else 0]
    {
      if n <= 0 {
        closed := true;
        return;
      }
      Continues(sent, ptr, n);
      sent := sent + Line()[ptr..ptr + n];
      if n < len {
        ptr := ptr + n;
        len := len - n;
      } else {
        ptr := 0;
        len := |Line()|;
      }
    }
  }

  /** The next piece of the line continues the repetition. */
  lemma Continues(s: seq<byte>, at: nat, n: nat)
    requires IsRepetition(s) && |s| % 95 == at && at + n <= 95
    ensures IsRepetition(s + Line()[at..at + n])
    ensures (|s| + n) % 95 == if at + n < 95 then at + n else 0
  {
    var t := s + Line()[at..at + n];
    var q := |s| / 95;
    forall k | 0 <= k < |t|
      ensures t[k] == if k % 95 < 94 then 33 + k % 95 else 10
    {
      if k >= |s| {
        assert k == 95 * q + (at + (k - |s|));
      }
    }
  }

  /** Nothing else can have been sent: the repetition of a given length is unique. */
  lemma OneRepetition(s: seq<byte>, t: seq<byte>)
    requires IsRepetition(s) && IsRepetition(t) && |s| <= |t|
    ensures s == t[..|s|]
  {
  }
}
