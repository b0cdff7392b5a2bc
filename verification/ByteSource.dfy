/**
 A reader that keeps the contract of io.Reader: it hands out its bytes in order, cut into
 chunks of any size, with some empty reads in between, and then reports how it ended,
 with the last chunk or after it.
 */
module ByteSource {
  import opened Bytes

  /** maxConsecutiveEmptyReads. */
  const MAX_EMPTY_READS: nat := 100

  datatype Ending = EOF | Broken

  /** copy(buf[at:], chunk). */
  method Store(buf: array<Byte>, at: nat, chunk: seq<Byte>)
    requires at + |chunk| <= buf.Length
    modifies buf
    ensures buf[..at + |chunk|] == old(buf[..at]) + chunk
    ensures buf[at + |chunk|..] == old(buf[at + |chunk|..])
    ensures at == 0 ==> buf[..|chunk|] == chunk
    ensures forall lo :: 0 <= lo <= at ==> buf[lo..at + |chunk|] == old(buf[lo..at]) + chunk
  {
    forall i | 0 <= i < |chunk| {
      buf[at + i] := chunk[i];
    }
  }

  class Source {
    /** The bytes this reader has yet to deliver. */
    var data: seq<Byte>
    /** The current run of empty reads. */
    var idle: nat
    /** No run of empty reads is longer than this. */
    const patience: nat
    const ending: Ending

    ghost predicate Valid()
      reads this
    {
      idle <= patience
    }

    constructor (data: seq<Byte>, patience: nat, ending: Ending)
      ensures Valid() && this.data == data && this.patience == patience && this.ending == ending
    {
      this.data := data;
      this.patience := patience;
      this.ending := ending;
      idle := 0;
    }

    method Read(room: nat) returns (chunk: seq<Byte>, ended: bool)
      requires Valid() && room > 0
      modifies this
      ensures Valid()
      ensures |chunk| <= room && chunk + data == old(data)
      ensures ended ==> data == []
      ensures chunk == [] && !ended ==> idle == old(idle) + 1
    {
      var n: nat :| n <= room && n <= |data| && (idle == patience && data != [] ==> n > 0);
      chunk := data[..n];
      data := data[n..];
      ended := *;
      if data != [] {
        ended := false;
      } else if n == 0 && idle == patience {
        ended := true;
      }
      idle := if n == 0 && !ended then idle + 1 else 0;
    }
  }
}
