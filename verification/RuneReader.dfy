/**
 fmt's readRune, which decodes UTF-8 from a reader one byte at a time and keeps the bytes it
 read too far. Its runes are those of a range loop over the input.
 */
module RuneReader {
  import opened Options
  import opened Bytes
  import opened ByteSource
  import opened Utf8

  const UTF_MAX: nat := 4

  /** The runes of a range loop over s. */
  function Range(s: seq<Byte>): (rs: seq<nat>)
    decreases |s|
  {
    if s == [] then [] else [DecodeRune(s).0] + Range(s[DecodeRune(s).1..])
  }

  lemma {:induction false} RangeStep(s: seq<Byte>)
    ensures Range(s) == if s == [] then [] else [DecodeRune(s).0] + Range(s[DecodeRune(s).1..])
  {}

  /** utf8.RuneLen, for runes. */
  function RuneLen(r: nat): nat {
    if r < 0x80 then 1 else if r < 0x800 then 2 else if r < 0x10000 then 3 else 4
  }

  /** The length of the rune is the length of its encoding, except for an encoding error, which
      is one byte long and stands for a rune of three. */
  lemma {:induction false} SizeAgain(s: seq<Byte>)
    requires s != []
    ensures RuneLen(DecodeRune(s).0) == DecodeRune(s).1 <==> s[0] < RUNE_SELF || Multibyte(s)
    ensures !(s[0] < RUNE_SELF || Multibyte(s)) ==> DecodeRune(s).1 == 1 && RuneLen(DecodeRune(s).0) == 3
  {
    if Multibyte(s) {
      EncodeDecoded(s);
    }
  }

  /** ^x for a 32-bit rune. */
  function Flip(x: int): int { -x - 1 }

  /** Every byte but the last is a continuation byte. */
  predicate Leftover(p: seq<Byte>) {
    forall i :: 0 <= i < |p| - 1 ==> Continuation(p[i])
  }

  /** The bytes read past a bad first byte. */
  lemma {:induction false} LeftoverOf(p: seq<Byte>)
    requires 1 <= |p| <= UTF_MAX && (|p| > 1 ==> !FullRune(p[..|p| - 1]))
    ensures Leftover(p[1..])
  {
    if |p| > 2 {
      var q := p[..|p| - 1];
      forall i | 0 <= i < |p[1..]| - 1
        ensures Continuation(p[1..][i])
      {
        Incomplete(q, i + 1);
        assert q[i + 1] == p[i + 1];
      }
    }
  }

  /** When bytes are left over, the first was an error. */
  lemma {:induction false} WideIsWhole(p: seq<Byte>)
    requires 1 <= |p| <= UTF_MAX && (|p| > 1 ==> !FullRune(p[..|p| - 1])) && DecodeRune(p).1 < |p|
    ensures DecodeRune(p).1 == 1
  {
    if DecodeRune(p).1 > 1 {
      WideIsFull(p[..|p| - 1]);
      assert false;
    }
  }

  class RuneReader {
    const reader: Source
    const buf: array<Byte>
    const pendBuf: array<Byte>
    var pending: nat
    /** The next rune if it is not negative; otherwise the complement of the previous one. */
    var peekRune: int

    ghost predicate Valid()
      reads this, reader, pendBuf
    {
      && reader.Valid() && buf.Length == UTF_MAX && pendBuf.Length == UTF_MAX && buf != pendBuf
      && pending < UTF_MAX && Leftover(pendBuf[..pending])
    }

    /** The bytes that are still to be decoded. */
    ghost function Rest(): seq<Byte>
      requires pending <= pendBuf.Length
      reads this, reader, pendBuf
    {
      pendBuf[..pending] + reader.data
    }

    /** The runes that are still to come. */
    ghost function Runes(): seq<nat>
      requires pending <= pendBuf.Length
      reads this, reader, pendBuf
    {
      (if peekRune >= 0 then [peekRune] else []) + Range(Rest())
    }

    constructor (reader: Source)
      requires reader.Valid()
      ensures Valid() && this.reader == reader && fresh(buf) && fresh(pendBuf)
      ensures peekRune < 0 && Rest() == reader.data && Runes() == Range(reader.data)
    {
      this.reader := reader;
      buf := new Byte[UTF_MAX];
      pendBuf := new Byte[UTF_MAX];
      pending := 0;
      peekRune := -1;
      new;
      assert Rest() == reader.data;
    }

    /** io.ReadFull for one byte. */
    method ReadOne() returns (b: Byte, e: Option<Ending>)
      requires Valid() && pending == 0
      modifies pendBuf, reader
      ensures Valid()
      ensures if e.None? then old(Rest()) == [b] + Rest()
              else old(Rest()) == [] && Rest() == [] && e == Some(reader.ending)
    {
      while true
        invariant Valid() && reader.data == old(reader.data)
        decreases reader.patience - reader.idle
      {
        var chunk, ended := reader.Read(1);
        if |chunk| == 1 {
          pendBuf[0] := chunk[0];
          return chunk[0], None;
        }
        if ended {
          return 0, Some(reader.ending);
        }
      }
    }

    /** readByte: a byte left over, or one from the reader. */
    method ReadByte() returns (b: Byte, e: Option<Ending>)
      requires Valid()
      modifies this`pending, pendBuf, reader
      ensures Valid()
      ensures if e.None? then old(Rest()) == [b] + Rest()
              else old(Rest()) == [] && Rest() == [] && e == Some(reader.ending)
      ensures old(pending) > 0 ==> pending == old(pending) - 1 && (pending > 0 ==> Continuation(b))
      ensures old(pending) == 0 ==> pending == 0
    {
      if pending > 0 {
        b := pendBuf[0];
        ghost var p := pendBuf[..pending];
        Store(pendBuf, 0, pendBuf[1..]);
        pending := pending - 1;
        assert pendBuf[..pending] == p[1..];
        return b, None;
      }
      b, e := ReadOne();
    }

    /** Collect bytes in buf after its first one, until they are a whole rune or all there is. */
    method Collect(ghost rest0: seq<Byte>) returns (n: nat, e: Option<Ending>)
      requires Valid() && rest0 == [buf[0]] + Rest()
      requires pending > 0 ==> Continuation(buf[0])
      modifies this`pending, buf, pendBuf, reader
      ensures Valid() && 1 <= n <= UTF_MAX
      ensures e.None? ==> rest0 == buf[..n] + Rest() && (FullRune(buf[..n]) || Rest() == [])
      ensures e.None? && n > 1 ==> !FullRune(buf[..n - 1]) && pending == 0
      ensures e.Some? ==> e == Some(reader.ending) && reader.ending != EOF && Rest() == [] && !FullRune(rest0)
    {
      n := 1;
      while !FullRune(buf[..n])
        invariant Valid() && 1 <= n <= UTF_MAX && rest0 == buf[..n] + Rest()
        invariant n == 1 && pending > 0 ==> Continuation(buf[0])
        invariant n > 1 ==> !FullRune(buf[..n - 1]) && pending == 0
        decreases UTF_MAX - n
      {
        ghost var held := buf[..n];
        Incomplete(held, 0);
        hide FullRune, Leftover;
        var b;
        b, e := ReadByte();
        if e.Some? {
          assert rest0 == held;
          if e == Some(EOF) {
            return n, None;
          }
          return n, e;
        }
        buf[n] := b;
        assert buf[..n + 1] == held + [b];
        assert buf[..n + 1][..n] == held;
        n := n + 1;
      }
      e := None;
    }

    /** The next rune: the one that was unread, or the first of the rest. */
    method ReadRune() returns (rr: nat, size: nat, e: Option<Ending>)
      requires Valid()
      modifies this, buf, pendBuf, reader
      ensures Valid() && peekRune < 0
      ensures old(peekRune) >= 0 ==>
        e.None? && rr == old(peekRune) && size == RuneLen(rr) && Rest() == old(Rest()) && peekRune == Flip(rr)
      ensures old(peekRune) < 0 && e.None? ==>
        && old(Rest()) != [] && (rr, size) == DecodeRune(old(Rest()))
        && Rest() == old(Rest())[size..] && peekRune == Flip(rr)
      ensures e.Some? ==>
        && e == Some(reader.ending) && (reader.ending == EOF ==> old(Rest()) == [])
        && !FullRune(old(Rest())) && Rest() == [] && peekRune == old(peekRune)
    {
      rr, size, e := 0, 0, None;
      if peekRune >= 0 {
        rr := peekRune;
        peekRune := Flip(peekRune);
        size := RuneLen(rr);
        return;
      }
      ghost var rest0 := Rest();
      buf[0], e := ReadByte();
      if e.Some? {
        return;
      }
      if buf[0] < RUNE_SELF {
        assert rest0[1..] == Rest();
        rr, size := buf[0], 1;
        peekRune := Flip(rr);
        return;
      }
      var n;
      n, e := Collect(rest0);
      if e.Some? {
        return;
      }
      rr, size := Finish(rest0, n);
      peekRune := Flip(rr);
    }

    /** Decode the bytes collected, and save those that were read too far. */
    method Finish(ghost rest0: seq<Byte>, n: nat) returns (rr: nat, size: nat)
      requires Valid() && 1 <= n <= UTF_MAX && rest0 == buf[..n] + Rest()
      requires FullRune(buf[..n]) || Rest() == []
      requires n > 1 ==> !FullRune(buf[..n - 1]) && pending == 0
      modifies this`pending, pendBuf
      ensures Valid() && rest0 != [] && (rr, size) == DecodeRune(rest0) && Rest() == rest0[size..]
    {
      ghost var held := buf[..n];
      DecodeHeld(held, Rest());
      rr, size := DecodeRune(buf[..n]).0, DecodeRune(buf[..n]).1;
      if size < n {
        LeftoverOf(held);
        WideIsWhole(held);
        Store(pendBuf, pending, buf[size..n]);
        pending := pending + (n - size);
        assert pendBuf[..pending] == held[size..];
      }
    }

    /** ReadRune, seen as taking the first of the runes to come. */
    method Next() returns (rr: nat, size: nat, e: Option<Ending>)
      requires Valid() && reader.ending == EOF
      modifies this, buf, pendBuf, reader
      ensures Valid()
      ensures e.None? ==> old(Runes()) == [rr] + Runes() && peekRune == Flip(rr)
      ensures e.None? && old(peekRune) >= 0 ==> size == RuneLen(rr)
      ensures e.None? && old(peekRune) < 0 ==> old(Rest()) != [] && (rr, size) == DecodeRune(old(Rest()))
      ensures e.Some? ==> old(Runes()) == []
    {
      ghost var rest, peek := Rest(), peekRune;
      RangeStep(rest);
      hide Range, DecodeRune, Leftover, RuneLen;
      rr, size, e := ReadRune();
      assert peek >= 0 ==> [rr] + Range(rest) == [rr] + ([] + Range(Rest()));
    }

    method UnreadRune() returns (ok: bool)
      requires Valid()
      modifies this`peekRune
      ensures ok <==> old(peekRune) < 0
      ensures peekRune == if ok then Flip(old(peekRune)) else old(peekRune)
      ensures Valid() && peekRune >= 0 && Rest() == old(Rest())
      ensures ok ==> Runes() == [Flip(old(peekRune))] + old(Runes())
    {
      if peekRune >= 0 {
        return false;
      }
      peekRune := Flip(peekRune);
      return true;
    }
  }

  lemma {:induction false} MoveRune(a: seq<nat>, c: nat, b: seq<nat>)
    ensures a + ([c] + b) == a + [c] + b
  {}

  /** Read to the end: exactly the runes of a range loop. */
  method ReadAll(r: RuneReader) returns (rs: seq<nat>)
    requires r.Valid() && r.reader.ending == EOF
    modifies r, r.buf, r.pendBuf, r.reader
    ensures r.Valid() && rs == old(r.Runes())
  {
    rs := [];
    ghost var all := r.Runes();
    hide *;
    while true
      invariant r.Valid() && all == rs + r.Runes()
      decreases |r.Runes()|
    {
      ghost var runes := r.Runes();
      var c, size, e := r.Next();
      if e.Some? {
        return;
      }
      MoveRune(rs, c, r.Runes());
      rs := rs + [c];
    }
  }

  /** What was read and put back is read again. Its size is the same, unless it was an encoding
      error when it was decoded. */
  method Replay(r: RuneReader) returns (first: nat, size: nat, again: nat, sizeAgain: nat)
    requires r.Valid() && r.reader.ending == EOF && r.Runes() != []
    modifies r, r.buf, r.pendBuf, r.reader
    ensures r.Valid() && first == again && old(r.Runes()) == [first] + r.Runes()
    ensures sizeAgain == RuneLen(first)
    ensures old(r.peekRune) >= 0 ==> size == sizeAgain
    ensures old(r.peekRune) < 0 ==>
      && old(r.Rest()) != [] && (first, size) == DecodeRune(old(r.Rest()))
      && (size == sizeAgain <==> old(r.Rest())[0] < RUNE_SELF || Multibyte(old(r.Rest())))
  {
    if r.Rest() != [] {
      SizeAgain(r.Rest());
    }
    hide Range, DecodeRune, RuneLen, Multibyte, Leftover;
    var e;
    first, size, e := r.Next();
    ghost var runes := r.Runes();
    var ok := r.UnreadRune();
    ghost var back := r.Runes();
    assert back == [first] + runes && back[0] == first && back[1..] == runes;
    hide *;
    again, sizeAgain, e := r.Next();
    assert back[0] == again && back[1..] == r.Runes();
  }
}
