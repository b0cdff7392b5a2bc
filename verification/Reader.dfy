/**
 bufio.Reader: whatever calls are made, the bytes handed out, the bytes in the buffer and the
 bytes the underlying reader still holds are the original stream, in order.
 */
module Reader {
  import opened Options
  import opened Bytes
  import opened ByteSource
  import opened Splitting
  import opened Utf8

  const MIN_BUFFER: nat := 16

  datatype Error =
    | NegativeCount | BufferFull | InvalidUnreadByte | InvalidUnreadRune
    | NoProgress | Ended(ending: Ending)

  /** A reader's view of the stream: what has been given out and what is to come. */
  datatype View = View(consumed: seq<Byte>, rest: seq<Byte>)

  /** The bytes out have been taken between two views. */
  predicate Took(v: View, out: seq<Byte>, v': View) {
    v.rest == out + v'.rest && v'.consumed == v.consumed + out
  }

  /** Nothing is lost or repeated. */
  lemma {:induction false} TookConserves(v: View, out: seq<Byte>, v': View)
    requires Took(v, out, v')
    ensures v'.consumed + v'.rest == v.consumed + v.rest
  {
    assert v.consumed + (out + v'.rest) == v.consumed + out + v'.rest;
  }

  lemma {:induction false} TookEnds(v: View, out: seq<Byte>, v': View)
    requires Took(v, out, v')
    ensures |v'.consumed| >= |out| && v'.consumed[|v'.consumed| - |out|..] == out
  {}

  lemma {:induction false} TookNothing(v: View)
    ensures Took(v, [], v)
  {}

  /** Out is a prefix of the stream. */
  lemma {:induction false} TookPrefix(v: View, out: seq<Byte>, v': View)
    requires Took(v, out, v')
    ensures |out| <= |v.rest| && v.rest[..|out|] == out
  {}

  lemma {:induction false} TookTwice(v0: View, a: seq<Byte>, v1: View, b: seq<Byte>, v2: View)
    requires Took(v0, a, v1) && Took(v1, b, v2)
    ensures Took(v0, a + b, v2)
  {
    assert a + b + v2.rest == a + (b + v2.rest);
    assert v0.consumed + (a + b) == v0.consumed + a + b;
  }

  /** Bytes that were searched before need no second look. */
  lemma {:induction false} SearchFrom(held: seq<Byte>, s: nat, delim: Byte)
    requires s <= |held| && delim !in held[..s]
    ensures var i := IndexByte(held[s..], delim);
      if i < |held| - s then held[s + i] == delim && delim !in held[..s + i] else delim !in held
  {
    var i := IndexByte(held[s..], delim);
    assert held[..s + i] == held[..s] + held[s..][..i];
    assert held[..|held|] == held;
  }

  /** The shortest prefix that ends in delim, or everything. */
  function UpTo(s: seq<Byte>, delim: Byte): (p: seq<Byte>)
    ensures p <= s && delim !in (if delim in p then p[..|p| - 1] else p)
    ensures delim in p <==> delim in s
    ensures delim in p ==> p[|p| - 1] == delim
  {
    var i := IndexByte(s, delim);
    assert i < |s| ==> s[i] in s && s[..i + 1] == s[..i] + [s[i]];
    assert i == |s| ==> s[..i] == s;
    if i < |s| then s[..i + 1] else s
  }

  /** Only one prefix ends in the first delim. */
  lemma {:induction false} UpToUnique(out: seq<Byte>, rest: seq<Byte>, delim: Byte)
    requires out != [] && delim !in out[..|out| - 1] && out[|out| - 1] == delim
    ensures UpTo(out + rest, delim) == out
  {
    var s := out + rest;
    var n := |out| - 1;
    var i := IndexByte(s, delim);
    assert s[n] == delim;
    assert s[..n] == out[..n];
    assert s[..n + 1] == out;
  }

  class Reader {
    const src: Source
    const buf: array<Byte>
    var r: nat
    var w: nat
    var err: Option<Error>
    var lastByte: int
    var lastRuneSize: int
    /** Everything the caller has been given and has not given back. */
    ghost var consumed: seq<Byte>

    ghost predicate Valid()
      reads this, src, buf
    {
      && src.Valid() && buf.Length >= MIN_BUFFER && r <= w <= buf.Length
      && (err.Some? ==> PendingOk(err.value))
      && (lastByte >= 0 ==> consumed != [] && consumed[|consumed| - 1] == lastByte)
      && (lastRuneSize >= 0 ==> RuneOk())
    }

    /** A stored error is the reader's own, after its last byte, or a stalled reader. */
    ghost predicate PendingOk(e: Error)
      reads src
    {
      || (e == Ended(src.ending) && src.data == [])
      || (e == NoProgress && src.patience >= MAX_EMPTY_READS)
    }

    /** The last rune, if it is still in the buffer. */
    ghost predicate RuneOk()
      requires r <= w <= buf.Length && lastRuneSize >= 0
      reads this, buf
    {
      && 1 <= lastRuneSize <= |consumed|
      && (lastRuneSize <= r ==> buf[r - lastRuneSize..r] == consumed[|consumed| - lastRuneSize..])
    }

    /** The stream that is still to be read. */
    ghost function Rest(): seq<Byte>
      requires r <= w <= buf.Length
      reads this, src, buf
    {
      buf[r..w] + src.data
    }

    ghost function See(): View
      requires r <= w <= buf.Length
      reads this, src, buf
    {
      View(consumed, Rest())
    }

    predicate CanUnreadByte()
      reads this
    {
      lastByte >= 0 && (r > 0 || w == 0)
    }

    predicate CanUnreadRune()
      reads this
    {
      0 <= lastRuneSize <= r
    }

    constructor (src: Source, size: nat)
      requires src.Valid()
      ensures Valid() && this.src == src && fresh(buf)
      ensures consumed == [] && Rest() == src.data
    {
      this.src := src;
      buf := new Byte[if size < MIN_BUFFER then MIN_BUFFER else size];
      r, w, err := 0, 0, None;
      lastByte, lastRuneSize := -1, -1;
      consumed := [];
    }

    /** Slide existing data to the beginning of the buffer. */
    method Slide()
      requires Valid()
      modifies this`r, this`w, buf
      ensures Valid() && r == 0 && w == old(w) - old(r) && buf[..w] == old(buf[r..w])
      ensures Rest() == old(Rest())
    {
      if r > 0 {
        Store(buf, 0, buf[r..w]);
        w := w - r;
        r := 0;
      }
    }

    /** fill: read a new chunk into the buffer. */
    method Fill()
      requires Valid() && w - r < buf.Length
      modifies this`r, this`w, this`err, buf, src
      ensures Valid() && r == 0
      ensures Rest() == old(Rest()) && w >= old(w - r)
      ensures err.None? ==> w > old(w - r)
      ensures buf[..old(w - r)] == old(buf[r..w])
      ensures old(err).Some? ==> err.Some?
    {
      Slide();
      hide RuneOk;
      ghost var held := buf[..w];
      var i := MAX_EMPTY_READS;
      while i > 0
        invariant Valid() && r == 0 && w == |held| < buf.Length && err == old(err)
        invariant src.idle >= MAX_EMPTY_READS - i
        invariant buf[..w] == held && held + src.data == old(Rest())
      {
        var done := ReadChunk();
        if done {
          return;
        }
        i := i - 1;
      }
      Stall();
    }

    /** One read into the free end of the buffer. */
    method ReadChunk() returns (done: bool)
      requires Valid() && r == 0 && w < buf.Length
      modifies this`w, this`err, buf, src
      ensures Valid() && old(w) <= w && buf[..old(w)] == old(buf[..w])
      ensures Rest() == old(Rest())
      ensures done ==> err == Some(Ended(src.ending)) || (err == old(err) && w > old(w))
      ensures !done ==> w == old(w) && err == old(err) && src.data == old(src.data) && src.idle == old(src.idle) + 1
    {
      var chunk, ended := src.Read(buf.Length - w);
      Store(buf, w, chunk);
      w := w + |chunk|;
      assert Rest() == old(buf[r..w]) + (chunk + src.data);
      if ended {
        err := Some(Ended(src.ending));
      }
      done := ended || |chunk| > 0;
    }

    method Stall()
      requires Valid() && src.patience >= MAX_EMPTY_READS
      modifies this`err
      ensures Valid() && err == Some(NoProgress)
    {
      err := Some(NoProgress);
    }

    method ReadErr() returns (e: Option<Error>)
      requires Valid()
      modifies this`err
      ensures Valid() && e == old(err) && err == None
    {
      e := err;
      err := None;
    }

    /** The next n bytes, left in the stream. */
    method Peek(n: int) returns (out: seq<Byte>, e: Option<Error>)
      requires Valid()
      modifies this`r, this`w, this`err, this`lastByte, this`lastRuneSize, buf, src
      ensures Valid() && Rest() == old(Rest()) && out <= Rest()
      ensures e.None? <==> |out| == n
      ensures e == Some(NegativeCount) <==> n < 0
      ensures e == Some(BufferFull) <==> n > buf.Length
      ensures e.Some? ==> n < 0 || n > buf.Length || (e == Some(Ended(src.ending)) && out == Rest()) || PendingOk(e.value)
      ensures n >= 0 ==> !CanUnreadByte() && !CanUnreadRune()
    {
      if n < 0 {
        return [], Some(NegativeCount);
      }
      lastByte := -1;
      lastRuneSize := -1;
      while w - r < n && w - r < buf.Length && err.None?
        invariant Valid() && Rest() == old(Rest()) && lastByte == -1 && lastRuneSize == -1
        decreases (if err.None? then 1 else 0), buf.Length - (w - r)
      {
        Fill();
      }
      if n > buf.Length {
        return buf[r..w], Some(BufferFull);
      }
      if w - r < n {
        e := ReadErr();
        return buf[r..w], e;
      }
      return buf[r..r + n], None;
    }

    /** Hand out the next n bytes of the buffer. */
    method Take(n: nat) returns (out: seq<Byte>)
      requires Valid() && 0 < n <= w - r
      modifies this`r, this`consumed, this`lastByte, this`lastRuneSize
      ensures Valid() && |out| == n && Took(old(See()), out, See())
      ensures r == old(r) + n && out == old(buf[r..w])[..n] && out == buf[old(r)..r]
      ensures lastByte == out[n - 1] && lastRuneSize == -1
    {
      out := buf[r..r + n];
      assert buf[r..w] == out + buf[r + n..w];
      consumed := consumed + out;
      r := r + n;
      lastByte := out[n - 1];
      lastRuneSize := -1;
      assert old(Rest()) == out + Rest();
    }

    /** Skip the next n bytes. */
    method Discard(n: int) returns (discarded: nat, e: Option<Error>)
      requires Valid()
      modifies this, buf, src
      ensures Valid() && discarded <= |old(Rest())| && Took(old(See()), old(Rest())[..discarded], See())
      ensures e.None? <==> discarded == n
      ensures e.Some? ==> discarded < n || (n < 0 && discarded == 0)
      ensures e == Some(Ended(src.ending)) ==> Rest() == []
      ensures n < 0 ==> e == Some(NegativeCount)
      ensures n >= 0 && e.Some? ==> PendingOk(e.value)
      ensures n >= 0 && src.patience < MAX_EMPTY_READS ==>
        discarded == if n < |old(Rest())| then n else |old(Rest())|
    {
      ghost var v0, out := See(), [];
      TookNothing(v0);
      hide Took, RuneOk;
      if n < 0 {
        return 0, Some(NegativeCount);
      }
      if n == 0 {
        return 0, None;
      }
      lastByte := -1;
      lastRuneSize := -1;
      var remain: nat := n;
      while true
        invariant Valid() && lastByte == -1 && lastRuneSize == -1 && 0 < remain <= n
        invariant |out| == n - remain && Took(v0, out, See())
        decreases remain
      {
        ghost var v1 := See();
        var skipped := Skip(remain);
        TookTwice(v0, out, v1, skipped, See());
        out := out + skipped;
        TookPrefix(v0, out, See());
        remain := remain - |skipped|;
        if remain == 0 {
          return n, None;
        }
        if err.Some? {
          e := ReadErr();
          return n - remain, e;
        }
      }
    }

    /** Skip up to max buffered bytes; fill an empty buffer first. */
    method Skip(max: nat) returns (skipped: seq<Byte>)
      requires Valid() && max > 0 && lastByte == -1 && lastRuneSize == -1
      modifies this`r, this`w, this`err, this`consumed, this`lastByte, this`lastRuneSize, buf, src
      ensures Valid() && lastByte == -1 && lastRuneSize == -1
      ensures Took(old(See()), skipped, See())
      ensures |skipped| <= max && (|skipped| < max ==> r == w)
      ensures skipped == [] ==> err.Some?
    {
      var skip := w - r;
      if skip == 0 {
        Fill();
        skip := w - r;
      }
      if skip > max {
        skip := max;
      }
      if skip == 0 {
        TookNothing(See());
        return [];
      }
      hide RuneOk, Took;
      skipped := Take(skip);
      lastByte := -1;
    }

    /** Read into p from the buffer, or by at most one read of the underlying reader. */
    method Read(p: array<Byte>) returns (n: nat, e: Option<Error>)
      requires Valid() && p != buf
      modifies this, buf, src, p
      ensures Valid() && n <= p.Length && Took(old(See()), p[..n], See())
      ensures p[n..] == old(p[n..])
      ensures e == Some(Ended(src.ending)) ==> Rest() == []
      ensures e.Some? ==> e == Some(Ended(src.ending)) || PendingOk(e.value)
      ensures n > 0 ==> CanUnreadByte()
      ensures p.Length > 0 && old(r < w) ==>
        e.None? && n == if p.Length < old(w - r) then p.Length else old(w - r)
      ensures p.Length > 0 && n == 0 && e.None? ==> old(r == w && err.None?) && src.data == old(src.data)
      ensures p.Length > 0 && old(r == w && err.Some?) ==> n == 0 && e == old(err)
      ensures p.Length == 0 ==> e == if old(r < w) then None else old(err)
    {
      TookNothing(See());
      hide Took, RuneOk;
      assert p[..0] == [];
      if p.Length == 0 {
        if w - r > 0 {
          return 0, None;
        }
        e := ReadErr();
        return 0, e;
      }
      if r == w {
        if err.Some? {
          e := ReadErr();
          return 0, e;
        }
        if p.Length >= buf.Length {
          n, e := ReadDirect(p);
          return;
        }
        ReadOnce();
        if r == w {
          e := ReadErr();
          return 0, e;
        }
      }
      n := Deliver(p);
      e := None;
    }

    /** Copy as much as fits from the buffer to p. */
    method Deliver(p: array<Byte>) returns (n: nat)
      requires Valid() && p != buf && p.Length > 0 && r < w
      modifies this`r, this`consumed, this`lastByte, this`lastRuneSize, p
      ensures Valid() && 0 < n <= p.Length && Took(old(See()), p[..n], See())
      ensures n == if p.Length < old(w - r) then p.Length else old(w - r)
      ensures p[n..] == old(p[n..]) && CanUnreadByte()
    {
      hide RuneOk, Took;
      n := if w - r < p.Length then w - r else p.Length;
      var out := Take(n);
      Store(p, 0, out);
    }

    /** Read directly into p, past the empty buffer. */
    method ReadDirect(p: array<Byte>) returns (n: nat, e: Option<Error>)
      requires Valid() && p != buf && p.Length > 0 && r == w && err.None?
      modifies this`lastByte, this`lastRuneSize, this`consumed, src, p
      ensures Valid() && n <= p.Length && Took(old(See()), p[..n], See())
      ensures p[n..] == old(p[n..])
      ensures e.Some? ==> e == Some(Ended(src.ending)) && Rest() == []
      ensures n > 0 ==> CanUnreadByte()
      ensures n == 0 ==> src.data == old(src.data)
    {
      var chunk, ended := src.Read(p.Length);
      Store(p, 0, chunk);
      n := |chunk|;
      if n > 0 {
        lastByte := chunk[n - 1];
        lastRuneSize := -1;
        consumed := consumed + chunk;
      }
      e := if ended then Some(Ended(src.ending)) else None;
    }

    /** One read of the underlying reader into the empty buffer. */
    method ReadOnce()
      requires Valid() && r == w && err.None?
      modifies this`r, this`w, this`err, buf, src
      ensures Valid() && See() == old(See())
      ensures r == w ==> src.data == old(src.data)
    {
      r := 0;
      w := 0;
      var chunk, ended := src.Read(buf.Length);
      Store(buf, 0, chunk);
      w := |chunk|;
      err := if ended then Some(Ended(src.ending)) else None;
    }

    method ReadByte() returns (c: Byte, e: Option<Error>)
      requires Valid()
      modifies this, buf, src
      ensures Valid() && Took(old(See()), if e.None? then [c] else [], See())
      ensures e.None? ==> CanUnreadByte()
      ensures e.Some? ==> PendingOk(e.value) && (e.value.Ended? ==> Rest() == [])
    {
      ghost var v0 := See();
      TookNothing(v0);
      hide RuneOk, Took;
      c := 0;
      lastRuneSize := -1;
      while r == w
        invariant Valid() && lastRuneSize == -1 && See() == v0
        decreases (if r == w then 1 else 0) + (if err.None? then 1 else 0)
      {
        if err.Some? {
          e := ReadErr();
          return;
        }
        FillEmpty();
      }
      var out := Take(1);
      assert out == [out[0]];
      return out[0], None;
    }

    /** Fill the empty buffer, with at least one byte or an error. */
    method FillEmpty()
      requires Valid() && r == w
      modifies this`r, this`w, this`err, buf, src
      ensures Valid() && See() == old(See())
      ensures err.None? ==> r < w
    {
      Fill();
    }

    /** Give the last byte back. */
    method UnreadByte() returns (e: Option<Error>)
      requires Valid()
      modifies this, buf
      ensures Valid()
      ensures e == if old(CanUnreadByte()) then None else Some(InvalidUnreadByte)
      ensures e.None? ==> |old(consumed)| > 0 && Took(See(), old(consumed[|consumed| - 1..]), old(See()))
      ensures e.Some? ==> See() == old(See())
    {
      if lastByte < 0 || (r == 0 && w > 0) {
        return Some(InvalidUnreadByte);
      }
      if r > 0 {
        r := r - 1;
      } else {
        w := 1;
      }
      buf[r] := lastByte;
      ghost var last := consumed[|consumed| - 1..];
      consumed := consumed[..|consumed| - 1];
      lastByte := -1;
      lastRuneSize := -1;
      assert old(consumed) == consumed + last;
      assert buf[r..w] == last + old(buf[r..w]);
      return None;
    }

    /** One rune, decoded from the whole stream. */
    method ReadRune() returns (c: nat, size: nat, e: Option<Error>)
      requires Valid()
      modifies this, buf, src
      ensures Valid() && size <= |old(Rest())| && Took(old(See()), old(Rest())[..size], See())
      ensures e.Some? ==> size == 0 && PendingOk(e.value)
      ensures e.None? ==> size > 0 && CanUnreadRune() && CanUnreadByte()
      ensures src.patience < MAX_EMPTY_READS ==> (c, size) == if e.None? then DecodeRune(old(Rest())) else (0, 0)
      ensures src.patience < MAX_EMPTY_READS ==> (e.Some? <==> old(Rest()) == [])
    {
      TookNothing(See());
      hide Took, FullRune, DecodeRune, RuneOk;
      FillRune();
      lastRuneSize := -1;
      if r == w {
        e := ReadErr();
        return 0, 0, e;
      }
      c, size := TakeRune();
      e := None;
    }

    /** Decode and take the rune at the front of the buffer. */
    method TakeRune() returns (c: nat, size: nat)
      requires Valid() && r < w && lastRuneSize == -1
      modifies this`r, this`consumed, this`lastByte, this`lastRuneSize
      ensures Valid() && 0 < size <= |old(Rest())| && Took(old(See()), old(Rest())[..size], See())
      ensures old(FullRune(buf[r..w])) || src.data == [] ==> (c, size) == DecodeRune(old(Rest()))
      ensures CanUnreadRune() && CanUnreadByte()
    {
      hide Took, FullRune, DecodeRune, RuneOk;
      ghost var v0 := See();
      var held := buf[r..w];
      assert v0.rest == held + src.data;
      if FullRune(held) || src.data == [] {
        DecodeHeld(held, src.data);
      }
      c, size := DecodeRune(held).0, DecodeRune(held).1;
      var out := Take(size);
      TookPrefix(v0, out, See());
      MarkRune(v0, out, size);
    }

    /** Remember that the last bytes read were a rune. */
    method MarkRune(ghost v: View, ghost out: seq<Byte>, size: nat)
      requires Valid() && 0 < size == |out| && size <= r && out == buf[r - size..r]
      requires Took(v, out, See())
      modifies this`lastRuneSize
      ensures Valid() && lastRuneSize == size && See() == old(See())
    {
      TookEnds(v, out, See());
      hide Took;
      lastRuneSize := size;
    }

    /** Fill until the buffer starts with a whole rune, if there is one. */
    method FillRune()
      requires Valid()
      modifies this`r, this`w, this`err, buf, src
      ensures Valid() && See() == old(See())
      ensures FullRune(buf[r..w]) || err.Some?
    {
      while r + 4 > w && !FullRune(buf[r..w]) && err.None? && w - r < buf.Length
        invariant Valid() && See() == old(See())
        decreases (if err.None? then 1 else 0), buf.Length - (w - r)
      {
        Fill();
      }
    }

    /** Give the last rune back. */
    method UnreadRune() returns (e: Option<Error>)
      requires Valid()
      modifies this`r, this`lastByte, this`lastRuneSize, this`consumed
      ensures Valid()
      ensures e == if old(CanUnreadRune()) then None else Some(InvalidUnreadRune)
      ensures e.None? ==> Took(See(), old(consumed)[|old(consumed)| - old(lastRuneSize)..], old(See()))
      ensures e.Some? ==> See() == old(See())
    {
      if lastRuneSize < 0 || r < lastRuneSize {
        return Some(InvalidUnreadRune);
      }
      ghost var last := consumed[|consumed| - lastRuneSize..];
      r := r - lastRuneSize;
      consumed := consumed[..|consumed| - lastRuneSize];
      lastByte := -1;
      lastRuneSize := -1;
      assert old(consumed) == consumed + last;
      assert buf[r..w] == last + old(buf[r..w]);
      return None;
    }

    /** Up to and including the first delim, as far as the buffer reaches. */
    method ReadSlice(delim: Byte) returns (line: seq<Byte>, e: Option<Error>)
      requires Valid()
      modifies this, buf, src
      ensures Valid() && Took(old(See()), line, See())
      ensures e.None? <==> delim in line
      ensures e.None? ==> delim !in line[..|line| - 1] && line[|line| - 1] == delim
      ensures e.Some? ==> (e == Some(BufferFull) && |line| == buf.Length) || (PendingOk(e.value) && (e.value.Ended? ==> Rest() == []))
      ensures line != [] ==> CanUnreadByte()
    {
      TookNothing(See());
      hide Took, RuneOk;
      var n;
      n, e := FindDelim(delim);
      line := [];
      if n > 0 {
        ghost var held := buf[r..w];
        line := Take(n);
        assert line[..n - 1] == held[..n - 1];
      }
    }

    /** Fill until the buffer holds delim, and say how far the line reaches. */
    method FindDelim(delim: Byte) returns (n: nat, e: Option<Error>)
      requires Valid()
      modifies this`r, this`w, this`err, buf, src
      ensures Valid() && See() == old(See()) && n <= w - r
      ensures e.None? ==> n > 0 && buf[r..w][n - 1] == delim && delim !in buf[r..w][..n - 1]
      ensures e.Some? ==> n == w - r && delim !in buf[r..w]
      ensures e.Some? ==> (e == Some(BufferFull) && n == buf.Length) || PendingOk(e.value)
    {
      hide RuneOk, IndexByte;
      var s: nat := 0;
      ghost var held := buf[r..w];
      while true
        invariant Valid() && See() == old(See()) && s <= w - r
        invariant held == buf[r..w] && delim !in held[..s]
        decreases (if err.None? then 1 else 0), buf.Length - (w - r)
      {
        var i := IndexByte(buf[r..w][s..], delim);
        SearchFrom(held, s, delim);
        if i < w - r - s {
          return s + i + 1, None;
        }
        if err.Some? {
          e := ReadErr();
          return w - r, e;
        }
        if w - r >= buf.Length {
          return w - r, Some(BufferFull);
        }
        s := w - r;
        Fill();
        assert buf[r..w][..s] == held;
        held := buf[r..w];
      }
    }

    /** Full buffers without delim, then the fragment that ends the line. */
    method CollectFragments(delim: Byte)
      returns (full: seq<seq<Byte>>, frag: seq<Byte>, totalLen: nat, e: Option<Error>)
      requires Valid()
      modifies this, buf, src
      ensures Valid() && Took(old(See()), Concat(full) + frag, See())
      ensures totalLen == |Concat(full)| + |frag| && delim !in Concat(full)
      ensures e.None? <==> delim in frag
      ensures e.None? ==> delim !in frag[..|frag| - 1] && frag[|frag| - 1] == delim
      ensures e.Some? ==> PendingOk(e.value) && (e.value.Ended? ==> Rest() == [])
    {
      ghost var v0 := See();
      TookNothing(v0);
      full, totalLen := [], 0;
      assert Concat(full) == [];
      hide Took, Concat, RuneOk;
      while true
        invariant Valid() && Took(v0, Concat(full), See())
        invariant totalLen == |Concat(full)| && delim !in Concat(full)
        decreases |Rest()|
      {
        ghost var v1 := See();
        frag, e := ReadSlice(delim);
        TookTwice(v0, Concat(full), v1, frag, See());
        TookShrinks(v1, frag, See());
        if e.None? || e != Some(BufferFull) {
          break;
        }
        ConcatMore(full, frag);
        full := full + [frag];
        totalLen := totalLen + |frag|;
      }
      totalLen := totalLen + |frag|;
    }

    /** The shortest prefix of the stream that ends in delim; all of it, and an error, if
        there is none. */
    method ReadBytes(delim: Byte) returns (out: seq<Byte>, e: Option<Error>)
      requires Valid()
      modifies this, buf, src
      ensures Valid() && Took(old(See()), out, See())
      ensures e.None? <==> out != [] && out[|out| - 1] == delim
      ensures e.None? ==> out == UpTo(old(Rest()), delim)
      ensures e.Some? ==> delim !in out && PendingOk(e.value)
      ensures src.patience < MAX_EMPTY_READS ==> out == UpTo(old(Rest()), delim) && (e.None? <==> delim in old(Rest()))
    {
      ghost var v0 := See();
      hide Took, Concat, RuneOk;
      var full, frag, n;
      full, frag, n, e := CollectFragments(delim);
      out := Join(full, frag, n);
      LineOf(v0, Concat(full), frag, See(), delim, e.None?);
    }
  }

  lemma {:induction false} TookShrinks(v: View, out: seq<Byte>, v': View)
    requires Took(v, out, v')
    ensures |v.rest| == |out| + |v'.rest|
  {}

  /** Copy the pieces into one new buffer of n bytes. */
  method Join(full: seq<seq<Byte>>, frag: seq<Byte>, n: nat) returns (out: seq<Byte>)
    requires n == |Concat(full)| + |frag|
    ensures out == Concat(full) + frag
  {
    assert Concat(full[..0]) == [];
    hide Concat;
    var buf := new Byte[n];
    var at: nat := 0;
    for i := 0 to |full|
      invariant at == |Concat(full[..i])| && at <= n && buf[..at] == Concat(full[..i])
    {
      ConcatLength(full, i);
      ConcatLength(full, i + 1);
      Store(buf, at, full[i]);
      at := at + |full[i]|;
    }
    assert full[..|full|] == full;
    Store(buf, at, frag);
    out := buf[..];
    assert buf[..] == buf[..n];
  }

  /** What was taken is the line, when it ends in delim or nothing is left. */
  lemma {:induction false} LineOf(v: View, full: seq<Byte>, frag: seq<Byte>, v': View, delim: Byte, ok: bool)
    requires Took(v, full + frag, v') && delim !in full
    requires ok <==> delim in frag
    requires ok ==> delim !in frag[..|frag| - 1] && frag[|frag| - 1] == delim
    ensures var out := full + frag;
      && (ok <==> out != [] && out[|out| - 1] == delim)
      && (!ok ==> delim !in out)
      && (ok || v'.rest == [] ==> out == UpTo(v.rest, delim) && (ok <==> delim in v.rest))
  {
    var out := full + frag;
    if ok {
      assert out[..|out| - 1] == full + frag[..|frag| - 1];
      UpToUnique(out, v'.rest, delim);
      assert out[|out| - 1] in v.rest;
    } else if v'.rest == [] {
      assert v.rest == out;
    }
  }

  datatype Call =
    | Read(size: nat) | ReadByte | ReadRune | ReadSlice(delim: Byte) | ReadBytes(delim: Byte)
    | Peek(n: int) | Discard(n: int) | UnreadByte | UnreadRune

  function Whole(v: View): seq<Byte> { v.consumed + v.rest }

  /** Make one call and drop its results. */
  method Make(b: Reader, c: Call)
    requires b.Valid()
    modifies b, b.buf, b.src
    ensures b.Valid() && Whole(b.See()) == old(Whole(b.See()))
  {
    ghost var v := b.See();
    ghost var out: seq<Byte> := [];
    hide Took, Reader.RuneOk;
    match c {
      case Read(size) =>
        var p := new Byte[size];
        var n, e := b.Read(p);
        out := p[..n];
      case ReadByte =>
        var x, e := b.ReadByte();
        out := if e.None? then [x] else [];
      case ReadRune =>
        var x, n, e := b.ReadRune();
        out := v.rest[..n];
      case ReadSlice(delim) =>
        var line, e := b.ReadSlice(delim);
        out := line;
      case ReadBytes(delim) =>
        var line, e := b.ReadBytes(delim);
        out := line;
      case Discard(n) =>
        var k, e := b.Discard(n);
        out := v.rest[..k];
      case Peek(n) =>
        var line, e := b.Peek(n);
        return;
      case UnreadByte =>
        var e := b.UnreadByte();
        if e.None? {
          TookConserves(b.See(), v.consumed[|v.consumed| - 1..], v);
        }
        return;
      case UnreadRune =>
        ghost var size := b.lastRuneSize;
        var e := b.UnreadRune();
        if e.None? {
          TookConserves(b.See(), v.consumed[|v.consumed| - size..], v);
        }
        return;
    }
    TookConserves(v, out, b.See());
  }

  /** Conservation over every sequence of calls. */
  method Drive(b: Reader, calls: seq<Call>)
    requires b.Valid()
    modifies b, b.buf, b.src
    ensures b.Valid() && b.consumed + b.Rest() == old(b.consumed + b.Rest())
  {
    for i := 0 to |calls|
      invariant b.Valid() && Whole(b.See()) == old(Whole(b.See()))
    {
      Make(b, calls[i]);
    }
  }
}
