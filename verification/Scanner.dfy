/**
 bufio.Scanner over the split functions of its package. Whatever chunks the reader
 delivers, Scan yields the tokens of the whole input.
 */
module Scanner {
  import opened Options
  import opened Bytes
  import opened ByteSource
  import opened Splitting
  import opened Utf8

  const START_BUF_SIZE: nat := 4096
  const MAX_INT: nat := 0x7FFF_FFFF_FFFF_FFFF

  datatype Error = Ended(ending: Ending) | TooLong | NoProgress | NegativeAdvance | AdvanceTooFar

  /** The token t, n bytes further on. */
  function Later(t: Option<(seq<Byte>, nat)>, n: nat): Option<(seq<Byte>, nat)> {
    if t.None? then None else Some((t.value.0, n + t.value.1))
  }

  /** From rest0 the scan has skipped n bytes without missing a token: what a buffer of m bytes has
      room for, and what one of c bytes can never hold, is still ahead. */
  ghost predicate Reached(k: Splitter, m: nat, c: nat, rest0: seq<Byte>, n: nat, rest: seq<Byte>) {
    && n <= |rest0| && rest == rest0[n..]
    && NextToken(k, rest0) == Later(NextToken(k, rest), n)
    && (Roomy(k, rest0, m) ==> Roomy(k, rest, m))
    && (Doomed(k, rest0, c) ==> Doomed(k, rest, c))
  }

  lemma {:induction false} ReachedStart(k: Splitter, m: nat, c: nat, rest: seq<Byte>)
    ensures Reached(k, m, c, rest, 0, rest)
  {
    hide NextToken, Roomy, Doomed;
    assert rest[0..] == rest;
  }

  lemma {:induction false} NothingYet(k: Splitter)
    ensures Split(k, [], false) == (0, None)
  {}

  lemma {:induction false} ReachedSkip(k: Splitter, m: nat, c: nat, rest0: seq<Byte>, n: nat, rest: seq<Byte>, d: seq<Byte>)
    requires Reached(k, m, c, rest0, n, rest) && d <= rest && |d| <= c && Split(k, d, false).1.None?
    ensures var s := Split(k, d, false).0; s <= |rest| && Reached(k, m, c, rest0, n + s, rest[s..])
  {
    hide NextToken, Roomy, Doomed, Split;
    PrefixSkip(k, d, rest);
    if Roomy(k, rest, m) {
      RoomySkip(k, d, rest, m);
    }
    if Doomed(k, rest, c) {
      DoomedSkip(k, d, rest, c);
    }
    assert rest0[n..][Split(k, d, false).0..] == rest0[n + Split(k, d, false).0..];
  }

  /** A token of the data at hand d is the next one of rest0. */
  lemma {:induction false} ReachedToken(k: Splitter, m: nat, c: nat, rest0: seq<Byte>, n: nat, rest: seq<Byte>, d: seq<Byte>, atEOF: bool)
    requires Reached(k, m, c, rest0, n, rest) && d <= rest && |d| <= c && (atEOF ==> d == rest && c > 0)
    requires Split(k, d, atEOF).1.Some?
    ensures var (adv, tok) := Split(k, d, atEOF);
      && n + adv <= |rest0| && rest[adv..] == rest0[n + adv..]
      && NextToken(k, rest0) == Some((tok.value, n + adv))
      && (Doomed(k, rest0, c) ==> Doomed(k, rest[adv..], c))
  {
    hide Roomy, Doomed, Split;
    var adv := Split(k, d, atEOF).0;
    if !atEOF {
      PrefixToken(k, d, rest);
    }
    if Doomed(k, rest0, c) {
      DoomedLong(k, rest, c);
      DoomedToken(k, d, rest, c);
    }
    assert rest0[n..][adv..] == rest0[n + adv..];
  }

  lemma {:induction false} ReachedEnd(k: Splitter, m: nat, c: nat, rest0: seq<Byte>, n: nat, rest: seq<Byte>)
    requires Reached(k, m, c, rest0, n, rest) && Split(k, rest, true).1.None? && 0 < c && |rest| <= c
    ensures NextToken(k, rest0) == None && !Doomed(k, rest0, c)
  {
    hide Roomy, Doomed, Split;
    if Doomed(k, rest0, c) {
      DoomedLong(k, rest, c);
    }
  }

  /** A full buffer without progress means that the input is not roomy. */
  lemma {:induction false} ReachedFull(k: Splitter, m: nat, c: nat, rest0: seq<Byte>, n: nat, rest: seq<Byte>, d: seq<Byte>)
    requires Reached(k, m, c, rest0, n, rest) && d <= rest && Split(k, d, false) == (0, None) && |d| >= m
    ensures !Roomy(k, rest0, m)
  {
    hide Split, NextToken, Doomed;
    assert rest[..|d|] == d;
    StuckShrinks(k, rest, m, |d|);
  }

  lemma {:induction false} SkipsFrom(data: seq<Byte>, start: nat)
    requires start < |data|
    ensures var (r, w) := DecodeRune(data[start..]);
      SkipSpaces(data[start..]) == if IsSpace(r) then w + SkipSpaces(data[start + w..]) else 0
  {
    var w := DecodeRune(data[start..]).1;
    assert data[start..][w..] == data[start + w..];
  }

  lemma {:induction false} EndFrom(data: seq<Byte>, i: nat, n: nat)
    requires i < |data|
    ensures var (r, w) := DecodeRune(data[i..]);
      Further(WordEnd(data[i..]), n) == if IsSpace(r) then Some((n, w)) else Further(WordEnd(data[i + w..]), n + w)
  {
    var w := DecodeRune(data[i..]).1;
    assert data[i..][w..] == data[i + w..];
  }

  function Further(e: Option<(nat, nat)>, n: nat): Option<(nat, nat)> {
    if e.None? then None else Some((n + e.value.0, e.value.1))
  }

  /** The first loop of ScanWords: past the leading white space. */
  method SkipLoop(data: seq<Byte>) returns (start: nat)
    ensures start == SkipSpaces(data)
  {
    assert SkipSpaces([]) == 0;
    hide *;
    start := 0;
    ghost var rest := data;
    while start < |data|
      invariant start <= |data| && rest == data[start..]
      invariant SkipSpaces(data) == start + SkipSpaces(rest)
    {
      var (c, width) := DecodeRune(data[start..]);
      SkipsFrom(data, start);
      if !IsSpace(c) { return; }
      start := start + width;
      rest := data[start..];
    }
    assert rest == [];
  }

  /** The word that starts n bytes before rest ends as e says. */
  ghost predicate EndsAt(rest: seq<Byte>, n: nat, e: Option<(nat, nat)>) {
    e == Further(WordEnd(rest), n)
  }

  lemma {:induction false} EndStep(data: seq<Byte>, i: nat, n: nat, e: Option<(nat, nat)>)
    requires i < |data| && EndsAt(data[i..], n, e)
    ensures IsSpace(DecodeRune(data[i..]).0) ==> e == Some((n, DecodeRune(data[i..]).1))
    ensures !IsSpace(DecodeRune(data[i..]).0) ==> EndsAt(data[i + DecodeRune(data[i..]).1..], n + DecodeRune(data[i..]).1, e)
  {
    hide WordEnd, Further, DecodeRune, IsSpace;
    EndFrom(data, i, n);
  }

  lemma {:induction false} EndBounds(rest: seq<Byte>, e: Option<(nat, nat)>)
    ensures EndsAt(rest, 0, WordEnd(rest))
    ensures EndsAt([], |rest|, e) ==> e == None
  {}

  /** The second loop of ScanWords: to the white space that ends the word at start. */
  method WordLoop(data: seq<Byte>, start: nat) returns (e: Option<(nat, nat)>)
    requires start <= |data|
    ensures e == WordEnd(data[start..])
  {
    hide *;
    var i := start;
    ghost var rest, end := data[start..], WordEnd(data[start..]);
    EndBounds(rest, end);
    while i < |data|
      invariant start <= i <= |data| && rest == data[i..]
      invariant EndsAt(rest, i - start, end)
    {
      var (c, width) := DecodeRune(data[i..]);
      EndStep(data, i, i - start, end);
      if IsSpace(c) {
        return Some((i - start, width));
      }
      i := i + width;
      rest := data[i..];
    }
    assert rest == [];
    return None;
  }

  /** ScanWords as the source runs it, with its two loops. */
  method ScanWordsLoop(data: seq<Byte>, atEOF: bool) returns (r: Cut)
    ensures r == SplitWords(data, atEOF)
  {
    hide SkipSpaces, WordEnd;
    var start := SkipLoop(data);
    var e := WordLoop(data, start);
    if e.Some? {
      return (start + e.value.0 + e.value.1, Some(data[start..start + e.value.0]));
    }
    if atEOF && |data| > start {
      return (|data|, Some(data[start..]));
    }
    return (start, None);
  }

  class Scanner {
    const src: Source
    const split: Splitter
    const maxTokenSize: int
    /** The length of the buffer given at the start. */
    ghost const given: nat
    var token: seq<Byte>
    var buf: array<Byte>
    var start: nat
    var end: nat
    var err: Option<Error>

    ghost predicate Valid()
      reads this, src
    {
      && src.Valid()
      && start <= end <= buf.Length && given <= buf.Length <= Ceiling()
      && (err.Some? && err.value.Ended? ==> err.value.ending == src.ending && src.data == [] && buf.Length > 0)
    }

    /** The input that no token has covered yet. */
    ghost function Rest(): seq<Byte>
      requires Valid()
      reads this, src, buf
    {
      buf[start..end] + src.data
    }

    /** A buffer of at least this size is used before the scanner gives up: the larger of the
        maximum and the buffer it was given, short of an overflow. */
    ghost function Limit(): nat {
      var max := if maxTokenSize <= MAX_INT / 2 then maxTokenSize else MAX_INT / 2 + 1;
      if max < given then given else max
    }

    /** No larger buffer is ever used; below an overflow this is the limit. */
    ghost function Ceiling(): nat
      ensures maxTokenSize <= MAX_INT / 2 ==> Ceiling() == Limit()
    {
      if maxTokenSize < given then given else maxTokenSize
    }

    /** The buffer may not grow. */
    predicate AtLimit()
      reads this
    {
      buf.Length >= maxTokenSize || buf.Length > MAX_INT / 2
    }

    /** The buffer is full, may not grow, and holds no token. */
    ghost predicate Jammed()
      reads this, buf
    {
      && err.None? && start == 0 && end == buf.Length && AtLimit()
      && Split(split, buf[..], false) == (0, None)
    }

    /** NewScanner, Split and Buffer: a scanner with the given buffer. */
    constructor (src: Source, split: Splitter, buf: array<Byte>, max: int)
      requires src.Valid()
      ensures Valid() && err.None? && Rest() == src.data
      ensures this.src == src && this.split == split && this.buf == buf && maxTokenSize == max
      ensures given == buf.Length
    {
      this.src := src;
      this.split := split;
      this.buf := buf;
      maxTokenSize := max;
      given := buf.Length;
      token, start, end, err := [], 0, 0, None;
    }

    /** setErr: the first error stays, except that EOF gives way. */
    method SetErr(e: Error)
      modifies this`err
      ensures err == if old(err) in {None, Some(Ended(EOF))} then Some(e) else old(err)
    {
      if err.None? || err == Some(Ended(EOF)) {
        err := Some(e);
      }
    }

    method Advance(n: int) returns (ok: bool)
      requires Valid()
      modifies this`err, this`start
      ensures ok <==> 0 <= n <= end - old(start)
      ensures ok ==> start == old(start) + n && err == old(err)
      ensures !ok ==> start == old(start)
    {
      if n < 0 {
        SetErr(NegativeAdvance);
        return false;
      }
      if n > end - start {
        SetErr(AdvanceTooFar);
        return false;
      }
      start := start + n;
      return true;
    }

    /** Shift the data to the beginning of the buffer. */
    method Shift()
      requires Valid()
      modifies this`start, this`end, buf
      ensures Valid() && start == 0 && end == old(end) - old(start)
      ensures Rest() == old(Rest())
    {
      Store(buf, 0, buf[start..end]);
      end := end - start;
      start := 0;
    }

    /** Move the data to a larger buffer. */
    method Grow()
      requires Valid() && start == 0 && end == buf.Length && !AtLimit()
      modifies this`buf, this`start, this`end
      ensures Valid() && fresh(buf) && start == 0 && end < buf.Length
      ensures Rest() == old(Rest()) && old(buf.Length) < buf.Length <= maxTokenSize
    {
      var newSize := buf.Length * 2;
      if newSize == 0 {
        newSize := START_BUF_SIZE;
      }
      newSize := if newSize < maxTokenSize then newSize else maxTokenSize;
      var newBuf := new Byte[newSize];
      Store(newBuf, 0, buf[start..end]);
      buf := newBuf;
      end := end - start;
      start := 0;
    }

    /** Read until there are new bytes or the reader has ended. */
    method Fill()
      requires Valid() && err.None? && end < buf.Length
      modifies this`end, this`err, buf, src
      ensures Valid()
      ensures Rest() == old(Rest()) && |src.data| <= |old(src.data)|
      ensures err.None? ==> |src.data| < |old(src.data)|
      ensures err.Some? ==> err == Some(Ended(src.ending)) || (err == Some(NoProgress) && src.patience > MAX_EMPTY_READS)
    {
      var loop := 0;
      while true
        invariant Valid() && err.None? && end == old(end) < buf.Length
        invariant loop <= MAX_EMPTY_READS && loop <= src.idle
        invariant Rest() == old(Rest()) && src.data == old(src.data)
        decreases MAX_EMPTY_READS - loop
      {
        ghost var held := buf[start..end];
        var chunk, ended := src.Read(buf.Length - end);
        Store(buf, end, chunk);
        end := end + |chunk|;
        assert Rest() == held + (chunk + src.data);
        if ended {
          SetErr(Ended(src.ending));
          break;
        }
        if |chunk| > 0 {
          break;
        }
        loop := loop + 1;
        if loop > MAX_EMPTY_READS {
          SetErr(NoProgress);
          break;
        }
      }
    }

    /** Ask the split function for a token of the data at hand. */
    method TakeToken() returns (found: bool)
      requires Valid()
      modifies this`start, this`token, this`err
      ensures Valid() && old(start) <= start && err == old(err)
      ensures found <==> Split(split, old(buf[start..end]), err.Some?).1.Some?
      ensures found ==> token == Split(split, old(buf[start..end]), err.Some?).1.value
      ensures start == old(start) + Split(split, old(buf[start..end]), err.Some?).0
    {
      var (adv, tok) := Split(split, buf[start..end], err.Some?);
      var legal := Advance(adv);
      // A token never comes without progress, so the count of empty tokens stays 0.
      assert tok.Some? ==> adv > 0;
      found := tok.Some?;
      token := if found then tok.value else [];
    }

    /** Make room for at least one more byte. */
    method MakeRoom() returns (ok: bool)
      requires Valid() && err.None?
      modifies this`start, this`end, this`buf, this`err, buf
      ensures Valid() && (buf == old(buf) || fresh(buf))
      ensures Rest() == old(Rest())
      ensures ok ==> err.None? && end < buf.Length
      ensures !ok <==> old(start == 0 && end == buf.Length && AtLimit())
      ensures !ok ==> err == Some(TooLong) && old(buf.Length >= Limit())
      ensures maxTokenSize <= given ==> buf == old(buf)
    {
      if start > 0 && (end == buf.Length || start > buf.Length / 2) {
        Shift();
      }
      if end == buf.Length {
        if AtLimit() {
          SetErr(TooLong);
          return false;
        }
        Grow();
      }
      return true;
    }

    /** Read some input, unless the buffer is full and may not grow. */
    method ReadMore() returns (ok: bool)
      requires Valid() && err.None?
      modifies this`start, this`end, this`buf, this`err, buf, src
      ensures Valid() && (buf == old(buf) || fresh(buf)) && Rest() == old(Rest())
      ensures !ok <==> old(start == 0 && end == buf.Length && AtLimit())
      ensures !ok ==> err == Some(TooLong) && old(buf.Length >= Limit())
      ensures maxTokenSize <= given ==> buf == old(buf)
      ensures ok ==> |src.data| <= |old(src.data)| && (err.None? ==> |src.data| < |old(src.data)|)
      ensures ok && err.Some? ==> err.value.Ended? || (err == Some(NoProgress) && src.patience > MAX_EMPTY_READS)
    {
      hide Limit;
      ok := MakeRoom();
      if ok {
        Fill();
      }
    }

    /** Try the data at hand: a token, or the bytes it says to skip. */
    method Attempt(ghost rest0: seq<Byte>, ghost n: nat) returns (ok: bool, ghost n1: nat)
      requires Valid() && Reached(split, Limit(), Ceiling(), rest0, n, Rest())
      modifies this`start, this`token, this`err
      ensures Valid() && err == old(err)
      ensures ok && (err.None? || err.value.Ended?) ==> Result(rest0, true)
      ensures !ok && err.Some? && err.value.Ended? ==> NextToken(split, rest0) == None && !Doomed(split, rest0, Ceiling())
      ensures !ok && err.None? ==> Reached(split, Limit(), Ceiling(), rest0, n1, Rest())
      ensures !ok && err.None? && start == 0 && end == buf.Length >= Limit() ==> !Roomy(split, rest0, Limit())
      ensures old(Jammed()) ==> !ok && start == 0
    {
      hide Split, NextToken, Roomy, Doomed, Reached, Limit;
      ghost var d, rest, atEOF := buf[start..end], Rest(), err.Some?;
      ok, n1 := false, n;
      assert d <= rest && |d| <= Ceiling() && (atEOF && err.value.Ended? ==> d == rest);
      assert start == 0 && end == buf.Length ==> d == buf[..];
      if end > start || err.Some? {
        ok := TakeToken();
        assert Rest() == rest[Split(split, d, atEOF).0..];
      } else {
        NothingYet(split);
      }
      if err.None? || err.value.Ended? {
        if ok {
          ReachedToken(split, Limit(), Ceiling(), rest0, n, rest, d, atEOF);
        } else if err.Some? {
          ReachedEnd(split, Limit(), Ceiling(), rest0, n, rest);
        } else {
          if |d| >= Limit() && Split(split, d, false).0 == 0 {
            ReachedFull(split, Limit(), Ceiling(), rest0, n, rest, d);
          }
          ReachedSkip(split, Limit(), Ceiling(), rest0, n, rest, d);
          n1 := n + Split(split, d, false).0;
        }
      }
    }

    /** One round of Scan: a token, an end, or more data. */
    method Round(ghost rest0: seq<Byte>, ghost n: nat) returns (done: bool, ok: bool, ghost n1: nat)
      requires Valid() && Reached(split, Limit(), Ceiling(), rest0, n, Rest())
      modifies this, src, buf
      ensures Valid() && (buf == old(buf) || fresh(buf))
      ensures !done ==> old(err).None? && Reached(split, Limit(), Ceiling(), rest0, n1, Rest())
      ensures !done ==> |src.data| <= |old(src.data)| && (err.None? ==> |src.data| < |old(src.data)|)
      ensures !done && err.Some? ==> err.value.Ended? || (err == Some(NoProgress) && src.patience > MAX_EMPTY_READS)
      ensures done ==> err == old(err) || (!ok && old(err).None? && err == Some(TooLong))
      ensures done && !ok ==> err.Some?
      ensures done && (err.None? || err.value.Ended?) ==> Result(rest0, ok)
      ensures done && old(err).None? && err == Some(TooLong) ==> !Roomy(split, rest0, Limit())
      ensures old(Jammed()) ==> done && err == Some(TooLong)
      ensures maxTokenSize <= given ==> buf == old(buf)
    {
      hide Split, NextToken, Roomy, Doomed, Reached, Limit;
      ok, n1 := Attempt(rest0, n);
      done := true;
      if ok {
        return;
      }
      if err.Some? {
        start := 0;
        end := 0;
        return;
      }
      ok := ReadMore();
      done, ok := !ok, false;
    }

    /** What a finished Scan promises about the input rest0 it started with. */
    ghost predicate Result(rest0: seq<Byte>, ok: bool)
      requires Valid()
      reads this, src, buf
    {
      if ok then
        && |Rest()| <= |rest0| && Rest() == rest0[|rest0| - |Rest()|..]
        && NextToken(split, rest0) == Some((token, |rest0| - |Rest()|))
        && (Doomed(split, rest0, Ceiling()) ==> Doomed(split, Rest(), Ceiling()))
      else NextToken(split, rest0) == None && Rest() == [] && !Doomed(split, rest0, Ceiling())
    }

    /** The next token of the whole remaining input, however it is cut into chunks. */
    method Scan() returns (ok: bool)
      requires Valid()
      modifies this, src, buf
      ensures Valid() && (buf == old(buf) || fresh(buf))
      ensures !ok ==> err.Some?
      ensures old(err).None? && err.Some? ==>
        err.value.Ended? || err.value.TooLong? || (err.value.NoProgress? && src.patience > MAX_EMPTY_READS)
      ensures old(err).Some? ==> err == old(err)
      ensures err.None? || err.value.Ended? ==> Result(old(Rest()), ok)
      ensures old(err).None? && err == Some(TooLong) ==> !ok && !Roomy(split, old(Rest()), Limit())
      ensures old(Jammed()) ==> !ok && err == Some(TooLong)
      ensures maxTokenSize <= given ==> buf == old(buf)
    {
      ghost var rest0 := Rest();
      ghost var n: nat := 0;
      ReachedStart(split, Limit(), Ceiling(), rest0);
      ghost var jammed := Jammed();
      hide *;
      while true
        invariant Valid() && (buf == old(buf) || fresh(buf))
        invariant old(err).Some? ==> err == old(err)
        invariant err.Some? && old(err).None? ==> err.value.Ended? || (err == Some(NoProgress) && src.patience > MAX_EMPTY_READS)
        invariant Reached(split, Limit(), Ceiling(), rest0, n, Rest())
        invariant jammed ==> Jammed()
        invariant maxTokenSize <= given ==> buf == old(buf)
        decreases |src.data| + (if err.None? then 1 else 0)
      {
        var done;
        done, ok, n := Round(rest0, n);
        if done {
          return;
        }
      }
    }
  }

  /** The tokens collected so far, with those of rest, are those of the input. */
  ghost predicate Collected(k: Splitter, m: nat, c: nat, input: seq<Byte>, tokens: seq<seq<Byte>>, rest: seq<Byte>) {
    && tokens + Tokens(k, rest) == Tokens(k, input)
    && (Roomy(k, input, m) ==> Roomy(k, rest, m))
    && (Doomed(k, input, c) ==> Doomed(k, rest, c))
  }

  lemma {:induction false} CollectedStart(k: Splitter, m: nat, c: nat, input: seq<Byte>)
    ensures Collected(k, m, c, input, [], input)
    ensures Enough(k, m) && ShortTokens(k, input, m) ==> Roomy(k, input, m)
  {
    hide Tokens, Roomy, Doomed, ShortTokens;
    if Enough(k, m) && ShortTokens(k, input, m) {
      ShortIsRoomy(k, input, m);
    }
  }

  lemma {:induction false} CollectedStep(k: Splitter, m: nat, c: nat, input: seq<Byte>, tokens: seq<seq<Byte>>, rest: seq<Byte>)
    requires Collected(k, m, c, input, tokens, rest) && NextToken(k, rest).Some?
    requires Doomed(k, rest, c) ==> Doomed(k, rest[NextToken(k, rest).value.1..], c)
    ensures var t := NextToken(k, rest).value; Collected(k, m, c, input, tokens + [t.0], rest[t.1..])
  {
    hide NextToken, Roomy, Doomed;
    var t := NextToken(k, rest).value;
    if Roomy(k, input, m) {
      RoomyToken(k, rest, m);
    }
    assert tokens + ([t.0] + Tokens(k, rest[t.1..])) == tokens + [t.0] + Tokens(k, rest[t.1..]);
  }

  lemma {:induction false} CollectedEnd(k: Splitter, m: nat, c: nat, input: seq<Byte>, tokens: seq<seq<Byte>>, rest: seq<Byte>)
    requires Collected(k, m, c, input, tokens, rest)
    ensures tokens <= Tokens(k, input)
    ensures NextToken(k, rest) == None ==> tokens == Tokens(k, input)
    ensures !Roomy(k, rest, m) ==> !Roomy(k, input, m)
    ensures !Doomed(k, rest, c) ==> !Doomed(k, input, c)
  {
    hide NextToken, Roomy, Doomed;
  }

  /** Scan until there are no more tokens. A reader that pauses for at most 100 empty reads
      and whose tokens, with their delimiters, are shorter than the buffer's limit gives
      exactly the tokens of the whole input, whatever its chunks are. A doomed input ends in
      ErrTooLong, whatever its chunks are. */
  method ScanAll(s: Scanner) returns (tokens: seq<seq<Byte>>)
    requires s.Valid() && s.err.None?
    requires s.src.patience <= MAX_EMPTY_READS
    modifies s, s.src, s.buf
    ensures s.Valid() && s.err.Some?
    ensures s.err == Some(Ended(s.src.ending)) || s.err == Some(TooLong)
    ensures tokens <= Tokens(s.split, old(s.Rest()))
    ensures s.err.value.Ended? ==> tokens == Tokens(s.split, old(s.Rest())) && s.Rest() == []
    ensures Roomy(s.split, old(s.Rest()), s.Limit()) ==> s.err.value.Ended?
    ensures ShortTokens(s.split, old(s.Rest()), s.Limit()) && Enough(s.split, s.Limit()) ==> s.err.value.Ended?
    ensures Doomed(s.split, old(s.Rest()), s.Ceiling()) ==> s.err.value.TooLong?
  {
    hide Tokens, Roomy, Doomed, NextToken, Collected, ShortTokens, Enough, Scanner.Limit;
    ghost var input := s.Rest();
    tokens := [];
    CollectedStart(s.split, s.Limit(), s.Ceiling(), input);
    while true
      invariant s.Valid() && (s.buf == old(s.buf) || fresh(s.buf))
      invariant s.err.None? || s.err.value.Ended?
      invariant Collected(s.split, s.Limit(), s.Ceiling(), input, tokens, s.Rest())
      decreases |s.Rest()|
    {
      ghost var rest := s.Rest();
      var ok := s.Scan();
      if !ok {
        CollectedEnd(s.split, s.Limit(), s.Ceiling(), input, tokens, rest);
        break;
      }
      CollectedStep(s.split, s.Limit(), s.Ceiling(), input, tokens, rest);
      tokens := tokens + [s.token];
    }
  }
}
