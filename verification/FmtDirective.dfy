/**
 The width and precision of a Printf directive, fmt/print.go: whatever the format and the
 arguments are, they are small numbers that are not negative, as fmtInteger relies on.
 */
module FmtDirective {
  import opened Bytes
  import opened Words
  import opened Grammar
  import opened Numerals
  import opened FmtInteger

  const MAX: int := 1000000
  const DOT: Byte := 0x2E

  predicate TooLarge(x: int) { x > MAX || x < -MAX }

  predicate AllDigits(s: seq<Byte>) { forall i :: 0 <= i < |s| ==> IsDigit(s[i]) }

  lemma {:induction false} DenotesMore(s: seq<Byte>, c: Byte)
    requires IsDigit(c)
    ensures Denotes(s + [c], 10) == Denotes(s, 10) * 10 + (c as int - 0x30)
  {
    assert (s + [c])[..|s|] == s;
  }

  /** What parsenum finds from start on: the number the digits denote, or none because there is no
      digit or there are crazy many. */
  ghost predicate NumberAt(s: seq<Byte>, start: nat, end: nat, num: nat, isnum: bool, newi: nat)
    requires end <= |s|
  {
    && num <= 10 * MAX + 9 && newi <= end
    && (isnum ==> start < newi && AllDigits(s[start..newi]) && num == Denotes(s[start..newi], 10))
    && (isnum && newi < end ==> !IsDigit(s[newi]))
    && (!isnum ==> num == 0)
    && (!isnum && start < end ==>
          || (newi == start && !IsDigit(s[start]))
          || (newi == end && exists k :: start < k < end && AllDigits(s[start..k + 1]) && Denotes(s[start..k], 10) > MAX))
  }

  /** parsenum. */
  method ParseNum(s: seq<Byte>, start: nat, end: nat) returns (num: nat, isnum: bool, newi: nat)
    requires end <= |s|
    ensures NumberAt(s, start, end, num, isnum, newi)
  {
    num, isnum := 0, false;
    if start >= end {
      return 0, false, end;
    }
    newi := start;
    ghost var read: seq<Byte> := [];
    assert Denotes([], 10) == 0;
    hide Denotes;
    while newi < end && IsDigit(s[newi])
      invariant start <= newi <= end && read == s[start..newi]
      invariant AllDigits(read) && num == Denotes(read, 10) <= 10 * MAX + 9
      invariant isnum <==> newi > start
    {
      if TooLarge(num) {
        assert s[start..newi + 1] == read + [s[newi]];
        return 0, false, end;
      }
      DenotesMore(read, s[newi]);
      num := num * 10 + (s[newi] - 0x30);
      isnum := true;
      read := read + [s[newi]];
      newi := newi + 1;
    }
  }

  /** An operand that a * takes. */
  datatype Arg = Missing | NotInteger | Integer(v: int)

  /** intFromArg. */
  function IntFromArg(a: Arg): (r: (int, bool))
    ensures !TooLarge(r.0) && (!r.1 ==> r.0 == 0)
    ensures r.1 <==> a.Integer? && !TooLarge(a.v)
    ensures r.1 ==> r.0 == a.v
  {
    if a.Integer? && !TooLarge(a.v) then (a.v, true) else (0, false)
  }

  /** A width or a precision: given or not, and its value. */
  datatype Amount = Amount(given: bool, n: nat)

  predicate Sane(a: Amount) { a.n <= 10 * MAX + 9 && (!a.given ==> a.n == 0) }

  /** What the format says of the width at i0, where a * takes the operand and a negative one means
      pad on the right. */
  ghost predicate WidthAt(format: seq<Byte>, i0: nat, arg: Arg, f0: Flags, wid: Amount, f: Flags, i: nat) {
    if i0 < |format| && format[i0] == STAR then
      var (num, isInt) := IntFromArg(arg);
      && i == i0 + 1 && wid.given == isInt && wid.n == (if num < 0 then -num else num)
      && f == if num < 0 then f0.(minus := true, zero := false) else f0
    else f == f0 && NumberAt(format, i0, |format|, wid.n, wid.given, i)
  }

  method ReadWidth(format: seq<Byte>, i0: nat, arg: Arg, f0: Flags) returns (wid: Amount, f: Flags, i: nat)
    requires i0 <= |format|
    ensures Sane(wid) && i <= |format| && WidthAt(format, i0, arg, f0, wid, f, i)
  {
    f := f0;
    if i0 < |format| && format[i0] == STAR {
      var (num, isInt) := IntFromArg(arg);
      if num < 0 {
        f := f.(minus := true, zero := false);
        return Amount(isInt, -num), f, i0 + 1;
      }
      return Amount(isInt, num), f, i0 + 1;
    }
    var num, isnum, newi := ParseNum(format, i0, |format|);
    return Amount(isnum, num), f, newi;
  }

  /** What it says of the precision: none without a dot; after one, the operand of a * unless it
      is negative, or a number, 0 if it is left out. */
  ghost predicate PrecisionAt(format: seq<Byte>, i0: nat, arg: Arg, prec: Amount, i: nat) {
    if !(i0 + 1 < |format| && format[i0] == DOT) then prec == Amount(false, 0) && i == i0
    else if format[i0 + 1] == STAR then
      var (num, isInt) := IntFromArg(arg);
      i == i0 + 2 && prec == if isInt && num >= 0 then Amount(true, num) else Amount(false, 0)
    else
      && prec.given
      && (NumberAt(format, i0 + 1, |format|, prec.n, true, i) || NumberAt(format, i0 + 1, |format|, prec.n, false, i))
  }

  method ReadPrecision(format: seq<Byte>, i0: nat, arg: Arg) returns (prec: Amount, i: nat)
    requires i0 <= |format|
    ensures Sane(prec) && i <= |format| && PrecisionAt(format, i0, arg, prec, i)
  {
    if i0 + 1 < |format| && format[i0] == DOT {
      if format[i0 + 1] == STAR {
        var (num, isInt) := IntFromArg(arg);
        if num < 0 {
          return Amount(false, 0), i0 + 2;
        }
        return Amount(isInt, num), i0 + 2;
      }
      var num, isnum, newi := ParseNum(format, i0 + 1, |format|);
      if !isnum {
        num := 0;
      }
      return Amount(true, num), newi;
    }
    return Amount(false, 0), i0;
  }

  /** Read a width and a precision, then format an integer with them. */
  method FormatWith(p: Fmt, format: seq<Byte>, i0: nat, widthArg: Arg, precArg: Arg, f0: Flags,
                    u: Word, base: nat, isSigned: bool, octal: bool, upper: bool) returns (i: nat)
    requires p.Valid() && i0 <= |format| && Base(base) && (octal ==> base == 8)
    modifies p, p.data, p.intbuf
    ensures p.Valid() && i <= |format|
    ensures p.Contents() == old(p.Contents()) + Formatted(u, base, isSigned, octal, upper, p.flags, p.widPresent, p.wid, p.precPresent, p.prec)
    ensures p.wid <= 10 * MAX + 9 && p.prec <= 10 * MAX + 9
    ensures exists j: nat ::
      && WidthAt(format, i0, widthArg, f0, Amount(p.widPresent, p.wid), p.flags, j)
      && PrecisionAt(format, j, precArg, Amount(p.precPresent, p.prec), i)
  {
    hide Formatted, WidthAt, PrecisionAt;
    var wid, f, j := ReadWidth(format, i0, widthArg, f0);
    var prec;
    prec, i := ReadPrecision(format, j, precArg);
    p.flags := f;
    p.widPresent, p.wid := wid.given, wid.n;
    p.precPresent, p.prec := prec.given, prec.n;
    p.FormatInteger(u, base, isSigned, octal, upper);
  }
}
