/**
 * The few Ruby string and integer primitives the stamp code leans on,
 * written out so that their edge cases are part of the model:
 * `String#to_i`, `nil.to_i`, `String#[start, len]`, `String#split(':')`,
 * `Integer#to_s` and `Integer#to_s(36)`.
 */
module RubyText {
  import opened Wrappers

  predicate IsDigit(c: char) { '0' <= c <= '9' }

  predicate AllDigits(s: string) { forall i :: 0 <= i < |s| ==> IsDigit(s[i]) }

  /** The characters Ruby's integer parser skips before a number (C `isspace`). */
  predicate IsSpace(c: char) { c == ' ' || 9 <= c as int <= 13 }

  function DigitValue(c: char): nat
    requires IsDigit(c)
  {
    c as int - '0' as int
  }

  function DigitChar(n: nat): (c: char)
    requires n < 10
    ensures IsDigit(c) && DigitValue(c) == n
  {
    (n + '0' as int) as char
  }

  /** The value of a string of decimal digits, most significant first. */
  function NatValue(ds: string): nat
    requires AllDigits(ds)
  {
    if ds == [] then 0 else 10 * NatValue(ds[..|ds| - 1]) + DigitValue(ds[|ds| - 1])
  }

  /**
   * The digits of the longest numeral at the front of `s`; an underscore is
   * accepted only between two digits and is dropped.
   */
  function DigitRun(s: string): (r: string)
    ensures AllDigits(r) && |r| <= |s|
  {
    if |s| == 0 || !IsDigit(s[0]) then []
    else if |s| >= 3 && s[1] == '_' && IsDigit(s[2]) then [s[0]] + DigitRun(s[2..])
    else [s[0]] + DigitRun(s[1..])
  }

  /**
   * Ruby's `String#to_i` (base 10): leading white space, an optional sign,
   * an optional `0d` prefix, then the numeral at the front; text that is not
   * a numeral gives 0, never an error.
   */
  function ToI(s: string): int
  {
    if |s| > 0 && IsSpace(s[0]) then ToI(s[1..]) else SignedToI(s)
  }

  /** `to_i` once the leading white space is gone: an optional sign, then the unsigned part. */
  function SignedToI(t: string): int
  {
    var n := UnsignedToI(DropSign(t));
    if |t| > 0 && t[0] == '-' then -(n as int) else n
  }

  /** The text after an optional leading `-` or `+`. */
  function DropSign(t: string): (u: string)
    ensures |u| <= |t|
  {
    if |t| > 0 && (t[0] == '-' || t[0] == '+') then t[1..] else t
  }

  /** The unsigned part of `to_i`: an optional `0d` radix prefix, then the numeral. */
  function UnsignedToI(u: string): nat
  {
    NatValue(DigitRun(DropRadixPrefix(u)))
  }

  /** Ruby accepts an explicit decimal radix prefix `0d` (or `0D`) before the digits. */
  function DropRadixPrefix(u: string): (v: string)
    ensures |v| <= |u|
    ensures AllDigits(u) ==> v == u
  {
    if |u| >= 2 && u[0] == '0' && (u[1] == 'd' || u[1] == 'D') then u[2..] else u
  }

  /** `to_i` on a value that may be `nil`: `nil.to_i` is 0. */
  function ToIOpt(s: Option<string>): int
  {
    match s
    case None => 0
    case Some(t) => ToI(t)
  }

  /**
   * Ruby's `s[start, len]` for a non-negative start: `nil` when the start
   * lies past the end or the length is negative, otherwise the at most
   * `len` characters from `start` on.
   */
  function Slice(s: string, start: nat, len: int): (r: Option<string>)
    ensures start > |s| || len < 0 ==> r == None
    ensures start <= |s| && len >= 0 ==> r.Some?
    ensures r.Some? ==> |r.value| == (if start + len <= |s| then len else |s| - start)
    ensures r.Some? ==> forall i :: 0 <= i < |r.value| ==> r.value[i] == s[start + i]
  {
    if start > |s| || len < 0 then None
    else Some(s[start..if start + len <= |s| then start + len else |s|])
  }

  // ---- Integer#to_s and Integer#to_s(36) ----

  /** The decimal numeral of a natural number, without leading zeros. */
  function NatDecimal(n: nat): (r: string)
    ensures |r| >= 1 && AllDigits(r)
    ensures r[0] == '0' ==> n == 0
  {
    if n < 10 then [DigitChar(n)] else NatDecimal(n / 10) + [DigitChar(n % 10)]
  }

  /** `Integer#to_s`: a minus sign before the numeral of a negative number. */
  function Decimal(n: int): (r: string)
    ensures |r| >= 1 && ':' !in r
  {
    if n < 0 then "-" + NatDecimal(-n) else NatDecimal(n)
  }

  predicate IsBase36Digit(c: char) { '0' <= c <= '9' || 'a' <= c <= 'z' }

  /** The base-36 digit for `d`: `0`-`9`, then `a`-`z`. */
  function Base36Digit(d: nat): (c: char)
    requires d < 36
    ensures IsBase36Digit(c)
  {
    if d < 10 then (d + '0' as int) as char else (d - 10 + 'a' as int) as char
  }

  /** `Integer#to_s(36)` for a non-negative counter: lower-case base-36 digits. */
  function Base36(n: nat): (r: string)
    ensures |r| >= 1
    ensures forall i :: 0 <= i < |r| ==> IsBase36Digit(r[i])
  {
    if n < 36 then [Base36Digit(n)] else Base36(n / 36) + [Base36Digit(n % 36)]
  }

  /** Two zero-padded decimal digits, as `strftime`'s `%m`, `%d`, `%H`, ... print them. */
  function Pad2(n: nat): (r: string)
    requires n < 100
    ensures |r| == 2 && AllDigits(r)
  {
    [DigitChar(n / 10), DigitChar(n % 10)]
  }

  // ---- String#split(':') ----

  function FirstColon(s: string): (i: nat)
    requires ':' in s
    ensures i < |s| && s[i] == ':' && ':' !in s[..i]
  {
    if s[0] == ':' then 0 else 1 + FirstColon(s[1..])
  }

  /** Every field between colons, empty ones included. */
  function SplitAll(s: string): (r: seq<string>)
    ensures |r| >= 1
    decreases |s|
  {
    if ':' !in s then [s]
    else
      var i := FirstColon(s);
      [s[..i]] + SplitAll(s[i + 1..])
  }

  function DropTrailingEmpty(fields: seq<string>): (r: seq<string>)
    ensures |r| <= |fields| && r == fields[..|r|]
    ensures |r| > 0 ==> r[|r| - 1] != ""
  {
    if |fields| > 0 && fields[|fields| - 1] == "" then DropTrailingEmpty(fields[..|fields| - 1])
    else fields
  }

  /** Ruby's `s.split(':')`: the fields between colons, trailing empty fields removed. */
  function Split(s: string): seq<string>
  {
    DropTrailingEmpty(SplitAll(s))
  }

  /** The text of fields joined by colons (the inverse of `SplitAll`). */
  function Join(fields: seq<string>): string
    requires |fields| >= 1
  {
    if |fields| == 1 then fields[0] else fields[0] + ":" + Join(fields[1..])
  }

  /** The `i`-th element of a split result, `nil` when the split gave fewer. */
  function Field(fields: seq<string>, i: nat): (r: Option<string>)
    ensures r.Some? <==> i < |fields|
  {
    if i < |fields| then Some(fields[i]) else None
  }

  // ---- Lemmas ----

  lemma {:induction false} DigitRunOfDigits(s: string)
    requires AllDigits(s)
    ensures DigitRun(s) == s
  {
    if |s| > 0 {
      DigitRunOfDigits(s[1..]);
    }
  }

  /** `to_i` reads a plain string of digits as its decimal value. */
  lemma ToIOfDigits(s: string)
    requires AllDigits(s)
    ensures ToI(s) == NatValue(s)
  {
    DigitRunOfDigits(s);
  }

  /**
   * Text that does not start with white space, a sign or a digit reads as 0
   * (so does the empty string); a leading `-` before such text gives 0 too.
   */
  lemma {:induction false} ToINonNumeric(s: string)
    requires |s| == 0 || (!IsSpace(s[0]) && !IsDigit(s[0]) && s[0] != '+')
    requires |s| > 0 && s[0] == '-' ==> |s| == 1 || !IsDigit(s[1])
    ensures ToI(s) == 0
  {
    assert DigitRun(DropRadixPrefix(DropSign(s))) == [];
  }

  /** A numeral is zero exactly when every digit is `0`. */
  lemma {:induction false} NatValueZero(ds: string)
    requires AllDigits(ds)
    ensures NatValue(ds) == 0 <==> forall i :: 0 <= i < |ds| ==> ds[i] == '0'
  {
    if ds != [] {
      var init := ds[..|ds| - 1];
      NatValueZero(init);
      assert forall i :: 0 <= i < |init| ==> init[i] == ds[i];
    }
  }

  lemma {:induction false} NatValueOfDecimal(n: nat)
    ensures NatValue(NatDecimal(n)) == n
  {
    if n >= 10 {
      NatValueOfDecimal(n / 10);
      var r := NatDecimal(n);
      assert r[..|r| - 1] == NatDecimal(n / 10);
    }
  }

  /** `to_i` inverts `to_s`: the bits field of a minted stamp reads back as the bits. */
  lemma DecimalRoundTrip(n: int)
    ensures ToI(Decimal(n)) == n
  {
    var m: nat := if n < 0 then -n else n;
    NatValueOfDecimal(m);
    DigitRunOfDigits(NatDecimal(m));
    if n < 0 {
      var t := Decimal(n);
      assert t[1..] == NatDecimal(m);
    } else {
      ToIOfDigits(NatDecimal(m));
    }
  }

  lemma {:induction false} NatValueBound(ds: string)
    requires AllDigits(ds) && |ds| <= 2
    ensures NatValue(ds) <= (if |ds| == 0 then 0 else if |ds| == 1 then 9 else 99)
  {
    if ds != [] {
      NatValueBound(ds[..|ds| - 1]);
    }
  }

  /** `to_i` of at most two characters lies in -9..99. */
  lemma {:induction false} ShortToIBound(s: string)
    requires |s| <= 2
    ensures -9 <= ToI(s) <= 99
  {
    if |s| > 0 && IsSpace(s[0]) {
      ShortToIBound(s[1..]);
    } else if |s| > 0 && (s[0] == '-' || s[0] == '+') {
      NatValueBound(DigitRun(DropRadixPrefix(s[1..])));
    } else {
      NatValueBound(DigitRun(DropRadixPrefix(s)));
    }
  }

  /** `to_i` inverts two-digit zero padding. */
  lemma Pad2RoundTrip(n: nat)
    requires n < 100
    ensures ToI(Pad2(n)) == n
  {
    var p := Pad2(n);
    ToIOfDigits(p);
    assert p[..1] == [DigitChar(n / 10)];
    assert p[..1][..0] == [];
    assert NatValue(p[..1]) == n / 10;
  }

  lemma FirstColonOfJoin(f: string, rest: string)
    requires ':' !in f
    ensures ':' in f + ":" + rest && FirstColon(f + ":" + rest) == |f|
  {
    var s := f + ":" + rest;
    assert s[|f|] == ':';
    assert s[..|f|] == f;
  }

  /** Joining one more field appends a colon and that field. */
  lemma {:induction false} JoinSnoc(fields: seq<string>, f: string)
    requires |fields| >= 1
    ensures Join(fields + [f]) == Join(fields) + ":" + f
  {
    if |fields| > 1 {
      assert (fields + [f])[1..] == fields[1..] + [f];
      JoinSnoc(fields[1..], f);
    } else {
      assert fields + [f] == [fields[0], f];
    }
  }

  /** Dropping trailing empty fields never reaches a non-empty first field. */
  lemma {:induction false} DropTrailingEmptyKeepsFirst(fields: seq<string>)
    requires |fields| >= 1 && fields[0] != ""
    ensures |DropTrailingEmpty(fields)| >= 1 && DropTrailingEmpty(fields)[0] == fields[0]
  {
    if fields[|fields| - 1] == "" {
      DropTrailingEmptyKeepsFirst(fields[..|fields| - 1]);
    }
  }

  /** `split(':')` of a text with a non-empty field before its first colon starts with that field. */
  lemma SplitFirstField(f: string, rest: string)
    requires f != "" && ':' !in f
    ensures |Split(f + ":" + rest)| >= 1 && Split(f + ":" + rest)[0] == f
  {
    var s := f + ":" + rest;
    FirstColonOfJoin(f, rest);
    assert s[..|f|] == f;
    assert SplitAll(s)[0] == f;
    DropTrailingEmptyKeepsFirst(SplitAll(s));
  }

  /** Splitting the colon-joined text of colon-free fields gives those fields back. */
  lemma {:induction false} SplitAllJoin(fields: seq<string>)
    requires |fields| >= 1
    requires forall i :: 0 <= i < |fields| ==> ':' !in fields[i]
    ensures SplitAll(Join(fields)) == fields
  {
    if |fields| > 1 {
      var f, tail := fields[0], fields[1..];
      var rest := Join(tail);
      var s := f + ":" + rest;
      assert Join(fields) == s;
      FirstColonOfJoin(f, rest);
      assert s[..|f|] == f;
      assert s[|f| + 1..] == rest;
      assert SplitAll(s) == [f] + SplitAll(rest);
      forall i | 0 <= i < |tail|
        ensures ':' !in tail[i]
      {
        assert tail[i] == fields[i + 1];
      }
      SplitAllJoin(tail);
      assert fields == [f] + tail;
    }
  }

  /** `split(':')` gives back colon-free fields whose last one is not empty. */
  lemma SplitJoin(fields: seq<string>)
    requires |fields| >= 1 && fields[|fields| - 1] != ""
    requires forall i :: 0 <= i < |fields| ==> ':' !in fields[i]
    ensures Split(Join(fields)) == fields
  {
    SplitAllJoin(fields);
    assert DropTrailingEmpty(fields) == fields;
  }
}
