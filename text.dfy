/** Bytes and C strings: the string store, the "%31s" word reader, fgetc, the
    comment skipper, isnum, strtol(..., 0) and the numerals PNUM prints. */
module Text {
  import opened Cells

  type byte = b: int | 0 <= b < 256

  const NUL: byte := 0
  const NEWLINE: byte := 10
  const MINUS: byte := 45
  const ZERO: byte := 48
  /** fgetc's EOF. */
  const EOF: int := -1
  /** Longest word the reader takes, the field width of "%31s". */
  const MAXWORD: int := 31
  /** LONG_MAX of a 64-bit long, where strtol saturates. */
  const LONG_MAX: int := 0x7fff_ffff_ffff_ffff

  /** The bytes of a literal name (every character of the names used here is ASCII). */
  function Ascii(str: string): (b: seq<byte>)
    ensures |b| == |str|
  {
    seq(|str|, i requires 0 <= i < |str| => (str[i] as int) % 256)
  }

  predicate NoNul(b: seq<byte>) {
    forall i :: 0 <= i < |b| ==> b[i] != NUL
  }

  // ---------------------------------------------------------------- C strings

  /** The C string at offset k of a byte store: the bytes before the first zero byte.
      Reading stops at the end of the store. */
  function CStr(s: seq<byte>, k: nat): (r: seq<byte>)
    ensures NoNul(r)
    ensures k <= |s| ==> k + |r| <= |s| && s[k..k + |r|] == r
    ensures k + |r| < |s| ==> s[k + |r|] == NUL
    ensures k >= |s| ==> r == []
    decreases |s| - k
  {
    if k >= |s| || s[k] == NUL then [] else [s[k]] + CStr(s, k + 1)
  }

  /** strlen at offset k. */
  function CStrLen(s: seq<byte>, k: nat): nat {
    |CStr(s, k)|
  }

  /** A store with the bytes b written from offset k on (strcpy and fscanf write this way). */
  function WriteBytes(s: seq<byte>, k: nat, b: seq<byte>): (r: seq<byte>)
    requires k + |b| <= |s|
    ensures |r| == |s| && r[k..k + |b|] == b
    ensures forall i :: 0 <= i < |s| && !(k <= i < k + |b|) ==> r[i] == s[i]
  {
    s[..k] + b + s[k + |b|..]
  }

  /** A byte run without zero bytes followed by a zero byte is the C string there. */
  lemma {:induction false} CStrAt(s: seq<byte>, k: nat, b: seq<byte>)
    requires k + |b| < |s| && NoNul(b)
    requires s[k..k + |b|] == b && s[k + |b|] == NUL
    ensures CStr(s, k) == b
    decreases |b|
  {
    if b != [] {
      assert s[k] == b[0];
      assert s[k + 1..k + 1 + |b[1..]|] == b[1..];
      CStrAt(s, k + 1, b[1..]);
    }
  }

  /** What strcpy or fscanf stores at k reads back as the C string at k. */
  lemma StoredReadsBack(s: seq<byte>, k: nat, b: seq<byte>)
    requires k + |b| < |s| && NoNul(b)
    ensures CStr(WriteBytes(s, k, b + [NUL]), k) == b
  {
    var r := WriteBytes(s, k, b + [NUL]);
    assert r[k..k + |b|] == (b + [NUL])[..|b|] == b;
    assert r[k + |b|] == (b + [NUL])[|b|];
    CStrAt(r, k, b);
  }

  /** What strcpy or fscanf stores at k is at most as long as the bytes written, even
      when they hold a zero byte of their own. */
  lemma StoredLength(s: seq<byte>, k: nat, b: seq<byte>)
    requires k + |b| < |s|
    ensures CStrLen(WriteBytes(s, k, b + [NUL]), k) <= |b|
  {
    var r := WriteBytes(s, k, b + [NUL]);
    var c := CStr(r, k);
    assert r[k + |b|] == (b + [NUL])[|b|] == NUL;
  }

  /** What strcpy or fscanf stores at k reads back as the C string of the bytes written,
      cut at their first zero byte. */
  lemma StoredCStr(s: seq<byte>, k: nat, b: seq<byte>)
    requires k + |b| < |s|
    ensures CStr(WriteBytes(s, k, b + [NUL]), k) == CStr(b, 0)
  {
    var r := WriteBytes(s, k, b + [NUL]);
    var c := CStr(b, 0);
    assert b[..|c|] == c;
    assert |c| < |b| ==> b[|c|] == NUL;
    assert r[k..k + |c|] == (b + [NUL])[..|c|] == c;
    assert r[k + |c|] == (b + [NUL])[|c|] == NUL;
    CStrAt(r, k, c);
  }

  /** The C string at k depends only on the bytes from k on. */
  lemma {:induction false} CStrSuffix(s1: seq<byte>, s2: seq<byte>, k: nat)
    requires |s1| == |s2| && k <= |s1|
    requires forall i :: k <= i < |s1| ==> s1[i] == s2[i]
    ensures CStr(s1, k) == CStr(s2, k)
    decreases |s1| - k
  {
    if k < |s1| && s1[k] != NUL {
      CStrSuffix(s1, s2, k + 1);
    }
  }

  /** A byte sequence without zero bytes is, from any offset, its own C string. */
  lemma {:induction false} NoNulCStr(b: seq<byte>, k: nat)
    requires NoNul(b) && k <= |b|
    ensures CStr(b, k) == b[k..]
    decreases |b| - k
  {
    if k < |b| {
      NoNulCStr(b, k + 1);
    }
  }

  /** The C string at k survives any change to the store that keeps its bytes and its
      terminator. */
  lemma CStrKept(s1: seq<byte>, s2: seq<byte>, k: nat)
    requires |s1| == |s2| && k + CStrLen(s2, k) < |s2|
    requires forall i :: k <= i <= k + CStrLen(s2, k) ==> s1[i] == s2[i]
    ensures CStr(s1, k) == CStr(s2, k)
  {
    var b := CStr(s2, k);
    assert s1[k..k + |b|] == s2[k..k + |b|];
    CStrAt(s1, k, b);
  }

  // ------------------------------------------------------------- the reader

  /** isspace in the C locale: space, \t, \n, \v, \f, \r. */
  predicate IsSpace(b: byte) {
    b == 32 || 9 <= b <= 13
  }

  /** The first position at or after pos that does not hold white space. */
  function SkipSpaces(inp: seq<byte>, pos: nat): (p: nat)
    requires pos <= |inp|
    ensures pos <= p <= |inp|
    ensures forall i :: pos <= i < p ==> IsSpace(inp[i])
    ensures p < |inp| ==> !IsSpace(inp[p])
    decreases |inp| - pos
  {
    if pos < |inp| && IsSpace(inp[pos]) then SkipSpaces(inp, pos + 1) else pos
  }

  /** The end of the word that starts at p: it stops before white space, at the end of
      the input, or after MAXWORD bytes. */
  function WordEnd(inp: seq<byte>, p: nat, q: nat): (e: nat)
    requires p <= q <= |inp| && q - p <= MAXWORD
    ensures q <= e <= |inp| && e - p <= MAXWORD
    ensures forall i :: q <= i < e ==> !IsSpace(inp[i])
    ensures e == |inp| || IsSpace(inp[e]) || e - p == MAXWORD
    decreases |inp| - q
  {
    if q < |inp| && !IsSpace(inp[q]) && q - p < MAXWORD then WordEnd(inp, p, q + 1) else q
  }

  /** A word the reader took and the position just after it. */
  datatype Token = Token(word: seq<byte>, next: nat)

  /** fscanf(in, "%31s", buf): skip white space, then take up to 31 bytes that are not
      white space. None stands for the EOF return: nothing but white space was left. */
  function ScanWord(inp: seq<byte>, pos: nat): (r: Option<Token>)
    requires pos <= |inp|
    ensures r.None? <==> forall i :: pos <= i < |inp| ==> IsSpace(inp[i])
    ensures r.Some? ==>
      var w, n := r.value.word, r.value.next;
      pos + |w| <= n <= |inp| && 1 <= |w| <= MAXWORD && inp[n - |w|..n] == w
      && (forall i :: pos <= i < n - |w| ==> IsSpace(inp[i]))
      && (forall i :: 0 <= i < |w| ==> !IsSpace(w[i]))
      && (n == |inp| || IsSpace(inp[n]) || |w| == MAXWORD)
  {
    var p := SkipSpaces(inp, pos);
    if p == |inp| then None
    else
      var e := WordEnd(inp, p, p);
      assert e > p;
      Some(Token(inp[p..e], e))
  }

  /** fgetc: the next byte, or EOF at the end of the input. */
  function GetC(inp: seq<byte>, pos: nat): (c: int)
    requires pos <= |inp|
    ensures c == EOF <==> pos == |inp|
    ensures c != EOF ==> c == inp[pos]
  {
    if pos < |inp| then inp[pos] else EOF
  }

  /** The COMMENT loop `while ((c = fgetc(in)) > 0) if (c == '\n') break;`: it reads up
      to and including a newline or a zero byte, or to the end of the input. */
  function SkipLine(inp: seq<byte>, pos: nat): (p: nat)
    requires pos <= |inp|
    ensures pos <= p <= |inp|
    ensures pos < |inp| ==> pos < p
    ensures forall i :: pos <= i < p - 1 ==> inp[i] != NEWLINE && inp[i] != NUL
    ensures p < |inp| ==> inp[p - 1] == NEWLINE || inp[p - 1] == NUL
    decreases |inp| - pos
  {
    if pos == |inp| then pos
    else if inp[pos] == NEWLINE || inp[pos] == NUL then pos + 1
    else SkipLine(inp, pos + 1)
  }

  // ---------------------------------------------------- numbers: isnum, strtol

  predicate IsDigit(b: byte) {
    ZERO <= b <= ZERO + 9
  }

  /** strspn(tok + i, "0123456789") + i: the end of the run of decimal digits from i. */
  function DigitSpan(tok: seq<byte>, i: nat): (j: nat)
    requires i <= |tok|
    ensures i <= j <= |tok|
    ensures forall k :: i <= k < j ==> IsDigit(tok[k])
    ensures j < |tok| ==> !IsDigit(tok[j])
    decreases |tok| - i
  {
    if i < |tok| && IsDigit(tok[i]) then DigitSpan(tok, i + 1) else i
  }

  /** Offset of the digits: past a leading minus sign, if there is one. */
  function SignLength(tok: seq<byte>): nat {
    if |tok| > 0 && tok[0] == MINUS then 1 else 0
  }

  /** isnum: skip one leading '-', then every remaining byte is a decimal digit. */
  function IsNum(tok: seq<byte>): (r: bool)
    ensures r <==> forall i :: 0 <= i < |tok| ==> IsDigit(tok[i]) || (i == 0 && tok[i] == MINUS)
  {
    var i := SignLength(tok);
    DigitSpan(tok, i) == |tok|
  }

  /** The value of a digit byte ('0'..'9', then 'A'..'F'). */
  function DigitValue(b: byte): nat {
    if b < ZERO then 0 else if b < 65 then b - ZERO else b - 55
  }

  /** The value of digits read left to right in the given base. */
  function DigitsValue(ds: seq<byte>, base: nat): nat {
    if ds == [] then 0
    else DigitsValue(ds[..|ds| - 1], base) * base + DigitValue(ds[|ds| - 1])
  }

  /** The length of the leading run of octal digits. */
  function OctalRun(ds: seq<byte>): (n: nat)
    ensures n <= |ds|
    ensures forall i :: 0 <= i < n ==> ZERO <= ds[i] <= ZERO + 7
    ensures n < |ds| ==> !(ZERO <= ds[n] <= ZERO + 7)
  {
    if ds != [] && ZERO <= ds[0] <= ZERO + 7 then 1 + OctalRun(ds[1..]) else 0
  }

  /** The magnitude strtol with base 0 reads from digits: a leading 0 selects octal and
      conversion stops at the first byte that is not an octal digit; otherwise the
      digits are decimal. */
  function Magnitude(ds: seq<byte>): nat {
    if ds != [] && ds[0] == ZERO then DigitsValue(ds[..OctalRun(ds)], 8) else DigitsValue(ds, 10)
  }

  /** strtol's saturation of a magnitude to the range of a 64-bit long. */
  function Saturate(negative: bool, mag: nat): (v: int)
    ensures -LONG_MAX - 1 <= v <= LONG_MAX
  {
    if negative then (if mag > LONG_MAX + 1 then -LONG_MAX - 1 else -(mag as int))
    else (if mag > LONG_MAX then LONG_MAX else mag)
  }

  /** What strtol(tok, NULL, 0) returns for a token isnum accepts: the magnitude of the
      digits after the sign, negated under a minus sign, saturated to a long. */
  function StrtolValue(tok: seq<byte>): (v: int)
    requires IsNum(tok)
    ensures -LONG_MAX - 1 <= v <= LONG_MAX
  {
    Saturate(SignLength(tok) == 1, Magnitude(tok[SignLength(tok)..]))
  }

  /** The cell a numeric token becomes: strtol's long truncated to uint16_t. */
  function Literal(tok: seq<byte>): Cell
    requires IsNum(tok)
  {
    Wrap(StrtolValue(tok))
  }

  // ------------------------------------------------------ numerals for PNUM

  /** The digit byte for d: '0'..'9', then upper-case 'A'..'F' as "%X" prints them. */
  function DigitChar(d: nat): (b: byte)
    requires d < 16
    ensures DigitValue(b) == d
    ensures d < 10 ==> IsDigit(b)
  {
    if d < 10 then ZERO + d else 55 + d
  }

  /** "%u" (base 10) or "%X" (base 16) of n, or n in octal: the digits without leading zeros. */
  function Numeral(n: nat, base: nat): (r: seq<byte>)
    requires base == 8 || base == 10 || base == 16
    ensures |r| >= 1
    ensures n >= base ==> |r| >= 2
    decreases n
  {
    if n < base then [DigitChar(n)] else Numeral(n / base, base) + [DigitChar(n % base)]
  }

  /** Reading a numeral back gives the number it was printed from, and it has no
      leading zero unless it is "0". */
  lemma {:induction false} NumeralValue(n: nat, base: nat)
    requires base == 8 || base == 10 || base == 16
    ensures DigitsValue(Numeral(n, base), base) == n
    ensures Numeral(n, base)[0] == ZERO <==> n == 0
    decreases n
  {
    var r := Numeral(n, base);
    if n >= base {
      NumeralValue(n / base, base);
      assert r[..|r| - 1] == Numeral(n / base, base);
      assert r[0] == Numeral(n / base, base)[0];
    }
  }

  /** A decimal numeral is made of decimal digits only, an octal one of octal digits. */
  lemma {:induction false} NumeralDigits(n: nat, base: nat)
    requires base == 8 || base == 10
    ensures forall i :: 0 <= i < |Numeral(n, base)| ==> ZERO <= Numeral(n, base)[i] < ZERO + base
    decreases n
  {
    if n >= base {
      NumeralDigits(n / base, base);
      var r, front := Numeral(n, base), Numeral(n / base, base);
      assert r == front + [DigitChar(n % base)];
      forall i | 0 <= i < |r| ensures ZERO <= r[i] < ZERO + base {
        if i < |front| {
          assert r[i] == front[i];
        }
      }
    }
  }

  /** The decimal text of a signed number, as a token of the input would spell it. */
  function SignedDecimal(v: int): seq<byte> {
    if v < 0 then [MINUS] + Numeral(-v, 10) else Numeral(v, 10)
  }

  /** Reading the decimal text of a number within a long's range as a literal gives that
      number modulo 2^16: a decimal literal pushes the same bit pattern as the number. */
  lemma DecimalLiteral(v: int)
    requires -LONG_MAX - 1 <= v <= LONG_MAX
    ensures IsNum(SignedDecimal(v)) && Literal(SignedDecimal(v)) == Wrap(v)
  {
    var n := if v < 0 then -v else v;
    var ds := Numeral(n, 10);
    assert Magnitude(ds) == n && forall i :: 0 <= i < |ds| ==> IsDigit(ds[i]) by {
      NumeralValue(n, 10);
      NumeralDigits(n, 10);
      if n == 0 {
        assert ds == [ZERO];
        assert OctalRun(ds) == 1 && ds[..1] == ds;
        assert DigitsValue(ds, 8) == 0 by {
          assert ds[..0] == [];
        }
      }
    }
    var sign: seq<byte> := if v < 0 then [MINUS] else [];
    StrtolSigned(sign, ds);
    assert SignedDecimal(v) == sign + ds;
  }

  /** A leading zero makes strtol read octal: "010" is eight. */
  lemma LeadingZeroIsOctal()
    ensures IsNum([ZERO, ZERO + 1, ZERO]) && Literal([ZERO, ZERO + 1, ZERO]) == 8
  {
    var ds: seq<byte> := [ZERO, ZERO + 1, ZERO];
    assert OctalRun(ds) == 3 by {
      assert ds[1..][1..][1..] == [];
    }
    assert ds[..3] == ds && ds[..2] == [ZERO, ZERO + 1] && ds[..1] == [ZERO] && ds[..0] == [];
    assert DigitsValue(ds[..1], 8) == 0;
    assert DigitsValue(ds[..2], 8) == 1;
    assert DigitsValue(ds, 8) == 8;
    assert ds[SignLength(ds)..] == ds;
  }

  /** A zero in front of digits does not change their value. */
  lemma {:induction false} LeadingZeroValue(ds: seq<byte>, base: nat)
    ensures DigitsValue([ZERO] + ds, base) == DigitsValue(ds, base)
    decreases |ds|
  {
    var z := [ZERO] + ds;
    if ds == [] {
      assert z[..0] == [];
    } else {
      assert z[..|z| - 1] == [ZERO] + ds[..|ds| - 1];
      LeadingZeroValue(ds[..|ds| - 1], base);
    }
  }

  /** The octal text of any n up to LONG_MAX behind a 0, with or without a minus sign,
      is a number token, and strtol reads it back as n (or -n): its literal is n
      modulo 2^16. */
  lemma OctalLiteral(n: nat, negative: bool)
    requires n <= LONG_MAX
    ensures var tok := (if negative then [MINUS] else []) + [ZERO] + Numeral(n, 8);
      var v := if negative then -(n as int) else n;
      IsNum(tok) && StrtolValue(tok) == v && Literal(tok) == Wrap(v)
  {
    var sign: seq<byte> := if negative then [MINUS] else [];
    var ds := [ZERO] + Numeral(n, 8);
    assert Magnitude(ds) == n && forall i :: 0 <= i < |ds| ==> IsDigit(ds[i]) by {
      NumeralDigits(n, 8);
      OctalDigits(Numeral(n, 8), []);
      assert ds + [] == ds;
      NumeralValue(n, 8);
      LeadingZeroValue(Numeral(n, 8), 8);
      assert OctalRun(ds) == |ds| && ds[..|ds|] == ds;
    }
    StrtolSigned(sign, ds);
    Assoc(sign, [ZERO], Numeral(n, 8));
  }

  /** strtol reads a token with a leading 0 only up to its first 8 or 9: the digits
      from there on change nothing, and the value is the octal prefix's, saturated to a
      long. */
  lemma OctalStops(sign: seq<byte>, o: seq<byte>, rest: seq<byte>)
    requires sign == [] || sign == [MINUS]
    requires forall i :: 0 <= i < |o| ==> ZERO <= o[i] <= ZERO + 7
    requires forall i :: 0 <= i < |rest| ==> IsDigit(rest[i])
    requires rest != [] ==> rest[0] >= ZERO + 8
    ensures IsNum(sign + [ZERO] + o) && IsNum(sign + [ZERO] + o + rest)
    ensures StrtolValue(sign + [ZERO] + o + rest) == StrtolValue(sign + [ZERO] + o)
    ensures StrtolValue(sign + [ZERO] + o) == Saturate(sign != [], DigitsValue(o, 8))
  {
    var short := [ZERO] + o;
    OctalMagnitude(o, []);
    OctalMagnitude(o, rest);
    assert short + [] == short;
    StrtolSigned(sign, short);
    StrtolSigned(sign, short + rest);
    Assoc(sign, [ZERO], o);
    Assoc(sign, short, rest);
  }

  /** Behind a 0, the octal digits o followed by digits that start with 8 or 9 have the
      magnitude of o read in octal. */
  lemma OctalMagnitude(o: seq<byte>, rest: seq<byte>)
    requires forall i :: 0 <= i < |o| ==> ZERO <= o[i] <= ZERO + 7
    requires forall i :: 0 <= i < |rest| ==> IsDigit(rest[i])
    requires rest != [] ==> rest[0] >= ZERO + 8
    ensures var ds := [ZERO] + o + rest;
      Magnitude(ds) == DigitsValue(o, 8) && forall i :: 0 <= i < |ds| ==> IsDigit(ds[i])
  {
    var short := [ZERO] + o;
    var ds := short + rest;
    OctalDigits(o, rest);
    LeadingZeroValue(o, 8);
    if rest != [] {
      assert ds[|short|] == rest[0];
    }
    assert OctalRun(ds) == |short| && ds[..|short|] == short;
  }

  /** Concatenation of byte sequences is associative. */
  lemma Assoc(a: seq<byte>, b: seq<byte>, c: seq<byte>)
    ensures a + b + c == a + (b + c)
  {
  }

  /** A 0 followed by octal digits o and then decimal digits: every byte is a decimal
      digit, and the bytes up to the end of o are octal digits. */
  lemma OctalDigits(o: seq<byte>, rest: seq<byte>)
    requires forall i :: 0 <= i < |o| ==> ZERO <= o[i] <= ZERO + 7
    requires forall i :: 0 <= i < |rest| ==> IsDigit(rest[i])
    ensures var ds := [ZERO] + o + rest;
      (forall i :: 0 <= i < |ds| ==> IsDigit(ds[i]))
      && (forall i :: 0 <= i <= |o| ==> ZERO <= ds[i] <= ZERO + 7)
  {
    var ds := [ZERO] + o + rest;
    forall i | 0 <= i < |ds| ensures IsDigit(ds[i]) && (i <= |o| ==> ZERO <= ds[i] <= ZERO + 7) {
      if 0 < i <= |o| {
        assert ds[i] == o[i - 1];
      } else if i > |o| {
        assert ds[i] == rest[i - 1 - |o|];
      }
    }
  }

  /** Decimal digits behind an optional minus sign make a number token, and strtol
      reads it as their magnitude, negated under the sign and saturated. */
  lemma StrtolSigned(sign: seq<byte>, ds: seq<byte>)
    requires sign == [] || sign == [MINUS]
    requires forall i :: 0 <= i < |ds| ==> IsDigit(ds[i])
    ensures IsNum(sign + ds) && StrtolValue(sign + ds) == Saturate(sign != [], Magnitude(ds))
  {
    var tok := sign + ds;
    forall i | 0 <= i < |tok| ensures IsDigit(tok[i]) || (i == 0 && tok[i] == MINUS) {
      if i >= |sign| {
        assert tok[i] == ds[i - |sign|];
      }
    }
    if sign == [] {
      assert tok == ds;
    } else {
      assert tok[1..] == ds;
    }
  }

  /** A decimal token beyond the range of a long saturates: strtol gives LONG_MAX, and
      LONG_MIN for the token with a minus sign, so the literals are 0xFFFF and 0. */
  lemma DecimalSaturates(n: nat)
    requires n > LONG_MAX
    ensures IsNum(Numeral(n, 10)) && StrtolValue(Numeral(n, 10)) == LONG_MAX
      && Literal(Numeral(n, 10)) == 0xFFFF
    ensures IsNum([MINUS] + Numeral(n, 10)) && StrtolValue([MINUS] + Numeral(n, 10)) == -LONG_MAX - 1
      && Literal([MINUS] + Numeral(n, 10)) == 0
  {
    var ds := Numeral(n, 10);
    NumeralDigits(n, 10);
    assert Magnitude(ds) == n by {
      NumeralValue(n, 10);
    }
    StrtolSigned([], ds);
    StrtolSigned([MINUS], ds);
    assert [] + ds == ds;
    WrapLongLimits();
  }

  /** LONG_MAX truncates to 0xFFFF and LONG_MIN to 0. */
  lemma WrapLongLimits()
    ensures Wrap(LONG_MAX) == 0xFFFF && Wrap(-LONG_MAX - 1) == 0
  {
    assert LONG_MAX == 0x7fff_ffff_ffff * 0x10000 + 0xFFFF;
    assert -LONG_MAX - 1 == -0x8000_0000_0000 * 0x10000;
  }
}
