/** Printing addresses as hexadecimal text and parsing them back. */
module HexText {
  import opened Numerals
  import opened Address
  import opened Options

  //// Characters

  predicate IsDigit(c: char) { '0' <= c <= '9' }

  predicate IsLower(c: char) { 'a' <= c <= 'z' }

  predicate IsUpper(c: char) { 'A' <= c <= 'Z' }

  predicate IsAlnum(c: char) { IsDigit(c) || IsLower(c) || IsUpper(c) }

  predicate IsHex(c: char) { IsDigit(c) || 'a' <= c <= 'f' || 'A' <= c <= 'F' }

  /** What one character adds to the accumulator; letters past 'f' are not refused. */
  function CharValue(c: char): nat
    requires IsAlnum(c)
  {
    if IsDigit(c) then c as int - '0' as int
    else if IsLower(c) then c as int - 'a' as int + 10
    else c as int - 'A' as int + 10
  }

  function HexChar(d: nat): char
    requires d < 16
  {
    if d < 10 then '0' + d as char else 'W' + d as char
  }

  function LowerChar(c: char): char {
    if IsUpper(c) then (c as int - 'A' as int + 'a' as int) as char else c
  }

  function Lower(s: string): (r: string)
    ensures |r| == |s|
  {
    seq(|s|, i requires 0 <= i < |s| => LowerChar(s[i]))
  }

  /** s without its trailing '0' characters. */
  function Trim(s: string): (r: string)
    ensures r <= s && (r != [] ==> r[|r| - 1] != '0')
    ensures forall i :: |r| <= i < |s| ==> s[i] == '0'
  {
    if s != [] && s[|s| - 1] == '0' then Trim(s[..|s| - 1]) else s
  }

  lemma {:induction false} TrimIs(s: string, r: string)
    requires r <= s && (r != [] ==> r[|r| - 1] != '0')
    requires forall i :: |r| <= i < |s| ==> s[i] == '0'
    ensures Trim(s) == r
  {
    if |r| < |s| {
      TrimIs(s[..|s| - 1], r);
    } else {
      assert r == s;
    }
  }

  //// Printing

  function Print(a: Addr): (s: string)
    ensures |s| == 2 * |a|
  {
    seq(2 * |a|, i requires 0 <= i < 2 * |a| => HexChar(Nibbles(a)[i]))
  }

  function ToStr(a: Addr): string {
    Trim(Print(a))
  }

  method ToPrintable(hex: array<nat>, printable: array<char>)
    requires printable.Length == hex.Length + 1
    requires Digits(16, hex[..])
    modifies printable
    ensures forall j :: 0 <= j < hex.Length ==> printable[j] == HexChar(hex[j])
    ensures printable[hex.Length] == '\0'
  {
    var i := 0;
    while i < hex.Length
      invariant 0 <= i <= hex.Length
      invariant forall j :: 0 <= j < i ==> printable[j] == HexChar(hex[j])
    {
      var c := hex[i];
      assert hex[..][i] < 16;
      printable[i] := if c < 10 then '0' + c as char else 'W' + c as char;
      i := i + 1;
    }
    printable[i] := '\0';
  }

  /** The text is what precedes the terminator; zeros at the end are overwritten by it. */
  method AddressToStr(a: Addr, out: array<char>) returns (s: string)
    requires out.Length == 2 * |a| + 1
    modifies out
    ensures s == ToStr(a)
    ensures |s| < out.Length && out[..|s|] == s && out[|s|] == '\0'
  {
    var hex := new nat[2 * |a|];
    ghost var p := Print(a);
    ToNibbles(a, hex);
    ToPrintable(hex, out);
    assert forall j :: 0 <= j < |p| ==> out[j] == p[j] by {
      assert forall j :: 0 <= j < |p| ==> hex[j] == hex[..][j];
    }
    var i := 2 * |a| - 1;
    while i >= 0 && out[i] == '0'
      invariant -1 <= i < |p|
      invariant forall j :: 0 <= j <= i ==> out[j] == p[j]
      invariant forall j :: i < j < |p| ==> p[j] == '0'
      invariant out[i + 1] == '\0'
    {
      out[i] := '\0';
      i := i - 1;
    }
    s := out[..i + 1];
    assert s == p[..i + 1];
    TrimIs(p, s);
  }

  //// Parsing

  /** The value at position k of the text; positions past the end count as 0. */
  function DigitAt(s: string, k: nat): nat
    requires k < |s| ==> IsAlnum(s[k])
  {
    if k < |s| then CharValue(s[k]) else 0
  }

  function Cut(s: string, m: nat): (r: string)
    ensures r <= s && |r| <= m && (|s| <= m ==> r == s)
  {
    if |s| <= m then s else s[..m]
  }

  ghost predicate Parsable(s: string, n: nat) {
    forall i :: 0 <= i < |s| && i < 2 * n ==> IsAlnum(s[i])
  }

  function ByteAt(s: string, j: nat): byte
    requires forall i :: 0 <= i < |s| && i < 2 * j + 2 ==> IsAlnum(s[i])
  {
    (DigitAt(s, 2 * j) * 16 % 256 + DigitAt(s, 2 * j + 1)) % 256
  }

  function FromHex(s: string, n: nat): (a: Addr)
    requires Parsable(s, n)
    ensures |a| == n
  {
    seq(n, j requires 0 <= j < n => ByteAt(s, j))
  }

  lemma HalfStep(i: nat)
    ensures if i % 2 == 0 then (i + 1) / 2 == i / 2 && 2 * (i / 2) == i && (i + 1) % 2 == 1
            else (i + 1) / 2 == i / 2 + 1 && 2 * (i / 2) + 1 == i && (i + 1) % 2 == 0
  {
  }

  /** Parses at most 2n characters of s into n bytes; None when a character is refused. */
  method ParseAddress(s: string, n: nat) returns (r: Option<Addr>)
    requires '\0' !in s
    ensures r.Some? <==> Parsable(s, n)
    ensures r.Some? ==> r.value == FromHex(s, n)
  {
    var bytes := new byte[n](_ => 0);
    var ac: byte := 0;
    var i := 0;
    while i < |s| && i < 2 * n
      invariant 0 <= i <= |s| && i <= 2 * n
      invariant forall k :: 0 <= k < i ==> IsAlnum(s[k])
      invariant forall j :: 0 <= j < i / 2 ==> bytes[j] == ByteAt(s, j)
      invariant forall j :: i / 2 <= j < n ==> bytes[j] == 0
      invariant ac == if i % 2 == 0 then 0 else DigitAt(s, i - 1) * 16 % 256
    {
      var c := s[i];
      if !IsAlnum(c) {
        return None;
      }
      HalfStep(i);
      ac := (ac + CharValue(c)) % 256;
      if i % 2 == 1 {
        bytes[i / 2] := ac;
        assert ac == ByteAt(s, i / 2);
        ac := 0;
      } else {
        ac := ac * 16 % 256;
      }
      i := i + 1;
    }
    assert i == |s| || i == 2 * n;
    HalfStep(i);
    if i % 2 == 1 {
      bytes[i / 2] := ac;
      assert ac == ByteAt(s, i / 2);
    }
    forall j | 0 <= j < n ensures bytes[j] == ByteAt(s, j) {
    }
    assert bytes[..] == FromHex(s, n);
    return Some(bytes[..]);
  }

  /** A text is accepted when the characters read are digits or letters of either case, any letter. */
  lemma ParsableIff(s: string, n: nat)
    ensures Parsable(s, n) <==>
              forall i :: 0 <= i < |s| && i < 2 * n ==>
                '0' <= s[i] <= '9' || 'a' <= s[i] <= 'z' || 'A' <= s[i] <= 'Z'
  {
  }

  /** Letters past f count on from 15, and the byte keeps the low eight bits: gz reads as 23. */
  lemma OddLettersCountOn(s: string)
    requires s == "gz"
    ensures Parsable(s, 1) && FromHex(s, 1) == [0x23]
  {
    assert FromHex(s, 1)[0] == ByteAt(s, 0) == (16 * 16 % 256 + 35) % 256;
  }

  //// Round trips

  lemma HexCharValue(d: nat)
    requires d < 16
    ensures IsHex(HexChar(d)) && CharValue(HexChar(d)) == d
    ensures HexChar(d) == '0' <==> d == 0
  {
  }

  lemma DigitAtTrimmed(a: Addr, k: nat)
    requires k < 2 * |a|
    ensures k < |ToStr(a)| ==> IsAlnum(ToStr(a)[k])
    ensures DigitAt(ToStr(a), k) == Nibbles(a)[k]
  {
    var s := ToStr(a);
    HexCharValue(Nibbles(a)[k]);
    if k < |s| {
      assert s[k] == Print(a)[k];
    } else {
      assert Print(a)[k] == '0';
    }
  }

  lemma PairOfNibbles(hi: nat, lo: nat)
    requires hi < 16 && lo < 16
    ensures (hi * 16 % 256 + lo) % 256 == 16 * hi + lo < 256
    ensures (16 * hi + lo) / 16 == hi && (16 * hi + lo) % 16 == lo
  {
  }

  lemma ByteRegained(a: Addr, j: nat)
    requires j < |a| && Parsable(ToStr(a), |a|)
    ensures ByteAt(ToStr(a), j) == a[j]
  {
    var hi, lo := a[j] / 16, a[j] % 16;
    DigitAtTrimmed(a, 2 * j);
    DigitAtTrimmed(a, 2 * j + 1);
    assert Nibbles(a)[2 * j] == hi && Nibbles(a)[2 * j + 1] == lo;
    PairOfNibbles(hi, lo);
  }

  /** Parsing what was printed gives the address back. */
  lemma ParsePrinted(a: Addr)
    ensures Parsable(ToStr(a), |a|) && FromHex(ToStr(a), |a|) == a
  {
    forall k | 0 <= k < |ToStr(a)| ensures IsAlnum(ToStr(a)[k]) {
      DigitAtTrimmed(a, k);
    }
    forall j | 0 <= j < |a| ensures FromHex(ToStr(a), |a|)[j] == a[j] {
      ByteRegained(a, j);
    }
  }

  lemma HexValueRoundTrip(c: char)
    requires IsHex(c)
    ensures IsAlnum(c) && CharValue(c) < 16 && HexChar(CharValue(c)) == LowerChar(c)
    ensures LowerChar(c) == '0' <==> c == '0'
  {
  }

  ghost predicate AllHex(s: string) {
    forall i :: 0 <= i < |s| ==> IsHex(s[i])
  }

  lemma HexDigits(s: string, n: nat)
    requires AllHex(Cut(s, 2 * n))
    ensures Parsable(s, n)
    ensures forall k: nat :: k < 2 * n ==> (k < |s| ==> IsAlnum(s[k])) && DigitAt(s, k) < 16
  {
    forall k: nat | k < 2 * n && k < |s| ensures IsAlnum(s[k]) && CharValue(s[k]) < 16 {
      assert s[k] == Cut(s, 2 * n)[k];
      HexValueRoundTrip(s[k]);
    }
  }

  /** The digits parsed are the nibbles of the result. */
  lemma NibbleParsed(s: string, n: nat, j: nat)
    requires AllHex(Cut(s, 2 * n)) && j < n && Parsable(s, n)
    ensures Nibbles(FromHex(s, n))[2 * j] == DigitAt(s, 2 * j)
    ensures Nibbles(FromHex(s, n))[2 * j + 1] == DigitAt(s, 2 * j + 1)
  {
    var a, hi, lo := FromHex(s, n), DigitAt(s, 2 * j), DigitAt(s, 2 * j + 1);
    HexDigits(s, n);
    PairOfNibbles(hi, lo);
    assert a[j] == ByteAt(s, j) == 16 * hi + lo;
    assert Nibbles(a)[2 * j] == a[j] / 16 && Nibbles(a)[2 * j + 1] == a[j] % 16;
  }

  lemma PrintParsedAt(s: string, n: nat, k: nat)
    requires AllHex(Cut(s, 2 * n)) && k < 2 * n && Parsable(s, n)
    ensures Print(FromHex(s, n))[k] == if k < |s| then LowerChar(s[k]) else '0'
  {
    HalfStep(k);
    NibbleParsed(s, n, k / 2);
    assert Nibbles(FromHex(s, n))[k] == DigitAt(s, k);
    if k < |s| {
      assert s[k] == Cut(s, 2 * n)[k];
      HexValueRoundTrip(s[k]);
    }
  }

  lemma TrimPadded(s: string, padded: string)
    requires |s| <= |padded|
    requires forall k :: 0 <= k < |padded| ==> padded[k] == if k < |s| then s[k] else '0'
    ensures Trim(padded) == Trim(s)
  {
    var t := Trim(s);
    assert t == padded[..|t|];
    TrimIs(padded, t);
  }

  lemma HexTextComesBack(s: string, n: nat)
    requires AllHex(Cut(s, 2 * n))
    ensures Parsable(s, n) && ToStr(FromHex(s, n)) == Trim(Lower(Cut(s, 2 * n)))
  {
    HexDigits(s, n);
    var low, p := Lower(Cut(s, 2 * n)), Print(FromHex(s, n));
    forall k | 0 <= k < 2 * n ensures p[k] == if k < |low| then low[k] else '0' {
      PrintParsedAt(s, n, k);
    }
    TrimPadded(low, p);
  }

  predicate PrintsAs(c: char) {
    IsDigit(c) || 'a' <= c <= 'f'
  }

  lemma OnlyHexPrinted(a: Addr, k: nat)
    requires k < |ToStr(a)|
    ensures PrintsAs(ToStr(a)[k])
  {
    assert ToStr(a)[k] == Print(a)[k];
    HexCharValue(Nibbles(a)[k]);
  }

  /** A letter past 'f' is not trimmed, nor does it become one that is printed. */
  lemma OddLetterStays(s: string, k: nat)
    requires k < |s| && IsAlnum(s[k]) && !IsHex(s[k])
    ensures k < |Trim(Lower(s))| && !PrintsAs(Trim(Lower(s))[k])
  {
    assert Lower(s)[k] == LowerChar(s[k]) != '0';
  }

  /** For every text the parser accepts: printing what was parsed gives the text back, lower-cased, cut
      to 2n digits and without trailing zeros, exactly when those digits are hexadecimal. Odd lengths and
      the empty text are included. */
  lemma PrintParsed(s: string, n: nat)
    requires Parsable(s, n)
    ensures ToStr(FromHex(s, n)) == Trim(Lower(Cut(s, 2 * n))) <==> AllHex(Cut(s, 2 * n))
  {
    var c := Cut(s, 2 * n);
    if AllHex(c) {
      HexTextComesBack(s, n);
    } else {
      var k :| 0 <= k < |c| && !IsHex(c[k]);
      assert c[k] == s[k];
      OddLetterStays(c, k);
      if k < |ToStr(FromHex(s, n))| {
        OnlyHexPrinted(FromHex(s, n), k);
      }
    }
  }
}
