/** EncodeBase58, DecodeBase58 and their checksummed forms, src/base58.cpp. */
module Base58 {
  import opened Bits
  import opened Radix
  import opened Wrappers

  type Byte = x: nat | x < 256

  // ---------------------------------------------------------------- capacity of the digit buffers

  /** n * 138 / 100 + 1 base-58 digits hold n bytes. */
  lemma EncodeFits(n: nat)
    ensures Pow(256, n) <= Pow(58, n * 138 / 100 + 1)
  {
    hide Pow;
    var m := n * 138 / 100 + 1;
    Anchors();
    PowPow(2, 41, m);
    PowPowPow(8, n, 7);
    CapacityAbove(58, 7, 41, 256, n, m, 8 * 7 * n, 41 * m);
  }

  /** n * 733 / 1000 + 1 bytes hold n base-58 digits. */
  lemma DecodeFits(n: nat)
    ensures Pow(58, n) <= Pow(256, n * 733 / 1000 + 1)
  {
    hide Pow;
    var m := n * 733 / 1000 + 1;
    Anchors();
    PowPow(2, 129, n);
    PowPowPow(8, m, 22);
    CapacityBelow(58, 22, 129, 256, n, m, 129 * n, 8 * 22 * m);
  }

  /** Two close powers of 2 and 58 on either side. */
  lemma Anchors()
    ensures Pow(2, 8) == 256 && Pow(58, 7) >= Pow(2, 41) && Pow(58, 22) <= Pow(2, 129)
  {
    SmallPowers();
    hide Pow;
    PowAdd(58, 7, 7);
    PowAdd(58, 14, 7);
    PowAdd(58, 21, 1);
    PowAdd(2, 8, 8);
    PowAdd(2, 16, 16);
    PowAdd(2, 32, 8);
    PowAdd(2, 40, 1);
    PowAdd(2, 41, 41);
    PowAdd(2, 82, 41);
    PowAdd(2, 123, 6);
  }

  lemma SmallPowers()
    ensures Pow(2, 1) == 2 && Pow(2, 6) == 64 && Pow(2, 8) == 256 && Pow(58, 1) == 58 && Pow(58, 7) == 2207984167552
  {
  }

  // ---------------------------------------------------------------- the digit buffers

  /** The buffer holds v in its last length digits. */
  ghost predicate Holds(buf: seq<nat>, base: nat, length: nat, v: nat) {
    && InBase(buf, base) && length <= |buf|
    && (forall p | 0 <= p < |buf| - length :: buf[p] == 0)
    && Val(buf, base) == v
  }

  /** The inner loop of both directions: multiply the buffer by the factor and add a digit. The carry ends at zero. */
  method MulAdd(buf: array<nat>, length: nat, factor: nat, base: nat, digit: nat, ghost v: nat) returns (newLength: nat)
    requires base >= 2 && Holds(buf[..], base, length, v) && factor * v + digit < Pow(base, buf.Length)
    modifies buf
    ensures Holds(buf[..], base, newLength, factor * v + digit)
  {
    hide Pow, Val, Carried;
    ghost var was := buf[..];
    var carry: nat, i := digit, 0;
    Nothing(was, factor, base, digit);
    while (carry != 0 || i < length) && i != buf.Length
      invariant 0 <= i <= buf.Length
      invariant forall p | 0 <= p < buf.Length - i :: buf[p] == was[p]
      invariant InBase(buf[..], base)
      invariant Carried(buf[buf.Length - i..], was[buf.Length - i..], factor, base, digit, carry)
      decreases buf.Length - i
    {
      var p := buf.Length - 1 - i;
      ghost var (t, t0) := (buf[p + 1..], was[p + 1..]);
      CarryOn(t, t0, factor, base, digit, carry, buf[p]);
      carry := carry + factor * buf[p];
      buf[p] := carry % base;
      assert buf[p..] == [carry % base] + t && was[p..] == [was[p]] + t0;
      carry := carry / base;
      i := i + 1;
    }
    Finished(was, buf[..], i, length, factor, base, digit, carry, v);
    assert carry == 0;
    return i;
  }

  /** The digits done so far and the carry, against the digits they replace. */
  ghost predicate Carried(t: seq<nat>, t0: seq<nat>, factor: nat, base: nat, digit: nat, carry: nat) {
    |t| == |t0| && Val(t, base) + carry * Pow(base, |t|) == factor * Val(t0, base) + digit
  }

  lemma Nothing(was: seq<nat>, factor: nat, base: nat, digit: nat)
    ensures Carried(was[|was|..], was[|was|..], factor, base, digit, digit)
  {
  }

  lemma CarryOn(t: seq<nat>, t0: seq<nat>, factor: nat, base: nat, digit: nat, carry: nat, x: nat)
    requires base >= 2 && Carried(t, t0, factor, base, digit, carry)
    ensures var n := carry + factor * x;
      n >= 0 && 0 <= n % base < base && n / base >= 0
        && Carried([n % base] + t, [x] + t0, factor, base, digit, n / base)
  {
    hide Val, Pow;
    var (n, p) := (carry + factor * x, Pow(base, |t|));
    CarryParts(carry, factor, x, base);
    Prepended(n % base, t, base);
    Prepended(x, t0, base);
    CarrySum(n, carry, factor, x, base, p, Val(t, base), Val(t0, base), digit);
  }

  lemma CarryParts(carry: nat, factor: nat, x: nat, base: nat)
    requires base >= 2
    ensures var n := carry + factor * x; n >= 0 && 0 <= n % base < base && n / base >= 0
  {
  }

  lemma Prepended(x: nat, t: seq<nat>, base: nat)
    ensures Val([x] + t, base) == x * Pow(base, |t|) + Val(t, base)
    ensures Pow(base, |[x] + t|) == base * Pow(base, |t|)
  {
    hide Val, Pow;
    ValConcat([x], t, base);
    OneDigit(x, base);
    PowNext(base, |t|);
  }

  lemma PowNext(b: nat, n: nat)
    ensures Pow(b, n + 1) == b * Pow(b, n)
  {
  }

  lemma OneDigit(x: nat, b: nat)
    ensures Val([x], b) == x
  {
  }

  lemma CarrySum(n: nat, carry: nat, factor: nat, x: nat, base: nat, p: nat, v: nat, v0: nat, digit: nat)
    requires base >= 2 && n == carry + factor * x && v + carry * p == factor * v0 + digit
    ensures n % base * p + v + n / base * (base * p) == factor * (x * p + v0) + digit
  {
  }

  /** The digits not reached were zero, or there were none and the number had room. */
  lemma Finished(was: seq<nat>, now: seq<nat>, i: nat, length: nat, factor: nat, base: nat, digit: nat,
          carry: nat, v: nat)
    requires base >= 2 && Holds(was, base, length, v) && factor * v + digit < Pow(base, |was|)
    requires |now| == |was| && i <= |was| && InBase(now, base) && (forall p | 0 <= p < |was| - i :: now[p] == was[p])
    requires Carried(now[|was| - i..], was[|was| - i..], factor, base, digit, carry)
    requires (carry == 0 && i >= length) || i == |was|
    ensures carry == 0 && Holds(now, base, i, factor * v + digit)
  {
    hide Val, Pow;
    var k := |was| - i;
    if i == |was| {
      assert now[k..] == now && was[k..] == was;
      if carry > 0 {
        MulMonotone(1, carry, Pow(base, |was|));
        assert false;
      }
    } else {
      assert was == Zeros(k) + was[k..] && now == Zeros(k) + now[k..];
      ValPadded(k, was[k..], base);
      ValPadded(k, now[k..], base);
    }
    assert 0 * Pow(base, i) == 0;
  }

  // ---------------------------------------------------------------- the alphabet

  /** n consecutive characters. */
  function Run(first: char, n: nat): string
    requires first as int + n < 256
  {
    seq(n, i requires 0 <= i < n => (first as int + i) as char)
  }

  /** The digits and letters without 0, I, O and l. */
  const ALPHABET: string := Run('1', 9) + Run('A', 8) + Run('J', 5) + Run('P', 11) + Run('a', 11) + Run('m', 14)

  lemma AlphabetAscends()
    ensures |ALPHABET| == 58 && ALPHABET[0] == '1'
    ensures forall i | 0 <= i < 57 :: ALPHABET[i] < ALPHABET[i + 1]
  {
  }

  /** strchr: the first position of the character, or the length. */
  function Find(s: string, c: char): (r: nat)
    ensures r <= |s| && (r < |s| ==> s[r] == c) && (forall j | 0 <= j < r :: s[j] != c)
  {
    if s == [] || s[0] == c then 0
    else
      var r := Find(s[1..], c);
      assert forall j | 1 <= j < r + 1 :: s[j] == s[1..][j - 1];
      1 + r
  }

  function DigitOf(c: char): (d: nat)
    ensures d <= 58
  {
    assert |ALPHABET| == 58 by { AlphabetAscends(); }
    Find(ALPHABET, c)
  }

  function CharOf(d: nat): char
    requires d < 58
  {
    assert |ALPHABET| == 58 by { AlphabetAscends(); }
    ALPHABET[d]
  }

  /** isspace of the C locale. */
  predicate IsSpace(c: char) {
    c == ' ' || '\t' <= c <= '\r'
  }

  lemma CharDigit(d: nat)
    requires d < 58
    ensures DigitOf(CharOf(d)) == d && !IsSpace(CharOf(d))
    ensures CharOf(0) == '1'
  {
  }

  lemma DigitChar(c: char)
    requires DigitOf(c) < 58
    ensures CharOf(DigitOf(c)) == c
    ensures DigitOf(c) == 0 <==> c == '1'
  {
  }

  // ---------------------------------------------------------------- what the strings mean

  ghost function Chars(d: seq<nat>): string
    requires InBase(d, 58)
  {
    seq(|d|, i requires 0 <= i < |d| => CharOf(d[i]))
  }

  ghost function Values(w: string): seq<nat> {
    seq(|w|, i requires 0 <= i < |w| => DigitOf(w[i]))
  }

  ghost predicate InAlphabet(w: string) {
    forall i | 0 <= i < |w| :: DigitOf(w[i]) < 58
  }

  /** One '1' for every leading zero byte, then the number in base 58. */
  ghost function Encoded(bytes: seq<nat>): string {
    ConvertDigits(bytes, 256, 58);
    Chars(Convert(bytes, 256, 58))
  }

  /** How many characters at the start are spaces, or are not. */
  ghost function Leading(s: string, spaces: bool): (n: nat)
    ensures n <= |s|
  {
    if s != [] && IsSpace(s[0]) == spaces then 1 + Leading(s[1..], spaces) else 0
  }

  /** Spaces, one word of the alphabet, spaces; the word is the number. */
  ghost function Decoded(psz: string): Option<seq<nat>> {
    var t := psz[Leading(psz, true)..];
    var n := Leading(t, false);
    if Leading(t[n..], true) < |t| - n || !InAlphabet(t[..n]) then None
    else Some(Convert(Values(t[..n]), 58, 256))
  }

  lemma {:induction false} LeadingIs(s: string, spaces: bool, n: nat)
    requires n <= |s| && (forall i | 0 <= i < n :: IsSpace(s[i]) == spaces) && (n < |s| ==> IsSpace(s[n]) != spaces)
    ensures Leading(s, spaces) == n
  {
    if n > 0 {
      LeadingIs(s[1..], spaces, n - 1);
    }
  }

  // ---------------------------------------------------------------- round trips

  lemma CharsValues(d: seq<nat>)
    requires InBase(d, 58)
    ensures Values(Chars(d)) == d && InAlphabet(Chars(d)) && forall i | 0 <= i < |d| :: !IsSpace(Chars(d)[i])
  {
    hide DigitOf, CharOf;
    forall i | 0 <= i < |d| ensures DigitOf(Chars(d)[i]) == d[i] && !IsSpace(Chars(d)[i]) {
      CharDigit(d[i]);
    }
  }

  lemma ValuesChars(w: string)
    requires InAlphabet(w)
    ensures InBase(Values(w), 58) && Chars(Values(w)) == w
  {
  }

  /** A string without spaces is its own word. */
  lemma NoSpaces(s: string)
    requires forall i | 0 <= i < |s| :: !IsSpace(s[i])
    ensures Decoded(s) == if InAlphabet(s) then Some(Convert(Values(s), 58, 256)) else None
  {
    hide DigitOf, Convert, InAlphabet;
    LeadingIs(s, true, 0);
    LeadingIs(s, false, |s|);
    assert s[0..] == s && s[..|s|] == s;
  }

  /** Every byte string comes back from its encoding. */
  lemma DecodeEncoded(bytes: seq<nat>)
    requires InBase(bytes, 256)
    ensures Decoded(Encoded(bytes)) == Some(bytes)
  {
    hide Convert, Chars;
    ConvertDigits(bytes, 256, 58);
    CharsValues(Convert(bytes, 256, 58));
    NoSpaces(Encoded(bytes));
    ConvertBack(bytes, 256, 58);
  }

  /** Every string without spaces that decodes comes back from what it decodes to. */
  lemma EncodeDecoded(s: string)
    requires Decoded(s).Some? && forall i | 0 <= i < |s| :: !IsSpace(s[i])
    ensures InBase(Decoded(s).value, 256) && Encoded(Decoded(s).value) == s
  {
    hide Convert, Chars;
    NoSpaces(s);
    ValuesChars(s);
    ConvertDigits(Values(s), 58, 256);
    ConvertBack(Values(s), 58, 256);
  }

  // ---------------------------------------------------------------- the checksummed form

  /** The payload followed by the first four bytes of its hash. */
  ghost function EncodedCheck(hash4: seq<nat> -> seq<nat>, payload: seq<nat>): string {
    Encoded(payload + hash4(payload))
  }

  ghost function DecodedCheck(hash4: seq<nat> -> seq<nat>, psz: string): Option<seq<nat>> {
    var r := Decoded(psz);
    if r.None? || |r.value| < 4 then None
    else
      var n := |r.value| - 4;
      if hash4(r.value[..n]) == r.value[n..] then Some(r.value[..n]) else None
  }

  ghost predicate HashOk(hash4: seq<nat> -> seq<nat>) {
    forall s: seq<nat> :: |hash4(s)| == 4 && InBase(hash4(s), 256)
  }

  /** The checked form comes back too, and a string without spaces is accepted only as the encoding of its payload. */
  lemma CheckRoundTrip(hash4: seq<nat> -> seq<nat>, payload: seq<nat>, s: string)
    requires HashOk(hash4) && InBase(payload, 256)
    ensures DecodedCheck(hash4, EncodedCheck(hash4, payload)) == Some(payload)
    ensures (forall i | 0 <= i < |s| :: !IsSpace(s[i])) && DecodedCheck(hash4, s) == Some(payload) ==>
      s == EncodedCheck(hash4, payload)
  {
    hide Decoded, Encoded;
    var all := payload + hash4(payload);
    DecodeEncoded(all);
    assert all[..|payload|] == payload && all[|payload|..] == hash4(payload);
    if (forall i | 0 <= i < |s| :: !IsSpace(s[i])) && DecodedCheck(hash4, s) == Some(payload) {
      EncodeDecoded(s);
      var v := Decoded(s).value;
      assert v == v[..|v| - 4] + v[|v| - 4..];
    }
  }

  // ---------------------------------------------------------------- the loops

  /** Room for the next digit of a number whose remaining digits all fit. */
  lemma Room(d: seq<nat>, k: nat, from: nat, base: nat, size: nat)
    requires from >= 1 && InBase(d, from) && k < |d| && Pow(from, |d|) <= Pow(base, size)
    ensures from * Val(d[..k], from) + d[k] == Val(d[..k + 1], from) < Pow(base, size)
  {
    hide Pow, Val;
    assert d[..k + 1] == d[..k] + [d[k]];
    OneMoreDigit(d[..k], d[k], from);
    assert from * Val(d[..k], from) == Val(d[..k], from) * from;
    ValBound(d[..k + 1], from);
    PowExp(from, k + 1, |d|);
  }

  lemma Fresh(n: nat, base: nat)
    requires base >= 2
    ensures Holds(Zeros(n), base, 0, 0)
  {
    ValZeros(n, base);
  }

  /** Skipping the zeros in front leaves the digits of the number. */
  method SkipZeros(buf: array<nat>, length: nat, base: nat, ghost v: nat) returns (digits: seq<nat>)
    requires base >= 2 && Holds(buf[..], base, length, v)
    ensures digits == Digits(v, base)
  {
    hide Val;
    var it := buf.Length - length;
    while it < buf.Length && buf[it] == 0
      invariant buf.Length - length <= it <= buf.Length
      invariant forall p | 0 <= p < it :: buf[p] == 0
    {
      it := it + 1;
    }
    assert buf[..][..it] == Zeros(it);
    Stripped(buf[..], base, it);
    digits := buf[it..];
  }

  method EncodeBase58(bytes: seq<Byte>) returns (str: string)
    ensures str == Encoded(bytes)
  {
    hide Pow, Val, Holds, Digits;
    var zeroes := 0;
    while zeroes < |bytes| && bytes[zeroes] == 0
      invariant 0 <= zeroes <= |bytes|
      invariant forall i | 0 <= i < zeroes :: bytes[i] == 0
    {
      zeroes := zeroes + 1;
    }
    ghost var d: seq<nat> := bytes[zeroes..];
    assert bytes[..zeroes] == Zeros(zeroes);
    Stripped(bytes, 256, zeroes);
    var size := (|bytes| - zeroes) * 138 / 100 + 1;
    EncodeFits(|d|);
    var b58 := new nat[size](i => 0);
    assert b58[..] == Zeros(size);
    Fresh(size, 58);
    var length := 0;
    Empty(256);
    for i := 0 to |bytes| - zeroes
      invariant Holds(b58[..], 58, length, Val(d[..i], 256))
    {
      Room(d, i, 256, 58, size);
      length := MulAdd(b58, length, 256, 58, bytes[zeroes + i], Val(d[..i], 256));
    }
    assert d[..|d|] == d;
    var digits := SkipZeros(b58, length, 58, Val(d, 256));
    ConvertDigits(bytes, 256, 58);
    assert Convert(bytes, 256, 58) == Zeros(zeroes) + digits;
    str := Spell(zeroes, digits);
  }

  lemma Empty(base: nat)
    ensures Val([], base) == 0
  {
  }

  /** The result string: '1' for every leading zero, then the digits' characters. */
  method Spell(zeroes: nat, digits: seq<nat>) returns (str: string)
    requires InBase(Zeros(zeroes) + digits, 58)
    ensures str == Chars(Zeros(zeroes) + digits)
  {
    hide CharOf;
    ghost var all := Zeros(zeroes) + digits;
    CharDigit(0);
    str := seq(zeroes, i => '1');
    for i := 0 to |digits|
      invariant |str| == zeroes + i && forall j | 0 <= j < zeroes + i :: str[j] == CharOf(all[j])
    {
      assert all[zeroes + i] == digits[i];
      str := str + [CharOf(digits[i])];
    }
  }

  method DecodeBase58(psz: string) returns (r: Option<seq<nat>>)
    ensures r == Decoded(psz)
  {
    hide Pow, Val, Holds, Digits, DigitOf, Convert;
    var p := 0;
    while p < |psz| && IsSpace(psz[p])
      invariant 0 <= p <= |psz|
      invariant forall i | 0 <= i < p :: IsSpace(psz[i])
    {
      p := p + 1;
    }
    LeadingIs(psz, true, p);
    var t := psz[p..];
    r := DecodeTrimmed(t);
  }

  /** The rest of DecodeBase58, once the leading spaces are skipped. */
  method DecodeTrimmed(t: string) returns (r: Option<seq<nat>>)
    ensures r == (var n := Leading(t, false);
      if Leading(t[n..], true) < |t| - n || !InAlphabet(t[..n]) then None else Some(Convert(Values(t[..n]), 58, 256)))
  {
    hide Pow, Val, Holds, Digits, DigitOf, Convert;
    var zeroes := 0;
    CharDigit(0);
    while zeroes < |t| && t[zeroes] == '1'
      invariant 0 <= zeroes <= |t|
      invariant forall i | 0 <= i < zeroes :: t[i] == '1'
    {
      zeroes := zeroes + 1;
    }
    var size := (|t| - zeroes) * 733 / 1000 + 1;
    var b256 := new nat[size](i => 0);
    assert b256[..] == Zeros(size);
    Fresh(size, 256);
    Empty(58);
    assert Values(t[zeroes..zeroes]) == [];
    var length, p := 0, zeroes;
    while p < |t| && !IsSpace(t[p])
      invariant zeroes <= p <= |t| && b256.Length == size
      invariant forall i | 0 <= i < p :: !IsSpace(t[i]) && DigitOf(t[i]) < 58
      invariant Holds(b256[..], 256, length, Val(Values(t[zeroes..p]), 58))
    {
      var digit := DigitOf(t[p]);
      if digit == 58 {
        BadCharacter(t, p);
        return None;
      }
      NextValue(t, zeroes, p, size);
      length := MulAdd(b256, length, 58, 256, digit, Val(Values(t[zeroes..p]), 58));
      p := p + 1;
    }
    LeadingIs(t, false, p);
    var q := p;
    while q < |t| && IsSpace(t[q])
      invariant p <= q <= |t|
      invariant forall i | p <= i < q :: IsSpace(t[i])
    {
      q := q + 1;
    }
    LeadingIs(t[p..], true, q - p);
    if q != |t| {
      return None;
    }
    var digits := SkipZeros(b256, length, 256, Val(Values(t[zeroes..p]), 58));
    WordValue(t[..p], zeroes);
    assert t[..p][zeroes..] == t[zeroes..p];
    return Some(Zeros(zeroes) + digits);
  }

  lemma BadCharacter(t: string, p: nat)
    requires p < |t| && DigitOf(t[p]) == 58 && forall i | 0 <= i <= p :: !IsSpace(t[i])
    ensures !InAlphabet(t[..Leading(t, false)])
  {
    hide DigitOf;
    LongWord(t, p + 1);
    assert t[..Leading(t, false)][p] == t[p];
  }

  lemma {:induction false} LongWord(t: string, n: nat)
    requires n <= |t| && forall i | 0 <= i < n :: !IsSpace(t[i])
    ensures Leading(t, false) >= n
  {
    if n > 0 {
      LongWord(t[1..], n - 1);
    }
  }

  lemma NextValue(t: string, z: nat, p: nat, size: nat)
    requires z <= p < |t| && size == (|t| - z) * 733 / 1000 + 1
    requires forall i | 0 <= i <= p :: DigitOf(t[i]) < 58
    ensures 58 * Val(Values(t[z..p]), 58) + DigitOf(t[p]) == Val(Values(t[z..p + 1]), 58) < Pow(256, size)
  {
    hide Pow, Val, DigitOf;
    var d := Values(t[z..p + 1]);
    DecodeFits(|t| - z);
    PowExp(58, |d|, |t| - z);
    Room(d, p - z, 58, 256, size);
    assert d[..p - z] == Values(t[z..p]) && d[..p - z + 1] == d;
  }

  /** The leading '1's are the leading zeros of the word's digits. */
  lemma WordValue(w: string, z: nat)
    requires InAlphabet(w) && z <= |w| && (forall i | 0 <= i < z :: w[i] == '1') && (z < |w| ==> w[z] != '1')
    ensures Convert(Values(w), 58, 256) == Zeros(z) + Digits(Val(Values(w[z..]), 58), 256)
  {
    hide Val, DigitOf, Digits;
    CharDigit(0);
    assert Values(w)[..z] == Zeros(z);
    if z < |w| { DigitChar(w[z]); }
    Stripped(Values(w), 58, z);
    assert Values(w)[z..] == Values(w[z..]);
  }
}
