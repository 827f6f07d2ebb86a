/** Hardware addresses: the reader, a three-state automaton over the characters, and the printer. */
module MacAddress {
  import opened Wrappers

  type Byte = n: nat | n < 256

  datatype MacError = Malformed | WrongLength

  predicate IsHex(c: char) {
    '0' <= c <= '9' || 'a' <= c <= 'f' || 'A' <= c <= 'F'
  }

  function HexValue(c: char): (n: nat)
    requires IsHex(c)
    ensures n < 16
  {
    if c <= '9' then (c - '0') as nat else if c <= 'F' then (c - 'A') as nat + 10 else (c - 'a') as nat + 10
  }

  function HexDigit(n: nat): (c: char)
    requires n < 16
    ensures IsHex(c) && HexValue(c) == n
  {
    if n < 10 then '0' + n as char else 'a' + (n - 10) as char
  }

  /** Pairs of hexadecimal digits separated by colons, possibly with one colon at the end. */
  predicate IsMac(s: string) {
    && |s| % 3 != 1
    && forall i :: 0 <= i < |s| ==> if i % 3 == 2 then s[i] == ':' else IsHex(s[i])
  }

  /** The value of the k-th pair. */
  function Pair(s: string, k: nat): Byte
    requires 3 * k + 1 < |s| && IsHex(s[3*k]) && IsHex(s[3*k+1])
  {
    16 * HexValue(s[3*k]) + HexValue(s[3*k+1])
  }

  /** What is read: the pairs in order. */
  ghost predicate Reads(s: string, b: seq<Byte>)
    requires IsMac(s)
  {
    |b| == (|s| + 1) / 3 && forall k :: 0 <= k < |b| ==> b[k] == Pair(s, k)
  }

  method MacAton(s: string, forceLen: Option<nat>) returns (r: Result<seq<Byte>, MacError>)
    ensures r.Ok? <==> IsMac(s) && (forceLen.Some? ==> forceLen.value == (|s| + 1) / 3)
    ensures r.Ok? ==> Reads(s, r.value)
    ensures r == Err(WrongLength) <==> IsMac(s) && forceLen.Some? && forceLen.value != (|s| + 1) / 3
  {
    var i, n := 0, 0;
    var b: seq<Byte> := [];
    for j := 0 to |s|
      invariant i == j % 3 && |b| == (j + 1) / 3
      invariant i == 1 ==> IsHex(s[j-1]) && n == 16 * HexValue(s[j-1])
      invariant forall k :: 0 <= k < j ==> if k % 3 == 2 then s[k] == ':' else IsHex(s[k])
      invariant forall k :: 0 <= k < |b| ==> b[k] == Pair(s, k)
    {
      var c := s[j];
      if i == 2 {
        if c != ':' {
          return Err(Malformed);
        }
        i := 0;
      } else if !IsHex(c) {
        return Err(Malformed);
      } else if i == 0 {
        n := HexValue(c) * 16;
        i := 1;
      } else {
        n := n + HexValue(c);
        i := 2;
        b := b + [n];
      }
    }
    if i == 1 {
      return Err(Malformed);
    }
    if forceLen.Some? && forceLen.value != |b| {
      return Err(WrongLength);
    }
    r := Ok(b);
  }

  function Print(x: Byte): (r: string)
    ensures |r| == 2 && IsHex(r[0]) && IsHex(r[1]) && 16 * HexValue(r[0]) + HexValue(r[1]) == x
  {
    [HexDigit(x / 16), HexDigit(x % 16)]
  }

  function MacNtoa(b: seq<Byte>): string {
    if b == [] then "" else if |b| == 1 then Print(b[0]) else Print(b[0]) + ":" + MacNtoa(b[1..])
  }

  lemma {:induction false} PrintedLength(b: seq<Byte>)
    ensures |MacNtoa(b)| == if b == [] then 0 else 3 * |b| - 1
  {
    if |b| > 1 { PrintedLength(b[1..]); }
  }

  /** The k-th byte takes the characters from 3k on. */
  lemma {:induction false} PrintedChars(b: seq<Byte>, k: nat)
    requires k < |b|
    ensures |MacNtoa(b)| == 3 * |b| - 1
    ensures MacNtoa(b)[3*k] == Print(b[k])[0] && MacNtoa(b)[3*k+1] == Print(b[k])[1]
    ensures k < |b| - 1 ==> MacNtoa(b)[3*k+2] == ':'
  {
    PrintedLength(b);
    if k > 0 {
      var j := k - 1;
      PrintedChars(b[1..], j);
      AfterFirstByte(b, 3 * j);
      AfterFirstByte(b, 3 * j + 1);
      if k < |b| - 1 { AfterFirstByte(b, 3 * j + 2); }
    }
  }

  lemma AfterFirstByte(b: seq<Byte>, i: nat)
    requires |b| > 1 && i < |MacNtoa(b[1..])|
    ensures i + 3 < |MacNtoa(b)| && MacNtoa(b)[i+3] == MacNtoa(b[1..])[i]
  {
    ShiftedByThree(Print(b[0]) + ":", MacNtoa(b[1..]), i);
  }

  lemma ShiftedByThree(head: string, rest: string, i: nat)
    requires |head| == 3 && i < |rest|
    ensures (head + rest)[i+3] == rest[i]
  {
  }

  lemma PrintedChar(b: seq<Byte>, i: nat)
    requires i < |MacNtoa(b)|
    ensures if i % 3 == 2 then MacNtoa(b)[i] == ':' else IsHex(MacNtoa(b)[i])
  {
    PrintedLength(b);
    var k := i / 3;
    assert i == 3 * k + i % 3;
    PrintedChars(b, k);
  }

  /** The printed form of any bytes is an address that reads back as the same bytes. */
  lemma ReadAfterPrint(b: seq<Byte>)
    ensures IsMac(MacNtoa(b)) && Reads(MacNtoa(b), b)
  {
    var s := MacNtoa(b);
    PrintedLength(b);
    forall i | 0 <= i < |s| ensures if i % 3 == 2 then s[i] == ':' else IsHex(s[i]) { PrintedChar(b, i); }
    assert IsMac(s);
    forall k | 0 <= k < |b| ensures b[k] == Pair(s, k) { PrintedChars(b, k); }
  }

  lemma ReadsIsFunctional(s: string, a: seq<Byte>, b: seq<Byte>)
    requires IsMac(s) && Reads(s, a) && Reads(s, b)
    ensures a == b
  {
  }

  /** The length of the printed form, from the length of what was read. */
  lemma PrintedFrom(n: nat, k: nat)
    requires n % 3 != 1 && k == (n + 1) / 3
    ensures (if k == 0 then 0 else 3 * k - 1) == if n % 3 == 0 && n > 0 then n - 1 else n
  {
  }

  /** Letters in lower case. */
  function LowerHex(c: char): char {
    if 'A' <= c <= 'F' then (c - 'A') + 'a' else c
  }

  /** The value of a digit is its place in the row of digits, in either case. */
  lemma HexValueIsPlace(c: char)
    requires IsHex(c)
    ensures "0123456789abcdef"[HexValue(c)] == LowerHex(c)
  {
    var row := "0123456789abcdef";
    assert forall n: nat :: n < 10 ==> row[n] == '0' + n as char;
    assert forall n: nat :: 10 <= n < 16 ==> row[n] == 'a' + (n - 10) as char;
  }

  lemma DigitOfValue(c: char)
    requires IsHex(c)
    ensures HexDigit(HexValue(c)) == LowerHex(c)
  {
  }

  lemma DigitsOfPair(s: string, k: nat)
    requires 3 * k + 1 < |s| && IsHex(s[3*k]) && IsHex(s[3*k+1])
    ensures Print(Pair(s, k)) == [LowerHex(s[3*k]), LowerHex(s[3*k+1])]
  {
    DigitOfValue(s[3*k]);
    DigitOfValue(s[3*k+1]);
    assert Pair(s, k) / 16 == HexValue(s[3*k]) && Pair(s, k) % 16 == HexValue(s[3*k+1]);
  }

  lemma CharsOfMac(s: string, k: nat)
    requires IsMac(s) && 3 * k < |s|
    ensures 3 * k + 1 < |s| && IsHex(s[3*k]) && IsHex(s[3*k+1]) && (3 * k + 2 < |s| ==> s[3*k+2] == ':')
  {
    assert (3 * k) % 3 == 0 && (3 * k + 1) % 3 == 1 && (3 * k + 2) % 3 == 2;
  }

  lemma PrintedPair(s: string, b: seq<Byte>, k: nat)
    requires k < |b| && 3 * k + 1 < |s| && IsHex(s[3*k]) && IsHex(s[3*k+1]) && b[k] == Pair(s, k)
    ensures |MacNtoa(b)| == 3 * |b| - 1
    ensures MacNtoa(b)[3*k] == LowerHex(s[3*k]) && MacNtoa(b)[3*k+1] == LowerHex(s[3*k+1])
    ensures k < |b| - 1 ==> MacNtoa(b)[3*k+2] == ':'
  {
    PrintedChars(b, k);
    DigitsOfPair(s, k);
  }

  lemma NormalChar(s: string, b: seq<Byte>, i: nat)
    requires IsMac(s) && Reads(s, b) && i < |MacNtoa(b)| <= |s|
    ensures MacNtoa(b)[i] == LowerHex(s[i])
  {
    PrintedLength(b);
    var k := i / 3;
    assert i == 3 * k + i % 3;
    CharsOfMac(s, k);
    PrintedPair(s, b, k);
  }

  /** The printed form of what was read is the text in lower case, without a colon at its end. */
  lemma NormalForm(s: string, b: seq<Byte>)
    requires IsMac(s) && Reads(s, b)
    ensures |MacNtoa(b)| == if |s| % 3 == 0 && s != [] then |s| - 1 else |s|
    ensures forall i :: 0 <= i < |MacNtoa(b)| ==> MacNtoa(b)[i] == LowerHex(s[i])
  {
    PrintedLength(b);
    PrintedFrom(|s|, |b|);
    forall i | 0 <= i < |MacNtoa(b)| ensures MacNtoa(b)[i] == LowerHex(s[i]) { NormalChar(s, b, i); }
  }

  method MacNorm(s: string, forceLen: Option<nat>) returns (r: Result<string, MacError>)
    ensures r.Ok? <==> IsMac(s) && (forceLen.Some? ==> forceLen.value == (|s| + 1) / 3)
    ensures r.Ok? ==> exists b :: Reads(s, b) && r.value == MacNtoa(b)
    ensures r.Ok? ==> |r.value| == if |s| % 3 == 0 && s != [] then |s| - 1 else |s|
    ensures r.Ok? ==> forall i :: 0 <= i < |r.value| ==> r.value[i] == LowerHex(s[i])
  {
    var a := MacAton(s, forceLen);
    match a
    case Ok(b) =>
      NormalForm(s, b);
      r := Ok(MacNtoa(b));
    case Err(e) => r := Err(e);
  }

  lemma ReadBack(b: seq<Byte>, c: seq<Byte>)
    requires IsMac(MacNtoa(b)) && Reads(MacNtoa(b), c)
    ensures c == b
  {
    ReadAfterPrint(b);
    ReadsIsFunctional(MacNtoa(b), b, c);
  }

  /** Normalising a normalised address changes nothing, and a normalised address has no trailing colon. */
  lemma NormIsIdempotent(s: string, b: seq<Byte>, c: seq<Byte>)
    requires IsMac(s) && Reads(s, b)
    requires IsMac(MacNtoa(b)) && Reads(MacNtoa(b), c)
    ensures MacNtoa(c) == MacNtoa(b)
    ensures |MacNtoa(b)| == if |s| % 3 == 0 && s != [] then |s| - 1 else |s|
  {
    ReadBack(b, c);
    PrintedLength(b);
    PrintedFrom(|s|, |b|);
  }
}
