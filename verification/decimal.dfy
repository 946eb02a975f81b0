/**
 * Decimal rendering of integers as Python's `f"{n}"` and `f"{n:0Wd}"` produce it,
 * and the identifier formats built from it (`CHUNK_%04d`, `BATCH_%03d`).
 */
module Decimal {
  import opened Text

  predicate IsDigit(c: char) {
    '0' <= c <= '9'
  }

  function DigitChar(d: nat): (c: char)
    requires d < 10
    ensures IsDigit(c) && c as int - '0' as int == d
  {
    ('0' as int + d) as char
  }

  function DigitValue(c: char): nat {
    if IsDigit(c) then c as int - '0' as int else 0
  }

  /** `str(n)` for `n >= 0`: no leading zero except for `0` itself. */
  function Digits(n: nat): (r: String)
    ensures |r| >= 1
    ensures forall i :: 0 <= i < |r| ==> IsDigit(r[i])
    ensures r[0] == '0' ==> n == 0
    decreases n
  {
    if n < 10 then [DigitChar(n)] else Digits(n / 10) + [DigitChar(n % 10)]
  }

  /** `str(n)` for any integer. */
  function IntToString(n: int): String {
    if n < 0 then "-" + Digits(-n) else Digits(n)
  }

  /** Reads a string of decimal digits (leading zeros allowed). */
  function ParseDigits(s: String): nat
    decreases |s|
  {
    if |s| == 0 then 0 else ParseDigits(s[..|s| - 1]) * 10 + DigitValue(s[|s| - 1])
  }

  function Zeros(k: nat): (r: String)
    ensures |r| == k
    ensures forall i :: 0 <= i < k ==> r[i] == '0'
  {
    seq(k, i => '0')
  }

  /** `f"{n:0{width}d}"` for `n >= 0`: zero-padded on the left to at least `width` characters. */
  function ZeroPad(n: nat, width: nat): (r: String)
    ensures |r| == if width > |Digits(n)| then width else |Digits(n)|
    ensures forall i :: 0 <= i < |r| ==> IsDigit(r[i])
  {
    var d := Digits(n);
    if width > |d| then Zeros(width - |d|) + d else d
  }

  lemma {:induction false} DigitsRoundTrip(n: nat)
    ensures ParseDigits(Digits(n)) == n
    decreases n
  {
    if n >= 10 {
      var d := Digits(n);
      assert d[..|d| - 1] == Digits(n / 10);
      DigitsRoundTrip(n / 10);
    }
  }

  lemma {:induction false} ParseZeros(k: nat)
    ensures ParseDigits(Zeros(k)) == 0
  {
    if k > 0 {
      assert Zeros(k)[..k - 1] == Zeros(k - 1);
      ParseZeros(k - 1);
    }
  }

  lemma {:induction false} ParseLeadingZeros(k: nat, s: String)
    ensures ParseDigits(Zeros(k) + s) == ParseDigits(s)
    decreases |s|
  {
    if |s| == 0 {
      assert Zeros(k) + s == Zeros(k);
      ParseZeros(k);
    } else {
      assert (Zeros(k) + s)[..|Zeros(k) + s| - 1] == Zeros(k) + s[..|s| - 1];
      ParseLeadingZeros(k, s[..|s| - 1]);
    }
  }

  /** Zero padding can be read back: the padded rendering determines the number. */
  lemma ZeroPadRoundTrip(n: nat, width: nat)
    ensures ParseDigits(ZeroPad(n, width)) == n
  {
    DigitsRoundTrip(n);
    var d := Digits(n);
    if width > |d| {
      ParseLeadingZeros(width - |d|, d);
    }
  }

  lemma ZeroPadInjective(m: nat, n: nat, width: nat)
    ensures ZeroPad(m, width) == ZeroPad(n, width) ==> m == n
  {
    ZeroPadRoundTrip(m, width);
    ZeroPadRoundTrip(n, width);
  }

  // ---------------------------------------------------------------- identifiers

  /** `f"CHUNK_{n:04d}"` */
  function ChunkId(n: nat): String {
    "CHUNK_" + ZeroPad(n, 4)
  }

  /** `f"BATCH_{n:03d}"` */
  function BatchId(n: nat): String {
    "BATCH_" + ZeroPad(n, 3)
  }

  /** Distinct chunk numbers give distinct chunk ids. */
  lemma ChunkIdInjective(m: nat, n: nat)
    ensures ChunkId(m) == ChunkId(n) <==> m == n
  {
    if ChunkId(m) == ChunkId(n) {
      assert ZeroPad(m, 4) == ChunkId(m)[6..] == ChunkId(n)[6..] == ZeroPad(n, 4);
      ZeroPadInjective(m, n, 4);
    }
  }

  /** Distinct batch numbers give distinct batch ids. */
  lemma BatchIdInjective(m: nat, n: nat)
    ensures BatchId(m) == BatchId(n) <==> m == n
  {
    if BatchId(m) == BatchId(n) {
      assert ZeroPad(m, 3) == BatchId(m)[6..] == BatchId(n)[6..] == ZeroPad(n, 3);
      ZeroPadInjective(m, n, 3);
    }
  }

  lemma ChunkIdExample()
    ensures ChunkId(1) == "CHUNK_0001" && ChunkId(1342) == "CHUNK_1342"
  {
    assert Digits(1342) == Digits(134) + ['2'];
    assert Digits(134) == Digits(13) + ['4'];
  }
}
