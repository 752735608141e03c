/**
  Bytes, ASCII literals, decimal numbers, repeated characters and code-point
  counting: the small pieces of Rust's `str`/`fmt` machinery that the renderer
  relies on. A Rust `&str` is a UTF-8 byte string, so text is modelled as a
  sequence of bytes and every byte offset is an index into it.
 */
module Text {

  newtype byte = b: int | 0 <= b < 256

  type Bytes = seq<byte>

  datatype Option<T> = None | Some(value: T)

  const NL: byte := 10
  const SPACE: byte := 32
  const CARET: byte := 94

  /** `t` ends with the byte `c`. */
  predicate EndsWith(t: Bytes, c: byte)
  {
    |t| > 0 && t[|t| - 1] == c
  }

  /** `t` starts with `p`. */
  predicate StartsWith(t: Bytes, p: Bytes)
  {
    |p| <= |t| && t[..|p|] == p
  }

  function Min(a: nat, b: nat): nat { if a <= b then a else b }

  function Max(a: nat, b: nat): nat { if a <= b then b else a }

  /** The UTF-8 encoding of an ASCII string literal (one byte per character). */
  function Ascii(s: string): Bytes
    requires forall i :: 0 <= i < |s| ==> s[i] as int < 128
  {
    seq(|s|, i requires 0 <= i < |s| => s[i] as int as byte)
  }

  /** What `Repeated(n, c)` writes: the character `c`, `n` times. */
  function Repeat(n: nat, c: byte): (r: Bytes)
    ensures |r| == n
  {
    if n == 0 then [] else [c] + Repeat(n - 1, c)
  }

  lemma {:induction false} RepeatContents(n: nat, c: byte)
    ensures forall i :: 0 <= i < n ==> Repeat(n, c)[i] == c
  {
    if n > 0 {
      RepeatContents(n - 1, c);
      assert forall i :: 1 <= i < n ==> Repeat(n, c)[i] == Repeat(n - 1, c)[i - 1];
    }
  }

  /** Occurrences of byte `c` in `t`. */
  function Count(c: byte, t: Bytes): nat
  {
    if t == [] then 0 else Count(c, t[..|t| - 1]) + (if t[|t| - 1] == c then 1 else 0)
  }

  lemma {:induction false} CountAppend(c: byte, a: Bytes, b: Bytes)
    ensures Count(c, a + b) == Count(c, a) + Count(c, b)
    decreases |b|
  {
    if b == [] {
      assert a + b == a;
    } else {
      assert (a + b)[..|a + b| - 1] == a + b[..|b| - 1];
      CountAppend(c, a, b[..|b| - 1]);
    }
  }

  lemma {:induction false} CountAbsent(c: byte, t: Bytes)
    requires forall i :: 0 <= i < |t| ==> t[i] != c
    ensures Count(c, t) == 0
    decreases |t|
  {
    if t != [] {
      CountAbsent(c, t[..|t| - 1]);
    }
  }

  /** The pieces written one after another. */
  function Concat(parts: seq<Bytes>): Bytes
  {
    if parts == [] then [] else Concat(parts[..|parts| - 1]) + parts[|parts| - 1]
  }

  /** The last piece comes last. */
  lemma ConcatSnoc(parts: seq<Bytes>, x: Bytes)
    ensures Concat(parts + [x]) == Concat(parts) + x
  {
    assert (parts + [x])[..|parts|] == parts;
  }

  lemma {:induction false} ConcatAppend(a: seq<Bytes>, b: seq<Bytes>)
    ensures Concat(a + b) == Concat(a) + Concat(b)
    decreases |b|
  {
    if b == [] {
      assert a + b == a;
    } else {
      var b', x := b[..|b| - 1], b[|b| - 1];
      assert b == b' + [x];
      ConcatAppend(a, b');
      ConcatSnoc(b', x);
      ConcatSnoc(a + b', x);
      calc {
        Concat(a + b);
        { assert a + b == (a + b') + [x]; }
        Concat((a + b') + [x]);
        Concat(a + b') + x;
        (Concat(a) + Concat(b')) + x;
        Concat(a) + (Concat(b') + x);
        Concat(a) + Concat(b);
      }
    }
  }

  predicate IsDigit(b: byte) { '0' as int <= b as int <= '9' as int }

  function Digit(d: nat): (r: byte)
    requires d < 10
  {
    ('0' as int + d) as byte
  }

  /** The decimal rendering of `n`, as `{}` formats a `usize`. */
  function Decimal(n: nat): (r: Bytes)
    ensures 1 <= |r|
  {
    if n < 10 then [Digit(n)] else Decimal(n / 10) + [Digit(n % 10)]
  }

  /** The rendering consists of decimal digits and has no leading zero. */
  lemma {:induction false} DecimalDigits(n: nat)
    ensures forall i :: 0 <= i < |Decimal(n)| ==> IsDigit(Decimal(n)[i])
    ensures Decimal(n)[0] == Digit(0) ==> n == 0
  {
    if n >= 10 {
      DecimalDigits(n / 10);
      var r := Decimal(n);
      assert r == Decimal(n / 10) + [Digit(n % 10)];
      assert r[0] == Decimal(n / 10)[0];
    }
  }

  function DigitValue(b: byte): nat
  {
    if IsDigit(b) then b as int - '0' as int else 0
  }

  /** The number a string of decimal digits denotes. */
  function DecimalValue(ds: Bytes): nat
  {
    if ds == [] then 0
    else DecimalValue(ds[..|ds| - 1]) * 10 + DigitValue(ds[|ds| - 1])
  }

  /** Decimal rendering loses nothing: reading the digits back gives the number. */
  lemma {:induction false} DecimalRoundTrip(n: nat)
    ensures DecimalValue(Decimal(n)) == n
  {
    var r := Decimal(n);
    if n >= 10 {
      assert r[..|r| - 1] == Decimal(n / 10);
      DecimalRoundTrip(n / 10);
    }
  }

  /** A UTF-8 continuation byte (0b10xx_xxxx) never starts a code point. */
  predicate IsContinuation(b: byte) { 0x80 <= b < 0xC0 }

  /** Rust's `str::is_char_boundary`: the only offsets a `str` may be sliced at. */
  predicate CharBoundary(t: Bytes, i: nat)
  {
    i == 0 || i == |t| || (i < |t| && !IsContinuation(t[i]))
  }

  /** `chars().count()`: the number of code points, i.e. of bytes that start one. */
  function CodePoints(t: Bytes): (r: nat)
    ensures r <= |t|
  {
    if t == [] then 0
    else CodePoints(t[..|t| - 1]) + (if IsContinuation(t[|t| - 1]) then 0 else 1)
  }

  /** On ASCII text the code-point count and the byte count agree. */
  lemma {:induction false} CodePointsAscii(t: Bytes)
    requires forall i :: 0 <= i < |t| ==> t[i] < 0x80
    ensures CodePoints(t) == |t|
  {
    if t != [] {
      CodePointsAscii(t[..|t| - 1]);
    }
  }
}
