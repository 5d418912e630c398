/**
 * Bytes, byte orders and the fixed-width integer conversions the decoder
 * performs: assembling a word from `n` bytes in big- or little-endian order
 * (the standard library's `binary.BigEndian`/`binary.LittleEndian`), the
 * two's-complement reinterpretation of a word (Go's `int16(x)`, `int32(x)`,
 * ...), and truncation to a narrower width (the conversion `reflect`
 * performs when it stores a value into a narrower field).
 */
module Words {

  newtype byte = b: int | 0 <= b < 256

  datatype ByteOrder = BigEndian | LittleEndian

  /** 256^n: the number of distinct words of n bytes. */
  function Pow256(n: nat): (r: nat)
    ensures r >= 1
  {
    if n == 0 then 1 else 256 * Pow256(n - 1)
  }

  /** Word of `s` with s[0] the most significant byte. */
  function BigEndianWord(s: seq<byte>): (w: nat)
    ensures w < Pow256(|s|)
  {
    if s == [] then 0 else 256 * BigEndianWord(s[..|s| - 1]) + s[|s| - 1] as int
  }

  /** Word of `s` with s[0] the least significant byte. */
  function LittleEndianWord(s: seq<byte>): (w: nat)
    ensures w < Pow256(|s|)
  {
    if s == [] then 0 else s[0] as int + 256 * LittleEndianWord(s[1..])
  }

  function Word(s: seq<byte>, order: ByteOrder): (w: nat)
    ensures w < Pow256(|s|)
  {
    match order
    case BigEndian => BigEndianWord(s)
    case LittleEndian => LittleEndianWord(s)
  }

  /** The `n` bytes of `w`, most significant first. */
  function BigEndianBytes(w: nat, n: nat): (s: seq<byte>)
    requires w < Pow256(n)
    ensures |s| == n
  {
    if n == 0 then [] else BigEndianBytes(w / 256, n - 1) + [(w % 256) as byte]
  }

  function Reverse(s: seq<byte>): (r: seq<byte>)
    ensures |r| == |s|
  {
    if s == [] then [] else Reverse(s[1..]) + [s[0]]
  }

  /** The `n` bytes of `w` in the given order. */
  function EncodeWord(w: nat, n: nat, order: ByteOrder): (s: seq<byte>)
    requires w < Pow256(n)
    ensures |s| == n
  {
    match order
    case BigEndian => BigEndianBytes(w, n)
    case LittleEndian => Reverse(BigEndianBytes(w, n))
  }

  /**
   * The `n`-byte bit pattern of an integer that fits in `n` signed or
   * unsigned bytes: Go's conversion to an n-byte unsigned type.
   */
  function ToUnsigned(i: int, n: nat): (w: nat)
    requires -(Pow256(n) as int) <= i < Pow256(n)
    ensures w < Pow256(n)
    ensures w == i || w == i + Pow256(n)
  {
    if i < 0 then i + Pow256(n) else i
  }

  /** Two's-complement reading of an `n`-byte word, as Go's int8/16/32/64 conversions. */
  function ToSigned(w: nat, n: nat): (i: int)
    requires 1 <= n && w < Pow256(n)
    ensures -(Pow256(n) as int) / 2 <= i < Pow256(n) / 2
    ensures ToUnsigned(i, n) == w
  {
    if w < Pow256(n) / 2 then w else w - Pow256(n)
  }

  /** Keeps the low `n` bytes of a word: Go's conversion to a narrower unsigned type. */
  function Truncate(w: nat, n: nat): (r: nat)
    ensures r < Pow256(n)
    ensures w < Pow256(n) ==> r == w
  {
    if w < Pow256(n) then w else w % Pow256(n)
  }

  lemma {:induction false} BigEndianRoundTrip(w: nat, n: nat)
    requires w < Pow256(n)
    ensures BigEndianWord(BigEndianBytes(w, n)) == w
  {
    if n > 0 {
      var s := BigEndianBytes(w, n);
      assert s[..n - 1] == BigEndianBytes(w / 256, n - 1);
      BigEndianRoundTrip(w / 256, n - 1);
    }
  }

  lemma {:induction false} BigEndianBytesOfWord(s: seq<byte>)
    ensures BigEndianBytes(BigEndianWord(s), |s|) == s
  {
    if s != [] {
      var p := s[..|s| - 1];
      var w := BigEndianWord(s);
      assert w / 256 == BigEndianWord(p);
      assert (w % 256) as byte == s[|s| - 1];
      BigEndianBytesOfWord(p);
      assert s == p + [s[|s| - 1]];
    }
  }

  lemma {:induction false} ReverseReverse(s: seq<byte>)
    ensures Reverse(Reverse(s)) == s
  {
    if s != [] {
      ReverseAppend(Reverse(s[1..]), [s[0]]);
      ReverseReverse(s[1..]);
    }
  }

  lemma {:induction false} ReverseAppend(a: seq<byte>, b: seq<byte>)
    ensures Reverse(a + b) == Reverse(b) + Reverse(a)
  {
    if a == [] {
      assert a + b == b;
    } else {
      assert (a + b)[1..] == a[1..] + b;
      ReverseAppend(a[1..], b);
    }
  }

  /** Little-endian assembly is big-endian assembly of the reversed bytes. */
  lemma {:induction false} LittleEndianIsReversedBigEndian(s: seq<byte>)
    ensures LittleEndianWord(s) == BigEndianWord(Reverse(s))
  {
    if s != [] {
      var r := Reverse(s);
      assert r == Reverse(s[1..]) + [s[0]];
      assert r[..|r| - 1] == Reverse(s[1..]);
      LittleEndianIsReversedBigEndian(s[1..]);
    }
  }

  /** Assembling the encoded bytes of a word gives the word back, in either order. */
  lemma WordOfEncodeWord(w: nat, n: nat, order: ByteOrder)
    requires w < Pow256(n)
    ensures Word(EncodeWord(w, n, order), order) == w
  {
    BigEndianRoundTrip(w, n);
    if order == LittleEndian {
      LittleEndianIsReversedBigEndian(Reverse(BigEndianBytes(w, n)));
      ReverseReverse(BigEndianBytes(w, n));
    }
  }

  /** Encoding the assembled word of `s` gives `s` back, in either order. */
  lemma EncodeWordOfWord(s: seq<byte>, order: ByteOrder)
    ensures EncodeWord(Word(s, order), |s|, order) == s
  {
    BigEndianBytesOfWord(s);
    if order == LittleEndian {
      LittleEndianIsReversedBigEndian(s);
      BigEndianBytesOfWord(Reverse(s));
      ReverseReverse(s);
    }
  }
}
