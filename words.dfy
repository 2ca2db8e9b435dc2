/** 32-bit words and their big-endian byte encoding, as written by
    java.io.DataOutputStream.writeInt/writeFloat and read back by
    DataInputStream.readInt/readFloat. */
module Words {

  /** One byte of a file. */
  type Byte = b: int | 0 <= b < 0x100

  /** A 32-bit pattern: the raw bits of a Java float or int. */
  type Word = w: int | 0 <= w < 0x1_0000_0000

  /** A Java int. */
  type Int32 = x: int | -0x8000_0000 <= x < 0x8000_0000

  const MinInt32: Int32 := -0x8000_0000
  const MaxInt32: Int32 := 0x7FFF_FFFF

  /** Two's complement wrap-around of an unbounded integer into a Java int. */
  function Wrap32(x: int): (r: Int32)
    ensures (r - x) % 0x1_0000_0000 == 0
    ensures MinInt32 <= x <= MaxInt32 ==> r == x
  {
    (x + 0x8000_0000) % 0x1_0000_0000 - 0x8000_0000
  }

  /** Math.max and Math.min on ints. */
  function Max32(a: Int32, b: Int32): (r: Int32)
    ensures r >= a && r >= b && (r == a || r == b)
  {
    if a >= b then a else b
  }

  function Min32(a: Int32, b: Int32): (r: Int32)
    ensures r <= a && r <= b && (r == a || r == b)
  {
    if a <= b then a else b
  }

  /** Java's `x + 1` on an int. */
  function Inc32(x: Int32): (r: Int32)
    ensures r != x
    ensures x < MaxInt32 ==> r == x + 1
    ensures x == MaxInt32 ==> r == MinInt32
  {
    Wrap32(x + 1)
  }

  /** The bit pattern of a Java int (two's complement). */
  function IntBits(x: Int32): (w: Word)
    ensures (w - x) % 0x1_0000_0000 == 0
  {
    if x < 0 then x + 0x1_0000_0000 else x
  }

  /** The Java int whose bit pattern is w. */
  function BitsInt(w: Word): (x: Int32)
    ensures IntBits(x) == w
  {
    if w >= 0x8000_0000 then w - 0x1_0000_0000 else w
  }

  lemma IntBitsInjective(x: Int32, y: Int32)
    requires IntBits(x) == IntBits(y)
    ensures x == y
  {
  }

  lemma BitsIntOfIntBits(x: Int32)
    ensures BitsInt(IntBits(x)) == x
  {
  }

  /** The four bytes of w, most significant first. */
  function WordBytes(w: Word): (r: seq<Byte>)
    ensures |r| == 4
  {
    [w / 0x100_0000, (w / 0x1_0000) % 0x100, (w / 0x100) % 0x100, w % 0x100]
  }

  /** The word held by the four bytes of s starting at i, most significant first. */
  function WordAt(s: seq<Byte>, i: nat): (w: Word)
    requires i + 4 <= |s|
  {
    (s[i] as int) * 0x100_0000 + (s[i + 1] as int) * 0x1_0000 + (s[i + 2] as int) * 0x100 + s[i + 3] as int
  }

  lemma WordRoundTrip(w: Word)
    ensures WordAt(WordBytes(w), 0) == w
  {
    var b := WordBytes(w);
    var q1, q2, q3 := w / 0x100, w / 0x1_0000, w / 0x100_0000;
    assert w == q1 * 0x100 + w % 0x100;
    assert q1 == q2 * 0x100 + q1 % 0x100;
    assert q2 == q3 * 0x100 + q2 % 0x100;
    assert q1 % 0x100 == (w / 0x100) % 0x100;
    assert q1 / 0x100 == q2 && q2 / 0x100 == q3;
  }

  lemma BytesRoundTrip(s: seq<Byte>, i: nat)
    requires i + 4 <= |s|
    ensures WordBytes(WordAt(s, i)) == s[i .. i + 4]
  {
    var w := WordAt(s, i);
    var lo := (s[i + 1] as int) * 0x1_0000 + (s[i + 2] as int) * 0x100 + s[i + 3] as int;
    assert 0 <= lo < 0x100_0000;
    assert w / 0x100_0000 == s[i];
    assert w / 0x1_0000 == (s[i] as int) * 0x100 + s[i + 1] as int;
    assert w / 0x100 == (s[i] as int) * 0x1_0000 + (s[i + 1] as int) * 0x100 + s[i + 2] as int;
  }

  /** The bytes of a sequence of words, each written big-endian. */
  function EncodeWords(ws: seq<Word>): (r: seq<Byte>)
    ensures |r| == 4 * |ws|
  {
    if ws == [] then [] else WordBytes(ws[0]) + EncodeWords(ws[1..])
  }

  /** Reads (|s| - i) / 4 whole words starting at byte i. */
  function DecodeWords(s: seq<Byte>, i: nat): (ws: seq<Word>)
    requires i <= |s| && (|s| - i) % 4 == 0
    ensures |ws| == (|s| - i) / 4
    decreases |s| - i
  {
    if i == |s| then [] else [WordAt(s, i)] + DecodeWords(s, i + 4)
  }

  /** Past one whole word, a whole number of words remains. */
  lemma WholeWordsStep(s: seq<Byte>, i: nat)
    requires i < |s| && (|s| - i) % 4 == 0
    ensures i + 4 <= |s| && (|s| - (i + 4)) % 4 == 0 && (|s| - (i + 4)) / 4 == (|s| - i) / 4 - 1
  {
  }

  /** The n words starting at byte i. */
  function WordsFrom(s: seq<Byte>, i: nat, n: nat): (ws: seq<Word>)
    requires i + 4 * n <= |s|
    ensures |ws| == n
    decreases n
  {
    if n == 0 then [] else [WordAt(s, i)] + WordsFrom(s, i + 4, n - 1)
  }

  /** One more word read behind the first n. */
  lemma {:induction false} WordsFromSnoc(s: seq<Byte>, i: nat, n: nat)
    requires i + 4 * (n + 1) <= |s|
    ensures WordsFrom(s, i, n + 1) == WordsFrom(s, i, n) + [WordAt(s, i + 4 * n)]
    decreases n
  {
    if n > 0 {
      WordsFromSnoc(s, i + 4, n - 1);
    }
  }

  /** Reading words up to the end is reading as many words as the bytes hold. */
  lemma {:induction false} DecodeWordsCount(s: seq<Byte>, i: nat, n: nat)
    requires i + 4 * n == |s|
    ensures (|s| - i) % 4 == 0 && DecodeWords(s, i) == WordsFrom(s, i, n)
    decreases n
  {
    if n > 0 {
      DecodeWordsCount(s, i + 4, n - 1);
    }
  }

  /** A length strictly between two word boundaries is not a whole number of words. */
  lemma PartialWord(len: int, n: nat)
    requires 4 * n < len < 4 * n + 4
    ensures len % 4 != 0
  {
  }

  /** A word read behind a prefix is the word read without it. */
  lemma WordAtShift(a: seq<Byte>, b: seq<Byte>, i: nat)
    requires i + 4 <= |b|
    ensures WordAt(a + b, |a| + i) == WordAt(b, i)
  {
    var ab := a + b;
    assert ab[|a| + i] == b[i] && ab[|a| + i + 1] == b[i + 1];
    assert ab[|a| + i + 2] == b[i + 2] && ab[|a| + i + 3] == b[i + 3];
  }

  lemma {:induction false} EncodeWordsAt(ws: seq<Word>, k: nat)
    requires k < |ws|
    ensures WordAt(EncodeWords(ws), 4 * k) == ws[k]
  {
    var e := EncodeWords(ws);
    if k == 0 {
      WordRoundTrip(ws[0]);
      assert e[..4] == WordBytes(ws[0]);
    } else {
      EncodeWordsAt(ws[1..], k - 1);
      var rest := EncodeWords(ws[1..]);
      assert e == WordBytes(ws[0]) + rest;
      WordAtShift(WordBytes(ws[0]), rest, 4 * (k - 1));
    }
  }

  /** Every sequence of words survives encoding and decoding. */
  lemma {:induction false} WordsRoundTrip(ws: seq<Word>)
    ensures DecodeWords(EncodeWords(ws), 0) == ws
  {
    var e := EncodeWords(ws);
    var d := DecodeWords(e, 0);
    forall k | 0 <= k < |ws| ensures d[k] == ws[k] {
      DecodeWordsAt(e, 0, k);
      EncodeWordsAt(ws, k);
    }
  }

  lemma {:induction false} DecodeWordsAt(s: seq<Byte>, i: nat, k: nat)
    requires i <= |s| && (|s| - i) % 4 == 0
    requires k < (|s| - i) / 4
    ensures DecodeWords(s, i)[k] == WordAt(s, i + 4 * k)
    decreases k
  {
    if k > 0 {
      WholeWordsStep(s, i);
      DecodeWordsAt(s, i + 4, k - 1);
    }
  }

  /** Decoding a whole number of words and encoding them again gives the bytes back. */
  lemma {:induction false} BytesWordsRoundTrip(s: seq<Byte>, i: nat)
    requires i <= |s| && (|s| - i) % 4 == 0
    ensures EncodeWords(DecodeWords(s, i)) == s[i..]
    decreases |s| - i
  {
    if i < |s| {
      WholeWordsStep(s, i);
      BytesWordsRoundTrip(s, i + 4);
      BytesRoundTrip(s, i);
      var ws := DecodeWords(s, i);
      assert ws[1..] == DecodeWords(s, i + 4);
      assert s[i..] == s[i .. i + 4] + s[i + 4..];
    }
  }

  lemma EncodeWordsAppend(a: seq<Word>, b: seq<Word>)
    ensures EncodeWords(a + b) == EncodeWords(a) + EncodeWords(b)
  {
    if a != [] {
      assert (a + b)[1..] == a[1..] + b;
    } else {
      assert a + b == b;
    }
  }
}
