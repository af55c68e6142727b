/** Big-endian 32-bit words over a byte buffer: the reading primitive of both
    archive decoders (BinaryPrimitives.ReadUInt32BigEndian followed by a
    same-size bit reinterpretation, which is the identity on the 32 bits). */
module BigEndian {

  type byte = b: int | 0 <= b < 0x100

  /** The raw bits of one 4-byte field; a decoded float is kept as its bits. */
  type Word = w: int | 0 <= w < 0x1_0000_0000

  /** The word whose big-endian encoding is buf[off..off + 4]. */
  function ReadWord(buf: seq<byte>, off: nat): Word
    requires off + 4 <= |buf|
  {
    buf[off] as int * 0x100_0000 + buf[off + 1] as int * 0x1_0000 + buf[off + 2] as int * 0x100 + buf[off + 3] as int
  }

  /** ReadBE: the word at byte off of the buffer, read straight from its four
      bytes. */
  method ReadWordAt(bytes: array<byte>, off: nat) returns (w: Word)
    requires off + 4 <= bytes.Length
    ensures w == ReadWord(bytes[..], off)
  {
    w := bytes[off] as int * 0x100_0000 + bytes[off + 1] as int * 0x1_0000 + bytes[off + 2] as int * 0x100 + bytes[off + 3] as int;
  }

  /** The four bytes of w, most significant first. */
  function EncodeWord(w: Word): (bs: seq<byte>)
    ensures |bs| == 4
  {
    [w / 0x100 / 0x100 / 0x100, w / 0x100 / 0x100 % 0x100, w / 0x100 % 0x100, w % 0x100]
  }

  /** Reading a word back from its encoding gives the word. */
  lemma ReadEncodedWord(w: Word)
    ensures ReadWord(EncodeWord(w), 0) == w
  {
    var a := w / 0x100;
    var c := a / 0x100;
    assert w == a * 0x100 + w % 0x100;
    assert a == c * 0x100 + a % 0x100;
    assert c == c / 0x100 * 0x100 + c % 0x100;
  }

  /** Every four bytes are the encoding of the word read from them. */
  lemma EncodeReadWord(buf: seq<byte>, off: nat)
    requires off + 4 <= |buf|
    ensures EncodeWord(ReadWord(buf, off)) == buf[off..off + 4]
  {
    var e := EncodeWord(ReadWord(buf, off));
    ReadEncodedWord(ReadWord(buf, off));
    ReadWordInjective(e, 0, buf, off);
  }

  /** Two 4-byte fields that read as the same word hold the same bytes. */
  lemma ReadWordInjective(b1: seq<byte>, o1: nat, b2: seq<byte>, o2: nat)
    requires o1 + 4 <= |b1| && o2 + 4 <= |b2|
    requires ReadWord(b1, o1) == ReadWord(b2, o2)
    ensures b1[o1..o1 + 4] == b2[o2..o2 + 4]
  {
    assert b1[o1] == b2[o2];
    assert b1[o1 + 1] == b2[o2 + 1];
    assert b1[o1 + 2] == b2[o2 + 2];
  }

  /** A read depends only on the four bytes it covers. */
  lemma ReadWordLocal(b1: seq<byte>, o1: nat, b2: seq<byte>, o2: nat)
    requires o1 + 4 <= |b1| && o2 + 4 <= |b2|
    requires b1[o1..o1 + 4] == b2[o2..o2 + 4]
    ensures ReadWord(b1, o1) == ReadWord(b2, o2)
  {
    assert b1[o1] == b1[o1..o1 + 4][0] && b2[o2] == b2[o2..o2 + 4][0];
    assert b1[o1 + 1] == b1[o1..o1 + 4][1] && b2[o2 + 1] == b2[o2..o2 + 4][1];
    assert b1[o1 + 2] == b1[o1..o1 + 4][2] && b2[o2 + 2] == b2[o2..o2 + 4][2];
    assert b1[o1 + 3] == b1[o1..o1 + 4][3] && b2[o2 + 3] == b2[o2..o2 + 4][3];
  }

  /** The n consecutive words that start at byte off. */
  function Words(buf: seq<byte>, off: nat, n: nat): (ws: seq<Word>)
    requires off + 4 * n <= |buf|
    ensures |ws| == n
    ensures forall k :: 0 <= k < n ==> ws[k] == ReadWord(buf, off + 4 * k)
  {
    seq(n, k requires 0 <= k < n => ReadWord(buf, off + 4 * k))
  }

  /** The big-endian encoding of a sequence of words, one after another. */
  function EncodeWords(ws: seq<Word>): (bs: seq<byte>)
    ensures |bs| == 4 * |ws|
  {
    if ws == [] then [] else EncodeWord(ws[0]) + EncodeWords(ws[1..])
  }

  /** Word k of an encoded sequence sits at byte 4 * k after whatever precedes
      it, whatever follows it. */
  lemma {:induction false} ReadEncodedWordsAt(prefix: seq<byte>, ws: seq<Word>, suffix: seq<byte>, k: nat)
    requires k < |ws|
    ensures |prefix| + 4 * k + 4 <= |prefix + EncodeWords(ws) + suffix|
    ensures ReadWord(prefix + EncodeWords(ws) + suffix, |prefix| + 4 * k) == ws[k]
    decreases ws
  {
    var buf := prefix + EncodeWords(ws) + suffix;
    var head := EncodeWord(ws[0]);
    assert buf == (prefix + head) + EncodeWords(ws[1..]) + suffix;
    if k == 0 {
      assert buf[|prefix|..|prefix| + 4] == head[0..4];
      ReadWordLocal(buf, |prefix|, head, 0);
      ReadEncodedWord(ws[0]);
    } else {
      ReadEncodedWordsAt(prefix + head, ws[1..], suffix, k - 1);
    }
  }

  /** Decoding an encoded sequence of words gives the words back. */
  lemma WordsOfEncoding(prefix: seq<byte>, ws: seq<Word>, suffix: seq<byte>)
    ensures |prefix| + 4 * |ws| <= |prefix + EncodeWords(ws) + suffix|
    ensures Words(prefix + EncodeWords(ws) + suffix, |prefix|, |ws|) == ws
  {
    var buf := prefix + EncodeWords(ws) + suffix;
    assert |buf| == |prefix| + 4 * |ws| + |suffix|;
    var decoded := Words(buf, |prefix|, |ws|);
    forall k | 0 <= k < |ws|
      ensures decoded[k] == ws[k]
    {
      ReadEncodedWordsAt(prefix, ws, suffix, k);
      assert decoded[k] == ReadWord(buf, |prefix| + 4 * k);
    }
    assert |decoded| == |ws|;
  }
}
