/**
 Sectors read as 128 little-endian 32-bit words, the form in which index blocks
 and inodes lie on disk.
 */
module Words {

  import opened Blocks

  const WORDS_PER_BLOCK: nat := 128
  const WORD_LIMIT: nat := 0x1_0000_0000

  ghost predicate AreWords(ws: seq<nat>) {
    |ws| == WORDS_PER_BLOCK && forall i :: 0 <= i < |ws| ==> ws[i] < WORD_LIMIT
  }

  /** Byte `b` of a word, least significant first. */
  function ByteOf(w: nat, b: nat): byte {
    match b
    case 0 => (w % 256) as byte
    case 1 => (w / 256 % 256) as byte
    case 2 => (w / 65536 % 256) as byte
    case _ => (w / 16777216 % 256) as byte
  }

  function Encode(ws: seq<nat>): (b: Block)
    requires |ws| == WORDS_PER_BLOCK
  {
    seq(512, i requires 0 <= i < 512 => ByteOf(ws[i / 4], i % 4))
  }

  function WordAt(b: Block, i: nat): (w: nat)
    requires i < WORDS_PER_BLOCK
    ensures w < WORD_LIMIT
  {
    b[4 * i] as nat + 256 * b[4 * i + 1] as nat + 65536 * b[4 * i + 2] as nat + 16777216 * b[4 * i + 3] as nat
  }

  function Decode(b: Block): (ws: seq<nat>)
    ensures |ws| == WORDS_PER_BLOCK
    ensures forall i :: 0 <= i < WORDS_PER_BLOCK ==> ws[i] == WordAt(b, i)
    ensures AreWords(ws)
  {
    seq(WORDS_PER_BLOCK, i requires 0 <= i < WORDS_PER_BLOCK => WordAt(b, i))
  }

  lemma BytesOfWord(w: nat)
    requires w < WORD_LIMIT
    ensures ByteOf(w, 0) as nat + 256 * ByteOf(w, 1) as nat + 65536 * ByteOf(w, 2) as nat +
      16777216 * ByteOf(w, 3) as nat == w
  {
    var q1 := w / 256;
    var q2 := q1 / 256;
    var q3 := q2 / 256;
    assert w / 65536 == q2 && w / 16777216 == q3 && q3 < 256;
    assert w == 256 * q1 + w % 256 && q1 == 256 * q2 + q1 % 256 && q2 == 256 * q3 + q2 % 256;
  }

  lemma WordAtEncode(ws: seq<nat>, i: nat)
    requires AreWords(ws) && i < WORDS_PER_BLOCK
    ensures WordAt(Encode(ws), i) == ws[i]
  {
    var b := Encode(ws);
    assert b[4 * i] == ByteOf(ws[i], 0);
    assert b[4 * i + 1] == ByteOf(ws[i], 1);
    assert b[4 * i + 2] == ByteOf(ws[i], 2);
    assert b[4 * i + 3] == ByteOf(ws[i], 3);
    BytesOfWord(ws[i]);
  }

  /** What was stored word by word is read back word by word. */
  lemma DecodeEncode(ws: seq<nat>)
    requires AreWords(ws)
    ensures Decode(Encode(ws)) == ws
  {
    forall i | 0 <= i < WORDS_PER_BLOCK
      ensures WordAt(Encode(ws), i) == ws[i]
    {
      WordAtEncode(ws, i);
    }
  }

  lemma WordBytes(b0: nat, b1: nat, b2: nat, b3: nat)
    requires b0 < 256 && b1 < 256 && b2 < 256 && b3 < 256
    ensures var w := b0 + 256 * b1 + 65536 * b2 + 16777216 * b3;
      ByteOf(w, 0) as nat == b0 && ByteOf(w, 1) as nat == b1 && ByteOf(w, 2) as nat == b2 && ByteOf(w, 3) as nat == b3
  {
    var w3 := b3;
    var w2 := b2 + 256 * w3;
    var w1 := b1 + 256 * w2;
    var w := b0 + 256 * w1;
    assert w / 256 == w1 && w1 / 256 == w2 && w2 / 256 == w3;
    assert w / 65536 == w2 && w / 16777216 == w3;
  }

  /** Every sector is the image of exactly one list of words. */
  lemma EncodeDecode(b: Block)
    ensures Encode(Decode(b)) == b
  {
    forall i | 0 <= i < 512
      ensures Encode(Decode(b))[i] == b[i]
    {
      var j := 4 * (i / 4);
      WordBytes(b[j] as nat, b[j + 1] as nat, b[j + 2] as nat, b[j + 3] as nat);
    }
  }

  lemma ZerosAreZeroWords()
    ensures forall i :: 0 <= i < WORDS_PER_BLOCK ==> WordAt(ZEROS, i) == 0
  {
  }
}
