/** Machine-level values shared by every part of the model: bytes, 32-bit words,
    32-bit signed integers, and the little-endian packing of bytes into words that
    `memcpy` performs on the target (an STM32, which is little-endian). */
module Words {

  const TWO31: int := 0x8000_0000
  const TWO32: int := 0x1_0000_0000

  /** A C `char` / `uint8_t`. A subset of `char` so that C string literals can be written as Dafny strings. */
  type Byte = c: char | c as int < 256

  /** A `uint32_t`. */
  type Word = w: int | 0 <= w < 0x1_0000_0000

  /** An `int` on the 32-bit target. */
  type Int32 = x: int | -0x8000_0000 <= x < 0x8000_0000

  /** A `uint16_t`. */
  type U16 = x: int | 0 <= x < 0x1_0000

  datatype Option<T> = None | Some(value: T)

  /** The word that a `memcpy` of an `int` into a `uint32_t` slot produces (two's complement). */
  function ToWord(x: Int32): (w: Word)
    ensures FromWord(w) == x
    ensures x >= 0 ==> w == x
  {
    if x < 0 then x + TWO32 else x
  }

  /** The `int` that a `memcpy` of a `uint32_t` slot into an `int` produces. */
  function FromWord(w: Word): (x: Int32)
    ensures x >= 0 <==> w < TWO31
    ensures x >= 0 ==> x == w
  {
    if w < TWO31 then w else w - TWO32
  }

  /** The word whose little-endian bytes are b0, b1, b2, b3. */
  function PackWord(b0: Byte, b1: Byte, b2: Byte, b3: Byte): Word
  {
    b0 as int + 256 * (b1 as int + 256 * (b2 as int + 256 * (b3 as int)))
  }

  /** The four little-endian bytes of a word. */
  function WordBytes(w: Word): (b: seq<Byte>)
    ensures |b| == 4
  {
    var r1 := w / 256;
    var r2 := r1 / 256;
    [(w % 256) as char, (r1 % 256) as char, (r2 % 256) as char, (r2 / 256) as char]
  }

  lemma DivMod256(b: int, r: int)
    requires 0 <= b < 256 && 0 <= r
    ensures (b + 256 * r) % 256 == b && (b + 256 * r) / 256 == r
  {
  }

  /** Splitting a packed word gives back its bytes. */
  lemma WordBytesOfPack(b0: Byte, b1: Byte, b2: Byte, b3: Byte)
    ensures WordBytes(PackWord(b0, b1, b2, b3)) == [b0, b1, b2, b3]
  {
    var r2 := b2 as int + 256 * (b3 as int);
    var r1 := b1 as int + 256 * r2;
    DivMod256(b0 as int, r1);
    DivMod256(b1 as int, r2);
    DivMod256(b2 as int, b3 as int);
  }

  /** Bytes laid out in consecutive words, four per word. */
  function Pack(t: seq<Byte>): (ws: seq<Word>)
    requires |t| % 4 == 0
    ensures |ws| == |t| / 4
    decreases |t|
  {
    if |t| == 0 then [] else [PackWord(t[0], t[1], t[2], t[3])] + Pack(t[4..])
  }

  /** The bytes of consecutive words, as a byte-wise `memcpy` or `memcmp` sees them. */
  function Unpack(ws: seq<Word>): (t: seq<Byte>)
    ensures |t| == 4 * |ws|
  {
    if ws == [] then [] else WordBytes(ws[0]) + Unpack(ws[1..])
  }

  /** Copying bytes into words and back is the identity. */
  lemma {:induction false} UnpackPack(t: seq<Byte>)
    requires |t| % 4 == 0
    ensures Unpack(Pack(t)) == t
    decreases |t|
  {
    if |t| > 0 {
      var w := PackWord(t[0], t[1], t[2], t[3]);
      assert Pack(t) == [w] + Pack(t[4..]);
      UnpackCons(w, Pack(t[4..]));
      WordBytesOfPack(t[0], t[1], t[2], t[3]);
      UnpackPack(t[4..]);
      assert t == [t[0], t[1], t[2], t[3]] + t[4..];
    }
  }

  /** The bytes of a word followed by more words. */
  lemma UnpackCons(w: Word, ws: seq<Word>)
    ensures Unpack([w] + ws) == WordBytes(w) + Unpack(ws)
  {
    assert ([w] + ws)[1..] == ws;
  }

  /** Sequences that agree from `i` on agree from any later `j` on. */
  lemma SuffixFrom<T>(a: seq<T>, b: seq<T>, i: nat, j: nat)
    requires i <= j <= |a| == |b| && a[i..] == b[i..]
    ensures a[j..] == b[j..]
  {
    assert a[j..] == a[i..][j - i..];
    assert b[j..] == b[i..][j - i..];
  }

  /** Writing `src[from + j]` at index `j` of a sequence whose first `j` elements are
      `src[from .. from + j]` extends the copied prefix by one and leaves what follows alone. */
  lemma CopyOneMore<T>(before: seq<T>, after: seq<T>, src: seq<T>, from: nat, j: nat)
    requires j < |before| && from + j < |src|
    requires before[..j] == src[from .. from + j] && after == before[j := src[from + j]]
    ensures after[..j + 1] == src[from .. from + j + 1]
    ensures after[j + 1..] == before[j + 1..]
  {
    assert after[..j + 1] == before[..j] + [src[from + j]];
  }

  /** A byte offset that is four times a word index. */
  lemma QuarterOf(x: int, i: int)
    requires x == 4 * i
    ensures x / 4 == i
  {
  }
}
