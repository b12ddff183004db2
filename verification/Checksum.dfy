/**
  The inode checksum (xv6/fs.c, and the same loop in xv6/mkfs.c): the XOR of the little-endian 32-bit
  words of a file, read through a 2048-byte buffer that is zeroed between reads.

  Bytes and words are their bits, least significant first, so bit c of a word is bit c % 8 of its byte c / 8.
 */
module Checksum {

  type Byte = b: seq<bool> | |b| == 8 witness seq(8, _ => false)
  type Word = w: seq<bool> | |w| == 32 witness seq(32, _ => false)

  function ZeroByte(): (r: Byte)
    ensures forall k :: 0 <= k < 8 ==> !r[k]
  {
    seq(8, _ => false)
  }

  function ZeroWord(): (r: Word)
    ensures forall c :: 0 <= c < 32 ==> !r[c]
  {
    seq(32, _ => false)
  }

  function Xor(x: Word, y: Word): (r: Word)
    ensures forall c :: 0 <= c < 32 ==> r[c] == (x[c] != y[c])
  {
    seq(32, c requires 0 <= c < 32 => x[c] != y[c])
  }

  /** The word made of four bytes in memory. */
  function MakeWord(b0: Byte, b1: Byte, b2: Byte, b3: Byte): Word {
    b0 + b1 + b2 + b3
  }

  // ---------------------------------------------------------------- the reference definition

  /** Byte p of the content, zero past its end. */
  function Padded(s: seq<Byte>, p: nat): Byte {
    if p < |s| then s[p] else ZeroByte()
  }

  /** Bit c of word n of the zero-padded content. */
  predicate WordBit(s: seq<Byte>, n: nat, c: nat)
    requires c < 32
  {
    Padded(s, 4 * n + c / 8)[c % 8]
  }

  /** Bit c of the XOR of the first n words. */
  predicate Parity(s: seq<Byte>, c: nat, n: nat)
    requires c < 32
  {
    n > 0 && Parity(s, c, n - 1) != WordBit(s, n - 1, c)
  }

  /** The XOR of the first n words of the zero-padded content. */
  ghost predicate IsXor(w: Word, s: seq<Byte>, n: nat) {
    forall c :: 0 <= c < 32 ==> w[c] == Parity(s, c, n)
  }

  function WordCount(s: seq<Byte>): nat {
    (|s| + 3) / 4
  }

  /** XOR of all words of the zero-padded content. */
  ghost function Sum(s: seq<Byte>): Word {
    seq(32, c requires 0 <= c < 32 => Parity(s, c, WordCount(s)))
  }

  // ---------------------------------------------------------------- the loop

  /** Words past the end do not count. */
  lemma {:induction false} ParityOfMore(s: seq<Byte>, c: nat, n: nat)
    requires c < 32 && n >= WordCount(s)
    ensures Parity(s, c, n) == Parity(s, c, WordCount(s))
    decreases n
  {
    if n > WordCount(s) {
      ParityOfMore(s, c, n - 1);
    }
  }

  lemma SumOfMore(w: Word, s: seq<Byte>, n: nat)
    requires IsXor(w, s, n) && n >= WordCount(s)
    ensures w == Sum(s)
  {
    forall c | 0 <= c < 32 ensures w[c] == Parity(s, c, WordCount(s)) {
      ParityOfMore(s, c, n);
    }
  }

  /** The buffer after a read of at most 2048 bytes from `off`: the bytes, then zeros. */
  ghost predicate Buffered(buf: seq<Byte>, s: seq<Byte>, off: nat) {
    |buf| == 2048 && forall k :: 0 <= k < 2048 ==> buf[k] == Padded(s, off + k)
  }

  lemma XorNext(x: Word, w: Word, s: seq<Byte>, n: nat)
    requires IsXor(x, s, n) && forall c :: 0 <= c < 32 ==> w[c] == WordBit(s, n, c)
    ensures IsXor(Xor(x, w), s, n + 1)
  {
  }

  /** Fills a zeroed buffer with the next bytes of the content; the rest of it stays zero. */
  method Fill(buf: array<Byte>, s: seq<Byte>, off: nat) returns (r: nat)
    requires buf.Length == 2048 && off <= |s| && forall k :: 0 <= k < 2048 ==> buf[k] == ZeroByte()
    modifies buf
    ensures r == if off + 2048 > |s| then |s| - off else 2048
    ensures Buffered(buf[..], s, off)
  {
    r := if off + 2048 > |s| then |s| - off else 2048;
    var k := 0;
    while k < r
      invariant 0 <= k <= r
      invariant forall j :: 0 <= j < 2048 ==> buf[j] == if j < k then s[off + j] else ZeroByte()
    {
      buf[k] := s[off + k];
      k := k + 1;
    }
  }

  /** memset(buf, 0, sizeof(buf)) */
  method Clear(buf: array<Byte>)
    requires buf.Length == 2048
    modifies buf
    ensures forall k :: 0 <= k < 2048 ==> buf[k] == ZeroByte()
  {
    var k := 0;
    while k < 2048
      invariant 0 <= k <= 2048
      invariant forall j :: 0 <= j < k ==> buf[j] == ZeroByte()
    {
      buf[k] := ZeroByte();
      k := k + 1;
    }
  }

  /** XOR of the 512 words in the buffer, words n to n + 511 of the content, into the running sum. */
  method AddBuffer(buf: array<Byte>, ghost s: seq<Byte>, ghost n: nat, sum0: Word) returns (sum: Word)
    requires buf.Length == 2048 && Buffered(buf[..], s, 4 * n) && IsXor(sum0, s, n)
    ensures IsXor(sum, s, n + 512)
  {
    sum := sum0;
    var i := 0;
    while i < 512
      invariant 0 <= i <= 512 && IsXor(sum, s, n + i)
    {
      var w := LoadWord(buf, s, n, i);
      XorNext(sum, w, s, n + i);
      sum := Xor(sum, w);
      i := i + 1;
    }
  }

  /** *bp */
  method LoadWord(buf: array<Byte>, ghost s: seq<Byte>, ghost n: nat, i: nat) returns (w: Word)
    requires buf.Length == 2048 && Buffered(buf[..], s, 4 * n) && i < 512
    ensures forall c :: 0 <= c < 32 ==> w[c] == WordBit(s, n + i, c)
  {
    w := MakeWord(buf[4 * i], buf[4 * i + 1], buf[4 * i + 2], buf[4 * i + 3]);
    forall c | 0 <= c < 32 ensures w[c] == WordBit(s, n + i, c) {
      assert buf[..][4 * i + c / 8] == Padded(s, 4 * n + (4 * i + c / 8));
    }
  }

  /** The chunked loop computes the XOR of all words of the zero-padded content. */
  method Ichecksum(content: seq<Byte>) returns (sum: Word)
    ensures sum == Sum(content)
  {
    var buf := new Byte[2048](_ => ZeroByte());
    var off := 0;
    ghost var n := 0;
    sum := ZeroWord();
    Clear(buf);
    var r := Fill(buf, content, off);
    while r > 0
      invariant 0 <= off <= |content| && (off == 4 * n || (off == |content| <= 4 * n))
      invariant r == if off + 2048 > |content| then |content| - off else 2048
      invariant Buffered(buf[..], content, off) && IsXor(sum, content, n)
      decreases |content| - off
    {
      sum := AddBuffer(buf, content, n, sum);
      off := off + r;
      n := n + 512;
      Clear(buf);
      r := Fill(buf, content, off);
    }
    SumOfMore(sum, content, n);
  }

  // ---------------------------------------------------------------- what it misses

  /** How many of the first n words of the two contents differ in column c. */
  function Flips(s: seq<Byte>, t: seq<Byte>, c: nat, n: nat): nat
    requires c < 32
    decreases n
  {
    if n == 0 then 0
    else Flips(s, t, c, n - 1) + if WordBit(s, n - 1, c) != WordBit(t, n - 1, c) then 1 else 0
  }

  /** The two sums differ in a column exactly when an odd number of words do. */
  lemma {:induction false} ColumnParity(s: seq<Byte>, t: seq<Byte>, c: nat, n: nat)
    requires c < 32
    ensures Parity(s, c, n) != Parity(t, c, n) <==> Flips(s, t, c, n) % 2 == 1
    decreases n
  {
    if n > 0 {
      ColumnParity(s, t, c, n - 1);
      OddNext(Flips(s, t, c, n - 1), WordBit(s, n - 1, c) != WordBit(t, n - 1, c));
    }
  }

  lemma OddNext(f: nat, more: bool)
    ensures (f + if more then 1 else 0) % 2 == 1 <==> (f % 2 == 1) != more
  {
  }

  /** Changing bits goes undetected exactly when each of the 32 columns has an even number of changes. */
  lemma UndetectedExactly(s: seq<Byte>, t: seq<Byte>)
    requires |s| == |t|
    ensures Sum(s) == Sum(t) <==> forall c :: 0 <= c < 32 ==> Flips(s, t, c, WordCount(s)) % 2 == 0
  {
    if Sum(s) == Sum(t) {
      forall c | 0 <= c < 32 ensures Flips(s, t, c, WordCount(s)) % 2 == 0 {
        ColumnParity(s, t, c, WordCount(s));
        assert Sum(s)[c] == Sum(t)[c];
      }
    } else {
      var c := DifferAt(Sum(s), Sum(t));
      ColumnParity(s, t, c, WordCount(s));
    }
  }

  lemma DifferAt(x: Word, y: Word) returns (c: nat)
    requires x != y
    ensures c < 32 && x[c] != y[c]
  {
    c :| 0 <= c < 32 && x[c] != y[c];
  }

  /** One flipped bit is always detected. */
  lemma SingleFlipDetected(s: seq<Byte>, p: nat, k: nat)
    requires p < |s| && k < 8
    ensures Sum(s[p := s[p][k := !s[p][k]]]) != Sum(s)
  {
    var t := s[p := s[p][k := !s[p][k]]];
    var c := p % 4 * 8 + k;
    forall j: nat ensures WordBit(s, j, c) != WordBit(t, j, c) <==> j == p / 4 {
      assert 4 * j + c / 8 == p <==> j == p / 4;
    }
    OneFlip(s, t, c, p / 4, WordCount(s));
    UndetectedExactly(s, t);
  }

  lemma {:induction false} OneFlip(s: seq<Byte>, t: seq<Byte>, c: nat, at: nat, n: nat)
    requires c < 32 && forall j: nat :: WordBit(s, j, c) != WordBit(t, j, c) <==> j == at
    ensures Flips(s, t, c, n) == if at < n then 1 else 0
    decreases n
  {
    if n > 0 {
      OneFlip(s, t, c, at, n - 1);
    }
  }

  // ---------------------------------------------------------------- what the sum is

  lemma {:induction false} ParityOfBegin(a: seq<Byte>, b: seq<Byte>, c: nat, n: nat)
    requires c < 32 && 4 * n <= |a|
    ensures Parity(a + b, c, n) == Parity(a, c, n)
    decreases n
  {
    if n > 0 {
      ParityOfBegin(a, b, c, n - 1);
      assert Padded(a + b, 4 * (n - 1) + c / 8) == Padded(a, 4 * (n - 1) + c / 8);
    }
  }

  lemma {:induction false} ParityOfJoin(a: seq<Byte>, b: seq<Byte>, c: nat, m: nat, n: nat)
    requires c < 32 && |a| == 4 * m
    ensures Parity(a + b, c, m + n) == (Parity(a, c, m) != Parity(b, c, n))
    decreases n
  {
    if n == 0 {
      ParityOfBegin(a, b, c, m);
    } else {
      ParityOfJoin(a, b, c, m, n - 1);
      WordBitOfJoin(a, b, c, m, n - 1);
      assert m + n - 1 == m + (n - 1);
    }
  }

  lemma WordBitOfJoin(a: seq<Byte>, b: seq<Byte>, c: nat, m: nat, n: nat)
    requires c < 32 && |a| == 4 * m
    ensures WordBit(a + b, m + n, c) == WordBit(b, n, c)
  {
    var p := 4 * n + c / 8;
    assert 4 * (m + n) + c / 8 == |a| + p;
    assert Padded(a + b, |a| + p) == Padded(b, p);
  }

  /** The sum of a whole number of words and what follows is the XOR of their sums. */
  lemma SumOfJoin(a: seq<Byte>, b: seq<Byte>)
    requires |a| % 4 == 0
    ensures Sum(a + b) == Xor(Sum(a), Sum(b))
  {
    var m := |a| / 4;
    assert WordCount(a) == m && WordCount(a + b) == m + WordCount(b);
    forall c | 0 <= c < 32 ensures Sum(a + b)[c] == (Sum(a)[c] != Sum(b)[c]) {
      ParityOfJoin(a, b, c, m, WordCount(b));
    }
  }

  /** Four bytes are summed to the word they are in memory, the first byte lowest; missing bytes count as zero. */
  lemma SumOfWord(s: seq<Byte>)
    requires 1 <= |s| <= 4
    ensures Sum(s) == Padded(s, 0) + Padded(s, 1) + Padded(s, 2) + Padded(s, 3)
  {
    var w := Padded(s, 0) + Padded(s, 1) + Padded(s, 2) + Padded(s, 3);
    forall c | 0 <= c < 32 ensures Sum(s)[c] == w[c] {
      assert Parity(s, c, 1) == WordBit(s, 0, c);
      assert w[c] == Padded(s, c / 8)[c % 8];
    }
  }

  lemma SumOfNothing()
    ensures Sum([]) == ZeroWord()
  {
  }

  /** Two flips in one column are missed: bit 0 of byte 0 and of byte 4. */
  lemma TwoFlipsMissed() returns (s: seq<Byte>, t: seq<Byte>)
    ensures |s| == |t| == 8 && s != t && Sum(s) == Sum(t)
  {
    s := seq(8, _ => ZeroByte());
    var b: Byte := ZeroByte()[0 := true];
    t := s[0 := b][4 := b];
    assert t[0][0] != s[0][0];
    forall c | 0 <= c < 32 ensures Flips(s, t, c, 2) % 2 == 0 {
      assert WordBit(s, 0, c) == WordBit(s, 1, c) && WordBit(t, 0, c) == WordBit(t, 1, c);
      assert Flips(s, t, c, 0) == 0;
      assert Flips(s, t, c, 2) == 2 * Flips(s, t, c, 1);
    }
    UndetectedExactly(s, t);
  }
}
