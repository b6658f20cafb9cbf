/** MurmurHash3 for 32-bit words with seed 0 (playground_util/murmurhash.cc). */
module Murmur {
  // ---------- the rounds ----------

  function Rol15(x: bv32): bv32 { (x << 15) | (x >> 17) }

  function Rol13(x: bv32): bv32 { (x << 13) | (x >> 19) }

  // The multipliers c1, c2, m and those of the finaliser.
  function MulC1(k: bv32): bv32 { k * 0xcc9e2d51 }

  function MulC2(k: bv32): bv32 { k * 0x1b873593 }

  function MulM(h: bv32): bv32 { h * 5 }

  function MulF1(h: bv32): bv32 { h * 0x85ebca6b }

  function MulF2(h: bv32): bv32 { h * 0xc2b2ae35 }

  function AddN(h: bv32): bv32 { h + 0xe6546b64 }

  function Scramble(k: bv32): bv32 { MulC2(Rol15(MulC1(k))) }

  function Shake(h: bv32): bv32 { AddN(MulM(Rol13(h))) }

  function Xor(x: bv32, y: bv32): bv32 { x ^ y }

  function Absorb(hash: bv32, k: bv32): bv32 { Shake(Xor(hash, Scramble(k))) }

  function Fold16(h: bv32): bv32 { h ^ (h >> 16) }

  function Fold13(h: bv32): bv32 { h ^ (h >> 13) }

  function Finalise(hash: bv32): bv32 { Fold16(MulF2(Fold13(MulF1(Fold16(hash))))) }

  /** Four bytes as a word, the first in the low byte. */
  function Word(b0: bv8, b1: bv8, b2: bv8, b3: bv8): bv32 {
    (b0 as bv32) | ((b1 as bv32) << 8) | ((b2 as bv32) << 16) | ((b3 as bv32) << 24)
  }

  /** The little-endian word at byte position p. */
  function LoadWord(data: seq<bv8>, p: nat): bv32
    requires p + 4 <= |data|
  {
    Word(data[p], data[p + 1], data[p + 2], data[p + 3])
  }

  /** The first n words of the input. */
  function Blocks(data: seq<bv8>, n: nat): (words: seq<bv32>)
    requires 4 * n <= |data|
    ensures |words| == n
  {
    if n == 0 then [] else Blocks(data, n - 1) + [LoadWord(data, 4 * (n - 1))]
  }

  /** The hash state after absorbing a list of words. */
  function AbsorbAll(words: seq<bv32>, hash: bv32): bv32 {
    if words == [] then hash else Absorb(AbsorbAll(words[..|words| - 1], hash), words[|words| - 1])
  }

  function Plus(x: bv32, y: bv32): bv32 { x + y }

  /** A byte moved to byte position i of a word. */
  function Shifted(b: bv8, i: nat): bv32
    requires i < 3
  {
    if i == 0 then b as bv32 else if i == 1 then (b as bv32) << 8 else (b as bv32) << 16
  }

  /** The remaining bytes as a word, the first in the low byte. */
  function TailWord(tail: seq<bv8>): bv32
    requires |tail| < 4
  {
    if tail == [] then 0
    else Plus(TailWord(tail[..|tail| - 1]), Shifted(tail[|tail| - 1], |tail| - 1))
  }

  /** The number of bytes, counted in 32 bits. */
  function Length32(n: nat): bv32 {
    if n == 0 then 0 else Length32(n - 1) + 1
  }

  function HashOf(words: seq<bv32>, tail: seq<bv8>, length: bv32): bv32
    requires |tail| < 4
  {
    Finalise(Xor(Xor(AbsorbAll(words, 0), Scramble(TailWord(tail))), length))
  }

  function Tail(data: seq<bv8>): (tail: seq<bv8>)
    ensures |tail| == |data| % 4
  {
    data[|data| / 4 * 4..]
  }

  function Hash(data: seq<bv8>): bv32 {
    HashOf(Blocks(data, |data| / 4), Tail(data), Length32(|data|))
  }

  method Murmurhash3_32(data: seq<bv8>) returns (hash: bv32)
    ensures hash == Hash(data)
  {
    hide Rol15, Rol13, MulC1, MulC2, MulM, MulF1, MulF2, AddN, Fold16, Fold13, LoadWord, TailWord;
    hash := 0;
    var chunk, end := 0, |data| / 4;
    while chunk != end
      invariant chunk <= end
      invariant hash == AbsorbAll(Blocks(data, chunk), 0)
    {
      var k := LoadWord(data, 4 * chunk);
      k := MulC1(k);
      k := Rol15(k);
      k := MulC2(k);
      hash := Xor(hash, k);
      hash := Rol13(hash);
      hash := AddN(MulM(hash));
      chunk := chunk + 1;
      assert Blocks(data, chunk)[..chunk - 1] == Blocks(data, chunk - 1);
    }

    var remaining := RemainingBytes(data);
    remaining := MulC1(remaining);
    remaining := Rol15(remaining);
    remaining := MulC2(remaining);

    hash := Xor(hash, remaining);
    hash := Xor(hash, Length32(|data|));
    hash := Fold16(hash);
    hash := MulF1(hash);
    hash := Fold13(hash);
    hash := MulF2(hash);
    hash := Fold16(hash);
  }

  method RemainingBytes(data: seq<bv8>) returns (remaining: bv32)
    ensures remaining == TailWord(Tail(data))
  {
    hide Shifted, Plus;
    remaining := 0;
    for i := 0 to |data| % 4
      invariant remaining == TailWord(Tail(data)[..i])
    {
      remaining := Plus(remaining, Shifted(data[|data| / 4 * 4 + i], i));
      assert Tail(data)[..i + 1][..i] == Tail(data)[..i];
    }
    assert Tail(data)[..|data| % 4] == Tail(data);
  }

  // ---------- the inverse rounds ----------

  function Ror15(x: bv32): bv32 { (x << 17) | (x >> 15) }

  function Ror13(x: bv32): bv32 { (x << 19) | (x >> 13) }

  // Multiplication by the inverses of the multipliers modulo 2^32.
  function DivC1(k: bv32): bv32 { k * 0xdee13bb1 }

  function DivC2(k: bv32): bv32 { k * 0x56ed309b }

  function DivM(h: bv32): bv32 { h * 0xcccccccd }

  function DivF1(h: bv32): bv32 { h * 0xa5cb9243 }

  function DivF2(h: bv32): bv32 { h * 0x7ed1b41d }

  function SubN(h: bv32): bv32 { h - 0xe6546b64 }

  function Unscramble(k: bv32): bv32 { DivC1(Ror15(DivC2(k))) }

  function Unshake(h: bv32): bv32 { Ror13(DivM(SubN(h))) }

  function Unfold13(h: bv32): bv32 { h ^ (h >> 13) ^ (h >> 26) }

  function Unfinalise(hash: bv32): bv32 { Fold16(DivF1(Unfold13(DivF2(Fold16(hash))))) }

  /** The hash state before word k was absorbed. */
  function Unabsorb(hash: bv32, k: bv32): bv32 { Xor(Unshake(hash), Scramble(k)) }

  /** The word whose absorption leads from one hash state to another. */
  function WordBetween(before: bv32, after: bv32): bv32 { Unscramble(Xor(Unshake(after), before)) }

  function UnabsorbAll(words: seq<bv32>, hash: bv32): bv32 {
    if words == [] then hash else UnabsorbAll(words[..|words| - 1], Unabsorb(hash, words[|words| - 1]))
  }

  lemma MulInverse(k: bv32)
    ensures DivC1(MulC1(k)) == k && MulC1(DivC1(k)) == k
    ensures DivC2(MulC2(k)) == k && MulC2(DivC2(k)) == k
    ensures DivM(MulM(k)) == k && MulM(DivM(k)) == k
    ensures DivF1(MulF1(k)) == k && MulF1(DivF1(k)) == k
    ensures DivF2(MulF2(k)) == k && MulF2(DivF2(k)) == k
    ensures SubN(AddN(k)) == k && AddN(SubN(k)) == k
  {
  }

  lemma RotateInverse(k: bv32)
    ensures Ror15(Rol15(k)) == k && Rol15(Ror15(k)) == k
    ensures Ror13(Rol13(k)) == k && Rol13(Ror13(k)) == k
  {
  }

  lemma FoldInverse(k: bv32)
    ensures Fold16(Fold16(k)) == k
    ensures Unfold13(Fold13(k)) == k
    ensures Fold13(Unfold13(k)) == k
  {
    XorShift16(k);
    var x := k ^ (k >> 16);
    assert Fold16(k) == x;
    XorShift13(k);
    var y := k ^ (k >> 13);
    assert Fold13(k) == y;
    XorShift13And26(k);
    var z := k ^ (k >> 13) ^ (k >> 26);
    assert Unfold13(k) == z;
  }

  lemma XorShift16(k: bv32)
    ensures var x := k ^ (k >> 16); x ^ (x >> 16) == k
  {
  }

  lemma XorShift13(k: bv32)
    ensures var y := k ^ (k >> 13); y ^ (y >> 13) ^ (y >> 26) == k
  {
  }

  lemma XorShift13And26(k: bv32)
    ensures var z := k ^ (k >> 13) ^ (k >> 26); z ^ (z >> 13) == k
  {
  }

  lemma XorTwice(x: bv32, y: bv32)
    ensures Xor(Xor(x, y), y) == x && Xor(Xor(x, y), x) == y && Xor(x, Xor(y, x)) == y
  {
  }

  lemma ScrambleInverse(k: bv32)
    ensures Unscramble(Scramble(k)) == k && Scramble(Unscramble(k)) == k
  {
    hide MulC1, DivC1, MulC2, DivC2, Rol15, Ror15;
    MulInverse(k);
    RotateInverse(MulC1(k));
    MulInverse(Rol15(MulC1(k)));
    RotateInverse(DivC2(k));
    MulInverse(Ror15(DivC2(k)));
  }

  lemma ShakeInverse(h: bv32)
    ensures Unshake(Shake(h)) == h && Shake(Unshake(h)) == h
  {
    hide MulM, DivM, AddN, SubN, Rol13, Ror13;
    RotateInverse(h);
    MulInverse(Rol13(h));
    MulInverse(MulM(Rol13(h)));
    MulInverse(h);
    MulInverse(SubN(h));
    RotateInverse(DivM(SubN(h)));
  }

  lemma FinaliseInverse(hash: bv32)
    ensures Unfinalise(Finalise(hash)) == hash && Finalise(Unfinalise(hash)) == hash
  {
    hide MulF1, DivF1, MulF2, DivF2, Fold16, Fold13, Unfold13;
    var h0 := Fold16(hash);
    FoldInverse(hash);
    MulInverse(h0);
    FoldInverse(MulF1(h0));
    MulInverse(Fold13(MulF1(h0)));
    FoldInverse(MulF2(Fold13(MulF1(h0))));
    FoldInverse(DivF2(h0));
    MulInverse(Unfold13(DivF2(h0)));
    FoldInverse(DivF1(Unfold13(DivF2(h0))));
  }

  lemma AbsorbInverse(hash: bv32, k: bv32)
    ensures Unabsorb(Absorb(hash, k), k) == hash && Absorb(Unabsorb(hash, k), k) == hash
    ensures WordBetween(hash, Absorb(hash, k)) == k
  {
    hide Shake, Unshake, Scramble, Unscramble, Xor;
    ShakeInverse(Xor(hash, Scramble(k)));
    XorTwice(hash, Scramble(k));
    ScrambleInverse(k);
    ShakeInverse(hash);
    XorTwice(Unshake(hash), Scramble(k));
  }

  lemma WordBetweenArrives(before: bv32, after: bv32)
    ensures Absorb(before, WordBetween(before, after)) == after
  {
    hide Shake, Unshake, Scramble, Unscramble, Xor;
    ShakeInverse(after);
    ScrambleInverse(Xor(Unshake(after), before));
    XorTwice(before, Unshake(after));
  }

  lemma {:induction false} AbsorbAllInverse(words: seq<bv32>, hash: bv32)
    ensures UnabsorbAll(words, AbsorbAll(words, hash)) == hash
    ensures AbsorbAll(words, UnabsorbAll(words, hash)) == hash
  {
    hide Absorb, Unabsorb;
    if words != [] {
      var init, last := words[..|words| - 1], words[|words| - 1];
      AbsorbInverse(AbsorbAll(init, hash), last);
      AbsorbAllInverse(init, hash);
      AbsorbInverse(hash, last);
      AbsorbAllInverse(init, Unabsorb(hash, last));
    }
  }

  lemma {:induction false} AbsorbAllAppend(front: seq<bv32>, back: seq<bv32>, hash: bv32)
    ensures AbsorbAll(front + back, hash) == AbsorbAll(back, AbsorbAll(front, hash))
  {
    hide Absorb;
    if back == [] {
      assert front + back == front;
    } else {
      var init := back[..|back| - 1];
      assert (front + back)[..|front + back| - 1] == front + init;
      AbsorbAllAppend(front, init, hash);
    }
  }

  // ---------- recovering one block or the tail from the hash ----------

  /** The word between `front` and `back`, computed from the hash and everything but that word. */
  function RecoverWord(hash: bv32, front: seq<bv32>, back: seq<bv32>, tail: seq<bv8>, length: bv32): bv32
    requires |tail| < 4
  {
    var end := Xor(Xor(Unfinalise(hash), length), Scramble(TailWord(tail)));
    WordBetween(AbsorbAll(front, 0), UnabsorbAll(back, end))
  }

  /** The tail word, computed from the hash and the blocks. */
  function RecoverTail(hash: bv32, words: seq<bv32>, length: bv32): bv32 {
    Unscramble(Xor(Xor(Unfinalise(hash), length), AbsorbAll(words, 0)))
  }

  /** With everything else fixed, hashing is a bijection between one word and the hash, and RecoverWord is its
      inverse. */
  lemma OneWordBijective(k: bv32, hash: bv32, front: seq<bv32>, back: seq<bv32>, tail: seq<bv8>, length: bv32)
    requires |tail| < 4
    ensures HashOf(front + [k] + back, tail, length) == hash <==> k == RecoverWord(hash, front, back, tail, length)
  {
    hide Absorb, WordBetween, Scramble, Finalise, Unfinalise, TailWord, Xor;
    var before, s := AbsorbAll(front, 0), Scramble(TailWord(tail));
    var after := Absorb(before, k);
    AbsorbAllAppend(front + [k], back, 0);
    AbsorbAllAppend(front, [k], 0);
    assert AbsorbAll([k], before) == after;
    // one direction: the hash gives the word back
    var end := AbsorbAll(back, after);
    FinaliseInverse(Xor(Xor(end, s), length));
    XorTwice(Xor(end, s), length);
    XorTwice(end, s);
    AbsorbAllInverse(back, after);
    AbsorbInverse(before, k);
    // the other: the recovered word leads to the hash
    var end' := Xor(Xor(Unfinalise(hash), length), s);
    var after' := UnabsorbAll(back, end');
    WordBetweenArrives(before, after');
    AbsorbAllInverse(back, end');
    FinaliseInverse(hash);
    XorTwice(Xor(Unfinalise(hash), length), s);
    XorTwice(Unfinalise(hash), length);
  }

  lemma TailWordRecovered(words: seq<bv32>, tail: seq<bv8>, length: bv32)
    requires |tail| < 4
    ensures RecoverTail(HashOf(words, tail, length), words, length) == TailWord(tail)
  {
    hide AbsorbAll, Scramble, Unscramble, Finalise, Unfinalise, TailWord, Xor;
    var h, s := AbsorbAll(words, 0), Scramble(TailWord(tail));
    FinaliseInverse(Xor(Xor(h, s), length));
    XorTwice(Xor(h, s), length);
    XorTwice(h, s);
    ScrambleInverse(TailWord(tail));
  }

  lemma SameBytesSameWord(a: seq<bv8>, b: seq<bv8>, p: nat)
    requires p + 4 <= |a| && p + 4 <= |b| && a[p..p + 4] == b[p..p + 4]
    ensures LoadWord(a, p) == LoadWord(b, p)
  {
    forall t | p <= t < p + 4 ensures a[t] == b[t] {
      assert a[t] == a[p..p + 4][t - p];
    }
  }

  lemma WordDeterminesBytes(a: seq<bv8>, b: seq<bv8>, p: nat)
    requires p + 4 <= |a| == |b| && LoadWord(a, p) == LoadWord(b, p)
    ensures a[p..p + 4] == b[p..p + 4]
  {
    SplitWord(a[p], a[p + 1], a[p + 2], a[p + 3]);
    SplitWord(b[p], b[p + 1], b[p + 2], b[p + 3]);
  }

  lemma SplitWord(b0: bv8, b1: bv8, b2: bv8, b3: bv8)
    ensures var w := Word(b0, b1, b2, b3);
      && (w & 0xFF) as bv8 == b0
      && ((w >> 8) & 0xFF) as bv8 == b1
      && ((w >> 16) & 0xFF) as bv8 == b2
      && ((w >> 24) & 0xFF) as bv8 == b3
  {
  }

  lemma TailWordDeterminesBytes(a: seq<bv8>, b: seq<bv8>)
    requires |a| == |b| < 4 && TailWord(a) == TailWord(b)
    ensures a == b
  {
    hide Shifted, Plus, ByteOf, TailWord;
    TailWordSum(a);
    TailWordSum(b);
    if |a| == 1 {
      SplitTail1(a[0]);
      SplitTail1(b[0]);
    } else if |a| == 2 {
      SplitTail2(a[0], a[1]);
      SplitTail2(b[0], b[1]);
    } else if |a| == 3 {
      SplitTail3(a[0], a[1], a[2]);
      SplitTail3(b[0], b[1], b[2]);
    }
  }

  lemma {:induction false} TailWordSum(t: seq<bv8>)
    requires |t| < 4
    ensures |t| == 1 ==> TailWord(t) == Plus(0, Shifted(t[0], 0))
    ensures |t| == 2 ==> TailWord(t) == Plus(Plus(0, Shifted(t[0], 0)), Shifted(t[1], 1))
    ensures |t| == 3 ==> TailWord(t) == Plus(Plus(Plus(0, Shifted(t[0], 0)), Shifted(t[1], 1)), Shifted(t[2], 2))
  {
    hide Shifted, Plus;
    if |t| > 1 {
      TailWordSum(t[..|t| - 1]);
    } else if |t| == 1 {
      assert t[..0] == [];
    }
  }

  /** Byte number i of a word. */
  function ByteOf(w: bv32, i: nat): bv8 {
    if i == 0 then (w & 0xFF) as bv8 else if i == 1 then ((w >> 8) & 0xFF) as bv8 else ((w >> 16) & 0xFF) as bv8
  }

  lemma SplitTail1(b0: bv8)
    ensures ByteOf(Plus(0, Shifted(b0, 0)), 0) == b0
  {
  }

  lemma SplitTail2(b0: bv8, b1: bv8)
    ensures var w := Plus(Plus(0, Shifted(b0, 0)), Shifted(b1, 1)); ByteOf(w, 0) == b0 && ByteOf(w, 1) == b1
  {
  }

  lemma SplitTail3(b0: bv8, b1: bv8, b2: bv8)
    ensures var w := Plus(Plus(Plus(0, Shifted(b0, 0)), Shifted(b1, 1)), Shifted(b2, 2));
      ByteOf(w, 0) == b0 && ByteOf(w, 1) == b1 && ByteOf(w, 2) == b2
  {
  }

  // ---------- no collision within a block or within the tail ----------

  lemma {:induction false} BlockAt(data: seq<bv8>, n: nat, i: nat)
    requires 4 * n <= |data| && i < n
    ensures Blocks(data, n)[i] == LoadWord(data, 4 * i)
  {
    if i < n - 1 {
      BlockAt(data, n - 1, i);
    }
  }

  lemma SameWordSameInput(a: seq<bv8>, b: seq<bv8>, i: nat)
    requires |a| == |b| && 4 * i + 4 <= |a| && LoadWord(a, 4 * i) == LoadWord(b, 4 * i)
    requires forall j :: 0 <= j < |a| && !(4 * i <= j < 4 * i + 4) ==> a[j] == b[j]
    ensures a == b
  {
    hide *;
    WordDeterminesBytes(a, b, 4 * i);
    assert a == a[..4 * i] + a[4 * i..4 * i + 4] + a[4 * i + 4..];
    assert b == a[..4 * i] + b[4 * i..4 * i + 4] + a[4 * i + 4..];
  }

  /** Inputs of one length that differ only inside one aligned four-byte block have different hashes. */
  lemma NoCollisionInBlock(a: seq<bv8>, b: seq<bv8>, i: nat)
    requires |a| == |b| && 4 * i + 4 <= |a|
    requires a != b
    requires forall j :: 0 <= j < |a| && !(4 * i <= j < 4 * i + 4) ==> a[j] == b[j]
    ensures Hash(a) != Hash(b)
  {
    hide HashOf, RecoverWord, LoadWord;
    var n := |a| / 4;
    var wa, wb := Blocks(a, n), Blocks(b, n);
    forall j | 0 <= j < n && j != i ensures wa[j] == wb[j] {
      BlockAt(a, n, j);
      BlockAt(b, n, j);
      SameBytesSameWord(a, b, 4 * j);
    }
    BlockAt(a, n, i);
    BlockAt(b, n, i);
    assert wa == wa[..i] + [wa[i]] + wa[i + 1..];
    assert wb == wa[..i] + [wb[i]] + wa[i + 1..];
    assert Tail(a) == Tail(b);
    OneWordBijective(wa[i], Hash(a), wa[..i], wa[i + 1..], Tail(a), Length32(|a|));
    OneWordBijective(wb[i], Hash(b), wa[..i], wa[i + 1..], Tail(a), Length32(|a|));
    if wa[i] == wb[i] {
      SameWordSameInput(a, b, i);
    }
  }

  /** Inputs with the same first n blocks. */
  lemma {:induction false} SameFront(a: seq<bv8>, b: seq<bv8>, n: nat)
    requires 4 * n <= |a| && 4 * n <= |b| && a[..4 * n] == b[..4 * n]
    ensures Blocks(a, n) == Blocks(b, n)
  {
    hide LoadWord;
    if n > 0 {
      var m := 4 * (n - 1);
      assert a[..m] == a[..4 * n][..m] == b[..m];
      assert a[m..m + 4] == a[..4 * n][m..] == b[m..m + 4];
      SameFront(a, b, n - 1);
      SameBytesSameWord(a, b, m);
    }
  }

  lemma FrontAndTail(a: seq<bv8>)
    ensures a == a[..|a| / 4 * 4] + Tail(a)
  {
  }

  /** Inputs of one length that differ only in the bytes after the last full block have different hashes. */
  lemma NoCollisionInTail(a: seq<bv8>, b: seq<bv8>)
    requires |a| == |b| && a != b
    requires a[..|a| / 4 * 4] == b[..|a| / 4 * 4]
    ensures Hash(a) != Hash(b)
  {
    hide HashOf, RecoverTail, LoadWord, TailWord, Blocks, Tail;
    var n := |a| / 4;
    SameFront(a, b, n);
    TailWordRecovered(Blocks(a, n), Tail(a), Length32(|a|));
    TailWordRecovered(Blocks(a, n), Tail(b), Length32(|a|));
    FrontAndTail(a);
    FrontAndTail(b);
    if Hash(a) == Hash(b) {
      TailWordDeterminesBytes(Tail(a), Tail(b));
    }
  }

  // ---------- the length ----------

  ghost predicate Zeros(bytes: seq<bv8>) {
    forall i :: 0 <= i < |bytes| ==> bytes[i] == 0
  }

  lemma {:induction false} ZerosAddNothing(tail: seq<bv8>, zeros: seq<bv8>)
    requires |tail| + |zeros| < 4 && Zeros(zeros)
    ensures TailWord(tail + zeros) == TailWord(tail)
  {
    if zeros == [] {
      assert tail + zeros == tail;
    } else {
      assert (tail + zeros)[..|tail + zeros| - 1] == tail + zeros[..|zeros| - 1];
      ZerosAddNothing(tail, zeros[..|zeros| - 1]);
    }
  }

  /** The blocks and the tail word do not show zero bytes added inside the last, partial block; the hash does, because
      the length is mixed in. */
  lemma NoCollisionByZeros(data: seq<bv8>, zeros: seq<bv8>)
    requires |data| % 4 + |zeros| < 4 && zeros != [] && Zeros(zeros)
    ensures Hash(data + zeros) != Hash(data)
  {
    var n := |data| / 4;
    assert |data + zeros| / 4 == n && Tail(data + zeros) == Tail(data) + zeros;
    ZerosAddNothing(Tail(data), zeros);
    SameFront(data, data + zeros, n);
    CloseLengthsDiffer(|data|, |zeros|);
    LengthRecovered(Blocks(data, n), Tail(data), Length32(|data|));
    LengthRecovered(Blocks(data, n), Tail(data + zeros), Length32(|data + zeros|));
    hide HashOf, TailWord, Blocks, Length32, Tail;
  }

  lemma CloseLengthsDiffer(n: nat, more: nat)
    requires 0 < more < 4
    ensures Length32(n + more) != Length32(n)
  {
    NextLength(n);
    NextLength(n + 1);
    NextLength(n + 2);
    NotBack(Length32(n));
    hide Length32, Next;
  }

  function Next(length: bv32): bv32 { length + 1 }

  lemma NextLength(n: nat)
    ensures Length32(n + 1) == Next(Length32(n))
  {
  }

  lemma NotBack(x: bv32)
    ensures Next(x) != x && Next(Next(x)) != x && Next(Next(Next(x))) != x
  {
  }

  /** The length comes back from the hash, the blocks and the tail. */
  lemma LengthRecovered(words: seq<bv32>, tail: seq<bv8>, length: bv32)
    requires |tail| < 4
    ensures Xor(Unfinalise(HashOf(words, tail, length)), Xor(AbsorbAll(words, 0), Scramble(TailWord(tail)))) == length
  {
    hide AbsorbAll, Scramble, Finalise, Unfinalise, TailWord;
    FinaliseInverse(Xor(Xor(AbsorbAll(words, 0), Scramble(TailWord(tail))), length));
  }

  // ---------- the repository's own cases ----------

  /** The hashes that the repository's test asks for, for inputs of no, three, four, seven and eight bytes. */
  lemma ExpectedHashes()
    ensures Hash([]) == 0
    ensures Hash([0x3c, 0xfd, 0xe6]) == 0x84077cd7
    ensures Hash([0xf1, 0xc2, 0x6b, 0x30]) == 0x5ee237f9
    ensures Hash([0x0b, 0x0d, 0x04, 0xc3, 0x6e, 0xd8, 0x0e]) == 0xd03bf07f
    ensures Hash([0x71, 0xe0, 0xfd, 0x77, 0xb0, 0x76, 0x70, 0xeb]) == 0x921bb379
  {
    HashOfTail(0x3c, 0xfd, 0xe6);
    HashOfBlock(0xf1, 0xc2, 0x6b, 0x30);
    HashOfBlockAndTail(0x0b, 0x0d, 0x04, 0xc3, 0x6e, 0xd8, 0x0e);
    HashOfTwoBlocks(0x71, 0xe0, 0xfd, 0x77, 0xb0, 0x76, 0x70, 0xeb);
    Expected3();
    Expected4();
    Expected7();
    Expected8();
    hide Hash, Xor, Absorb, Finalise, Scramble, Word, Plus, Shifted;
    EmptyHash();
  }

  /** The word of three remaining bytes. */
  function Three(b0: bv8, b1: bv8, b2: bv8): bv32 {
    Plus(Plus(Plus(0, Shifted(b0, 0)), Shifted(b1, 1)), Shifted(b2, 2))
  }

  lemma EmptyHash()
    ensures Hash([]) == 0
  {
  }

  lemma SmallLengths()
    ensures Length32(3) == 3 && Length32(4) == 4 && Length32(7) == 7 && Length32(8) == 8
  {
  }

  lemma Absorbed(j: bv32, k: bv32)
    ensures AbsorbAll([j], 0) == Absorb(0, j) && AbsorbAll([j, k], 0) == Absorb(Absorb(0, j), k)
  {
    hide Absorb;
    assert [j][..0] == [] && [j, k][..1] == [j];
  }

  lemma HashOfTail(b0: bv8, b1: bv8, b2: bv8)
    ensures Hash([b0, b1, b2]) == Finalise(Xor(Xor(0, Scramble(Three(b0, b1, b2))), 3))
  {
    SmallLengths();
    TailWordSum([b0, b1, b2]);
    assert Tail([b0, b1, b2]) == [b0, b1, b2];
    hide Xor, Scramble, Finalise, Shifted, Plus, TailWord, Length32;
  }

  lemma HashOfBlock(b0: bv8, b1: bv8, b2: bv8, b3: bv8)
    ensures Hash([b0, b1, b2, b3]) == Finalise(Xor(Xor(Absorb(0, Word(b0, b1, b2, b3)), Scramble(0)), 4))
  {
    hide Xor, Scramble, Finalise, Absorb;
    var data := [b0, b1, b2, b3];
    SmallLengths();
    assert Blocks(data, 1) == [Word(b0, b1, b2, b3)];
    assert Tail(data) == [];
    Absorbed(Word(b0, b1, b2, b3), 0);
    hide Blocks, Word, Length32, LoadWord, Tail, AbsorbAll;
  }

  lemma HashOfBlockAndTail(b0: bv8, b1: bv8, b2: bv8, b3: bv8, b4: bv8, b5: bv8, b6: bv8)
    ensures Hash([b0, b1, b2, b3, b4, b5, b6])
         == Finalise(Xor(Xor(Absorb(0, Word(b0, b1, b2, b3)), Scramble(Three(b4, b5, b6))), 7))
  {
    hide Xor, Scramble, Finalise, Absorb;
    var data := [b0, b1, b2, b3, b4, b5, b6];
    SmallLengths();
    TailWordSum([b4, b5, b6]);
    assert Blocks(data, 1) == [Word(b0, b1, b2, b3)];
    assert Tail(data) == [b4, b5, b6];
    Absorbed(Word(b0, b1, b2, b3), 0);
    hide Blocks, Word, Length32, LoadWord, Tail, TailWord, Shifted, Plus, AbsorbAll;
  }

  lemma HashOfTwoBlocks(b0: bv8, b1: bv8, b2: bv8, b3: bv8, b4: bv8, b5: bv8, b6: bv8, b7: bv8)
    ensures Hash([b0, b1, b2, b3, b4, b5, b6, b7])
         == Finalise(Xor(Xor(Absorb(Absorb(0, Word(b0, b1, b2, b3)), Word(b4, b5, b6, b7)), Scramble(0)), 8))
  {
    hide Xor, Scramble, Finalise, Absorb;
    var data := [b0, b1, b2, b3, b4, b5, b6, b7];
    SmallLengths();
    assert Blocks(data, 1) == [Word(b0, b1, b2, b3)];
    assert Blocks(data, 2) == [Word(b0, b1, b2, b3), Word(b4, b5, b6, b7)];
    assert Tail(data) == [];
    Absorbed(Word(b0, b1, b2, b3), Word(b4, b5, b6, b7));
    hide Blocks, Word, Length32, LoadWord, Tail, AbsorbAll;
  }

  lemma Expected3()
    ensures Finalise(Xor(Xor(0, Scramble(Three(0x3c, 0xfd, 0xe6))), 3)) == 0x84077cd7
  {
    assert Three(0x3c, 0xfd, 0xe6) == 0xe6fd3c;
    assert Scramble(0xe6fd3c) == 0x24aeaaf0;
    assert Finalise(0x24aeaaf3) == 0x84077cd7;
  }

  lemma Expected4()
    ensures Finalise(Xor(Xor(Absorb(0, Word(0xf1, 0xc2, 0x6b, 0x30)), Scramble(0)), 4)) == 0x5ee237f9
  {
    assert Word(0xf1, 0xc2, 0x6b, 0x30) == 0x306bc2f1;
    assert Absorb(0, 0x306bc2f1) == 0x1f9edd0c;
    assert Scramble(0) == 0;
    assert Finalise(0x1f9edd08) == 0x5ee237f9;
  }

  lemma Expected7()
    ensures Finalise(Xor(Xor(Absorb(0, Word(0x0b, 0x0d, 0x04, 0xc3)), Scramble(Three(0x6e, 0xd8, 0x0e))), 7))
         == 0xd03bf07f
  {
    assert Word(0x0b, 0x0d, 0x04, 0xc3) == 0xc3040d0b;
    assert Absorb(0, 0xc3040d0b) == 0x40e71c11;
    assert Three(0x6e, 0xd8, 0x0e) == 0xed86e;
    assert Scramble(0xed86e) == 0x796ae7f0;
    assert Finalise(0x398dfbe6) == 0xd03bf07f;
  }

  lemma Expected8()
    ensures Finalise(Xor(Xor(Absorb(Absorb(0, Word(0x71, 0xe0, 0xfd, 0x77)), Word(0xb0, 0x76, 0x70, 0xeb)),
                             Scramble(0)), 8)) == 0x921bb379
  {
    assert Word(0x71, 0xe0, 0xfd, 0x77) == 0x77fde071 && Word(0xb0, 0x76, 0x70, 0xeb) == 0xeb7076b0;
    assert Absorb(0, 0x77fde071) == 0xa3b4c079;
    assert Absorb(0xa3b4c079, 0xeb7076b0) == 0xd787c6df;
    assert Scramble(0) == 0;
    assert Finalise(0xd787c6d7) == 0x921bb379;
  }
}
