/** Hash functions of keys, and the slot a key belongs to among n. */
module Hashing {

  type Hash = int -> nat

  function Home(hash: Hash, key: int, n: nat): (h: nat)
    requires n > 0
    ensures h < n
  {
    hash(key) % n
  }

  function Mixed(x: bv32): bv32 {
    ((x >> 16) ^ x) * 0x45d9f3b
  }

  function Folded(x: bv32): bv32 {
    (x >> 16) ^ x
  }

  function Word(key: int): bv32 {
    (key % 0x1_0000_0000) as bv32
  }

  /** hash_int, on the key as an unsigned. */
  function HashInt(key: int): nat {
    Folded(Mixed(Mixed(Word(key)))) as nat
  }

  lemma MixedOnce()
    ensures Mixed(1) == 0x45d9f3b && Mixed(4) == 0x1176_7cec
  {
  }

  lemma MixedTwice()
    ensures Mixed(0x45d9f3b) == 0x3125_2a82 && Mixed(0x1176_7cec) == 0xcd4f_e87e
  {
  }

  lemma FoldedLast()
    ensures Folded(0x3125_2a82) == 824515495 && Folded(0xcd4f_e87e) == 3444516145
  {
  }

  lemma WordOne()
    ensures Word(1) == 1
  {
    var m := 1 % 0x1_0000_0000;
    assert m == 1;
    assert m as bv32 == 1;
  }

  lemma WordFour()
    ensures Word(4) == 4
  {
    var m := 4 % 0x1_0000_0000;
    assert m == 4;
    assert m as bv32 == 4;
  }

  lemma HashOfOne()
    ensures HashInt(1) == 824515495
  {
    WordOne();
    MixedOnce();
    MixedTwice();
    FoldedLast();
  }

  lemma HashOfFour()
    ensures HashInt(4) == 3444516145
  {
    WordFour();
    MixedOnce();
    MixedTwice();
    FoldedLast();
  }

  /** Two keys that share a home among ten slots. */
  lemma OneMeetsFour()
    ensures Home(HashInt, 1, 10) == Home(HashInt, 4, 10) == 5
  {
    HashOfOne();
    HashOfFour();
  }
}
