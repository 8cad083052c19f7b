/** The checksum over the two descriptor sectors: map_done stores it (map.c), the boot loader
    (second.S) and the status display (lilo.c) verify it. */
module Checksum {
  const INIT_CKS: bv16 := 0xabcd
  const WORDS := 512

  // The 512 words of the descriptor sectors; word 0 is the checksum.
  type Table = t: seq<bv16> | |t| == WORDS witness seq(WORDS, _ => 0)

  // What XORing words into a start value amounts to.
  function Folded(start: bv16, words: seq<bv16>): bv16 {
    if words == [] then start else Xor(Folded(start, words[..|words| - 1]), words[|words| - 1])
  }

  function Xor(a: bv16, b: bv16): bv16 {
    a ^ b
  }

  // map_done
  method Store(table: array<bv16>)
    requires table.Length == WORDS
    modifies table
    ensures table[1..] == old(table[1..]) && Sound(table[..])
  {
    hide Xor;
    table[0] := INIT_CKS;
    var i := 1;
    while i < table.Length
      invariant 1 <= i <= table.Length && table[1..] == old(table[1..])
      invariant table[0] == Folded(INIT_CKS, table[1..i])
    {
      assert table[1..i + 1][..i - 1] == table[1..i];
      table[0] := Xor(table[0], table[i]);
      i := i + 1;
    }
    assert table[1..i] == table[..][1..];
  }

  // csloop in the loader, and the end of show_images
  method Verify(table: Table) returns (okay: bool)
    ensures okay <==> Sound(table)
  {
    hide Xor, Sound;
    var sum := INIT_CKS;
    for i := 0 to WORDS
      invariant sum == Folded(INIT_CKS, table[..i])
    {
      assert table[..i + 1][..i] == table[..i];
      sum := Xor(sum, table[i]);
    }
    assert table[..WORDS] == table;
    SoundIsZero(table);
    okay := sum == 0;
  }

  lemma {:induction false} HeadCancels(start: bv16, words: seq<bv16>)
    requires words != []
    ensures Folded(start, words) == Xor(words[0], Folded(start, words[1..]))
    decreases |words|
  {
    hide Xor;
    var n := |words| - 1;
    if n == 0 {
      assert words[..n] == [] && words[1..] == [];
      Commutes(start, words[0]);
    } else {
      HeadCancels(start, words[..n]);
      assert words[..n][1..] == words[1..][..n - 1];
      Regroups(words[0], Folded(start, words[1..][..n - 1]), words[n]);
    }
  }

  lemma Commutes(a: bv16, b: bv16)
    ensures Xor(a, b) == Xor(b, a)
  {
  }

  lemma Regroups(a: bv16, b: bv16, c: bv16)
    ensures Xor(Xor(a, b), c) == Xor(a, Xor(b, c))
  {
  }

  lemma Difference(a: bv16, b: bv16)
    ensures Xor(a, b) == 0 <==> a == b
    ensures Xor(0, a) == a
  {
  }

  // The bits in which b and c differ turn a ^ b into a ^ c.
  lemma Turns(a: bv16, b: bv16, c: bv16)
    ensures Xor(Xor(a, b), Xor(b, c)) == Xor(a, c)
  {
  }

  lemma Swaps(a: bv16, b: bv16, c: bv16)
    ensures Xor(Xor(a, b), c) == Xor(Xor(a, c), b)
  {
  }

  // Replacing a word changes the result by the bits in which the old and the new word differ.
  lemma {:induction false} Replaced(start: bv16, words: seq<bv16>, k: nat, w: bv16)
    requires k < |words|
    ensures Folded(start, words[k := w]) == Xor(Folded(start, words), Xor(words[k], w))
    decreases |words|
  {
    hide Xor;
    var n := |words| - 1;
    if k == n {
      assert words[k := w][..n] == words[..n];
      Turns(Folded(start, words[..n]), words[k], w);
    } else {
      assert words[k := w][..n] == words[..n][k := w];
      Replaced(start, words[..n], k, w);
      Swaps(Folded(start, words[..n]), words[n], Xor(words[k], w));
    }
  }

  ghost predicate Sound(table: Table) {
    table[0] == Folded(INIT_CKS, table[1..])
  }

  lemma SoundIsZero(table: Table)
    ensures Sound(table) <==> Folded(INIT_CKS, table) == 0
  {
    hide Xor;
    HeadCancels(INIT_CKS, table);
    Difference(table[0], Folded(INIT_CKS, table[1..]));
  }

  // In a table that passes the check, no single word can change without failing it.
  lemma SingleChangeIsFound(table: Table, k: nat, w: bv16)
    requires Sound(table) && k < WORDS
    ensures Sound(table[k := w]) <==> w == table[k]
  {
    hide Xor, Sound, Folded;
    SoundIsZero(table);
    SoundIsZero(table[k := w]);
    Replaced(INIT_CKS, table, k, w);
    Difference(table[k], w);
    Difference(Xor(table[k], w), 0);
  }

  // Two changes go unnoticed exactly if they flip the same bits, as exchanging two words does.
  lemma DoubleChange(table: Table, i: nat, v: bv16, j: nat, w: bv16)
    requires Sound(table) && i < WORDS && j < WORDS && i != j
    ensures Sound(table[i := v][j := w]) <==> Xor(table[i], v) == Xor(table[j], w)
  {
    hide Xor, Sound, Folded;
    SoundIsZero(table);
    SoundIsZero(table[i := v][j := w]);
    Replaced(INIT_CKS, table, i, v);
    Replaced(INIT_CKS, table[i := v], j, w);
    Difference(Xor(table[i], v), Xor(table[j], w));
  }
}
