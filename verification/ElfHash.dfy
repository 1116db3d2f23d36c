/** The SysV symbol hash, in 32-bit wrapping arithmetic. */
module ElfHash {

  type Name = seq<bv8>

  /** One more character, before the top nibble is folded back. */
  function Shifted(h: bv32, c: bv8): bv32 {
    (h << 4) + c as bv32
  }

  /** The end of one pass: the nibble g is folded back by unconditional exclusive-ors. */
  function Fold(x: bv32): bv32 {
    var g := x & 0xf000_0000;
    (x ^ g) ^ (g >> 24)
  }

  function Round(h: bv32, c: bv8): bv32 {
    Fold(Shifted(h, c))
  }

  function Hash(name: Name): bv32 {
    if name == [] then 0
    else Round(Hash(name[..|name| - 1]), name[|name| - 1])
  }

  /** The gABI's elf_hash (chapter 5, "Hash Table") folds the nibble only when it is nonzero, and
      masks it out in either case. */
  function ReferenceFold(x: bv32): bv32 {
    var g := x & 0xf000_0000;
    if g != 0 then (x ^ (g >> 24)) & !g else x & !g
  }

  function ReferenceRound(h: bv32, c: bv8): bv32 {
    ReferenceFold((h << 4) + c as bv32)
  }

  function ReferenceHash(name: Name): bv32 {
    if name == [] then 0
    else ReferenceRound(ReferenceHash(name[..|name| - 1]), name[|name| - 1])
  }

  lemma FoldIsReference(x: bv32)
    ensures Fold(x) == ReferenceFold(x)
  {
  }

  lemma RoundIsReference(h: bv32, c: bv8)
    ensures Round(h, c) == ReferenceRound(h, c)
  {
    hide Fold, ReferenceFold;
    FoldIsReference(Shifted(h, c));
  }

  /** One more character of a value already known. */
  lemma NextHash(name: Name, k: nat, h: bv32, next: bv32)
    requires k < |name| && ReferenceHash(name[..k]) == h && ReferenceRound(h, name[k]) == next
    ensures ReferenceHash(name[..k + 1]) == next
  {
    hide ReferenceRound;
    assert name[..k + 1][..k] == name[..k];
  }

  lemma KnownRounds()
    ensures ReferenceRound(0, 0x61) == 0x61 && ReferenceRound(0, 0x64) == 0x64 && ReferenceRound(0x64, 0x6c) == 0x6ac
    ensures ReferenceRound(0x6ac, 0x63) == 0x6b23 && ReferenceRound(0x6b23, 0x6c) == 0x6_b29c
    ensures ReferenceRound(0x6_b29c, 0x6f) == 0x6b_2a2f && ReferenceRound(0x6b_2a2f, 0x73) == 0x6b2_a363
    ensures ReferenceRound(0x6b2_a363, 0x65) == 0xb2a_36f5
  {
  }

  /** Values of elf_hash: of "a", and of "dlclose", at whose end the nibble is folded. */
  lemma KnownHashes()
    ensures ReferenceHash([0x61]) == 0x61
    ensures ReferenceHash([0x64, 0x6c, 0x63, 0x6c, 0x6f, 0x73, 0x65]) == 0xb2a_36f5
  {
    hide ReferenceRound;
    KnownRounds();
    var a: Name, name: Name := [0x61], [0x64, 0x6c, 0x63, 0x6c, 0x6f, 0x73, 0x65];
    NextHash(a, 0, 0, 0x61);
    NextHash(name, 0, 0, 0x64);
    NextHash(name, 1, 0x64, 0x6ac);
    NextHash(name, 2, 0x6ac, 0x6b23);
    NextHash(name, 3, 0x6b23, 0x6_b29c);
    NextHash(name, 4, 0x6_b29c, 0x6b_2a2f);
    NextHash(name, 5, 0x6b_2a2f, 0x6b2_a363);
    NextHash(name, 6, 0x6b2_a363, 0xb2a_36f5);
    assert a[..1] == a && name[..7] == name;
  }

  /** elfhash is the reference function, on every string. */
  lemma {:induction false} HashIsReference(name: Name)
    ensures Hash(name) == ReferenceHash(name)
  {
    if name != [] {
      var n := |name| - 1;
      HashIsReference(name[..n]);
      RoundIsReference(Hash(name[..n]), name[n]);
    }
  }

  lemma FoldFits(x: bv32)
    ensures Fold(x) < 0x1000_0000
  {
  }

  /** The hash stays below 2^28. */
  lemma HashFits(name: Name)
    ensures Hash(name) < 0x1000_0000
  {
    if name != [] {
      FoldFits(Shifted(Hash(name[..|name| - 1]), name[|name| - 1]));
    }
  }

  /** The hash as the unsigned number that indexes the buckets. */
  function HashCode(name: Name): nat {
    ReferenceHash(name) as nat
  }

  /** elfhash: the rounds run over the string from left to right. */
  method Compute(name: Name) returns (code: nat)
    ensures code == ReferenceHash(name) as nat
  {
    var h: bv32 := 0;
    for i := 0 to |name|
      invariant h == Hash(name[..i])
    {
      assert name[..i + 1][..i] == name[..i];
      h := Round(h, name[i]);
    }
    assert name[..|name|] == name;
    HashIsReference(name);
    code := h as nat;
  }
}
