/**
 Where the constants of SHA-256 come from (sections 4.2.2 and 5.3.3 of FIPS 180-4): the first 32 bits of the
 fractional parts of the cube roots of the first 64 primes, and of the square roots of the first eight.
 */
module Sha256Roots {
  import opened Sha256

  const PRIMES: seq<seq<nat>> := [
    [2, 3, 5, 7, 11, 13, 17, 19],
    [23, 29, 31, 37, 41, 43, 47, 53],
    [59, 61, 67, 71, 73, 79, 83, 89],
    [97, 101, 103, 107, 109, 113, 127, 131],
    [137, 139, 149, 151, 157, 163, 167, 173],
    [179, 181, 191, 193, 197, 199, 211, 223],
    [227, 229, 233, 239, 241, 251, 257, 263],
    [269, 271, 277, 281, 283, 293, 307, 311]]

  function Prime(t: nat): nat
    requires t < 64
  {
    PRIMES[t / 8][t % 8]
  }

  /** `f + w / 2^32` is the cube root of `p`, cut off after 32 bits. */
  predicate CubeRoot(f: nat, w: Word, p: nat) {
    var x := f * 0x1_0000_0000 + w as nat;
    x * x * x <= p * 0x1_0000_0000_0000_0000_0000_0000 < (x + 1) * (x + 1) * (x + 1)
  }

  predicate SquareRoot(f: nat, w: Word, p: nat) {
    var x := f * 0x1_0000_0000 + w as nat;
    x * x <= p * 0x1_0000_0000_0000_0000 < (x + 1) * (x + 1)
  }

  /** The round constants. */
  lemma KeysAreCubeRoots(t: nat) returns (f: nat)
    requires t < 64
    ensures CubeRoot(f, Key(t), Prime(t))
  {
    hide Key, Prime, CubeRoot;
    if t < 4 {
      f := KeysFrom0(t);
    } else if t < 8 {
      f := KeysFrom4(t);
    } else if t < 12 {
      f := KeysFrom8(t);
    } else if t < 16 {
      f := KeysFrom12(t);
    } else if t < 20 {
      f := KeysFrom16(t);
    } else if t < 24 {
      f := KeysFrom20(t);
    } else if t < 28 {
      f := KeysFrom24(t);
    } else if t < 32 {
      f := KeysFrom28(t);
    } else if t < 36 {
      f := KeysFrom32(t);
    } else if t < 40 {
      f := KeysFrom36(t);
    } else if t < 44 {
      f := KeysFrom40(t);
    } else if t < 48 {
      f := KeysFrom44(t);
    } else if t < 52 {
      f := KeysFrom48(t);
    } else if t < 56 {
      f := KeysFrom52(t);
    } else if t < 60 {
      f := KeysFrom56(t);
    } else {
      f := KeysFrom60(t);
    }
  }

  lemma KeysFrom0(t: nat) returns (f: nat)
    requires 0 <= t < 4
    ensures CubeRoot(f, Key(t), Prime(t))
  {
    match t
    case 0 => f := 1;
    case 1 => f := 1;
    case 2 => f := 1;
    case _ => f := 1;
  }

  lemma KeysFrom4(t: nat) returns (f: nat)
    requires 4 <= t < 8
    ensures CubeRoot(f, Key(t), Prime(t))
  {
    match t
    case 4 => f := 2;
    case 5 => f := 2;
    case 6 => f := 2;
    case _ => f := 2;
  }

  lemma KeysFrom8(t: nat) returns (f: nat)
    requires 8 <= t < 12
    ensures CubeRoot(f, Key(t), Prime(t))
  {
    match t
    case 8 => f := 2;
    case 9 => f := 3;
    case 10 => f := 3;
    case _ => f := 3;
  }

  lemma KeysFrom12(t: nat) returns (f: nat)
    requires 12 <= t < 16
    ensures CubeRoot(f, Key(t), Prime(t))
  {
    match t
    case 12 => f := 3;
    case 13 => f := 3;
    case 14 => f := 3;
    case _ => f := 3;
  }

  lemma KeysFrom16(t: nat) returns (f: nat)
    requires 16 <= t < 20
    ensures CubeRoot(f, Key(t), Prime(t))
  {
    match t
    case 16 => f := 3;
    case 17 => f := 3;
    case 18 => f := 4;
    case _ => f := 4;
  }

  lemma KeysFrom20(t: nat) returns (f: nat)
    requires 20 <= t < 24
    ensures CubeRoot(f, Key(t), Prime(t))
  {
    match t
    case 20 => f := 4;
    case 21 => f := 4;
    case 22 => f := 4;
    case _ => f := 4;
  }

  lemma KeysFrom24(t: nat) returns (f: nat)
    requires 24 <= t < 28
    ensures CubeRoot(f, Key(t), Prime(t))
  {
    match t
    case 24 => f := 4;
    case 25 => f := 4;
    case 26 => f := 4;
    case _ => f := 4;
  }

  lemma KeysFrom28(t: nat) returns (f: nat)
    requires 28 <= t < 32
    ensures CubeRoot(f, Key(t), Prime(t))
  {
    match t
    case 28 => f := 4;
    case 29 => f := 4;
    case 30 => f := 5;
    case _ => f := 5;
  }

  lemma KeysFrom32(t: nat) returns (f: nat)
    requires 32 <= t < 36
    ensures CubeRoot(f, Key(t), Prime(t))
  {
    match t
    case 32 => f := 5;
    case 33 => f := 5;
    case 34 => f := 5;
    case _ => f := 5;
  }

  lemma KeysFrom36(t: nat) returns (f: nat)
    requires 36 <= t < 40
    ensures CubeRoot(f, Key(t), Prime(t))
  {
    match t
    case 36 => f := 5;
    case 37 => f := 5;
    case 38 => f := 5;
    case _ => f := 5;
  }

  lemma KeysFrom40(t: nat) returns (f: nat)
    requires 40 <= t < 44
    ensures CubeRoot(f, Key(t), Prime(t))
  {
    match t
    case 40 => f := 5;
    case 41 => f := 5;
    case 42 => f := 5;
    case _ => f := 5;
  }

  lemma KeysFrom44(t: nat) returns (f: nat)
    requires 44 <= t < 48
    ensures CubeRoot(f, Key(t), Prime(t))
  {
    match t
    case 44 => f := 5;
    case 45 => f := 5;
    case 46 => f := 5;
    case _ => f := 6;
  }

  lemma KeysFrom48(t: nat) returns (f: nat)
    requires 48 <= t < 52
    ensures CubeRoot(f, Key(t), Prime(t))
  {
    match t
    case 48 => f := 6;
    case 49 => f := 6;
    case 50 => f := 6;
    case _ => f := 6;
  }

  lemma KeysFrom52(t: nat) returns (f: nat)
    requires 52 <= t < 56
    ensures CubeRoot(f, Key(t), Prime(t))
  {
    match t
    case 52 => f := 6;
    case 53 => f := 6;
    case 54 => f := 6;
    case _ => f := 6;
  }

  lemma KeysFrom56(t: nat) returns (f: nat)
    requires 56 <= t < 60
    ensures CubeRoot(f, Key(t), Prime(t))
  {
    match t
    case 56 => f := 6;
    case 57 => f := 6;
    case 58 => f := 6;
    case _ => f := 6;
  }

  lemma KeysFrom60(t: nat) returns (f: nat)
    requires 60 <= t < 64
    ensures CubeRoot(f, Key(t), Prime(t))
  {
    match t
    case 60 => f := 6;
    case 61 => f := 6;
    case 62 => f := 6;
    case _ => f := 6;
  }

  /** The initial hash value. */
  lemma StartIsSquareRoots(t: nat) returns (f: nat)
    requires t < 8
    ensures SquareRoot(f, IV[t], Prime(t))
  {
    match t
    case 0 => f := 1;
    case 1 => f := 1;
    case 2 => f := 2;
    case 3 => f := 2;
    case 4 => f := 3;
    case 5 => f := 3;
    case 6 => f := 4;
    case _ => f := 4;
  }
}
