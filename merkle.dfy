/** The browser Merkle allowlist utility: hex normalisation, sorted-pair
    hashing, level construction with the last node of an odd level paired
    with itself, the root, and the inclusion proof of the first matching
    leaf, as an OpenZeppelin-style `MerkleProof` verifier expects them.

    Keccak-256 is a parameter (`keccak`): any function from bytes to 32
    bytes. Nodes are the strings the source passes around ("0x" and hex
    digits); `ethers.getBytes` and `ethers.keccak256` are modelled by
    `GetBytes` and `Keccak256Hex`. */
module Merkle {
  import opened Wrappers
  import opened JsStrings

  type byte = x: int | 0 <= x < 256

  type Bytes32 = b: seq<byte> | |b| == 32 witness seq(32, _ => 0)

  /** Keccak-256, left uninterpreted. */
  type Keccak = seq<byte> -> Bytes32

  // ---------------------------------------------------------------------
  // Hex text and bytes (ethers.getBytes / ethers.hexlify)
  // ---------------------------------------------------------------------

  predicate IsHexDigit(c: char) {
    '0' <= c <= '9' || 'a' <= c <= 'f' || 'A' <= c <= 'F'
  }

  predicate IsLowerHexDigit(c: char) {
    '0' <= c <= '9' || 'a' <= c <= 'f'
  }

  /** Lower-casing neither makes nor unmakes a hex digit. */
  lemma HexDigitLower(c: char)
    ensures IsHexDigit(LowerChar(c)) <==> IsHexDigit(c)
  {
  }

  /** `s` begins with "0x". */
  predicate HexPrefixed(s: string) {
    |s| >= 2 && s[0] == '0' && s[1] == 'x'
  }

  lemma HexPrefixedIff(s: string)
    ensures StartsWith(s, "0x") <==> HexPrefixed(s)
  {
    if HexPrefixed(s) {
      assert s[..2] == "0x";
    }
  }

  /** What `ethers.getBytes` accepts: "0x" then an even number of hex digits;
      anything else makes it throw. */
  predicate ValidHex(s: string) {
    HexPrefixed(s) && |s| % 2 == 0 && forall i :: 2 <= i < |s| ==> IsHexDigit(s[i])
  }

  function HexValue(c: char): (v: nat)
    requires IsHexDigit(c)
    ensures v < 16
  {
    if '0' <= c <= '9' then c as int - '0' as int
    else if 'a' <= c <= 'f' then c as int - 'a' as int + 10
    else c as int - 'A' as int + 10
  }

  /** `ethers.getBytes(s)` for a string it accepts. */
  function GetBytes(s: string): (b: seq<byte>)
    requires ValidHex(s)
    ensures |b| == (|s| - 2) / 2
  {
    seq((|s| - 2) / 2, i requires 0 <= i < (|s| - 2) / 2 =>
      (HexValue(s[2 + 2 * i]) * 16 + HexValue(s[3 + 2 * i])) as byte)
  }

  /** `ethers.hexlify(b)`: "0x" then two lower-case hex digits per byte. */
  function Hexlify(b: seq<byte>): (s: string)
    ensures |s| == 2 + 2 * |b| && HexPrefixed(s)
    ensures forall i :: 2 <= i < |s| ==> IsLowerHexDigit(s[i])
  {
    "0x" + seq(2 * |b|, i requires 0 <= i < 2 * |b| =>
      HexDigitChar(if i % 2 == 0 then b[i / 2] / 16 else b[i / 2] % 16))
  }

  /** `getBytes` undoes `hexlify`. */
  lemma GetBytesOfHexlify(b: seq<byte>)
    ensures ValidHex(Hexlify(b)) && GetBytes(Hexlify(b)) == b
  {
    var s := Hexlify(b);
    assert ValidHex(s) by {
      forall i | 2 <= i < |s|
        ensures IsHexDigit(s[i])
      {
        assert IsLowerHexDigit(s[i]);
      }
    }
    var r := GetBytes(s);
    forall i | 0 <= i < |b|
      ensures r[i] == b[i]
    {
      var hi, lo := b[i] / 16, b[i] % 16;
      assert s[2 + 2 * i] == HexDigitChar(hi);
      assert s[3 + 2 * i] == HexDigitChar(lo);
      assert HexValue(HexDigitChar(hi)) == hi;
      assert HexValue(HexDigitChar(lo)) == lo;
    }
  }

  /** A node `ethers.keccak256` can return: "0x" and 64 lower-case hex
      digits. */
  predicate IsDigest(h: string) {
    |h| == 66 && HexPrefixed(h) && forall i :: 2 <= i < |h| ==> IsLowerHexDigit(h[i])
  }

  /** `ethers.keccak256(bytes)`: the digest as lower-case hex text. */
  function Keccak256Hex(keccak: Keccak, bytes: seq<byte>): (h: string)
    ensures IsDigest(h)
  {
    Hexlify(keccak(bytes))
  }

  // ---------------------------------------------------------------------
  // toLowerHex32 and hashPair
  // ---------------------------------------------------------------------

  /** `toLowerHex32`: falsy input is returned as is; otherwise "0x" is put
      in front unless already there, and the whole is lower-cased. */
  function ToLowerHex32(h: string): (r: string)
    ensures IsLowerCase(r)
    ensures h == [] ==> r == []
    ensures h != [] ==> |r| == |h| + (if StartsWith(h, "0x") then 0 else 2)
  {
    if h == [] then h
    else Lower(if StartsWith(h, "0x") then h else "0x" + h)
  }

  /** The empty string stays empty; anything else comes out as "0x" followed
      by the lower-cased input, whose own "0x" is not doubled. */
  lemma ToLowerHex32Shape(h: string)
    ensures h == [] ==> ToLowerHex32(h) == []
    ensures h != [] && StartsWith(h, "0x") ==> ToLowerHex32(h) == Lower(h)
    ensures h != [] && !StartsWith(h, "0x") ==> ToLowerHex32(h) == "0x" + Lower(h)
    ensures h != [] ==> HexPrefixed(ToLowerHex32(h)) && IsLowerCase(ToLowerHex32(h))
  {
    HexPrefixedIff(h);
    if h != [] && !StartsWith(h, "0x") {
      LowerAppend("0x", h);
    }
  }

  lemma ToLowerHex32Idempotent(h: string)
    ensures ToLowerHex32(ToLowerHex32(h)) == ToLowerHex32(h)
  {
    if h != [] {
      ToLowerHex32Shape(h);
      LowerOfLowerCase(ToLowerHex32(h));
    }
  }

  /** The nodes `hashPair` can take, stated on the node itself: not empty,
      and after an optional "0x" an even number of hex digits of either
      case. */
  predicate HexText(h: string) {
    var start := if HexPrefixed(h) then 2 else 0;
    h != [] && (|h| - start) % 2 == 0 && forall i :: start <= i < |h| ==> IsHexDigit(h[i])
  }

  /** `HexText` is exactly what `getBytes(toLowerHex32(h))` does not throw
      on. */
  lemma HexTextIff(h: string)
    ensures HexText(h) <==> ValidHex(ToLowerHex32(h))
  {
    if h != [] {
      ToLowerHex32Shape(h);
      var r := ToLowerHex32(h);
      HexPrefixedIff(h);
      var d := if HexPrefixed(h) then 0 else 2;
      assert |r| == |h| + d;
      forall i | 2 <= i < |r|
        ensures IsHexDigit(r[i]) <==> IsHexDigit(h[i - d])
      {
        if d == 0 {
          assert r[i] == LowerChar(h[i]);
        } else {
          assert r[i] == Lower(h)[i - 2] == LowerChar(h[i - 2]);
        }
        HexDigitLower(h[i - d]);
      }
      if HexText(h) {
        forall i | 2 <= i < |r|
          ensures IsHexDigit(r[i])
        {
          assert IsHexDigit(h[i - d]);
        }
      }
      if ValidHex(r) {
        var start := if HexPrefixed(h) then 2 else 0;
        forall i | start <= i < |h|
          ensures IsHexDigit(h[i])
        {
          assert IsHexDigit(r[i + d]);
        }
      }
    }
  }

  /** Normalising keeps a node hashable. */
  lemma HexTextNormalised(h: string)
    requires HexText(h)
    ensures HexText(ToLowerHex32(h))
  {
    HexTextIff(h);
    ToLowerHex32Idempotent(h);
    HexTextIff(ToLowerHex32(h));
  }

  /** A digest is hashable and already normalised. */
  lemma DigestNormal(h: string)
    ensures IsDigest(h) ==> HexText(h) && ToLowerHex32(h) == h
  {
    if IsDigest(h) {
      assert IsLowerCase(h);
      LowerOfLowerCase(h);
    }
  }

  /** `hashPair(a, b, sortPairs)`: both sides normalised, the smaller one
      first when `sortPairs`, the bytes concatenated and hashed. */
  function HashPair(keccak: Keccak, a: string, b: string, sortPairs: bool): (h: string)
    requires HexText(a) && HexText(b)
    ensures IsDigest(h)
  {
    HexTextIff(a);
    HexTextIff(b);
    var left := ToLowerHex32(a);
    var right := ToLowerHex32(b);
    var swap := sortPairs && LexLess(right, left);
    var first := if swap then right else left;
    var second := if swap then left else right;
    Keccak256Hex(keccak, GetBytes(first) + GetBytes(second))
  }

  /** With sorted pairs the order of the two siblings does not matter. */
  lemma HashPairCommutes(keccak: Keccak, a: string, b: string)
    requires HexText(a) && HexText(b)
    ensures HashPair(keccak, a, b, true) == HashPair(keccak, b, a, true)
  {
    LexLessAsymmetric(ToLowerHex32(a), ToLowerHex32(b));
    LexLessTotal(ToLowerHex32(a), ToLowerHex32(b));
  }

  /** Normalising an argument first does not change the hash. */
  lemma HashPairOfNormalised(keccak: Keccak, a: string, b: string, sortPairs: bool)
    requires HexText(a) && HexText(b)
    ensures HexText(ToLowerHex32(b))
    ensures HashPair(keccak, a, ToLowerHex32(b), sortPairs) == HashPair(keccak, a, b, sortPairs)
  {
    HexTextNormalised(b);
    ToLowerHex32Idempotent(b);
  }

  // ---------------------------------------------------------------------
  // The pair hash the levels are built with
  // ---------------------------------------------------------------------

  /** `hashPair(·, ·, sortPairs)` with Keccak and `sortPairs` fixed. The
      level algorithms below are written over such a function and
      instantiated with `Hasher`. */
  type PairHash = (string, string) --> string

  /** The pair hash accepts any two hashable nodes and returns a digest. */
  ghost predicate HashesNodes(hash: PairHash) {
    forall a, b :: HexText(a) && HexText(b) ==> hash.requires(a, b) && IsDigest(hash(a, b))
  }

  /** The order of the two arguments does not matter. */
  ghost predicate Symmetric(hash: PairHash)
    requires HashesNodes(hash)
  {
    forall a, b :: HexText(a) && HexText(b) ==> hash(a, b) == hash(b, a)
  }

  /** Normalising the second argument first changes nothing. */
  ghost predicate NormalisesRight(hash: PairHash)
    requires HashesNodes(hash)
  {
    forall a, b {:trigger hash(a, ToLowerHex32(b))} :: HexText(a) && HexText(b) && HexText(ToLowerHex32(b)) ==>
      hash(a, ToLowerHex32(b)) == hash(a, b)
  }

  /** `(a, b) => hashPair(a, b, sortPairs)` */
  function Hasher(keccak: Keccak, sortPairs: bool): (hash: PairHash)
    ensures HashesNodes(hash)
  {
    (a, b) requires HexText(a) && HexText(b) => HashPair(keccak, a, b, sortPairs)
  }

  lemma HasherProperties(keccak: Keccak, sortPairs: bool)
    ensures NormalisesRight(Hasher(keccak, sortPairs))
    ensures sortPairs ==> Symmetric(Hasher(keccak, sortPairs))
  {
    var hash := Hasher(keccak, sortPairs);
    forall a, b | HexText(a) && HexText(b)
      ensures HexText(ToLowerHex32(b)) ==> hash(a, ToLowerHex32(b)) == hash(a, b)
      ensures sortPairs ==> hash(a, b) == hash(b, a)
    {
      HashPairOfNormalised(keccak, a, b, sortPairs);
      if sortPairs {
        HashPairCommutes(keccak, a, b);
      }
    }
  }

  // ---------------------------------------------------------------------
  // Levels
  // ---------------------------------------------------------------------

  /** Every node can be hashed. */
  predicate Hashable(level: seq<string>) {
    forall i :: 0 <= i < |level| ==> HexText(level[i])
  }

  /** What the source needs of its callers: a leaf list of two or more is
      hashed, so each of its leaves must be hex; a single leaf never is. */
  predicate WellFormed(leaves: seq<string>) {
    |leaves| <= 1 || Hashable(leaves)
  }

  /** `leaves.map(toLowerHex32)` */
  function Normalise(leaves: seq<string>): (r: seq<string>)
    ensures |r| == |leaves|
    ensures forall i :: 0 <= i < |r| ==> r[i] == ToLowerHex32(leaves[i])
  {
    seq(|leaves|, i requires 0 <= i < |leaves| => ToLowerHex32(leaves[i]))
  }

  /** Normalising keeps a hashable list hashable, and a second pass changes
      nothing. */
  lemma NormaliseProperties(leaves: seq<string>)
    ensures Hashable(leaves) ==> Hashable(Normalise(leaves))
    ensures Normalise(Normalise(leaves)) == Normalise(leaves)
  {
    var ls := Normalise(leaves);
    forall i | 0 <= i < |leaves|
      ensures Hashable(leaves) ==> HexText(ls[i])
      ensures ToLowerHex32(ls[i]) == ls[i]
    {
      if Hashable(leaves) {
        HexTextNormalised(leaves[i]);
      }
      ToLowerHex32Idempotent(leaves[i]);
    }
  }

  /** A list of digests is hashable. */
  lemma DigestsHashable(level: seq<string>)
    requires forall k :: 0 <= k < |level| ==> IsDigest(level[k])
    ensures Hashable(level)
  {
    forall k | 0 <= k < |level|
      ensures HexText(level[k])
    {
      DigestNormal(level[k]);
    }
  }

  /** The parent of the nodes at 2k and 2k+1; the last node of an odd level
      is paired with itself. */
  function Parent(hash: PairHash, level: seq<string>, k: nat): (h: string)
    requires HashesNodes(hash) && Hashable(level) && 2 * k < |level|
    ensures IsDigest(h)
  {
    var left := level[2 * k];
    var right := if 2 * k + 1 < |level| then level[2 * k + 1] else level[2 * k];
    hash(left, right)
  }

  /** The level above `level`: one parent per pair, ceil(n/2) nodes. */
  function NextLevel(hash: PairHash, level: seq<string>): (next: seq<string>)
    requires HashesNodes(hash) && Hashable(level)
    ensures |next| == (|level| + 1) / 2
    ensures forall k :: 0 <= k < |next| ==> IsDigest(next[k])
    ensures Hashable(next)
  {
    var next := seq((|level| + 1) / 2, k requires 0 <= k < (|level| + 1) / 2 => Parent(hash, level, k));
    DigestsHashable(next);
    next
  }

  /** All levels from `level` up to the one holding a single node. */
  function LevelsFrom(hash: PairHash, level: seq<string>): (levels: seq<seq<string>>)
    requires HashesNodes(hash) && |level| >= 1 && (|level| > 1 ==> Hashable(level))
    ensures |levels| >= 1 && levels[0] == level
    ensures |levels[|levels| - 1]| == 1
    ensures |level| > 1 ==> IsDigest(levels[|levels| - 1][0])
    decreases |level|
  {
    if |level| == 1 then [level]
    else [level] + LevelsFrom(hash, NextLevel(hash, level))
  }

  /** Every level below the top has two or more nodes, and the next level
      is made from it by `NextLevel`. */
  lemma {:induction false} LevelsFromStep(hash: PairHash, level: seq<string>, j: nat)
    requires HashesNodes(hash) && |level| >= 1 && (|level| > 1 ==> Hashable(level))
    requires j < |LevelsFrom(hash, level)| - 1
    ensures var levels := LevelsFrom(hash, level);
      |levels[j]| > 1 && Hashable(levels[j]) && levels[j + 1] == NextLevel(hash, levels[j])
    decreases |level|
  {
    var next := NextLevel(hash, level);
    assert LevelsFrom(hash, level) == [level] + LevelsFrom(hash, next);
    if j > 0 {
      LevelsFromStep(hash, next, j - 1);
    }
  }

  /** The levels `buildLevels` returns: the single level ["0x"] for no
      leaves, otherwise the normalised leaves and every level above them. */
  function Levels(hash: PairHash, leaves: seq<string>): (levels: seq<seq<string>>)
    requires HashesNodes(hash) && WellFormed(leaves)
    ensures |levels| >= 1 && |levels[|levels| - 1]| == 1
  {
    var ls := Normalise(leaves);
    NormaliseProperties(leaves);
    if |ls| == 0 then [["0x"]] else LevelsFrom(hash, ls)
  }

  /** The inner loop of `buildLevels` and `getMerkleProof`: hash adjacent
      pairs of `level` left to right. */
  method HashLevel(hash: PairHash, level: seq<string>) returns (next: seq<string>)
    requires HashesNodes(hash) && Hashable(level)
    ensures next == NextLevel(hash, level)
  {
    next := [];
    var i := 0;
    while i < |level|
      invariant i == 2 * |next| && i <= |level| + 1
      invariant forall k :: 0 <= k < |next| ==> next[k] == Parent(hash, level, k)
    {
      var left := level[i];
      var right := if i + 1 < |level| then level[i + 1] else level[i];
      next := next + [hash(left, right)];
      i := i + 2;
    }
  }

  /** `buildLevels`: level by level until one node is left. */
  method BuildLevels(keccak: Keccak, leavesInput: seq<string>, sortPairs: bool)
    returns (levels: seq<seq<string>>)
    requires WellFormed(leavesInput)
    ensures levels == Levels(Hasher(keccak, sortPairs), leavesInput)
    ensures |leavesInput| == 0 ==> levels == [["0x"]]
    ensures |leavesInput| > 0 ==> levels[0] == Normalise(leavesInput)
    ensures |levels[|levels| - 1]| == 1
  {
    var hash := Hasher(keccak, sortPairs);
    var leaves := Normalise(leavesInput);
    if |leaves| == 0 {
      return [["0x"]];
    }
    NormaliseProperties(leavesInput);
    var level := leaves;
    levels := [level];
    while |level| > 1
      invariant |level| >= 1 && (|level| > 1 ==> Hashable(level))
      invariant levels + LevelsFrom(hash, level)[1..] == LevelsFrom(hash, leaves)
      decreases |level|
    {
      var next := HashLevel(hash, level);
      assert LevelsFrom(hash, level)[1..] == LevelsFrom(hash, next);
      level := next;
      levels := levels + [level];
    }
  }

  // ---------------------------------------------------------------------
  // Root
  // ---------------------------------------------------------------------

  /** `getMerkleRoot`: the normalised single node of the top level, or "0x"
      when that node is falsy. */
  function GetMerkleRoot(keccak: Keccak, leaves: seq<string>, sortPairs: bool): (root: string)
    requires WellFormed(leaves)
    ensures |leaves| == 0 ==> root == "0x"
    ensures |leaves| == 1 ==> root == if leaves[0] == [] then "0x" else ToLowerHex32(leaves[0])
    ensures |leaves| >= 2 ==> IsDigest(root)
  {
    var levels := Levels(Hasher(keccak, sortPairs), leaves);
    var top := levels[|levels| - 1];
    var first := if |leaves| > 0 then leaves[0] else [];
    ToLowerHex32Shape(first);
    ToLowerHex32Idempotent(first);
    DigestNormal(top[0]);
    if |top| > 0 && top[0] != [] then ToLowerHex32(top[0]) else "0x"
  }

  lemma NormaliseSnoc(leaves: seq<string>, x: string)
    ensures Normalise(leaves + [x]) == Normalise(leaves) + [ToLowerHex32(x)]
  {
  }

  /** Writing the last node of a level twice keeps it hashable. */
  lemma HashableSnocLast(level: seq<string>)
    requires |level| > 0 && Hashable(level)
    ensures Hashable(level + [level[|level| - 1]])
  {
    var longer := level + [level[|level| - 1]];
    forall i | 0 <= i < |longer|
      ensures HexText(longer[i])
    {
      if i < |level| {
        assert longer[i] == level[i];
      }
    }
  }

  /** An odd level gives the same parents as that level with its last node
      written twice. */
  lemma OddLevelDuplication(hash: PairHash, level: seq<string>)
    requires HashesNodes(hash) && |level| % 2 == 1 && Hashable(level)
    ensures Hashable(level + [level[|level| - 1]])
    ensures NextLevel(hash, level + [level[|level| - 1]]) == NextLevel(hash, level)
  {
    var longer := level + [level[|level| - 1]];
    HashableSnocLast(level);
    var a := NextLevel(hash, longer);
    var b := NextLevel(hash, level);
    forall k | 0 <= k < |a|
      ensures a[k] == b[k]
    {
      assert longer[2 * k] == level[2 * k];
      if 2 * k + 1 < |level| {
        assert longer[2 * k + 1] == level[2 * k + 1];
      } else {
        assert longer[2 * k + 1] == level[2 * k];
      }
    }
  }

  /** root([a, b, c]) == root([a, b, c, c]), and so for every odd list of
      three or more leaves. */
  lemma OddRootDuplication(keccak: Keccak, leaves: seq<string>, sortPairs: bool)
    requires |leaves| % 2 == 1 && |leaves| >= 3 && Hashable(leaves)
    ensures WellFormed(leaves + [leaves[|leaves| - 1]])
    ensures GetMerkleRoot(keccak, leaves + [leaves[|leaves| - 1]], sortPairs)
         == GetMerkleRoot(keccak, leaves, sortPairs)
  {
    var hash := Hasher(keccak, sortPairs);
    var longer := leaves + [leaves[|leaves| - 1]];
    HashableSnocLast(leaves);
    var ls := Normalise(leaves);
    NormaliseProperties(leaves);
    NormaliseSnoc(leaves, leaves[|leaves| - 1]);
    var nl := Normalise(longer);
    assert nl == ls + [ls[|ls| - 1]];
    OddLevelDuplication(hash, ls);
    var above := LevelsFrom(hash, NextLevel(hash, ls));
    assert LevelsFrom(hash, nl) == [nl] + above;
    assert LevelsFrom(hash, ls) == [ls] + above;
    assert Levels(hash, longer) == [nl] + above;
    assert Levels(hash, leaves) == [ls] + above;
  }

  /** 2^k */
  function Pow2(k: nat): (p: nat)
    ensures p >= 1
  {
    if k == 0 then 1 else 2 * Pow2(k - 1)
  }

  /** ceil(log2 n) + 1 levels: n nodes fit under 2^m leaves of a tree of
      height m = |levels| - 1, and not under 2^(m-1). */
  lemma {:induction false} LevelCount(hash: PairHash, level: seq<string>)
    requires HashesNodes(hash) && |level| >= 1 && (|level| > 1 ==> Hashable(level))
    ensures var m := |LevelsFrom(hash, level)| - 1;
      |level| <= Pow2(m) && (m > 0 ==> Pow2(m - 1) < |level|)
    decreases |level|
  {
    if |level| > 1 {
      LevelCount(hash, NextLevel(hash, level));
    }
  }

  // ---------------------------------------------------------------------
  // Proof
  // ---------------------------------------------------------------------

  /** The node paired with position `idx`: its left neighbour when `idx`
      is odd, its right one when even, itself when that is past the end. */
  function Sibling(level: seq<string>, idx: nat): string
    requires idx < |level|
  {
    var pairIndex := if idx % 2 == 1 then idx - 1 else idx + 1;
    if pairIndex < |level| then level[pairIndex] else level[idx]
  }

  /** The siblings met on the way from `level[idx]` to the top. */
  function ProofFrom(hash: PairHash, level: seq<string>, idx: nat): (proof: seq<string>)
    requires HashesNodes(hash) && idx < |level| && (|level| > 1 ==> Hashable(level))
    ensures |proof| == |LevelsFrom(hash, level)| - 1
    ensures Hashable(proof)
    decreases |level|
  {
    if |level| <= 1 then []
    else
      var next := NextLevel(hash, level);
      HalfBelow(idx, |level|);
      HexTextNormalised(Sibling(level, idx));
      var rest := ProofFrom(hash, next, idx / 2);
      HashableCons(ToLowerHex32(Sibling(level, idx)), rest);
      assert LevelsFrom(hash, level) == [level] + LevelsFrom(hash, next);
      [ToLowerHex32(Sibling(level, idx))] + rest
  }

  lemma HashableCons(x: string, rest: seq<string>)
    requires HexText(x) && Hashable(rest)
    ensures Hashable([x] + rest)
  {
    var longer := [x] + rest;
    forall i | 0 <= i < |longer|
      ensures HexText(longer[i])
    {
      if i > 0 {
        assert longer[i] == rest[i - 1];
      }
    }
  }

  /** One step of the proof: the sibling at this level, then the proof of
      the parent's position one level up. */
  lemma ProofFromStep(hash: PairHash, level: seq<string>, idx: nat)
    requires HashesNodes(hash) && idx < |level| && |level| > 1 && Hashable(level)
    ensures idx / 2 < |NextLevel(hash, level)|
    ensures ProofFrom(hash, level, idx)
      == [ToLowerHex32(Sibling(level, idx))] + ProofFrom(hash, NextLevel(hash, level), idx / 2)
  {
    HalfBelow(idx, |level|);
  }

  /** Halving keeps a position inside the level above. */
  lemma HalfBelow(idx: nat, n: nat)
    requires idx < n
    ensures idx / 2 < (n + 1) / 2
  {
  }

  /** The position of the target at each level: halved, rounding down, from
      one level to the next. */
  function IndexAt(idx: nat, j: nat): nat {
    if j == 0 then idx else IndexAt(idx / 2, j - 1)
  }

  /** Entry j of the proof is the sibling, at level j, of the target's
      position there, and that position is inside level j. */
  lemma {:induction false} ProofFromAt(hash: PairHash, level: seq<string>, idx: nat, j: nat)
    requires HashesNodes(hash) && idx < |level| && (|level| > 1 ==> Hashable(level))
    requires j < |ProofFrom(hash, level, idx)|
    ensures IndexAt(idx, j) < |LevelsFrom(hash, level)[j]|
    ensures ProofFrom(hash, level, idx)[j] == ToLowerHex32(Sibling(LevelsFrom(hash, level)[j], IndexAt(idx, j)))
    decreases |level|
  {
    ProofFromStep(hash, level, idx);
    if j > 0 {
      var next := NextLevel(hash, level);
      ProofFromShift(hash, level, idx, j);
      ProofFromAt(hash, next, idx / 2, j - 1);
    }
  }

  /** Entry j of the proof and level j of the tree are entry and level
      j - 1 one level up. */
  lemma ProofFromShift(hash: PairHash, level: seq<string>, idx: nat, j: nat)
    requires HashesNodes(hash) && idx < |level| && (|level| > 1 ==> Hashable(level))
    requires 0 < j < |ProofFrom(hash, level, idx)|
    ensures idx / 2 < |NextLevel(hash, level)|
    ensures j - 1 < |ProofFrom(hash, NextLevel(hash, level), idx / 2)|
    ensures ProofFrom(hash, level, idx)[j] == ProofFrom(hash, NextLevel(hash, level), idx / 2)[j - 1]
    ensures LevelsFrom(hash, level)[j] == LevelsFrom(hash, NextLevel(hash, level))[j - 1]
    ensures IndexAt(idx, j) == IndexAt(idx / 2, j - 1)
  {
    ProofFromStep(hash, level, idx);
    assert LevelsFrom(hash, level) == [level] + LevelsFrom(hash, NextLevel(hash, level));
  }

  /** `getMerkleProof` as a function: nothing for an empty list or an absent
      target, otherwise the proof of the first position holding it. */
  function MerkleProof(keccak: Keccak, leaves: seq<string>, target: string, sortPairs: bool): (proof: seq<string>)
    requires WellFormed(leaves) || ToLowerHex32(target) !in Normalise(leaves)
    ensures ToLowerHex32(target) !in Normalise(leaves) ==> proof == []
    ensures ToLowerHex32(target) in Normalise(leaves) ==>
      |proof| == |Levels(Hasher(keccak, sortPairs), leaves)| - 1
    ensures Hashable(proof)
  {
    var ls := Normalise(leaves);
    NormaliseProperties(leaves);
    if |ls| == 0 then []
    else match IndexOf(ls, ToLowerHex32(target))
      case None => []
      case Some(idx) => ProofFrom(Hasher(keccak, sortPairs), ls, idx)
  }

  /** Leaves that are not hex text do not stop the search: an absent
      target gives the empty proof before any pair is hashed. */
  lemma MerkleProofAbsentNonHex(keccak: Keccak)
    ensures !WellFormed(["zz", "yy"])
    ensures ToLowerHex32("0xab") !in Normalise(["zz", "yy"])
    ensures MerkleProof(keccak, ["zz", "yy"], "0xab", true) == []
  {
    var zz: string, yy: string := "zz", "yy";
    assert !IsHexDigit(zz[0]);
    assert !HexText(zz);
    var t := ToLowerHex32("0xab");
    assert StartsWith("0xab", "0x") && t == Lower("0xab");
    assert t[3] == 'b';
    var ls := Normalise([zz, yy]);
    assert !StartsWith(zz, "0x") && ls[0] == Lower("0x" + zz);
    assert ls[0][3] == LowerChar(zz[1]) == 'z';
    assert !StartsWith(yy, "0x") && ls[1] == Lower("0x" + yy);
    assert ls[1][3] == LowerChar(yy[1]) == 'y';
  }

  /** With several copies of the target, the proof is that of the first:
      entry j is the normalised sibling, at level j of `buildLevels`, of
      that position halved j times, which stays inside the level. */
  lemma MerkleProofFirstIndex(keccak: Keccak, leaves: seq<string>, target: string, sortPairs: bool, idx: nat, j: nat)
    requires WellFormed(leaves)
    requires idx < |leaves| && Normalise(leaves)[idx] == ToLowerHex32(target)
    requires forall k :: 0 <= k < idx ==> Normalise(leaves)[k] != ToLowerHex32(target)
    requires j < |MerkleProof(keccak, leaves, target, sortPairs)|
    ensures var levels := Levels(Hasher(keccak, sortPairs), leaves);
      j < |levels| && IndexAt(idx, j) < |levels[j]|
      && MerkleProof(keccak, leaves, target, sortPairs)[j] == ToLowerHex32(Sibling(levels[j], IndexAt(idx, j)))
  {
    var ls := Normalise(leaves);
    NormaliseProperties(leaves);
    IndexOfFirst(ls, ToLowerHex32(target), idx);
    ProofFromAt(Hasher(keccak, sortPairs), ls, idx, j);
  }

  /** The loop of `getMerkleProof`: record the sibling of the current
      position, move up a level, halve the position. */
  method ProofPath(hash: PairHash, leaves: seq<string>, start: nat) returns (proof: seq<string>)
    requires HashesNodes(hash) && start < |leaves| && (|leaves| > 1 ==> Hashable(leaves))
    ensures proof == ProofFrom(hash, leaves, start)
  {
    var idx: nat := start;
    var level := leaves;
    proof := [];
    while |level| > 1
      invariant idx < |level| && (|level| > 1 ==> Hashable(level))
      invariant proof + ProofFrom(hash, level, idx) == ProofFrom(hash, leaves, start)
      decreases |level|
    {
      var sibling := Sibling(level, idx);
      ProofFromStep(hash, level, idx);
      AppendThenConcat(proof, ToLowerHex32(sibling), ProofFrom(hash, NextLevel(hash, level), idx / 2));
      proof := proof + [ToLowerHex32(sibling)];
      var next := HashLevel(hash, level);
      level := next;
      idx := idx / 2;
    }
  }

  lemma AppendThenConcat<T>(a: seq<T>, x: T, b: seq<T>)
    ensures (a + [x]) + b == a + ([x] + b)
  {
  }

  /** `getMerkleProof` */
  method GetMerkleProof(keccak: Keccak, leavesInput: seq<string>, targetLeaf: string, sortPairs: bool)
    returns (proof: seq<string>)
    requires WellFormed(leavesInput) || ToLowerHex32(targetLeaf) !in Normalise(leavesInput)
    ensures proof == MerkleProof(keccak, leavesInput, targetLeaf, sortPairs)
  {
    var leaves := Normalise(leavesInput);
    var leaf := ToLowerHex32(targetLeaf);
    if |leaves| == 0 {
      return [];
    }
    var found := IndexOf(leaves, leaf);
    if found.None? {
      return [];
    }
    NormaliseProperties(leavesInput);
    proof := ProofPath(Hasher(keccak, sortPairs), leaves, found.value);
  }

  // ---------------------------------------------------------------------
  // Verification: the round trip
  // ---------------------------------------------------------------------

  /** What a sorted-pair verifier computes from a leaf and a proof: hash the
      running value with each proof entry in turn. */
  function ProcessProof(hash: PairHash, leaf: string, proof: seq<string>): string
    requires HashesNodes(hash) && Hashable(proof)
    requires proof != [] ==> HexText(leaf)
    decreases |proof|
  {
    if proof == [] then leaf
    else
      var running := hash(leaf, proof[0]);
      DigestNormal(running);
      ProcessProof(hash, running, proof[1..])
  }

  /** Recombining the node at `idx` with its proof gives the top node. */
  lemma {:induction false} ProofFromRecombines(hash: PairHash, level: seq<string>, idx: nat)
    requires HashesNodes(hash) && Symmetric(hash) && NormalisesRight(hash)
    requires idx < |level| && (|level| > 1 ==> Hashable(level))
    ensures var levels := LevelsFrom(hash, level);
      ProcessProof(hash, level[idx], ProofFrom(hash, level, idx)) == levels[|levels| - 1][0]
    decreases |level|
  {
    if |level| > 1 {
      var next := NextLevel(hash, level);
      var rest := ProofFrom(hash, next, idx / 2);
      ProofFromStep(hash, level, idx);
      var sibling := Sibling(level, idx);
      PairWithSibling(hash, level, idx);
      HexTextNormalised(sibling);
      assert hash(level[idx], ToLowerHex32(sibling)) == hash(level[idx], sibling);
      assert next[idx / 2] == Parent(hash, level, idx / 2);
      assert ProcessProof(hash, level[idx], ProofFrom(hash, level, idx)) == ProcessProof(hash, next[idx / 2], rest);
      ProofFromRecombines(hash, next, idx / 2);
      assert LevelsFrom(hash, level) == [level] + LevelsFrom(hash, next);
    }
  }

  /** Hashing a node with the (normalised) sibling the proof records gives
      the parent of the pair, whichever side the node is on. */
  lemma PairWithSibling(hash: PairHash, level: seq<string>, idx: nat)
    requires HashesNodes(hash) && Symmetric(hash)
    requires idx < |level| && |level| > 1 && Hashable(level)
    ensures HexText(Sibling(level, idx))
    ensures hash(level[idx], Sibling(level, idx)) == Parent(hash, level, idx / 2)
  {
    var k := idx / 2;
    if idx % 2 == 1 {
      assert 2 * k + 1 == idx && Sibling(level, idx) == level[2 * k];
      assert hash(level[idx], level[2 * k]) == hash(level[2 * k], level[idx]);
    } else {
      assert 2 * k == idx;
    }
  }

  /** For every target present in the list (and not the empty string),
      folding sorted `hashPair` over its proof from the normalised target
      gives `getMerkleRoot` of the same list. */
  lemma MerkleProofRecombines(keccak: Keccak, leaves: seq<string>, target: string)
    requires WellFormed(leaves)
    requires target != [] && ToLowerHex32(target) in Normalise(leaves)
    ensures var proof := MerkleProof(keccak, leaves, target, true);
      (proof != [] ==> HexText(ToLowerHex32(target)))
      && ProcessProof(Hasher(keccak, true), ToLowerHex32(target), proof) == GetMerkleRoot(keccak, leaves, true)
  {
    var hash := Hasher(keccak, true);
    HasherProperties(keccak, true);
    var ls := Normalise(leaves);
    NormaliseProperties(leaves);
    var idx := IndexOf(ls, ToLowerHex32(target)).value;
    ProofFromRecombines(hash, ls, idx);
    ToLowerHex32Idempotent(target);
    DigestNormal(LevelsFrom(hash, ls)[|LevelsFrom(hash, ls)| - 1][0]);
  }

  /** `getProofAndRoot`: the two values computed independently, which
      recombine when the target is present. */
  method GetProofAndRoot(keccak: Keccak, leavesInput: seq<string>, targetLeaf: string, sortPairs: bool)
    returns (proof: seq<string>, root: string)
    requires WellFormed(leavesInput)
    ensures proof == MerkleProof(keccak, leavesInput, targetLeaf, sortPairs)
    ensures root == GetMerkleRoot(keccak, leavesInput, sortPairs)
    ensures ToLowerHex32(targetLeaf) !in Normalise(leavesInput) ==> proof == []
    ensures sortPairs && targetLeaf != [] && ToLowerHex32(targetLeaf) in Normalise(leavesInput) ==>
      (proof != [] ==> HexText(ToLowerHex32(targetLeaf)))
      && ProcessProof(Hasher(keccak, true), ToLowerHex32(targetLeaf), proof) == root
  {
    proof := GetMerkleProof(keccak, leavesInput, targetLeaf, sortPairs);
    root := GetMerkleRoot(keccak, leavesInput, sortPairs);
    if sortPairs && targetLeaf != [] && ToLowerHex32(targetLeaf) in Normalise(leavesInput) {
      MerkleProofRecombines(keccak, leavesInput, targetLeaf);
    }
  }

  /** Leaves made by `ethers.keccak256` (as the allowlist page makes them)
      always meet the requirement on the leaf list. */
  lemma DigestLeavesWellFormed(leaves: seq<string>)
    requires forall i :: 0 <= i < |leaves| ==> IsDigest(leaves[i])
    ensures WellFormed(leaves)
  {
    DigestsHashable(leaves);
  }
}
