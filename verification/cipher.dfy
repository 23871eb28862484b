/** The obfuscation the CO2 sensor applies to every 8-byte input report, and
    the driver's `decrypt` that undoes it (co2monitor.go, `decrypt`).

    Bytes are `bv8`, so `^`, `>>`, `<<`, `+` and `-` wrap exactly as Go's
    `byte` arithmetic does. */
module Cipher {

  /** One 8-byte unit: a session key, a ciphertext frame or a plaintext frame. */
  type Bytes8 = s: seq<bv8> | |s| == 8 witness [0, 0, 0, 0, 0, 0, 0, 0]

  /** The fixed byte permutation: ciphertext byte i lands at position Shuffle[i]. */
  const Shuffle: seq<nat> := [2, 4, 0, 7, 1, 6, 5, 3]

  /** The constant table subtracted byte-wise in the last step. */
  const Second: seq<bv8> := [0x84, 0x47, 0x56, 0xd6, 0x07, 0x93, 0x93, 0x56]

  /** Shuffle lists every position 0..7 exactly once, so the driver's first
      loop writes every byte of `tmp` exactly once. */
  lemma ShuffleIsPermutation()
    ensures |Shuffle| == 8
    ensures forall i :: 0 <= i < 8 ==> Shuffle[i] < 8
    ensures forall i, j :: 0 <= i < j < 8 ==> Shuffle[i] != Shuffle[j]
    ensures forall v :: 0 <= v < 8 ==> v in Shuffle
  {
    assert Shuffle[0] == 2 && Shuffle[1] == 4 && Shuffle[2] == 0 && Shuffle[3] == 7;
    assert Shuffle[4] == 1 && Shuffle[5] == 6 && Shuffle[6] == 5 && Shuffle[7] == 3;
  }

  /** The i-th step of the permutation writes a position no earlier step wrote. */
  lemma ShuffleFresh(i: nat)
    requires i < 8
    ensures Shuffle[i] < 8
    ensures forall m :: 0 <= m < i ==> Shuffle[m] != Shuffle[i]
  {
    ShuffleIsPermutation();
  }

  /** The permutation swaps the pairs (0,2), (1,4), (3,7) and (5,6), so it is
      its own inverse. */
  lemma ShuffleIsInvolution(i: nat)
    requires i < 8
    ensures Shuffle[i] < 8 && Shuffle[Shuffle[i]] == i
  {
    assert Shuffle[0] == 2 && Shuffle[1] == 4 && Shuffle[2] == 0 && Shuffle[3] == 7;
    assert Shuffle[4] == 1 && Shuffle[5] == 6 && Shuffle[6] == 5 && Shuffle[7] == 3;
  }

  /** Steps one and two, read off by destination: tmp[j] is the ciphertext
      byte that the permutation moves to position j, XOR-ed with key[j]. The
      key is indexed by the destination, not the source. This is `tmp` in the
      driver. */
  function Unshuffled(key: Bytes8, data: Bytes8): (tmp: Bytes8)
  {
    [data[2] ^ key[0], data[4] ^ key[1], data[0] ^ key[2], data[7] ^ key[3],
     data[1] ^ key[4], data[6] ^ key[5], data[5] ^ key[6], data[3] ^ key[7]]
  }

  /** Every step (i, Shuffle[i]) of the permutation list puts
      data[i] ^ key[Shuffle[i]] at position Shuffle[i] of `tmp`. */
  lemma UnshuffledWrites(key: Bytes8, data: Bytes8, i: nat)
    requires i < 8
    ensures Shuffle[i] < 8 && Unshuffled(key, data)[Shuffle[i]] == data[i] ^ key[Shuffle[i]]
  {
    if i == 0 { assert Shuffle[i] == 2; }
    else if i == 1 { assert Shuffle[i] == 4; }
    else if i == 2 { assert Shuffle[i] == 0; }
    else if i == 3 { assert Shuffle[i] == 7; }
    else if i == 4 { assert Shuffle[i] == 1; }
    else if i == 5 { assert Shuffle[i] == 6; }
    else if i == 6 { assert Shuffle[i] == 5; }
    else { assert i == 7; assert Shuffle[i] == 3; }
  }

  /** Step three for one byte: the high five bits of `cur` become its low
      five bits, and the low three bits of its left neighbour its high three. */
  function ShiftIn(cur: bv8, left: bv8): (b: bv8)
    ensures b >> 5 == left & 7
    ensures b & 0x1F == cur >> 3
  {
    (cur >> 3) | (left << 5)
  }

  /** Step three on the whole frame: byte i joins tmp[i] with tmp[i - 1], and
      byte 0 wraps round to tmp[7]. */
  function RotateIn(tmp: Bytes8): (x: Bytes8)
  {
    [ShiftIn(tmp[0], tmp[7]), ShiftIn(tmp[1], tmp[0]), ShiftIn(tmp[2], tmp[1]), ShiftIn(tmp[3], tmp[2]),
     ShiftIn(tmp[4], tmp[3]), ShiftIn(tmp[5], tmp[4]), ShiftIn(tmp[6], tmp[5]), ShiftIn(tmp[7], tmp[6])]
  }

  /** Step four: the table is subtracted byte-wise, modulo 256. */
  function SubtractTable(x: Bytes8): (plain: Bytes8)
  {
    [x[0] - Second[0], x[1] - Second[1], x[2] - Second[2], x[3] - Second[3],
     x[4] - Second[4], x[5] - Second[5], x[6] - Second[6], x[7] - Second[7]]
  }

  /** The whole of `decrypt`, as a value. */
  function Decrypt(key: Bytes8, data: Bytes8): (plain: Bytes8)
  {
    SubtractTable(RotateIn(Unshuffled(key, data)))
  }

  /** One output byte exactly as the driver writes it, with the trailing
      `+ 0xFF + 1`. */
  function DriverValue(cur: bv8, left: bv8, s: bv8): (b: bv8)
  {
    ((cur >> 3) | (left << 5)) - s + 0xFF + 1
  }

  /** The trailing `+ 0xFF + 1` adds 256, which changes nothing modulo 256. */
  lemma AddFullTurn(cur: bv8, left: bv8, s: bv8)
    ensures DriverValue(cur, left, s) == ShiftIn(cur, left) - s
  {
  }

  /** `out` holds what the driver's second loop has written once it has done
      bytes 0 to i - 1: byte 0 from tmp[0] and tmp[7], every later byte m from
      tmp[m] and tmp[m - 1]. */
  predicate DriverWrote(tmp: Bytes8, out: seq<bv8>, i: nat)
    requires |out| == 8 && 1 <= i <= 8
  {
    && out[0] == DriverValue(tmp[0], tmp[7], Second[0])
    && forall m :: 1 <= m < i ==> out[m] == DriverValue(tmp[m], tmp[m - 1], Second[m])
  }

  /** Writing byte i keeps the bytes written before it. */
  lemma DriverStep(tmp: Bytes8, out: seq<bv8>, i: nat)
    requires |out| == 8 && 1 <= i < 8 && DriverWrote(tmp, out, i)
    ensures DriverWrote(tmp, out[i := DriverValue(tmp[i], tmp[i - 1], Second[i])], i + 1)
  {
  }

  /** A frame whose bytes are all what the driver writes is the decrypted
      frame. */
  lemma DriverWritesDecrypt(key: Bytes8, data: Bytes8, tmp: Bytes8, out: seq<bv8>)
    requires tmp == Unshuffled(key, data)
    requires |out| == 8 && DriverWrote(tmp, out, 8)
    ensures out == Decrypt(key, data)
  {
    AddFullTurn(tmp[0], tmp[7], Second[0]);
    forall i | 1 <= i < 8
      ensures out[i] == ShiftIn(tmp[i], tmp[i - 1]) - Second[i]
    {
      AddFullTurn(tmp[i], tmp[i - 1], Second[i]);
    }
  }

  /** The device side, reconstructed as the inverse of each step: the table
      is added, the 64-bit frame is rotated left by three bits, and the bytes
      are permuted and XOR-ed with the key. */
  function ShiftOut(cur: bv8, right: bv8): (b: bv8)
  {
    (cur << 3) | (right >> 5)
  }

  function RotateOut(x: Bytes8): (tmp: Bytes8)
  {
    [ShiftOut(x[0], x[1]), ShiftOut(x[1], x[2]), ShiftOut(x[2], x[3]), ShiftOut(x[3], x[4]),
     ShiftOut(x[4], x[5]), ShiftOut(x[5], x[6]), ShiftOut(x[6], x[7]), ShiftOut(x[7], x[0])]
  }

  function AddTable(plain: Bytes8): (x: Bytes8)
  {
    [plain[0] + Second[0], plain[1] + Second[1], plain[2] + Second[2], plain[3] + Second[3],
     plain[4] + Second[4], plain[5] + Second[5], plain[6] + Second[6], plain[7] + Second[7]]
  }

  /** Ciphertext byte i is tmp[Shuffle[i]] ^ key[Shuffle[i]]. */
  function Shuffled(key: Bytes8, tmp: Bytes8): (data: Bytes8)
  {
    [tmp[2] ^ key[2], tmp[4] ^ key[4], tmp[0] ^ key[0], tmp[7] ^ key[7],
     tmp[1] ^ key[1], tmp[6] ^ key[6], tmp[5] ^ key[5], tmp[3] ^ key[3]]
  }

  /** What the device sends for a plaintext frame: the partner that `Decrypt`
      inverts. */
  function Encrypt(key: Bytes8, plain: Bytes8): (data: Bytes8)
  {
    Shuffled(key, RotateOut(AddTable(plain)))
  }

  /** Splitting a byte across the three-bit shift and joining it back again. */
  lemma RotateBack(a: bv8, b: bv8, c: bv8)
    ensures ShiftIn(ShiftOut(a, b), ShiftOut(c, a)) == a
  {
  }

  lemma RotateForth(x: bv8, y: bv8, z: bv8)
    ensures ShiftOut(ShiftIn(x, z), ShiftIn(y, x)) == x
  {
  }

  lemma RotateInOut(x: Bytes8)
    ensures RotateIn(RotateOut(x)) == x
  {
    RotateBack(x[0], x[1], x[7]);
    RotateBack(x[1], x[2], x[0]);
    RotateBack(x[2], x[3], x[1]);
    RotateBack(x[3], x[4], x[2]);
    RotateBack(x[4], x[5], x[3]);
    RotateBack(x[5], x[6], x[4]);
    RotateBack(x[6], x[7], x[5]);
    RotateBack(x[7], x[0], x[6]);
  }

  lemma RotateOutIn(t: Bytes8)
    ensures RotateOut(RotateIn(t)) == t
  {
    RotateForth(t[0], t[1], t[7]);
    RotateForth(t[1], t[2], t[0]);
    RotateForth(t[2], t[3], t[1]);
    RotateForth(t[3], t[4], t[2]);
    RotateForth(t[4], t[5], t[3]);
    RotateForth(t[5], t[6], t[4]);
    RotateForth(t[6], t[7], t[5]);
    RotateForth(t[7], t[0], t[6]);
  }

  /** The xor-and-swap stage and its inverse undo each other. */
  lemma UnshuffleShuffle(key: Bytes8, tmp: Bytes8)
    ensures Unshuffled(key, Shuffled(key, tmp)) == tmp
  {
  }

  lemma ShuffleUnshuffle(key: Bytes8, data: Bytes8)
    ensures Shuffled(key, Unshuffled(key, data)) == data
  {
  }

  /** Decrypting what the device encrypted gives back the plaintext frame. */
  lemma DecryptEncrypt(key: Bytes8, plain: Bytes8)
    ensures Decrypt(key, Encrypt(key, plain)) == plain
  {
    UnshuffleShuffle(key, RotateOut(AddTable(plain)));
    RotateInOut(AddTable(plain));
  }

  /** Encrypting a decrypted frame gives back the ciphertext. */
  lemma EncryptDecrypt(key: Bytes8, data: Bytes8)
    ensures Encrypt(key, Decrypt(key, data)) == data
  {
    var t := Unshuffled(key, data);
    RotateOutIn(t);
    ShuffleUnshuffle(key, data);
  }

  /** For a fixed key no two distinct frames decrypt to the same plaintext. */
  lemma DecryptInjective(key: Bytes8, a: Bytes8, b: Bytes8)
    requires Decrypt(key, a) == Decrypt(key, b)
    ensures a == b
  {
    EncryptDecrypt(key, a);
    EncryptDecrypt(key, b);
  }

  /** After the first i steps of the permutation list, each step m < i has
      written data[m] ^ key[Shuffle[m]] at position Shuffle[m]. */
  predicate FilledUpTo(key: Bytes8, data: Bytes8, tmp: Bytes8, i: nat)
    requires i <= 8
  {
    forall m :: 0 <= m < i ==> Shuffle[m] < 8 && tmp[Shuffle[m]] == data[m] ^ key[Shuffle[m]]
  }

  /** One more step keeps the earlier writes, because Shuffle[i] is fresh. */
  lemma FillStep(key: Bytes8, data: Bytes8, tmp: Bytes8, i: nat)
    requires i < 8 && FilledUpTo(key, data, tmp, i)
    ensures Shuffle[i] < 8
    ensures FilledUpTo(key, data, tmp[Shuffle[i] := data[i] ^ key[Shuffle[i]]], i + 1)
  {
    ShuffleFresh(i);
  }

  /** Once all eight steps are done, `tmp` is the unshuffled frame, because
      the permutation reaches every position. */
  lemma FillDone(key: Bytes8, data: Bytes8, tmp: Bytes8)
    requires FilledUpTo(key, data, tmp, 8)
    ensures tmp == Unshuffled(key, data)
  {
    forall j | 0 <= j < 8
      ensures tmp[j] == Unshuffled(key, data)[j]
    {
      ShuffleIsInvolution(j);
      UnshuffledWrites(key, data, Shuffle[j]);
    }
  }

  /** The first loop of the driver's `decrypt`: walks the permutation list
      and writes tmp[v] = data[i] ^ key[v] for each pair (i, v). `tmp` is a Go
      array, so a value. */
  method FillTmp(key: Bytes8, data: Bytes8) returns (tmp: Bytes8)
    ensures tmp == Unshuffled(key, data)
  {
    tmp := [0, 0, 0, 0, 0, 0, 0, 0];
    var i := 0;
    while i < 8
      invariant 0 <= i <= 8
      invariant FilledUpTo(key, data, tmp, i)
    {
      FillStep(key, data, tmp, i);
      var v := Shuffle[i];
      tmp := tmp[v := data[i] ^ key[v]];
      i := i + 1;
    }
    FillDone(key, data, tmp);
  }

  /** The driver's `decrypt`: fills `tmp`, then overwrites `data` in place.
      Every byte of `tmp` is computed before the first byte of `data` is
      written, and the second loop reads only `tmp`, so the result is the
      decryption of the old contents even if `key` and `data` were the same
      array; only `data` changes. */
  method DecryptInPlace(key: array<bv8>, data: array<bv8>)
    requires key.Length == 8 && data.Length == 8
    modifies data
    ensures data[..] == Decrypt(old(key[..]), old(data[..]))
  {
    ghost var k: Bytes8, d: Bytes8 := key[..], data[..];
    var tmp := FillTmp(key[..], data[..]);
    data[0] := DriverValue(tmp[0], tmp[7], Second[0]);
    var i := 1;
    while i < 8
      invariant 1 <= i <= 8
      invariant DriverWrote(tmp, data[..], i)
    {
      ghost var before := data[..];
      DriverStep(tmp, before, i);
      data[i] := DriverValue(tmp[i], tmp[i - 1], Second[i]);
      assert data[..] == before[i := DriverValue(tmp[i], tmp[i - 1], Second[i])];
      i := i + 1;
    }
    DriverWritesDecrypt(k, d, tmp, data[..]);
  }
}
