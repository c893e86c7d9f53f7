/** Sector encryption: every 512-byte sector on its own, under a vector made from its number. */
module DiskCrypto {
  import opened Bytes
  import opened AesModes
  import opened AesLoops
  import Gf128

  type SectorBytes = s: seq<byte> | |s| == BLOCK_SIZE witness Zeros(BLOCK_SIZE)

  /** The 32-bit sector number in a zero vector. */
  function CbcVector(lba: bv64): Block {
    Gf128.PutLe64(lba)[..4] + Zeros(12)
  }

  /** The 64-bit sector number in a zero vector. */
  function XtsVector(lba: bv64): Block {
    Gf128.PutLe64(lba) + Zeros(8)
  }

  function Word64(n: nat): bv64 {
    (n % 0x1_0000_0000_0000_0000) as bv64
  }

  function CbcBytes(c: Cipher, mode: Direction, iv: Block, data: seq<byte>): (r: seq<byte>)
    requires |data| % BLOCK == 0
    ensures |r| == |data|
  {
    Join(CbcCrypt(c, mode, iv, Split(data)))
  }

  function XtsBytes(c: Cipher, mode: Direction, tweaks: Tweaks, data: seq<byte>): (r: seq<byte>)
    requires |data| >= BLOCK
    ensures |r| == |data|
  {
    UnitBytes(XtsCrypt(c, mode, tweaks, AsUnit(data)))
  }

  function CbcSector(c: Cipher, mode: Direction, lba: nat, sector: SectorBytes): SectorBytes {
    CbcBytes(c, mode, CbcVector(Word64(lba)), sector)
  }

  function XtsSector(crypt: Cipher, tweak: Cipher, mode: Direction, lba: nat, sector: SectorBytes): SectorBytes {
    XtsBytes(crypt, mode, TweakChain(Gf128.Double, tweak.enc(XtsVector(Word64(lba)))), sector)
  }

  /** The two ciphers a session can have, with their keys. */
  datatype Suite = AesCbcPlain(cipher: Cipher) | AesXtsPlain64(crypt: Cipher, tweak: Cipher) {
    /** What the encrypt and decrypt functions do to the sector of a given number. */
    function Crypt(mode: Direction, lba: nat, sector: SectorBytes): SectorBytes {
      match this
      case AesCbcPlain(cipher) => CbcSector(cipher, mode, lba, sector)
      case AesXtsPlain64(crypt, tweak) => XtsSector(crypt, tweak, mode, lba, sector)
    }

    /** The keyed block cipher of the data can be undone. */
    ghost predicate Keyed() {
      if AesCbcPlain? then cipher.Valid() else crypt.Valid()
    }
  }

  /** A session: its cipher and the offset that sector numbers count from. */
  datatype Session = Session(suite: Suite, baseOffset: nat) {
    /** The sector number of a byte offset. */
    function Lba(offset: nat): nat
      requires offset >= baseOffset
    {
      (offset - baseOffset) / BLOCK_SIZE
    }
  }

  lemma CbcBytesRoundTrip(c: Cipher, iv: Block, data: seq<byte>)
    requires c.Valid() && |data| % BLOCK == 0
    ensures CbcBytes(c, Decrypt, iv, CbcBytes(c, Encrypt, iv, data)) == data
  {
    SplitJoin(CbcEncrypt(c, iv, Split(data)));
    CbcRoundTrip(c, iv, Split(data));
    JoinSplit(data);
  }

  /** XTS decryption of bytes undoes encryption for every length from 16 up. */
  lemma XtsBytesRoundTrip(c: Cipher, tweaks: Tweaks, data: seq<byte>)
    requires c.Valid() && |data| >= BLOCK
    ensures XtsBytes(c, Decrypt, tweaks, XtsBytes(c, Encrypt, tweaks, data)) == data
  {
    AsUnitOfBytes(XtsCrypt(c, Encrypt, tweaks, AsUnit(data)));
    XtsRoundTrip(c, Encrypt, tweaks, AsUnit(data));
    BytesOfAsUnit(data);
  }

  /** Under both ciphers decryption undoes encryption on every sector. */
  lemma SectorRoundTrip(suite: Suite, lba: nat, s: SectorBytes)
    requires suite.Keyed()
    ensures suite.Crypt(Decrypt, lba, suite.Crypt(Encrypt, lba, s)) == s
  {
    match suite
    case AesCbcPlain(cipher) => CbcBytesRoundTrip(cipher, CbcVector(Word64(lba)), s);
    case AesXtsPlain64(crypt, tweak) => XtsBytesRoundTrip(crypt, TweakChain(Gf128.Double, tweak.enc(XtsVector(Word64(lba)))), s);
  }

  function Sector(data: seq<byte>, k: nat): SectorBytes
    requires BLOCK_SIZE * (k + 1) <= |data|
  {
    data[BLOCK_SIZE * k..BLOCK_SIZE * k + BLOCK_SIZE]
  }

  /** `r` is `data` with every sector encrypted or decrypted under its own number, from lba on. */
  ghost predicate SectorwiseOf(suite: Suite, mode: Direction, lba: nat, data: seq<byte>, r: seq<byte>) {
    && |r| == |data| && |data| % BLOCK_SIZE == 0
    && forall k :: 0 <= k < |data| / BLOCK_SIZE ==> Sector(r, k) == suite.Crypt(mode, lba + k, Sector(data, k))
  }

  lemma SameSectors(a: seq<byte>, b: seq<byte>)
    requires |a| == |b| && |a| % BLOCK_SIZE == 0
    requires forall k :: 0 <= k < |a| / BLOCK_SIZE ==> Sector(a, k) == Sector(b, k)
    ensures a == b
  {
    forall i | 0 <= i < |a|
      ensures a[i] == b[i]
    {
      assert Sector(a, i / BLOCK_SIZE)[i % BLOCK_SIZE] == Sector(b, i / BLOCK_SIZE)[i % BLOCK_SIZE];
    }
  }

  /** Decrypting any number of sectors undoes encrypting them, at any sector number. */
  lemma SectorsRoundTrip(suite: Suite, lba: nat, data: seq<byte>, e: seq<byte>, d: seq<byte>)
    requires suite.Keyed() && SectorwiseOf(suite, Encrypt, lba, data, e) && SectorwiseOf(suite, Decrypt, lba, e, d)
    ensures d == data
  {
    hide Suite.Crypt, Suite.Keyed;
    forall k | 0 <= k < |data| / BLOCK_SIZE
      ensures Sector(d, k) == Sector(data, k)
    {
      assert Sector(e, k) == suite.Crypt(Encrypt, lba + k, Sector(data, k));
      SectorRoundTrip(suite, lba + k, Sector(data, k));
    }
    SameSectors(d, data);
  }

  /** The CBC vector has only 32 bits of the sector number: it repeats every 2^32 sectors. */
  lemma CbcVectorsRepeat(a: bv64, b: bv64)
    ensures CbcVector(a) == CbcVector(b) <==> a & 0xffff_ffff == b & 0xffff_ffff
  {
    FourBytes(a, b);
    var p, q := Gf128.PutLe64(a), Gf128.PutLe64(b);
    assert CbcVector(a) == [p[0], p[1], p[2], p[3]] + Zeros(12) && CbcVector(b) == [q[0], q[1], q[2], q[3]] + Zeros(12);
    if CbcVector(a) == CbcVector(b) {
      assert forall k :: 0 <= k < 4 ==> CbcVector(a)[k] == p[k] && CbcVector(b)[k] == q[k];
    }
  }

  lemma FourBytes(a: bv64, b: bv64)
    ensures var p, q := Gf128.PutLe64(a), Gf128.PutLe64(b);
            p[0] == q[0] && p[1] == q[1] && p[2] == q[2] && p[3] == q[3] <==> a & 0xffff_ffff == b & 0xffff_ffff
  {
    hide Gf128.PutLe64;
    SameBytes(a, b);
    FourMasks(a, b);
  }

  lemma SameBytes(a: bv64, b: bv64)
    ensures var p, q := Gf128.PutLe64(a), Gf128.PutLe64(b);
            && (p[0] == q[0] <==> a & 0xff == b & 0xff) && (p[1] == q[1] <==> (a >> 8) & 0xff == (b >> 8) & 0xff)
            && (p[2] == q[2] <==> (a >> 16) & 0xff == (b >> 16) & 0xff) && (p[3] == q[3] <==> (a >> 24) & 0xff == (b >> 24) & 0xff)
  {
    NarrowByte(a & 0xff, b & 0xff);
    NarrowByte((a >> 8) & 0xff, (b >> 8) & 0xff);
    NarrowByte((a >> 16) & 0xff, (b >> 16) & 0xff);
    NarrowByte((a >> 24) & 0xff, (b >> 24) & 0xff);
  }

  lemma NarrowByte(x: bv64, y: bv64)
    requires x <= 0xff && y <= 0xff
    ensures x as bv8 == y as bv8 <==> x == y
  {
  }

  lemma FourMasks(a: bv64, b: bv64)
    ensures a & 0xff == b & 0xff && (a >> 8) & 0xff == (b >> 8) & 0xff && (a >> 16) & 0xff == (b >> 16) & 0xff && (a >> 24) & 0xff == (b >> 24) & 0xff
            <==> a & 0xffff_ffff == b & 0xffff_ffff
  {
  }

  /** The XTS vector has all 64 bits: no two sectors share one. */
  lemma XtsVectorsDiffer(a: bv64, b: bv64)
    ensures XtsVector(a) == XtsVector(b) <==> a == b
  {
    if XtsVector(a) == XtsVector(b) {
      var p, q := Gf128.PutLe64(a), Gf128.PutLe64(b);
      assert forall k :: 0 <= k < 8 ==> p[k] == XtsVector(a)[k] && q[k] == XtsVector(b)[k];
      assert p[0] == q[0] && p[1] == q[1] && p[2] == q[2] && p[3] == q[3];
      assert p[4] == q[4] && p[5] == q[5] && p[6] == q[6] && p[7] == q[7];
    }
  }

  /** Read lowest byte first, the vectors hold the sector number, or its low 32 bits, and zeros behind it. */
  lemma VectorsHold(lba: bv64)
    ensures var v := XtsVector(lba);
            && lba == (v[0] as bv64) | ((v[1] as bv64) << 8) | ((v[2] as bv64) << 16) | ((v[3] as bv64) << 24)
                      | ((v[4] as bv64) << 32) | ((v[5] as bv64) << 40) | ((v[6] as bv64) << 48) | ((v[7] as bv64) << 56)
            && forall k :: 8 <= k < BLOCK ==> v[k] == 0
    ensures var v := CbcVector(lba);
            && lba & 0xffff_ffff == (v[0] as bv64) | ((v[1] as bv64) << 8) | ((v[2] as bv64) << 16) | ((v[3] as bv64) << 24)
            && forall k :: 4 <= k < BLOCK ==> v[k] == 0
  {
  }

  /** Sectors are counted from the session's own offset. */
  lemma SectorNumber(dc: Session, n: nat)
    ensures dc.Lba(dc.baseOffset + 512 * n) == n
  {
  }

  lemma Modulus(n: nat)
    requires n < 0x1_0000_0000_0000_0000
    ensures n % 0x1_0000_0000_0000_0000 == n
  {
  }

  /** The vector is made from the sector number itself, up to 64 bits. */
  lemma WordIs(n: nat)
    requires n < 0x1_0000_0000_0000_0000
    ensures Word64(n) == n as bv64
  {
    Modulus(n);
    var m := n % 0x1_0000_0000_0000_0000;
    assert m == n;
  }

  lemma InPlaceSector(c: Cipher, mode: Direction, tweaks: Tweaks, sector: seq<byte>, inPlace: bool)
    requires |sector| == BLOCK_SIZE
    ensures XtsOutcome(c, mode, tweaks, sector, inPlace) == XtsBytes(c, mode, tweaks, sector)
  {
    assert AsUnit(sector).tail == [];
    assert XtsBlocks(c, mode, tweaks, AsUnit(sector).blocks, 0)[|sector| / BLOCK - 1][..0] == [];
  }

  /** aes-cbc-plain on one sector through the buffers, under the vector made from its number. */
  method CryptSectorCbc(cipher: Cipher, mode: Direction, lba: nat, input: array<byte>, ip: nat, output: array<byte>, op: nat)
    requires ip + BLOCK_SIZE <= input.Length && op + BLOCK_SIZE <= output.Length
    requires input == output ==> ip == op
    modifies output
    ensures output[op..op + BLOCK_SIZE] == CbcSector(cipher, mode, lba, old(input[ip..ip + BLOCK_SIZE]))
    ensures CbcRight(cipher, mode, CbcVector(Word64(lba)), old(input[ip..ip + BLOCK_SIZE]), output[op..op + BLOCK_SIZE])
    ensures forall i :: 0 <= i < output.Length && !(op <= i < op + BLOCK_SIZE) ==> output[i] == old(output[i])
  {
    hide CbcCrypt, Split, Join, ChainEnd, CbcVector, Word64, CbcRight;
    ghost var sector := input[ip..ip + BLOCK_SIZE];
    var vector := CbcVector(Word64(lba));
    var iv := new byte[BLOCK](k requires 0 <= k < BLOCK => vector[k]);
    assert iv[..] == vector;
    assert input[ip..ip + BLOCK_SIZE] == sector;
    var ret := CryptCbc(cipher, mode, BLOCK_SIZE, iv, input, ip, output, op);
  }

  /** aes-xts-plain64 on one sector through the buffers, under the data unit made from its number. */
  method CryptSectorXts(crypt: Cipher, tweak: Cipher, mode: Direction, lba: nat, input: array<byte>, ip: nat, output: array<byte>, op: nat)
    requires ip + BLOCK_SIZE <= input.Length && op + BLOCK_SIZE <= output.Length
    requires input == output ==> ip == op
    modifies output
    ensures output[op..op + BLOCK_SIZE] == XtsSector(crypt, tweak, mode, lba, old(input[ip..ip + BLOCK_SIZE]))
    ensures XtsLaw(crypt, mode, Gf128.Double, tweak.enc(XtsVector(Word64(lba))), old(input[ip..ip + BLOCK_SIZE]), output[op..op + BLOCK_SIZE],
              input == output)
    ensures forall i :: 0 <= i < output.Length && !(op <= i < op + BLOCK_SIZE) ==> output[i] == old(output[i])
  {
    hide XtsOutcome, XtsBytes, XtsVector, Word64, Gf128.Double, TweakChain, XtsLaw;
    var vector := XtsVector(Word64(lba));
    ghost var sector := input[ip..ip + BLOCK_SIZE];
    var ret := CryptXts(crypt, tweak, Gf128.Double, mode, BLOCK_SIZE, vector, input, ip, output, op);
    InPlaceSector(crypt, mode, TweakChain(Gf128.Double, tweak.enc(vector)), sector, input == output);
  }

  /** dc->encrypt or dc->decrypt */
  method CryptSector(suite: Suite, mode: Direction, lba: nat, input: array<byte>, ip: nat, output: array<byte>, op: nat)
    requires ip + BLOCK_SIZE <= input.Length && op + BLOCK_SIZE <= output.Length
    requires input == output ==> ip == op
    modifies output
    ensures output[op..op + BLOCK_SIZE] == suite.Crypt(mode, lba, old(input[ip..ip + BLOCK_SIZE]))
    ensures forall i :: 0 <= i < output.Length && !(op <= i < op + BLOCK_SIZE) ==> output[i] == old(output[i])
  {
    hide CbcSector, XtsSector;
    match suite
    case AesCbcPlain(cipher) => CryptSectorCbc(cipher, mode, lba, input, ip, output, op);
    case AesXtsPlain64(crypt, tweak) => CryptSectorXts(crypt, tweak, mode, lba, input, ip, output, op);
  }

  function SectorList(data: seq<byte>): (r: seq<SectorBytes>)
    ensures |r| == |data| / BLOCK_SIZE
  {
    seq<SectorBytes>(|data| / BLOCK_SIZE, k requires 0 <= k < |data| / BLOCK_SIZE => Sector(data, k))
  }

  /** Sectors from..to of `a`, counted from index `at`, are those of the list. */
  ghost predicate HoldsSectors(a: seq<byte>, at: nat, sectors: seq<SectorBytes>, from: nat, to: nat)
    requires to <= |sectors| && at + BLOCK_SIZE * to <= |a|
  {
    forall k, q {:trigger sectors[k][q]} :: from <= k < to && 0 <= q < BLOCK_SIZE ==> a[at + BLOCK_SIZE * k + q] == sectors[k][q]
  }

  lemma HeldSectors(a: seq<byte>, at: nat, count: nat)
    requires at + count <= |a| && count % BLOCK_SIZE == 0
    ensures HoldsSectors(a, at, SectorList(a[at..at + count]), 0, count / BLOCK_SIZE)
  {
    var data := a[at..at + count];
    forall k, q | 0 <= k < count / BLOCK_SIZE && 0 <= q < BLOCK_SIZE
      ensures a[at + BLOCK_SIZE * k + q] == SectorList(data)[k][q]
    {
      assert data[BLOCK_SIZE * k + q] == a[at + BLOCK_SIZE * k + q];
    }
  }

  lemma HeldSector(a: seq<byte>, at: nat, sectors: seq<SectorBytes>, from: nat, to: nat, k: nat)
    requires to <= |sectors| && at + BLOCK_SIZE * to <= |a| && HoldsSectors(a, at, sectors, from, to)
    requires from <= k < to
    ensures a[at + BLOCK_SIZE * k..at + BLOCK_SIZE * k + BLOCK_SIZE] == sectors[k]
  {
    assert forall q :: 0 <= q < BLOCK_SIZE ==> a[at + BLOCK_SIZE * k..at + BLOCK_SIZE * k + BLOCK_SIZE][q] == sectors[k][q];
  }

  ghost function SectorsCrypt(suite: Suite, mode: Direction, lba: nat, sectors: seq<SectorBytes>): (r: seq<SectorBytes>)
    ensures |r| == |sectors|
  {
    seq<SectorBytes>(|sectors|, k requires 0 <= k < |sectors| => suite.Crypt(mode, lba + k, sectors[k]))
  }

  lemma SliceOfSlice(a: seq<byte>, at: nat, n: nat, from: nat, count: nat)
    requires at + n <= |a| && from + count <= n
    ensures a[at..at + n][from..from + count] == a[at + from..at + from + count]
  {
    var x, y := a[at..at + n][from..from + count], a[at + from..at + from + count];
    forall q | 0 <= q < count
      ensures x[q] == y[q]
    {
      assert x[q] == a[at..at + n][from + q] == a[at + from + q];
    }
  }

  lemma HeldIsSectorwise(suite: Suite, mode: Direction, lba: nat, data: seq<byte>, a: seq<byte>, at: nat)
    requires at + |data| <= |a| && |data| % BLOCK_SIZE == 0
    requires HoldsSectors(a, at, SectorsCrypt(suite, mode, lba, SectorList(data)), 0, |data| / BLOCK_SIZE)
    ensures SectorwiseOf(suite, mode, lba, data, a[at..at + |data|])
  {
    hide Suite.Crypt, HoldsSectors;
    var results := SectorsCrypt(suite, mode, lba, SectorList(data));
    var r := a[at..at + |data|];
    forall k | 0 <= k < |data| / BLOCK_SIZE
      ensures Sector(r, k) == suite.Crypt(mode, lba + k, Sector(data, k))
    {
      HeldSector(a, at, results, 0, |data| / BLOCK_SIZE, k);
      SliceOfSlice(a, at, |data|, BLOCK_SIZE * k, BLOCK_SIZE);
    }
  }

  lemma NoSectors(a: seq<byte>, at: nat, sectors: seq<SectorBytes>)
    requires at <= |a|
    ensures HoldsSectors(a, at, sectors, 0, 0)
  {
  }

  /** disk_crypto_encrypt and disk_crypto_decrypt */
  method CryptSectors(dc: Session, mode: Direction, input: array<byte>, ip: nat, output: array<byte>, op: nat, count: nat, offset: nat)
    requires count % BLOCK_SIZE == 0 && offset >= dc.baseOffset
    requires ip + count <= input.Length && op + count <= output.Length
    requires input == output ==> ip == op
    modifies output
    ensures SectorwiseOf(dc.suite, mode, dc.Lba(offset), old(input[ip..ip + count]), output[op..op + count])
    ensures forall i :: 0 <= i < output.Length && !(op <= i < op + count) ==> output[i] == old(output[i])
  {
    hide Suite.Crypt, SectorList, SectorsCrypt, HoldsSectors, SectorwiseOf;
    ghost var data := input[ip..ip + count];
    HeldSectors(input[..], ip, count);
    CryptLoop(dc.suite, mode, dc.Lba(offset), count / BLOCK_SIZE, input, ip, output, op, SectorList(data));
    HeldIsSectorwise(dc.suite, mode, dc.Lba(offset), data, output[..], op);
  }

  method CryptLoop(suite: Suite, mode: Direction, first: nat, n: nat, input: array<byte>, ip: nat, output: array<byte>, op: nat,
                   ghost sectors: seq<SectorBytes>)
    requires |sectors| == n && ip + BLOCK_SIZE * n <= input.Length && op + BLOCK_SIZE * n <= output.Length
    requires input == output ==> ip == op
    requires HoldsSectors(input[..], ip, sectors, 0, n)
    modifies output
    ensures HoldsSectors(output[..], op, SectorsCrypt(suite, mode, first, sectors), 0, n)
    ensures forall i :: 0 <= i < output.Length && !(op <= i < op + BLOCK_SIZE * n) ==> output[i] == old(output[i])
  {
    hide Suite.Crypt;
    ghost var results := SectorsCrypt(suite, mode, first, sectors);
    hide HoldsSectors;
    assert HoldsSectors(output[..], op, results, 0, 0) by { NoSectors(output[..], op, results); }
    var lba, lastLba := first, first + n;
    while lba < lastLba
      invariant first <= lba <= lastLba
      invariant HoldsSectors(output[..], op, results, 0, lba - first) && HoldsSectors(input[..], ip, sectors, lba - first, n)
      invariant forall i :: 0 <= i < output.Length && !(op <= i < op + BLOCK_SIZE * n) ==> output[i] == old(output[i])
    {
      CryptNext(suite, mode, lba, input, ip, output, op, lba - first, sectors, results);
      lba := lba + 1;
    }
  }

  lemma StoredSector(a: array<byte>, at: nat, s: SectorBytes)
    requires at + BLOCK_SIZE <= a.Length && a[at..at + BLOCK_SIZE] == s
    ensures forall i :: at <= i < at + BLOCK_SIZE ==> a[i] == s[i - at]
  {
    forall i | at <= i < at + BLOCK_SIZE
      ensures a[i] == s[i - at]
    {
      assert a[at..at + BLOCK_SIZE][i - at] == s[i - at];
    }
  }

  method CryptHeld(suite: Suite, mode: Direction, lba: nat, input: array<byte>, ip: nat, output: array<byte>, op: nat, ghost result: SectorBytes)
    requires ip + BLOCK_SIZE <= input.Length && op + BLOCK_SIZE <= output.Length
    requires result == suite.Crypt(mode, lba, input[ip..ip + BLOCK_SIZE])
    requires input == output ==> ip == op
    modifies output
    ensures forall i :: op <= i < op + BLOCK_SIZE ==> output[i] == result[i - op]
    ensures forall i :: 0 <= i < output.Length && !(op <= i < op + BLOCK_SIZE) ==> output[i] == old(output[i])
  {
    hide Suite.Crypt;
    CryptSector(suite, mode, lba, input, ip, output, op);
    StoredSector(output, op, result);
  }

  method CryptNext(suite: Suite, mode: Direction, lba: nat, input: array<byte>, ip: nat, output: array<byte>, op: nat, j: nat,
                   ghost sectors: seq<SectorBytes>, ghost results: seq<SectorBytes>)
    requires j < |sectors| == |results| && results[j] == suite.Crypt(mode, lba, sectors[j])
    requires ip + BLOCK_SIZE * |sectors| <= input.Length && op + BLOCK_SIZE * |sectors| <= output.Length
    requires input == output ==> ip == op
    requires HoldsSectors(output[..], op, results, 0, j) && HoldsSectors(input[..], ip, sectors, j, |sectors|)
    modifies output
    ensures HoldsSectors(output[..], op, results, 0, j + 1) && HoldsSectors(input[..], ip, sectors, j + 1, |sectors|)
    ensures forall i :: 0 <= i < output.Length && !(op <= i < op + BLOCK_SIZE * |sectors|) ==> output[i] == old(output[i])
  {
    hide Suite.Crypt, HoldsSectors;
    HeldSector(input[..], ip, sectors, j, |sectors|, j);
    LaterSectors(input[..], ip, sectors, j, |sectors|);
    var at := op + BLOCK_SIZE * j;
    ghost var was := output[..];
    assert input[ip + BLOCK_SIZE * j..ip + BLOCK_SIZE * j + BLOCK_SIZE] == sectors[j];
    CryptHeld(suite, mode, lba, input, ip + BLOCK_SIZE * j, output, at, results[j]);
    SectorsKept(was, output[..], op, results, 0, j, at);
    OneMoreSector(output[..], op, results, j);
    if input == output {
      SectorsKept(was, input[..], ip, sectors, j + 1, |sectors|, at);
    }
  }

  lemma LaterSectors(a: seq<byte>, at: nat, sectors: seq<SectorBytes>, j: nat, n: nat)
    requires j < n <= |sectors| && at + BLOCK_SIZE * n <= |a| && HoldsSectors(a, at, sectors, j, n)
    ensures HoldsSectors(a, at, sectors, j + 1, n)
  {
  }

  lemma OneMoreSector(a: seq<byte>, at: nat, sectors: seq<SectorBytes>, j: nat)
    requires j < |sectors| && at + BLOCK_SIZE * (j + 1) <= |a| && HoldsSectors(a, at, sectors, 0, j)
    requires forall i :: at + BLOCK_SIZE * j <= i < at + BLOCK_SIZE * j + BLOCK_SIZE ==> a[i] == sectors[j][i - (at + BLOCK_SIZE * j)]
    ensures HoldsSectors(a, at, sectors, 0, j + 1)
  {
  }

  /** Sectors that lie wholly before or behind the one written at `w`. */
  lemma SectorsKept(was: seq<byte>, a: seq<byte>, at: nat, sectors: seq<SectorBytes>, from: nat, to: nat, w: nat)
    requires from <= to <= |sectors| && |was| == |a| && at + BLOCK_SIZE * to <= |a| && HoldsSectors(was, at, sectors, from, to)
    requires at + BLOCK_SIZE * to <= w || w + BLOCK_SIZE <= at + BLOCK_SIZE * from
    requires forall i :: 0 <= i < |a| && !(w <= i < w + BLOCK_SIZE) ==> a[i] == was[i]
    ensures HoldsSectors(a, at, sectors, from, to)
  {
  }
}
