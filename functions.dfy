/**
 * Content fingerprinting: a SHA3-256 digest reduced to four signed 64-bit
 * integers, the compound key the file collection indexes uniquely.
 *
 * SHA3-256 itself is an injected collaborator (`sha3`). A hasher is modelled
 * by the bytes it has absorbed so far, so feeding a source piece by piece and
 * hashing it in one go give the same digest by construction.
 */
module Functions {
  import opened Results

  type byte = b: int | 0 <= b < 256

  /** Size of the stack buffer every read loop reads through. */
  const BUFFER_SIZE: nat := 4096

  /** A SHA3-256 digest. */
  type Digest = d: seq<byte> | |d| == 32 witness seq(32, _ => 0)

  const TWO_63: nat := 0x8000_0000_0000_0000
  const TWO_64: nat := 0x1_0000_0000_0000_0000

  predicate IsI64(x: int) {
    -(TWO_63 as int) <= x < TWO_63
  }

  function Pow256(k: nat): (p: nat)
    ensures p > 0
  {
    if k == 0 then 1 else 256 * Pow256(k - 1)
  }

  lemma Pow256Eight()
    ensures Pow256(8) == TWO_64
  {
    assert Pow256(4) == 0x1_0000_0000;
  }

  // ---------------------------------------------------------------------------
  // Fixed little-endian reinterpretation of an 8-byte group
  // ---------------------------------------------------------------------------

  /** Unsigned value of a little-endian byte group. */
  function LeValue(g: seq<byte>): nat {
    if g == [] then 0 else g[0] + 256 * LeValue(g[1..])
  }

  /** The `len` low-order little-endian bytes of `n`. */
  function LeBytes(n: nat, len: nat): (g: seq<byte>)
    ensures |g| == len
  {
    if len == 0 then [] else [n % 256] + LeBytes(n / 256, len - 1)
  }

  lemma {:induction false} LeValueBound(g: seq<byte>)
    ensures LeValue(g) < Pow256(|g|)
  {
    if g != [] {
      LeValueBound(g[1..]);
    }
  }

  lemma {:induction false} LeBytesOfValue(g: seq<byte>)
    ensures LeBytes(LeValue(g), |g|) == g
  {
    if g != [] {
      ByteDigit(g[0], LeValue(g[1..]));
      LeBytesOfValue(g[1..]);
    }
  }

  lemma ByteDigit(b: byte, v: nat)
    ensures (b + 256 * v) % 256 == b && (b + 256 * v) / 256 == v
  {
  }

  lemma {:induction false} LeValueOfBytes(n: nat, len: nat)
    requires n < Pow256(len)
    ensures LeValue(LeBytes(n, len)) == n
  {
    if len > 0 {
      assert n / 256 < Pow256(len - 1);
      LeValueOfBytes(n / 256, len - 1);
      assert LeBytes(n, len)[1..] == LeBytes(n / 256, len - 1);
    }
  }

  /**
   * The i64 an 8-byte group stands for. The source reinterprets the group in
   * native byte order; the model fixes little-endian.
   */
  function I64FromBytes(g: seq<byte>): (x: int)
    requires |g| == 8
    ensures IsI64(x)
  {
    LeValueBound(g);
    Pow256Eight();
    var u := LeValue(g);
    if u < TWO_63 then u else u - TWO_64
  }

  /** The 8-byte group of an i64, inverse of I64FromBytes. */
  function I64ToBytes(x: int): (g: seq<byte>)
    requires IsI64(x)
    ensures |g| == 8
  {
    LeBytes(if x >= 0 then x else x + TWO_64, 8)
  }

  lemma I64FromToBytes(x: int)
    requires IsI64(x)
    ensures I64FromBytes(I64ToBytes(x)) == x
  {
    Pow256Eight();
    LeValueOfBytes(if x >= 0 then x else x + TWO_64, 8);
  }

  lemma I64ToFromBytes(g: seq<byte>)
    requires |g| == 8
    ensures I64ToBytes(I64FromBytes(g)) == g
  {
    LeValueBound(g);
    Pow256Eight();
    LeBytesOfValue(g);
  }

  // ---------------------------------------------------------------------------
  // separate_hash
  // ---------------------------------------------------------------------------

  /** The four signed integers `(hash_1, hash_2, hash_3, hash_4)` stored with a file. */
  datatype HashKey = HashKey(hash1: int, hash2: int, hash3: int, hash4: int) {
    predicate Valid() {
      IsI64(hash1) && IsI64(hash2) && IsI64(hash3) && IsI64(hash4)
    }
  }

  /**
   * Splits a digest into four consecutive 8-byte groups. The source slices
   * `hash[0..32]` and panics on a shorter input; bytes past 32 are ignored.
   */
  function SeparateHash(hash: seq<byte>): (k: HashKey)
    requires |hash| >= 32
    ensures k.Valid()
  {
    HashKey(I64FromBytes(hash[0..8]), I64FromBytes(hash[8..16]),
            I64FromBytes(hash[16..24]), I64FromBytes(hash[24..32]))
  }

  /** Re-assembles the 32 digest bytes from a key; the inverse of SeparateHash. */
  function JoinHash(k: HashKey): (d: Digest)
    requires k.Valid()
  {
    I64ToBytes(k.hash1) + I64ToBytes(k.hash2) + I64ToBytes(k.hash3) + I64ToBytes(k.hash4)
  }

  lemma SeparateJoin(k: HashKey)
    requires k.Valid()
    ensures SeparateHash(JoinHash(k)) == k
  {
    var d := JoinHash(k);
    assert d[0..8] == I64ToBytes(k.hash1);
    assert d[8..16] == I64ToBytes(k.hash2);
    assert d[16..24] == I64ToBytes(k.hash3);
    assert d[24..32] == I64ToBytes(k.hash4);
    I64FromToBytes(k.hash1);
    I64FromToBytes(k.hash2);
    I64FromToBytes(k.hash3);
    I64FromToBytes(k.hash4);
  }

  lemma JoinSeparate(hash: seq<byte>)
    requires |hash| >= 32
    ensures JoinHash(SeparateHash(hash)) == hash[..32]
  {
    I64ToFromBytes(hash[0..8]);
    I64ToFromBytes(hash[8..16]);
    I64ToFromBytes(hash[16..24]);
    I64ToFromBytes(hash[24..32]);
    assert hash[..32] == hash[0..8] + hash[8..16] + hash[16..24] + hash[24..32];
  }

  /** Two inputs give the same key exactly when their first 32 bytes agree. */
  lemma SeparateHashInjective(a: seq<byte>, b: seq<byte>)
    requires |a| >= 32 && |b| >= 32
    ensures SeparateHash(a) == SeparateHash(b) <==> a[..32] == b[..32]
  {
    if SeparateHash(a) == SeparateHash(b) {
      JoinSeparate(a);
      JoinSeparate(b);
    }
    if a[..32] == b[..32] {
      assert a[0..8] == a[..32][0..8] == b[..32][0..8] == b[0..8];
      assert a[8..16] == a[..32][8..16] == b[..32][8..16] == b[8..16];
      assert a[16..24] == a[..32][16..24] == b[..32][16..24] == b[16..24];
      assert a[24..32] == a[..32][24..32] == b[..32][24..32] == b[24..32];
    }
  }

  // ---------------------------------------------------------------------------
  // Byte pieces, as read from a source or a stream
  // ---------------------------------------------------------------------------

  /** The pieces joined in order. */
  function Concat(pieces: seq<seq<byte>>): seq<byte> {
    if pieces == [] then [] else Concat(pieces[..|pieces| - 1]) + pieces[|pieces| - 1]
  }

  lemma {:induction false} ConcatAppend(a: seq<seq<byte>>, b: seq<seq<byte>>)
    ensures Concat(a + b) == Concat(a) + Concat(b)
    decreases |b|
  {
    if b == [] {
      assert a + b == a;
    } else {
      var b' := b[..|b| - 1];
      assert (a + b)[..|a + b| - 1] == a + b';
      ConcatAppend(a, b');
    }
  }

  /** A prefix of the pieces never joins to more bytes than all of them. */
  lemma ConcatPrefixLength(pieces: seq<seq<byte>>, k: nat)
    requires k <= |pieces|
    ensures |Concat(pieces[..k])| <= |Concat(pieces)|
  {
    assert pieces == pieces[..k] + pieces[k..];
    ConcatAppend(pieces[..k], pieces[k..]);
  }

  // ---------------------------------------------------------------------------
  // get_hash_by_buffer, get_hash_by_path
  // ---------------------------------------------------------------------------

  /** A SHA3-256 hasher, as the bytes absorbed so far. */
  datatype Sha3State = Sha3State(absorbed: seq<byte>) {
    function Update(data: seq<byte>): Sha3State {
      Sha3State(absorbed + data)
    }

    function Finalize(sha3: seq<byte> -> Digest): Digest {
      sha3(absorbed)
    }
  }

  /** The fingerprint of a buffer; the digest can be read back from it. */
  function GetHashByBuffer(sha3: seq<byte> -> Digest, buffer: seq<byte>): (k: HashKey)
    ensures k.Valid()
    ensures JoinHash(k) == sha3(buffer)
  {
    JoinSeparate(sha3(buffer));
    assert [] + buffer == buffer;
    SeparateHash(Sha3State([]).Update(buffer).Finalize(sha3))
  }

  /** A file on the local file system, as the path-based operations see it. */
  datatype LocalFile = LocalFile(fileName: string, extension: Option<string>, contents: seq<byte>)

  /** Hashes a file by reading it through the buffer, piece by piece, in order. */
  method GetHashByPath(sha3: seq<byte> -> Digest, file: LocalFile) returns (k: HashKey)
    ensures k == GetHashByBuffer(sha3, file.contents)
  {
    var data := file.contents;
    var hasher := Sha3State([]);
    var pos := 0;
    while pos < |data|
      invariant 0 <= pos <= |data|
      invariant hasher.absorbed == data[..pos]
    {
      var c := if |data| - pos < BUFFER_SIZE then |data| - pos else BUFFER_SIZE;
      hasher := hasher.Update(data[pos..pos + c]);
      assert data[..pos] + data[pos..pos + c] == data[..pos + c];
      pos := pos + c;
    }
    assert data[..pos] == data == [] + data;
    k := SeparateHash(hasher.Finalize(sha3));
  }
}
