/** AES in CFB mode (FIPS 197; section 6.3 of NIST SP 800-38A) is foreign
    code here. The model keeps only what the engine relies on: a keystream
    determined by key, IV and position, XORed with the data. Encrypting and
    decrypting are then the same operation. */
module Cipher {
  import opened Bytes

  /** `aes.BlockSize`, which is also the IV length. */
  const BlockSize: nat := 16

  type Iv = s: seq<byte> | |s| == BlockSize witness seq(16, _ => 0 as byte)

  /** Byte `i` of the keystream for a key and an IV. */
  type Keystream = (seq<byte>, seq<byte>, nat) -> byte

  /** Key lengths `aes.NewCipher` accepts (AES-128, -192, -256). */
  predicate ValidKeyLength(n: nat)
  {
    n == 16 || n == 24 || n == 32
  }

  /** `XORKeyStream` applied to `data`, starting `offset` bytes into the
      keystream of one cipher session. */
  function Xor(ks: Keystream, key: seq<byte>, iv: seq<byte>, offset: nat, data: seq<byte>): (out: seq<byte>)
    ensures |out| == |data|
    ensures forall i | 0 <= i < |data| :: out[i] == data[i] ^ ks(key, iv, offset + i)
  {
    seq(|data|, i requires 0 <= i < |data| => data[i] ^ ks(key, iv, offset + i))
  }

  /** XORing twice with the same keystream restores the data. */
  lemma XorInvolution(ks: Keystream, key: seq<byte>, iv: seq<byte>, offset: nat, data: seq<byte>)
    ensures Xor(ks, key, iv, offset, Xor(ks, key, iv, offset, data)) == data
  {
    var once := Xor(ks, key, iv, offset, data);
    var twice := Xor(ks, key, iv, offset, once);
    forall i | 0 <= i < |data| ensures twice[i] == data[i] {
      var k := ks(key, iv, offset + i);
      assert twice[i] == (data[i] ^ k) ^ k;
    }
  }

  /** One session spans consecutive pieces: XORing a concatenation equals
      XORing its parts at their positions in the stream. */
  lemma XorAppend(ks: Keystream, key: seq<byte>, iv: seq<byte>, offset: nat, a: seq<byte>, b: seq<byte>)
    ensures Xor(ks, key, iv, offset, a + b) == Xor(ks, key, iv, offset, a) + Xor(ks, key, iv, offset + |a|, b)
  {
    var lhs := Xor(ks, key, iv, offset, a + b);
    var rhs := Xor(ks, key, iv, offset, a) + Xor(ks, key, iv, offset + |a|, b);
    forall i | 0 <= i < |a + b| ensures lhs[i] == rhs[i] {
      if i >= |a| {
        assert (a + b)[i] == b[i - |a|];
      }
    }
  }
}
