/** The encryption and decryption objects of the three cipher handlers, which differ in the size of
    their IV and, on the sending side, in whether they check the length of their input. */
module Ciphers {
  import opened Bytes
  import opened Frames
  import opened Nonce

  const KEY_SIZE := 32

  /** The session key both sides derive from the shared key and the initial IV. */
  function DeriveKey(crypto: Crypto, key: seq<byte>, salt: seq<byte>): (sessionKey: seq<byte>)
    ensures |sessionKey| == KEY_SIZE
  {
    seq<byte>(KEY_SIZE, i requires 0 <= i < KEY_SIZE => crypto.hkdf(key, salt, i))
  }

  /** The connection state of a decryption object that has been given neither IV nor key: first its IV, then its key. */
  function BlankLink(crypto: Crypto, cipher: Cipher): (link: Link)
    ensures link.Sealed? && link.crypto == crypto && link.cipher == cipher
  {
    var n := cipher.IvSize();
    Sealed(
      crypto, cipher, seq<byte>(KEY_SIZE, i requires 0 <= i < KEY_SIZE => crypto.memory(cipher, n + i)),
      seq<byte>(n, i requires 0 <= i < n => crypto.memory(cipher, i)))
  }

  /** Fills a buffer from `from` on with arbitrary bytes, as the random pool does. */
  method GenerateBlock(buffer: array<byte>, from: nat, to: nat)
    requires from <= to <= buffer.Length
    modifies buffer
    ensures buffer[..from] == old(buffer[..from]) && buffer[to..] == old(buffer[to..])
  {
    var i := from;
    while i < to
      invariant from <= i <= to
      invariant buffer[..from] == old(buffer[..from]) && buffer[to..] == old(buffer[to..])
    {
      buffer[i] := *;
      i := i + 1;
    }
  }

  class Encryption {
    const crypto: Crypto
    const cipher: Cipher
    const iv: array<byte>
    var sessionKey: seq<byte>

    ghost predicate Valid() { iv.Length == cipher.IvSize() }

    function AsLink(): Link
      reads this, iv
    {
      Sealed(crypto, cipher, sessionKey, iv[..])
    }

    constructor (crypto: Crypto, cipher: Cipher)
      ensures Valid() && fresh(iv) && this.crypto == crypto && this.cipher == cipher
    {
      this.crypto, this.cipher := crypto, cipher;
      iv := new byte[cipher.IvSize()];
      sessionKey := [];
      new;
      GenerateBlock(iv, 0, iv.Length);
    }

    /** 0 on success, 1 when the key file is too short. */
    method ReadKey(keyFile: seq<byte>) returns (err: int)
      modifies this`sessionKey
      ensures err == if |keyFile| >= KEY_SIZE then 0 else 1
      ensures err == 0 ==> AsLink() == Sealed(crypto, cipher, DeriveKey(crypto, keyFile[..KEY_SIZE], iv[..]), iv[..])
      ensures err == 0 <==> |keyFile| >= 32
      ensures err == 0 ==>
                |sessionKey| == 32 && forall i :: 0 <= i < 32 ==> sessionKey[i] == crypto.hkdf(keyFile[..32], iv[..], i)
    {
      if |keyFile| < KEY_SIZE {
        return 1;
      }
      sessionKey := DeriveKey(crypto, keyFile[..KEY_SIZE], iv[..]);
      err := 0;
    }

    /** Pads, advances the IV, encrypts, and appends the tag. */
    method Encrypt(inBuffer: array<byte>, outBuffer: array<byte>, length: nat) returns (size: nat)
      requires Valid() && inBuffer != outBuffer && inBuffer != iv && outBuffer != iv
      requires length <= inBuffer.Length && SEALED <= inBuffer.Length && outBuffer.Length == FRAME
      requires cipher.ChaCha20Poly1305? ==> length <= SEALED
      modifies inBuffer, outBuffer, iv
      ensures length > SEALED ==> size == 0 && AsLink() == old(AsLink()) && outBuffer[..] == old(outBuffer[..])
      ensures length <= SEALED ==>
                && size == FRAME && AsLink() == old(AsLink()).Next()
                && inBuffer[..length] == old(inBuffer[..length])
                && outBuffer[..] == AsLink().Seal(inBuffer[..SEALED])
                && SealedBytes(crypto, cipher, sessionKey, iv[..], inBuffer[..1444], outBuffer[..])
    {
      if length > SEALED {
        return 0;
      }
      GenerateBlock(inBuffer, length, SEALED);
      IncrementIV(iv);
      var out := AsLink().Seal(inBuffer[..SEALED]);
      CopyInto(outBuffer, 0, out);
      AsLink().SealBytes(inBuffer[..SEALED]);
      size := FRAME;
    }
  }

  lemma OnlySealedOpens(link: Link, s: seq<byte>)
    requires link.Sealed? && |s| == 1460
    ensures forall plain | |plain| == 1444 ::
              SealedBytes(link.crypto, link.cipher, link.key, link.iv, plain, s)
              <==> link.Authentic(s) && link.Mask(s[..1444]) == plain
  {
    forall plain | |plain| == 1444
      ensures SealedBytes(link.crypto, link.cipher, link.key, link.iv, plain, s)
              <==> link.Authentic(s) && link.Mask(s[..1444]) == plain
    {
      link.OpenBytes(s, plain);
    }
  }

  class Decryption {
    const crypto: Crypto
    const cipher: Cipher
    const iv: array<byte>
    var sessionKey: seq<byte>

    ghost predicate Valid() { iv.Length == cipher.IvSize() }

    function AsLink(): Link
      reads this, iv
    {
      Sealed(crypto, cipher, sessionKey, iv[..])
    }

    constructor (crypto: Crypto, cipher: Cipher)
      ensures Valid() && fresh(iv) && this.crypto == crypto && this.cipher == cipher
      ensures AsLink() == BlankLink(crypto, cipher)
    {
      var blank := BlankLink(crypto, cipher);
      this.crypto, this.cipher := crypto, cipher;
      iv := new byte[cipher.IvSize()];
      sessionKey := blank.key;
      new;
      CopyInto(iv, 0, blank.iv);
    }

    method SetIV(nonce: seq<byte>)
      requires Valid() && |nonce| == cipher.IvSize()
      modifies iv
      ensures iv[..] == nonce
    {
      CopyInto(iv, 0, nonce);
    }

    method ReadKey(keyFile: seq<byte>) returns (err: int)
      modifies this`sessionKey
      ensures err == if |keyFile| >= KEY_SIZE then 0 else 1
      ensures err == 0 ==> AsLink() == Sealed(crypto, cipher, DeriveKey(crypto, keyFile[..KEY_SIZE], iv[..]), iv[..])
      ensures err == 0 <==> |keyFile| >= 32
      ensures err == 0 ==>
                |sessionKey| == 32 && forall i :: 0 <= i < 32 ==> sessionKey[i] == crypto.hkdf(keyFile[..32], iv[..], i)
    {
      if |keyFile| < KEY_SIZE {
        return 1;
      }
      sessionKey := DeriveKey(crypto, keyFile[..KEY_SIZE], iv[..]);
      err := 0;
    }

    /** Advances the IV, checks the tag, and decrypts. */
    method Decrypt(inBuffer: array<byte>, outBuffer: array<byte>) returns (verified: bool)
      requires Valid() && inBuffer != outBuffer && inBuffer != iv && outBuffer != iv
      requires inBuffer.Length == FRAME && SEALED <= outBuffer.Length
      modifies outBuffer, iv
      ensures AsLink() == old(AsLink()).Next()
      ensures verified == AsLink().Authentic(inBuffer[..])
      ensures verified ==> outBuffer[..SEALED] == AsLink().Mask(inBuffer[..SEALED])
      ensures verified ==> SealedBytes(crypto, cipher, sessionKey, iv[..], outBuffer[..1444], inBuffer[..])
      ensures !verified ==>
                forall plain | |plain| == 1444 :: !SealedBytes(crypto, cipher, sessionKey, iv[..], plain, inBuffer[..])
    {
      IncrementIV(iv);
      var now := AsLink();
      verified := now.Authentic(inBuffer[..]);
      OnlySealedOpens(now, inBuffer[..]);
      if verified {
        CopyInto(outBuffer, 0, now.Mask(inBuffer[..SEALED]));
        assert outBuffer[..SEALED] == outBuffer[..][..SEALED];
      }
      assert inBuffer[..][..SEALED] == inBuffer[..SEALED];
    }
  }
}
