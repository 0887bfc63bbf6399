/** Fixed-width signature arithmetic: the padding that the generator applies in place, and
    the comparison that the updater makes. The octet conversions are I2OSP and OS2IP of
    sections 4.1 and 4.2 of RFC 8017. The digest and the two key operations are
    uninterpreted functions. */
module Signature {
  import opened Bytes
  import opened Base64

  const SIGNATURE_LENGTH := 512
  const DIGEST_LENGTH := 64
  const READ_CHUNK := 1024

  // ----- Big integers as byte strings -----

  /** Bytes of the shortest big-endian form; none for zero. */
  function ByteCount(t: nat): nat { if t == 0 then 0 else 1 + ByteCount(t / 256) }

  /** `t` without its `i` least significant bytes. */
  function Shift(t: nat, i: nat): nat
    decreases i
  {
    if i == 0 then t else Shift(t, i - 1) / 256
  }

  /** The `i`-th byte counted from the least significant one. */
  function GetByte(t: nat, i: nat): byte { Shift(t, i) % 256 }

  /** The shortest big-endian form. */
  function Octets(t: nat): (b: seq<byte>)
    ensures |b| == ByteCount(t)
  {
    if t == 0 then [] else Octets(t / 256) + [t % 256]
  }

  lemma {:induction false} OctetsValue(t: nat)
    ensures BigEndian(Octets(t)) == t
  {
    if t > 0 {
      OctetsValue(t / 256);
      assert Octets(t)[..|Octets(t)| - 1] == Octets(t / 256);
    }
  }

  lemma {:induction false} ShiftDivides(t: nat, i: nat)
    ensures Shift(t, i + 1) == Shift(t / 256, i)
  {
    if i > 0 { ShiftDivides(t, i - 1); }
  }

  lemma {:induction false} ShiftedOut(t: nat)
    ensures Shift(t, ByteCount(t)) == 0
  {
    if t > 0 {
      ShiftedOut(t / 256);
      ShiftDivides(t, ByteCount(t / 256));
    }
  }

  lemma {:induction false} ByteCountBound(t: nat, n: nat)
    ensures ByteCount(t) <= n <==> t < Pow256(n)
  {
    if t > 0 && n > 0 { ByteCountBound(t / 256, n - 1); }
  }

  // ----- Generator: padding in place -----

  /** Moves the first `size` bytes to the end of the buffer and clears the front, from
      the highest index down, as both padding loops of the generator do. */
  method PadInPlace(signature: array<byte>, size: nat)
    requires size <= signature.Length
    modifies signature
    ensures signature[..] == Zeros(signature.Length - size) + old(signature[..size])
    ensures BigEndian(signature[..]) == BigEndian(old(signature[..size]))
  {
    ghost var was := signature[..];
    if size < signature.Length {
      var padding := signature.Length - size;
      var i := signature.Length - 1;
      while i >= 0
        invariant -1 <= i < signature.Length
        invariant forall k :: 0 <= k <= i ==> signature[k] == was[k]
        invariant forall k :: i < k < signature.Length ==>
          signature[k] == if k >= padding then was[k - padding] else 0
      {
        if i >= padding {
          signature[i] := signature[i - padding];
        } else {
          signature[i] := 0;
        }
        i := i - 1;
      }
    }
    assert signature[..] == Zeros(signature.Length - size) + was[..size];
    BigEndianPad(signature.Length - size, was[..size]);
  }

  /** What signing a stream yields: the key applied to the digest, padded to full width. */
  function SignatureOf(digest: seq<byte>, decrypt: nat -> nat): seq<byte> {
    var t := decrypt(BigEndian(digest));
    if ByteCount(t) <= SIGNATURE_LENGTH then Zeros(SIGNATURE_LENGTH - ByteCount(t)) + Octets(t)
    else Zeros(SIGNATURE_LENGTH)
  }

  /** The generator's running hash. The raw key operations write the shortest form of their
      result and return its length, or write nothing and return 0 when it does not fit. */
  class HashSignature {
    const sha: seq<byte> -> seq<byte>
    var fed: seq<byte>

    constructor (sha: seq<byte> -> seq<byte>)
      ensures this.sha == sha && fed == []
    {
      this.sha := sha;
      fed := [];
    }

    method Add(data: seq<byte>)
      modifies this
      ensures fed == old(fed) + data
    {
      fed := fed + data;
    }

    /** Signs what was fed. */
    method Get(decrypt: nat -> nat, sigbuf: array<byte>) returns (size: nat)
      modifies this, sigbuf
      ensures fed == []
      ensures var t := decrypt(BigEndian(sha(old(fed))));
        && size == (if ByteCount(t) <= sigbuf.Length then ByteCount(t) else 0)
        && (size > 0 ==> sigbuf[..size] == Octets(t))
    {
      var raw := Octets(decrypt(BigEndian(sha(fed))));
      fed := [];
      size := if |raw| <= sigbuf.Length then |raw| else 0;
      forall k | 0 <= k < size { sigbuf[k] := raw[k]; }
      assert |raw| <= sigbuf.Length ==> sigbuf[..size] == raw;
    }

    /** Checks what was fed against a signature. */
    method CheckSignature(encrypt: nat -> nat, sig: seq<byte>) returns (ok: bool)
      modifies this
      ensures fed == []
      ensures var t := encrypt(BigEndian(sig)); ok <==> t != 0 && t == BigEndian(sha(old(fed)))
    {
      var h := sha(fed);
      fed := [];
      ok := PowerIsDigest(encrypt(BigEndian(sig)), h);
    }
  }

  /** Hashes a file in chunks and signs it. */
  method SignFile(content: seq<byte>, sha: seq<byte> -> seq<byte>, decrypt: nat -> nat,
                  signature: array<byte>) returns (size: nat)
    requires signature.Length == SIGNATURE_LENGTH
    modifies signature
    ensures size == SIGNATURE_LENGTH
    ensures signature[..] == SignatureOf(sha(content), decrypt)
  {
    hide BigEndian, ByteCount;
    var signatureGenerator := new HashSignature(sha);
    var pos, good := 0, true;
    while good
      invariant pos <= |content| && signatureGenerator.fed == content[..pos]
      invariant !good ==> pos == |content|
      decreases |content| - pos, good
    {
      var count := Min(READ_CHUNK, |content| - pos);
      good := count == READ_CHUNK;
      signatureGenerator.Add(content[pos..pos + count]);
      assert content[..pos + count] == content[..pos] + content[pos..pos + count];
      pos := pos + count;
    }
    assert content[..pos] == content;
    size := signatureGenerator.Get(decrypt, signature);
    ghost var t := decrypt(BigEndian(sha(content)));
    assert size == 0 ==> signature[..size] == [];
    assert ByteCount(t) == 0 ==> Octets(t) == [];
    PadInPlace(signature, size);
    size := signature.Length;
  }

  // ----- Updater: the comparison -----

  /** A signature text is accepted iff its first 512 decoded bytes, put to the power of the
      public key, give a non-zero number equal to the digest read as a number. */
  predicate Accepts(text: string, digest: seq<byte>, encrypt: nat -> nat) {
    var sig := DecodeText(text);
    |sig| >= SIGNATURE_LENGTH &&
    var t := encrypt(BigEndian(sig[..SIGNATURE_LENGTH]));
    t != 0 && t == BigEndian(digest)
  }

  class SignatureChecker {
    const sha: seq<byte> -> seq<byte>
    const encrypt: nat -> nat
    /** The bytes that the hash has absorbed since it was last finalised. */
    var fed: seq<byte>

    constructor (sha: seq<byte> -> seq<byte>, encrypt: nat -> nat)
      ensures this.sha == sha && this.encrypt == encrypt && fed == []
    {
      this.sha := sha;
      this.encrypt := encrypt;
      fed := [];
    }

    method Init()
      modifies this
      ensures fed == []
    {
      fed := [];
    }

    method Add(data: seq<byte>)
      modifies this
      ensures fed == old(fed) + data
    {
      fed := fed + data;
    }

    /** Decodes 512 bytes, finalises the hash and compares. A text that is too short
        leaves the hash as it was. */
    method CheckSignature(text: string) returns (ok: bool)
      requires Stop(text) < |text|
      modifies this
      ensures ok <==> Accepts(text, old(sha(fed)), encrypt)
      ensures fed == if |DecodeText(text)| >= SIGNATURE_LENGTH then [] else old(fed)
    {
      var signature := new byte[SIGNATURE_LENGTH];
      var l, _ := Atob(text, signature, SIGNATURE_LENGTH);
      if l != SIGNATURE_LENGTH { return false; }
      assert signature[..] == signature[..l];
      var h := sha(fed);
      fed := [];
      ok := PowerIsDigest(encrypt(BigEndian(signature[..])), h);
    }
  }

  /** Compares the bytes of a power with a digest: a short power is padded with zeros in
      front, a power that is too wide or zero is refused. */
  method PowerIsDigest(t: nat, h: seq<byte>) returns (ok: bool)
    ensures ok <==> t != 0 && t == BigEndian(h)
  {
    var i := ByteCount(t);
    BigEndianBound(h);
    ByteCountBound(t, |h|);
    if i > |h| { return false; }
    var s := WriteOctets(t, |h|);
    var size := ByteCount(t);
    if size == 0 { return false; }
    if size < |h| {
      ghost var front := s[..size];
      BigEndianPad(|h| - size, front);
      s := Zeros(|h| - size) + s;
      assert s[..|h|] == Zeros(|h| - size) + front;
      s := s[..|h|];
    } else {
      assert s[..size] == s;
    }
    assert BigEndian(s) == t;
    ok := s == h;
    if BigEndian(s) == BigEndian(h) { BigEndianInjective(s, h); }
  }

  /** Writes `t` big-endian at the front of a zeroed buffer of `width` bytes. */
  method WriteOctets(t: nat, width: nat) returns (s: seq<byte>)
    requires ByteCount(t) <= width
    ensures |s| == width && BigEndian(s[..ByteCount(t)]) == t
  {
    s := Zeros(width);
    var i, buf := ByteCount(t), 0;
    ShiftedOut(t);
    while i > 0
      invariant i + buf == ByteCount(t) && |s| == width
      invariant BigEndian(s[..buf]) == Shift(t, i)
    {
      i := i - 1;
      ghost var front := s[..buf];
      s := s[buf := GetByte(t, i)];
      buf := buf + 1;
      assert s[..buf] == front + [GetByte(t, i)];
      assert s[..buf][..buf - 1] == front;
    }
  }

  // ----- Signing and checking -----

  /** The inverse law of the key pair on the numbers below the modulus. */
  ghost predicate KeyPair(encrypt: nat -> nat, decrypt: nat -> nat, modulus: nat) {
    && Pow256(DIGEST_LENGTH) <= modulus <= Pow256(SIGNATURE_LENGTH)
    && forall m: nat :: m < modulus ==> decrypt(m) < modulus && encrypt(decrypt(m)) == m
  }

  lemma SignatureValue(digest: seq<byte>, encrypt: nat -> nat, decrypt: nat -> nat, modulus: nat)
    requires KeyPair(encrypt, decrypt, modulus) && |digest| == DIGEST_LENGTH
    ensures |SignatureOf(digest, decrypt)| == SIGNATURE_LENGTH
    ensures BigEndian(SignatureOf(digest, decrypt)) == decrypt(BigEndian(digest))
  {
    BigEndianBound(digest);
    var t := decrypt(BigEndian(digest));
    ByteCountBound(t, SIGNATURE_LENGTH);
    OctetsValue(t);
    BigEndianPad(SIGNATURE_LENGTH - ByteCount(t), Octets(t));
  }

  /** Of a text that starts with a printed signature only that signature is compared. */
  lemma AcceptsFirst(sig: seq<byte>, tail: string, checked: seq<byte>, encrypt: nat -> nat)
    requires |sig| == 512
    ensures Accepts(Encode(sig) + tail, checked, encrypt)
            <==> encrypt(BigEndian(sig)) != 0 && encrypt(BigEndian(sig)) == BigEndian(checked)
  {
    EncodedFirst(sig, tail);
    hide Encode, DecodeText, BigEndian;
    assert DecodeText(Encode(sig) + tail)[..SIGNATURE_LENGTH] == sig;
  }

  /** A printed signature of a digest, whatever follows it in the text, is accepted for a
      digest of the same width exactly when the two are equal and not zero. */
  lemma SignedTextAccepted(signed: seq<byte>, checked: seq<byte>, tail: string,
                           encrypt: nat -> nat, decrypt: nat -> nat, modulus: nat)
    requires KeyPair(encrypt, decrypt, modulus)
    requires |signed| == |checked| == DIGEST_LENGTH
    ensures Accepts(Encode(SignatureOf(signed, decrypt)) + tail, checked, encrypt)
            <==> signed == checked && BigEndian(signed) != 0
  {
    hide Encode, Accepts, ByteCount, BigEndian, SignatureOf;
    SignatureValue(signed, encrypt, decrypt, modulus);
    AcceptsFirst(SignatureOf(signed, decrypt), tail, checked, encrypt);
    BigEndianBound(signed);
    if BigEndian(signed) == BigEndian(checked) { BigEndianInjective(signed, checked); }
  }

  lemma BigEndianOfNothing()
    ensures BigEndian([]) == 0
  {
  }

  /** The number that a padded signature denotes: that of the raw operation, or zero if the
      raw operation did not fit and reported length 0. */
  lemma PaddedValue(digest: seq<byte>, decrypt: nat -> nat)
    ensures |SignatureOf(digest, decrypt)| == SIGNATURE_LENGTH
    ensures BigEndian(SignatureOf(digest, decrypt))
         == var t := decrypt(BigEndian(digest)); if ByteCount(t) <= SIGNATURE_LENGTH then t else 0
  {
    var t := decrypt(BigEndian(digest));
    if ByteCount(t) <= SIGNATURE_LENGTH {
      OctetsValue(t);
      BigEndianPad(SIGNATURE_LENGTH - ByteCount(t), Octets(t));
    } else {
      BigEndianOfNothing();
      BigEndianPad(SIGNATURE_LENGTH, []);
      assert Zeros(SIGNATURE_LENGTH) + [] == Zeros(SIGNATURE_LENGTH);
    }
  }

  /** What `signFile` writes, a masked failure included, is accepted for a digest exactly when
      the raw operation wrote something and that digest is the number it signed. Of the key
      pair only the inverse law at this digest is needed, and that zero stays zero. */
  lemma SignatureAcceptedIff(digest: seq<byte>, checked: seq<byte>, tail: string,
                             encrypt: nat -> nat, decrypt: nat -> nat)
    requires encrypt(decrypt(BigEndian(digest))) == BigEndian(digest) && encrypt(0) == 0
    ensures Accepts(Encode(SignatureOf(digest, decrypt)) + tail, checked, encrypt)
            <==> 0 < ByteCount(decrypt(BigEndian(digest))) <= SIGNATURE_LENGTH
                 && BigEndian(digest) != 0 && BigEndian(checked) == BigEndian(digest)
  {
    PaddedValue(digest, decrypt);
    AcceptsFirst(SignatureOf(digest, decrypt), tail, checked, encrypt);
    hide Encode, Accepts, BigEndian, SignatureOf;
    assert ByteCount(decrypt(BigEndian(digest))) == 0 ==> decrypt(BigEndian(digest)) == 0;
  }
}
