/**
  The AES wrapper of BaseLib/AES/src/CryptoWrapper.cpp: electronic codebook over 16-byte blocks (section 6.1 of
  NIST SP 800-38A), the padding of section 6.3 of RFC 5652, and a four-byte marker behind the ciphertext. The
  block cipher itself is a parameter.
 */
module AesWrapper {
  import opened Bytes

  const BLOCK := 16
  const MARK: seq<Byte> := [0xF0, 0xF0, 0xF0, 0xF0]

  type Block = b: seq<Byte> | |b| == BLOCK witness seq(BLOCK, _ => 0)

  /** The two directions of the block cipher, by key. */
  datatype Cipher = Cipher(enc: (seq<Byte>, Block) -> Block, dec: (seq<Byte>, Block) -> Block)

  /** Under each key the two directions undo each other. */
  ghost predicate IsPermutation(c: Cipher) {
    && (forall k, b {:trigger c.enc(k, b)} :: c.dec(k, c.enc(k, b)) == b)
    && (forall k, b {:trigger c.dec(k, b)} :: c.enc(k, c.dec(k, b)) == b)
  }

  /** Every whole block on its own. */
  function Ecb(f: (seq<Byte>, Block) -> Block, key: seq<Byte>, s: seq<Byte>): (r: seq<Byte>)
    ensures |r| == |s| / BLOCK * BLOCK
    decreases |s|
  {
    if |s| < BLOCK then [] else f(key, s[..BLOCK]) + Ecb(f, key, s[BLOCK..])
  }

  function PadLen(n: nat): (p: nat)
    ensures 1 <= p <= BLOCK && (n + p) % BLOCK == 0
  {
    BLOCK - n % BLOCK
  }

  function Padding(n: nat): (p: seq<Byte>) {
    seq(PadLen(n), _ => PadLen(n))
  }

  function Pad(s: seq<Byte>): (r: seq<Byte>) {
    s + Padding(|s|)
  }

  function Ciphertext(c: Cipher, key: seq<Byte>, s: seq<Byte>): (r: seq<Byte>) {
    Ecb(c.enc, key, Pad(s)) + MARK
  }

  /** What `CheckEncrypted` accepts. */
  predicate IsMarked(s: seq<Byte>) {
    |s| > 4 && (|s| - 4) % BLOCK == 0 && s[|s| - 4..] == MARK
  }

  lemma {:induction false} EcbSnoc(f: (seq<Byte>, Block) -> Block, key: seq<Byte>, s: seq<Byte>, b: Block)
    requires |s| % BLOCK == 0
    ensures Ecb(f, key, s + b) == Ecb(f, key, s) + f(key, b)
    decreases |s|
  {
    if |s| < BLOCK {
      assert s + b == b && b[..BLOCK] == b && b[BLOCK..] == [];
      assert Ecb(f, key, b[BLOCK..]) == [];
    } else {
      assert (s + b)[..BLOCK] == s[..BLOCK] && (s + b)[BLOCK..] == s[BLOCK..] + b;
      EcbSnoc(f, key, s[BLOCK..], b);
    }
  }

  /** Every block goes through the cipher on its own and stays in its place. */
  lemma {:induction false} EcbAt(f: (seq<Byte>, Block) -> Block, key: seq<Byte>, s: seq<Byte>, i: nat)
    requires 16 * i + 16 <= |s|
    ensures |Ecb(f, key, s)| >= 16 * i + 16
    ensures Ecb(f, key, s)[16 * i..16 * i + 16] == f(key, s[16 * i..16 * i + 16])
    decreases |s|
  {
    if i > 0 {
      EcbAt(f, key, s[16..], i - 1);
      var r := Ecb(f, key, s[16..]);
      assert Ecb(f, key, s)[16..] == r;
      assert s[16..][16 * (i - 1)..16 * i] == s[16 * i..16 * i + 16];
      assert Ecb(f, key, s)[16 * i..16 * i + 16] == r[16 * (i - 1)..16 * i];
    }
  }

  /** Decrypting undoes encrypting, and the other way round. */
  lemma {:induction false} EcbInverse(c: Cipher, key: seq<Byte>, s: seq<Byte>)
    requires IsPermutation(c) && |s| % BLOCK == 0
    ensures Ecb(c.dec, key, Ecb(c.enc, key, s)) == s
    ensures Ecb(c.enc, key, Ecb(c.dec, key, s)) == s
    decreases |s|
  {
    if |s| >= BLOCK {
      EcbInverse(c, key, s[BLOCK..]);
      EcbCons(c.dec, key, c.enc(key, s[..BLOCK]), Ecb(c.enc, key, s[BLOCK..]));
      EcbCons(c.enc, key, c.dec(key, s[..BLOCK]), Ecb(c.dec, key, s[BLOCK..]));
      assert s == s[..BLOCK] + s[BLOCK..];
    }
  }

  lemma EcbCons(f: (seq<Byte>, Block) -> Block, key: seq<Byte>, b: Block, t: seq<Byte>)
    ensures Ecb(f, key, b + t) == f(key, b) + Ecb(f, key, t)
  {
    assert (b + t)[..BLOCK] == b && (b + t)[BLOCK..] == t;
  }

  /** The number of octets `DecryptAES` strips: it trusts the last one, whatever stands before it. */
  function Stripped(p: seq<Byte>): (s: seq<Byte>)
    requires p != [] && p[|p| - 1] <= |p|
    ensures s <= p && |s| + p[|p| - 1] as int == |p|
  {
    p[..|p| - p[|p| - 1]]
  }

  /** Encrypting and decrypting gives back the message, for every key and length. */
  lemma RoundTrip(c: Cipher, key: seq<Byte>, s: seq<Byte>)
    requires IsPermutation(c)
    ensures var e := Ciphertext(c, key, s);
            && |e| == 16 * (|s| / 16 + 1) + 4
            && IsMarked(e) && e[|e| - 4..] == [0xF0, 0xF0, 0xF0, 0xF0]
            && var p := Ecb(c.dec, key, e[..|e| - 4]);
               p == Pad(s) && ProperlyPadded(p) && s <= p && Stripped(p) == s
  {
    var e := Ciphertext(c, key, s);
    assert e[..|e| - 4] == Ecb(c.enc, key, Pad(s)) && e[|e| - 4..] == MARK;
    EcbInverse(c, key, Pad(s));
  }

  /** What RFC 5652 would accept as padding: as many equal octets as the last one says. */
  predicate ProperlyPadded(p: seq<Byte>)
    requires p != []
  {
    var n := p[|p| - 1];
    1 <= n <= 16 && n <= |p| && forall i | |p| - n <= i < |p| :: p[i] == n
  }

  /** For any marked input that is accepted, encrypting the output again gives the input back exactly when the
      padding was proper; the code does not check that. */
  lemma ReencryptIff(c: Cipher, key: seq<Byte>, e: seq<Byte>)
    requires IsPermutation(c) && IsMarked(e)
    requires var p := Ecb(c.dec, key, e[..|e| - 4]); p[|p| - 1] <= BLOCK
    ensures var p := Ecb(c.dec, key, e[..|e| - 4]);
            Ciphertext(c, key, Stripped(p)) == e <==> ProperlyPadded(p)
  {
    var body := e[..|e| - 4];
    var p := Ecb(c.dec, key, body);
    var s := Stripped(p);
    assert e == body + MARK;
    EcbInverse(c, key, body);
    EcbInverse(c, key, Pad(s));
    assert Ciphertext(c, key, s) == e <==> Ecb(c.enc, key, Pad(s)) == body by {
      assert Ciphertext(c, key, s)[..|Ciphertext(c, key, s)| - 4] == Ecb(c.enc, key, Pad(s));
    }
    PadIff(p);
  }

  /** What that lets through: whole blocks that end in 0 have no padding at all, yet encrypted and marked they are
      accepted, nothing is stripped, and the input is no encryption of the output. */
  lemma ZeroPaddingIsAccepted(c: Cipher, key: seq<Byte>, p: seq<Byte>)
    requires IsPermutation(c) && p != [] && |p| % BLOCK == 0 && p[|p| - 1] == 0
    ensures var e := Ecb(c.enc, key, p) + MARK;
            && IsMarked(e) && Ecb(c.dec, key, e[..|e| - 4]) == p
            && p[|p| - 1] <= BLOCK && Stripped(p) == p && Ciphertext(c, key, p) != e
  {
    var e := Ecb(c.enc, key, p) + MARK;
    assert e[..|e| - 4] == Ecb(c.enc, key, p) && e[|e| - 4..] == MARK;
    EcbInverse(c, key, p);
    ReencryptIff(c, key, e);
  }

  lemma PadIff(p: seq<Byte>)
    requires |p| >= BLOCK && |p| % BLOCK == 0 && p[|p| - 1] <= BLOCK
    ensures Pad(Stripped(p)) == p <==> ProperlyPadded(p)
  {
    var n, s := p[|p| - 1], Stripped(p);
    if n == 0 {
      assert s == p;
    } else {
      assert PadLen(|s|) == n;
      assert p == s + p[|s|..] && |p[|s|..]| == n;
      assert Pad(s) == p <==> Padding(|s|) == p[|s|..] by {
        assert Pad(s)[|s|..] == Padding(|s|);
      }
      assert forall i | |s| <= i < |p| :: p[i] == p[|s|..][i - |s|];
    }
  }

  method CheckEncrypted(input: array<Byte>, inputLength: nat) returns (ret: int)
    requires inputLength <= input.Length
    ensures ret == if IsMarked(input[..inputLength]) then 0 else -1
    ensures ret == 0 <==>
            && inputLength > 4 && (inputLength - 4) % 16 == 0
            && input[inputLength - 4..inputLength] == [0xF0, 0xF0, 0xF0, 0xF0]
  {
    ghost var s := input[..inputLength];
    if inputLength <= 4 || (inputLength - 4) % BLOCK != 0 {
      return -1;
    }
    var lastBuffer := input[inputLength - 4..inputLength];
    assert lastBuffer == s[|s| - 4..];
    for i := 0 to 4
      invariant forall j | 0 <= j < i :: lastBuffer[j] == 0xF0
    {
      if lastBuffer[i] != 0xF0 {
        return -1;
      }
    }
    assert lastBuffer == MARK;
    return 0;
  }

  /** One block, in place or not. */
  method CryptBlock(f: (seq<Byte>, Block) -> Block, key: seq<Byte>, b: Block, out: array<Byte>, at: nat)
    requires at + BLOCK <= out.Length
    modifies out
    ensures out[..at + BLOCK] == old(out[..at]) + f(key, b)
    ensures out[at + BLOCK..] == old(out[at + BLOCK..])
  {
    var r := f(key, b);
    Store(out, at, r);
    assert out[..at + BLOCK] == out[..at] + out[at..at + BLOCK];
  }

  /** The loop over whole blocks; `input` and `out` may be the same buffer. */
  method CryptBlocks(f: (seq<Byte>, Block) -> Block, key: seq<Byte>, input: array<Byte>, out: array<Byte>, n: nat)
    requires n * BLOCK <= input.Length && n * BLOCK <= out.Length
    modifies out
    ensures out[..n * BLOCK] == Ecb(f, key, old(input[..n * BLOCK]))
    ensures input[n * BLOCK..] == old(input[n * BLOCK..])
  {
    ghost var s := input[..];
    for i := 0 to n
      invariant out[..i * BLOCK] == Ecb(f, key, s[..i * BLOCK])
      invariant input[i * BLOCK..] == s[i * BLOCK..]
    {
      var at := i * BLOCK;
      var b: Block := input[at..at + BLOCK];
      assert b == s[at..][..BLOCK] == s[at..at + BLOCK];
      EcbSnoc(f, key, s[..at], b);
      assert s[..at] + b == s[..at + BLOCK];
      CryptBlock(f, key, b, out, at);
      assert input[at + BLOCK..] == s[at..][BLOCK..];
    }
  }

  /** The padded last block: a whole block of sixteens when nothing is left over. */
  method LastBlock(tail: seq<Byte>, inputLength: nat) returns (last: Block)
    requires |tail| == inputLength % BLOCK
    ensures last == tail + Padding(inputLength)
  {
    last := seq(BLOCK, _ => BLOCK);
    if |tail| > 0 {
      last := tail + seq(BLOCK - |tail|, _ => BLOCK - |tail|);
    }
  }

  /** `keyOk` is whether the key schedule could be set up; `was` the caller's old output length. */
  method EncryptAES(c: Cipher, keyOk: bool, password: array?<Byte>, input: array?<Byte>, inputLength: nat,
                    out: array?<Byte>, was: nat)
    returns (ret: int, outputLength: nat)
    requires password != null ==> password.Length >= 16
    requires input != null ==> inputLength <= input.Length
    requires out != null ==> out.Length >= BLOCK * (inputLength / BLOCK + 1) + 4
    modifies out
    ensures ret == if password == null || input == null || out == null || !keyOk then -1 else 0
    ensures ret == -1 ==> outputLength == was
    ensures ret == 0 ==>
              && outputLength == BLOCK * (inputLength / BLOCK + 1) + 4
              && out[..outputLength] == Ciphertext(c, old(password[..16]), old(input[..inputLength]))
  {
    if password == null || input == null || out == null || !keyOk {
      return -1, was;
    }
    var key := password[..16];
    ghost var s := input[..inputLength];
    var n, rem := inputLength / BLOCK, inputLength % BLOCK;
    var at := n * BLOCK;
    CryptBlocks(c.enc, key, input, out, n);
    var tail := input[at..][..rem];
    assert old(input[..at]) == s[..at] && tail == s[at..];
    var last := LastBlock(tail, inputLength);
    CryptBlock(c.enc, key, last, out, at);
    Store(out, at + BLOCK, MARK);
    outputLength := at + BLOCK + 4;
    EcbSnoc(c.enc, key, s[..at], last);
    assert s[..at] + last == Pad(s);
    assert out[..outputLength] == out[..at + BLOCK] + out[at + BLOCK..outputLength];
    ret := 0;
  }

  method DecryptAES(c: Cipher, keyOk: bool, password: array?<Byte>, input: array?<Byte>, inputLength: nat,
                    out: array?<Byte>, was: nat)
    returns (ret: int, outputLength: nat)
    requires password != null ==> password.Length >= 16
    requires input != null ==> inputLength <= input.Length
    requires out != null && inputLength >= 4 ==> out.Length >= inputLength - 4
    modifies out
    ensures (password == null || input == null || out == null || !old(IsMarked(input[..inputLength])) || !keyOk) ==>
              ret == -1 && outputLength == was
    ensures password != null && input != null && out != null && old(IsMarked(input[..inputLength])) && keyOk ==>
              var p := Ecb(c.dec, old(password[..16]), old(input[..inputLength - 4]));
              && out[..inputLength - 4] == p
              && ret == (if p[|p| - 1] > BLOCK then -1 else 0)
              && (ret == 0 ==> outputLength <= out.Length && out[..outputLength] == Stripped(p))
  {
    if password == null || input == null || out == null {
      return -1, was;
    }
    var key := password[..16];
    ret := CheckEncrypted(input, inputLength);
    if ret != 0 || !keyOk {
      return -1, was;
    }
    var n := (inputLength - 4) / BLOCK;
    assert n * BLOCK == inputLength - 4;
    CryptBlocks(c.dec, key, input, out, n);
    outputLength := n * BLOCK;
    var del := out[outputLength - 1];
    if del > BLOCK {
      return -1, outputLength;
    }
    outputLength := outputLength - del;
    ret := 0;
  }
}
