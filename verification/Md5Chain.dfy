/** md5e and md5d in GlobalFunc.php: a cipher that chains the md5 of a moving window of
    ciphertext and password, and the text form of its result.

    md5 is any function to 16 bytes and the random initial vector is an argument; the
    base64 step between the two layers is PHP's own and not part of this model. */
module Md5Chain {

  type Bytes = seq<bv8>

  const MARK: bv8 := 0x13
  const BLOCK := 16
  const WINDOW := 512

  // ---------------------------------------------------------------- strings as PHP has them

  function Min(a: nat, b: nat): nat { if a < b then a else b }

  /** substr($s, 0, $n) and substr($s, $n) */
  function Take(s: Bytes, n: nat): Bytes { s[..Min(n, |s|)] }

  function Skip(s: Bytes, n: nat): Bytes { s[Min(n, |s|)..] }

  /** The operator ^ on strings: the longer one is cut off. */
  function Xor(a: Bytes, b: Bytes): (r: Bytes)
    ensures |r| == Min(|a|, |b|)
  {
    seq(Min(|a|, |b|), i requires 0 <= i < Min(|a|, |b|) => a[i] ^ b[i])
  }

  lemma XorBack(a: Bytes, b: Bytes)
    requires |a| <= |b|
    ensures Xor(Xor(a, b), b) == a
  {
    forall i | 0 <= i < |a| ensures Xor(Xor(a, b), b)[i] == a[i] { BitsBack(a[i], b[i]); }
  }

  lemma BitsBack(x: bv8, y: bv8)
    ensures (x ^ y) ^ y == x
  {
  }

  /** An md5: any function to 16 bytes. */
  ghost predicate Digest(md5: Bytes -> Bytes) { forall s: Bytes :: |md5(s)| == BLOCK }

  function FirstIv(password: Bytes, iv: Bytes): Bytes { Take(Xor(password, iv), WINDOW) }

  function NextIv(block: Bytes, iv: Bytes, password: Bytes): Bytes { Xor(Take(block + iv, WINDOW), password) }

  // ---------------------------------------------------------------- the chain

  function Chain(plain: Bytes, iv: Bytes, password: Bytes, md5: Bytes -> Bytes): Bytes
    decreases |plain|
  {
    if plain == [] then []
    else
      var block := Xor(Take(plain, BLOCK), md5(iv));
      block + Chain(Skip(plain, BLOCK), NextIv(block, iv, password), password, md5)
  }

  function Unchain(enc: Bytes, iv: Bytes, password: Bytes, md5: Bytes -> Bytes): Bytes
    decreases |enc|
  {
    if enc == [] then []
    else
      var block := Take(enc, BLOCK);
      Xor(block, md5(iv)) + Unchain(Skip(enc, BLOCK), NextIv(block, iv, password), password, md5)
  }

  lemma ChainStep(plain: Bytes, iv: Bytes, password: Bytes, md5: Bytes -> Bytes)
    requires plain != []
    ensures var block := Xor(Take(plain, BLOCK), md5(iv));
            Chain(plain, iv, password, md5) ==
              block + Chain(Skip(plain, BLOCK), NextIv(block, iv, password), password, md5)
  {
  }

  lemma UnchainStep(enc: Bytes, iv: Bytes, password: Bytes, md5: Bytes -> Bytes)
    requires enc != []
    ensures var block := Take(enc, BLOCK);
            Unchain(enc, iv, password, md5)
            == Xor(block, md5(iv)) + Unchain(Skip(enc, BLOCK), NextIv(block, iv, password), password, md5)
  {
  }

  lemma ChainNone(iv: Bytes, password: Bytes, md5: Bytes -> Bytes)
    ensures Chain([], iv, password, md5) == [] && Unchain([], iv, password, md5) == []
  {
  }

  lemma Regroup(a: Bytes, b: Bytes, c: Bytes)
    ensures a + (b + c) == (a + b) + c
  {
  }

  lemma {:induction false} UnchainChain(plain: Bytes, iv: Bytes, password: Bytes, md5: Bytes -> Bytes)
    requires Digest(md5) && |plain| % BLOCK == 0
    ensures Unchain(Chain(plain, iv, password, md5), iv, password, md5) == plain
    ensures |Chain(plain, iv, password, md5)| == |plain|
    decreases |plain|
  {
    if plain != [] {
      var p, rest := Take(plain, BLOCK), Skip(plain, BLOCK);
      var block := Xor(p, md5(iv));
      var next := NextIv(block, iv, password);
      UnchainChain(rest, next, password, md5);
      XorBack(p, md5(iv));
      var enc := block + Chain(rest, next, password, md5);
      assert Take(enc, BLOCK) == block && Skip(enc, BLOCK) == Chain(rest, next, password, md5);
      assert p + rest == plain;
    }
  }

  // ---------------------------------------------------------------- block by block

  /** The initial vector masks the password. */
  lemma FirstIvBytes(password: Bytes, iv: Bytes)
    ensures |FirstIv(password, iv)| == Min(Min(|password|, |iv|), WINDOW)
    ensures forall k :: 0 <= k < |FirstIv(password, iv)| ==> FirstIv(password, iv)[k] == password[k] ^ iv[k]
  {
  }

  /** Each new vector begins with the last cipher block, in front of the old vector, all of
      it masked with the password. */
  lemma NextIvBytes(block: Bytes, iv: Bytes, password: Bytes)
    ensures |NextIv(block, iv, password)| == Min(Min(|block| + |iv|, WINDOW), |password|)
    ensures forall k :: 0 <= k < |NextIv(block, iv, password)| ==>
              NextIv(block, iv, password)[k] == password[k] ^ if k < |block| then block[k] else iv[k - |block|]
  {
    forall k | 0 <= k < |NextIv(block, iv, password)|
      ensures NextIv(block, iv, password)[k] == password[k] ^ if k < |block| then block[k] else iv[k - |block|]
    {
      XorSwaps((block + iv)[k], password[k]);
    }
  }

  lemma XorSwaps(x: bv8, y: bv8)
    ensures x ^ y == y ^ x
  {
  }

  /** The vector before block j, from the cipher blocks before it. */
  function Iv(iv: Bytes, enc: Bytes, password: Bytes, j: nat): Bytes
    requires BLOCK * j <= |enc|
  {
    if j == 0 then iv
    else NextIv(enc[BLOCK * (j - 1)..BLOCK * j], Iv(iv, enc, password, j - 1), password)
  }

  /** The password bytes that a byte of a cipher block meets on its way to place k. */
  function Mask(password: Bytes, k: nat): bv8
    requires k < |password|
  {
    if k < BLOCK then password[k] else password[k] ^ Mask(password, k - BLOCK)
  }

  /** Byte r of group q of the vector before block j is byte r of the block q + 1 blocks back,
      under a mask of password bytes. */
  lemma {:induction false} IvReaches(iv: Bytes, enc: Bytes, password: Bytes, j: nat, q: nat, r: nat)
    requires BLOCK * j <= |enc| && q < j && r < BLOCK && BLOCK * q + r < |Iv(iv, enc, password, j)|
    ensures BLOCK * q + r < |password| && BLOCK * q + r < WINDOW
    ensures Iv(iv, enc, password, j)[BLOCK * q + r] == Mask(password, BLOCK * q + r) ^ enc[BLOCK * (j - 1 - q) + r]
  {
    hide NextIv;
    var block, before := enc[BLOCK * (j - 1)..BLOCK * j], Iv(iv, enc, password, j - 1);
    NextIvBytes(block, before, password);
    if q > 0 {
      var k := BLOCK * (q - 1) + r;
      IvReaches(iv, enc, password, j - 1, q - 1, r);
      XorGroups(password[BLOCK + k], Mask(password, k), enc[BLOCK * (j - 1 - q) + r]);
    }
  }

  lemma XorGroups(x: bv8, y: bv8, z: bv8)
    ensures x ^ (y ^ z) == (x ^ y) ^ z
  {
  }

  /** Block j of the cipher is block j of the text under the md5 of its vector. */
  lemma {:induction false} CipherBlock(plain: Bytes, iv: Bytes, password: Bytes, md5: Bytes -> Bytes, j: nat)
    requires Digest(md5) && |plain| % BLOCK == 0 && BLOCK * (j + 1) <= |plain|
    ensures var enc := Chain(plain, iv, password, md5);
            && |enc| == |plain|
            && enc[BLOCK * j..BLOCK * (j + 1)]
               == Xor(plain[BLOCK * j..BLOCK * (j + 1)], md5(Iv(iv, enc, password, j)))
    decreases |plain|
  {
    hide NextIv, Xor;
    UnchainChain(plain, iv, password, md5);
    var block := Xor(Take(plain, BLOCK), md5(iv));
    var rest, next := Skip(plain, BLOCK), NextIv(block, iv, password);
    var enc, more := Chain(plain, iv, password, md5), Chain(rest, next, password, md5);
    assert enc == block + more && |block| == BLOCK;
    assert enc[..BLOCK] == block;
    if j > 0 {
      CipherBlock(rest, next, password, md5, j - 1);
      assert enc[BLOCK * j..BLOCK * (j + 1)] == more[BLOCK * (j - 1)..BLOCK * j];
      assert plain[BLOCK * j..BLOCK * (j + 1)] == rest[BLOCK * (j - 1)..BLOCK * j];
      IvShift(iv, enc, password, j);
      assert enc[BLOCK..] == more;
    }
  }

  /** The vectors behind the first block are those of the rest. */
  lemma {:induction false} IvShift(iv: Bytes, enc: Bytes, password: Bytes, j: nat)
    requires 0 < j && BLOCK * j <= |enc|
    ensures Iv(iv, enc, password, j) == Iv(NextIv(enc[..BLOCK], iv, password), enc[BLOCK..], password, j - 1)
  {
    hide NextIv;
    if j > 1 {
      IvShift(iv, enc, password, j - 1);
      Behind(enc, BLOCK, BLOCK * (j - 1), BLOCK * j);
    } else {
      assert enc[0..BLOCK] == enc[..BLOCK];
    }
  }

  lemma Behind(s: Bytes, skip: nat, lo: nat, hi: nat)
    requires skip <= lo <= hi <= |s|
    ensures s[lo..hi] == s[skip..][lo - skip..hi - skip]
  {
  }

  // ---------------------------------------------------------------- padding

  function Zeros(n: nat): (z: Bytes)
    ensures |z| == n && forall i :: 0 <= i < n ==> z[i] == 0
  {
    seq(n, i => 0)
  }

  function Pad(plain: Bytes): (p: Bytes)
    ensures |p| % BLOCK == 0
  {
    var t := plain + [MARK];
    if |t| % BLOCK != 0 then t + Zeros(BLOCK - |t| % BLOCK) else t
  }

  /** s without a mark behind which only zeros follow. */
  function Strip(s: Bytes): Bytes
  {
    if s == [] then s
    else if s[|s| - 1] == MARK then s[..|s| - 1]
    else if s[|s| - 1] == 0 then
      var t := Strip(s[..|s| - 1]);
      if t == s[..|s| - 1] then s else t
    else s
  }

  /** preg_replace('/\\x13\\x00*$/', '', $s), whose $ also matches before a last newline. */
  function Unpad(s: Bytes): Bytes
  {
    if s != [] && s[|s| - 1] == 0x0a then Strip(s[..|s| - 1]) + [0x0a] else Strip(s)
  }

  lemma UnpadZeros(plain: Bytes, n: nat)
    ensures Unpad(plain + [MARK] + Zeros(n)) == plain
  {
    StripZeros(plain, n);
    var s := plain + [MARK] + Zeros(n);
    assert s[|s| - 1] == if n == 0 then MARK else 0;
  }

  lemma {:induction false} StripZeros(plain: Bytes, n: nat)
    ensures Strip(plain + [MARK] + Zeros(n)) == plain
  {
    var s := plain + [MARK] + Zeros(n);
    if n == 0 {
      assert s == plain + [MARK] && s[..|s| - 1] == plain;
    } else {
      StripZeros(plain, n - 1);
      assert s[..|s| - 1] == plain + [MARK] + Zeros(n - 1);
    }
  }

  // ---------------------------------------------------------------- the code

  lemma SkipNone(s: Bytes)
    ensures Skip(s, 0) == s
  {
  }

  lemma SkipMore(s: Bytes, i: nat)
    ensures Skip(Skip(s, i), BLOCK) == Skip(s, i + BLOCK)
    ensures i < |s| ==> Skip(s, i) != []
  {
  }

  lemma SkipAll(s: Bytes, i: nat)
    ensures |s| <= i ==> Skip(s, i) == []
  {
  }

  lemma Padded(plainText: Bytes)
    ensures var t := plainText + [MARK];
            && |Pad(plainText)| % BLOCK == 0
            && Pad(plainText) == if |t| % BLOCK != 0 then t + Zeros(BLOCK - |t| % BLOCK) else t
  {
  }

  /** A whole number of blocks that covers n bytes covers the padding as well. */
  lemma WholeBlocks(n: nat, i: nat)
    requires n <= i && i % BLOCK == 0
    ensures n % BLOCK != 0 ==> n + BLOCK - n % BLOCK <= i
  {
  }

  /** md5e without base64. */
  method Encrypt(plainText: Bytes, password: Bytes, rndIv: Bytes, md5: Bytes -> Bytes) returns (encText: Bytes)
    ensures encText == rndIv + Chain(Pad(plainText), FirstIv(password, rndIv), password, md5)
  {
    hide Chain, Xor, Take, Pad, Skip, Zeros;
    var plain := plainText + [MARK];
    var n := |plain|;
    if n % BLOCK != 0 {
      plain := plain + Zeros(BLOCK - n % BLOCK);
    }
    Padded(plainText);
    var i := 0;
    encText := rndIv;
    var iv := Take(Xor(password, encText), WINDOW);
    ghost var iv0 := iv;
    SkipNone(plain);
    while i < n
      invariant i % BLOCK == 0
      invariant encText + Chain(Skip(plain, i), iv, password, md5) == rndIv + Chain(plain, iv0, password, md5)
      decreases n - i
    {
      var block := Xor(Take(Skip(plain, i), BLOCK), md5(iv));
      SkipMore(plain, i);
      ChainStep(Skip(plain, i), iv, password, md5);
      Regroup(encText, block, Chain(Skip(plain, i + BLOCK), NextIv(block, iv, password), password, md5));
      encText := encText + block;
      iv := Xor(Take(block + iv, WINDOW), password);
      i := i + BLOCK;
    }
    WholeBlocks(n, i);
    SkipAll(plain, i);
    ChainNone(iv, password, md5);
    assert encText + [] == encText;
  }

  /** md5d without base64. */
  method Decrypt(encText: Bytes, password: Bytes, ivLen: nat, md5: Bytes -> Bytes) returns (plainText: Bytes)
    ensures plainText == Unpad(Unchain(Skip(encText, ivLen), FirstIv(password, Take(encText, ivLen)), password, md5))
  {
    hide Unchain, Xor, Take, Unpad, Skip;
    var n := |encText|;
    var i := ivLen;
    plainText := [];
    var iv := Take(Xor(password, Take(encText, ivLen)), WINDOW);
    ghost var iv0 := iv;
    while i < n
      invariant ivLen <= i
      invariant plainText + Unchain(Skip(encText, i), iv, password, md5)
                == Unchain(Skip(encText, ivLen), iv0, password, md5)
    {
      var block := Take(Skip(encText, i), BLOCK);
      SkipMore(encText, i);
      UnchainStep(Skip(encText, i), iv, password, md5);
      Regroup(plainText, Xor(block, md5(iv)),
              Unchain(Skip(encText, i + BLOCK), NextIv(block, iv, password), password, md5));
      plainText := plainText + Xor(block, md5(iv));
      iv := Xor(Take(block + iv, WINDOW), password);
      i := i + BLOCK;
    }
    SkipAll(encText, i);
    ChainNone(iv, password, md5);
    assert plainText + [] == plainText;
    plainText := Unpad(plainText);
  }

  /** Decryption inverts encryption, for every text, password and initial vector. */
  lemma DecryptsEncrypted(plainText: Bytes, password: Bytes, rndIv: Bytes, md5: Bytes -> Bytes)
    requires Digest(md5)
    ensures var enc := rndIv + Chain(Pad(plainText), FirstIv(password, rndIv), password, md5);
            Unpad(Unchain(Skip(enc, |rndIv|), FirstIv(password, Take(enc, |rndIv|)), password, md5)) == plainText
  {
    hide Chain, Unchain, Xor, Pad, Unpad, Digest;
    var c := Chain(Pad(plainText), FirstIv(password, rndIv), password, md5);
    Padded(plainText);
    assert Take(rndIv + c, |rndIv|) == rndIv && Skip(rndIv + c, |rndIv|) == c;
    UnchainChain(Pad(plainText), FirstIv(password, rndIv), password, md5);
    var n := |plainText + [MARK]| % BLOCK;
    UnpadZeros(plainText, if n != 0 then BLOCK - n else 0);
    assert plainText + [MARK] + Zeros(0) == plainText + [MARK];
  }

  // ---------------------------------------------------------------- the text layer

  const KEY := "Anjuke"

  predicate Letter(c: char, lower: char, upper: char) { c == lower || c == upper }

  /** eregi: the key at place i, whatever the case. */
  predicate KeyAt(s: string, i: nat)
  {
    && i + 6 <= |s| && Letter(s[i], 'a', 'A') && Letter(s[i + 1], 'n', 'N') && Letter(s[i + 2], 'j', 'J')
    && Letter(s[i + 3], 'u', 'U') && Letter(s[i + 4], 'k', 'K') && Letter(s[i + 5], 'e', 'E')
  }

  predicate HasKey(s: string) { exists i :: 0 <= i < |s| && KeyAt(s, i) }

  /** eregi_replace("/", KEY, $s) */
  function Slashed(s: string): string
  {
    if s == [] then [] else (if s[0] == '/' then KEY else [s[0]]) + Slashed(s[1..])
  }

  /** eregi_replace(KEY, "/", $s), which replaces from the left. */
  function Unslashed(s: string): string
    decreases |s|
  {
    if s == [] then []
    else if KeyAt(s, 0) then "/" + Unslashed(s[6..])
    else [s[0]] + Unslashed(s[1..])
  }

  lemma {:induction false} SlashedSplit(s: string, n: nat)
    requires n <= |s| && forall j :: 0 <= j < n ==> s[j] != '/'
    ensures Slashed(s) == s[..n] + Slashed(s[n..])
  {
    if n > 0 {
      var t := s[1..];
      SlashedSplit(t, n - 1);
      assert t[n - 1..] == s[n..] && [s[0]] + t[..n - 1] == s[..n];
    }
  }

  /** In a slashed text a slash of the original shows as an A. */
  lemma {:induction false} FirstSlash(s: string, n: nat)
    requires n < |s| && s[n] == '/' && forall j :: 0 <= j < n ==> s[j] != '/'
    ensures n + 6 <= |Slashed(s)| && Slashed(s)[n] == 'A'
  {
    SlashedSplit(s, n);
    var t := s[n..];
    assert Slashed(t) == KEY + Slashed(t[1..]);
  }

  /** The key at the front of a slashed text was there before, or all of it stands for a
      slash: it overlaps no shifted copy of itself. */
  lemma KeyFront(s: string)
    requires s != [] && s[0] != '/'
    ensures KeyAt(Slashed(s), 0) <==> KeyAt(s, 0)
  {
    hide Slashed;
    var n := Run(s);
    SlashedSplit(s, n);
    if n < 6 && n < |s| {
      FirstSlash(s, n);
    } else if n < 6 {
      assert s[n..] == [] && s[..n] == s;
      SlashedNone();
    }
  }

  lemma SlashedNone()
    ensures Slashed([]) == []
  {
  }

  /** The number of characters before the first slash, or 6 if there are more. */
  function Run(s: string): (n: nat)
    ensures n <= |s| && n <= 6 && (forall j :: 0 <= j < n ==> s[j] != '/') && (n < 6 && n < |s| ==> s[n] == '/')
    ensures s != [] && s[0] != '/' ==> n > 0
  {
    RunFrom(s, 0)
  }

  function RunFrom(s: string, i: nat): (n: nat)
    requires i <= |s| && i <= 6 && forall j :: 0 <= j < i ==> s[j] != '/'
    ensures i <= n <= |s| && n <= 6 && (forall j :: 0 <= j < n ==> s[j] != '/') && (n < 6 && n < |s| ==> s[n] == '/')
    ensures i < 6 && i < |s| && s[i] != '/' ==> n > i
    decreases |s| - i
  {
    if i == 6 || i == |s| || s[i] == '/' then i else RunFrom(s, i + 1)
  }

  lemma TailKey(s: string)
    requires s != [] && !KeyAt(s, 0)
    ensures HasKey(s) <==> HasKey(s[1..])
  {
    var t := s[1..];
    if i :| 0 <= i < |s| && KeyAt(s, i) {
      assert KeyAt(t, i - 1);
    }
    if i :| 0 <= i < |t| && KeyAt(t, i) {
      assert KeyAt(s, i + 1);
    }
  }

  lemma NoKeyAtSlash(s: string)
    requires s != [] && s[0] == '/'
    ensures !KeyAt(s, 0)
  {
  }

  /** A text that begins with the key has no slash there. */
  lemma KeyWhole(s: string)
    requires KeyAt(s, 0)
    ensures 6 <= |s| && HasKey(s) && Slashed(s) == s[..6] + Slashed(s[6..])
  {
    hide Slashed, HasKey;
    SlashedSplit(s, 6);
    KeyThere(s);
  }

  lemma KeyThere(s: string)
    requires KeyAt(s, 0)
    ensures HasKey(s)
  {
  }

  /** Undoing the replacement gives the text back exactly when the text did not contain
      the key itself. */
  lemma {:induction false} TextLayer(s: string)
    ensures Unslashed(Slashed(s)) == s <==> !HasKey(s)
    ensures |Unslashed(Slashed(s))| <= |s|
    decreases |s|
  {
    if s == [] {
    } else if s[0] == '/' {
      var u := Slashed(s[1..]);
      assert Slashed(s) == KEY + u && (KEY + u)[6..] == u;
      assert KeyAt(KEY + u, 0);
      TextLayer(s[1..]);
      NoKeyAtSlash(s);
      TailKey(s);
      assert s == [s[0]] + s[1..];
    } else if KeyAt(s, 0) {
      KeyFront(s);
      KeyWhole(s);
      assert Slashed(s)[6..] == Slashed(s[6..]);
      TextLayer(s[6..]);
    } else {
      KeyFront(s);
      assert Slashed(s)[1..] == Slashed(s[1..]);
      TextLayer(s[1..]);
      TailKey(s);
      assert s == [s[0]] + s[1..];
    }
  }

  /** Both layers, with any text form that can be read back: every text is restored whose
      encoded cipher does not contain the key. */
  lemma DecryptsText(plainText: Bytes, password: Bytes, rndIv: Bytes, md5: Bytes -> Bytes,
                     encode: Bytes -> string, decode: string -> Bytes)
    requires Digest(md5) && forall x: Bytes :: decode(encode(x)) == x
    ensures var text := encode(rndIv + Chain(Pad(plainText), FirstIv(password, rndIv), password, md5));
            var enc := decode(Unslashed(Slashed(text)));
            !HasKey(text) ==>
              Unpad(Unchain(Skip(enc, |rndIv|), FirstIv(password, Take(enc, |rndIv|)), password, md5)) == plainText
  {
    hide *;
    TextLayer(encode(rndIv + Chain(Pad(plainText), FirstIv(password, rndIv), password, md5)));
    DecryptsEncrypted(plainText, password, rndIv, md5);
  }
}
