/** Electronic codebook mode, one-shot and streaming, over an uninterpreted block permutation. */
module Ecb {
  import opened Wrappers
  import opened Bytes
  import opened Arithmetic
  import opened Sequences

  type Block = seq<byte>
  type Permutation = Block -> Block

  datatype Error = WrongBlockLength | BadDecrypt

  /** The permutation of a key works on blocks of bs bytes. */
  ghost predicate Permutes(perm: Permutation, bs: nat) {
    forall b: Block :: |b| == bs ==> |perm(b)| == bs
  }

  // ---- the one-shot form -----------------------------------------------------------------------------------

  /** Every whole block, permuted. */
  function Blocks(perm: Permutation, bs: nat, data: seq<byte>): seq<byte>
    requires bs > 0
    decreases |data|
  {
    if |data| < bs then [] else perm(data[..bs]) + Blocks(perm, bs, data[bs..])
  }

  function Fill(b: byte, n: nat): (r: seq<byte>)
    ensures |r| == n && forall i | 0 <= i < n :: r[i] == b
  {
    if n == 0 then [] else [b] + Fill(b, n - 1)
  }

  /** The padding of section 6.3 of RFC 5652: n bytes of value n, at least one. */
  function Padding(bs: nat, n: nat): seq<byte>
    requires 0 < bs < 256
  {
    Fill(bs - n % bs, bs - n % bs)
  }

  /** The last n bytes are all n. */
  predicate Padded(out: seq<byte>, n: byte) {
    n <= |out| && forall i | |out| - n <= i < |out| :: out[i] == n
  }

  /** Takes that padding off again, when it is there. */
  function Unpad(bs: nat, out: seq<byte>): Result<seq<byte>, Error>
    requires out != []
  {
    var pad := out[|out| - 1];
    if pad == 0 || pad > bs || !Padded(out, pad) then Err(BadDecrypt)
    else Ok(out[..|out| - pad])
  }

  function OneShot(perm: Permutation, bs: nat, encrypt: bool, padding: bool, data: seq<byte>): Result<seq<byte>, Error>
    requires 0 < bs < 256
  {
    if encrypt then
      if !padding && |data| % bs != 0 then Err(WrongBlockLength)
      else Ok(Blocks(perm, bs, data + if padding then Padding(bs, |data|) else []))
    else if |data| % bs != 0 then Err(WrongBlockLength)
    else
      var out := Blocks(perm, bs, data);
      if padding && out != [] then Unpad(bs, out) else Ok(out)
  }

  // ---- lemmas on blocks ------------------------------------------------------------------------------------

  /** A number of whole blocks. */
  predicate Whole(n: nat, bs: nat)
    requires bs > 0
  {
    n == 0 || (n >= bs && Whole(n - bs, bs))
  }

  lemma {:induction false} WholeIff(n: nat, bs: nat)
    requires bs > 0
    ensures Whole(n, bs) <==> n % bs == 0
  {
    if n >= bs {
      WholeIff(n - bs, bs);
      ModStep(n, bs);
    } else {
      DivisionIs(n, bs, 0, n);
    }
  }

  lemma {:induction false} WholeSum(a: nat, b: nat, bs: nat)
    requires bs > 0 && Whole(a, bs)
    ensures Whole(a + b, bs) <==> Whole(b, bs)
    decreases a
  {
    if a > 0 { WholeSum(a - bs, b, bs); }
  }

  lemma ModStep(n: nat, bs: nat)
    requires bs > 0 && n >= bs
    ensures (n - bs) % bs == n % bs
  {
    var q, r := n / bs, n % bs;
    assert n - bs == bs * (q - 1) + r;
    DivisionIs(n - bs, bs, q - 1, r);
  }

  lemma {:induction false} BlocksConcat(perm: Permutation, bs: nat, a: seq<byte>, b: seq<byte>)
    requires bs > 0 && Whole(|a|, bs)
    ensures Blocks(perm, bs, a + b) == Blocks(perm, bs, a) + Blocks(perm, bs, b)
    decreases |a|
  {
    if |a| < bs {
      assert a + b == b;
    } else {
      assert (a + b)[..bs] == a[..bs] && (a + b)[bs..] == a[bs..] + b;
      BlocksConcat(perm, bs, a[bs..], b);
      Regroup(perm(a[..bs]), Blocks(perm, bs, a[bs..]), Blocks(perm, bs, b));
    }
  }

  lemma OneBlock(perm: Permutation, bs: nat, b: Block)
    requires bs > 0 && |b| == bs
    ensures Blocks(perm, bs, b) == perm(b)
  {
    assert b[..bs] == b && b[bs..] == [];
    assert perm(b) + [] == perm(b);
  }

  lemma {:induction false} BlocksLength(perm: Permutation, bs: nat, data: seq<byte>)
    requires bs > 0 && Permutes(perm, bs) && Whole(|data|, bs)
    ensures |Blocks(perm, bs, data)| == |data|
    decreases |data|
  {
    if |data| >= bs {
      assert |data[..bs]| == bs;
      BlocksLength(perm, bs, data[bs..]);
    }
  }

  lemma PaddedLength(bs: nat, n: nat)
    requires 0 < bs < 256
    ensures (n + |Padding(bs, n)|) % bs == 0 && 0 < |Padding(bs, n)| <= bs
  {
    var q, r := n / bs, n % bs;
    assert n + (bs - r) == bs * (q + 1);
    DivisionIs(n + (bs - r), bs, q + 1, 0);
  }

  lemma PaddedLast(front: seq<byte>, last: seq<byte>, n: byte)
    requires n <= |last|
    ensures Padded(front + last, n) <==> Padded(last, n)
  {
    var out := front + last;
    if Padded(out, n) {
      forall i | |last| - n <= i < |last| ensures last[i] == n {
        assert out[|front| + i] == last[i];
      }
    }
  }

  /** Only the last block matters to the padding. */
  lemma UnpadLast(bs: nat, front: seq<byte>, last: Block)
    requires 0 < bs < 256 && |last| == bs
    ensures Unpad(bs, front + last) ==
      match Unpad(bs, last) case Ok(v) => Ok(front + v) case Err(e) => Err(e)
  {
    var out := front + last;
    var pad := last[bs - 1];
    assert out[|out| - 1] == pad;
    if 0 < pad <= bs {
      PaddedLast(front, last, pad);
      assert out[..|out| - pad] == front + last[..bs - pad];
    }
  }

  // ---- the one-shot program --------------------------------------------------------------------------------

  method FillFrom(data: seq<byte>, total: nat, value: byte) returns (padded: array<byte>)
    requires |data| <= total
    ensures fresh(padded) && padded.Length == total && padded[..] == data + Fill(value, total - |data|)
  {
    padded := new byte[total](_ => 0);
    for i := 0 to |data|
      invariant padded[..i] == data[..i]
    {
      padded[i] := data[i];
    }
    for i := |data| to total
      invariant padded[..|data|] == data && forall k | |data| <= k < i :: padded[k] == value
    {
      padded[i] := value;
    }
    assert padded[..] == padded[..|data|] + padded[|data|..];
    assert padded[|data|..] == Fill(value, total - |data|);
  }

  /** Block after block, from a source buffer into an output. */
  method CryptBlocks(perm: Permutation, bs: nat, src: seq<byte>) returns (out: seq<byte>)
    requires bs > 0 && Whole(|src|, bs) && Permutes(perm, bs)
    ensures out == Blocks(perm, bs, src) && |out| == |src|
  {
    hide Blocks, Permutes;
    out := [];
    var b := 0;
    NoBlocks(perm, bs);
    assert src[..0] == [];
    while b + bs <= |src|
      invariant 0 <= b <= |src| && Whole(b, bs) && Whole(|src| - b, bs)
      invariant out == Blocks(perm, bs, src[..b])
    {
      var one := src[b..b + bs];
      BlocksConcat(perm, bs, src[..b], one);
      OneBlock(perm, bs, one);
      assert src[..b] + one == src[..b + bs];
      WholeSum(b, bs, bs);
      out := out + perm(one);
      b := b + bs;
    }
    assert src[..b] == src;
    BlocksLength(perm, bs, src);
  }

  lemma NoBlocks(perm: Permutation, bs: nat)
    requires bs > 0
    ensures Blocks(perm, bs, []) == []
  {
  }

  /** graak_native.c's single call. */
  method Crypt(perm: Permutation, bs: nat, encrypt: bool, padding: bool, data: seq<byte>)
    returns (r: Result<seq<byte>, Error>)
    requires 0 < bs < 256 && Permutes(perm, bs)
    ensures r == OneShot(perm, bs, encrypt, padding, data)
  {
    hide Blocks;
    WholeIff(|data|, bs);
    var src := data;
    if encrypt {
      if !padding && |data| % bs != 0 {
        return Err(WrongBlockLength);
      }
      var pad := if padding then bs - |data| % bs else 0;
      var padded := FillFrom(data, |data| + pad, pad);
      src := padded[..];
      if padding { PaddedLength(bs, |data|); }
      WholeIff(|src|, bs);
    } else if |data| % bs != 0 {
      return Err(WrongBlockLength);
    }
    var out := CryptBlocks(perm, bs, src);
    if !encrypt && padding && |out| > 0 {
      r := StripPadding(bs, out);
    } else {
      r := Ok(out);
      if encrypt && !padding { assert data + [] == data; }
    }
  }

  method StripPadding(bs: nat, out: seq<byte>) returns (r: Result<seq<byte>, Error>)
    requires 0 < bs < 256 && out != []
    ensures r == Unpad(bs, out)
  {
    var pad := out[|out| - 1];
    if pad == 0 || pad > bs || pad > |out| {
      return Err(BadDecrypt);
    }
    for k := 0 to pad
      invariant forall i | |out| - k <= i < |out| :: out[i] == pad
    {
      if out[|out| - 1 - k] != pad {
        return Err(BadDecrypt);
      }
    }
    r := Ok(out[..|out| - pad]);
  }

  // ---- the streaming program -------------------------------------------------------------------------------

  /** A cipher table entry in ECB mode. */
  class Stream {
    const perm: Permutation
    const bs: nat
    const encrypt: bool
    const padding: bool
    var hold: array<byte>
    var holdLen: nat
    /** Everything put in, and everything that came out. */
    ghost var fed: seq<byte>
    ghost var produced: seq<byte>

    predicate KeepsLast() { !encrypt && padding }

    ghost predicate Shape()
      reads this
    {
      0 < bs < 256 && Permutes(perm, bs) && hold.Length == bs && holdLen <= bs && holdLen <= |fed|
    }

    /** The hold buffer has what came in after the last block that went out. */
    ghost predicate Holds()
      requires Shape()
      reads this, hold
    {
      && Whole(|fed| - holdLen, bs)
      && hold[..holdLen] == fed[|fed| - holdLen..]
      && produced == Blocks(perm, bs, fed[..|fed| - holdLen])
    }

    ghost predicate Core()
      reads this, hold
    {
      Shape() && Holds()
    }

    /** A decrypting cipher with padding holds its last block back; any other holds only a part of one. */
    ghost predicate Valid()
      reads this, hold
    {
      && Core()
      && (!KeepsLast() ==> holdLen < bs)
      && (KeepsLast() && fed != [] ==> holdLen > 0)
    }

    constructor (perm: Permutation, bs: nat, encrypt: bool, padding: bool)
      requires 0 < bs < 256 && Permutes(perm, bs)
      ensures Valid() && fresh(hold) && fed == [] && produced == []
      ensures this.perm == perm && this.bs == bs && this.encrypt == encrypt && this.padding == padding
    {
      this.perm, this.bs, this.encrypt, this.padding := perm, bs, encrypt, padding;
      hold := new byte[bs](_ => 0);
      holdLen, fed, produced := 0, [], [];
    }

    /** The full hold buffer through the permutation. */
    method Flush() returns (out: seq<byte>)
      requires Core() && holdLen == bs
      modifies `holdLen, `produced
      ensures Core() && holdLen == 0 && fed == old(fed) && produced == old(produced) + out && hold == old(hold)
    {
      ghost var done, last := fed[..|fed| - bs], fed[|fed| - bs..];
      BlocksConcat(perm, bs, done, last);
      OneBlock(perm, bs, last);
      assert done + last == fed == fed[..|fed|];
      assert hold[..] == hold[..bs] == last;
      WholeSum(|fed| - bs, bs, bs);
      assert hold[..0] == [] && fed[|fed|..] == [];
      out := perm(hold[..]);
      holdLen := 0;
      produced := produced + out;
    }

    /** Copies input behind what is held. */
    method Keep(data: seq<byte>)
      requires Core() && holdLen + |data| <= bs
      modifies hold, `holdLen, `fed
      ensures Core() && holdLen == old(holdLen) + |data| && fed == old(fed) + data && hold == old(hold)
    {
      hide Blocks, Permutes;
      ghost var was := hold[..holdLen];
      for k := 0 to |data|
        invariant hold == old(hold) && holdLen == old(holdLen) && hold.Length == bs
        invariant hold[..holdLen + k] == was + data[..k]
        modifies hold
      {
        hold[holdLen + k] := data[k];
        assert data[..k + 1] == data[..k] + [data[k]];
      }
      assert data[..|data|] == data;
      ghost var n := |fed| - holdLen;
      holdLen := holdLen + |data|;
      assert (fed + data)[..n] == fed[..n] && (fed + data)[n..] == fed[n..] + data;
      fed := fed + data;
    }

    /** cipherUpdate: the output available so far. */
    method Update(data: seq<byte>) returns (out: seq<byte>)
      requires Valid()
      modifies this, hold
      ensures Valid() && hold == old(hold) && fed == old(fed) + data && produced == old(produced) + out
    {
      hide Blocks, Permutes, Holds;
      out := [];
      if holdLen == bs && |data| > 0 {
        // more input has come, so the full block in hand can go out
        out := Flush();
      }
      var off := 0;
      while off < |data|
        invariant 0 <= off <= |data| && hold == old(hold) && Core()
        invariant fed == old(fed) + data[..off] && produced == old(produced) + out
        invariant holdLen < bs || (KeepsLast() && off == |data|)
        invariant KeepsLast() && off == |data| && off > 0 ==> holdLen > 0
        invariant data == [] ==> holdLen == old(holdLen)
        decreases |data| - off
      {
        var take := bs - holdLen;
        if take > |data| - off { take := |data| - off; }
        Keep(data[off..off + take]);
        assert data[..off] + data[off..off + take] == data[..off + take];
        off := off + take;
        if holdLen == bs {
          if KeepsLast() && off == |data| { break; }
          var more := Flush();
          out := out + more;
        }
      }
      assert data[..|data|] == data;
    }

    /** What all output together is meant to be: the one-shot result, but for decrypting nothing with padding. */
    ghost function Meant(): Result<seq<byte>, Error>
      requires 0 < bs < 256
      reads this
    {
      if KeepsLast() && fed == [] then Err(BadDecrypt) else OneShot(perm, bs, encrypt, padding, fed)
    }

    /** cipherFinal: the last output, which completes the one-shot result. */
    method Final() returns (r: Result<seq<byte>, Error>)
      requires Valid()
      modifies `holdLen, hold
      ensures After(produced, r) == Meant()
    {
      hide Blocks, Permutes, Unpad, Holds;
      if encrypt && padding {
        r := FinalPadded();
      } else if !encrypt && padding {
        r := FinalUnpadded();
      } else {
        r := FinalPlain();
      }
    }

    method FinalPlain() returns (r: Result<seq<byte>, Error>)
      requires Valid() && !padding
      ensures After(produced, r) == OneShot(perm, bs, encrypt, false, fed)
    {
      hide Blocks, Permutes, Unpad;
      HeldPart(|fed|, holdLen, bs);
      if holdLen != 0 { return Err(WrongBlockLength); }
      assert fed[..|fed|] == fed && fed + [] == fed && produced + [] == produced;
      r := Ok([]);
    }

    method FinalPadded() returns (r: Result<seq<byte>, Error>)
      requires Valid() && encrypt && padding
      modifies `holdLen, hold
      ensures After(produced, r) == OneShot(perm, bs, true, true, fed)
    {
      hide Blocks, Permutes, Unpad;
      var pad := bs - holdLen;
      ghost var held := fed[|fed| - holdLen..];
      LastPadded(perm, bs, fed, holdLen);
      for k := holdLen to bs
        invariant hold.Length == bs && hold[..holdLen] == held
        invariant forall i | holdLen <= i < k :: hold[i] == pad
        modifies hold
      {
        hold[k] := pad;
      }
      assert hold[..] == held + Fill(pad, pad);
      var out := perm(hold[..]);
      holdLen := 0;
      r := Ok(out);
    }

    method FinalUnpadded() returns (r: Result<seq<byte>, Error>)
      requires Valid() && !encrypt && padding
      ensures After(produced, r) == if fed == [] then Err(BadDecrypt) else OneShot(perm, bs, false, true, fed)
    {
      hide Blocks, Permutes, Unpad;
      HeldPart(|fed|, holdLen, bs);
      if holdLen != bs {
        if holdLen == 0 { return Err(BadDecrypt); }
        return Err(WrongBlockLength);
      }
      LastHeld(perm, bs, fed);
      assert hold[..] == hold[..bs] == fed[|fed| - bs..];
      var block := perm(hold[..]);
      r := StripPadding(bs, block);
    }
  }

  /** All output: what came before, then the last part, unless that failed. */
  function After(produced: seq<byte>, last: Result<seq<byte>, Error>): Result<seq<byte>, Error> {
    match last case Ok(v) => Ok(produced + v) case Err(e) => Err(e)
  }

  /** What is held is the length modulo the block size, or a whole block. */
  lemma HeldPart(n: nat, held: nat, bs: nat)
    requires 0 < bs && held <= n && held <= bs && Whole(n - held, bs)
    ensures n % bs == if held == bs then 0 else held
  {
    WholeIff(n - held, bs);
    var q := (n - held) / bs;
    assert n - held == bs * q;
    if held == bs {
      assert n == bs * (q + 1);
      DivisionIs(n, bs, q + 1, 0);
    } else {
      DivisionIs(n, bs, q, held);
    }
  }

  /** Padding fills up the part that is held to one last block. */
  lemma LastPadded(perm: Permutation, bs: nat, fed: seq<byte>, held: nat)
    requires 0 < bs < 256 && Permutes(perm, bs) && held < bs && held <= |fed| && Whole(|fed| - held, bs)
    ensures var last := fed[|fed| - held..] + Fill(bs - held, bs - held);
      Blocks(perm, bs, fed[..|fed| - held]) + perm(last) == Blocks(perm, bs, fed + Padding(bs, |fed|))
  {
    HeldPart(|fed|, held, bs);
    var done, last := fed[..|fed| - held], fed[|fed| - held..] + Fill(bs - held, bs - held);
    BlocksConcat(perm, bs, done, last);
    OneBlock(perm, bs, last);
    assert done + last == fed + Padding(bs, |fed|);
  }

  /** Unpadding the last block finishes what unpadding everything would have done. */
  lemma LastHeld(perm: Permutation, bs: nat, fed: seq<byte>)
    requires 0 < bs < 256 && Permutes(perm, bs) && bs <= |fed| && Whole(|fed| - bs, bs)
    ensures var block := perm(fed[|fed| - bs..]);
      && block != [] && |fed| % bs == 0
      && OneShot(perm, bs, false, true, fed) ==
        match Unpad(bs, block) case Ok(v) => Ok(Blocks(perm, bs, fed[..|fed| - bs]) + v) case Err(e) => Err(e)
  {
    var done, last := fed[..|fed| - bs], fed[|fed| - bs..];
    HeldPart(|fed|, bs, bs);
    BlocksConcat(perm, bs, done, last);
    OneBlock(perm, bs, last);
    assert done + last == fed;
    assert |last| == bs;
    UnpadLast(bs, Blocks(perm, bs, done), perm(last));
  }

  // ---- any chunking ----------------------------------------------------------------------------------------

  function Concat(chunks: seq<seq<byte>>): seq<byte> {
    if chunks == [] then [] else Concat(chunks[..|chunks| - 1]) + chunks[|chunks| - 1]
  }

  /** Updates with any chunks, then final: together the one-shot result on all the input. */
  method InChunks(perm: Permutation, bs: nat, encrypt: bool, padding: bool, chunks: seq<seq<byte>>)
    returns (r: Result<seq<byte>, Error>)
    requires 0 < bs < 256 && Permutes(perm, bs)
    ensures r == if !encrypt && padding && Concat(chunks) == [] then Err(BadDecrypt)
      else OneShot(perm, bs, encrypt, padding, Concat(chunks))
  {
    hide OneShot, Permutes;
    var stream := new Stream(perm, bs, encrypt, padding);
    var out: seq<byte> := [];
    for i := 0 to |chunks|
      invariant fresh(stream) && fresh(stream.hold) && stream.Valid()
      invariant stream.perm == perm && stream.bs == bs && stream.encrypt == encrypt && stream.padding == padding
      invariant stream.fed == Concat(chunks[..i]) && stream.produced == out
    {
      var more := stream.Update(chunks[i]);
      out := out + more;
      assert chunks[..i + 1][..i] == chunks[..i];
    }
    assert chunks[..|chunks|] == chunks;
    var last := stream.Final();
    r := if last.Ok? then Ok(out + last.value) else Err(last.error);
  }

  // ---- decrypting undoes encrypting ------------------------------------------------------------------------

  /** Two permutations of blocks that undo each other. */
  ghost predicate Inverse(enc: Permutation, dec: Permutation, bs: nat) {
    Permutes(enc, bs) && Permutes(dec, bs) && forall b: Block :: |b| == bs ==> dec(enc(b)) == b
  }

  lemma InverseAt(enc: Permutation, dec: Permutation, bs: nat, b: Block)
    requires Inverse(enc, dec, bs) && |b| == bs
    ensures |enc(b)| == bs && dec(enc(b)) == b
  {
  }

  lemma {:induction false} BlocksInverse(enc: Permutation, dec: Permutation, bs: nat, data: seq<byte>)
    requires bs > 0 && Inverse(enc, dec, bs) && Whole(|data|, bs)
    ensures Blocks(dec, bs, Blocks(enc, bs, data)) == data
    decreases |data|
  {
    hide Inverse;
    if |data| >= bs {
      var b, rest := data[..bs], data[bs..];
      InverseAt(enc, dec, bs, b);
      BlocksInverse(enc, dec, bs, rest);
      var c := enc(b) + Blocks(enc, bs, rest);
      assert c[..bs] == enc(b) && c[bs..] == Blocks(enc, bs, rest);
      assert b + rest == data;
    } else {
      assert data == [];
    }
  }

  lemma UnpadPadding(bs: nat, data: seq<byte>)
    requires 0 < bs < 256
    ensures Unpad(bs, data + Padding(bs, |data|)) == Ok(data)
  {
    var pad := Padding(bs, |data|);
    var out := data + pad;
    PaddedLength(bs, |data|);
    assert out[|out| - 1] == pad[|pad| - 1] == |pad|;
    assert forall i | |out| - |pad| <= i < |out| :: out[i] == pad[i - |data|] == |pad|;
    assert out[..|out| - |pad|] == data;
  }

  /** Decrypting gives back what was encrypted, for any data with padding and for whole blocks without. */
  lemma DecryptEncrypt(enc: Permutation, dec: Permutation, bs: nat, padding: bool, data: seq<byte>)
    requires 0 < bs < 256 && Inverse(enc, dec, bs) && (padding || |data| % bs == 0)
    ensures var c := OneShot(enc, bs, true, padding, data);
      c.Ok? && (padding ==> c.value != []) && OneShot(dec, bs, false, padding, c.value) == Ok(data)
  {
    hide Unpad, Padding;
    var padded := data + if padding then Padding(bs, |data|) else [];
    if padding { PaddedLength(bs, |data|); UnpadPadding(bs, data); } else { assert padded == data; }
    WholeIff(|padded|, bs);
    BlocksLength(enc, bs, padded);
    BlocksInverse(enc, dec, bs, padded);
  }

  /** Decrypting under any chunking undoes encrypting under any other. */
  method ThereAndBack(enc: Permutation, dec: Permutation, bs: nat, padding: bool, chunks: seq<seq<byte>>,
      pieces: seq<seq<byte>>)
    returns (c: Result<seq<byte>, Error>, r: Result<seq<byte>, Error>)
    requires 0 < bs < 256 && Inverse(enc, dec, bs) && (padding || |Concat(chunks)| % bs == 0)
    requires OneShot(enc, bs, true, padding, Concat(chunks)) == Ok(Concat(pieces))
    ensures c == Ok(Concat(pieces)) && r == Ok(Concat(chunks))
  {
    hide OneShot, Permutes, Inverse;
    InverseParts(enc, dec, bs);
    DecryptEncrypt(enc, dec, bs, padding, Concat(chunks));
    c := InChunks(enc, bs, true, padding, chunks);
    r := InChunks(dec, bs, false, padding, pieces);
  }

  lemma InverseParts(enc: Permutation, dec: Permutation, bs: nat)
    requires Inverse(enc, dec, bs)
    ensures Permutes(enc, bs) && Permutes(dec, bs)
  {
  }

  // ---- block by block, byte by byte ------------------------------------------------------------------------

  /** Block k of the output is block k of the input, permuted. */
  lemma {:induction false} BlockByBlock(perm: Permutation, bs: nat, data: seq<byte>, k: nat)
    requires bs > 0 && Permutes(perm, bs) && Whole(|data|, bs) && bs * k + bs <= |data|
    ensures |Blocks(perm, bs, data)| == |data|
    ensures Blocks(perm, bs, data)[bs * k..bs * k + bs] == perm(data[bs * k..bs * k + bs])
    decreases k
  {
    hide Permutes, Blocks;
    BlocksLength(perm, bs, data);
    FirstBlock(perm, bs, data);
    var out, rest := Blocks(perm, bs, data), Blocks(perm, bs, data[bs..]);
    if k == 0 {
      assert out[..bs] == perm(data[..bs]);
    } else {
      assert bs * k == bs * (k - 1) + bs;
      BlockByBlock(perm, bs, data[bs..], k - 1);
      assert data[bs..][bs * (k - 1)..bs * (k - 1) + bs] == data[bs * k..bs * k + bs];
      assert rest[bs * (k - 1)..bs * (k - 1) + bs] == out[bs * k..bs * k + bs];
    }
  }

  lemma FirstBlock(perm: Permutation, bs: nat, data: seq<byte>)
    requires bs > 0 && Permutes(perm, bs) && Whole(|data|, bs) && |data| >= bs
    ensures Blocks(perm, bs, data) == perm(data[..bs]) + Blocks(perm, bs, data[bs..]) && |perm(data[..bs])| == bs
    ensures Whole(|data[bs..]|, bs)
  {
    assert |data[..bs]| == bs;
  }

  /** What is permuted is the data with n bytes of value n after it, where 1 <= n <= bs of them fill the last block. */
  lemma EncryptedIs(perm: Permutation, bs: nat, data: seq<byte>, out: seq<byte>)
    requires 0 < bs < 256
    ensures OneShot(perm, bs, true, true, data) == Ok(out) <==>
      exists n: byte :: 1 <= n <= bs && (|data| + n) % bs == 0 && out == Blocks(perm, bs, data + Fill(n, n))
  {
    hide Blocks;
    var n: byte := bs - |data| % bs;
    PaddedLength(bs, |data|);
    assert Padding(bs, |data|) == Fill(n, n);
    if m: byte :| 1 <= m <= bs && (|data| + m) % bs == 0 && out == Blocks(perm, bs, data + Fill(m, m)) {
      FillIsUnique(bs, |data|, m, n);
    }
  }

  lemma FillIsUnique(bs: nat, len: nat, m: nat, n: nat)
    requires bs > 0 && 1 <= m <= bs && 1 <= n <= bs && (len + m) % bs == 0 && (len + n) % bs == 0
    ensures m == n
  {
    var p, q := (len + m) / bs, (len + n) / bs;
    assert len + m == bs * p && len + n == bs * q;
    assert bs * p - bs * q == bs * (p - q) == m - n;
    NoSmallMultiple(bs, p - q);
  }

  /** Padding comes off exactly when it is there: n bytes of value n, 1 <= n <= bs. */
  lemma UnpaddedIs(bs: nat, out: seq<byte>, v: seq<byte>)
    requires 0 < bs < 256 && out != []
    ensures Unpad(bs, out) == Ok(v) <==> exists n: byte :: 1 <= n <= bs && out == v + Fill(n, n)
  {
    if Unpad(bs, out) == Ok(v) {
      var n := out[|out| - 1];
      assert out[|out| - n..] == Fill(n, n);
      assert out == v + Fill(n, n);
    }
    if n: byte :| 1 <= n <= bs && out == v + Fill(n, n) {
      assert out[|out| - 1] == Fill(n, n)[n - 1] == n;
      assert forall i | |out| - n <= i < |out| :: out[i] == Fill(n, n)[i - |v|];
      assert out[..|out| - n] == v;
    }
  }
}
