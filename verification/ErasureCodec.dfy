/**
 * Reed-Solomon encoding and degraded reconstruction (powerfs_ec.c) for an arbitrary encoding
 * matrix, over shard buffers that are filled in place.
 */
module ErasureCodec {
  import opened Fields
  import opened LinearAlgebra
  import opened Gf256
  import opened GfTables
  import opened Elimination

  const EBADMSG := -74

  type Block = seq<u8>

  ghost predicate IsBlocks(d: seq<Block>, n: nat, size: nat) {
    |d| == n && forall i :: 0 <= i < n ==> |d[i]| == size
  }

  /** Byte k of every block. */
  ghost function Column(d: seq<Block>, size: nat, k: nat): (r: Vector<u8>)
    requires IsBlocks(d, |d|, size) && k < size
    ensures |r| == |d|
  {
    seq(|d|, i requires 0 <= i < |d| => d[i][k])
  }

  /** The blocks combined byte by byte with the coefficients r. */
  ghost function Combination(F: Field<u8>, r: Vector<u8>, d: seq<Block>, size: nat): (b: Block)
    requires IsBlocks(d, |r|, size)
    ensures |b| == size
  {
    seq(size, k requires 0 <= k < size => Dot(F, r, Column(d, size, k), |r|))
  }

  /** Data blocks followed by their parity blocks. */
  ghost function Codeword(F: Field<u8>, E: Matrix<u8>, d: seq<Block>, size: nat): (c: seq<Block>)
    requires IsMatrix(E, |E|, |d|) && IsBlocks(d, |d|, size)
    ensures |c| == |d| + |E|
  {
    d + seq(|E|, p requires 0 <= p < |E| => Combination(F, E[p], d, size))
  }

  lemma ParityBlock(F: Field<u8>, E: Matrix<u8>, D: seq<Block>, size: nat, i: nat)
    requires IsMatrix(E, |E|, |D|) && IsBlocks(D, |D|, size) && |D| <= i < |D| + |E|
    ensures Codeword(F, E, D, size)[i] == Combination(F, E[i - |D|], D, size)
  {
    assert i == |D| + (i - |D|);
  }

  // ---------------------------------------------------------------- buffers

  /** The bytes of a buffer; a missing one counts as zeros, since the loops skip it. */
  ghost function Content(b: array?<u8>, size: nat): (s: Block)
    requires b != null ==> b.Length == size
    reads b
    ensures |s| == size
  {
    if b == null then seq(size, _ => 0) else b[..]
  }

  /** Distinct buffers of the shard size, none of them a table of the codec. */
  ghost predicate Separate(gf: Tables, shards: seq<array?<u8>>, size: nat) {
    && (forall i :: 0 <= i < |shards| && shards[i] != null ==> shards[i].Length == size && shards[i] !in gf.Repr())
    && (forall i, j :: 0 <= i < j < |shards| && shards[i] != null ==> shards[i] != shards[j])
  }

  /** One multiply-accumulate pass: dst ^= coef * src. */
  method MulAdd(gf: Tables, dst: array<u8>, src: array<u8>, coef: u8)
    requires gf.Valid() && dst != src && dst !in gf.Repr() && dst.Length == src.Length
    modifies dst
    ensures forall k :: 0 <= k < dst.Length ==> dst[k] == gf.F.add(old(dst[k]), gf.F.mul(src[k], coef))
  {
    for k := 0 to dst.Length
      invariant forall i :: 0 <= i < dst.Length ==>
        dst[i] == if i < k then gf.F.add(old(dst[i]), gf.F.mul(src[i], coef)) else old(dst[i])
    {
      dst[k] := gf.Plus(dst[k], gf.Times(src[k], coef));
    }
  }

  /**
   * The loop that encoding and both phases of decoding share: clear dst and accumulate the
   * sources with the coefficients of one matrix row, skipping zero coefficients and missing
   * buffers.
   */
  method CombineShards(
    gf: Tables, m: array2<u8>, row: nat, sources: seq<array?<u8>>, dst: array<u8>,
    ghost R: Vector<u8>, ghost src: seq<Block>)
    requires gf.Valid() && dst !in gf.Repr()
    requires row < m.Length0 && m.Length1 == |sources| == |R| && R == Rows(m)[row]
    requires IsBlocks(src, |R|, dst.Length)
    requires forall i :: 0 <= i < |sources| && sources[i] != null ==> sources[i].Length == dst.Length
    requires forall i :: 0 <= i < |sources| ==> sources[i] != dst && Content(sources[i], dst.Length) == src[i]
    modifies dst
    ensures dst[..] == Combination(gf.F, R, src, dst.Length)
  {
    Clear(dst);
    assert Summed(gf.F, R, src, 0, dst[..]);
    for i := 0 to |sources|
      invariant gf.Valid()
      invariant forall j :: 0 <= j < |sources| ==> Content(sources[j], dst.Length) == src[j]
      invariant Summed(gf.F, R, src, i, dst[..])
    {
      AccumulateOne(gf, dst, sources[i], m[row, i], R, src, i);
    }
  }

  /** b holds the sum of the first n sources. */
  ghost predicate Summed(F: Field<u8>, R: Vector<u8>, src: seq<Block>, n: nat, b: Block) {
    n <= |R| && IsBlocks(src, |R|, |b|) && forall k :: 0 <= k < |b| ==> b[k] == Dot(F, R, Column(src, |b|, k), n)
  }

  /** memset(dst, 0, size) */
  method Clear(dst: array<u8>)
    modifies dst
    ensures forall k :: 0 <= k < dst.Length ==> dst[k] == 0
  {
    for k := 0 to dst.Length
      invariant forall i :: 0 <= i < k ==> dst[i] == 0
    {
      dst[k] := 0;
    }
  }

  method AccumulateOne(
    gf: Tables, dst: array<u8>, from: array?<u8>, coef: u8, ghost R: Vector<u8>, ghost src: seq<Block>, ghost i: nat)
    requires gf.Valid() && dst !in gf.Repr() && from != dst && (from != null ==> from.Length == dst.Length)
    requires i < |R| && IsBlocks(src, |R|, dst.Length) && coef == R[i] && Content(from, dst.Length) == src[i]
    requires Summed(gf.F, R, src, i, dst[..])
    modifies dst
    ensures Summed(gf.F, R, src, i + 1, dst[..])
  {
    ghost var before := dst[..];
    if coef != 0 && from != null {
      MulAdd(gf, dst, from, coef);
    }
    forall k | 0 <= k < dst.Length
      ensures dst[k] == Dot(gf.F, R, Column(src, dst.Length, k), i + 1)
    {
      AccumulateStep(gf.F, R, Column(src, dst.Length, k), i, before[k]);
    }
  }

  /** What one source adds to a byte, also when it is skipped. */
  lemma AccumulateStep(F: Field<u8>, R: Vector<u8>, x: Vector<u8>, i: nat, before: u8)
    requires IsField(F) && i < |R| == |x| && before == Dot(F, R, x, i)
    ensures Dot(F, R, x, i + 1) == F.add(before, F.mul(x[i], R[i]))
    ensures R[i] == F.zero || x[i] == F.zero ==> Dot(F, R, x, i + 1) == before
  {
    assert LawsAt(F, x[i], R[i], R[i]);
    MulRight(F, x[i], x[i], x[i]);
    assert LawsAt(F, R[i], F.zero, F.zero);
    AddZeroLeft(F, before);
  }

  /** What every buffer holds. */
  ghost function Contents(gf: Tables, shards: seq<array?<u8>>, size: nat): (X: seq<Block>)
    requires Separate(gf, shards, size)
    reads set i | 0 <= i < |shards| && shards[i] != null :: shards[i]
    ensures |X| == |shards|
  {
    if |shards| == 0 then []
    else Contents(gf, shards[..|shards| - 1], size) + [Content(shards[|shards| - 1], size)]
  }

  lemma {:induction false} ContentsAre(gf: Tables, shards: seq<array?<u8>>, size: nat)
    requires Separate(gf, shards, size)
    ensures forall i :: 0 <= i < |shards| ==> Contents(gf, shards, size)[i] == Content(shards[i], size)
    ensures IsBlocks(Contents(gf, shards, size), |shards|, size)
  {
    if |shards| > 0 {
      ContentsAre(gf, shards[..|shards| - 1], size);
    }
  }

  // ---------------------------------------------------------------- which shards are there

  /** The indices below n of the shards that are (or are not) available, in order. */
  function Indices(available: seq<bool>, n: nat, wanted: bool): (r: seq<nat>)
    requires n <= |available|
  {
    if n == 0 then []
    else if available[n - 1] == wanted then Indices(available, n - 1, wanted) + [n - 1]
    else Indices(available, n - 1, wanted)
  }

  lemma {:induction false} IndicesAreExact(available: seq<bool>, n: nat, wanted: bool)
    requires n <= |available|
    ensures forall i :: i in Indices(available, n, wanted) <==> 0 <= i < n && available[i] == wanted
    ensures forall k :: 0 <= k < |Indices(available, n, wanted)| ==>
      Indices(available, n, wanted)[k] < n && available[Indices(available, n, wanted)[k]] == wanted
  {
    if n > 0 {
      IndicesAreExact(available, n - 1, wanted);
    }
  }

  /** powerfs_ec_can_recover */
  method CanRecover(available: seq<bool>, data: nat) returns (r: bool)
    ensures r <==> |Indices(available, |available|, true)| >= data
  {
    var count := 0;
    for i := 0 to |available|
      invariant count == |Indices(available, i, true)|
    {
      if available[i] {
        count := count + 1;
      }
    }
    return count >= data;
  }

  /** The scan that lists the available shards and the missing data shards. */
  method ScanShards(available: seq<bool>, data: nat) returns (avail: seq<nat>, missing: seq<nat>)
    requires data <= |available|
    ensures avail == Indices(available, |available|, true)
    ensures missing == Indices(available, data, false)
  {
    avail, missing := [], [];
    for i := 0 to |available|
      invariant avail == Indices(available, i, true)
      invariant missing == Indices(available, if i < data then i else data, false)
    {
      if available[i] {
        avail := avail + [i];
      } else if i < data {
        missing := missing + [i];
      }
    }
  }

  /** Decoding first checks that enough shards are left, then lists them. */
  method Survey(available: seq<bool>, data: nat) returns (enough: bool, avail: seq<nat>, missing: seq<nat>)
    requires data <= |available|
    ensures enough <==> |Indices(available, |available|, true)| >= data
    ensures enough ==> avail == Indices(available, |available|, true) && missing == Indices(available, data, false)
    ensures enough ==> forall k :: 0 <= k < |avail| ==> avail[k] < |available| && available[avail[k]]
    ensures enough && missing == [] ==> forall i :: 0 <= i < data ==> available[i]
  {
    enough := CanRecover(available, data);
    avail, missing := [], [];
    if enough {
      avail, missing := ScanShards(available, data);
      IndicesAreExact(available, |available|, true);
      IndicesAreExact(available, data, false);
    }
  }

  // ---------------------------------------------------------------- the reconstruction matrix

  /** The row of the systematic matrix [I; E] that produces shard a. */
  ghost function ShardRow(F: Field<u8>, E: Matrix<u8>, data: nat, a: nat): (r: Vector<u8>)
    requires IsMatrix(E, |E|, data) && a < data + |E|
    ensures |r| == data
  {
    if a < data then Unit(F, data, a) else E[a - data]
  }

  /** The rows of the first `data` available shards. */
  ghost function SubMatrix(F: Field<u8>, E: Matrix<u8>, data: nat, avail: seq<nat>): (S: Matrix<u8>)
    requires IsMatrix(E, |E|, data) && |avail| >= data && forall i :: 0 <= i < |avail| ==> avail[i] < data + |E|
    ensures IsMatrix(S, data, data)
  {
    seq(data, i requires 0 <= i < data => ShardRow(F, E, data, avail[i]))
  }

  lemma ShardByte(F: Field<u8>, E: Matrix<u8>, D: seq<Block>, size: nat, a: nat, k: nat)
    requires IsField(F) && IsMatrix(E, |E|, |D|) && IsBlocks(D, |D|, size) && a < |D| + |E| && k < size
    ensures Codeword(F, E, D, size)[a][k] == Dot(F, ShardRow(F, E, |D|, a), Column(D, size, k), |D|)
  {
    var x := Column(D, size, k);
    if a < |D| {
      DotUnit(F, x, |D|, a);
    } else {
      assert Codeword(F, E, D, size)[|D| + (a - |D|)] == Combination(F, E[a - |D|], D, size);
    }
  }

  /** The shards the reconstruction reads. */
  ghost function Selected(C: seq<Block>, avail: seq<nat>, n: nat): (r: seq<Block>)
    requires n <= |avail| && forall i :: 0 <= i < n ==> avail[i] < |C|
    ensures |r| == n && forall i :: 0 <= i < n ==> r[i] == C[avail[i]]
  {
    seq(n, i requires 0 <= i < n => C[avail[i]])
  }

  /** Multiplying the available shards by the inverse gives back the data. */
  lemma InverseRecovers(
    F: Field<u8>, E: Matrix<u8>, D: seq<Block>, C: seq<Block>, size: nat, avail: seq<nat>, B: Matrix<u8>, m: nat)
    requires IsField(F) && IsMatrix(E, |E|, |D|) && IsBlocks(D, |D|, size) && C == Codeword(F, E, D, size)
    requires |avail| >= |D| && (forall i :: 0 <= i < |avail| ==> avail[i] < |D| + |E|) && m < |D|
    requires IsInverse(F, B, SubMatrix(F, E, |D|, avail), |D|)
    ensures IsBlocks(Selected(C, avail, |D|), |D|, size)
    ensures Combination(F, B[m], Selected(C, avail, |D|), size) == D[m]
  {
    var n, src := |D|, Selected(C, avail, |D|);
    var S := SubMatrix(F, E, n, avail);
    forall i | 0 <= i < n ensures |src[i]| == size { CodewordBlock(F, E, D, size, avail[i]); }
    forall k | 0 <= k < size
      ensures Combination(F, B[m], src, size)[k] == D[m][k]
    {
      var x, y := Column(D, size, k), Column(src, size, k);
      forall i | 0 <= i < n ensures Apply(F, S, x)[i] == y[i] { ShardByte(F, E, D, size, avail[i], k); }
      assert Apply(F, S, x) == y;
      assert x == Apply(F, B, y);
      assert x[m] == Dot(F, B[m], y, n);
    }
  }

  lemma CodewordBlock(F: Field<u8>, E: Matrix<u8>, D: seq<Block>, size: nat, a: nat)
    requires IsMatrix(E, |E|, |D|) && IsBlocks(D, |D|, size) && a < |D| + |E|
    ensures |Codeword(F, E, D, size)[a]| == size
  {
    if a >= |D| {
      assert Codeword(F, E, D, size)[|D| + (a - |D|)] == Combination(F, E[a - |D|], D, size);
    }
  }

  /** The loop that lays out the sub-matrix. */
  method BuildSubMatrix(enc: array2<u8>, avail: seq<nat>, data: nat, ghost F: Field<u8>) returns (sub: array2<u8>)
    requires enc.Length1 == data && F.zero == 0 && F.one == 1
    requires |avail| >= data && forall i :: 0 <= i < |avail| ==> avail[i] < data + enc.Length0
    ensures fresh(sub) && sub.Length0 == data && sub.Length1 == data
    ensures Rows(sub) == SubMatrix(F, Rows(enc), data, avail)
  {
    sub := new u8[data, data]((_, _) => 0);
    for i := 0 to data
      invariant forall r, c :: 0 <= r < i && 0 <= c < data ==>
        sub[r, c] == ShardRow(F, Rows(enc), data, avail[r])[c]
    {
      var a := avail[i];
      forall c | 0 <= c < data {
        sub[i, c] := if a < data then (if c == a then 1 else 0) else enc[a - data, c];
      }
    }
    MatrixEqual(Rows(sub), SubMatrix(F, Rows(enc), data, avail), data, data);
  }

  class Codec {
    const data: nat
    const parity: nat
    const gf: Tables
    const enc: array2<u8>

    ghost predicate Valid()
      reads enc, gf.Repr()
    {
      data > 0 && gf.Valid() && enc.Length0 == parity && enc.Length1 == data
    }

    /** A codec around an encoding matrix (rows are parity shards, columns are data shards). */
    constructor (gf: Tables, enc: array2<u8>)
      requires gf.Valid() && enc.Length1 > 0
      ensures Valid() && this.gf == gf && this.enc == enc
    {
      this.data := enc.Length1;
      this.parity := enc.Length0;
      this.gf := gf;
      this.enc := enc;
    }

    /** D is a set of data blocks and C the codeword it stands for. */
    ghost predicate Encodes(E: Matrix<u8>, D: seq<Block>, C: seq<Block>, size: nat) {
      IsMatrix(E, parity, data) && IsBlocks(D, data, size) && C == Codeword(gf.F, E, D, size)
    }

    /** Rebuild shard i as a combination of the shards listed in `from`. */
    method RebuildShard(
      shards: seq<array?<u8>>, i: nat, m: array2<u8>, row: nat, from: seq<nat>, size: nat,
      ghost R: Vector<u8>, ghost X: seq<Block>)
      requires Valid() && Separate(gf, shards, size) && Contents(gf, shards, size) == X && IsBlocks(X, |shards|, size)
      requires i < |shards| && shards[i] != null
      requires row < m.Length0 && m.Length1 == |from| == |R| && R == Rows(m)[row]
      requires forall k :: 0 <= k < |from| ==> from[k] < |shards| && from[k] != i
      modifies shards[i]
      ensures Valid()
      ensures Contents(gf, shards, size) == X[i := Combination(gf.F, R, Selected(X, from, |from|), size)]
    {
      ContentsAre(gf, shards, size);
      var sources := seq(|from|, k requires 0 <= k < |from| && from[k] < |shards| => shards[from[k]]);
      CombineShards(gf, m, row, sources, shards[i], R, Selected(X, from, |from|));
      ContentsAre(gf, shards, size);
    }

    /** X and T agree on the shards below n and on the available ones. */
    ghost predicate Agree(X: seq<Block>, T: seq<Block>, available: seq<bool>, n: nat, size: nat) {
      && |X| == |T| == |available| && IsBlocks(X, |X|, size)
      && forall i :: 0 <= i < |X| && (i < n || available[i]) ==> X[i] == T[i]
    }

    lemma AgreeStep(X: seq<Block>, T: seq<Block>, available: seq<bool>, i: nat, size: nat, X': seq<Block>)
      requires Agree(X, T, available, i, size) && i < |X|
      requires if available[i] then X' == X else X' == X[i := T[i]] && |T[i]| == size
      ensures Agree(X', T, available, i + 1, size)
    {
    }

    /** The data part of T is D. */
    ghost predicate Starts(T: seq<Block>, D: seq<Block>) {
      |D| <= |T| && forall k :: 0 <= k < |D| ==> T[k] == D[k]
    }

    lemma AgreeStarts(X: seq<Block>, T: seq<Block>, D: seq<Block>, available: seq<bool>, n: nat, size: nat)
      requires Agree(X, T, available, n, size) && Starts(T, D) && |D| <= n
      ensures Starts(X, D)
    {
    }

    lemma AgreeAll(X: seq<Block>, T: seq<Block>, available: seq<bool>, size: nat)
      requires Agree(X, T, available, |X|, size)
      ensures X == T
    {
    }

    /** Recompute parity shard i from the data shards. */
    method FillParity(
      shards: seq<array?<u8>>, i: nat, size: nat, ghost E: Matrix<u8>, ghost D: seq<Block>, ghost X: seq<Block>)
      requires Valid() && E == Rows(enc) && |shards| == data + parity
      requires Separate(gf, shards, size) && Contents(gf, shards, size) == X && IsBlocks(X, |shards|, size)
      requires IsBlocks(D, data, size) && Starts(X, D)
      requires data <= i < |shards| && shards[i] != null
      modifies shards[i]
      ensures Valid() && E == Rows(enc)
      ensures Contents(gf, shards, size) == X[i := Combination(gf.F, E[i - data], D, size)]
    {
      var from := seq(data, k requires 0 <= k => k);
      assert Selected(X, from, data) == D;
      RebuildShard(shards, i, enc, i - data, from, size, E[i - data], X);
    }

    /** Rebuild the parity shards that are not available from complete data shards. */
    method RecoverParity(
      shards: seq<array?<u8>>, available: seq<bool>, size: nat,
      ghost E: Matrix<u8>, ghost D: seq<Block>, ghost X: seq<Block>, ghost T: seq<Block>)
      requires Valid() && E == Rows(enc) && |shards| == data + parity == |available| && IsBlocks(D, data, size)
      requires Separate(gf, shards, size) && Contents(gf, shards, size) == X
      requires Agree(X, T, available, data, size) && Starts(T, D)
      requires forall i :: data <= i < |shards| && !available[i] ==>
        shards[i] != null && T[i] == Combination(gf.F, E[i - data], D, size)
      modifies set i | data <= i < |shards| && !available[i] && shards[i] != null :: shards[i]
      ensures Contents(gf, shards, size) == T
    {
      ghost var Y := X;
      for i := data to |shards|
        invariant Valid() && E == Rows(enc) && Contents(gf, shards, size) == Y
        invariant Agree(Y, T, available, i, size)
      {
        ghost var before := Y;
        if !available[i] {
          AgreeStarts(Y, T, D, available, i, size);
          FillParity(shards, i, size, E, D, Y);
          Y := Y[i := T[i]];
        }
        AgreeStep(before, T, available, i, size, Y);
      }
      AgreeAll(Y, T, available, size);
    }

    /** Fill the parity shards below n. */
    method FillParities(
      shards: seq<array?<u8>>, n: nat, size: nat,
      ghost E: Matrix<u8>, ghost D: seq<Block>, ghost C: seq<Block>, ghost X: seq<Block>)
      requires Valid() && E == Rows(enc) && Encodes(E, D, C, size) && data <= n <= |shards| == data + parity
      requires Separate(gf, shards, size) && Contents(gf, shards, size) == X
      requires IsBlocks(X, |shards|, size) && Starts(X, D)
      requires forall i :: data <= i < n ==> shards[i] != null
      modifies set i | data <= i < n && shards[i] != null :: shards[i]
      ensures Starts(Contents(gf, shards, size), C[..n])
    {
      ghost var Y, none := X, seq(|shards|, _ => false);
      assert Starts(C, D);
      for p := data to n
        invariant Valid() && E == Rows(enc) && Contents(gf, shards, size) == Y
        invariant Agree(Y, C, none, p, size)
      {
        Y := FillNext(shards, p, size, E, D, C, Y, none);
      }
    }

    /** Fill one more parity shard of a codeword. */
    method FillNext(
      shards: seq<array?<u8>>, p: nat, size: nat, ghost E: Matrix<u8>, ghost D: seq<Block>, ghost C: seq<Block>,
      ghost X: seq<Block>, ghost none: seq<bool>)
      returns (ghost Y: seq<Block>)
      requires Valid() && E == Rows(enc) && Encodes(E, D, C, size) && data <= p < |shards| == data + parity
      requires Separate(gf, shards, size) && Contents(gf, shards, size) == X && Starts(C, D) && shards[p] != null
      requires Agree(X, C, none, p, size) && !none[p]
      modifies shards[p]
      ensures Valid() && E == Rows(enc)
      ensures Contents(gf, shards, size) == Y && Agree(Y, C, none, p + 1, size)
    {
      ParityBlock(gf.F, E, D, size, p);
      AgreeStarts(X, C, D, none, p, size);
      FillParity(shards, p, size, E, D, X);
      Y := X[p := C[p]];
      AgreeStep(X, C, none, p, size, Y);
    }

    /**
     * powerfs_ec_encode fills the parity shards in order and gives up at the first one without a
     * buffer (or at once if the first data shard has none).
     */
    method Encode(shards: seq<array?<u8>>, size: nat, ghost E: Matrix<u8>, ghost D: seq<Block>, ghost C: seq<Block>)
      returns (ret: int, ghost filled: nat)
      requires Valid() && E == Rows(enc) && Encodes(E, D, C, size) && |shards| == data + parity
      requires Separate(gf, shards, size) && Starts(Contents(gf, shards, size), D)
      modifies set i | data <= i < |shards| && shards[i] != null :: shards[i]
      ensures ret == 0 || ret == EINVAL
      ensures ret == 0 <==> parity == 0 || (shards[0] != null && forall i :: data <= i < |shards| ==> shards[i] != null)
      ensures ret == 0 ==> Contents(gf, shards, size) == C
      ensures data <= filled <= |shards| && Starts(Contents(gf, shards, size), C[..filled])
      ensures ret != 0 ==> filled < |shards| && (shards[0] == null || shards[filled] == null)
    {
      var n := data;
      while n < |shards| && shards[n] != null && shards[0] != null
        invariant data <= n <= |shards| && (n > data ==> shards[0] != null)
        invariant forall i :: data <= i < n ==> shards[i] != null
      {
        n := n + 1;
      }
      filled := n;
      ContentsAre(gf, shards, size);
      FillParities(shards, n, size, E, D, C, Contents(gf, shards, size));
      ret := if n == |shards| then 0 else EINVAL;
    }

    /** Rebuild the missing data shards: rows of the inverse applied to the available shards. */
    method RecoverData(
      shards: seq<array?<u8>>, available: seq<bool>, from: seq<nat>, inv: array2<u8>, size: nat,
      ghost E: Matrix<u8>, ghost B: Matrix<u8>, ghost src: seq<Block>, ghost X: seq<Block>, ghost T: seq<Block>)
      returns (ghost Y: seq<Block>)
      requires Valid() && E == Rows(enc) && |shards| == data + parity == |available|
      requires Separate(gf, shards, size) && Contents(gf, shards, size) == X && Agree(X, T, available, 0, size)
      requires inv.Length0 == data && inv.Length1 == data && B == Rows(inv)
      requires IsBlocks(src, data, size) && Sources(from, available, T, src)
      requires forall i :: 0 <= i < data && !available[i] ==>
        shards[i] != null && T[i] == Combination(gf.F, B[i], src, size)
      modifies set i | 0 <= i < data && !available[i] && shards[i] != null :: shards[i]
      ensures Valid() && E == Rows(enc)
      ensures Contents(gf, shards, size) == Y && Agree(Y, T, available, data, size)
    {
      Y := X;
      for i := 0 to data
        invariant Valid() && E == Rows(enc) && B == Rows(inv) && Contents(gf, shards, size) == Y
        invariant Agree(Y, T, available, i, size)
      {
        ghost var before := Y;
        if !available[i] {
          RecoverOne(shards, i, available, from, inv, size, E, B, src, Y, T);
          Y := Y[i := T[i]];
        }
        AgreeStep(before, T, available, i, size, Y);
      }
    }

    /** `from` lists available shards that hold src in T. */
    ghost predicate Sources(from: seq<nat>, available: seq<bool>, T: seq<Block>, src: seq<Block>) {
      |from| == |src| && |T| == |available| &&
      forall k :: 0 <= k < |from| ==> from[k] < |T| && available[from[k]] && T[from[k]] == src[k]
    }

    method RecoverOne(
      shards: seq<array?<u8>>, i: nat, available: seq<bool>, from: seq<nat>, inv: array2<u8>, size: nat,
      ghost E: Matrix<u8>, ghost B: Matrix<u8>, ghost src: seq<Block>, ghost Y: seq<Block>, ghost T: seq<Block>)
      requires Valid() && E == Rows(enc) && |shards| == data + parity == |available|
      requires i < data && !available[i] && shards[i] != null
      requires Separate(gf, shards, size) && Contents(gf, shards, size) == Y && Agree(Y, T, available, i, size)
      requires inv.Length0 == data && inv.Length1 == data && B == Rows(inv)
      requires IsBlocks(src, data, size) && Sources(from, available, T, src)
      modifies shards[i]
      ensures Valid() && E == Rows(enc) && B == Rows(inv)
      ensures Contents(gf, shards, size) == Y[i := Combination(gf.F, B[i], src, size)]
    {
      assert Selected(Y, from, data) == src;
      RebuildShard(shards, i, inv, i, from, size, B[i], Y);
    }

    /** Allocate the buffers of the shards that are neither available nor allocated. */
    method AllocateMissing(shards: array<array?<u8>>, available: seq<bool>, size: nat)
      requires shards.Length == |available| && Apart(shards, size)
      modifies shards
      ensures Apart(shards, size)
      ensures forall i :: 0 <= i < shards.Length && !available[i] ==> shards[i] != null
      ensures forall i :: 0 <= i < shards.Length && (available[i] || old(shards[i]) != null) ==>
        shards[i] == old(shards[i])
      ensures forall i :: 0 <= i < shards.Length && !available[i] && old(shards[i]) == null ==> fresh(shards[i])
    {
      for i := 0 to shards.Length
        invariant Apart(shards, size)
        invariant forall j :: 0 <= j < i && !available[j] ==> shards[j] != null
        invariant forall j :: 0 <= j < shards.Length && (j >= i || available[j] || old(shards[j]) != null) ==>
          shards[j] == old(shards[j])
        invariant forall j :: 0 <= j < i && !available[j] && old(shards[j]) == null ==> fresh(shards[j])
      {
        if !available[i] && shards[i] == null {
          var b := new u8[size];
          shards[i] := b;
        }
      }
    }

    /** The buffers are apart from each other, from the tables and from the array of pointers. */
    ghost predicate Apart(shards: array<array?<u8>>, size: nat)
      reads shards
    {
      && Separate(gf, shards[..], size)
      && shards !in gf.Repr()
      && forall i :: 0 <= i < shards.Length ==> shards[i] as object? != shards
    }

    // ------------------------------------------------------------ what decoding computes

    /** The data blocks computed from the shards X with the inverse B. */
    ghost function RebuiltData(
      X: seq<Block>, available: seq<bool>, avail: seq<nat>, B: Matrix<u8>, size: nat): (D: seq<Block>)
      requires |X| == data + parity == |available| && IsBlocks(X, |X|, size)
      requires |avail| >= data && (forall k :: 0 <= k < |avail| ==> avail[k] < |X|) && IsMatrix(B, data, data)
      ensures IsBlocks(D, data, size)
    {
      var src := Selected(X, avail, data);
      seq(data, i requires 0 <= i < data => if available[i] then X[i] else Combination(gf.F, B[i], src, size))
    }

    /** The shards that decoding leaves behind. */
    ghost function Rebuilt(
      E: Matrix<u8>, X: seq<Block>, available: seq<bool>, D: seq<Block>, size: nat): (T: seq<Block>)
      requires |X| == data + parity == |available| && IsMatrix(E, parity, data) && IsBlocks(D, data, size)
      ensures |T| == |X|
    {
      seq(|X|, i requires 0 <= i < |X| =>
        if i < data then D[i] else if available[i] then X[i] else Combination(gf.F, E[i - data], D, size))
    }

    lemma RebuiltEntries(E: Matrix<u8>, X: seq<Block>, available: seq<bool>, D: seq<Block>, size: nat, T: seq<Block>)
      requires |X| == data + parity == |available| && IsMatrix(E, parity, data) && IsBlocks(D, data, size)
      requires T == Rebuilt(E, X, available, D, size)
      ensures forall i :: 0 <= i < data ==> T[i] == D[i]
      ensures forall i :: data <= i < |X| && !available[i] ==> T[i] == Combination(gf.F, E[i - data], D, size)
      ensures forall i :: data <= i < |X| && available[i] ==> T[i] == X[i]
    {
    }

    /** The shards that are available carry the codeword. */
    ghost predicate Intact(X: seq<Block>, available: seq<bool>, C: seq<Block>)
      requires |X| == |available| == |C|
    {
      forall i :: 0 <= i < |X| && available[i] ==> X[i] == C[i]
    }

    lemma RebuiltDataIsRight(
      E: Matrix<u8>, D: seq<Block>, C: seq<Block>, X: seq<Block>,
      available: seq<bool>, avail: seq<nat>, B: Matrix<u8>, size: nat)
      requires IsField(gf.F) && Encodes(E, D, C, size) && |X| == data + parity == |available| && IsBlocks(X, |X|, size)
      requires |avail| >= data && Intact(X, available, C)
      requires forall k :: 0 <= k < |avail| ==> avail[k] < |X| && available[avail[k]]
      requires IsInverse(gf.F, B, SubMatrix(gf.F, E, data, avail), data)
      ensures RebuiltData(X, available, avail, B, size) == D
    {
      assert Selected(X, avail, data) == Selected(C, avail, data);
      forall i | 0 <= i < data
        ensures RebuiltData(X, available, avail, B, size)[i] == D[i]
      {
        InverseRecovers(gf.F, E, D, C, size, avail, B, i);
      }
    }

    lemma RebuiltIsRight(E: Matrix<u8>, D: seq<Block>, C: seq<Block>, X: seq<Block>, available: seq<bool>, size: nat)
      requires Encodes(E, D, C, size) && |X| == data + parity == |available| && Intact(X, available, C)
      ensures Rebuilt(E, X, available, D, size) == C
    {
      forall i | 0 <= i < |X|
        ensures Rebuilt(E, X, available, D, size)[i] == C[i]
      {
        if i >= data { ParityBlock(gf.F, E, D, size, i); }
      }
    }

    /** Enough shards are available and, if data is missing, their rows are independent. */
    ghost predicate Recoverable(E: Matrix<u8>, available: seq<bool>)
      requires IsMatrix(E, parity, data) && |available| == data + parity
    {
      var avail := Indices(available, |available|, true);
      IndicesAreExact(available, |available|, true);
      |avail| >= data &&
      (Indices(available, data, false) == [] || !Dependent(gf.F, SubMatrix(gf.F, E, data, avail), data, data))
    }

    /**
     * The reduction of the encoding matrix leaves zero parity rows whenever it succeeds. With such
     * rows no loss of a data shard is recoverable: that shard's column vanishes.
     */
    lemma ZeroParityRecoversNothing(E: Matrix<u8>, available: seq<bool>, m: nat)
      requires IsField(gf.F) && IsMatrix(E, parity, data) && |available| == data + parity
      requires forall i, j :: 0 <= i < parity && 0 <= j < data ==> E[i][j] == gf.F.zero
      requires m < data && !available[m]
      ensures !Recoverable(E, available)
    {
      var avail := Indices(available, |available|, true);
      IndicesAreExact(available, |available|, true);
      IndicesAreExact(available, data, false);
      if |avail| >= data {
        ZeroColumnIsDependent(gf.F, SubMatrix(gf.F, E, data, avail), data, data, m);
      }
    }

    /** Decoding when no data shard is missing: only parity is rebuilt. */
    method DecodeParity(
      shards: seq<array?<u8>>, available: seq<bool>, size: nat,
      ghost E: Matrix<u8>, ghost D: seq<Block>, ghost C: seq<Block>, ghost X: seq<Block>)
      requires Valid() && E == Rows(enc) && Encodes(E, D, C, size) && |shards| == data + parity == |available|
      requires Separate(gf, shards, size) && Contents(gf, shards, size) == X && IsBlocks(X, |shards|, size)
      requires forall i :: 0 <= i < data ==> available[i]
      requires forall i :: 0 <= i < |shards| && !available[i] ==> shards[i] != null
      modifies set i | 0 <= i < |shards| && !available[i] && shards[i] != null :: shards[i]
      ensures Intact(X, available, C) ==> Contents(gf, shards, size) == C
    {
      ghost var D' := X[..data];
      ghost var T := Rebuilt(E, X, available, D', size);
      RebuiltEntries(E, X, available, D', size, T);
      if Intact(X, available, C) {
        assert D' == D;
        RebuiltIsRight(E, D, C, X, available, size);
      }
      RecoverParity(shards, available, size, E, D', X, T);
    }

    /** Decoding when data shards are missing, with the inverse in hand. */
    method DecodeWith(
      shards: seq<array?<u8>>, available: seq<bool>, avail: seq<nat>, inv: array2<u8>, size: nat,
      ghost E: Matrix<u8>, ghost B: Matrix<u8>, ghost D: seq<Block>, ghost C: seq<Block>, ghost X: seq<Block>)
      requires Valid() && E == Rows(enc) && Encodes(E, D, C, size) && |shards| == data + parity == |available|
      requires Separate(gf, shards, size) && Contents(gf, shards, size) == X && IsBlocks(X, |shards|, size)
      requires inv.Length0 == data && inv.Length1 == data && B == Rows(inv)
      requires |avail| >= data && forall k :: 0 <= k < |avail| ==> avail[k] < |shards| && available[avail[k]]
      requires IsInverse(gf.F, B, SubMatrix(gf.F, E, data, avail), data)
      requires forall i :: 0 <= i < |shards| && !available[i] ==> shards[i] != null
      modifies set i | 0 <= i < |shards| && !available[i] && shards[i] != null :: shards[i]
      ensures Intact(X, available, C) ==> Contents(gf, shards, size) == C
    {
      ghost var D' := RebuiltData(X, available, avail, B, size);
      ghost var T := Rebuilt(E, X, available, D', size);
      RebuiltEntries(E, X, available, D', size, T);
      if Intact(X, available, C) {
        RebuiltDataIsRight(E, D, C, X, available, avail, B, size);
        RebuiltIsRight(E, D, C, X, available, size);
      }
      ghost var Y := RecoverData(shards, available, avail[..data], inv, size, E, B, Selected(X, avail, data), X, T);
      RecoverParity(shards, available, size, E, D', Y, T);
    }

    /** Allocate what is missing; the shards that are available keep their contents. */
    method Prepare(
      shards: array<array?<u8>>, available: seq<bool>, size: nat, ghost E: Matrix<u8>, ghost Z: seq<Block>)
      returns (ghost X: seq<Block>)
      requires Valid() && E == Rows(enc)
      requires shards.Length == |available| && Apart(shards, size) && Contents(gf, shards[..], size) == Z
      modifies shards
      ensures Valid() && E == Rows(enc) && Apart(shards, size)
      ensures forall i :: 0 <= i < shards.Length && !available[i] ==>
        shards[i] != null && (shards[i] == old(shards[i]) || fresh(shards[i]))
      ensures Contents(gf, shards[..], size) == X && IsBlocks(X, shards.Length, size)
      ensures forall i :: 0 <= i < shards.Length && available[i] ==> X[i] == Z[i]
    {
      ContentsAre(gf, shards[..], size);
      AllocateMissing(shards, available, size);
      X := Contents(gf, shards[..], size);
      ContentsAre(gf, shards[..], size);
    }

    /** All data shards are there: allocate and rebuild the missing parity. */
    method FinishParity(
      shards: array<array?<u8>>, available: seq<bool>, size: nat,
      ghost E: Matrix<u8>, ghost D: seq<Block>, ghost C: seq<Block>, ghost Z: seq<Block>)
      requires Valid() && E == Rows(enc) && Encodes(E, D, C, size) && shards.Length == data + parity == |available|
      requires Apart(shards, size) && Contents(gf, shards[..], size) == Z
      requires forall i :: 0 <= i < data ==> available[i]
      modifies shards, set i | 0 <= i < shards.Length && !available[i] && shards[i] != null :: shards[i]
      ensures Apart(shards, size)
      ensures Intact(Z, available, C) ==> Contents(gf, shards[..], size) == C
    {
      ghost var X := Prepare(shards, available, size, E, Z);
      DecodeParity(shards[..], available, size, E, D, C, X);
    }

    /** Data shards are missing: allocate and rebuild with the inverse. */
    method FinishWith(
      shards: array<array?<u8>>, available: seq<bool>, avail: seq<nat>, inv: array2<u8>, size: nat,
      ghost E: Matrix<u8>, ghost B: Matrix<u8>, ghost D: seq<Block>, ghost C: seq<Block>, ghost Z: seq<Block>)
      requires Valid() && E == Rows(enc) && Encodes(E, D, C, size) && shards.Length == data + parity == |available|
      requires Apart(shards, size) && Contents(gf, shards[..], size) == Z
      requires inv.Length0 == data && inv.Length1 == data && B == Rows(inv)
      requires |avail| >= data && forall k :: 0 <= k < |avail| ==> avail[k] < shards.Length && available[avail[k]]
      requires IsInverse(gf.F, B, SubMatrix(gf.F, E, data, avail), data)
      modifies shards, set i | 0 <= i < shards.Length && !available[i] && shards[i] != null :: shards[i]
      ensures Apart(shards, size)
      ensures Intact(Z, available, C) ==> Contents(gf, shards[..], size) == C
    {
      ghost var X := Prepare(shards, available, size, E, Z);
      DecodeWith(shards[..], available, avail, inv, size, E, B, D, C, X);
    }

    /** Invert the rows of the first available shards. */
    method InvertSubMatrix(avail: seq<nat>, ghost E: Matrix<u8>)
      returns (ret: int, inv: array2<u8>, ghost B: Matrix<u8>)
      requires Valid() && E == Rows(enc) && |avail| >= data && forall k :: 0 <= k < |avail| ==> avail[k] < data + parity
      ensures fresh(inv) && inv.Length0 == data && inv.Length1 == data && B == Rows(inv)
      ensures ret == 0 || ret == EINVAL
      ensures ret == 0 ==> IsInverse(gf.F, B, SubMatrix(gf.F, E, data, avail), data)
      ensures ret == 0 <==> !Dependent(gf.F, SubMatrix(gf.F, E, data, avail), data, data)
    {
      inv := BuildSubMatrix(enc, avail, data, gf.F);
      ret := Invert(gf, inv);
      B := Rows(inv);
    }

    /** Data shards are missing: invert and, if that works, rebuild. */
    method DecodeData(
      shards: array<array?<u8>>, available: seq<bool>, avail: seq<nat>, size: nat,
      ghost E: Matrix<u8>, ghost D: seq<Block>, ghost C: seq<Block>, ghost Z: seq<Block>) returns (ret: int)
      requires Valid() && E == Rows(enc) && Encodes(E, D, C, size) && shards.Length == data + parity == |available|
      requires Apart(shards, size) && Contents(gf, shards[..], size) == Z
      requires |avail| >= data && forall k :: 0 <= k < |avail| ==> avail[k] < shards.Length && available[avail[k]]
      modifies shards, set i | 0 <= i < shards.Length && !available[i] && shards[i] != null :: shards[i]
      ensures Apart(shards, size)
      ensures ret == 0 || ret == EINVAL
      ensures ret == 0 <==> !Dependent(gf.F, SubMatrix(gf.F, E, data, avail), data, data)
      ensures ret != 0 ==> Untouched(shards)
      ensures ret == 0 && Intact(Z, available, C) ==> Contents(gf, shards[..], size) == C
    {
      var inv: array2<u8>;
      ghost var B;
      ret, inv, B := InvertSubMatrix(avail, E);
      if ret == 0 {
        FinishWith(shards, available, avail, inv, size, E, B, D, C, Z);
      }
    }

    /** Neither the pointers nor the buffers have changed. */
    twostate predicate Untouched(shards: array<array?<u8>>)
      reads shards, shards[..]
    {
      && unchanged(shards)
      && forall i :: 0 <= i < shards.Length && shards[i] != null ==> shards[i][..] == old(shards[i][..])
    }

    /**
     * powerfs_ec_decode. It succeeds exactly on the recoverable loss patterns, and when the available
     * shards carry a codeword it leaves that codeword in all shards.
     */
    method Decode(
      shards: array<array?<u8>>, available: seq<bool>, size: nat,
      ghost E: Matrix<u8>, ghost D: seq<Block>, ghost C: seq<Block>, ghost Z: seq<Block>)
      returns (ret: int)
      requires Valid() && E == Rows(enc) && Encodes(E, D, C, size)
      requires shards.Length == data + parity == |available|
      requires Apart(shards, size) && Contents(gf, shards[..], size) == Z
      modifies shards, set i | 0 <= i < shards.Length && !available[i] && shards[i] != null :: shards[i]
      ensures Apart(shards, size)
      ensures ret == 0 || ret == EINVAL || ret == EBADMSG
      ensures ret == 0 <==> Recoverable(E, available)
      ensures ret == EBADMSG <==> |Indices(available, |available|, true)| < data
      ensures ret != 0 ==> Untouched(shards)
      ensures ret == 0 && Intact(Z, available, C) ==> Contents(gf, shards[..], size) == C
    {
      var enough, avail, missing := Survey(available, data);
      if !enough {
        return EBADMSG;
      }
      if missing == [] {
        FinishParity(shards, available, size, E, D, C, Z);
        return 0;
      }
      ret := DecodeData(shards, available, avail, size, E, D, C, Z);
    }
  }
}
