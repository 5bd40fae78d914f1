/** The disk layer (kernel/src/dev/dev_sd.c): byte ranges over whole-block transfers. */
module Sd {
  import opened Arith
  import opened Bits

  const INT_MAX := 0x7fff_ffff

  // ------------------------------------------------------------------ flat contents

  // s' is s with data written at at.
  ghost predicate Spliced(s': seq<int>, s: seq<int>, at: nat, data: seq<int>) {
    && |s'| == |s| && at + |data| <= |s|
    && (forall i {:trigger s'[i]} :: 0 <= i < |s| ==> s'[i] == if at <= i < at + |data| then data[i - at] else s[i])
  }

  // What is written is what is read, and only that changes.
  lemma ReadAfterWrite(s': seq<int>, s: seq<int>, at: nat, data: seq<int>, from: nat, n: nat)
    requires Spliced(s', s, at, data) && from + n <= |s|
    ensures s' == s[..at] + data + s[at + |data|..]
    ensures from == at && n == |data| ==> s'[from..from + n] == data
    ensures from + n <= at || at + |data| <= from ==> s'[from..from + n] == s[from..from + n]
  {
    var x := s'[from..from + n];
    if from == at && n == |data| {
      forall i | 0 <= i < n
        ensures x[i] == data[i]
      {}
    }
    if from + n <= at || at + |data| <= from {
      var y := s[from..from + n];
      forall i | 0 <= i < n
        ensures x[i] == y[i]
      {}
    }
  }

  // Two writes to ranges that follow each other are one.
  lemma SplicedOn(s: seq<int>, s': seq<int>, s'': seq<int>, at: nat, a: seq<int>, b: seq<int>, ab: seq<int>)
    requires Spliced(s', s, at, a) && Spliced(s'', s', at + |a|, b) && ab == a + b
    ensures Spliced(s'', s, at, ab)
  {}

  // Writing into a part of s and putting the part back is writing into s.
  lemma SplicedIn(s: seq<int>, s': seq<int>, st: nat, part: seq<int>, part': seq<int>, o: nat, data: seq<int>)
    requires st + |part| <= |s| && part == s[st..st + |part|]
    requires Spliced(part', part, o, data) && Spliced(s', s, st, part')
    ensures Spliced(s', s, st + o, data)
  {}

  lemma SliceSlice(s: seq<int>, a: nat, sz: nat, o: nat, n: nat)
    requires a + sz <= |s| && o + n <= sz
    ensures s[a..a + sz][o..o + n] == s[a + o..a + o + n]
  {
    var x, y := s[a..a + sz][o..o + n], s[a + o..a + o + n];
    forall i | 0 <= i < n
      ensures x[i] == y[i]
    {}
  }

  lemma SlicesJoin(s: seq<int>, a: nat, p: nat, n: nat)
    requires a + p + n <= |s|
    ensures s[a..a + p] + s[a + p..a + p + n] == s[a..a + (p + n)]
  {}

  // ------------------------------------------------------------------------ blocks

  // Where block q starts.
  ghost function Start(sz: nat, q: nat): nat { if q == 0 then 0 else Start(sz, q - 1) + sz }

  lemma {:induction false} StartIs(sz: nat, q: nat)
    ensures Start(sz, q) == sz * q
  {
    if q > 0 { StartIs(sz, q - 1); Next(sz, q - 1); }
  }

  lemma Next(sz: nat, q: nat)
    ensures sz * (q + 1) == sz * q + sz
  {}

  lemma {:induction false} StartMono(sz: nat, q: nat, p: nat)
    requires q <= p
    ensures Start(sz, q) <= Start(sz, p)
  {
    if q < p { StartMono(sz, q, p - 1); }
  }

  // The disk as one array of bytes.
  ghost function Concat(blocks: seq<seq<int>>): seq<int> {
    if blocks == [] then [] else Concat(blocks[..|blocks| - 1]) + blocks[|blocks| - 1]
  }

  ghost predicate Uniform(blocks: seq<seq<int>>, sz: nat) {
    forall b {:trigger blocks[b]} :: 0 <= b < |blocks| ==> |blocks[b]| == sz
  }

  lemma {:induction false} ConcatLength(blocks: seq<seq<int>>, sz: nat)
    requires Uniform(blocks, sz)
    ensures |Concat(blocks)| == Start(sz, |blocks|)
  {
    if blocks != [] { ConcatLength(blocks[..|blocks| - 1], sz); }
  }

  lemma {:induction false} ConcatBlock(blocks: seq<seq<int>>, sz: nat, q: nat)
    requires Uniform(blocks, sz) && q < |blocks|
    ensures Start(sz, q) + sz <= |Concat(blocks)|
    ensures Concat(blocks)[Start(sz, q)..Start(sz, q) + sz] == blocks[q]
  {
    var rest := blocks[..|blocks| - 1];
    ConcatLength(rest, sz);
    if q < |rest| { ConcatBlock(rest, sz, q); }
  }

  // Byte sz * q + r of the disk is byte r of block q.
  lemma ConcatByte(blocks: seq<seq<int>>, sz: nat, q: nat, r: nat)
    requires Uniform(blocks, sz) && q < |blocks| && r < sz
    ensures sz * q + r < |Concat(blocks)| && Concat(blocks)[sz * q + r] == blocks[q][r]
  {
    StartIs(sz, q);
    ConcatBlock(blocks, sz, q);
    var st := Start(sz, q);
    assert Concat(blocks)[st..st + sz][r] == Concat(blocks)[st + r];
  }

  lemma {:induction false} ConcatUpdate(blocks: seq<seq<int>>, sz: nat, q: nat, b: seq<int>)
    requires Uniform(blocks, sz) && q < |blocks| && |b| == sz
    ensures Start(sz, q) + sz <= |Concat(blocks)|
    ensures Spliced(Concat(blocks[q := b]), Concat(blocks), Start(sz, q), b)
  {
    var rest := blocks[..|blocks| - 1];
    ConcatLength(rest, sz);
    assert Concat(blocks) == Concat(rest) + blocks[|blocks| - 1];
    if q < |rest| {
      ConcatUpdate(rest, sz, q, b);
      assert blocks[q := b][..|blocks| - 1] == rest[q := b];
      assert Concat(blocks[q := b]) == Concat(rest[q := b]) + blocks[|blocks| - 1];
    } else {
      assert blocks[q := b][..|blocks| - 1] == rest;
    }
  }

  // ------------------------------------------------------------------------ the driver

  class Disk {
    const blksz: nat
    const log: nat                  // blksz is a power of two
    const blocks: array<seq<int>>   // the medium, block by block
    const buf: array<int>           // sd->buf

    ghost predicate Valid()
      reads blocks
    {
      0 < blksz == Pow2(log) && log <= 31 && buf.Length == blksz && Uniform(blocks[..], blksz)
    }

    ghost function Flat(): seq<int>
      reads blocks
    {
      Concat(blocks[..])
    }

    // blk_read(sd->buf, b, 1)
    method BlkRead(b: int)
      requires Valid() && 0 <= b < blocks.Length
      modifies buf
      ensures buf[..] == blocks[b]
    {
      forall i | 0 <= i < blksz { buf[i] := blocks[b][i]; }
    }

    // blk_write(sd->buf, b, 1)
    method BlkWrite(b: int)
      requires Valid() && 0 <= b < blocks.Length
      modifies blocks
      ensures blocks[..] == old(blocks[..])[b := buf[..]]
    {
      blocks[b] := buf[..];
    }

    method MemCpy(dst: array<int>, d: nat, src: array<int>, from: nat, n: nat)
      requires dst != src && d + n <= dst.Length && from + n <= src.Length
      modifies dst
      ensures Spliced(dst[..], old(dst[..]), d, src[..][from..from + n])
    {
      forall j | d <= j < d + n { dst[j] := src[from + (j - d)]; }
    }

    // ROUNDDOWN(offset, sd->blksz): the mask has the 32 bits of blksz.
    function RoundDown(offset: nat): nat
      requires blksz <= Pow2(32)
    {
      And(offset, Pow2(32) - blksz)
    }

    lemma RoundDownIs(offset: nat) returns (q: nat)
      requires Valid() && offset <= INT_MAX
      ensures blksz <= Pow2(32) && RoundDown(offset) == Start(blksz, q) <= offset < Start(blksz, q) + blksz
    {
      assert Pow2(32) == 0x1_0000_0000 by { Pow2Values(); }
      Pow2Mono(log, 32);
      AndComplement(offset, 32, log);
      Split(offset, log);
      q := Shr(offset, log);
      StartIs(blksz, q);
      Commute(q, blksz);
    }

    method BlockStart(offset: nat) returns (st: nat, ghost q: nat)
      requires Valid() && offset <= INT_MAX
      ensures st == Start(blksz, q) <= offset < st + blksz
    {
      q := RoundDownIs(offset);
      st := RoundDown(offset);
    }

    // The block that starts at st and holds a byte of the disk.
    lemma BlockAt(st: nat, q: nat, offset: nat)
      requires Valid() && st == Start(blksz, q) <= offset < |Flat()|
      ensures q < blocks.Length && st / blksz == q && st + blksz <= |Flat()|
      ensures Flat()[st..st + blksz] == blocks[q]
    {
      ConcatLength(blocks[..], blksz);
      if q >= blocks.Length { StartMono(blksz, blocks.Length, q); }
      StartIs(blksz, q);
      DivUnique(st, blksz, q, 0);
      ConcatBlock(blocks[..], blksz, q);
    }

    // blk_read(sd->buf, st / sd->blksz, 1)
    method Load(st: nat, ghost q: nat)
      requires Valid() && st == Start(blksz, q) < |Flat()|
      modifies buf
      ensures q < blocks.Length && buf[..] == blocks[q]
    {
      BlockAt(st, q, st);
      BlkRead(st / blksz);
    }

    // blk_write(sd->buf, st / sd->blksz, 1)
    method Store(st: nat, ghost q: nat)
      requires Valid() && st == Start(blksz, q) < |Flat()|
      modifies blocks
      ensures q < blocks.Length && blocks[..] == old(blocks[..])[q := buf[..]] && Valid()
      ensures Spliced(Flat(), old(Flat()), st, buf[..])
    {
      BlockAt(st, q, st);
      BlkWrite(st / blksz);
      ConcatUpdate(old(blocks[..]), blksz, q, buf[..]);
    }

    // sd_read's step: n more bytes, from the block at st.
    method ReadChunk(out: array<int>, start: nat, pos: nat, st: nat, n: nat, ghost q: nat, ghost out0: seq<int>,
                     ghost flat: seq<int>)
      requires Valid() && out != buf && 0 < n && pos + n <= out.Length && start + pos + n <= |Flat()|
      requires st == Start(blksz, q) <= start + pos && start + pos + n <= st + blksz
      requires flat == Flat() && Spliced(out[..], out0, 0, flat[start..start + pos])
      modifies buf, out
      ensures Spliced(out[..], out0, 0, flat[start..start + (pos + n)])
    {
      ghost var was, at := out[..], start + pos - st;
      BlockAt(st, q, start + pos);
      Load(st, q);
      MemCpy(out, pos, buf, start + pos - st, n);
      SliceSlice(flat, st, blksz, at, n);
      SlicesJoin(flat, start, pos, n);
      ghost var done, next := flat[start..start + pos], flat[start + pos..start + pos + n];
      SplicedOn(out0, was, out[..], 0, done, next, done + next);
    }

    // sd_read
    method Read(start: nat, out: array<int>, count: nat) returns (pos: nat)
      requires Valid() && start + count <= |Flat()| && start + count <= INT_MAX
      requires count <= out.Length && out != buf
      modifies buf, out
      ensures pos == count && Spliced(out[..], old(out[..]), 0, Flat()[start..start + count])
    {
      pos := 0;
      ghost var out0, flat := out[..], Flat();
      var offset: nat := start;
      var st, q := BlockStart(start);
      while pos < count
        invariant pos <= count && (pos < count ==> offset == start + pos)
        invariant st == Start(blksz, q) && (pos < count ==> st <= offset < st + blksz)
        invariant Spliced(out[..], out0, 0, flat[start..start + pos])
        decreases count - pos
      {
        var n := blksz - (offset - st);
        if n > count - pos { n := count - pos; }
        ReadChunk(out, start, pos, st, n, q, out0, flat);
        pos := pos + n;
        offset := st + blksz;
        st, q := offset, q + 1;
      }
    }

    // sd_write's step: n bytes into the block at st; a block that is not wholly overwritten is
    // read first.
    method WriteChunk(data: array<int>, pos: nat, offset: nat, st: nat, n: nat, ghost q: nat, ghost chunk: seq<int>)
      requires Valid() && data != buf && 0 < n && pos + n <= data.Length && chunk == data[..][pos..pos + n]
      requires st == Start(blksz, q) <= offset && offset + n <= st + blksz && offset + n <= |Flat()|
      modifies buf, blocks
      ensures Valid() && Spliced(Flat(), old(Flat()), offset, chunk)
    {
      BlockAt(st, q, offset);
      ghost var flat, block := Flat(), blocks[q];
      if n < blksz {
        Load(st, q);
      }
      MemCpy(buf, offset - st, data, pos, n);
      assert Spliced(buf[..], block, offset - st, chunk);
      Store(st, q);
      SplicedIn(flat, Flat(), st, block, buf[..], offset - st, chunk);
    }

    // ... and what has been written so far.
    method WriteNext(data: array<int>, start: nat, pos: nat, st: nat, n: nat, ghost q: nat, ghost flat: seq<int>,
                     ghost bytes: seq<int>)
      requires Valid() && data != buf && 0 < n && pos + n <= data.Length && data[..] == bytes
      requires st == Start(blksz, q) <= start + pos && start + pos + n <= st + blksz && start + pos + n <= |Flat()|
      requires Spliced(Flat(), flat, start, bytes[0..0 + pos])
      modifies buf, blocks
      ensures Valid() && Spliced(Flat(), flat, start, bytes[0..0 + (pos + n)])
    {
      ghost var was, done, next := Flat(), bytes[0..0 + pos], bytes[0 + pos..0 + pos + n];
      WriteChunk(data, pos, start + pos, st, n, q, next);
      SlicesJoin(bytes, 0, pos, n);
      SplicedOn(flat, was, Flat(), start, done, next, done + next);
    }

    // sd_write
    method Write(start: nat, data: array<int>, count: nat) returns (pos: nat)
      requires Valid() && start + count <= |Flat()| && start + count <= INT_MAX
      requires count <= data.Length && data != buf
      modifies buf, blocks
      ensures Valid() && pos == count && Spliced(Flat(), old(Flat()), start, old(data[..])[0..count])
    {
      pos := 0;
      ghost var flat, bytes := Flat(), data[..];
      var offset: nat := start;
      var st, q := BlockStart(start);
      while pos < count
        invariant Valid() && pos <= count && (pos < count ==> offset == start + pos) && data[..] == bytes
        invariant st == Start(blksz, q) && (pos < count ==> st <= offset < st + blksz)
        invariant Spliced(Flat(), flat, start, bytes[0..0 + pos])
        decreases count - pos
      {
        var n := blksz - (offset - st);
        if n > count - pos { n := count - pos; }
        WriteNext(data, start, pos, st, n, q, flat, bytes);
        pos := pos + n;
        offset := st + blksz;
        st, q := offset, q + 1;
      }
    }
  }
}
