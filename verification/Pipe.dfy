/**
  The pipe of xv6/pipe.c: a ring of 512 bytes with 32-bit counters that wrap, and readers and writers that
  sleep and wake each other under one lock.

  A method is what one process does in one hold of the pipe's lock: from taking it, or being woken, to
  releasing it or going to sleep. Any interleaving of processes is a sequence of such calls.
 */
module Pipe {
  import opened Basics

  type Byte = b: int | 0 <= b < 256

  // ---------------------------------------------------------------- the ring

  /** The counters count all bytes ever, modulo 2^32; the ring holds those written and not yet delivered. */
  ghost predicate RingOk(data: seq<Byte>, nread: Word, nwrite: Word, written: seq<Byte>, delivered: nat) {
    && delivered <= |written| <= delivered + 512 && Held(data, written, delivered)
    && nread == delivered % 0x1_0000_0000 && nwrite == |written| % 0x1_0000_0000
  }

  /** p->nwrite == p->nread + PIPESIZE, in 32-bit arithmetic */
  predicate IsFull(nread: Word, nwrite: Word) {
    nwrite == (nread + 512) % 0x1_0000_0000
  }

  lemma Wraps(d: nat, w: nat)
    requires d <= w <= d + 512
    ensures IsFull(d % 0x1_0000_0000, w % 0x1_0000_0000) <==> w == d + 512
    ensures d % 0x1_0000_0000 == w % 0x1_0000_0000 <==> w == d
  {
    var m := 0x1_0000_0000;
    assert (d % m + 512) % m == (d + 512) % m;
    if w != d + 512 {
      DifferMod(w, d + 512);
    }
    if w != d {
      DifferMod(d, w);
    }
  }

  lemma DifferMod(x: nat, y: nat)
    requires x < y < x + 0x1_0000_0000
    ensures x % 0x1_0000_0000 != y % 0x1_0000_0000
  {
  }

  lemma SlotOf(x: nat)
    ensures x % 0x1_0000_0000 % 512 == x % 512
  {
    var q := x / 0x1_0000_0000;
    assert x == 0x80_0000 * q * 512 + x % 0x1_0000_0000;
    SlotShift(x % 0x1_0000_0000, 0x80_0000 * q);
  }

  lemma SlotShift(x: nat, q: nat)
    ensures (x + q * 512) % 512 == x % 512
  {
  }

  lemma SlotsApart(k: nat, n: nat)
    requires k < n < k + 512
    ensures k % 512 != n % 512
  {
  }

  /** The next count, modulo 2^32. */
  lemma CountNext(x: nat)
    ensures (x % 0x1_0000_0000 + 1) % 0x1_0000_0000 == (x + 1) % 0x1_0000_0000
  {
  }

  ghost predicate Held(data: seq<Byte>, written: seq<Byte>, delivered: nat) {
    |data| == 512 && forall k :: delivered <= k < |written| ==> data[k % 512] == written[k]
  }

  lemma HeldNext(data: seq<Byte>, written: seq<Byte>, delivered: nat, slot: nat, b: Byte)
    requires Held(data, written, delivered) && |written| < delivered + 512 && slot == |written| % 512
    ensures Held(data[slot := b], written + [b], delivered)
  {
    var data', written' := data[slot := b], written + [b];
    forall k | delivered <= k < |written'| ensures data'[k % 512] == written'[k] {
      if k < |written| {
        SlotsApart(k, |written|);
      }
    }
  }

  lemma Put(data: seq<Byte>, nread: Word, nwrite: Word, written: seq<Byte>, delivered: nat, b: Byte)
    requires RingOk(data, nread, nwrite, written, delivered) && !IsFull(nread, nwrite)
    ensures RingOk(data[nwrite % 512 := b], nread, (nwrite + 1) % 0x1_0000_0000, written + [b], delivered)
  {
    Wraps(delivered, |written|);
    SlotOf(|written|);
    CountNext(|written|);
    HeldNext(data, written, delivered, nwrite % 512, b);
  }

  lemma Get(data: seq<Byte>, nread: Word, nwrite: Word, written: seq<Byte>, delivered: nat)
    requires RingOk(data, nread, nwrite, written, delivered) && nread != nwrite
    ensures delivered < |written| && data[nread % 512] == written[delivered]
    ensures RingOk(data, (nread + 1) % 0x1_0000_0000, nwrite, written, delivered + 1)
  {
    Wraps(delivered, |written|);
    SlotOf(delivered);
    CountNext(delivered);
  }

  // ---------------------------------------------------------------- the pipe

  /** How a hold of the lock ends for a writer: all written, asleep, or the error return. */
  datatype WriteEnd = Wrote | WriterSleeps | Broken

  datatype ReadEnd = Got(bytes: seq<Byte>) | ReaderSleeps | ReaderKilled

  class Pipe {
    var data: array<Byte>
    var nread: Word
    var nwrite: Word
    var readopen: bool
    var writeopen: bool
    // who sleeps on &nread and on &nwrite
    ghost var readers: set<nat>
    ghost var writers: set<nat>
    // every byte ever written, and how many of them were delivered
    ghost var written: seq<Byte>
    ghost var delivered: nat

    ghost predicate Ring()
      reads this, data
    {
      RingOk(data[..], nread, nwrite, written, delivered)
    }

    /** A process asleep in a read or write has that end of the pipe open. */
    ghost predicate EndsOk()
      reads this
    {
      (!readopen ==> readers == {}) && (!writeopen ==> writers == {})
    }

    /** What holds whenever the lock is free: the ring is right, and a sleeping writer has no room. */
    ghost predicate Valid()
      reads this, data
    {
      Ring() && EndsOk() && (writers != {} ==> |written| == delivered + 512)
    }

    /** A sleeping reader has nothing to read. */
    ghost predicate ReadersOk()
      reads this
    {
      readers != {} ==> delivered == |written|
    }

    constructor ()
      ensures Valid() && ReadersOk() && written == [] && delivered == 0 && readers == writers == {}
      ensures readopen && writeopen
      ensures fresh(data)
    {
      data := new Byte[512](_ => 0);
      nread, nwrite, readopen, writeopen := 0, 0, true, true;
      readers, writers, written, delivered := {}, {}, [], 0;
    }

    /**
      Writes on from src[i], as far as there is room. It ends asleep exactly when there is too little room, the
      read end is open and the process not killed; every end but the error return wakes the readers. So
      sleeping readers go on having nothing to read, unless a killed process had more to write than the
      pipe holds while one slept.
     */
    method Pipewrite(p: nat, src: seq<Byte>, i: nat, killed: bool) returns (r: WriteEnd, i': nat)
      requires Valid() && writeopen && i <= |src| && p !in writers
      modifies this, data
      ensures Valid() && data == old(data) && delivered == old(delivered)
      ensures readopen == old(readopen) && writeopen == old(writeopen)
      ensures i <= i' <= |src| && written == old(written) + src[i..i']
      ensures r.Wrote? <==> |src| - i <= old(delivered) + 512 - old(|written|)
      ensures r.Broken? <==> !r.Wrote? && (!readopen || killed)
      ensures r.Wrote? ==> i' == |src| && readers == {} && writers == old(writers)
      ensures !r.Wrote? ==> i' < |src| && |written| == delivered + 512
      ensures r.WriterSleeps? ==> readers == {} && writers == old(writers) + {p}
      ensures r.Broken? ==> readers == old(readers) && writers == old(writers)
      ensures old(ReadersOk()) ==> (ReadersOk() <==> !(killed && old(readers) != {} && |src| - i > 512))
    {
      i' := i;
      while i' < |src|
        invariant i <= i' <= |src| && Ring() && data == old(data) && delivered == old(delivered)
        invariant written == old(written) + src[i..i']
        invariant readers == old(readers) && writers == old(writers)
        invariant readopen == old(readopen) && writeopen == old(writeopen)
        invariant EndsOk() && (writers != {} ==> |written| == delivered + 512)
      {
        Wraps(delivered, |written|);
        if IsFull(nread, nwrite) {
          if !readopen || killed {
            return Broken, i';
          }
          readers := {};
          writers := writers + {p};
          return WriterSleeps, i';
        }
        Put(data[..], nread, nwrite, written, delivered, src[i']);
        ghost var was := data[..];
        data[nwrite % 512] := src[i'];
        assert data[..] == was[nwrite % 512 := src[i']];
        nwrite := (nwrite + 1) % 0x1_0000_0000;
        written := written + [src[i']];
        assert src[i..i' + 1] == src[i..i'] + [src[i']];
        i' := i' + 1;
      }
      readers := {};
      return Wrote, i';
    }

    /**
      Sleeps exactly when the pipe is empty with its write end open and the process is not killed; else
      delivers the next bytes in order, as many as asked for or there are.
     */
    method Piperead(p: nat, n: nat, killed: bool) returns (r: ReadEnd)
      requires Valid() && readopen && p !in readers
      modifies this
      ensures Valid() && written == old(written) && data == old(data)
      ensures old(ReadersOk()) ==> ReadersOk()
      ensures readopen == old(readopen) && writeopen == old(writeopen)
      ensures r.Got? <==> old(delivered) < |written| || !writeopen
      ensures old(delivered) <= delivered <= |written|
      ensures r.Got? ==> r.bytes == written[old(delivered)..delivered]
      ensures r.Got? ==> delivered == (if |written| - old(delivered) < n then |written| else old(delivered) + n)
      ensures r.Got? ==> readers == old(readers) && writers == {}
      ensures r.ReaderSleeps? ==> !killed && delivered == old(delivered)
      ensures r.ReaderSleeps? ==> readers == old(readers) + {p} && writers == old(writers)
      ensures r.ReaderKilled? ==> killed && delivered == old(delivered)
      ensures r.ReaderKilled? ==> readers == old(readers) && writers == old(writers)
    {
      Wraps(delivered, |written|);
      if nread == nwrite && writeopen {
        if killed {
          return ReaderKilled;
        }
        readers := readers + {p};
        return ReaderSleeps;
      }
      var bytes, i := [], 0;
      while i < n
        invariant 0 <= i <= n && Ring() && delivered == old(delivered) + i && |bytes| == i
        invariant bytes == written[old(delivered)..delivered]
        invariant written == old(written) && data == old(data) && readers == old(readers) && writers == old(writers)
        invariant readopen == old(readopen) && writeopen == old(writeopen)
        invariant EndsOk() && (old(ReadersOk()) && readers != {} ==> old(delivered) == |written|)
      {
        Wraps(delivered, |written|);
        if nread == nwrite {
          break;
        }
        Get(data[..], nread, nwrite, written, delivered);
        bytes := bytes + [data[nread % 512]];
        nread := (nread + 1) % 0x1_0000_0000;
        delivered := delivered + 1;
        i := i + 1;
      }
      writers := {};
      return Got(bytes);
    }

    /**
      Closing an end, which nobody is then reading or writing through, wakes whoever waits at the other;
      the last close frees the pipe.
     */
    method Pipeclose(writable: bool) returns (freed: bool)
      requires Valid() && if writable then writers == {} else readers == {}
      modifies this
      ensures Valid() && (old(ReadersOk()) ==> ReadersOk())
      ensures written == old(written) && delivered == old(delivered) && data == old(data)
      ensures if writable then !writeopen && readopen == old(readopen) && readers == {} && writers == old(writers)
        else !readopen && writeopen == old(writeopen) && writers == {} && readers == old(readers)
      ensures freed == (!readopen && !writeopen)
    {
      if writable {
        writeopen := false;
        readers := {};
      } else {
        readopen := false;
        writers := {};
      }
      freed := !readopen && !writeopen;
    }

    /** kill wakes a sleeper, whichever it is. */
    ghost method Kill(p: nat)
      requires Valid()
      modifies `readers, `writers
      ensures Valid() && (old(ReadersOk()) ==> ReadersOk())
      ensures readers == old(readers) - {p} && writers == old(writers) - {p}
    {
      readers, writers := readers - {p}, writers - {p};
    }

    /** Readers and writers are never asleep at the same time. */
    lemma NeverBothAsleep()
      requires Valid() && ReadersOk()
      ensures readers == {} || writers == {}
    {
    }
  }

  /** A reader sleeps, a killed writer fills the pipe and leaves: the reader sleeps on with 512 bytes to read. */
  method KilledWriterStrandsReader() returns (p: Pipe)
    ensures fresh(p) && p.readers == {1} && |p.written| == p.delivered + 512 && p.Valid() && !p.ReadersOk()
  {
    p := new Pipe();
    var r := p.Piperead(1, 1, false);
    var w, i := p.Pipewrite(2, seq(513, _ => 7), 0, true);
  }
}
