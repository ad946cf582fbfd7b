/** What loading an ELF image means: every byte of a loadable segment comes from its place
    in the file, and the rest of memory stays as it is. */
module ElfImage {
  import opened Bytes

  /** The fields of a program header that matter; load is PT_LOAD. */
  datatype Segment = Segment(load: bool, offset: nat, filesz: nat, paddr: nat, memsz: nat)

  predicate Loads(s: Segment)
  {
    s.load && s.filesz > 0
  }

  predicate Apart(a: nat, n: nat, b: nat, m: nat)
  {
    a + n <= b || b + m <= a
  }

  /** Every segment is at least as large in memory as in the file, and fits in memory. */
  ghost predicate InMemory(phdrs: seq<Segment>, k: nat, size: nat)
    requires k <= |phdrs|
  {
    forall i :: 0 <= i < k && phdrs[i].load ==>
      phdrs[i].filesz <= phdrs[i].memsz && phdrs[i].paddr + phdrs[i].memsz <= size
  }

  /** Segments do not overlap, in the file or in memory, and are in the file completely. */
  ghost predicate Arranged(phdrs: seq<Segment>, image: seq<byte>)
  {
    && (forall i :: 0 <= i < |phdrs| && Loads(phdrs[i]) ==> phdrs[i].offset + phdrs[i].filesz <= |image|)
    && (forall i, j :: 0 <= i < j < |phdrs| && phdrs[i].load && phdrs[j].load ==>
          && Apart(phdrs[i].paddr, phdrs[i].memsz, phdrs[j].paddr, phdrs[j].memsz)
          && (Loads(phdrs[i]) && Loads(phdrs[j]) ==>
                Apart(phdrs[i].offset, phdrs[i].filesz, phdrs[j].offset, phdrs[j].filesz)))
  }

  ghost predicate Sane(phdrs: seq<Segment>, image: seq<byte>, size: nat)
  {
    InMemory(phdrs, |phdrs|, size) && Arranged(phdrs, image)
  }

  /** Byte x of segment i has its place in the file before p. */
  predicate Before(phdrs: seq<Segment>, p: nat, i: int, x: int)
  {
    0 <= i < |phdrs| && Loads(phdrs[i]) && 0 <= x < phdrs[i].filesz && phdrs[i].offset + x < p
  }

  ghost predicate Covered(phdrs: seq<Segment>, p: nat, a: int)
  {
    exists i :: 0 <= i < |phdrs| && Before(phdrs, p, i, a - phdrs[i].paddr)
  }

  /** Everything that lies before p in the file has been loaded, and nothing else. */
  ghost predicate Progress(mem: seq<byte>, was: seq<byte>, image: seq<byte>, phdrs: seq<Segment>, p: nat)
  {
    && |mem| == |was| && Sane(phdrs, image, |mem|)
    && (forall i, x :: Before(phdrs, p, i, x) ==> mem[phdrs[i].paddr + x] == image[phdrs[i].offset + x])
    && (forall a :: 0 <= a < |mem| && !Covered(phdrs, p, a) ==> mem[a] == was[a])
  }

  /** p is not in the middle of a segment. */
  ghost predicate Between(phdrs: seq<Segment>, p: nat)
  {
    forall i :: 0 <= i < |phdrs| && Loads(phdrs[i]) ==> !(phdrs[i].offset < p < phdrs[i].offset + phdrs[i].filesz)
  }

  /** Segment i is the next in the file from p on. */
  ghost predicate NextFrom(phdrs: seq<Segment>, p: nat, i: int)
  {
    && 0 <= i < |phdrs| && Loads(phdrs[i]) && phdrs[i].offset >= p
    && forall j :: 0 <= j < |phdrs| && Loads(phdrs[j]) && phdrs[j].offset >= p ==> phdrs[i].offset <= phdrs[j].offset
  }

  ghost predicate NoneFrom(phdrs: seq<Segment>, p: nat)
  {
    forall j :: 0 <= j < |phdrs| && Loads(phdrs[j]) ==> phdrs[j].offset < p
  }

  /** Nothing of a segment is skipped on the way to the next one. */
  lemma SkipAhead(mem: seq<byte>, was: seq<byte>, image: seq<byte>, phdrs: seq<Segment>, p: nat, i: int)
    requires Progress(mem, was, image, phdrs, p) && Between(phdrs, p) && NextFrom(phdrs, p, i)
    ensures Progress(mem, was, image, phdrs, phdrs[i].offset)
  {
    var q := phdrs[i].offset;
    forall j, x ensures Before(phdrs, q, j, x) <==> Before(phdrs, p, j, x) {
    }
    forall a ensures Covered(phdrs, q, a) <==> Covered(phdrs, p, a) {
    }
  }

  /** A chunk of segment i, copied to where it belongs. */
  lemma CopyAhead(mem: seq<byte>, mem': seq<byte>, was: seq<byte>, image: seq<byte>, phdrs: seq<Segment>, p: nat,
                  i: int, n: nat)
    requires Progress(mem, was, image, phdrs, p) && 0 <= i < |phdrs| && Loads(phdrs[i])
    requires phdrs[i].offset <= p && p + n <= phdrs[i].offset + phdrs[i].filesz
    requires |mem'| == |mem|
    requires forall a :: 0 <= a < |mem| ==>
               mem'[a] == if 0 <= a - phdrs[i].paddr - (p - phdrs[i].offset) < n then image[phdrs[i].offset + a - phdrs[i].paddr] else mem[a]
    ensures Progress(mem', was, image, phdrs, p + n)
  {
    var s, q := phdrs[i], p + n;
    forall j, x | Before(phdrs, q, j, x) ensures mem'[phdrs[j].paddr + x] == image[phdrs[j].offset + x] {
      ByteApart(phdrs, image, |mem|, i, j, x);
      if j != i {
        assert Before(phdrs, p, j, x);
      } else if s.offset + x < p {
        assert Before(phdrs, p, j, x);
      }
    }
    forall a | 0 <= a < |mem| && !Covered(phdrs, q, a) ensures mem'[a] == was[a] {
      assert !Before(phdrs, q, i, a - s.paddr);
      CoveredGrows(phdrs, p, q, a);
    }
  }

  lemma CoveredGrows(phdrs: seq<Segment>, p: nat, q: nat, a: int)
    requires p <= q
    ensures Covered(phdrs, p, a) ==> Covered(phdrs, q, a)
  {
    if Covered(phdrs, p, a) {
      var j :| 0 <= j < |phdrs| && Before(phdrs, p, j, a - phdrs[j].paddr);
      assert Before(phdrs, q, j, a - phdrs[j].paddr);
    }
  }

  /** Bytes of different segments are apart, in memory and in the file. */
  lemma ByteApart(phdrs: seq<Segment>, image: seq<byte>, size: nat, i: int, j: int, x: int)
    requires Sane(phdrs, image, size) && 0 <= i < |phdrs| && 0 <= j < |phdrs| && Loads(phdrs[i]) && Loads(phdrs[j])
    requires 0 <= x < phdrs[j].filesz
    ensures phdrs[j].paddr + x < size && phdrs[j].offset + x < |image|
    ensures i != j ==> !(phdrs[i].paddr <= phdrs[j].paddr + x < phdrs[i].paddr + phdrs[i].memsz)
                       && !(phdrs[i].offset <= phdrs[j].offset + x < phdrs[i].offset + phdrs[i].filesz)
  {
    if i < j {
      assert Apart(phdrs[i].paddr, phdrs[i].memsz, phdrs[j].paddr, phdrs[j].memsz);
    } else if j < i {
      assert Apart(phdrs[j].paddr, phdrs[j].memsz, phdrs[i].paddr, phdrs[i].memsz);
    }
  }

  /** The end of a segment is not in the middle of another. */
  lemma EndIsBetween(phdrs: seq<Segment>, image: seq<byte>, size: nat, i: int)
    requires Sane(phdrs, image, size) && 0 <= i < |phdrs| && Loads(phdrs[i])
    ensures Between(phdrs, phdrs[i].offset + phdrs[i].filesz)
  {
    var p := phdrs[i].offset + phdrs[i].filesz;
    forall j | 0 <= j < |phdrs| && Loads(phdrs[j]) ensures !(phdrs[j].offset < p < phdrs[j].offset + phdrs[j].filesz) {
      if j < i {
        assert Apart(phdrs[j].offset, phdrs[j].filesz, phdrs[i].offset, phdrs[i].filesz);
      } else if i < j {
        assert Apart(phdrs[i].offset, phdrs[i].filesz, phdrs[j].offset, phdrs[j].filesz);
      }
    }
  }

  /** All segments have been loaded. */
  ghost predicate AllLoaded(mem: seq<byte>, was: seq<byte>, image: seq<byte>, phdrs: seq<Segment>)
  {
    Progress(mem, was, image, phdrs, |image|)
  }

  lemma NothingLeft(mem: seq<byte>, was: seq<byte>, image: seq<byte>, phdrs: seq<Segment>, p: nat)
    requires Progress(mem, was, image, phdrs, p) && Between(phdrs, p) && NoneFrom(phdrs, p)
    ensures AllLoaded(mem, was, image, phdrs)
  {
    var q := |image|;
    forall j, x ensures Before(phdrs, q, j, x) <==> Before(phdrs, p, j, x) {
    }
    forall a ensures Covered(phdrs, q, a) <==> Covered(phdrs, p, a) {
    }
  }

  lemma NothingYet(mem: seq<byte>, image: seq<byte>, phdrs: seq<Segment>)
    requires Sane(phdrs, image, |mem|)
    ensures Progress(mem, mem, image, phdrs, 0) && Between(phdrs, 0)
  {
  }

  // --------------------------------------------------------- preparing the memory

  /** Address a is in the part of segment i that the file does not fill. */
  predicate InBss(s: Segment, a: int)
  {
    s.load && s.paddr + s.filesz <= a < s.paddr + s.memsz
  }

  predicate InSegment(s: Segment, a: int)
  {
    s.load && s.paddr <= a < s.paddr + s.memsz
  }

  /** The first k segments have their bss zeroed, and nothing else has changed. */
  ghost predicate Prepared(mem: seq<byte>, initial: seq<byte>, phdrs: seq<Segment>, k: nat)
    requires k <= |phdrs|
  {
    && |mem| == |initial|
    && (forall i, a :: 0 <= i < k && 0 <= a < |mem| && InBss(phdrs[i], a) ==> mem[a] == 0)
    && (forall a :: 0 <= a < |mem| && (forall i :: 0 <= i < k ==> !InBss(phdrs[i], a)) ==> mem[a] == initial[a])
  }

  lemma PreparedMore(mem: seq<byte>, mem': seq<byte>, initial: seq<byte>, phdrs: seq<Segment>, k: nat)
    requires k < |phdrs| && Prepared(mem, initial, phdrs, k) && |mem'| == |mem|
    requires forall a :: 0 <= a < |mem| ==> mem'[a] == if InBss(phdrs[k], a) then 0 else mem[a]
    ensures Prepared(mem', initial, phdrs, k + 1)
  {
  }

  /** What the loader is for: each loadable segment holds its bytes of the file and then
      zeros, and the rest of memory is untouched. */
  ghost predicate Loaded(mem: seq<byte>, initial: seq<byte>, image: seq<byte>, phdrs: seq<Segment>)
  {
    && |mem| == |initial| && Sane(phdrs, image, |mem|)
    && (forall i, x :: 0 <= i < |phdrs| && phdrs[i].load && 0 <= x < phdrs[i].memsz ==> ByteLoaded(mem, image, phdrs[i], x))
    && (forall a :: 0 <= a < |mem| && (forall i :: 0 <= i < |phdrs| ==> !InSegment(phdrs[i], a)) ==> mem[a] == initial[a])
  }

  ghost predicate ByteLoaded(mem: seq<byte>, image: seq<byte>, s: Segment, x: nat)
    requires s.load && x < s.memsz && s.paddr + s.memsz <= |mem| && (s.filesz > 0 ==> s.offset + s.filesz <= |image|)
  {
    mem[s.paddr + x] == if x < s.filesz then image[s.offset + x] else 0
  }

  lemma LoadedAtLast(mem: seq<byte>, was: seq<byte>, initial: seq<byte>, image: seq<byte>, phdrs: seq<Segment>)
    requires AllLoaded(mem, was, image, phdrs) && Prepared(was, initial, phdrs, |phdrs|)
    ensures Loaded(mem, initial, image, phdrs)
  {
    forall i, x | 0 <= i < |phdrs| && phdrs[i].load && 0 <= x < phdrs[i].memsz ensures ByteLoaded(mem, image, phdrs[i], x) {
      var s := phdrs[i];
      if x < s.filesz {
        assert Before(phdrs, |image|, i, x);
      } else {
        BssUncovered(phdrs, image, |mem|, i, s.paddr + x);
        assert InBss(s, s.paddr + x);
      }
    }
    forall a | 0 <= a < |mem| && (forall i :: 0 <= i < |phdrs| ==> !InSegment(phdrs[i], a)) ensures mem[a] == initial[a] {
      OutsideUncovered(phdrs, image, |mem|, a);
    }
  }

  lemma BssUncovered(phdrs: seq<Segment>, image: seq<byte>, size: nat, i: int, a: int)
    requires Sane(phdrs, image, size) && 0 <= i < |phdrs| && InBss(phdrs[i], a)
    ensures !Covered(phdrs, |image|, a)
  {
    forall j | 0 <= j < |phdrs| ensures !Before(phdrs, |image|, j, a - phdrs[j].paddr) {
      if j < i && phdrs[j].load {
        assert Apart(phdrs[j].paddr, phdrs[j].memsz, phdrs[i].paddr, phdrs[i].memsz);
      } else if i < j && phdrs[j].load {
        assert Apart(phdrs[i].paddr, phdrs[i].memsz, phdrs[j].paddr, phdrs[j].memsz);
      }
    }
  }

  lemma OutsideUncovered(phdrs: seq<Segment>, image: seq<byte>, size: nat, a: int)
    requires Sane(phdrs, image, size) && forall i :: 0 <= i < |phdrs| ==> !InSegment(phdrs[i], a)
    ensures !Covered(phdrs, |image|, a) && forall i :: 0 <= i < |phdrs| ==> !InBss(phdrs[i], a)
  {
    forall i | 0 <= i < |phdrs| ensures !InBss(phdrs[i], a) && !Before(phdrs, |image|, i, a - phdrs[i].paddr) {
      assert !InSegment(phdrs[i], a);
    }
  }
}
