/**
 * The two passes of cchunks' main over the RANGE arguments: a validation
 * pass that resolves every descriptor and sums the expected output size,
 * and a copy pass that resolves them again and streams each range from
 * the input to the output in blocks of at most RW_BUFFSIZE bytes.
 *
 * The input file is its content, a byte sequence whose length is in_size;
 * the output is the sequence of bytes written so far. Seeking, reading and
 * writing are slicing and appending; whether each of them fails is not
 * decided by the program, so the model leaves it open (a nondeterministic
 * choice) and its contracts hold for every outcome.
 */
module CopyDriver {
  import opened Options
  import opened SafeArith
  import opened RangeResolver

  /** RW_BUFFSIZE: one read and one write move at most 512 KiB. */
  const RW_BUFFSIZE: nat := 512 * 1024

  /** How a run ends. */
  datatype Status =
    | Done                       // every range copied
    | InvalidRange(index: nat)   // the descriptor at `index` does not resolve
    | SeekFailed(offset: int)    // the input could not be positioned at `offset`
    | ReadFailed                 // a read returned fewer bytes than asked, or an error
    | WriteFailed                // a write took fewer bytes than given

  /** The TO of the last range, or 0 before the first: the prev_to threaded through both passes. */
  function LastTo(rs: seq<Range>): Off {
    if rs == [] then 0 else rs[|rs| - 1].to
  }

  predicate WithinInput(rs: seq<Range>, size: int) {
    forall k :: 0 <= k < |rs| ==> 0 <= rs[k].from <= rs[k].to <= size
  }

  /**
   * The ranges the descriptors denote, in argument order, each resolved
   * against the TO of the one before it; None when any descriptor fails.
   */
  function ResolveAll(inSize: Off, descs: seq<string>): (r: Option<seq<Range>>)
    ensures r.Some? ==> |r.value| == |descs|
    ensures r.Some? && inSize >= 0 ==> WithinInput(r.value, inSize)
  {
    if descs == [] then Some([])
    else
      match ResolveAll(inSize, descs[..|descs| - 1])
      case None => None
      case Some(rs) =>
        match Resolve(inSize, LastTo(rs), descs[|descs| - 1])
        case None => None
        case Some(r) =>
          Some(rs + [r])
  }

  /** The number of bytes the ranges cover (expected_output_size). */
  function TotalLength(rs: seq<Range>): int {
    if rs == [] then 0 else TotalLength(rs[..|rs| - 1]) + (rs[|rs| - 1].to - rs[|rs| - 1].from)
  }

  /** The bytes of the ranges, one after another, overlaps copied again each time. */
  function Extract(input: seq<bv8>, rs: seq<Range>): (out: seq<bv8>)
    requires WithinInput(rs, |input|)
    ensures |out| == TotalLength(rs)
  {
    if rs == [] then []
    else Extract(input, rs[..|rs| - 1]) + input[rs[|rs| - 1].from..rs[|rs| - 1].to]
  }

  /** Resolving a prefix of the descriptors gives the prefix of the ranges. */
  lemma {:induction false} ResolveAllPrefix(inSize: Off, descs: seq<string>, i: nat)
    requires i <= |descs| && ResolveAll(inSize, descs).Some?
    ensures ResolveAll(inSize, descs[..i]) == Some(ResolveAll(inSize, descs).value[..i])
    decreases |descs|
  {
    var rs := ResolveAll(inSize, descs).value;
    if i == |descs| {
      assert descs[..i] == descs;
      assert rs[..i] == rs;
    } else {
      var init := descs[..|descs| - 1];
      assert init[..i] == descs[..i];
      ResolveAllPrefix(inSize, init, i);
      assert ResolveAll(inSize, init).value == rs[..|rs| - 1];
      assert rs[..|rs| - 1][..i] == rs[..i];
    }
  }

  /** When a prefix fails to resolve, so does the whole list. */
  lemma {:induction false} ResolveAllFailsAfterPrefix(inSize: Off, descs: seq<string>, i: nat)
    requires i <= |descs| && ResolveAll(inSize, descs[..i]).None?
    ensures ResolveAll(inSize, descs).None?
  {
    if ResolveAll(inSize, descs).Some? {
      ResolveAllPrefix(inSize, descs, i);
    }
  }

  /** The output for a prefix of the ranges is a prefix of the output for all of them. */
  lemma {:induction false} ExtractPrefix(input: seq<bv8>, rs: seq<Range>, i: nat)
    requires WithinInput(rs, |input|) && i <= |rs|
    ensures WithinInput(rs[..i], |input|)
    ensures Extract(input, rs[..i]) <= Extract(input, rs)
    decreases |rs|
  {
    if i == |rs| {
      assert rs[..i] == rs;
    } else {
      var init := rs[..|rs| - 1];
      assert init[..i] == rs[..i];
      ExtractPrefix(input, init, i);
    }
  }

  /** Resolving one more descriptor: ResolveAll extends by its range, or fails with it. */
  lemma ResolveAllSnoc(inSize: Off, descs: seq<string>, i: nat, rs: seq<Range>, r: Option<Range>)
    requires i < |descs| && ResolveAll(inSize, descs[..i]) == Some(rs)
    requires r == Resolve(inSize, LastTo(rs), descs[i])
    ensures r.None? ==> ResolveAll(inSize, descs[..i + 1]).None?
    ensures r.Some? ==> ResolveAll(inSize, descs[..i + 1]) == Some(rs + [r.value])
    ensures r.Some? ==> LastTo(rs + [r.value]) == r.value.to
    ensures r.Some? ==> TotalLength(rs + [r.value]) == TotalLength(rs) + (r.value.to - r.value.from)
  {
    assert descs[..i + 1][..i] == descs[..i];
    assert descs[..i + 1][i] == descs[i];
    if r.Some? {
      assert (rs + [r.value])[..|rs|] == rs;
    }
  }

  /** Descriptor i resolves, against the TO of the ranges before it, to range i. */
  lemma ResolveAllStep(inSize: Off, descs: seq<string>, i: nat)
    requires i < |descs| && ResolveAll(inSize, descs).Some?
    ensures Resolve(inSize, LastTo(ResolveAll(inSize, descs).value[..i]), descs[i])
      == Some(ResolveAll(inSize, descs).value[i])
  {
    var rs := ResolveAll(inSize, descs).value;
    ResolveAllPrefix(inSize, descs, i + 1);
    assert descs[..i + 1][..i] == descs[..i];
    assert descs[..i + 1][i] == descs[i];
    assert rs[..i + 1][..i] == rs[..i];
    assert rs[..i + 1][i] == rs[i];
  }

  /** Taking one more range extends LastTo, TotalLength and Extract by that range. */
  lemma ExtendPrefix(input: seq<bv8>, rs: seq<Range>, i: nat)
    requires WithinInput(rs, |input|) && i < |rs|
    ensures WithinInput(rs[..i], |input|) && WithinInput(rs[..i + 1], |input|)
    ensures LastTo(rs[..i + 1]) == rs[i].to
    ensures TotalLength(rs[..i + 1]) == TotalLength(rs[..i]) + (rs[i].to - rs[i].from)
    ensures Extract(input, rs[..i + 1]) == Extract(input, rs[..i]) + input[rs[i].from..rs[i].to]
  {
    assert rs[..i + 1][..i] == rs[..i];
    assert rs[..i + 1][i] == rs[i];
  }

  /** The output before range i, followed by range i, is a prefix of the whole output. */
  lemma RangeIsPrefix(input: seq<bv8>, rs: seq<Range>, i: nat)
    requires WithinInput(rs, |input|) && i < |rs|
    ensures WithinInput(rs[..i], |input|)
    ensures Extract(input, rs[..i]) + input[rs[i].from..rs[i].to] <= Extract(input, rs)
  {
    ExtendPrefix(input, rs, i);
    ExtractPrefix(input, rs, i + 1);
  }

  /** The first `got` bytes of the block at `pos` extend the slice that ends at `pos`. */
  lemma SliceSteps(input: seq<bv8>, from: nat, pos: nat, got: nat, size: nat)
    requires from <= pos && got <= size && pos + size <= |input|
    ensures input[pos..pos + size][..got] == input[pos..pos + got]
    ensures input[from..pos] + input[pos..pos + got] == input[from..pos + got]
  {
  }

  /** Cutting the last slice short keeps a prefix a prefix. */
  lemma PartialSlice(done: seq<bv8>, input: seq<bv8>, from: int, x: int, to: int, whole: seq<bv8>)
    requires 0 <= from <= x <= to <= |input|
    requires done + input[from..to] <= whole
    ensures done + input[from..x] <= whole
  {
    assert input[from..to][..x - from] == input[from..x];
    PrefixAppend(done, input[from..x], input[from..to]);
  }

  lemma PrefixAppend<T>(a: seq<T>, b: seq<T>, c: seq<T>)
    requires b <= c
    ensures a + b <= a + c
  {
    assert (a + c)[..|a + b|] == a + b;
  }

  /** The byte count of a log of blocks. */
  function Sum(bs: seq<nat>): nat {
    if bs == [] then 0 else Sum(bs[..|bs| - 1]) + bs[|bs| - 1]
  }

  lemma {:induction false} SumAppend(a: seq<nat>, b: seq<nat>)
    ensures Sum(a + b) == Sum(a) + Sum(b)
    decreases |b|
  {
    if b == [] {
      assert a + b == a;
    } else {
      assert (a + b)[..|a + b| - 1] == a + b[..|b| - 1];
      SumAppend(a, b[..|b| - 1]);
    }
  }

  /** Every logged block is nonempty and fits the buffer of RW_BUFFSIZE bytes. */
  predicate BlocksBounded(bs: seq<nat>) {
    forall k :: 0 <= k < |bs| ==> 0 < bs[k] <= RW_BUFFSIZE
  }

  lemma BoundedSnoc(bs: seq<nat>, b: nat)
    requires BlocksBounded(bs) && 0 < b <= RW_BUFFSIZE
    ensures BlocksBounded(bs + [b])
  {
  }

  lemma BoundedAppend(a: seq<nat>, b: seq<nat>)
    requires BlocksBounded(a) && BlocksBounded(b)
    ensures BlocksBounded(a + b)
  {
  }

  /** Logging one more block adds its size. */
  lemma SumSnoc(bs: seq<nat>, b: nat)
    ensures Sum(bs + [b]) == Sum(bs) + b
  {
    assert (bs + [b])[..|bs|] == bs;
  }

  /**
   * The validation pass: resolve every descriptor in order, threading
   * prev_to from 0, and sum the lengths. It fails at the first descriptor
   * that does not resolve and reports its index.
   */
  method ValidateRanges(inSize: Off, descs: seq<string>) returns (v: Status, expectedSize: int)
    ensures v.Done? || v.InvalidRange?
    ensures v.Done? <==> ResolveAll(inSize, descs).Some?
    ensures v.Done? ==> expectedSize == TotalLength(ResolveAll(inSize, descs).value)
    ensures v.InvalidRange? ==>
      v.index < |descs| && ResolveAll(inSize, descs[..v.index]).Some? &&
      Resolve(inSize, LastTo(ResolveAll(inSize, descs[..v.index]).value), descs[v.index]).None?
  {
    expectedSize := 0;
    var prevTo: Off := 0;
    ghost var rs: seq<Range> := [];
    var i := 0;
    while i < |descs|
      invariant 0 <= i <= |descs|
      invariant ResolveAll(inSize, descs[..i]) == Some(rs)
      invariant prevTo == LastTo(rs)
      invariant expectedSize == TotalLength(rs)
    {
      var range := GetRange(inSize, prevTo, descs[i]);
      ResolveAllSnoc(inSize, descs, i, rs, range);
      if range.None? {
        ResolveAllFailsAfterPrefix(inSize, descs, i + 1);
        return InvalidRange(i), expectedSize;
      }
      expectedSize := expectedSize + (range.value.to - range.value.from);
      prevTo := range.value.to;
      rs := rs + [range.value];
      i := i + 1;
    }
    assert descs[..i] == descs;
    v := Done;
  }

  /**
   * One block of the copy loop: fread of `size` bytes into the buffer of
   * RW_BUFFSIZE bytes, then fwrite of what was read. A short or failed read writes nothing; a short write sends
   * only the first `got` bytes on. `ioOk` says the environment lets every
   * read and write go through in full.
   */
  method CopyBlock(size: nat, ioOk: bool) returns (status: Status, got: nat)
    requires size <= RW_BUFFSIZE
    ensures status.Done? || status.ReadFailed? || status.WriteFailed?
    ensures got <= size
    ensures status.Done? ==> got == size
    ensures status.WriteFailed? ==> got < size
    ensures status.ReadFailed? ==> got == 0
    ensures ioOk ==> status.Done?
  {
    var readOk: bool :| ioOk ==> readOk;
    if !readOk {
      return ReadFailed, 0;
    }
    got :| got <= size && (ioOk ==> got == size);
    status := if got == size then Done else WriteFailed;
  }

  /**
   * One range of the copy pass: seek the input to `range.from`, then
   * read and write `range.to - range.from` bytes in blocks of at most
   * RW_BUFFSIZE. `written` is what reached the output, `processed` the
   * bytes counted into total_processed. When the output so far, `done`,
   * followed by the whole range is a prefix of `whole`, so is `done`
   * followed by what this range wrote, however the copy ends.
   */
  method CopyRange(input: seq<bv8>, range: Range, ioOk: bool, ghost done: seq<bv8>, ghost whole: seq<bv8>)
    returns (status: Status, written: seq<bv8>, blocks: seq<nat>, processed: int)
    requires 0 <= range.from <= range.to <= |input|
    requires done + input[range.from..range.to] <= whole
    ensures done + written <= whole
    ensures status.Done? || status.SeekFailed? || status.ReadFailed? || status.WriteFailed?
    ensures range.from + |written| <= range.to
    ensures written == input[range.from..range.from + |written|]
    ensures status.Done? ==> written == input[range.from..range.to]
    ensures status.Done? ==> processed == range.to - range.from
    ensures BlocksBounded(blocks)
    ensures |written| <= Sum(blocks) <= range.to - range.from
    ensures status.Done? ==> Sum(blocks) == range.to - range.from
    ensures ioOk ==> status.Done?
  {
    status, written, blocks, processed := Done, [], [], 0;
    var seekOk: bool :| ioOk ==> seekOk;
    if !seekOk {
      PartialSlice(done, input, range.from, range.from, range.to, whole);
      return SeekFailed(range.from), written, blocks, processed;
    }
    var pos := range.from;
    var toread := range.to - range.from;
    while toread != 0
      invariant range.from <= pos <= range.to
      invariant toread == range.to - pos
      invariant written == input[range.from..pos] && |written| == pos - range.from
      invariant processed == pos - range.from
      invariant BlocksBounded(blocks)
      invariant Sum(blocks) == pos - range.from
    {
      var singleRead := if toread < RW_BUFFSIZE then toread else RW_BUFFSIZE;
      assert 0 < singleRead <= RW_BUFFSIZE && singleRead <= toread;
      SumSnoc(blocks, singleRead);
      BoundedSnoc(blocks, singleRead);
      blocks := blocks + [singleRead];
      var blockStatus, got := CopyBlock(singleRead, ioOk);
      SliceSteps(input, range.from, pos, got, singleRead);
      written := written + input[pos..pos + got];
      if !blockStatus.Done? {
        PartialSlice(done, input, range.from, pos + got, range.to, whole);
        return blockStatus, written, blocks, processed;
      }
      toread := toread - got;
      processed := processed + got;
      pos := pos + got;
    }
  }

  /**
   * get_range as the copy pass calls it: the validation pass has resolved
   * the same descriptor against the same prev_to, so it succeeds again,
   * with range i.
   */
  method RangeAgain(inSize: Off, descs: seq<string>, i: nat, prevTo: Off) returns (range: Range)
    requires ResolveAll(inSize, descs).Some? && i < |descs|
    requires prevTo == LastTo(ResolveAll(inSize, descs).value[..i])
    ensures range == ResolveAll(inSize, descs).value[i]
  {
    ResolveAllStep(inSize, descs, i);
    var r := GetRange(inSize, prevTo, descs[i]);
    if r.None? {
      assert false;
    }
    range := r.value;
  }

  /**
   * The copy pass: resolve every descriptor again, threading prev_to from
   * 0, and copy its range. It runs only after the validation pass has
   * succeeded, and the whole loop is skipped when the expected size is 0.
   */
  method CopyRanges(input: seq<bv8>, descs: seq<string>, expectedSize: int, ioOk: bool)
    returns (status: Status, output: seq<bv8>, blocks: seq<nat>, totalProcessed: int)
    requires |input| <= OFF_T_MAX
    requires ResolveAll(|input|, descs).Some?
    requires expectedSize == TotalLength(ResolveAll(|input|, descs).value)
    ensures !status.InvalidRange?
    ensures output <= Extract(input, ResolveAll(|input|, descs).value)
    ensures status.Done? ==> output == Extract(input, ResolveAll(|input|, descs).value)
    ensures status.Done? ==> totalProcessed == expectedSize
    ensures BlocksBounded(blocks)
    ensures status.Done? ==> Sum(blocks) == expectedSize
    ensures ioOk ==> status.Done?
  {
    var inSize: Off := |input|;
    ghost var ranges := ResolveAll(inSize, descs).value;
    status, output, blocks, totalProcessed := Done, [], [], 0;
    var prevTo: Off := 0;
    var i := 0;
    while i < |descs| && expectedSize != 0
      invariant 0 <= i <= |descs|
      invariant WithinInput(ranges[..i], |input|)
      invariant prevTo == LastTo(ranges[..i])
      invariant output == Extract(input, ranges[..i])
      invariant totalProcessed == TotalLength(ranges[..i])
      invariant BlocksBounded(blocks)
      invariant Sum(blocks) == totalProcessed
    {
      ExtendPrefix(input, ranges, i);
      RangeIsPrefix(input, ranges, i);
      var range := RangeAgain(inSize, descs, i, prevTo);
      prevTo := range.to;
      var rangeStatus, written, rangeBlocks, processed := CopyRange(input, range, ioOk, output, Extract(input, ranges));
      SumAppend(blocks, rangeBlocks);
      BoundedAppend(blocks, rangeBlocks);
      output := output + written;
      blocks := blocks + rangeBlocks;
      totalProcessed := totalProcessed + processed;
      if !rangeStatus.Done? {
        return rangeStatus, output, blocks, totalProcessed;
      }
      i := i + 1;
    }
    CopyComplete(input, ranges, i);
  }

  /**
   * When the copy loop ends without an error, either every range was
   * copied or the expected size is 0 and nothing is left to copy.
   */
  lemma CopyComplete(input: seq<bv8>, rs: seq<Range>, i: nat)
    requires WithinInput(rs, |input|) && i <= |rs|
    requires i == |rs| || TotalLength(rs) == 0
    ensures WithinInput(rs[..i], |input|)
    ensures Extract(input, rs[..i]) == Extract(input, rs)
    ensures TotalLength(rs[..i]) == TotalLength(rs)
  {
    ExtractPrefix(input, rs, i);
    if i == |rs| {
      assert rs[..i] == rs;
    }
  }

  /**
   * Both passes: nothing is copied unless every descriptor resolves; after
   * a copy without I/O errors the output is the input's bytes of every
   * range, in argument order.
   */
  method Run(input: seq<bv8>, descs: seq<string>, ioOk: bool)
    returns (status: Status, output: seq<bv8>, blocks: seq<nat>)
    requires |input| <= OFF_T_MAX
    ensures status.InvalidRange? <==> ResolveAll(|input|, descs).None?
    ensures status.InvalidRange? ==> output == [] && status.index < |descs|
    ensures status.InvalidRange? ==> ResolveAll(|input|, descs[..status.index]).Some?
    ensures status.InvalidRange? ==>
      Resolve(|input|, LastTo(ResolveAll(|input|, descs[..status.index]).value), descs[status.index]).None?
    ensures ResolveAll(|input|, descs).Some? ==> output <= Extract(input, ResolveAll(|input|, descs).value)
    ensures status.Done? ==> output == Extract(input, ResolveAll(|input|, descs).value)
    ensures BlocksBounded(blocks)
    ensures status.Done? ==> Sum(blocks) == TotalLength(ResolveAll(|input|, descs).value)
    ensures ioOk && ResolveAll(|input|, descs).Some? ==> status.Done?
  {
    var inSize: Off := |input|;
    var v, expectedSize := ValidateRanges(inSize, descs);
    if v.InvalidRange? {
      return v, [], [];
    }
    var totalProcessed;
    status, output, blocks, totalProcessed := CopyRanges(input, descs, expectedSize, ioOk);
  }
}
