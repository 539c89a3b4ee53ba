/** What a run of requests did to a file that was written. */
module Writes {
  import opened AllocPlan
  import opened ExfatTypes
  import opened FileSystem
  import opened Mapping
  import opened Runs
  import opened Truncation
  import opened Volumes

  /** The sizes on disk are whole blocks and not below the sizes. */
  ghost predicate Aligned(bs: nat, s: FileState) {
    bs > 0 && s.ondisk % bs == 0 && s.size <= s.ondisk
  }

  ghost predicate AllAligned(bs: nat, files: seq<FileState>) {
    forall i :: 0 <= i < |files| ==> Aligned(bs, files[i])
  }

  lemma OndiskAligned(size: nat, ondisk: nat, block: nat, bs: nat, mapped: bool)
    requires bs > 0 && ondisk % bs == 0 && size <= ondisk
    ensures var o := OndiskAfter(size, ondisk, block, bs, mapped); o % bs == 0 && size <= ondisk <= o
  {
    ModZero(block + 1, bs);
  }

  lemma DidAligned(op: Op, bs: nat, spc: nat, m: Marks, s: FileState, s': FileState, asked: seq<Request>)
    requires bs > 0 && spc > 0 && bs * spc > 0 && Did(op, bs, spc, m, s, s', asked) && Aligned(bs, s)
    ensures Aligned(bs, s')
  {
    if op.Write? { OndiskAligned(s.size, s.ondisk, op.block, bs, true); }
  }

  lemma SteppedAligned(op: Op, bs: nat, spc: nat, s: Snap, s': Snap)
    requires bs > 0 && spc > 0 && bs * spc > 0 && Stepped(op, bs, spc, s, s') && AllAligned(bs, s.files)
    ensures AllAligned(bs, s'.files)
  {
    if !op.Create? && !op.Delete? && op.file < |s.files| {
      DidAligned(op, bs, spc, s.marks, s.files[op.file], s'.files[op.file], s'.served[|s.served|..]);
    }
  }

  /** One step of a run, and what was asked of the volume up to it. */
  lemma {:induction false} RanAt(ops: seq<Op>, bs: nat, spc: nat, trace: seq<Snap>, i: nat)
    requires bs > 0 && spc > 0 && bs * spc > 0 && Ran(ops, bs, spc, trace) && i < |ops|
    ensures Stepped(ops[i], bs, spc, trace[i], trace[i + 1])
    ensures trace[i + 1].served <= trace[|ops|].served
    ensures AllAligned(bs, trace[0].files) ==> AllAligned(bs, trace[i].files)
    decreases |ops|
  {
    var later := trace[1..];
    assert ops[1..] == [] || later[0] == trace[1];
    if AllAligned(bs, trace[0].files) { SteppedAligned(ops[0], bs, spc, trace[0], trace[1]); }
    if i > 0 {
      RanAt(ops[1..], bs, spc, later, i - 1);
      assert later[i - 1] == trace[i] && later[i] == trace[i + 1] && later[|ops| - 1] == trace[|ops|];
    } else {
      ServedGrows(ops[1..], bs, spc, later);
      assert later[|ops| - 1] == trace[|ops|];
    }
  }

  lemma {:induction false} ServedGrows(ops: seq<Op>, bs: nat, spc: nat, trace: seq<Snap>)
    requires bs > 0 && spc > 0 && bs * spc > 0 && Ran(ops, bs, spc, trace)
    ensures trace[0].served <= trace[|ops|].served
    decreases |ops|
  {
    if ops != [] {
      ServedGrows(ops[1..], bs, spc, trace[1..]);
      assert trace[1..][|ops| - 1] == trace[|ops|];
    }
  }

  /** A size within a block that is mapped is within the size on disk. */
  lemma SizeReached(bs: nat, block: nat, upTo: nat, s: FileState)
    requires Aligned(bs, s) && upTo <= (block + 1) * bs
    ensures upTo <= OndiskAfter(s.size, s.ondisk, block, bs, true)
  {
    if s.size > block * bs {
      var q := s.ondisk / bs;
      assert s.ondisk == q * bs;
      if q <= block { BelowProduct(q, block, bs); } else { BelowProduct(block + 1, q, bs); }
    }
  }

  lemma BelowProduct(a: nat, b: nat, d: nat)
    requires a <= b
    ensures a * d <= b * d
  {
  }

  /** What a volume grants to a file that asks for one cluster. */
  lemma OneGranted(m: Marks, dir: nat)
    requires Grants(m, dir, 1) && |Granted(m, dir, 1)| == 1
    ensures IsValidCluster(m.n, Granted(m, dir, 1)[0]) && Granted(m, dir, 1)[0] !in m.inUse
  {
    PlanFresh(m.inUse, m.n, StartHint(m.inUse, m.n, m.ptr, dir), 1);
    FreshIndex(m.n, m.inUse, Granted(m, dir, 1));
  }

  /** A write in any run: of a cluster that the file has, or of the next one when the
      volume as it stands before the request grants it, the block is in the file
      afterwards, at a cluster of its own or one that was free; and the size reaches
      what was written of the block. A next cluster that is not granted leaves the file
      as it was. */
  lemma WriteDone(ops: seq<Op>, bs: nat, spc: nat, trace: seq<Snap>, i: nat)
    requires bs > 0 && spc > 0 && bs * spc > 0 && Ran(ops, bs, spc, trace) && i < |ops| && ops[i].Write?
    requires ops[i].file < |trace[i].files| && AllAligned(bs, trace[0].files)
    requires forall j :: 0 <= j < |trace[|ops|].served| ==> Answered(trace[|ops|].served[j])
    ensures ops[i].file < |trace[i + 1].files|
    ensures var s, s' := trace[i].files[ops[i].file], trace[i + 1].files[ops[i].file];
            var off := ops[i].block / spc;
            off <= |s.cs| && off < EOF_CLUSTER ==>
              if off < |s.cs| || Grants(trace[i].marks, NextDir(s.cs), 1) then
                && s.cs <= s'.cs && |s'.cs| == (if off < |s.cs| then |s.cs| else off + 1)
                && (off == |s.cs| ==>
                      IsValidCluster(trace[i].marks.n, s'.cs[off]) && s'.cs[off] !in trace[i].marks.inUse)
                && (s.size < ops[i].upTo <= (ops[i].block + 1) * bs ==> s'.size == ops[i].upTo)
              else s' == s
  {
    RanAt(ops, bs, spc, trace, i);
    var t, t', k := trace[i], trace[i + 1], ops[i].file;
    var asked := t'.served[|t.served|..];
    if |asked| == 1 {
      assert asked[0] == trace[|ops|].served[|t.served|];
      WroteMeans(bs, spc, ops[i].block, ops[i].upTo, t.marks, t.files[k], t'.files[k], asked);
    } else {
      WroteOwn(bs, spc, ops[i].block, ops[i].upTo, t.marks, t.files[k], t'.files[k], asked);
    }
  }

  lemma WroteOwn(bs: nat, spc: nat, block: nat, upTo: nat, m: Marks, s: FileState, s': FileState, asked: seq<Request>)
    requires spc > 0 && Aligned(bs, s) && Wrote(bs, spc, block, upTo, m, s, s', asked) && |asked| != 1
    ensures block / spc != |s.cs| || block / spc >= EOF_CLUSTER
    ensures block / spc < |s.cs| && block / spc < EOF_CLUSTER ==>
              s'.cs == s.cs && (s.size < upTo <= (block + 1) * bs ==> s'.size == upTo)
  {
    if upTo <= (block + 1) * bs { SizeReached(bs, block, upTo, s); }
  }

  lemma WroteMeans(bs: nat, spc: nat, block: nat, upTo: nat, m: Marks, s: FileState, s': FileState, asked: seq<Request>)
    requires spc > 0 && Aligned(bs, s) && Wrote(bs, spc, block, upTo, m, s, s', asked) && |asked| == 1
    requires Answered(asked[0])
    ensures block / spc == |s.cs|
    ensures if Grants(m, NextDir(s.cs), 1) then
              && s.cs <= s'.cs && |s'.cs| == |s.cs| + 1
              && IsValidCluster(m.n, s'.cs[|s.cs|]) && s'.cs[|s.cs|] !in m.inUse
              && (s.size < upTo <= (block + 1) * bs ==> s'.size == upTo)
            else s' == s
  {
    if asked[0].ok {
      OneGranted(m, NextDir(s.cs));
      if upTo <= (block + 1) * bs { SizeReached(bs, block, upTo, s); }
    }
  }
}
