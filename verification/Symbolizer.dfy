/** `symbolize_frame`: the inline chain of records for an address, and the lines they
    are attributed to. */
module Symbolizer {
  import opened Wrappers
  import opened Bytes
  import opened Sorting
  import opened IntervalTree
  import opened IntervalQuery
  import opened IntervalIter
  import opened FlameTrie
  import opened StackTraces
  import opened SymbolRecords

  datatype SymbolizedFrame = SymbolizedFrame(raw: Frame, func: Option<string>, file: Option<string>, line: Option<u32>)

  function Unsymbolized(raw: Frame): SymbolizedFrame {
    SymbolizedFrame(raw, None, None, None)
  }

  /** A row of the table of interpreter frames. */
  datatype FrameMetaData = FrameMetaData(fileName: Option<string>, functionName: Option<string>, lineNumber: u64)

  // -------------------------------------------------------------- line table

  /** Length of the longest prefix of the line table with offsets up to `d`. */
  function Covered(lines: seq<LineEntry>, d: nat): (n: nat)
    ensures n <= |lines|
    ensures forall i {:trigger lines[i]} | 0 <= i < n :: lines[i].offset <= d
    ensures n < |lines| ==> lines[n].offset > d
  {
    if |lines| == 0 || lines[0].offset > d then 0 else 1 + Covered(lines[1..], d)
  }

  function LineFor(lines: seq<LineEntry>, d: nat): Option<u32> {
    var n := Covered(lines, d);
    if n == 0 then None else Some(lines[n - 1].line)
  }

  lemma {:induction false} CoveredIs(lines: seq<LineEntry>, d: nat, n: nat)
    requires n <= |lines| && (n < |lines| ==> lines[n].offset > d)
    requires forall i {:trigger lines[i]} | 0 <= i < n :: lines[i].offset <= d
    ensures Covered(lines, d) == n
  {
  }

  /** `line_number_for_va` */
  method LineNumberForVa(lines: seq<LineEntry>, start: u64, va: u64) returns (line: Option<u32>)
    ensures line == if va < start then None else LineFor(lines, va - start)
  {
    line := None;
    if va < start {
      return;
    }
    var maxOffs := va - start;
    var i := 0;
    while i < |lines|
      invariant i <= |lines|
      invariant forall j {:trigger lines[j]} | 0 <= j < i :: lines[j].offset <= maxOffs
      invariant line == if i == 0 then None else Some(lines[i - 1].line)
    {
      if lines[i].offset > maxOffs {
        break;
      }
      line := Some(lines[i].line);
      i := i + 1;
    }
    CoveredIs(lines, maxOffs, i);
  }

  /** On a sorted line table the line is that of the greatest offset up to `d`, and
      there is none only if all offsets are beyond it. */
  lemma {:induction false} LineForIsGreatest(lines: seq<LineEntry>, d: nat)
    requires forall i, j {:trigger lines[i], lines[j]} | 0 <= i < j < |lines| :: lines[i].offset <= lines[j].offset
    ensures LineFor(lines, d).None? <==> forall i {:trigger lines[i]} | 0 <= i < |lines| :: lines[i].offset > d
    ensures LineFor(lines, d).Some? ==>
      exists i {:trigger lines[i]} ::
        && 0 <= i < |lines| && lines[i].offset <= d && LineFor(lines, d) == Some(lines[i].line)
        && forall j {:trigger lines[j]} | 0 <= j < |lines| && lines[j].offset <= d :: lines[j].offset <= lines[i].offset
  {
    var n := Covered(lines, d);
    if n > 0 {
      assert lines[n - 1].offset <= d;
      forall j | 0 <= j < |lines| && lines[j].offset <= d ensures lines[j].offset <= lines[n - 1].offset {
      }
    } else {
      forall i | 0 <= i < |lines| ensures lines[i].offset > d {
        if i > 0 {
          assert lines[0].offset <= lines[i].offset;
        }
      }
    }
  }

  // --------------------------------------------------------- sort and dedup

  ghost predicate DepthIn(syms: seq<Element<SymRange>>, depth: u16) {
    exists i {:trigger syms[i]} :: 0 <= i < |syms| && syms[i].value.depth == depth
  }

  ghost predicate StrictlyDeeper(syms: seq<Element<SymRange>>) {
    forall i, j {:trigger syms[i], syms[j]} | 0 <= i < j < |syms| :: syms[i].value.depth < syms[j].value.depth
  }

  /** One of the hits for each depth among them, in order of depth. */
  ghost predicate Picks(syms: seq<Element<SymRange>>, hits: seq<Element<SymRange>>) {
    && StrictlyDeeper(syms)
    && (forall i {:trigger syms[i]} | 0 <= i < |syms| :: syms[i] in hits)
    && (forall i {:trigger DepthIn(syms, hits[i].value.depth)} | 0 <= i < |hits| :: DepthIn(syms, hits[i].value.depth))
  }

  /** `sort_unstable_by_key(depth)` and `dedup_by_key(depth)` */
  method SortAndDedup(hits: seq<Element<SymRange>>) returns (syms: seq<Element<SymRange>>)
    ensures Picks(syms, hits)
  {
    var sorted := SortByDepth(hits);
    syms := Dedup(sorted);
    forall i | 0 <= i < |syms| ensures syms[i] in hits {
      assert syms[i] in multiset(sorted);
    }
    forall i | 0 <= i < |hits| ensures DepthIn(syms, hits[i].value.depth) {
      assert hits[i] in multiset(sorted);
      var j :| 0 <= j < |sorted| && sorted[j] == hits[i];
      assert DepthIn(syms, sorted[j].value.depth);
    }
  }

  method SortByDepth(hits: seq<Element<SymRange>>) returns (r: seq<Element<SymRange>>)
    ensures multiset(r) == multiset(hits)
    ensures forall i, j {:trigger r[i], r[j]} | 0 <= i < j < |r| :: r[i].value.depth <= r[j].value.depth
  {
    r := SortByKey((x: int, y: int) => x <= y, (e: Element<SymRange>) => e.value.depth as int, hits);
  }

  method Dedup(sorted: seq<Element<SymRange>>) returns (r: seq<Element<SymRange>>)
    requires forall i, j {:trigger sorted[i], sorted[j]} | 0 <= i < j < |sorted| :: sorted[i].value.depth <= sorted[j].value.depth
    ensures Picks(r, sorted)
  {
    r := [];
    var i := 0;
    while i < |sorted|
      invariant i <= |sorted|
      invariant Picks(r, sorted[..i])
      invariant i > 0 ==> |r| > 0 && r[|r| - 1].value.depth == sorted[i - 1].value.depth
    {
      r := PushNew(r, sorted[i], sorted[..i]);
      assert sorted[..i + 1] == sorted[..i] + [sorted[i]];
      i := i + 1;
    }
    assert sorted[..i] == sorted;
  }

  /** Keeps an element unless the last one that was kept has its depth. */
  method PushNew(was: seq<Element<SymRange>>, e: Element<SymRange>, ghost hits: seq<Element<SymRange>>) returns (r: seq<Element<SymRange>>)
    requires Picks(was, hits) && (|was| > 0 ==> was[|was| - 1].value.depth <= e.value.depth)
    ensures Picks(r, hits + [e]) && |r| > 0 && r[|r| - 1].value.depth == e.value.depth
  {
    r := was;
    if |r| == 0 || r[|r| - 1].value.depth != e.value.depth {
      r := r + [e];
    }
    PicksNext(was, r, hits, e);
  }

  lemma {:induction false} PicksNext(was: seq<Element<SymRange>>, r: seq<Element<SymRange>>, hits: seq<Element<SymRange>>, e: Element<SymRange>)
    requires Picks(was, hits)
    requires |was| > 0 ==> was[|was| - 1].value.depth <= e.value.depth
    requires r == if |was| > 0 && was[|was| - 1].value.depth == e.value.depth then was else was + [e]
    ensures Picks(r, hits + [e])
  {
    MembersStay(was, r, hits, e);
    DeeperStays(was, r, e);
    forall i | 0 <= i < |hits + [e]| ensures DepthIn(r, (hits + [e])[i].value.depth) {
      assert i < |hits| ==> DepthIn(was, hits[i].value.depth);
      DepthsStay(was, r, hits, e, i);
    }
  }

  lemma {:induction false} DeeperStays(was: seq<Element<SymRange>>, r: seq<Element<SymRange>>, e: Element<SymRange>)
    requires StrictlyDeeper(was) && (|was| > 0 ==> was[|was| - 1].value.depth <= e.value.depth)
    requires r == if |was| > 0 && was[|was| - 1].value.depth == e.value.depth then was else was + [e]
    ensures StrictlyDeeper(r)
  {
  }

  lemma {:induction false} DepthsStay(was: seq<Element<SymRange>>, r: seq<Element<SymRange>>, hits: seq<Element<SymRange>>, e: Element<SymRange>, i: nat)
    requires i <= |hits| && (i < |hits| ==> DepthIn(was, hits[i].value.depth))
    requires r == if |was| > 0 && was[|was| - 1].value.depth == e.value.depth then was else was + [e]
    ensures DepthIn(r, (hits + [e])[i].value.depth)
  {
    if i < |hits| {
      DepthStays(was, r, hits[i].value.depth);
    } else {
      assert r[|r| - 1].value.depth == e.value.depth;
    }
  }

  lemma {:induction false} MembersStay<T>(was: seq<T>, r: seq<T>, hits: seq<T>, e: T)
    requires forall i {:trigger was[i]} | 0 <= i < |was| :: was[i] in hits
    requires r == was || r == was + [e]
    ensures forall i {:trigger r[i]} | 0 <= i < |r| :: r[i] in hits + [e]
  {
    forall i | 0 <= i < |r| ensures r[i] in hits + [e] {
      if i < |was| {
        assert was[i] in hits;
      }
    }
  }

  lemma {:induction false} DepthStays(was: seq<Element<SymRange>>, r: seq<Element<SymRange>>, depth: u16)
    requires was <= r && DepthIn(was, depth)
    ensures DepthIn(r, depth)
  {
    var j :| 0 <= j < |was| && was[j].value.depth == depth;
    assert r[j] == was[j];
  }

  // ------------------------------------------------------------- the records

  predicate Contains(r: RangeRecord, addr: u64) {
    r.start <= addr < r.end
  }

  ghost predicate DepthPicked(picked: seq<RangeRecord>, depth: u16) {
    exists i {:trigger picked[i]} :: 0 <= i < |picked| && picked[i].depth % 0x1_0000 == depth
  }

  /** Each element has the record of the same position behind it, and that contains
      the address. */
  ghost predicate AreBehind(strings: seq<string>, syms: seq<Element<SymRange>>, picked: seq<RangeRecord>, addr: u64) {
    && |picked| == |syms|
    && forall i {:trigger syms[i]} | 0 <= i < |syms| :: Describes(strings, syms[i], picked[i]) && Contains(picked[i], addr)
  }

  /** One record for each depth among those that contain the address, from the
      outermost function on. */
  ghost predicate IsChain(picked: seq<RangeRecord>, ranges: seq<RangeRecord>, addr: u64) {
    && (forall i, j {:trigger picked[i], picked[j]} | 0 <= i < j < |picked| :: picked[i].depth % 0x1_0000 < picked[j].depth % 0x1_0000)
    && (forall i {:trigger picked[i]} | 0 <= i < |picked| :: picked[i] in ranges && Contains(picked[i], addr))
    && (forall i {:trigger DepthPicked(picked, ranges[i].depth % 0x1_0000)} | 0 <= i < |ranges| && Contains(ranges[i], addr) ::
          DepthPicked(picked, ranges[i].depth % 0x1_0000))
  }

  /** Frame `j` has the function of record `j`; its file and line are where record
      `j + 1` was called from, or, for the innermost, its own file and the line its
      line table gives for the address. */
  ghost predicate IsFrame(f: SymbolizedFrame, raw: Frame, picked: seq<RangeRecord>, j: nat)
    requires j < |picked|
  {
    && f.raw == raw && f.func == Some(picked[j].func)
    && if j + 1 < |picked| then f.file == picked[j + 1].callFile && f.line == picked[j + 1].callLine
       else f.file == picked[j].file &&
            picked[j].start <= raw.id.addr && f.line == LineFor(picked[j].lines, raw.id.addr - picked[j].start)
  }

  ghost predicate AreFrames(out: seq<SymbolizedFrame>, raw: Frame, picked: seq<RangeRecord>) {
    |out| <= |picked| && forall j {:trigger out[j]} | 0 <= j < |out| :: IsFrame(out[j], raw, picked, j)
  }

  // ------------------------------------------------------------------- code

  /** `symbolize_native_frame`. `picked` is the chain of records that is reported. */
  method SymbolizeNative(db: Option<SymTree>, raw: Frame, inlineFrames: bool,
                         ghost es: seq<Element<SymRange>>, ghost root: Slice, ghost ranges: seq<RangeRecord>)
    returns (out: seq<SymbolizedFrame>, ghost picked: seq<RangeRecord>)
    requires db.Some? ==> Stores(db.value, es, root, ranges)
    ensures db.Some? ==> IsChain(picked, ranges, raw.id.addr)
    ensures db.None? ==> |picked| == 0
    ensures |picked| == 0 ==> out == [SymbolizedFrame(raw, None, None, None)]
    ensures |picked| > 0 ==> |out| == (if inlineFrames then |picked| else 1) && AreFrames(out, raw, picked)
    ensures 1 <= |out| <= U16_RANGE
  {
    picked := [];
    if db.None? {
      return [Unsymbolized(raw)], picked;
    }
    var tree := db.value;
    var addr := raw.id.addr;
    var hits: seq<Element<SymRange>>;
    ghost var pops;
    hits, pops := QueryAll(tree.nodes, Point(addr), es, root);
    var syms := SortAndDedup(hits);
    picked := RecordsOf(tree.strings, syms, hits, addr, es, root, ranges);
    ChainIsShort(picked);
    if |syms| == 0 {
      return [Unsymbolized(raw)], picked;
    }
    out := WalkInline(tree.strings, syms, raw, inlineFrames, picked);
  }

  /** The loop over the peekable iterator. */
  method WalkInline(strings: seq<string>, syms: seq<Element<SymRange>>, raw: Frame, inlineFrames: bool, ghost picked: seq<RangeRecord>)
    returns (out: seq<SymbolizedFrame>)
    requires |strings| <= U32_MAX && |picked| > 0 && AreBehind(strings, syms, picked, raw.id.addr)
    ensures |out| == (if inlineFrames then |picked| else 1) && AreFrames(out, raw, picked)
  {
    out := [];
    var j := 0;
    while j < |syms|
      invariant j == |out| <= |syms|
      invariant !inlineFrames ==> j == 0
      invariant AreFrames(out, raw, picked)
    {
      var f := FrameAt(strings, syms, raw, j, picked);
      out := out + [f];
      j := j + 1;
      if !inlineFrames {
        break;
      }
    }
  }

  method FrameAt(strings: seq<string>, syms: seq<Element<SymRange>>, raw: Frame, j: nat, ghost picked: seq<RangeRecord>)
    returns (f: SymbolizedFrame)
    requires |strings| <= U32_MAX && j < |syms| && AreBehind(strings, syms, picked, raw.id.addr)
    ensures IsFrame(f, raw, picked, j)
  {
    var sym := syms[j].value;
    var file, line := sym.file, None;
    if j + 1 < |syms| {
      file, line := syms[j + 1].value.callFile, syms[j + 1].value.callLine;
    } else {
      assert syms[j].start == picked[j].start;
      line := LineNumberForVa(sym.lines, syms[j].start, raw.id.addr);
    }
    f := SymbolizedFrame(raw, StrByRef(strings, sym.func), StrByRef(strings, file), line);
  }

  /** `symbolize_frame`: native frames by their executable's symbols, others by the
      table of interpreter frames. Always between 1 and 65536 records. */
  method SymbolizeFrame(db: Option<SymTree>, frames: map<FrameId, FrameMetaData>, frame: Frame, inlineFrames: bool,
                        ghost es: seq<Element<SymRange>>, ghost root: Slice, ghost ranges: seq<RangeRecord>)
    returns (out: seq<SymbolizedFrame>, ghost picked: seq<RangeRecord>)
    requires db.Some? ==> Stores(db.value, es, root, ranges)
    ensures 1 <= |out| <= U16_RANGE
    ensures forall i {:trigger out[i]} | 0 <= i < |out| :: out[i].raw == frame
    ensures frame.kind != Regular(Native) ==> |out| == 1
    ensures frame.kind != Regular(Native) && frame.id !in frames ==> out == [SymbolizedFrame(frame, None, None, None)]
    ensures frame.kind != Regular(Native) && frame.id in frames ==>
      out[0].func == frames[frame.id].functionName && out[0].file == frames[frame.id].fileName
      && out[0].line == if frames[frame.id].lineNumber == 0 then None else Some(frames[frame.id].lineNumber % 0x1_0000_0000)
    ensures frame.kind == Regular(Native) && db.Some? ==> IsChain(picked, ranges, frame.id.addr)
    ensures frame.kind == Regular(Native) && |picked| > 0 ==>
      |out| == (if inlineFrames then |picked| else 1) && AreFrames(out, frame, picked)
    ensures frame.kind == Regular(Native) && |picked| == 0 ==> out == [SymbolizedFrame(frame, None, None, None)]
  {
    picked := [];
    if frame.kind == Regular(Native) {
      out, picked := SymbolizeNative(db, frame, inlineFrames, es, root, ranges);
    } else {
      out := [SymbolizeInterpreted(frames, frame)];
    }
  }

  /** `symbolize_iterp_frame`: line zero means none, and lines are cut to 32 bits. */
  function SymbolizeInterpreted(frames: map<FrameId, FrameMetaData>, raw: Frame): SymbolizedFrame {
    if raw.id !in frames then Unsymbolized(raw)
    else
      var m := frames[raw.id];
      SymbolizedFrame(raw, m.functionName, m.fileName,
        if m.lineNumber == 0 then None else Some(m.lineNumber % 0x1_0000_0000))
  }

  // ------------------------------------------------------------------ proofs

  /** What the point query yields: the stored elements that contain the address. */
  lemma {:induction false} HitsMember(es: seq<Element<SymRange>>, root: Slice, addr: u64, e: Element<SymRange>)
    requires root.s == 0 && root.Len() == |es| && Halved(root)
    ensures e in Hits(es, Point(addr), root) <==> e in es && e.start <= addr < e.end
  {
    HitsExact(es, es, Point(addr), root, e);
    assert e in Hits(es, Point(addr), root) <==> multiset(Hits(es, Point(addr), root))[e] > 0;
    assert e in es <==> multiset(es)[e] > 0;
  }

  /** The records behind the picked elements are a chain for the address. */
  lemma {:induction false} RecordsOf(strings: seq<string>, syms: seq<Element<SymRange>>, hits: seq<Element<SymRange>>, addr: u64,
                                     es: seq<Element<SymRange>>, root: Slice, ranges: seq<RangeRecord>)
    returns (picked: seq<RangeRecord>)
    requires SameRecords(strings, es, ranges) && Picks(syms, hits)
    requires root.s == 0 && root.Len() == |es| && Halved(root) && hits == Hits(es, Point(addr), root)
    ensures AreBehind(strings, syms, picked, addr) && IsChain(picked, ranges, addr)
  {
    forall i | 0 <= i < |syms| ensures syms[i] in es && syms[i].start <= addr < syms[i].end {
      HitsMember(es, root, addr, syms[i]);
    }
    picked := Describers(strings, syms, es, ranges);
    forall i | 0 <= i < |ranges| && Contains(ranges[i], addr) ensures DepthPicked(picked, ranges[i].depth % 0x1_0000) {
      assert HasElement(strings, es, ranges[i]);
      var k :| 0 <= k < |es| && Describes(strings, es[k], ranges[i]);
      HitsMember(es, root, addr, es[k]);
      PickedDepth(strings, syms, picked, hits, es[k]);
    }
  }

  lemma {:induction false} PickedDepth(strings: seq<string>, syms: seq<Element<SymRange>>, picked: seq<RangeRecord>, hits: seq<Element<SymRange>>, e: Element<SymRange>)
    requires |picked| == |syms| && Picks(syms, hits) && e in hits
    requires forall i {:trigger syms[i]} | 0 <= i < |syms| :: Describes(strings, syms[i], picked[i])
    ensures DepthPicked(picked, e.value.depth)
  {
    var i :| 0 <= i < |hits| && hits[i] == e;
    assert DepthIn(syms, hits[i].value.depth);
    var j :| 0 <= j < |syms| && syms[j].value.depth == e.value.depth;
    assert picked[j].depth % 0x1_0000 == e.value.depth;
  }

  lemma {:induction false} Describers(strings: seq<string>, syms: seq<Element<SymRange>>, es: seq<Element<SymRange>>, ranges: seq<RangeRecord>)
    returns (picked: seq<RangeRecord>)
    requires SameRecords(strings, es, ranges)
    requires forall i {:trigger syms[i]} | 0 <= i < |syms| :: syms[i] in es
    ensures |picked| == |syms|
    ensures forall i {:trigger syms[i]} {:trigger picked[i]} | 0 <= i < |syms| ::
      Describes(strings, syms[i], picked[i]) && picked[i] in ranges
    decreases |syms|
  {
    if |syms| == 0 {
      picked := [];
    } else {
      var n := |syms| - 1;
      picked := Describers(strings, syms[..n], es, ranges);
      forall i | 0 <= i < n ensures Describes(strings, syms[i], picked[i]) && picked[i] in ranges {
        assert syms[..n][i] == syms[i];
      }
      var r := DescriberOf(strings, syms[n], es, ranges);
      picked := picked + [r];
    }
  }

  lemma {:induction false} DescriberOf(strings: seq<string>, e: Element<SymRange>, es: seq<Element<SymRange>>, ranges: seq<RangeRecord>)
    returns (r: RangeRecord)
    requires SameRecords(strings, es, ranges) && e in es
    ensures Describes(strings, e, r) && r in ranges
  {
    var k :| 0 <= k < |es| && es[k] == e;
    assert HasRecord(strings, es[k], ranges);
    var j :| 0 <= j < |ranges| && Describes(strings, es[k], ranges[j]);
    r := ranges[j];
  }

  /** For records less than 2^16 deep the chain is in order of depth, outermost first,
      and has a record of every depth at the address. */
  lemma {:induction false} ChainByDepth(picked: seq<RangeRecord>, ranges: seq<RangeRecord>, addr: u64)
    requires IsChain(picked, ranges, addr)
    requires forall i {:trigger ranges[i]} | 0 <= i < |ranges| && Contains(ranges[i], addr) :: ranges[i].depth < 0x1_0000
    ensures forall i, j {:trigger picked[i], picked[j]} | 0 <= i < j < |picked| :: picked[i].depth < picked[j].depth
    ensures forall k {:trigger ranges[k]} | 0 <= k < |ranges| && ranges[k].start <= addr < ranges[k].end ::
      exists i {:trigger picked[i]} :: 0 <= i < |picked| && picked[i].depth == ranges[k].depth
  {
    forall i, j | 0 <= i < j < |picked| ensures picked[i].depth < picked[j].depth {
      NotCut(picked, ranges, addr, i);
      NotCut(picked, ranges, addr, j);
    }
    forall k | 0 <= k < |ranges| && ranges[k].start <= addr < ranges[k].end
      ensures exists i {:trigger picked[i]} :: 0 <= i < |picked| && picked[i].depth == ranges[k].depth
    {
      assert Contains(ranges[k], addr) && DepthPicked(picked, ranges[k].depth % 0x1_0000);
      var i :| 0 <= i < |picked| && picked[i].depth % 0x1_0000 == ranges[k].depth % 0x1_0000;
      NotCut(picked, ranges, addr, i);
      assert picked[i].depth == ranges[k].depth;
    }
  }

  lemma {:induction false} NotCut(picked: seq<RangeRecord>, ranges: seq<RangeRecord>, addr: u64, i: nat)
    requires i < |picked| && IsChain(picked, ranges, addr)
    requires forall i {:trigger ranges[i]} | 0 <= i < |ranges| && Contains(ranges[i], addr) :: ranges[i].depth < 0x1_0000
    ensures picked[i].depth % 0x1_0000 == picked[i].depth
  {
    assert picked[i] in ranges && Contains(picked[i], addr);
    var k :| 0 <= k < |ranges| && ranges[k] == picked[i];
    assert ranges[k].depth < 0x1_0000;
  }

  /** Distinct 16-bit depths: no more than 65536 records. */
  lemma {:induction false} ChainIsShort(picked: seq<RangeRecord>)
    requires forall i, j {:trigger picked[i], picked[j]} | 0 <= i < j < |picked| :: picked[i].depth % 0x1_0000 < picked[j].depth % 0x1_0000
    ensures |picked| <= U16_RANGE
  {
    if |picked| > 0 {
      DepthAtLeast(picked, |picked| - 1);
    }
  }

  lemma {:induction false} DepthAtLeast(picked: seq<RangeRecord>, i: nat)
    requires i < |picked|
    requires forall i, j {:trigger picked[i], picked[j]} | 0 <= i < j < |picked| :: picked[i].depth % 0x1_0000 < picked[j].depth % 0x1_0000
    ensures picked[i].depth % 0x1_0000 >= i
    decreases i
  {
    if i > 0 {
      DepthAtLeast(picked, i - 1);
      assert picked[i - 1].depth % 0x1_0000 < picked[i].depth % 0x1_0000;
    }
  }
}
