/** Symbol range records and `insert_symbols`: strings are interned, records become
    elements of an interval tree. */
module SymbolRecords {
  import opened Wrappers
  import opened Bytes
  import opened IntervalTree

  type u32 = n: nat | n < 0x1_0000_0000
  type u16 = n: nat | n < 0x1_0000

  const U32_MAX: u32 := 0xFFFF_FFFF

  datatype LineEntry = LineEntry(offset: u32, line: u32)

  /** A range record of a symbol file: what is known about the code in `[start, end)`
      at one inlining depth, and where that was called from. */
  datatype RangeRecord = RangeRecord(
    start: u64, end: u64,
    func: string, file: Option<string>,
    callFile: Option<string>, callLine: Option<u32>,
    depth: u32, lines: seq<LineEntry>)

  datatype Record = Range(range: RangeRecord) | ReturnPad

  /** The stored form, `SymRange`: strings by reference, depth in 16 bits. */
  datatype SymRange = SymRange(func: u32, file: u32, callFile: u32, callLine: Option<u32>, depth: u16, lines: seq<LineEntry>)

  datatype SymTree = SymTree(strings: seq<string>, nodes: seq<Node<SymRange>>)

  /** `StringRef::NONE` */
  const NONE_REF: u32 := U32_MAX

  /** `str_by_ref` */
  function StrByRef(strings: seq<string>, idx: u32): Option<string> {
    if idx < |strings| then Some(strings[idx]) else None
  }

  /** `depth as u16` */
  function Depth16(r: RangeRecord): u16 {
    r.depth % 0x1_0000
  }

  // ------------------------------------------------------------------- spec

  /** The reference stands for the string in the final table, and in any that has
      more strings at its end. */
  ghost predicate Refers(strings: seq<string>, ref: u32, s: Option<string>) {
    match s
    case None => ref == NONE_REF
    case Some(x) => ref < |strings| && strings[ref] == x
  }

  lemma {:induction false} RefersResolves(strings: seq<string>, ref: u32, s: Option<string>)
    requires Refers(strings, ref, s) && |strings| <= U32_MAX
    ensures StrByRef(strings, ref) == s
  {
  }

  /** The element is the stored form of the record. */
  ghost predicate Describes(strings: seq<string>, e: Element<SymRange>, r: RangeRecord) {
    && e.start == r.start && e.end == r.end
    && Refers(strings, e.value.func, Some(r.func))
    && Refers(strings, e.value.file, r.file)
    && Refers(strings, e.value.callFile, r.callFile)
    && e.value.callLine == r.callLine && e.value.depth == r.depth % 0x1_0000 && e.value.lines == r.lines
  }

  ghost predicate HasRecord(strings: seq<string>, e: Element<SymRange>, ranges: seq<RangeRecord>) {
    exists i {:trigger ranges[i]} :: 0 <= i < |ranges| && Describes(strings, e, ranges[i])
  }

  ghost predicate HasElement(strings: seq<string>, es: seq<Element<SymRange>>, r: RangeRecord) {
    exists i {:trigger es[i]} :: 0 <= i < |es| && Describes(strings, es[i], r)
  }

  /** The elements are the stored forms of exactly the given records. */
  ghost predicate SameRecords(strings: seq<string>, es: seq<Element<SymRange>>, ranges: seq<RangeRecord>) {
    && (forall i {:trigger HasRecord(strings, es[i], ranges)} | 0 <= i < |es| :: HasRecord(strings, es[i], ranges))
    && (forall i {:trigger HasElement(strings, es, ranges[i])} | 0 <= i < |ranges| :: HasElement(strings, es, ranges[i]))
  }

  /** The tree holds exactly the given records. */
  ghost predicate Stores(t: SymTree, es: seq<Element<SymRange>>, root: Slice, ranges: seq<RangeRecord>) {
    IsTree(t.nodes, es, root) && |t.strings| <= U32_MAX && SameRecords(t.strings, es, ranges)
  }

  ghost predicate Described(strings: seq<string>, elements: seq<Element<SymRange>>, records: seq<Record>) {
    && |elements| == |records|
    && forall i {:trigger elements[i]} {:trigger records[i]} | 0 <= i < |records| ::
         records[i].Range? && (|strings| <= U32_MAX ==> Describes(strings, elements[i], records[i].range))
  }

  ghost function Ranges(records: seq<Record>): (r: seq<RangeRecord>)
    requires forall i {:trigger records[i]} | 0 <= i < |records| :: records[i].Range?
    ensures |r| == |records| && forall i {:trigger r[i]} | 0 <= i < |r| :: r[i] == records[i].range
  {
    seq(|records|, i requires 0 <= i < |records| && records[i].Range? => records[i].range)
  }

  // ------------------------------------------------------------------- code

  /** `add_str`: `IndexSet::insert_full` and a cast to 32 bits. */
  method AddStr(strings: seq<string>, s: Option<string>) returns (r: seq<string>, ref: u32)
    requires NoRepeats(strings)
    ensures strings <= r && NoRepeats(r)
    ensures |r| <= U32_MAX ==> Refers(r, ref, s)
  {
    match s
    case None =>
      r, ref := strings, NONE_REF;
    case Some(x) =>
      var i := IndexOf(strings, x);
      r := if i < |strings| then strings else strings + [x];
      ref := i % 0x1_0000_0000;
  }

  method AddRange(strings: seq<string>, range: RangeRecord) returns (r: seq<string>, e: Element<SymRange>)
    requires NoRepeats(strings)
    ensures strings <= r && NoRepeats(r)
    ensures |r| <= U32_MAX ==> Describes(r, e, range)
  {
    var func, file, callFile;
    r, func := AddStr(strings, Some(range.func));
    r, file := AddStr(r, range.file);
    r, callFile := AddStr(r, range.callFile);
    e := Element(range.start, range.end,
      SymRange(func, file, callFile, range.callLine, Depth16(range), range.lines));
  }

  /** The conversion loop of `insert_symbols`: stops with an error at a return pad. */
  method Convert(records: seq<Record>) returns (ok: bool, strings: seq<string>, elements: seq<Element<SymRange>>)
    ensures ok <==> forall i {:trigger records[i]} | 0 <= i < |records| :: records[i].Range?
    ensures ok ==> NoRepeats(strings) && Described(strings, elements, records)
  {
    strings, elements, ok := [], [], true;
    var i := 0;
    while i < |records| && ok
      invariant i <= |records| && NoRepeats(strings)
      invariant ok ==> Described(strings, elements, records[..i])
      invariant !ok ==> exists j {:trigger records[j]} :: 0 <= j < |records| && !records[j].Range?
      decreases |records| - i, ok
    {
      match records[i]
      case ReturnPad =>
        ok := false;
      case Range(range) =>
        ghost var was := strings;
        var e;
        strings, e := AddRange(strings, range);
        DescribedLater(was, strings, elements, records[..i]);
        elements := elements + [e];
        assert records[..i + 1] == records[..i] + [records[i]];
        i := i + 1;
    }
    if ok {
      assert records[..i] == records;
    }
  }

  lemma {:induction false} DescribedLater(a: seq<string>, b: seq<string>, elements: seq<Element<SymRange>>, records: seq<Record>)
    requires a <= b && Described(a, elements, records)
    ensures Described(b, elements, records)
  {
  }

  /** `insert_symbols`: unless the file has a return pad, the tree that is stored holds
      the records of the file and nothing else, each as often as the file does, with
      their own strings. */
  method InsertSymbols(records: seq<Record>)
    returns (ok: bool, tree: SymTree, ghost es: seq<Element<SymRange>>, ghost root: Slice, ghost stored: seq<Element<SymRange>>)
    ensures ok <==> forall i {:trigger records[i]} | 0 <= i < |records| :: records[i].Range?
    ensures ok ==> Described(tree.strings, stored, records) && multiset(es) == multiset(stored)
    ensures ok && |tree.strings| <= U32_MAX ==> Stores(tree, es, root, Ranges(records))
    ensures ok ==> NoRepeats(tree.strings)
  {
    var strings, elements;
    ok, strings, elements := Convert(records);
    var nodes;
    nodes, es, root := FromIter(elements);
    tree, stored := SymTree(strings, nodes[..]), elements;
    if ok && |strings| <= U32_MAX {
      AllStored(strings, elements, es, records);
    }
  }

  lemma {:induction false} AllStored(strings: seq<string>, elements: seq<Element<SymRange>>, es: seq<Element<SymRange>>, records: seq<Record>)
    requires Described(strings, elements, records) && |strings| <= U32_MAX
    requires multiset(es) == multiset(elements)
    ensures SameRecords(strings, es, Ranges(records))
  {
    var ranges := Ranges(records);
    forall i | 0 <= i < |es| ensures HasRecord(strings, es[i], ranges) {
      assert es[i] in multiset(elements);
      var j :| 0 <= j < |elements| && elements[j] == es[i];
      assert Describes(strings, elements[j], ranges[j]);
    }
    forall i | 0 <= i < |ranges| ensures HasElement(strings, es, ranges[i]) {
      assert Describes(strings, elements[i], ranges[i]);
      assert elements[i] in multiset(es);
      var j :| 0 <= j < |es| && es[j] == elements[i];
    }
  }
}
